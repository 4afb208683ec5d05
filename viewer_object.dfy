/**
 `ImageViewer` as an object: the fields its handlers update in place and
 one method per handler.  Each method is proved to leave the fields (seen
 together through State()) exactly as the function of the same name in
 module Viewer says, and to raise exactly when that function does; what
 those functions promise is proved in ViewerFacts.
 */
module ViewerObject {
  import opened PyLib
  import opened Viewer

  class ImageViewer {
    var imageFiles: seq<string>
    var currentImageIndex: int
    var currentImagePath: Option<string>
    var rotationAngle: int
    /** `len(gif_frames)`: the frames themselves are pictures of the image
        library and are not modelled. */
    var gifFrameCount: nat
    var currentGifFrame: int
    var isFullscreen: bool
    /** Whether `gif_timer` is running. */
    var gifTimerActive: bool
    /** The path last handed to the image library successfully. */
    ghost var loaded: Option<string>

    ghost function State(): View
      reads this
    {
      View(imageFiles, currentImageIndex, currentImagePath, rotationAngle,
           gifFrameCount, currentGifFrame, isFullscreen, gifTimerActive, loaded)
    }

    ghost predicate Valid()
      reads this
    {
      WellFormed(State())
    }

    constructor ()
      ensures Valid() && State() == Viewer.Initial()
    {
      currentImagePath := None;
      imageFiles := [];
      currentImageIndex := -1;
      rotationAngle := 0;
      isFullscreen := false;
      gifFrameCount := 0;
      currentGifFrame := 0;
      gifTimerActive := false;
      loaded := None;
    }

    method LoadImage(path: string, disk: string -> Decoded) returns (outcome: Outcome)
      requires Valid()
      modifies this
      ensures Valid()
      ensures Step(State(), outcome) == Viewer.LoadImage(old(State()), path, disk)
    {
      gifTimerActive := false;
      match disk(path) {
        case Unreadable =>
          outcome := Raised(DecodeFailed);
          return;
        case Still =>
        case Gif(n) =>
          gifFrameCount := n;
          currentGifFrame := 0;
          // start_gif_animation
          if gifFrameCount > 0 {
            gifTimerActive := true;
          }
      }
      loaded := Some(path);
      outcome := Done;
    }

    method NextGifFrame() returns (outcome: Outcome)
      requires Valid()
      modifies this
      ensures Valid()
      ensures Step(State(), outcome) == Viewer.NextGifFrame(old(State()))
    {
      outcome := Done;
      if gifFrameCount > 0 {
        if Subscriptable(gifFrameCount, currentGifFrame) {
          currentGifFrame := (currentGifFrame + 1) % gifFrameCount;
        } else {
          outcome := Raised(IndexOutOfRange);
        }
      }
    }

    method PrevImage(disk: string -> Decoded) returns (outcome: Outcome)
      requires Valid()
      modifies this
      ensures Valid()
      ensures Step(State(), outcome) == Viewer.PrevImage(old(State()), disk)
    {
      outcome := Done;
      if currentImageIndex > 0 {
        currentImageIndex := currentImageIndex - 1;
        match PyIndex(imageFiles, currentImageIndex) {
          case None => outcome := Raised(IndexOutOfRange);
          case Some(p) => outcome := LoadImage(p, disk);
        }
      }
    }

    method NextImage(disk: string -> Decoded) returns (outcome: Outcome)
      requires Valid()
      modifies this
      ensures Valid()
      ensures Step(State(), outcome) == Viewer.NextImage(old(State()), disk)
    {
      outcome := Done;
      if currentImageIndex < |imageFiles| - 1 {
        currentImageIndex := currentImageIndex + 1;
        match PyIndex(imageFiles, currentImageIndex) {
          case None => outcome := Raised(IndexOutOfRange);
          case Some(p) => outcome := LoadImage(p, disk);
        }
      }
    }

    method ReloadCurrentImage(disk: string -> Decoded) returns (outcome: Outcome)
      requires Valid()
      modifies this
      ensures Valid()
      ensures Step(State(), outcome) == Viewer.ReloadCurrentImage(old(State()), disk)
    {
      outcome := Done;
      if currentImagePath.Some? && currentImagePath.value != "" {
        outcome := LoadImage(currentImagePath.value, disk);
      }
    }

    method RotateImage(angle: int, disk: string -> Decoded) returns (outcome: Outcome)
      requires Valid()
      modifies this
      ensures Valid()
      ensures Step(State(), outcome) == Viewer.RotateImage(old(State()), angle, disk)
    {
      rotationAngle := (rotationAngle + angle) % 360;
      outcome := ReloadCurrentImage(disk);
    }

    method ToggleFullscreen()
      requires Valid()
      modifies this
      ensures Valid()
      ensures State() == Viewer.ToggleFullscreen(old(State()))
    {
      if isFullscreen {
        isFullscreen := false;
      } else {
        isFullscreen := true;
      }
    }

    method KeyPressEvent(key: Key, disk: string -> Decoded) returns (outcome: Outcome)
      requires Valid()
      modifies this
      ensures Valid()
      ensures Step(State(), outcome) == Viewer.KeyPressEvent(old(State()), key, disk)
    {
      outcome := Done;
      match key {
        case Left => outcome := PrevImage(disk);
        case Right => outcome := NextImage(disk);
        case KeyR => outcome := RotateImage(90, disk);
        case KeyL => outcome := RotateImage(-90, disk);
        case KeyF => ToggleFullscreen();
        case Escape =>
          if isFullscreen {
            ToggleFullscreen();
          }
        case Other(_) =>
      }
    }

    /** open_image once the dialog has returned `file` and `os.listdir`
        has returned `listing` for its directory. */
    method OpenImage(file: string, listing: Option<seq<string>>, disk: string -> Decoded) returns (outcome: Outcome)
      requires Valid()
      modifies this
      ensures Valid()
      ensures Step(State(), outcome) == Viewer.OpenImage(old(State()), file, listing, disk)
    {
      outcome := Done;
      if file != "" {
        currentImagePath := Some(file);
        var directory := Dirname(file);
        var target := Join(directory, Basename(file));
        match listing {
          case None =>
            outcome := Raised(ListingFailed);
          case Some(names) =>
            imageFiles := ImageFiles(directory, names);
            match IndexOf(imageFiles, target) {
              case None =>
                outcome := Raised(NotInList);
              case Some(i) =>
                currentImageIndex := i;
                outcome := LoadImage(target, disk);
            }
        }
      }
    }
  }
}
