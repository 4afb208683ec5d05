/**
 The navigation and view state of the viewer's main window (`ImageViewer`
 in main.py) as a state machine over values: a datatype for the fields the
 event handlers touch and one function per handler.  The class in
 ViewerObject keeps the same fields in place and is proved against these
 functions; ViewerFacts proves what they promise.

 Nothing here does I/O.  The directory listing is an argument (None when
 `os.listdir` raises) and so is the image library: `disk` says what
 opening a path yields.
 */
module Viewer {
  import opened PyLib

  /** What the image library makes of a file: a still picture, a GIF with
      the number of frames its frame iterator yields, or an error. */
  datatype Decoded = Still | Gif(frames: nat) | Unreadable

  /** The exceptions that can escape a handler. */
  datatype Error =
    | ListingFailed    // os.listdir raised
    | NotInList        // list.index raised ValueError
    | IndexOutOfRange  // a list subscription raised IndexError
    | DecodeFailed     // the image library could not open the file

  datatype Outcome = Done | Raised(error: Error)

  /** The keys keyPressEvent tells apart; every other key is handed on to
      the window's base class, which changes none of these fields. */
  datatype Key = Left | Right | KeyR | KeyL | KeyF | Escape | Other(code: int)

  /** The fields of `ImageViewer` the handlers read and write.
      `frameCount` is `len(gif_frames)`, `animating` whether `gif_timer`
      is running, `loaded` the last path whose image was opened (the
      picture on screen is made from it). */
  datatype View = View(
    imageFiles: seq<string>,
    index: int,
    path: Option<string>,
    angle: int,
    frameCount: nat,
    frame: int,
    fullscreen: bool,
    animating: bool,
    loaded: Option<string>)

  /** The state a handler leaves behind and whether it returned or raised.
      A Python exception does not undo the assignments made before it. */
  datatype Step = Step(view: View, outcome: Outcome)

  /** The events the window reacts to: a key (the toolbar buttons run the
      same handlers as Left, Right, L and R), a file picked in the open
      dialog together with the listing of its directory, and a tick of the
      GIF timer. */
  datatype Event =
    | Press(key: Key)
    | Open(file: string, listing: Option<seq<string>>)
    | Tick

  /** The fields as the constructor sets them. */
  function Initial(): View
  {
    View([], -1, None, 0, 0, 0, false, false, None)
  }

  /** What every handler keeps: the index never drops below -1, the angle
      is reduced modulo 360, the frame counter points into the frames (or
      is 0 when there are none), the timer only runs over some frames, and
      a recorded path is never empty. */
  predicate WellFormed(v: View)
  {
    && -1 <= v.index
    && 0 <= v.angle < 360
    && 0 <= v.frame
    && (v.frame < v.frameCount || v.frame == 0)
    && (v.animating ==> v.frameCount > 0)
    && (v.path.Some? ==> v.path.value != "")
  }

  /** The index names an entry of the list (or is the initial -1). */
  predicate IndexInList(v: View)
  {
    -1 <= v.index < |v.imageFiles|
  }

  /** The extension filter of open_image: the lower-cased name ends in one
      of the four image suffixes. */
  predicate IsImageName(name: string)
  {
    var lower := Lower(name);
    EndsWith(lower, ".png") || EndsWith(lower, ".jpg") || EndsWith(lower, ".jpeg") || EndsWith(lower, ".gif")
  }

  /** The names of a listing that pass the filter, in listing order. */
  function ImageNames(names: seq<string>): (r: seq<string>)
    ensures |r| <= |names|
    ensures forall f :: f in r <==> f in names && IsImageName(f)
  {
    if names == [] then []
    else
      assert names == [names[0]] + names[1..];
      (if IsImageName(names[0]) then [names[0]] else []) + ImageNames(names[1..])
  }

  /** The list comprehension of open_image: each filtered name joined to
      the directory. */
  function ImageFiles(directory: string, names: seq<string>): seq<string>
  {
    var fs := ImageNames(names);
    seq(|fs|, i requires 0 <= i < |fs| => Join(directory, fs[i]))
  }

  /** load_image: stop the timer, then open the file.  A GIF replaces the
      frames, restarts at frame 0 and starts the timer if there are frames;
      a still picture is displayed with the current rotation. */
  function LoadImage(v: View, path: string, disk: string -> Decoded): Step
  {
    var stopped := v.(animating := false);
    match disk(path)
    case Unreadable => Step(stopped, Raised(DecodeFailed))
    case Still => Step(stopped.(loaded := Some(path)), Done)
    case Gif(n) =>
      Step(stopped.(frameCount := n, frame := 0, animating := n > 0, loaded := Some(path)), Done)
  }

  /** prev_image: step back unless already at index 0 or below. */
  function PrevImage(v: View, disk: string -> Decoded): Step
  {
    if v.index > 0 then
      var moved := v.(index := v.index - 1);
      match PyIndex(moved.imageFiles, moved.index)
      case None => Step(moved, Raised(IndexOutOfRange))
      case Some(p) => LoadImage(moved, p, disk)
    else Step(v, Done)
  }

  /** next_image: step forward unless already at the last entry or beyond. */
  function NextImage(v: View, disk: string -> Decoded): Step
  {
    if v.index < |v.imageFiles| - 1 then
      var moved := v.(index := v.index + 1);
      match PyIndex(moved.imageFiles, moved.index)
      case None => Step(moved, Raised(IndexOutOfRange))
      case Some(p) => LoadImage(moved, p, disk)
    else Step(v, Done)
  }

  /** `(angle + delta) % 360` with Python's `%`, which for a positive
      modulus agrees with Dafny's. */
  function Rotated(angle: int, delta: int): (r: int)
    ensures 0 <= r < 360
    ensures (r - angle - delta) % 360 == 0
  {
    (angle + delta) % 360
  }

  /** reload_current_image: load the path chosen in the open dialog again,
      if there is one. */
  function ReloadCurrentImage(v: View, disk: string -> Decoded): Step
  {
    if v.path.Some? && v.path.value != "" then LoadImage(v, v.path.value, disk)
    else Step(v, Done)
  }

  /** rotate_image: turn by `delta` degrees and reload. */
  function RotateImage(v: View, delta: int, disk: string -> Decoded): Step
  {
    ReloadCurrentImage(v.(angle := Rotated(v.angle, delta)), disk)
  }

  /** next_gif_frame: show the current frame (raising IndexError when the
      counter does not subscript the frames) and move cyclically to the next
      one; nothing happens when there are no frames. */
  function NextGifFrame(v: View): Step
  {
    if v.frameCount > 0 then
      if Subscriptable(v.frameCount, v.frame) then
        Step(v.(frame := (v.frame + 1) % v.frameCount), Done)
      else Step(v, Raised(IndexOutOfRange))
    else Step(v, Done)
  }

  /** toggle_fullscreen */
  function ToggleFullscreen(v: View): View
  {
    v.(fullscreen := !v.fullscreen)
  }

  /** keyPressEvent: Left and Right navigate, R and L rotate by +90 and -90
      degrees, F toggles full screen, Escape only leaves it. */
  function KeyPressEvent(v: View, key: Key, disk: string -> Decoded): Step
  {
    match key
    case Left => PrevImage(v, disk)
    case Right => NextImage(v, disk)
    case KeyR => RotateImage(v, 90, disk)
    case KeyL => RotateImage(v, -90, disk)
    case KeyF => Step(ToggleFullscreen(v), Done)
    case Escape => if v.fullscreen then Step(ToggleFullscreen(v), Done) else Step(v, Done)
    case Other(_) => Step(v, Done)
  }

  /** open_image, after the dialog returned `file` ("" when cancelled) and
      `os.listdir` returned `listing` for its directory: record the path,
      rebuild the list, find the chosen file in it and load it.  Each step
      that raises leaves the assignments before it in place. */
  function OpenImage(v: View, file: string, listing: Option<seq<string>>, disk: string -> Decoded): Step
  {
    if file == "" then Step(v, Done)
    else
      var named := v.(path := Some(file));
      var directory := Dirname(file);
      var target := Join(directory, Basename(file));
      match listing
      case None => Step(named, Raised(ListingFailed))
      case Some(names) =>
        var listed := named.(imageFiles := ImageFiles(directory, names));
        match IndexOf(listed.imageFiles, target)
        case None => Step(listed, Raised(NotInList))
        case Some(i) => LoadImage(listed.(index := i), target, disk)
  }

  /** open_image rearranged so that a failed listing or lookup changes
      nothing: the list, the index and the path are only replaced together,
      once the chosen file has been found. */
  function OpenImageCommitted(v: View, file: string, listing: Option<seq<string>>, disk: string -> Decoded): Step
  {
    if file == "" then Step(v, Done)
    else
      var directory := Dirname(file);
      var target := Join(directory, Basename(file));
      match listing
      case None => Step(v, Raised(ListingFailed))
      case Some(names) =>
        var files := ImageFiles(directory, names);
        match IndexOf(files, target)
        case None => Step(v, Raised(NotInList))
        case Some(i) => LoadImage(v.(path := Some(file), imageFiles := files, index := i), target, disk)
  }

  /** One event as the window handles it.  The timer only delivers ticks
      while it runs. */
  function Handle(v: View, e: Event, disk: string -> Decoded): Step
  {
    match e
    case Press(key) => KeyPressEvent(v, key, disk)
    case Open(file, listing) => OpenImage(v, file, listing, disk)
    case Tick => if v.animating then NextGifFrame(v) else Step(v, Done)
  }

  /** Handle applied with OpenImageCommitted in place of OpenImage. */
  function HandleCommitted(v: View, e: Event, disk: string -> Decoded): Step
  {
    match e
    case Open(file, listing) => OpenImageCommitted(v, file, listing, disk)
    case _ => Handle(v, e, disk)
  }

  /** A run of events.  An exception ends one handler, not the program:
      the next event sees the state the failed handler left. */
  function Run(v: View, events: seq<Event>, disk: string -> Decoded): View
    decreases |events|
  {
    if events == [] then v else Run(Handle(v, events[0], disk).view, events[1..], disk)
  }

  function RunCommitted(v: View, events: seq<Event>, disk: string -> Decoded): View
    decreases |events|
  {
    if events == [] then v else RunCommitted(HandleCommitted(v, events[0], disk).view, events[1..], disk)
  }
}
