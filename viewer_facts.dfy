/**
 What the handlers of the viewer promise, proved about the functions of
 module Viewer: bounded stepping through the list, rotation modulo 360,
 cyclic GIF frames, the full-screen switch, the key map, the list that
 open_image builds and the lookup in it, and the invariants every run of
 events keeps.
 */
module ViewerFacts {
  import opened PyLib
  import opened Viewer

  // ---------------------------------------------------------------------
  // Stepping through the list

  /** next_image moves forward by exactly one when the index is before the
      last entry and is a complete no-op otherwise (no wrap-around); once
      moved, it loads the entry at the new index and never raises
      IndexError. */
  lemma NextImageStepsForward(v: View, disk: string -> Decoded)
    requires WellFormed(v)
    ensures var s := NextImage(v, disk);
      && (s.view.index == v.index + 1 <==> v.index < |v.imageFiles| - 1)
      && (s.view.index != v.index + 1 ==> s == Step(v, Done))
      && (s.view.index == v.index + 1 ==>
            && 0 <= s.view.index < |v.imageFiles|
            && s.outcome != Raised(IndexOutOfRange)
            && (s.outcome == Done ==> s.view.loaded == Some(v.imageFiles[s.view.index])))
      && s.view.imageFiles == v.imageFiles && s.view.path == v.path
      && s.view.angle == v.angle && s.view.fullscreen == v.fullscreen
  {
    if v.index < |v.imageFiles| - 1 {
      var moved := v.(index := v.index + 1);
      assert PyIndex(moved.imageFiles, moved.index) == Some(v.imageFiles[v.index + 1]);
    }
  }

  /** prev_image moves back by exactly one when the index is above 0 and is
      a complete no-op otherwise.  Once moved, it loads the entry at the new
      index when there is one, and raises IndexError exactly when the new
      index lies past the end of the list. */
  lemma PrevImageStepsBack(v: View, disk: string -> Decoded)
    requires WellFormed(v)
    ensures var s := PrevImage(v, disk);
      && (s.view.index == v.index - 1 <==> v.index > 0)
      && (v.index <= 0 ==> s == Step(v, Done))
      && (v.index > 0 ==>
            (s.outcome == Raised(IndexOutOfRange) <==> s.view.index >= |v.imageFiles|))
      && (v.index > 0 && s.outcome == Done ==> s.view.loaded == Some(v.imageFiles[s.view.index]))
      && s.view.imageFiles == v.imageFiles && s.view.path == v.path
      && s.view.angle == v.angle && s.view.fullscreen == v.fullscreen
  {
  }

  /** Stepping either way keeps an index that names an entry of the list,
      and from such an index neither step raises IndexError. */
  lemma NavigationKeepsIndexInList(v: View, disk: string -> Decoded)
    requires WellFormed(v) && IndexInList(v)
    ensures IndexInList(PrevImage(v, disk).view) && IndexInList(NextImage(v, disk).view)
    ensures PrevImage(v, disk).outcome != Raised(IndexOutOfRange)
    ensures NextImage(v, disk).outcome != Raised(IndexOutOfRange)
  {
    PrevImageStepsBack(v, disk);
    NextImageStepsForward(v, disk);
  }

  /** Before any file is opened (index -1, empty list) both steps do
      nothing. */
  lemma NavigationFromInitialIsNoOp(disk: string -> Decoded)
    ensures PrevImage(Initial(), disk) == Step(Initial(), Done)
    ensures NextImage(Initial(), disk) == Step(Initial(), Done)
  {
  }

  // ---------------------------------------------------------------------
  // Rotation

  /** A quarter turn clockwise and one counter-clockwise cancel out. */
  lemma QuarterTurnsCancel(a: int)
    requires 0 <= a < 360
    ensures Rotated(Rotated(a, 90), -90) == a
    ensures Rotated(Rotated(a, -90), 90) == a
  {
    QuarterTurn(a);
    QuarterTurn(Rotated(a, 90));
    QuarterTurn(Rotated(a, -90));
  }

  /** A quarter turn either way, spelled out on [0, 360). */
  lemma QuarterTurn(a: int)
    requires 0 <= a < 360
    ensures Rotated(a, 90) == if a < 270 then a + 90 else a - 270
    ensures Rotated(a, -90) == if a >= 90 then a - 90 else a + 270
  {
  }

  /** Four quarter turns in the same direction are a full turn. */
  lemma FourQuarterTurns(a: int)
    requires 0 <= a < 360
    ensures Rotated(Rotated(Rotated(Rotated(a, 90), 90), 90), 90) == a
    ensures Rotated(Rotated(Rotated(Rotated(a, -90), -90), -90), -90) == a
  {
    var a1, b1 := Rotated(a, 90), Rotated(a, -90);
    QuarterTurn(a); QuarterTurn(a1); QuarterTurn(b1);
    var a2, b2 := Rotated(a1, 90), Rotated(b1, -90);
    QuarterTurn(a2); QuarterTurn(b2);
    var a3, b3 := Rotated(a2, 90), Rotated(b2, -90);
    QuarterTurn(a3); QuarterTurn(b3);
  }

  /** Turning a right angle by a multiple of 90 degrees gives one of the
      four right angles. */
  lemma RotatedRightAngle(a: int, delta: int)
    requires a % 90 == 0 && delta % 90 == 0
    ensures Rotated(a, delta) in {0, 90, 180, 270}
  {
    var r := Rotated(a, delta);
    var ka, kd, q := a / 90, delta / 90, (a + delta) / 360;
    assert a == 90 * ka && delta == 90 * kd;
    assert a + delta == 360 * q + r;
    assert r == 90 * (ka + kd - 4 * q);
  }

  /** rotate_image changes only the angle and the timer, and reloads the
      path chosen in the open dialog, not the entry at the current index;
      without a chosen path it only turns. */
  lemma RotateImageReloadsChosenPath(v: View, delta: int, disk: string -> Decoded)
    requires WellFormed(v)
    ensures var s := RotateImage(v, delta, disk);
      && s.view.angle == Rotated(v.angle, delta)
      && s.view.imageFiles == v.imageFiles && s.view.index == v.index
      && s.view.path == v.path && s.view.fullscreen == v.fullscreen
      && (v.path.None? ==> s == Step(v.(angle := Rotated(v.angle, delta)), Done))
      && (s.outcome != Done ==> s.outcome == Raised(DecodeFailed))
      && (v.path.Some? ==>
            (s.outcome == Done <==> !disk(v.path.value).Unreadable?)
            && (s.outcome == Done ==> s.view.loaded == v.path))
  {
    var turned := v.(angle := Rotated(v.angle, delta));
    if v.path.Some? {
      assert RotateImage(v, delta, disk) == LoadImage(turned, v.path.value, disk);
      LoadImageRestartsAnimation(turned, v.path.value, disk);
    }
  }

  // ---------------------------------------------------------------------
  // GIF frames

  /** Loading never touches the list, the index, the chosen path, the angle
      or the full-screen flag.  Loading a GIF restarts it at frame 0 with
      its own frames and runs the timer when it has frames; anything else
      leaves the timer stopped. */
  lemma LoadImageRestartsAnimation(v: View, path: string, disk: string -> Decoded)
    ensures var s := LoadImage(v, path, disk);
      && s.view.imageFiles == v.imageFiles && s.view.index == v.index
      && s.view.path == v.path && s.view.angle == v.angle
      && s.view.fullscreen == v.fullscreen
      && (s.view.animating <==> disk(path).Gif? && disk(path).frames > 0)
      && (s.outcome == Done <==> !disk(path).Unreadable?)
      && (s.outcome != Done ==> s.outcome == Raised(DecodeFailed))
      && (s.outcome == Done ==> s.view.loaded == Some(path))
      && (disk(path).Gif? ==> s.view.frame == 0 && s.view.frameCount == disk(path).frames)
  {
  }

  /** next_gif_frame does nothing without frames; otherwise it moves to the
      following frame, wrapping from the last to the first, and keeps the
      counter among the frames. */
  lemma NextGifFrameCycles(v: View)
    requires WellFormed(v)
    ensures var s := NextGifFrame(v);
      && s.outcome == Done
      && WellFormed(s.view)
      && (v.frameCount == 0 ==> s.view == v)
      && (v.frameCount > 0 ==>
            && s.view == v.(frame := s.view.frame)
            && 0 <= s.view.frame < v.frameCount
            && (if v.frame == v.frameCount - 1 then s.view.frame == 0 else s.view.frame == v.frame + 1))
  {
    var c := v.frameCount;
    if c > 0 {
      assert Subscriptable(c, v.frame);
      assert NextGifFrame(v) == Step(v.(frame := (v.frame + 1) % c), Done);
      if v.frame == c - 1 {
        ModUnique(v.frame + 1, c, 1, 0);
      } else {
        ModUnique(v.frame + 1, c, 0, v.frame + 1);
      }
    }
  }

  /** `n` ticks of the GIF timer. */
  function Ticks(v: View, n: nat): View
  {
    if n == 0 then v else NextGifFrame(Ticks(v, n - 1)).view
  }

  /** After `n` ticks the counter has moved `n` frames on, cyclically. */
  lemma {:induction false} TicksAdvance(v: View, n: nat)
    requires WellFormed(v) && v.frameCount > 0
    ensures WellFormed(Ticks(v, n))
    ensures Ticks(v, n) == v.(frame := (v.frame + n) % v.frameCount)
  {
    if n > 0 {
      TicksAdvance(v, n - 1);
      var c := v.frameCount;
      var f := (v.frame + n - 1) % c;
      var w := Ticks(v, n - 1);
      assert w == v.(frame := f);
      ModSucc(v.frame + n - 1, v.frame + n, c);
      assert Ticks(v, n) == NextGifFrame(w).view == v.(frame := (f + 1) % c);
    } else {
      ModUnique(v.frame + n, v.frameCount, 0, v.frame);
    }
  }

  /** A non-zero multiple of a positive number is at least that number in
      size. */
  lemma MultipleAtLeast(d: int, c: int)
    requires c > 0
    ensures d >= 1 ==> d * c >= c
    ensures d <= -1 ==> d * c <= -c
  {
    assert d * c - c == (d - 1) * c;
    assert d * c + c == (d + 1) * c;
  }

  /** Euclidean remainders are unique. */
  lemma ModUnique(y: int, c: int, q: int, r: int)
    requires c > 0 && 0 <= r < c && y == q * c + r
    ensures y % c == r
  {
    var q0, r0 := y / c, y % c;
    assert y == q0 * c + r0;
    assert (q - q0) * c == r0 - r;
    MultipleAtLeast(q - q0, c);
  }

  lemma ModSucc(x: int, y: int, c: int)
    requires c > 0 && y == x + 1
    ensures (x % c + 1) % c == y % c
  {
    var q, r := x / c, x % c;
    assert x == q * c + r;
    if r + 1 < c {
      ModUnique(r + 1, c, 0, r + 1);
      ModUnique(y, c, q, r + 1);
    } else {
      ModUnique(r + 1, c, 1, 0);
      ModUnique(y, c, q + 1, 0);
    }
  }

  /** As many ticks as there are frames bring the animation back to the
      frame it started from. */
  lemma TicksFullCycle(v: View)
    requires WellFormed(v) && v.frameCount > 0
    ensures Ticks(v, v.frameCount) == v
  {
    TicksAdvance(v, v.frameCount);
    ModUnique(v.frame + v.frameCount, v.frameCount, 1, v.frame);
  }

  // ---------------------------------------------------------------------
  // Full screen and the key map

  /** Toggling twice restores the state. */
  lemma ToggleTwiceRestores(v: View)
    ensures ToggleFullscreen(v).fullscreen == !v.fullscreen
    ensures ToggleFullscreen(ToggleFullscreen(v)) == v
  {
  }

  /** Escape leaves full screen and changes nothing else; it never enters
      full screen. */
  lemma EscapeOnlyLeavesFullscreen(v: View, disk: string -> Decoded)
    ensures KeyPressEvent(v, Escape, disk) == Step(v.(fullscreen := false), Done)
  {
  }

  /** Left, Right, R, L and F run prev_image, next_image, rotate_image(90),
      rotate_image(-90) and toggle_fullscreen; other keys change nothing. */
  lemma KeyDispatch(v: View, disk: string -> Decoded, code: int)
    ensures KeyPressEvent(v, Left, disk) == PrevImage(v, disk)
    ensures KeyPressEvent(v, Right, disk) == NextImage(v, disk)
    ensures KeyPressEvent(v, KeyR, disk) == RotateImage(v, 90, disk)
    ensures KeyPressEvent(v, KeyL, disk) == RotateImage(v, -90, disk)
    ensures KeyPressEvent(v, KeyF, disk) == Step(ToggleFullscreen(v), Done)
    ensures KeyPressEvent(v, Other(code), disk) == Step(v, Done)
  {
  }

  /** No key changes the chosen path or the list, and only F and Escape
      change the full-screen flag. */
  lemma KeysKeepPathAndList(v: View, key: Key, disk: string -> Decoded)
    ensures var s := KeyPressEvent(v, key, disk);
      && s.view.path == v.path && s.view.imageFiles == v.imageFiles
      && (!key.KeyF? && !key.Escape? ==> s.view.fullscreen == v.fullscreen)
  {
  }

  // ---------------------------------------------------------------------
  // The list open_image builds

  /** Filtering a listing made of two parts filters each part and keeps
      them in order: the filter keeps listing order. */
  lemma {:induction false} ImageNamesKeepsOrder(a: seq<string>, b: seq<string>)
    ensures ImageNames(a + b) == ImageNames(a) + ImageNames(b)
  {
    if a == [] {
      assert a + b == b;
    } else {
      assert (a + b)[0] == a[0];
      assert (a + b)[1..] == a[1..] + b;
      ImageNamesKeepsOrder(a[1..], b);
    }
  }

  /** Filtering twice keeps what filtering once kept. */
  lemma {:induction false} ImageNamesIdempotent(names: seq<string>)
    ensures ImageNames(ImageNames(names)) == ImageNames(names)
  {
    if names != [] {
      ImageNamesIdempotent(names[1..]);
      var head := if IsImageName(names[0]) then [names[0]] else [];
      ImageNamesKeepsOrder(head, ImageNames(names[1..]));
      assert ImageNames(head) == head by {
        if head != [] { assert head[1..] == []; }
      }
    }
  }

  /** The rebuilt list holds exactly the listing entries that pass the
      filter, each joined to the directory, one entry per such name. */
  lemma ImageFilesMembers(directory: string, names: seq<string>)
    ensures |ImageFiles(directory, names)| == |ImageNames(names)| <= |names|
    ensures forall x :: x in ImageFiles(directory, names) <==>
              exists f :: f in names && IsImageName(f) && x == Join(directory, f)
  {
    var fs := ImageNames(names);
    var files := ImageFiles(directory, names);
    forall x | x in files
      ensures exists f :: f in names && IsImageName(f) && x == Join(directory, f)
    {
      var i :| 0 <= i < |files| && files[i] == x;
      assert fs[i] in fs;
    }
    forall x | exists f :: f in names && IsImageName(f) && x == Join(directory, f)
      ensures x in files
    {
      var f :| f in names && IsImageName(f) && x == Join(directory, f);
      var i :| 0 <= i < |fs| && fs[i] == f;
      assert files[i] == x;
    }
  }

  /** Looking up a joined name in the joined list is looking up the name in
      the filtered listing. */
  lemma LookupJoined(directory: string, fs: seq<string>, b: string)
    requires PlainName(b) && forall f :: f in fs ==> PlainName(f)
    ensures var files := seq(|fs|, i requires 0 <= i < |fs| => Join(directory, fs[i]));
      IndexOf(files, Join(directory, b)) == IndexOf(fs, b)
  {
    var files := seq(|fs|, i requires 0 <= i < |fs| => Join(directory, fs[i]));
    var target := Join(directory, b);
    PlainNameNoLeadingSlash(b);
    forall j | 0 <= j < |fs| ensures fs[j] == b <==> files[j] == target {
      assert fs[j] in fs;
      PlainNameNoLeadingSlash(fs[j]);
      if files[j] == target {
        JoinInjective(directory, fs[j], b);
      }
    }
    IndexOfSamePositions(fs, b, files, target);
  }

  /** open_image finds the chosen file exactly when its name is in the
      listing and passes the filter.  It then points the index at the entry
      equal to the rewritten chosen path, records the chosen path as given,
      and loads the rewritten one. */
  lemma OpenImageFindsChosenFile(v: View, file: string, names: seq<string>, disk: string -> Decoded)
    requires file != ""
    requires forall f :: f in names ==> PlainName(f)
    ensures var s := OpenImage(v, file, Some(names), disk);
      && s.view.path == Some(file)
      && s.view.imageFiles == ImageFiles(Dirname(file), names)
      && (s.outcome != Raised(NotInList) <==> Basename(file) in names && IsImageName(Basename(file)))
      && (s.outcome != Raised(NotInList) ==>
            && 0 <= s.view.index < |s.view.imageFiles|
            && s.view.imageFiles[s.view.index] == Normalize(file)
            && (s.outcome == Done ==> s.view.loaded == Some(Normalize(file))))
      && (s.outcome == Raised(NotInList) ==> s.view == v.(path := Some(file), imageFiles := s.view.imageFiles))
  {
    var directory, b := Dirname(file), Basename(file);
    var fs := ImageNames(names);
    var files := ImageFiles(directory, names);
    var target := Join(directory, b);
    assert Normalize(file) == target;
    forall f | f in fs ensures PlainName(f) { }
    LookupJoined(directory, fs, b);
    assert IndexOf(files, target) == IndexOf(fs, b);
    var named := v.(path := Some(file), imageFiles := files);
    match IndexOf(fs, b)
    case None =>
      assert OpenImage(v, file, Some(names), disk) == Step(named, Raised(NotInList));
    case Some(i) =>
      assert OpenImage(v, file, Some(names), disk) == LoadImage(named.(index := i), target, disk);
      LoadImageRestartsAnimation(named.(index := i), target, disk);
  }

  /** A cancelled dialog changes nothing; a directory that cannot be listed
      leaves only the chosen path recorded. */
  lemma OpenImageErrors(v: View, file: string, disk: string -> Decoded)
    ensures OpenImage(v, "", None, disk) == Step(v, Done)
    ensures file != "" ==>
      OpenImage(v, file, None, disk) == Step(v.(path := Some(file)), Raised(ListingFailed))
  {
  }

  // ---------------------------------------------------------------------
  // Runs of events

  lemma LoadImageKeepsWellFormed(v: View, path: string, disk: string -> Decoded)
    requires WellFormed(v)
    ensures WellFormed(LoadImage(v, path, disk).view)
  {
  }

  lemma KeyPressKeepsWellFormed(v: View, key: Key, disk: string -> Decoded)
    requires WellFormed(v)
    ensures WellFormed(KeyPressEvent(v, key, disk).view)
  {
    match key
    case Left =>
      assert KeyPressEvent(v, Left, disk) == PrevImage(v, disk);
      if 0 < v.index <= |v.imageFiles| {
        var moved := v.(index := v.index - 1);
        assert PrevImage(v, disk) == LoadImage(moved, v.imageFiles[v.index - 1], disk);
        LoadImageKeepsWellFormed(moved, v.imageFiles[v.index - 1], disk);
      }
    case Right =>
      assert KeyPressEvent(v, Right, disk) == NextImage(v, disk);
      if v.index < |v.imageFiles| - 1 {
        var moved := v.(index := v.index + 1);
        assert NextImage(v, disk) == LoadImage(moved, v.imageFiles[v.index + 1], disk);
        LoadImageKeepsWellFormed(moved, v.imageFiles[v.index + 1], disk);
      }
    case KeyR =>
      assert KeyPressEvent(v, KeyR, disk) == RotateImage(v, 90, disk);
      RotateKeepsWellFormed(v, 90, disk);
    case KeyL =>
      assert KeyPressEvent(v, KeyL, disk) == RotateImage(v, -90, disk);
      RotateKeepsWellFormed(v, -90, disk);
    case KeyF =>
    case Escape =>
    case Other(_) =>
  }

  lemma RotateKeepsWellFormed(v: View, delta: int, disk: string -> Decoded)
    requires WellFormed(v)
    ensures WellFormed(RotateImage(v, delta, disk).view)
  {
    var turned := v.(angle := Rotated(v.angle, delta));
    if v.path.Some? {
      assert RotateImage(v, delta, disk) == LoadImage(turned, v.path.value, disk);
      LoadImageKeepsWellFormed(turned, v.path.value, disk);
    }
  }

  lemma OpenImageKeepsWellFormed(v: View, file: string, listing: Option<seq<string>>, disk: string -> Decoded)
    requires WellFormed(v)
    ensures WellFormed(OpenImage(v, file, listing, disk).view)
    ensures WellFormed(OpenImageCommitted(v, file, listing, disk).view)
  {
    if file != "" && listing.Some? {
      var directory := Dirname(file);
      var target := Join(directory, Basename(file));
      var files := ImageFiles(directory, listing.value);
      match IndexOf(files, target)
      case None =>
      case Some(i) =>
        LoadImageKeepsWellFormed(v.(path := Some(file), imageFiles := files, index := i), target, disk);
    }
  }

  /** Opening a file keeps the rotation in force and the full-screen flag:
      the new image is shown turned by the current angle. */
  lemma OpenImageKeepsAngle(v: View, file: string, listing: Option<seq<string>>, disk: string -> Decoded)
    ensures var s := OpenImage(v, file, listing, disk);
      s.view.angle == v.angle && s.view.fullscreen == v.fullscreen
    ensures var s := OpenImageCommitted(v, file, listing, disk);
      s.view.angle == v.angle && s.view.fullscreen == v.fullscreen
  {
    if file != "" && listing.Some? {
      var directory := Dirname(file);
      var target := Join(directory, Basename(file));
      var files := ImageFiles(directory, listing.value);
      match IndexOf(files, target)
      case None =>
      case Some(i) =>
        var w := v.(path := Some(file), imageFiles := files, index := i);
        assert OpenImage(v, file, listing, disk) == LoadImage(w, target, disk);
        assert OpenImageCommitted(v, file, listing, disk) == LoadImage(w, target, disk);
        LoadImageRestartsAnimation(w, target, disk);
    }
  }

  /** Every event keeps the state well formed. */
  lemma HandleKeepsWellFormed(v: View, e: Event, disk: string -> Decoded)
    requires WellFormed(v)
    ensures WellFormed(Handle(v, e, disk).view)
    ensures WellFormed(HandleCommitted(v, e, disk).view)
  {
    match e
    case Press(key) => KeyPressKeepsWellFormed(v, key, disk);
    case Open(file, listing) => OpenImageKeepsWellFormed(v, file, listing, disk);
    case Tick => NextGifFrameCycles(v);
  }

  /** Any run of events from a well-formed state (the initial one, say)
      ends in a well-formed state: angle in [0, 360), frame counter among
      the frames, index at least -1. */
  lemma {:induction false} RunKeepsWellFormed(v: View, events: seq<Event>, disk: string -> Decoded)
    requires WellFormed(v)
    decreases |events|
    ensures WellFormed(Run(v, events, disk))
  {
    if events != [] {
      HandleKeepsWellFormed(v, events[0], disk);
      RunKeepsWellFormed(Handle(v, events[0], disk).view, events[1..], disk);
    }
  }

  /** Every event changes the angle by a multiple of 90 degrees. */
  lemma HandleKeepsRightAngle(v: View, e: Event, disk: string -> Decoded)
    requires WellFormed(v) && v.angle % 90 == 0
    ensures Handle(v, e, disk).view.angle % 90 == 0
  {
    match e
    case Press(key) =>
      assert Handle(v, e, disk) == KeyPressEvent(v, key, disk);
      match key {
        case Left => PrevImageStepsBack(v, disk);
        case Right => NextImageStepsForward(v, disk);
        case KeyR =>
          RotateImageReloadsChosenPath(v, 90, disk);
          RotatedRightAngle(v.angle, 90);
        case KeyL =>
          RotateImageReloadsChosenPath(v, -90, disk);
          RotatedRightAngle(v.angle, -90);
        case KeyF =>
        case Escape =>
        case Other(_) =>
      }
    case Open(file, listing) =>
      OpenImageKeepsAngle(v, file, listing, disk);
    case Tick =>
      NextGifFrameCycles(v);
  }

  /** From the initial state, whatever the events, the angle is one of the
      four right angles. */
  lemma {:induction false} RunKeepsRightAngle(v: View, events: seq<Event>, disk: string -> Decoded)
    requires WellFormed(v) && v.angle % 90 == 0
    decreases |events|
    ensures Run(v, events, disk).angle in {0, 90, 180, 270}
  {
    if events == [] {
      RotatedRightAngle(v.angle, 0);
      assert Rotated(v.angle, 0) == v.angle;
    } else {
      HandleKeepsWellFormed(v, events[0], disk);
      HandleKeepsRightAngle(v, events[0], disk);
      RunKeepsRightAngle(Handle(v, events[0], disk).view, events[1..], disk);
    }
  }

  /** Keys alone never change the chosen path or the list. */
  lemma {:induction false} KeyRunKeepsPathAndList(v: View, events: seq<Event>, disk: string -> Decoded)
    requires forall i :: 0 <= i < |events| ==> !events[i].Open?
    decreases |events|
    ensures Run(v, events, disk).path == v.path
    ensures Run(v, events, disk).imageFiles == v.imageFiles
  {
    if events != [] {
      assert !events[0].Open?;
      if events[0].Press? {
        KeysKeepPathAndList(v, events[0].key, disk);
      }
      KeyRunKeepsPathAndList(Handle(v, events[0], disk).view, events[1..], disk);
    }
  }

  // ---------------------------------------------------------------------
  // A failed lookup leaves the index of the previous list

  /** The file names of the example below, run through the filter. */
  lemma ExampleImageNames()
    ensures ImageNames(["a.png", "b.png"]) == ["a.png", "b.png"]
  {
    var names := ["a.png", "b.png"];
    ExampleSuffixes();
    assert names[0] == "a.png" && names[1..] == ["b.png"];
    assert ImageNames(names) == ["a.png"] + ImageNames(["b.png"]);
    ExampleImageName();
  }

  lemma ExampleImageName()
    ensures ImageNames(["b.png"]) == ["b.png"]
  {
    ExampleSuffixes();
    assert ["b.png"][1..] == [];
  }

  lemma ExampleSuffixes()
    ensures IsImageName("a.png") && IsImageName("b.png")
  {
    assert Lower("a.png")[1..] == ".png";
    assert Lower("b.png")[1..] == ".png";
  }

  lemma ExampleOtherName()
    ensures ImageNames(["c.bmp"]) == []
  {
    assert !IsImageName("c.bmp") by {
      var lower := Lower("c.bmp");
      assert lower == "c.bmp";
      assert lower[1..][1] != ".png"[1] && lower[1..][1] != ".jpg"[1] && lower[1..][1] != ".gif"[1];
      assert lower[0] != ".jpeg"[0];
    }
    assert ["c.bmp"][1..] == [];
  }

  lemma ExamplePaths()
    ensures Dirname("/d/b.png") == "/d" && Basename("/d/b.png") == "b.png"
    ensures Join("/d", "b.png") == "/d/b.png" && Join("/d", "a.png") == "/d/a.png"
    ensures Dirname("/e/c.bmp") == "/e" && Basename("/e/c.bmp") == "c.bmp"
    ensures Join("/e", "c.bmp") == "/e/c.bmp"
  {
    ExamplePath("/d", "b.png", "/d/b.png");
    ExamplePath("/d", "a.png", "/d/a.png");
    ExamplePath("/e", "c.bmp", "/e/c.bmp");
  }

  lemma ExamplePath(d: string, b: string, p: string)
    requires |d| == 2 && d[0] == '/' && d[1] != '/'
    requires |b| == 5 && forall k :: 0 <= k < 5 ==> b[k] != '/'
    requires p == d + "/" + b
    ensures Join(d, b) == p && Dirname(p) == d && Basename(p) == b
  {
    DirnameBasenameOfJoin(d, b);
  }

  /** First step of the example below: /d/b.png is found at index 1. */
  lemma ExampleFirstOpen(disk: string -> Decoded)
    requires disk("/d/b.png") == Still
    ensures OpenImage(Initial(), "/d/b.png", Some(["a.png", "b.png"]), disk)
      == Step(Initial().(path := Some("/d/b.png"), imageFiles := ["/d/a.png", "/d/b.png"], index := 1,
                         loaded := Some("/d/b.png")), Done)
  {
    ExamplePaths();
    ExampleImageFiles();
    ExampleLookup();
    var listed := Initial().(path := Some("/d/b.png"), imageFiles := ["/d/a.png", "/d/b.png"]);
    assert OpenImage(Initial(), "/d/b.png", Some(["a.png", "b.png"]), disk)
      == LoadImage(listed.(index := 1), "/d/b.png", disk);
  }

  lemma ExampleImageFiles()
    ensures ImageFiles("/d", ["a.png", "b.png"]) == ["/d/a.png", "/d/b.png"]
  {
    ExampleImageNames();
    ExamplePaths();
  }

  lemma ExampleLookup()
    ensures IndexOf(["/d/a.png", "/d/b.png"], "/d/b.png") == Some(1)
  {
    var files := ["/d/a.png", "/d/b.png"];
    assert files[..1] == ["/d/a.png"];
    assert files[0][3] != "/d/b.png"[3];
    IndexOfIsFirst(files, "/d/b.png", 1);
  }

  /** Second step of the example below: c.bmp is filtered out of its own
      directory's list, so the lookup raises. */
  lemma ExampleSecondOpen(v: View, disk: string -> Decoded)
    ensures OpenImage(v, "/e/c.bmp", Some(["c.bmp"]), disk)
      == Step(v.(path := Some("/e/c.bmp"), imageFiles := []), Raised(NotInList))
  {
    ExamplePaths();
    ExampleOtherName();
    assert ImageFiles("/e", ["c.bmp"]) == [];
  }

  /** The shortest way to the IndexError: open /d/b.png in a directory
      holding a.png and b.png (index 1), then pick /e/c.bmp, which the
      filter drops, in a directory holding only c.bmp.  The list becomes
      empty, the index stays 1, and Left raises IndexError after moving the
      index to 0. */
  lemma FailedOpenLeavesStaleIndex(disk: string -> Decoded)
    requires disk("/d/b.png") == Still
    ensures var first := OpenImage(Initial(), "/d/b.png", Some(["a.png", "b.png"]), disk);
      var second := OpenImage(first.view, "/e/c.bmp", Some(["c.bmp"]), disk);
      var left := KeyPressEvent(second.view, Left, disk);
      && first.outcome == Done && first.view.index == 1
      && second.outcome == Raised(NotInList)
      && second.view.imageFiles == [] && second.view.index == 1
      && !IndexInList(second.view)
      && left.outcome == Raised(IndexOutOfRange) && left.view.index == 0
  {
    ExampleFirstOpen(disk);
    var first := OpenImage(Initial(), "/d/b.png", Some(["a.png", "b.png"]), disk);
    ExampleSecondOpen(first.view, disk);
  }

  /** With the lookup done before anything is assigned, opening keeps an
      index that names an entry of the list. */
  lemma CommittedOpenKeepsIndexInList(v: View, file: string, listing: Option<seq<string>>, disk: string -> Decoded)
    requires IndexInList(v)
    ensures IndexInList(OpenImageCommitted(v, file, listing, disk).view)
    ensures OpenImageCommitted(v, file, listing, disk).outcome != Raised(IndexOutOfRange)
    ensures OpenImageCommitted(v, file, listing, disk).outcome in {Raised(ListingFailed), Raised(NotInList)} ==>
      OpenImageCommitted(v, file, listing, disk).view == v
  {
    if file != "" && listing.Some? {
      var directory := Dirname(file);
      var target := Join(directory, Basename(file));
      var files := ImageFiles(directory, listing.value);
      match IndexOf(files, target)
      case None =>
        assert OpenImageCommitted(v, file, listing, disk) == Step(v, Raised(NotInList));
      case Some(i) =>
        var w := v.(path := Some(file), imageFiles := files, index := i);
        assert OpenImageCommitted(v, file, listing, disk) == LoadImage(w, target, disk);
        LoadImageRestartsAnimation(w, target, disk);
    }
  }

  /** From an index that names an entry of the list no key raises
      IndexError, and the index keeps naming an entry. */
  lemma KeyPressNeverIndexError(v: View, key: Key, disk: string -> Decoded)
    requires WellFormed(v) && IndexInList(v)
    ensures KeyPressEvent(v, key, disk).outcome != Raised(IndexOutOfRange)
    ensures IndexInList(KeyPressEvent(v, key, disk).view)
  {
    match key
    case Left =>
      assert KeyPressEvent(v, key, disk) == PrevImage(v, disk);
      NavigationKeepsIndexInList(v, disk);
    case Right =>
      assert KeyPressEvent(v, key, disk) == NextImage(v, disk);
      NavigationKeepsIndexInList(v, disk);
    case KeyR =>
      assert KeyPressEvent(v, key, disk) == RotateImage(v, 90, disk);
      RotateImageReloadsChosenPath(v, 90, disk);
    case KeyL =>
      assert KeyPressEvent(v, key, disk) == RotateImage(v, -90, disk);
      RotateImageReloadsChosenPath(v, -90, disk);
    case KeyF =>
    case Escape =>
    case Other(_) =>
  }

  /** With that open, no event ever raises IndexError and the index keeps
      naming an entry of the list. */
  lemma HandleCommittedNeverIndexError(v: View, e: Event, disk: string -> Decoded)
    requires WellFormed(v) && IndexInList(v)
    ensures HandleCommitted(v, e, disk).outcome != Raised(IndexOutOfRange)
    ensures IndexInList(HandleCommitted(v, e, disk).view)
  {
    match e
    case Press(key) =>
      assert HandleCommitted(v, e, disk) == KeyPressEvent(v, key, disk);
      KeyPressNeverIndexError(v, key, disk);
    case Open(file, listing) =>
      assert HandleCommitted(v, e, disk) == OpenImageCommitted(v, file, listing, disk);
      CommittedOpenKeepsIndexInList(v, file, listing, disk);
    case Tick =>
      assert HandleCommitted(v, e, disk) == (if v.animating then NextGifFrame(v) else Step(v, Done));
      NextGifFrameCycles(v);
  }

  lemma {:induction false} RunCommittedKeepsIndexInList(v: View, events: seq<Event>, disk: string -> Decoded)
    requires WellFormed(v) && IndexInList(v)
    decreases |events|
    ensures WellFormed(RunCommitted(v, events, disk)) && IndexInList(RunCommitted(v, events, disk))
  {
    if events != [] {
      HandleKeepsWellFormed(v, events[0], disk);
      HandleCommittedNeverIndexError(v, events[0], disk);
      RunCommittedKeepsIndexInList(HandleCommitted(v, events[0], disk).view, events[1..], disk);
    }
  }
}
