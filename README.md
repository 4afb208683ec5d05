# Simple image viewer: navigation and view state

This project models the part of the viewer's main window (`ImageViewer` in
main.py) that has behaviour of its own: the list of images in the opened
file's directory and the index into it, stepping back and forth through that
list without wrapping, rotation in quarter turns modulo 360 degrees, the GIF
frame counter, the full-screen switch, and the keyboard shortcuts that drive
them.

- `PyLib` (pylib.dfy) holds the Python behaviour the handlers rely on:
  posix `os.path.dirname`, `basename` and `join`, `str.lower` and
  `str.endswith`, `list.index` (None for the ValueError) and list subscription
  with negative indices (None for the IndexError).
- `Viewer` (viewer.dfy) is the state machine over values. The datatype `View`
  holds the fields the handlers touch. There is one function per handler,
  returning the new `View` together with whether the handler returned or
  raised. A Python exception keeps every assignment made before it, and the
  functions do the same.
- `ViewerObject` (viewer_object.dfy) is the class `ImageViewer` with those
  fields, updated in place. Each method is proved to leave the fields exactly
  as the function of the same name in `Viewer` says.
- `ViewerFacts` (viewer_facts.dfy) proves what the handlers promise, as
  lemmas about those functions.

I/O is passed in as arguments. `open_image` receives the file the dialog
returned ("" when cancelled) and the directory listing `os.listdir` would
return. The listing is None when `os.listdir` raises, which it always does
for the empty directory of a bare file name; the file dialog returns absolute
paths. Every handler that loads an image receives `disk`, which says what the
image library makes of a path: a still picture, a GIF with a number of
frames, or an error.

main.py has no cache of neighbouring images, no natural sorting, no
wrap-around, no deleting or moving of files and no configurable shortcuts:
its list is in `os.listdir` order, stepping stops at both ends, and the
shortcuts are fixed.

## Model

| member | source | states |
|---|---|---|
| PyLib.IndexOf | main.py:93 | `list.index`: the result is the first position holding the value; it is absent (ValueError) exactly when the value is not in the list |
| PyLib.IndexOfIsFirst | main.py:93 | an occurrence with no earlier occurrence is exactly what `list.index` returns |
| PyLib.IndexOfSamePositions | main.py:88-93 | two lists of the same length holding their values at the same positions give the same `index` answer, error included |
| PyLib.Subscriptable | main.py:123 | a list subscript lies in [-len, len); outside that range Python raises IndexError |
| PyLib.PyIndex | main.py:167-175 | list subscription: a value exactly when the subscript is in range, the element counted from the front for a non-negative subscript and from the end for a negative one; None is the IndexError |
| PyLib.LowerChar | main.py:91 | `str.lower` on one character: ASCII capitals folded, everything else kept (the filter facts are in ViewerFacts.ImageNamesKeepsOrder and Viewer.ImageNames) |
| PyLib.Lower | main.py:91 | `str.lower` character by character, same length |
| PyLib.EndsWith | main.py:91 | `str.endswith`: the suffix is the last characters of the string |
| PyLib.SplitPoint | main.py:85-87 | where the last path component starts: right after a slash (or at 0), with no slash after it |
| PyLib.RStripSlashes | main.py:85 | `rstrip('/')`: a prefix not ending in a slash, with only slashes removed |
| PyLib.Basename | main.py:87 | the last component holds no slash |
| PyLib.Dirname | main.py:85 | `os.path.dirname`: everything before the last component, trailing slashes removed unless only slashes remain; its properties are DirnameIsPrefix, DirnameOfNormalize, DirnameAfterSlash and DirnameBasenameOfJoin |
| PyLib.DirnameIsPrefix | main.py:85 | `dirname` returns a prefix of the path |
| PyLib.Join | main.py:88 | `os.path.join` of two components: an absolute second component replaces the first, otherwise one slash separates them unless the first is empty or ends in one; its properties are JoinEndsWith, JoinInjective and DirnameBasenameOfJoin |
| PyLib.JoinEndsWith | main.py:88 | the joined path ends with the second component |
| PyLib.Normalize | main.py:85-88 | the rewrite `join(dirname(p), basename(p))`; NormalizeIdempotent and DirnameOfNormalize state what it keeps |
| PyLib.BasenameOfJoin | main.py:87-88 | joining a directory with a slash-free name gives back that name as the last component |
| PyLib.DirnameOfNormalize | main.py:85-88 | the rewritten path `join(dirname(p), basename(p))` has the same directory as `p` |
| PyLib.DirnameAfterSlash | main.py:85-88 | `dirname` of a directory without a trailing slash, a slash and a slash-free name is that directory |
| PyLib.DirnameBasenameOfJoin | main.py:85-88 | joining a directory without a trailing slash and a slash-free name gives `d/b`, and `dirname` and `basename` split it back into `d` and `b` |
| PyLib.NormalizeIdempotent | main.py:85-88 | the rewriting keeps the base name, and applying it again changes nothing |
| PyLib.JoinInjective | main.py:88-90 | two names that do not start with a slash, joined to the same directory, give the same path only if they are the same name |
| Viewer.ImageNames | main.py:89-92 | the filter keeps exactly the listing names whose lower-cased form ends in .png, .jpg, .jpeg or .gif, and no more names than the listing has |
| Viewer.Initial | main.py:19-28 | the field values `__init__` sets: no path, empty list, index -1, angle 0, not full screen, no frames, frame 0, timer stopped |
| Viewer.IsImageName | main.py:91 | the extension test: the lower-cased name ends in .png, .jpg, .jpeg or .gif |
| Viewer.ImageFiles | main.py:89-92 | the list comprehension; its members and length are stated by ViewerFacts.ImageFilesMembers |
| Viewer.LoadImage | main.py:96-112 | load_image on the fields: timer stopped, then the GIF reset or the still picture, or DecodeFailed; its properties are ViewerFacts.LoadImageRestartsAnimation |
| Viewer.PrevImage | main.py:167-170 | prev_image; its properties are ViewerFacts.PrevImageStepsBack |
| Viewer.NextImage | main.py:172-175 | next_image; its properties are ViewerFacts.NextImageStepsForward |
| Viewer.ReloadCurrentImage | main.py:182-184 | reload_current_image: load the recorded path when it is truthy, otherwise do nothing |
| Viewer.RotateImage | main.py:177-180 | rotate_image; its properties are ViewerFacts.RotateImageReloadsChosenPath |
| Viewer.NextGifFrame | main.py:121-125 | next_gif_frame, raising IndexError when the counter does not subscript the frames; its properties are ViewerFacts.NextGifFrameCycles |
| Viewer.ToggleFullscreen | main.py:186-192 | toggle_fullscreen; its properties are ViewerFacts.ToggleTwiceRestores |
| Viewer.KeyPressEvent | main.py:194-211 | keyPressEvent; its key table is ViewerFacts.KeyDispatch |
| Viewer.OpenImage | main.py:78-94 | open_image as written, keeping the assignments made before a raise; its properties are ViewerFacts.OpenImageFindsChosenFile and OpenImageErrors |
| Viewer.OpenImageCommitted | main.py:83-94 | open_image with the lookup done before any assignment; its properties are ViewerFacts.CommittedOpenKeepsIndexInList |
| Viewer.Handle | main.py:30-71 | one event as the window delivers it: a key, a file picked after Open, or a timer tick while the timer runs |
| Viewer.Run | main.py:214-218 | the event loop: events handled one after another, a raise ending only its own handler; its invariants are ViewerFacts.RunKeepsWellFormed and RunKeepsRightAngle |
| Viewer.Rotated | main.py:178-179 | the new angle lies in [0, 360) and differs from old angle + delta by a multiple of 360 |
| ViewerFacts.NextImageStepsForward | main.py:172-175 | next_image raises the index by exactly one exactly when it is below len - 1, and otherwise changes nothing (no wrap). After a move it loads `image_files[index]` and never raises IndexError. List, path, angle and full-screen flag are unchanged |
| ViewerFacts.PrevImageStepsBack | main.py:167-170 | prev_image lowers the index by exactly one exactly when it is above 0, and otherwise changes nothing. After a move it loads `image_files[index]`, or raises IndexError exactly when the new index is past the end. List, path, angle and full-screen flag are unchanged |
| ViewerFacts.NavigationKeepsIndexInList | main.py:167-175 | from an index in [-1, len), both steps stay in [-1, len) and neither raises IndexError |
| ViewerFacts.NavigationFromInitialIsNoOp | main.py:167-175 | in the initial state (index -1, empty list) prev_image and next_image change nothing |
| ViewerFacts.QuarterTurnsCancel | main.py:177-179 | rotating by +90 then -90 (or the reverse) restores any reduced angle |
| ViewerFacts.FourQuarterTurns | main.py:177-179 | four rotations by +90, or four by -90, restore any reduced angle |
| ViewerFacts.RotatedRightAngle | main.py:177-179 | rotating a multiple of 90 by a multiple of 90 gives 0, 90, 180 or 270 |
| ViewerFacts.RotateImageReloadsChosenPath | main.py:177-184 | rotate_image changes the angle as above and keeps list, index, path and full-screen flag. It reloads the path chosen in the dialog, not the entry at the current index. Without a chosen path it only turns |
| ViewerFacts.LoadImageRestartsAnimation | main.py:96-112 | loading keeps list, index, path, angle and full-screen flag. A GIF resets the frame to 0 with its own frame count. The timer runs afterwards exactly for a GIF with frames. Loading fails exactly for an unreadable file |
| ViewerFacts.NextGifFrameCycles | main.py:121-125 | next_gif_frame does nothing without frames. Otherwise it changes only the frame counter, moving it to the next frame and from the last back to 0, and the counter stays below the frame count |
| ViewerFacts.TicksAdvance | main.py:121-125 | after n ticks the frame counter has moved (frame + n) mod frame count |
| ViewerFacts.TicksFullCycle | main.py:121-125 | as many ticks as there are frames return the animation to its starting state |
| ViewerFacts.ToggleTwiceRestores | main.py:186-192 | toggle_fullscreen flips the flag, and toggling twice restores the state |
| ViewerFacts.EscapeOnlyLeavesFullscreen | main.py:207-209 | Escape leaves full screen (if in it) and changes nothing else; it never enters full screen |
| ViewerFacts.KeyDispatch | main.py:194-211 | Left, Right, R, L and F run prev_image, next_image, rotate_image(90), rotate_image(-90) and toggle_fullscreen; any other key changes nothing |
| ViewerFacts.KeysKeepPathAndList | main.py:194-211 | no key changes the chosen path or the list; only F and Escape change the full-screen flag |
| ViewerFacts.ImageNamesKeepsOrder | main.py:89-92 | filtering a concatenation is concatenating the filtered parts, so listing order is kept |
| ViewerFacts.ImageNamesIdempotent | main.py:89-92 | filtering the filtered names changes nothing |
| ViewerFacts.ImageFilesMembers | main.py:89-92 | the rebuilt list holds exactly the joined paths of the listing names that pass the filter, one per such name |
| ViewerFacts.LookupJoined | main.py:88-93 | looking up `join(dir, name)` in the joined list finds the same position as looking up the name among the filtered names |
| ViewerFacts.OpenImageFindsChosenFile | main.py:83-94 | open_image records the chosen path and rebuilds the list. The lookup succeeds exactly when the chosen base name is in the listing and passes the filter. The index then names the entry equal to the rewritten path, which is loaded. On failure only the path and the list have changed |
| ViewerFacts.OpenImageErrors | main.py:83-90 | a cancelled dialog changes nothing. A directory that cannot be listed leaves only the chosen path recorded |
| ViewerFacts.OpenImageKeepsAngle | main.py:78-94 | opening a file, as written or corrected, keeps the rotation angle and the full-screen flag, so the new image is shown turned by the angle in force |
| ViewerFacts.LoadImageKeepsWellFormed | main.py:96-108 | loading keeps the invariant |
| ViewerFacts.KeyPressKeepsWellFormed | main.py:194-211 | every key keeps the invariant |
| ViewerFacts.RotateKeepsWellFormed | main.py:177-184 | rotating and reloading keeps the invariant |
| ViewerFacts.OpenImageKeepsWellFormed | main.py:83-94 | opening keeps the invariant |
| ViewerFacts.HandleKeepsWellFormed | main.py:194-211 | every event keeps the invariant: index at least -1, angle in [0, 360), frame counter below the frame count (or 0 without frames), timer only with frames, a recorded path is never empty |
| ViewerFacts.RunKeepsWellFormed | main.py:19-28 | any run of events from a state satisfying the invariant (the initial one among them) ends in one satisfying it |
| ViewerFacts.HandleKeepsRightAngle | main.py:177-179 | every event keeps the angle a multiple of 90 |
| ViewerFacts.RunKeepsRightAngle | main.py:194-204 | after any run of events from the initial angle, the angle is 0, 90, 180 or 270 |
| ViewerFacts.KeyRunKeepsPathAndList | main.py:194-211 | runs of keys and timer ticks never change the chosen path or the list |
| ViewerFacts.FailedOpenLeavesStaleIndex | main.py:89-93 | open /d/b.png with /d holding [a.png, b.png] (index 1), then /e/c.bmp with /e holding [c.bmp]. The lookup raises, the list is empty, the index stays 1, and Left then raises IndexError |
| ViewerFacts.CommittedOpenKeepsIndexInList | main.py:83-94 | the corrected open keeps the index in [-1, len) and never raises IndexError. A failed listing or lookup leaves the state unchanged |
| ViewerFacts.KeyPressNeverIndexError | main.py:194-204 | from an index in [-1, len), no key raises IndexError and the index stays in [-1, len) |
| ViewerFacts.HandleCommittedNeverIndexError | main.py:167-175 | with the corrected open, no event raises IndexError and the index stays in [-1, len) |
| ViewerFacts.RunCommittedKeepsIndexInList | main.py:167-175 | with the corrected open, any run of events keeps the invariant and the index in [-1, len) |
| ViewerObject.ImageViewer.constructor | main.py:13-30 | the fields start as: no path, empty list, index -1, angle 0, not full screen, no frames, frame 0, timer stopped |
| ViewerObject.ImageViewer.LoadImage | main.py:96-112 | updates the fields in place as `Viewer.LoadImage`: timer stopped first; for a GIF, frames replaced, frame 0, timer started when there are frames |
| ViewerObject.ImageViewer.NextGifFrame | main.py:121-125 | updates the frame counter in place as `Viewer.NextGifFrame` |
| ViewerObject.ImageViewer.PrevImage | main.py:167-170 | updates the index in place and loads as `Viewer.PrevImage` |
| ViewerObject.ImageViewer.NextImage | main.py:172-175 | updates the index in place and loads as `Viewer.NextImage` |
| ViewerObject.ImageViewer.ReloadCurrentImage | main.py:182-184 | loads the chosen path again, if any, as `Viewer.ReloadCurrentImage` |
| ViewerObject.ImageViewer.RotateImage | main.py:177-180 | updates the angle modulo 360 and reloads as `Viewer.RotateImage` |
| ViewerObject.ImageViewer.ToggleFullscreen | main.py:186-192 | flips the full-screen flag and nothing else |
| ViewerObject.ImageViewer.KeyPressEvent | main.py:194-211 | dispatches the key to the methods above as `Viewer.KeyPressEvent` |
| ViewerObject.ImageViewer.OpenImage | main.py:78-94 | records the path, rebuilds the list, looks up the chosen file and loads it as `Viewer.OpenImage`, keeping the assignments made before a raise |

## Left out

- Qt widgets, the toolbar and its actions, the status-bar text, `QFileDialog` and `resizeEvent`: window plumbing. The dialog's answer is an argument of `OpenImage`. The toolbar buttons run the same handlers as the Left, Right, L and R keys.
- The image library: opening, frame copying, `convert`, pixel rotation, `tobytes` and the `QImage`/`QPixmap` construction. The argument `disk` says what opening a path yields, and the model keeps only the effects on the fields: the timer, the frame count, the frame counter and the loaded path.
- ViewerObject.ImageViewer.LoadImage and Viewer.LoadImage: a GIF whose frames fail to decode part-way is treated as unreadable, so only the timer has been stopped when DecodeFailed is raised. The source has by then emptied `gif_frames` and appended the frames decoded before the failure, and left `current_gif_frame` alone, which may leave it at or past the new `len(gif_frames)`: the frame clause of `WellFormed` does not hold there. The timer stays stopped, so no tick reaches that state before a later GIF load resets the counter. `disk` answers all or nothing, so the model does not reach that state.
- Viewer.Run and Viewer.RunCommitted: one `disk` serves the whole run, so the file system is fixed for the length of a run. A file that becomes unreadable between events (opened, then deleted, then reloaded by R) is not expressible within one run. Every lemma about a single event holds for every `disk`.
- `fit_image_to_window`: floating-point scaling to the widget size.
- `QTimer` timing: only whether the timer runs is kept. A tick is an event that runs `next_gif_frame` while it runs.
- `os.listdir` and the file system: the listing is an argument. The path functions follow the posix flavour of `os.path`; Windows drive letters and backslashes are not modelled.
- `str.lower` folds ASCII letters only. Besides the ASCII capitals, Unicode lowers only two characters to ASCII text: the Kelvin sign becomes `k`, and the dotted capital I becomes `i` followed by a combining dot. Neither can complete one of the four suffixes, so the filter decides as Python's does.
- theme.py (colour constants and a style sheet) and ArgsParser.py (a wrapper over `argparse`): no behaviour of the window.
- The base class's handling of keys other than the six listed: it changes none of the modelled fields.

## Findings

| source | as written | input that shows it | evidently intended | confidence | as-written member | corrected member |
|---|---|---|---|---|---|---|
| main.py:89-93 | `image_files` is replaced before `list.index` runs. When the lookup raises ValueError, `current_image_index` keeps its value from the previous directory's list | Open /d/b.png, where /d holds a.png and b.png (index 1). Then pick /e/c.bmp, typed into the dialog, where /e holds only c.bmp. The filter drops c.bmp, so the list is empty and the lookup raises, with the index still 1. Left then moves the index to 0 and `image_files[0]` raises IndexError | The list, the index and the path are replaced together, only once the chosen file has been found. Then no handler raises IndexError and the index always names an entry (ViewerFacts.RunCommittedKeepsIndexInList) | medium; not executed | ViewerFacts.FailedOpenLeavesStaleIndex | Viewer.OpenImageCommitted |

`Viewer.HandleCommitted` and `Viewer.RunCommitted` are the event handling with
the corrected open. `Viewer.OpenImage` and `ViewerObject.ImageViewer.OpenImage`
keep the behaviour as written.
