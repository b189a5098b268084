# QR Code Application — a Dafny model of its original logic

The application converts text to QR-code images and back. It can also take the
image from a live camera. The QR codec, the camera driver, image files and the
Swing window are outside libraries. This project models the application's own
logic on top of them and proves properties about it:

- **Command line** (`QRCodeApp.main`). Zero or one argument is accepted. A single
  argument is `key=value`, split at its first `=`. The key `image` or `msg` is
  matched ignoring case. The result is an exit code (0, -1, -2) and at most one
  of the two startup parameters. The constructor then gives the image file
  priority over the message.
- **Save format** (`saveImageFile`). The format name is the text after the last
  `.` of the file name, or the whole name when it has no `.`.
- **Image panel** (`ImagePanel`). It holds the displayed image (the last write
  wins), the camera handle and the refresh thread. Each synchronized method is
  one atomic transition. Each transition returns the next panel and the calls it
  made on the camera device (open, read, release). Two things are inputs:
  whether the camera opens, and the size of each frame read.
- **Refresh thread** (`RefreshThread`). Two flags, `running` and `resumed`,
  with suspend, resume and terminate. One loop pass captures only while
  resumed. The loop ends for good once `running` is false. The `sleep` helper
  re-waits until the clock passes its wake-up time; the clock is a sequence
  of readings.
- **Application operations**: loading an image file, typing a message,
  capturing and decoding a camera frame, and shutting down. Encoding, decoding
  and file reading are opaque functions passed in. Each may fail.

Modules: `Wrappers` (Option), `JavaString` (indexOf, lastIndexOf, substring,
equalsIgnoreCase, File.getName), `Imaging` (image and frame dimensions),
`RefreshThread`, `ImagePanel`, `QRCodeApp`.

Notes on the code's behaviour:

- `QRCode.decodeMessage` wraps `NotFoundException` in a plain
  `RuntimeException`, so `setImageFile` tells only an I/O failure from a
  decode failure.
- The loop state is two independent booleans. Terminating leaves `resumed` as
  it was, and `terminateCameraThread` keeps the camera reference after
  releasing it.
- `stopCamera` followed by `startCamera` releases and reopens the camera.
  The thread's own `suspendThread`/`resumeThread` leave it alone.
- When `ImageIO.read` returns null (no reader for the format), `setImageFile`
  clears the display. Then the decode fails on the null image.

## Model

| member | source | states |
|---|---|---|
| JavaString.IndexOfFrom | src/QRCodeApp.java:107 | the result is -1 exactly when no character at or after the start position is the one sought; otherwise it is at that position and none between the start and it |
| JavaString.IndexOf | src/QRCodeApp.java:107 | the result is -1 exactly when the character is absent; otherwise the character is at that position and not before it |
| JavaString.LastIndexOfBefore | src/QRCodeApp.java:250 | the result is -1 exactly when no character before the bound is the one sought; otherwise it is at that position and none between it and the bound |
| JavaString.LastIndexOf | src/QRCodeApp.java:250 | the result is -1 exactly when the character is absent; otherwise the character is at that position and not after it |
| JavaString.AfterLast | src/QRCodeApp.java:250 | the result is the suffix after the last occurrence: a suffix free of the character, the whole string exactly when the character is absent, and otherwise preceded by it |
| JavaString.AfterLastUnique | src/QRCodeApp.java:250 | any split `prefix + c + suffix` whose suffix lacks `c` gives that suffix |
| JavaString.AfterLastOfSuffix | src/QRCodeApp.java:249-250 | the text after the last `c` is unchanged by putting text in front, as long as the tail already holds a `c` |
| JavaString.SplitAtFirst | src/QRCodeApp.java:107-119 | None exactly when there is no `=`; otherwise left + `=` + right rebuilds the argument and the left part holds no `=` |
| JavaString.SplitAtFirstUnique | src/QRCodeApp.java:107-119 | the split is at the first `=`: any left part free of `=` is the one found, and the right part keeps later `=`s or is empty |
| JavaString.FileName | src/QRCodeApp.java:249 | the file name is the suffix of the path after its last `/`: it holds no `/`, it is the whole path exactly when the path has no `/`, and otherwise it is preceded by `/` |
| JavaString.CharsEqualIgnoreCaseAgainstLower | src/QRCodeApp.java:124-128 | against an ASCII lower-case letter, Java's character test (equal, equal upper-case forms, or equal lower-case forms of those) accepts exactly the letter, its capital, and for `i` also U+0131 and U+0130, for `s` U+017F, for `k` U+212A |
| JavaString.EqualsIgnoreCase | src/QRCodeApp.java:124-128 | equal strings have equal lengths; against a target in ASCII lower case, a string matches exactly when it has the target's length and each character is the target letter, its capital, or one of the non-ASCII letters Java folds onto it (U+0131 and U+0130 onto `i`, U+017F onto `s`, U+212A onto `k`) |
| JavaString.EqualsIgnoreCaseAcceptsCapitals | src/QRCodeApp.java:124-128 | a key spelt like the target with any letters capitalised matches it |
| QRCodeApp.ParseArgs | src/QRCodeApp.java:94-137 | exit code is 0, -1 or -2; -1 exactly for more than one argument; on error neither field is set; never both; no argument gives 0 with both unset; a single argument without `=` gives -2; a successful single argument sets one field |
| QRCodeApp.RunMain | src/QRCodeApp.java:139-157 | the window is built exactly when the exit code is 0; otherwise the process exits with that nonzero code |
| QRCodeApp.TooManyArguments | src/QRCodeApp.java:96-102 | more than one argument exits with -1 and builds no window |
| QRCodeApp.NoArguments | src/QRCodeApp.java:94-105 | no argument gives exit code 0, both fields unset, and an empty window |
| QRCodeApp.MissingSeparator | src/QRCodeApp.java:107-115 | an argument without `=` exits with -2 and sets nothing |
| QRCodeApp.ImageArgument | src/QRCodeApp.java:118-127 | a key equal to `image` ignoring case sets the image file to everything after the first `=` and opens it |
| QRCodeApp.MessageArgument | src/QRCodeApp.java:118-131 | a key equal to `msg` ignoring case sets the message to everything after the first `=` and shows it |
| QRCodeApp.UnknownKey | src/QRCodeApp.java:132-135 | any other key exits with -2 and leaves both fields unset |
| QRCodeApp.UpperCaseKeyAccepted | src/QRCodeApp.java:124-127 | `IMAGE=qr.png` opens `qr.png` |
| QRCodeApp.DotlessIKeyAccepted | src/QRCodeApp.java:124-127 | a key spelt with a dotless i is accepted as `image`, as Java's case folding does |
| QRCodeApp.InitialContent | src/QRCodeApp.java:190-203 | an image file is opened whenever given; the message is shown only when there is no image file; otherwise nothing |
| QRCodeApp.Construct | src/QRCodeApp.java:176-204 | the constructor loads the image file when given, otherwise sets the message text when given, otherwise leaves the fresh application |
| QRCodeApp.ImageFileIgnoresMessage | src/QRCodeApp.java:190-203 | with an image file given, the message parameter makes no difference |
| QRCodeApp.FormatName | src/QRCodeApp.java:250 | the format has no `.`; it is the whole name when the name has no `.`, and otherwise the suffix after a `.` |
| QRCodeApp.FormatNameIsExtension | src/QRCodeApp.java:250 | `stem.ext` has format `ext` whenever `ext` holds no `.` |
| QRCodeApp.SaveFormat | src/QRCodeApp.java:249-250 | the save format holds neither `.` nor `/`; its value is fixed by the three lemmas below |
| QRCodeApp.SaveFormatAfterLastSeparator | src/QRCodeApp.java:249-250 | when the path splits as `prefix`, a separator `.` or `/`, then text free of both, the save format is that text |
| QRCodeApp.SaveFormatAfterDot | src/QRCodeApp.java:249-250 | `prefix.f` with `f` free of `.` and `/` is saved in format `f`, whether or not the prefix has a directory part |
| QRCodeApp.SaveFormatWithoutSeparator | src/QRCodeApp.java:249-250 | a path with neither `.` nor `/` is its own save format |
| QRCodeApp.SaveFormatIsExtension | src/QRCodeApp.java:249-250 | `dir/stem.ext` is saved in format `ext` whatever separators `dir` and dots `stem` hold |
| QRCodeApp.WriteFormatAgreesWhenNameHasDot | src/QRCode.java:107-110 | the whole-path rule of `writeMessage` gives the same format as the save rule when the file name has a `.` |
| QRCodeApp.WriteFormatDiffersInDottedDirectory | src/QRCode.java:109 | for `dir.v2/qr` the save rule gives `qr`; the whole-path rule gives `v2/qr` |
| QRCodeApp.SetImageFile | src/QRCodeApp.java:212-238 | a read failure changes nothing; otherwise the image read (or null) is displayed; success exactly when decoding works, and only then does the text change; camera and thread untouched |
| QRCodeApp.SetMessageText | src/QRCodeApp.java:268-272 | the text is always set; the exception escapes exactly when encoding fails, and then the display is unchanged; otherwise the encoded image is displayed |
| QRCodeApp.MessageEntered | src/QRCodeApp.java:333-340 | the typed text is encoded into the display with camera, thread and text unchanged; the exception escapes exactly when encoding fails, and then nothing changes |
| QRCodeApp.MessageEnteredIsSetMessageText | src/QRCodeApp.java:268-272 | pressing Enter does what `setMessageText` does with the text already in the field |
| QRCodeApp.CaptureAndDecode | src/QRCodeApp.java:295-313 | the panel captures first; success exactly when the displayed image exists and decodes; the text changes only on success, to the decoded message |
| QRCodeApp.TerminateProgram | src/QRCodeApp.java:318-322 | the thread stops running, a held camera is released, and the exit code is 0 |
| Imaging.MatToBufferedImage | src/ImagePanel.java:161-170 | a frame with pixels becomes an image of the same width and height, fit for display |
| RefreshThread.SuspendThread | src/RefreshThread.java:49-52 | resumed becomes false; running is unchanged |
| RefreshThread.ResumeThread | src/RefreshThread.java:57-60 | resumed becomes true; running is unchanged |
| RefreshThread.TerminateThread | src/RefreshThread.java:65-68 | running becomes false; resumed is unchanged |
| RefreshThread.TerminateIdempotent | src/RefreshThread.java:65-68 | terminating twice is the same as terminating once |
| RefreshThread.Apply | src/RefreshThread.java:49-68 | no control call sets running back to true; only terminate changes running; suspend and resume set resumed |
| RefreshThread.Iterate | src/RefreshThread.java:76-87 | a pass exits exactly when not running, and captures exactly when running and resumed |
| RefreshThread.Run | src/RefreshThread.java:74-90 | captures never exceed passes, passes never exceed ticks, and running never comes back |
| RefreshThread.TerminatedRunIsInert | src/RefreshThread.java:65-90 | once terminated, whatever follows, the loop makes no pass and stays terminated |
| RefreshThread.NoCaptureWithoutResume | src/RefreshThread.java:31-89 | a thread not resumed, such as a new one, captures nothing until resumed |
| RefreshThread.EveryTickCapturesWhileResumed | src/RefreshThread.java:76-89 | while running and resumed, every pass captures |
| RefreshThread.Sleep | src/RefreshThread.java:99-114 | a non-positive time returns at once without sleeping; every nap is positive and is the time left to the wake-up; it never stops before the wake-up time; on return the last reading is at least start plus sleep time |
| ImagePanel.SetImage | src/ImagePanel.java:74-88 | `getImage` after `setImage(x)` returns `x`; camera and thread are unchanged |
| ImagePanel.StartCamera | src/ImagePanel.java:93-111 | one open attempt; the camera is held exactly when it opened; resumed is set only on success; the image and running are unchanged |
| ImagePanel.StopCamera | src/ImagePanel.java:116-124 | resumed is cleared and no camera is held; a release happens exactly when a camera was held |
| ImagePanel.CaptureImage | src/ImagePanel.java:129-140 | without a camera nothing happens; with one, one read; a frame of positive size replaces the image by one of the same width and height; any other frame leaves it |
| ImagePanel.TerminateCameraThread | src/ImagePanel.java:145-152 | running is cleared, a held camera is released, and the reference is kept |
| ImagePanel.RefreshPass | src/RefreshThread.java:81-87 | a loop pass is a panel capture when running and resumed, and nothing otherwise |
| ImagePanel.ReadsBoundedByPasses | src/RefreshThread.java:76-89 | over any history, frame reads never exceed capture requests plus loop passes |
| ImagePanel.TerminatedLoopStaysIdle | src/ImagePanel.java:145-152 | after terminating, running stays false and every read comes from an explicit capture request |
| ImagePanel.StreamingPasses | src/RefreshThread.java:76-89 | with a camera, running and resumed, N passes make N reads and leave the last frame with pixels on display |
| ImagePanel.StoppedPasses | src/RefreshThread.java:74-90 | once terminated, loop passes change and call nothing |
| ImagePanel.IdlePasses | src/RefreshThread.java:83-86 | passes of a thread that is not resumed change and call nothing |
| ImagePanel.StartStreamTerminate | src/ImagePanel.java:93-152 | start, N passes, terminate, more passes: exactly one open, N reads, then one release |
| ImagePanel.FailedStartStaysIdle | src/ImagePanel.java:98-106 | a failed open leaves no camera and no resumed thread; later passes read nothing and terminating releases nothing |
| ImagePanel.DisplayStaysOk | src/ImagePanel.java:131-138 | if every image set is null or of positive size, the display never shows anything else |
| ImagePanel.HandleFollowsRun | src/RefreshThread.java:49-90 | one panel event moves the thread flags as the thread's run over what it sees does, and reads no more frames than that run captures plus one for a capture request |
| ImagePanel.SessionFollowsRun | src/RefreshThread.java:49-90 | over any history, the panel's thread flags are those of `RefreshThread.Run` over the events the thread sees, and frame reads never exceed that run's captures plus the capture requests |

## Left out

- Swing: the menu bar, file dialogs, message dialogs, window layout constants,
  `repaint` and `paint`. None of these has state the model needs.
- `printUsage` output. Its usage line advertises `file=<ImageFile>`, but the
  parser accepts only `image=`. The text is not modelled.
- `System.exit`: it is modelled only as the exit code the process ends with.
- The QR codec (`QRCode.encodeMessage`, `decodeMessage`, `readMessage`,
  `writeMessage`). These are library calls. They appear only as the opaque
  `Encoder` and `Decoder` parameters, which may fail. The only local rule is the
  whole-path format rule of `writeMessage`, which `FormatName` models.
- `ImageIO` reading and writing. A read is an input (`ImageRead`). The write in
  `saveImageFile` is not modelled; only its format name is.
- The OpenCV device. Whether `VideoCapture` opens and the size of each frame read
  are inputs. The pixel copy in `MatToBufferedImage` is not modelled; images and
  frames carry only their dimensions.
- Thread scheduling, locks and memory visibility. Each synchronized method is
  one atomic step. A loop pass is one step too, so a terminate between the
  loop's `running` test and its `resumed` test is not modelled. `threadRunning`
  is read without the lock and is not volatile; that is not modelled either.
  The loop locks the thread and then the panel, while the panel's camera
  methods lock the panel and then the thread. This lock-order inversion is
  outside the atomic-step model.
- Wall-clock time. `RefreshThread.Sleep` reads the clock from a finite
  sequence. Its termination in real time depends on the clock advancing, so
  only the exit condition is proved.
- RefreshThread.Sleep: the 64-bit `long` arithmetic of `wakeupTime` is unbounded here; its only caller passes 100 ms, far from overflow.
- JavaString.EqualsIgnoreCase: `ToUpperCase` and `ToLowerCase` cover only
  the characters whose case form is an ASCII letter and leave every other
  character as it is, so the comparison is exact only for targets in ASCII
  lower case (the two keys here).
- JavaString.FileName: `java.io.File` normalises paths and uses the platform
  separator; the model takes the text after the last `/`.
- Exceptions escaping the constructor. `Construct` reports that encoding threw;
  what the JVM does next is not modelled.
