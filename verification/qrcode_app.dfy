/** The application class: command-line parsing in `main`, the choice the
    constructor makes between its two optional parameters, the save-format
    rule, and the operations that move images between the QR codec, image
    files, the camera and the image panel.  The QR codec and image-file
    reading are opaque functions handed in as parameters. */
module QRCodeApp {
  import opened Wrappers
  import opened JavaString
  import opened Imaging
  import ImagePanel

  const ERROR_NONE: int := 0
  const ERROR_INVALID_NUM_ARGUMENTS: int := -1
  const ERROR_INVALID_ARGUMENT: int := -2

  /** The size of the QR code images generated for display. */
  const IMAGE_WIDTH: int := 640
  const IMAGE_HEIGHT: int := 480

  /** The two parameter names `main` accepts, compared ignoring case. */
  const ImageKey: string := "image"
  const MsgKey: string := "msg"

  // ---------------------------------------------------------------------
  // main

  /** What argument parsing leaves behind: the exit code and the static
      `imageFile` / `msg` fields (null stays None). */
  datatype Launch = Launch(exitCode: int, imageFile: Option<string>, msg: Option<string>)

  /** The parsing part of `main`.  More than one argument is an argument
      count error; no argument is fine; a single argument must be
      `key=value`, split at its first '=', with the key `image` or `msg`
      in any case. */
  function ParseArgs(args: seq<string>): (r: Launch)
    ensures r.exitCode in {ERROR_NONE, ERROR_INVALID_NUM_ARGUMENTS, ERROR_INVALID_ARGUMENT}
    ensures r.exitCode == ERROR_INVALID_NUM_ARGUMENTS <==> |args| > 1
    ensures r.exitCode != ERROR_NONE ==> r.imageFile.None? && r.msg.None?
    ensures r.imageFile.None? || r.msg.None?
    ensures |args| == 0 ==> r == Launch(ERROR_NONE, None, None)
    ensures |args| == 1 && r.exitCode == ERROR_NONE ==> r.imageFile.Some? || r.msg.Some?
    ensures |args| == 1 && '=' !in args[0] ==> r.exitCode == ERROR_INVALID_ARGUMENT
  {
    if |args| > 1 then Launch(ERROR_INVALID_NUM_ARGUMENTS, None, None)
    else if |args| == 0 then Launch(ERROR_NONE, None, None)
    else
      match SplitAtFirst(args[0], '=')
      case None => Launch(ERROR_INVALID_ARGUMENT, None, None)
      case Some((left, right)) =>
        assert args[0] == (left + ['=']) + right;
        if EqualsIgnoreCase(left, ImageKey) then Launch(ERROR_NONE, Some(right), None)
        else if EqualsIgnoreCase(left, MsgKey) then Launch(ERROR_NONE, None, Some(right))
        else Launch(ERROR_INVALID_ARGUMENT, None, None)
  }

  /** What the constructor shows first: the image file if one was given,
      otherwise the message if one was given, otherwise nothing. */
  datatype Startup = OpenImageFile(path: string) | ShowMessage(text: string) | Blank

  /** The constructor's choice: the image file wins over the message. */
  function InitialContent(imageFile: Option<string>, msg: Option<string>): (s: Startup)
    ensures s.OpenImageFile? <==> imageFile.Some?
    ensures s.OpenImageFile? ==> s.path == imageFile.value
    ensures s.ShowMessage? <==> imageFile.None? && msg.Some?
    ensures s.ShowMessage? ==> s.text == msg.value
  {
    match imageFile
    case Some(path) => OpenImageFile(path)
    case None =>
      match msg
      case Some(text) => ShowMessage(text)
      case None => Blank
  }

  /** How `main` ends: the window is built and shows its startup content,
      or the usage is printed and the process exits with the error code. */
  datatype MainOutcome = Window(startup: Startup) | UsageExit(code: int)

  /** `main`: the window is built exactly when parsing succeeded. */
  function RunMain(args: seq<string>): (o: MainOutcome)
    ensures o.UsageExit? <==> ParseArgs(args).exitCode != ERROR_NONE
    ensures o.UsageExit? ==> o.code == ParseArgs(args).exitCode && o.code != ERROR_NONE
  {
    var launch := ParseArgs(args);
    if launch.exitCode == ERROR_NONE then Window(InitialContent(launch.imageFile, launch.msg))
    else UsageExit(launch.exitCode)
  }

  /** More than one argument: exit code -1 and no window. */
  lemma TooManyArguments(args: seq<string>)
    requires |args| > 1
    ensures RunMain(args) == UsageExit(ERROR_INVALID_NUM_ARGUMENTS)
  {
  }

  /** No argument: the window is built empty. */
  lemma NoArguments()
    ensures ParseArgs([]) == Launch(ERROR_NONE, None, None)
    ensures RunMain([]) == Window(Blank)
  {
  }

  /** A single argument without '=': exit code -2 and no window. */
  lemma MissingSeparator(arg: string)
    requires '=' !in arg
    ensures ParseArgs([arg]) == Launch(ERROR_INVALID_ARGUMENT, None, None)
    ensures RunMain([arg]) == UsageExit(ERROR_INVALID_ARGUMENT)
  {
  }

  /** `image=<file>`, with the key in any case: the image file is the whole
      text after the first '=', later '='s and the empty text included. */
  lemma ImageArgument(key: string, value: string)
    requires '=' !in key && EqualsIgnoreCase(key, ImageKey)
    ensures ParseArgs([key + "=" + value]) == Launch(ERROR_NONE, Some(value), None)
    ensures RunMain([key + "=" + value]) == Window(OpenImageFile(value))
  {
    SplitAtFirstUnique(key + "=" + value, '=', key, value);
  }

  /** `msg=<text>`, with the key in any case: the message is the whole text
      after the first '='. */
  lemma MessageArgument(key: string, value: string)
    requires '=' !in key && EqualsIgnoreCase(key, MsgKey)
    ensures ParseArgs([key + "=" + value]) == Launch(ERROR_NONE, None, Some(value))
    ensures RunMain([key + "=" + value]) == Window(ShowMessage(value))
  {
    SplitAtFirstUnique(key + "=" + value, '=', key, value);
  }

  /** Any other key: exit code -2, neither field set, no window. */
  lemma UnknownKey(key: string, value: string)
    requires '=' !in key && !EqualsIgnoreCase(key, ImageKey) && !EqualsIgnoreCase(key, MsgKey)
    ensures ParseArgs([key + "=" + value]) == Launch(ERROR_INVALID_ARGUMENT, None, None)
    ensures RunMain([key + "=" + value]) == UsageExit(ERROR_INVALID_ARGUMENT)
  {
    SplitAtFirstUnique(key + "=" + value, '=', key, value);
  }

  /** Mixed-case keys are accepted: `IMAGE=qr.png` opens `qr.png`. */
  lemma UpperCaseKeyAccepted()
    ensures RunMain(["IMAGE=qr.png"]) == Window(OpenImageFile("qr.png"))
  {
    assert "IMAGE=qr.png" == "IMAGE" + "=" + "qr.png";
    ImageArgument("IMAGE", "qr.png");
  }

  /** Java folds some non-ASCII letters onto ASCII ones: a key spelt with
      a dotless i (U+0131) is accepted as `image` as well. */
  lemma DotlessIKeyAccepted()
    ensures RunMain(["\U{0131}mage=qr.png"]) == Window(OpenImageFile("qr.png"))
  {
    assert "\U{0131}mage=qr.png" == "\U{0131}mage" + "=" + "qr.png";
    ImageArgument("\U{0131}mage", "qr.png");
  }

  // ---------------------------------------------------------------------
  // Save format

  /** The image format name taken from a file name: the text after its last
      '.', or the whole name when it has none. */
  function FormatName(name: string): (f: string)
    ensures '.' !in f
    ensures '.' !in name ==> f == name
    ensures '.' in name ==> |f| < |name| && name[|name| - |f| - 1] == '.' && name[|name| - |f|..] == f
  {
    AfterLast(name, '.')
  }

  /** `stem.ext` has format `ext` whenever `ext` holds no '.', whatever dots
      the stem holds. */
  lemma FormatNameIsExtension(stem: string, ext: string)
    requires '.' !in ext
    ensures FormatName(stem + "." + ext) == ext
  {
    AfterLastUnique(stem + "." + ext, '.', stem, ext);
  }

  /** `saveImageFile`: the format is taken from the last component of the
      path only.  The lemmas below pin it down: it is the text after the
      last '.' or '/' of the path, or the whole path when it has neither. */
  function SaveFormat(path: string): (f: string)
    ensures '.' !in f && '/' !in f
  {
    FormatName(FileName(path))
  }

  /** The save format is the text after the last '.' or '/' of the path:
      any split `prefix + [sep] + f` at one of the two separators, with
      neither in `f`, gives `f`. */
  lemma SaveFormatAfterLastSeparator(path: string, prefix: string, sep: char, f: string)
    requires sep == '.' || sep == '/'
    requires path == prefix + [sep] + f
    requires '.' !in f && '/' !in f
    ensures SaveFormat(path) == f
  {
    if sep == '/' {
      AfterLastUnique(path, '/', prefix, f);
    } else {
      SaveFormatAfterDot(prefix, f);
    }
  }

  /** After a last '.' in the file name: when the prefix has a directory
      part this is `dir/stem.f`; otherwise the path is its own file name. */
  lemma SaveFormatAfterDot(prefix: string, f: string)
    requires '.' !in f && '/' !in f
    ensures SaveFormat(prefix + "." + f) == f
  {
    if '/' in prefix {
      var stem := AfterLast(prefix, '/');
      var k := |prefix| - |stem| - 1;
      var dir := prefix[..k];
      assert prefix == dir + "/" + stem by {
        assert prefix[k] == '/';
        assert prefix[k + 1..] == stem;
      }
      assert prefix + "." + f == dir + "/" + stem + "." + f;
      SaveFormatIsExtension(dir, stem, f);
    } else {
      assert '/' !in prefix + "." + f;
      FormatNameIsExtension(prefix, f);
    }
  }

  /** A path holding neither separator is its own save format. */
  lemma SaveFormatWithoutSeparator(path: string)
    requires '.' !in path && '/' !in path
    ensures SaveFormat(path) == path
  {
  }

  /** A path `dir/stem.ext` is saved in format `ext`, whatever '.' and '/'
      the directory holds and whatever '.' the stem holds. */
  lemma SaveFormatIsExtension(dir: string, stem: string, ext: string)
    requires '/' !in stem && '/' !in ext && '.' !in ext
    ensures SaveFormat(dir + "/" + stem + "." + ext) == ext
  {
    var path := dir + "/" + stem + "." + ext;
    assert path == dir + ['/'] + (stem + "." + ext);
    AfterLastUnique(path, '/', dir, stem + "." + ext);
    FormatNameIsExtension(stem, ext);
  }

  /** The rule `QRCode.writeMessage` applies to the whole path agrees with
      the save rule whenever the file name itself has a '.'. */
  lemma WriteFormatAgreesWhenNameHasDot(path: string)
    requires '.' in FileName(path)
    ensures FormatName(path) == SaveFormat(path)
  {
    var name := FileName(path);
    assert path == path[..|path| - |name|] + name;
    AfterLastOfSuffix(path[..|path| - |name|], name, '.');
  }

  /** They disagree when only a directory has a '.': the whole-path rule
      picks up the directory's tail. */
  lemma WriteFormatDiffersInDottedDirectory()
    ensures SaveFormat("dir.v2/qr") == "qr"
    ensures FormatName("dir.v2/qr") == "v2/qr"
  {
    AfterLastUnique("dir.v2/qr", '/', "dir.v2", "qr");
    assert '.' !in "qr";
    AfterLastUnique("dir.v2/qr", '.', "dir", "v2/qr");
  }

  // ---------------------------------------------------------------------
  // Instance operations

  /** The text in the message field and the image panel. */
  datatype App = App(text: string, panel: ImagePanel.Panel)

  /** A newly constructed application, before its startup content. */
  const Fresh: App := App("", ImagePanel.Initial)

  /** `QRCode.encodeMessage(msg, width, height)`; None when it throws. */
  type Encoder = (string, int, int) -> Option<Image>

  /** `QRCode.decodeMessage(image)`; None when no QR code is found. */
  type Decoder = Image -> Option<string>

  /** `ImageIO.read`: an I/O error, null (no reader for the format), or the
      image read. */
  datatype ImageRead = IoError | NoReader | Loaded(image: Image)

  /** The three ends of `setImageFile`: decoded, the read failed, or no QR
      code was found (the two failures raise different dialogs). */
  datatype FileOutcome = Decoded | ReadFailed | QrNotFound

  datatype FileResult = FileResult(app: App, outcome: FileOutcome)

  /** `setImageFile`: a read failure changes nothing.  Otherwise the image
      read (null when no reader) is displayed before decoding is tried; a
      decoded message replaces the text, a failed decode leaves the text
      alone.  Camera and thread are never touched. */
  function SetImageFile(a: App, read: ImageRead, decode: Decoder): (r: FileResult)
    ensures read.IoError? <==> r.outcome == ReadFailed
    ensures read.IoError? ==> r.app == a
    ensures !read.IoError? ==> ImagePanel.GetImage(r.app.panel) == (if read.Loaded? then Some(read.image) else None)
    ensures r.outcome == Decoded <==> read.Loaded? && decode(read.image).Some?
    ensures r.outcome == Decoded ==> r.app.text == decode(read.image).value
    ensures r.outcome != Decoded ==> r.app.text == a.text
    ensures r.app.panel.hasCamera == a.panel.hasCamera && r.app.panel.thread == a.panel.thread
  {
    match read
    case IoError => FileResult(a, ReadFailed)
    case NoReader => FileResult(a.(panel := ImagePanel.SetImage(a.panel, None)), QrNotFound)
    case Loaded(img) =>
      var shown := a.(panel := ImagePanel.SetImage(a.panel, Some(img)));
      match decode(img)
      case Some(text) => FileResult(shown.(text := text), Decoded)
      case None => FileResult(shown, QrNotFound)
  }

  /** The application after a text-to-image operation, and whether the
      encoder's exception escaped it. */
  datatype Edit = Edit(app: App, thrown: bool)

  /** `setMessageText`: the text is set first; the encoded image then
      replaces the display, or, when encoding throws, the display is left
      as it was and the exception escapes. */
  function SetMessageText(a: App, msg: string, encode: Encoder): (r: Edit)
    ensures r.app.text == msg
    ensures r.thrown <==> encode(msg, IMAGE_WIDTH, IMAGE_HEIGHT).None?
    ensures r.thrown ==> r.app.panel == a.panel
    ensures !r.thrown ==> r.app.panel == ImagePanel.SetImage(a.panel, encode(msg, IMAGE_WIDTH, IMAGE_HEIGHT))
  {
    var typed := a.(text := msg);
    match encode(msg, IMAGE_WIDTH, IMAGE_HEIGHT)
    case Some(img) => Edit(typed.(panel := ImagePanel.SetImage(a.panel, Some(img))), false)
    case None => Edit(typed, true)
  }

  /** `actionPerformed`: the text typed in the message field is encoded
      into the display, which stays unchanged when encoding throws. */
  function MessageEntered(a: App, encode: Encoder): (r: Edit)
    ensures r.app.text == a.text
    ensures r.thrown <==> encode(a.text, IMAGE_WIDTH, IMAGE_HEIGHT).None?
    ensures r.thrown ==> r.app == a
    ensures !r.thrown ==> r.app.panel == ImagePanel.SetImage(a.panel, encode(a.text, IMAGE_WIDTH, IMAGE_HEIGHT))
  {
    match encode(a.text, IMAGE_WIDTH, IMAGE_HEIGHT)
    case Some(img) => Edit(a.(panel := ImagePanel.SetImage(a.panel, Some(img))), false)
    case None => Edit(a, true)
  }

  /** Pressing Enter in the message field does what `setMessageText` does
      with the text already there. */
  lemma MessageEnteredIsSetMessageText(a: App, encode: Encoder)
    ensures MessageEntered(a, encode) == SetMessageText(a, a.text, encode)
  {
  }

  /** The constructor after its widgets are laid out: the startup content
      is loaded, the image file taking priority over the message. */
  function Construct(imageFile: Option<string>, msg: Option<string>,
                     readFile: string -> ImageRead, decode: Decoder, encode: Encoder): (r: Edit)
    ensures imageFile.Some? ==> !r.thrown && r.app == SetImageFile(Fresh, readFile(imageFile.value), decode).app
    ensures imageFile.None? && msg.Some? ==> r == SetMessageText(Fresh, msg.value, encode)
    ensures imageFile.None? && msg.None? ==> r == Edit(Fresh, false)
  {
    match InitialContent(imageFile, msg)
    case OpenImageFile(path) => Edit(SetImageFile(Fresh, readFile(path), decode).app, false)
    case ShowMessage(text) => SetMessageText(Fresh, text, encode)
    case Blank => Edit(Fresh, false)
  }

  /** With an image file given, the message plays no part in construction. */
  lemma ImageFileIgnoresMessage(path: string, m1: Option<string>, m2: Option<string>,
                                readFile: string -> ImageRead, decode: Decoder, encode: Encoder)
    ensures Construct(Some(path), m1, readFile, decode, encode) == Construct(Some(path), m2, readFile, decode, encode)
  {
  }

  /** The application after `captureImage`, the device calls the panel
      made, and whether a message was decoded. */
  datatype Capture = Capture(app: App, calls: seq<ImagePanel.DeviceCall>, success: bool)

  /** `captureImage`: the panel captures a frame, then whatever it now
      displays is decoded; a null image or a failed decode reports failure
      and leaves the text alone. */
  function CaptureAndDecode(a: App, frame: Frame, decode: Decoder): (r: Capture)
    ensures r.app.panel == ImagePanel.CaptureImage(a.panel, frame).panel
    ensures r.calls == ImagePanel.CaptureImage(a.panel, frame).calls
    ensures r.success <==> (var img := ImagePanel.GetImage(r.app.panel); img.Some? && decode(img.value).Some?)
    ensures r.success ==> Some(r.app.text) == decode(ImagePanel.GetImage(r.app.panel).value)
    ensures !r.success ==> r.app.text == a.text
  {
    var step := ImagePanel.CaptureImage(a.panel, frame);
    var captured := a.(panel := step.panel);
    match ImagePanel.GetImage(step.panel)
    case None => Capture(captured, step.calls, false)
    case Some(img) =>
      match decode(img)
      case Some(text) => Capture(captured.(text := text), step.calls, true)
      case None => Capture(captured, step.calls, false)
  }

  /** `terminateProgram`: the camera thread is terminated, then the process
      exits with code 0. */
  datatype Shutdown = Shutdown(app: App, calls: seq<ImagePanel.DeviceCall>, exitCode: int)

  function TerminateProgram(a: App): (r: Shutdown)
    ensures r.exitCode == ERROR_NONE
    ensures !r.app.panel.thread.running
    ensures r.calls == (if a.panel.hasCamera then [ImagePanel.Release] else [])
    ensures r.app.text == a.text && ImagePanel.GetImage(r.app.panel) == ImagePanel.GetImage(a.panel)
  {
    var step := ImagePanel.TerminateCameraThread(a.panel);
    Shutdown(a.(panel := step.panel), step.calls, ERROR_NONE)
  }
}
