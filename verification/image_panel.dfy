/** The image panel: the single displayed image (last write wins), the
    camera handle and the refresh thread that owns the capture loop.  Each
    synchronized method is one transition returning the next panel together
    with the calls it made on the camera device; whether the camera opens
    and the size of each frame read are inputs. */
module ImagePanel {
  import opened Wrappers
  import opened Imaging
  import RefreshThread

  /** A call on the OpenCV camera device: opening it (with the outcome of
      `isOpened`), reading a frame, or releasing it. */
  datatype DeviceCall = Open(isOpened: bool) | Read | Release

  /** `camera != null`, the displayed `image` (null until first set) and
      the flags of `cameraThread`. */
  datatype Panel = Panel(hasCamera: bool, image: Option<Image>, thread: RefreshThread.Flags)

  /** The panel after a transition and the device calls it made, in order. */
  datatype Step = Step(panel: Panel, calls: seq<DeviceCall>)

  /** The constructor: no camera, no image, a started refresh thread. */
  const Initial: Panel := Panel(false, None, RefreshThread.Created)

  /** `setImage`: the new image replaces the old one; nothing else changes. */
  function SetImage(p: Panel, img: Option<Image>): (r: Panel)
    ensures GetImage(r) == img
    ensures r.hasCamera == p.hasCamera && r.thread == p.thread
  {
    p.(image := img)
  }

  /** `getImage`: the image currently displayed. */
  function GetImage(p: Panel): Option<Image> {
    p.image
  }

  /** `startCamera`: a new handle is opened.  On failure the panel is left
      without a camera and the thread is not resumed; on success the panel
      keeps the handle and resumes the thread.  A handle held before is
      dropped without being released. */
  function StartCamera(p: Panel, isOpened: bool): (s: Step)
    ensures s.calls == [Open(isOpened)]
    ensures s.panel.hasCamera == isOpened
    ensures s.panel.image == p.image
    ensures s.panel.thread.running == p.thread.running
    ensures s.panel.thread.resumed == (isOpened || p.thread.resumed)
  {
    if isOpened then Step(p.(hasCamera := true, thread := RefreshThread.ResumeThread(p.thread)), [Open(true)])
    else Step(p.(hasCamera := false), [Open(false)])
  }

  /** `stopCamera`: the thread is suspended and the panel is left without a
      camera; a held camera is released first. */
  function StopCamera(p: Panel): (s: Step)
    ensures !s.panel.hasCamera
    ensures !s.panel.thread.resumed && s.panel.thread.running == p.thread.running
    ensures s.panel.image == p.image
    ensures s.calls == (if p.hasCamera then [Release] else [])
  {
    var q := p.(thread := RefreshThread.SuspendThread(p.thread));
    if p.hasCamera then Step(q.(hasCamera := false), [Release]) else Step(q, [])
  }

  /** `captureImage`: with a camera, one frame is read; a frame of positive
      size replaces the image by one of the same dimensions, any other frame
      leaves the display alone.  Without a camera nothing happens. */
  function CaptureImage(p: Panel, frame: Frame): (s: Step)
    ensures s.calls == (if p.hasCamera then [Read] else [])
    ensures s.panel.hasCamera == p.hasCamera && s.panel.thread == p.thread
    ensures !p.hasCamera || !HasPixels(frame) ==> s.panel.image == p.image
    ensures p.hasCamera && HasPixels(frame) ==>
      && s.panel.image.Some?
      && s.panel.image.value.width == frame.width
      && s.panel.image.value.height == frame.height
  {
    if !p.hasCamera then Step(p, [])
    else if HasPixels(frame) then Step(p.(image := Some(MatToBufferedImage(frame))), [Read])
    else Step(p, [Read])
  }

  /** `terminateCameraThread`: the thread is told to stop and a held camera
      is released, but the reference to it is kept. */
  function TerminateCameraThread(p: Panel): (s: Step)
    ensures !s.panel.thread.running && s.panel.thread.resumed == p.thread.resumed
    ensures s.panel.hasCamera == p.hasCamera && s.panel.image == p.image
    ensures s.calls == (if p.hasCamera then [Release] else [])
  {
    var q := p.(thread := RefreshThread.TerminateThread(p.thread));
    Step(q, if p.hasCamera then [Release] else [])
  }

  /** One pass of the refresh thread's loop: it captures exactly when the
      thread is running and resumed, and otherwise touches nothing. */
  function RefreshPass(p: Panel, frame: Frame): (s: Step)
    ensures p.thread.running && p.thread.resumed ==> s == CaptureImage(p, frame)
    ensures !(p.thread.running && p.thread.resumed) ==> s == Step(p, [])
  {
    match RefreshThread.Iterate(p.thread)
    case Capture => CaptureImage(p, frame)
    case _ => Step(p, [])
  }

  /** What happens to the panel: a call of one of its public methods from
      the interface, or a pass of the refresh loop. */
  datatype Event =
    | Show(image: Option<Image>)
    | Start(isOpened: bool)
    | Stop
    | Capture(frame: Frame)
    | Terminate
    | Tick(frame: Frame)

  function Handle(p: Panel, e: Event): Step {
    match e
    case Show(img) => Step(SetImage(p, img), [])
    case Start(isOpened) => StartCamera(p, isOpened)
    case Stop => StopCamera(p)
    case Capture(frame) => CaptureImage(p, frame)
    case Terminate => TerminateCameraThread(p)
    case Tick(frame) => RefreshPass(p, frame)
  }

  /** A history of events applied one after another, with every device
      call made along the way. */
  function Session(p: Panel, events: seq<Event>): Step
    decreases |events|
  {
    if events == [] then Step(p, [])
    else
      var first := Handle(p, events[0]);
      var rest := Session(first.panel, events[1..]);
      Step(rest.panel, first.calls + rest.calls)
  }

  /** A history split in two runs as the first part followed by the second. */
  lemma {:induction false} SessionAppend(p: Panel, a: seq<Event>, b: seq<Event>)
    ensures Session(p, a + b).panel == Session(Session(p, a).panel, b).panel
    ensures Session(p, a + b).calls == Session(p, a).calls + Session(Session(p, a).panel, b).calls
    decreases |a|
  {
    if a == [] {
      assert a + b == b;
    } else {
      var first := Handle(p, a[0]);
      assert (a + b)[0] == a[0];
      assert (a + b)[1..] == a[1..] + b;
      SessionAppend(first.panel, a[1..], b);
      var mid := Session(first.panel, a[1..]).panel;
      calc {
        Session(p, a + b).calls;
        first.calls + Session(first.panel, a[1..] + b).calls;
        first.calls + (Session(first.panel, a[1..]).calls + Session(mid, b).calls);
        (first.calls + Session(first.panel, a[1..]).calls) + Session(mid, b).calls;
      }
    }
  }

  function Count(calls: seq<DeviceCall>, c: DeviceCall): (n: nat)
    ensures n <= |calls|
  {
    if calls == [] then 0
    else (if calls[0] == c then 1 else 0) + Count(calls[1..], c)
  }

  lemma {:induction false} CountAppend(a: seq<DeviceCall>, b: seq<DeviceCall>, c: DeviceCall)
    ensures Count(a + b, c) == Count(a, c) + Count(b, c)
    decreases |a|
  {
    if a == [] {
      assert a + b == b;
    } else {
      assert (a + b)[0] == a[0];
      assert (a + b)[1..] == a[1..] + b;
      CountAppend(a[1..], b, c);
    }
  }

  /** The events that may read a frame: an interface capture or a loop pass. */
  function Passes(events: seq<Event>): (n: nat)
    ensures n <= |events|
  {
    if events == [] then 0
    else (if events[0].Capture? || events[0].Tick? then 1 else 0) + Passes(events[1..])
  }

  /** Every frame read is owed to a capture request or a loop pass: there
      are never more reads than such events. */
  lemma {:induction false} ReadsBoundedByPasses(p: Panel, events: seq<Event>)
    ensures Count(Session(p, events).calls, Read) <= Passes(events)
    decreases |events|
  {
    if events != [] {
      var first := Handle(p, events[0]);
      ReadsBoundedByPasses(first.panel, events[1..]);
      CountAppend(first.calls, Session(first.panel, events[1..]).calls, Read);
    }
  }

  /** The capture requests made from the interface. */
  function Requests(events: seq<Event>): (n: nat)
    ensures n <= Passes(events)
  {
    if events == [] then 0
    else (if events[0].Capture? then 1 else 0) + Requests(events[1..])
  }

  /** After `terminateCameraThread` the refresh loop never runs again: no
      later event sets the running flag back, and loop passes read nothing,
      so every later read comes from an explicit capture request. */
  lemma {:induction false} TerminatedLoopStaysIdle(p: Panel, events: seq<Event>)
    requires !p.thread.running
    ensures !Session(p, events).panel.thread.running
    ensures Count(Session(p, events).calls, Read) <= Requests(events)
    decreases |events|
  {
    if events != [] {
      var first := Handle(p, events[0]);
      TerminatedLoopStaysIdle(first.panel, events[1..]);
      CountAppend(first.calls, Session(first.panel, events[1..]).calls, Read);
    }
  }

  /** What the refresh thread sees of a panel event: `startCamera` resumes
      it when the camera opens, `stopCamera` suspends it,
      `terminateCameraThread` terminates it, and a loop pass is a tick;
      the other events do not reach it. */
  function ThreadView(e: Event): (t: seq<RefreshThread.Event>)
    ensures |t| <= 1
  {
    match e
    case Start(isOpened) => if isOpened then [RefreshThread.Call(RefreshThread.Resume)] else []
    case Stop => [RefreshThread.Call(RefreshThread.Suspend)]
    case Terminate => [RefreshThread.Call(RefreshThread.Terminate)]
    case Tick(_) => [RefreshThread.Tick]
    case _ => []
  }

  function ThreadEvents(events: seq<Event>): seq<RefreshThread.Event>
    decreases |events|
  {
    if events == [] then [] else ThreadView(events[0]) + ThreadEvents(events[1..])
  }

  /** One event: the thread's run over what it sees of the event, followed
      by anything, matches the panel's step followed by the same. */
  lemma HandleFollowsRun(p: Panel, e: Event, tail: seq<RefreshThread.Event>)
    ensures RefreshThread.Run(p.thread, ThreadView(e) + tail).flags
         == RefreshThread.Run(Handle(p, e).panel.thread, tail).flags
    ensures Count(Handle(p, e).calls, Read) + RefreshThread.Run(Handle(p, e).panel.thread, tail).captures
         <= RefreshThread.Run(p.thread, ThreadView(e) + tail).captures + (if e.Capture? then 1 else 0)
  {
    var v := ThreadView(e);
    if v == [] {
      assert v + tail == tail;
    } else {
      assert (v + tail)[0] == v[0] && (v + tail)[1..] == tail;
    }
  }

  /** The panel drives its thread exactly as `RefreshThread.Run` does on the
      events the thread sees: the flags after a session are those of the
      run, and every frame read is one of the run's captures or an explicit
      capture request. */
  lemma {:induction false} SessionFollowsRun(p: Panel, events: seq<Event>)
    ensures Session(p, events).panel.thread == RefreshThread.Run(p.thread, ThreadEvents(events)).flags
    ensures Count(Session(p, events).calls, Read)
         <= RefreshThread.Run(p.thread, ThreadEvents(events)).captures + Requests(events)
    decreases |events|
  {
    if events != [] {
      var first := Handle(p, events[0]);
      SessionFollowsRun(first.panel, events[1..]);
      CountAppend(first.calls, Session(first.panel, events[1..]).calls, Read);
      HandleFollowsRun(p, events[0], ThreadEvents(events[1..]));
    }
  }

  /** The loop passes of a run, one per frame the camera delivers. */
  function Ticks(frames: seq<Frame>): (events: seq<Event>)
    ensures |events| == |frames|
    ensures forall i :: 0 <= i < |frames| ==> events[i] == Tick(frames[i])
  {
    if frames == [] then [] else [Tick(frames[0])] + Ticks(frames[1..])
  }

  /** The display after a series of frames: the last frame of positive size,
      converted, or `img` if no frame had pixels. */
  function Latest(img: Option<Image>, frames: seq<Frame>): (r: Option<Image>)
    ensures |frames| > 0 && HasPixels(frames[|frames| - 1]) ==> r == Some(MatToBufferedImage(frames[|frames| - 1]))
    ensures (forall i :: 0 <= i < |frames| ==> !HasPixels(frames[i])) ==> r == img
    decreases |frames|
  {
    if frames == [] then img
    else Latest(if HasPixels(frames[0]) then Some(MatToBufferedImage(frames[0])) else img, frames[1..])
  }

  function Reads(n: nat): (calls: seq<DeviceCall>)
    ensures |calls| == n && Count(calls, Read) == n
    ensures forall i :: 0 <= i < n ==> calls[i] == Read
  {
    if n == 0 then [] else [Read] + Reads(n - 1)
  }

  /** While the camera is held and the thread runs resumed, each loop pass
      reads exactly one frame, and the display ends on the last frame that
      had pixels; camera and thread are untouched. */
  lemma {:induction false} StreamingPasses(p: Panel, frames: seq<Frame>)
    requires p.hasCamera && p.thread.running && p.thread.resumed
    ensures Session(p, Ticks(frames)) == Step(p.(image := Latest(p.image, frames)), Reads(|frames|))
    decreases |frames|
  {
    if frames != [] {
      var first := Handle(p, Tick(frames[0]));
      assert Ticks(frames)[1..] == Ticks(frames[1..]);
      StreamingPasses(first.panel, frames[1..]);
    }
  }

  /** Once the thread is terminated, loop passes change nothing and call
      nothing. */
  lemma {:induction false} StoppedPasses(p: Panel, frames: seq<Frame>)
    requires !p.thread.running
    ensures Session(p, Ticks(frames)) == Step(p, [])
    decreases |frames|
  {
    if frames != [] {
      assert Ticks(frames)[1..] == Ticks(frames[1..]);
      StoppedPasses(p, frames[1..]);
    }
  }

  /** Start the camera successfully, let the loop run over some frames,
      terminate, let more passes come: the camera is opened once, read once
      per pass before termination, and released once, after the last read. */
  lemma StartStreamTerminate(frames: seq<Frame>, later: seq<Frame>)
    ensures Session(Initial, [Start(true)] + Ticks(frames) + [Terminate] + Ticks(later)).calls
         == [Open(true)] + Reads(|frames|) + [Release]
    ensures GetImage(Session(Initial, [Start(true)] + Ticks(frames) + [Terminate] + Ticks(later)).panel)
         == Latest(None, frames)
  {
    var p1 := StartCamera(Initial, true).panel;
    assert Session(Initial, [Start(true)]) == Step(p1, [Open(true)]);
    SessionAppend(Initial, [Start(true)], Ticks(frames));
    StreamingPasses(p1, frames);
    var p2 := Session(p1, Ticks(frames)).panel;
    assert Session(p2, [Terminate]) == TerminateCameraThread(p2);
    SessionAppend(Initial, [Start(true)] + Ticks(frames), [Terminate]);
    var p3 := TerminateCameraThread(p2).panel;
    StoppedPasses(p3, later);
    SessionAppend(Initial, [Start(true)] + Ticks(frames) + [Terminate], Ticks(later));
  }

  /** A camera that fails to open: the thread is never resumed, no frame is
      read, the display is untouched, and terminating releases nothing. */
  lemma FailedStartStaysIdle(frames: seq<Frame>)
    ensures Session(Initial, [Start(false)] + Ticks(frames) + [Terminate])
         == Step(Initial.(thread := RefreshThread.Flags(false, false)), [Open(false)])
  {
    var p1 := StartCamera(Initial, false).panel;
    assert Session(Initial, [Start(false)]) == Step(p1, [Open(false)]);
    SessionAppend(Initial, [Start(false)], Ticks(frames));
    IdlePasses(p1, frames);
    SessionAppend(Initial, [Start(false)] + Ticks(frames), [Terminate]);
  }

  /** Loop passes of a running but suspended thread do nothing. */
  lemma {:induction false} IdlePasses(p: Panel, frames: seq<Frame>)
    requires !p.thread.resumed
    ensures Session(p, Ticks(frames)) == Step(p, [])
    decreases |frames|
  {
    if frames != [] {
      assert Ticks(frames)[1..] == Ticks(frames[1..]);
      IdlePasses(p, frames[1..]);
    }
  }

  /** The display is empty or shows an image of positive size. */
  predicate DisplayOk(p: Panel) {
    p.image.None? || Displayable(p.image.value)
  }

  /** If every image handed to `setImage` is of positive size (or null),
      the panel never displays anything else: captured frames are converted
      only when they have pixels. */
  lemma {:induction false} DisplayStaysOk(p: Panel, events: seq<Event>)
    requires DisplayOk(p)
    requires forall i :: 0 <= i < |events| && events[i].Show? && events[i].image.Some? ==>
               Displayable(events[i].image.value)
    ensures DisplayOk(Session(p, events).panel)
    decreases |events|
  {
    if events != [] {
      DisplayStaysOk(Handle(p, events[0]).panel, events[1..]);
    }
  }
}
