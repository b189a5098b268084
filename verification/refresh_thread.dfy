/** The camera refresh thread: two control flags, the loop that captures a
    frame on each pass while resumed, and the sleep that re-waits until its
    wake-up time has passed.  Each synchronized method is one atomic step;
    thread scheduling is represented by the order of events. */
module RefreshThread {

  /** `threadRunning` and `threadResumed`. */
  datatype Flags = Flags(running: bool, resumed: bool)

  /** The flags of a newly constructed thread: running, but not resumed. */
  const Created: Flags := Flags(true, false)

  /** `suspendThread`: captures stop; the running flag is left alone. */
  function SuspendThread(f: Flags): (r: Flags)
    ensures !r.resumed
    ensures r.running == f.running
  {
    f.(resumed := false)
  }

  /** `resumeThread`: captures start; the running flag is left alone. */
  function ResumeThread(f: Flags): (r: Flags)
    ensures r.resumed
    ensures r.running == f.running
  {
    f.(resumed := true)
  }

  /** `terminateThread`: the loop will stop; the resumed flag is left alone. */
  function TerminateThread(f: Flags): (r: Flags)
    ensures !r.running
    ensures r.resumed == f.resumed
  {
    f.(running := false)
  }

  /** Terminating twice is the same as terminating once. */
  lemma TerminateIdempotent(f: Flags)
    ensures TerminateThread(TerminateThread(f)) == TerminateThread(f)
  {
  }

  /** The three public control methods. */
  datatype Control = Suspend | Resume | Terminate

  function Apply(f: Flags, op: Control): (r: Flags)
    ensures r.running ==> f.running
    ensures op != Terminate ==> r.running == f.running
    ensures op == Terminate ==> !r.running
    ensures op != Terminate ==> r.resumed == (op == Resume)
    ensures op == Terminate ==> r.resumed == f.resumed
  {
    match op
    case Suspend => SuspendThread(f)
    case Resume => ResumeThread(f)
    case Terminate => TerminateThread(f)
  }

  /** What one pass of `run` does: leave the loop, idle, or capture. */
  datatype Iteration = Exit | Idle | Capture

  /** The loop test on `threadRunning`, then the capture under the lock
      only if `threadResumed`. */
  function Iterate(f: Flags): (it: Iteration)
    ensures it == Exit <==> !f.running
    ensures it == Capture <==> f.running && f.resumed
  {
    if !f.running then Exit
    else if f.resumed then Capture
    else Idle
  }

  /** What the thread sees: a control call from another thread, or the
      moment its loop comes round to the `while` test again. */
  datatype Event = Call(op: Control) | Tick

  function TickCount(events: seq<Event>): (n: nat)
    ensures n <= |events|
  {
    if events == [] then 0
    else (if events[0] == Tick then 1 else 0) + TickCount(events[1..])
  }

  /** The flags after a run, the loop passes made, and the captures among
      them. */
  datatype RunLog = RunLog(flags: Flags, iterations: nat, captures: nat)

  /** `run` driven by a schedule of events.  Once a pass finds the thread
      not running the loop is over: later ticks do nothing. */
  function Run(f: Flags, events: seq<Event>): (r: RunLog)
    ensures r.captures <= r.iterations <= TickCount(events)
    ensures r.flags.running ==> f.running
    decreases |events|
  {
    if events == [] then RunLog(f, 0, 0)
    else
      match events[0]
      case Call(op) => Run(Apply(f, op), events[1..])
      case Tick =>
        var rest := Run(f, events[1..]);
        match Iterate(f)
        case Exit => rest
        case Idle => rest.(iterations := rest.iterations + 1)
        case Capture => rest.(iterations := rest.iterations + 1, captures := rest.captures + 1)
  }

  /** Once terminated, the thread makes no further pass and no capture,
      whatever control calls follow: no operation sets running back. */
  lemma {:induction false} TerminatedRunIsInert(f: Flags, events: seq<Event>)
    requires !f.running
    ensures Run(f, events).iterations == 0
    ensures !Run(f, events).flags.running
    decreases |events|
  {
    if events != [] {
      match events[0]
      case Call(op) => TerminatedRunIsInert(Apply(f, op), events[1..]);
      case Tick => TerminatedRunIsInert(f, events[1..]);
    }
  }

  /** A thread that is not resumed captures nothing until someone resumes
      it; in particular a new thread captures nothing on its own. */
  lemma {:induction false} NoCaptureWithoutResume(f: Flags, events: seq<Event>)
    requires !f.resumed
    requires Call(Resume) !in events
    ensures Run(f, events).captures == 0
    decreases |events|
  {
    if events != [] {
      assert Call(Resume) !in events[1..];
      match events[0]
      case Call(op) => NoCaptureWithoutResume(Apply(f, op), events[1..]);
      case Tick => NoCaptureWithoutResume(f, events[1..]);
    }
  }

  /** While running and resumed with no control call, every pass captures. */
  lemma {:induction false} EveryTickCapturesWhileResumed(f: Flags, events: seq<Event>)
    requires f.running && f.resumed
    requires forall i :: 0 <= i < |events| ==> events[i] == Tick
    ensures Run(f, events).captures == |events|
    ensures Run(f, events).flags == f
  {
    if events != [] {
      EveryTickCapturesWhileResumed(f, events[1..]);
    }
  }

  /** `sleep(sleepTime)`.  `start` is the clock on entry and `readings` are
      the clock values read after each `Thread.sleep` returns, early or
      not.  `naps` are the durations handed to the `Thread.sleep` calls that
      have returned.  `woke` is false when the readings run out before the
      wake-up time is reached: the call is then still sleeping. */
  method Sleep(sleepTime: int, start: int, readings: seq<int>) returns (woke: bool, naps: seq<int>)
    ensures |naps| <= |readings|
    ensures sleepTime <= 0 ==> woke && naps == []
    ensures forall k :: 0 <= k < |naps| ==> naps[k] > 0
    ensures |naps| > 0 ==> naps[0] == sleepTime
    ensures forall k :: 0 < k < |naps| ==> naps[k] == start + sleepTime - readings[k - 1]
    ensures forall k :: 0 <= k < |naps| - 1 ==> readings[k] < start + sleepTime
    ensures woke && |naps| > 0 ==> readings[|naps| - 1] >= start + sleepTime
    ensures woke && sleepTime > 0 ==> |naps| > 0
    ensures !woke ==> |naps| == |readings| && sleepTime > 0
    ensures !woke ==> forall k :: 0 <= k < |readings| ==> readings[k] < start + sleepTime
  {
    var wakeupTime := start + sleepTime;
    var remaining := sleepTime;
    naps := [];
    while remaining > 0 && |naps| < |readings|
      invariant |naps| <= |readings|
      invariant |naps| == 0 ==> remaining == sleepTime
      invariant |naps| > 0 ==> remaining == wakeupTime - readings[|naps| - 1]
      invariant |naps| > 0 ==> naps[0] == sleepTime
      invariant forall k :: 0 <= k < |naps| ==> naps[k] > 0
      invariant forall k :: 0 < k < |naps| ==> naps[k] == wakeupTime - readings[k - 1]
      invariant forall k :: 0 <= k < |naps| - 1 ==> readings[k] < wakeupTime
      decreases |readings| - |naps|
    {
      naps := naps + [remaining];
      remaining := wakeupTime - readings[|naps| - 1];
    }
    woke := remaining <= 0;
  }
}
