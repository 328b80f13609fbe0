/**
 * The concurrent teardown of a host session. Four parties run side by side: the session driver (with
 * the video loop inline), the input task, the clipboard task and the injection thread. A run is any
 * interleaving of their steps.
 */
module Teardown {
  import opened ButtonInjector
  import opened InputAdmission

  const INPUT_QUEUE_DEPTH := 256

  /** Where the session driver stands. */
  datatype Driver =
    | Racing             // `select!` over the video loop and the dedicated input task
    | Draining           // no input channel: the video loop itself forwards input
    | AwaitingInput      // video ended first: the input task was aborted and is awaited
    | DroppingSender
    | AwaitingThread
    | AbortingClipboard
    | AwaitingClipboard
    | Returned

  /** An aborted task still runs to its next suspension point before it ends and drops what it owns. */
  datatype Task = NotSpawned | Running | Aborted | Ended

  datatype Thread = Receiving | Releasing | Exited

  /** `guard` belongs to whoever forwards input; `calls` is what the injector was asked to do, in order. */
  datatype Session = Session(
    driver: Driver, videoDone: bool, input: Task, clipboard: Task, thread: Thread, driverSender: bool,
    guard: Guard, queue: seq<InputEvent>, enqueued: seq<InputEvent>, calls: seq<Call>)
  {
    /** A live task holds a clone of the queue's sender. */
    predicate InputSender() { input == Running || input == Aborted }
    predicate NoSenders() { !driverSender && !InputSender() }
  }

  datatype Step =
    | VideoEnds
    | TaskReceives(event: InputEvent, now: real)   // the input task forwards an event it received
    | DriverReceives(event: InputEvent, now: real) // the legacy loop does
    | TaskEnds                          // peer closed, receive error, panic, or abort taking effect
    | ClipboardEnds
    | SelectVideo                       // the video arm wins the race: abort the input task
    | SelectInput                       // the input arm wins: the video loop is dropped where it stands
    | LeaveDrain
    | JoinInput
    | DropSender
    | ThreadInjects
    | ThreadSeesClose
    | ThreadReleases
    | JoinThread
    | AbortClipboard
    | JoinClipboard

  predicate Enabled(s: Session, step: Step) {
    match step
    case VideoEnds => (s.driver == Racing || s.driver == Draining) && !s.videoDone
    case TaskReceives(_, _) => s.InputSender()
    case DriverReceives(_, _) => s.driver == Draining && !s.videoDone
    case TaskEnds => s.input == Running || s.input == Aborted
    case ClipboardEnds => s.clipboard == Running || s.clipboard == Aborted
    case SelectVideo => s.driver == Racing && s.videoDone
    case SelectInput => s.driver == Racing && s.input == Ended
    case LeaveDrain => s.driver == Draining && s.videoDone
    case JoinInput => s.driver == AwaitingInput && s.input == Ended
    case DropSender => s.driver == DroppingSender
    case ThreadInjects => s.thread == Receiving && s.queue != []
    case ThreadSeesClose => s.thread == Receiving && s.queue == [] && s.NoSenders()
    case ThreadReleases => s.thread == Releasing
    case JoinThread => s.driver == AwaitingThread && s.thread == Exited
    case AbortClipboard => s.driver == AbortingClipboard
    case JoinClipboard => s.driver == AwaitingClipboard && (s.clipboard == Ended || s.clipboard == NotSpawned)
  }

  /** Aborting a task that has ended, or was never spawned, does nothing. */
  function Abort(t: Task): Task { if t == Running then Aborted else t }

  /** An event passes the guard, and the queue if it has room. */
  function Receive(s: Session, e: InputEvent, now: real): Session {
    var a := Arrival(e, now, |s.queue| < INPUT_QUEUE_DEPTH);
    var received := s.(guard := Forward(s.guard, a));
    if Enqueues(s.guard, a) then received.(queue := s.queue + [e], enqueued := s.enqueued + [e]) else received
  }

  function Apply(s: Session, step: Step): Session
    requires Enabled(s, step)
  {
    match step
    case VideoEnds => s.(videoDone := true)
    case TaskReceives(e, now) => Receive(s, e, now)
    case DriverReceives(e, now) => Receive(s, e, now)
    case TaskEnds => s.(input := Ended)
    case ClipboardEnds => s.(clipboard := Ended)
    case SelectVideo => s.(driver := AwaitingInput, input := Abort(s.input))
    case SelectInput => s.(driver := DroppingSender, videoDone := true)
    case LeaveDrain => s.(driver := DroppingSender)
    case JoinInput => s.(driver := DroppingSender)
    case DropSender => s.(driver := AwaitingThread, driverSender := false)
    case ThreadInjects => s.(queue := s.queue[1..], calls := s.calls + [Inject(s.queue[0])])
    case ThreadSeesClose => s.(thread := Releasing)
    case ThreadReleases => s.(thread := Exited, calls := s.calls + [ReleaseAll])
    case JoinThread => s.(driver := AbortingClipboard)
    case AbortClipboard => s.(driver := AwaitingClipboard, clipboard := Abort(s.clipboard))
    case JoinClipboard => s.(driver := Returned)
  }

  /** A session as it starts, with or without the two optional channels. */
  function Start(inputChannel: bool, clipboardChannel: bool): Session {
    Session(if inputChannel then Racing else Draining, false,
            if inputChannel then Running else NotSpawned,
            if clipboardChannel then Running else NotSpawned,
            Receiving, true, NewGuard(), [], [], [])
  }

  lemma StartIsInv(inputChannel: bool, clipboardChannel: bool)
    ensures Inv(Start(inputChannel, clipboardChannel))
  {
    var s := Start(inputChannel, clipboardChannel);
    assert s.enqueued == [] + s.queue && s.calls == Injections([]) + [];
  }

  /** `run` is an interleaving that leads from `s` to `t`. */
  ghost predicate Leads(s: Session, run: seq<Step>, t: Session)
    decreases |run|
  {
    if run == [] then s == t
    else Enabled(s, run[0]) && Leads(Apply(s, run[0]), run[1..], t)
  }

  // ---- The invariant ----

  /** The calls made are the injections of everything that left the queue, then at most one release. */
  ghost predicate Matches(enqueued: seq<InputEvent>, queue: seq<InputEvent>, calls: seq<Call>, released: bool) {
    exists done: seq<InputEvent> ::
      enqueued == done + queue && calls == Injections(done) + (if released then [ReleaseAll] else [])
  }

  ghost predicate CallsMatch(s: Session) {
    Matches(s.enqueued, s.queue, s.calls, s.thread == Exited)
  }

  ghost predicate Inv(s: Session) {
    && |s.queue| <= INPUT_QUEUE_DEPTH
    && CallsMatch(s)
    && s.guard.mask == HeldAfter(s.enqueued)
    && (s.thread != Receiving ==> s.queue == [] && s.NoSenders())
    && (s.driver == Racing ==> s.input != NotSpawned)
    && (s.driver == Draining ==> s.input == NotSpawned)
    && (s.driver == AwaitingInput ==> s.input == Aborted || s.input == Ended)
    && (s.driver.DroppingSender? || AfterDrop(s.driver) ==> !s.InputSender())
    && (s.driverSender <==> !AfterDrop(s.driver))
    && (s.driver.AbortingClipboard? || s.driver.AwaitingClipboard? || s.driver.Returned? ==> s.thread == Exited)
    && (s.driver.AwaitingClipboard? || s.driver.Returned? ==> s.clipboard != Running)
    && (s.driver.Returned? ==> s.clipboard != Aborted)
  }

  predicate AfterDrop(d: Driver) {
    d.AwaitingThread? || d.AbortingClipboard? || d.AwaitingClipboard? || d.Returned?
  }

  lemma InjectionsAppend(events: seq<InputEvent>, e: InputEvent)
    ensures Injections(events + [e]) == Injections(events) + [Inject(e)]
  {
  }

  lemma EnqueueMatches(
      enqueued: seq<InputEvent>, queue: seq<InputEvent>, calls: seq<Call>, released: bool, e: InputEvent)
    requires Matches(enqueued, queue, calls, released)
    ensures Matches(enqueued + [e], queue + [e], calls, released)
  {
    var done :| enqueued == done + queue && calls == Injections(done) + (if released then [ReleaseAll] else []);
    assert enqueued + [e] == done + (queue + [e]);
  }

  lemma InjectMatches(enqueued: seq<InputEvent>, queue: seq<InputEvent>, calls: seq<Call>)
    requires Matches(enqueued, queue, calls, false) && queue != []
    ensures Matches(enqueued, queue[1..], calls + [Inject(queue[0])], false)
  {
    var done :| enqueued == done + queue && calls == Injections(done) + [];
    InjectionsAppend(done, queue[0]);
    assert enqueued == (done + [queue[0]]) + queue[1..];
    assert calls + [Inject(queue[0])] == Injections(done + [queue[0]]) + [];
  }

  lemma ReleaseMatches(enqueued: seq<InputEvent>, calls: seq<Call>)
    requires Matches(enqueued, [], calls, false)
    ensures Matches(enqueued, [], calls + [ReleaseAll], true)
  {
  }

  lemma StepKeepsCalls(s: Session, step: Step)
    requires Inv(s) && Enabled(s, step)
    ensures CallsMatch(Apply(s, step))
  {
    hide Matches, Enqueues, Forward;
    match step {
      case ThreadInjects => InjectMatches(s.enqueued, s.queue, s.calls);
      case ThreadReleases => ReleaseMatches(s.enqueued, s.calls);
      case TaskReceives(e, _) => EnqueueMatches(s.enqueued, s.queue, s.calls, s.thread == Exited, e);
      case DriverReceives(e, _) => EnqueueMatches(s.enqueued, s.queue, s.calls, s.thread == Exited, e);
      case _ =>
    }
  }

  lemma StepKeepsInv(s: Session, step: Step)
    requires Inv(s) && Enabled(s, step)
    ensures Inv(Apply(s, step))
  {
    hide CallsMatch, HeldAfter, Forward, Enqueues;
    StepKeepsCalls(s, step);
    if step.TaskReceives? || step.DriverReceives? {
      MirrorFollows(s, step.event, step.now);
    }
  }

  lemma MirrorFollows(s: Session, e: InputEvent, now: real)
    requires s.guard.mask == HeldAfter(s.enqueued) && |s.queue| <= INPUT_QUEUE_DEPTH
    ensures var s' := Receive(s, e, now);
            s'.guard.mask == HeldAfter(s'.enqueued) && |s'.queue| <= INPUT_QUEUE_DEPTH
  {
    hide Admit, Held;
    assert (s.enqueued + [e])[..|s.enqueued|] == s.enqueued;
  }

  lemma {:induction false} RunKeepsInv(s: Session, run: seq<Step>, t: Session)
    requires Inv(s) && Leads(s, run, t)
    ensures Inv(t)
    decreases |run|
  {
    if run != [] {
      StepKeepsInv(s, run[0]);
      RunKeepsInv(Apply(s, run[0]), run[1..], t);
    }
  }

  // ---- What every run guarantees ----

  /**
   * In every interleaving, a session that returns has no sender left, has injected exactly the events
   * that were enqueued, in order, and has released everything once, after the last injection.
   */
  lemma ReturnIsClean(inputChannel: bool, clipboardChannel: bool, run: seq<Step>, t: Session)
    requires Leads(Start(inputChannel, clipboardChannel), run, t) && t.driver == Returned
    ensures t.NoSenders() && t.queue == [] && t.thread == Exited
    ensures t.input == Ended || t.input == NotSpawned
    ensures t.clipboard == Ended || t.clipboard == NotSpawned
    ensures t.calls == Injections(t.enqueued) + [ReleaseAll]
  {
    StartIsInv(inputChannel, clipboardChannel);
    RunKeepsInv(Start(inputChannel, clipboardChannel), run, t);
    var done :| t.enqueued == done + [] && t.calls == Injections(done) + [ReleaseAll];
    assert t.enqueued == done;
  }

  /**
   * No button stays down after a session, whatever the peer pressed and however the session ended: the
   * display server has seen as many releases as presses of each.
   */
  lemma NoStuckButton(inputChannel: bool, clipboardChannel: bool, run: seq<Step>, t: Session, b: MouseButton)
    requires Leads(Start(inputChannel, clipboardChannel), run, t) && t.driver == Returned
    ensures var sent := RunCalls(t.calls).sent;
            && Down(sent) == {} && Alternates(sent)
            && Occurrences(sent, ServerEvent(b, true)) == Occurrences(sent, ServerEvent(b, false))
  {
    hide Leads, RunCalls, Alternates, Down;
    ReturnIsClean(inputChannel, clipboardChannel, run, t);
    ReleaseAllBalances(Injections(t.enqueued), b);
    ServerFollows(t.calls);
  }

  /**
   * In every interleaving, whenever the queue is empty and the session still injects, the buttons down at
   * the display server are those of the guard's mirror.
   */
  lemma MirrorMatchesServer(inputChannel: bool, clipboardChannel: bool, run: seq<Step>, t: Session)
    requires Leads(Start(inputChannel, clipboardChannel), run, t) && t.queue == [] && t.thread != Exited
    ensures Down(RunCalls(t.calls).sent) == ButtonsOf(t.guard.mask)
  {
    hide Leads, RunCalls, Down, ButtonsOf;
    StartIsInv(inputChannel, clipboardChannel);
    RunKeepsInv(Start(inputChannel, clipboardChannel), run, t);
    var done :| t.enqueued == done + [] && t.calls == Injections(done) + [];
    assert t.enqueued == done && t.calls == Injections(done);
    ServerHoldsTheMirror(done);
  }

  /** An event the guard lets through is enqueued unless 256 are waiting. */
  lemma DroppedOnlyWhenFull(s: Session, e: InputEvent, now: real)
    requires Admit(s.guard, e, now).1 != Refused
    ensures Receive(s, e, now).enqueued == if |s.queue| < 256 then s.enqueued + [e] else s.enqueued
    ensures Receive(s, e, now).queue == if |s.queue| < 256 then s.queue + [e] else s.queue
  {
    hide Admit;
  }

  // ---- Progress ----

  /** Steps left once the sender is dropped: whatever is scheduled, each one brings the return closer. */
  function Remaining(s: Session): nat {
    |s.queue|
    + (match s.thread case Receiving => 2 case Releasing => 1 case Exited => 0)
    + (if s.clipboard == Running || s.clipboard == Aborted then 1 else 0)
    + (match s.driver
       case AwaitingThread => 3
       case AbortingClipboard => 2
       case AwaitingClipboard => 1
       case _ => 0)
  }

  lemma TeardownAdvances(s: Session, step: Step)
    requires Inv(s) && AfterDrop(s.driver) && Enabled(s, step)
    ensures AfterDrop(Apply(s, step).driver) && Remaining(Apply(s, step)) < Remaining(s)
  {
    hide CallsMatch;
  }

  /** A step toward the return: whoever is waited for moves. */
  function NextStep(s: Session): Step {
    match s.driver
    case Racing => if s.videoDone then SelectVideo else VideoEnds
    case Draining => if s.videoDone then LeaveDrain else VideoEnds
    case AwaitingInput => if s.input == Ended then JoinInput else TaskEnds
    case DroppingSender => DropSender
    case AwaitingThread =>
      (match s.thread
       case Receiving => if s.queue == [] then ThreadSeesClose else ThreadInjects
       case Releasing => ThreadReleases
       case Exited => JoinThread)
    case AbortingClipboard => AbortClipboard
    case AwaitingClipboard =>
      if s.clipboard == Ended || s.clipboard == NotSpawned then JoinClipboard else ClipboardEnds
    case Returned => JoinClipboard
  }

  /** No party ever waits for a thing that cannot happen: until it returns, some step is enabled. */
  lemma NoDeadlock(s: Session)
    requires Inv(s) && s.driver != Returned
    ensures exists step :: Enabled(s, step)
  {
    hide CallsMatch;
    assert Enabled(s, NextStep(s));
  }

  /** How many such steps are left. */
  function Distance(s: Session): nat {
    Remaining(s)
    + (match s.driver
       case Racing => 8 + (if s.videoDone then 0 else 1)
       case Draining => 6 + (if s.videoDone then 0 else 1)
       case AwaitingInput => 5 + (if s.input == Ended then 0 else 1)
       case DroppingSender => 4
       case _ => 0)
  }

  lemma NextStepIsCloser(s: Session)
    requires Inv(s) && s.driver != Returned
    ensures Enabled(s, NextStep(s)) && Distance(Apply(s, NextStep(s))) < Distance(s)
  {
    hide CallsMatch;
  }

  /** From every state of every interleaving the session can still return, within a bound known there. */
  lemma {:induction false} CanAlwaysReturn(s: Session) returns (run: seq<Step>, t: Session)
    requires Inv(s)
    ensures Leads(s, run, t) && t.driver == Returned && |run| <= Distance(s)
    decreases Distance(s)
  {
    if s.driver == Returned {
      run, t := [], s;
    } else {
      hide Inv, Distance, NextStep, Apply;
      NextStepIsCloser(s);
      var step := NextStep(s);
      StepKeepsInv(s, step);
      var rest;
      rest, t := CanAlwaysReturn(Apply(s, step));
      run := [step] + rest;
      assert run[1..] == rest;
    }
  }

  /** So a session whose sender is dropped returns after at most as many steps as are left. */
  lemma {:induction false} TeardownIsBounded(s: Session, run: seq<Step>, t: Session)
    requires Inv(s) && AfterDrop(s.driver) && Leads(s, run, t)
    ensures |run| <= Remaining(s)
    ensures |run| == Remaining(s) ==> t.driver == Returned
    decreases |run|
  {
    hide CallsMatch;
    if run != [] {
      TeardownAdvances(s, run[0]);
      StepKeepsInv(s, run[0]);
      TeardownIsBounded(Apply(s, run[0]), run[1..], t);
    } else if Remaining(s) == 0 {
      assert s.driver == Returned;
    }
  }
}
