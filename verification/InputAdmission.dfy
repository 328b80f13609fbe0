/**
 * The hostile-input guard of the host: a token bucket shared by every droppable event, with pure
 * button releases let through for free so that no button can stick.
 */
module InputAdmission {
  import opened Arith
  import opened Wire

  datatype EventType = PointerMove | Button | Wheel | Key | Touch | Pen

  /** `rest` stands for the fields the guard never looks at. */
  datatype InputEvent = InputEvent(eventType: EventType, buttonMask: bv8, rest: seq<byte>)

  const DEFINED_BUTTON_BITS: bv8 := 0x07
  const DEFINED_BUTTONS := 3
  const MAX_THROTTLED_INPUT_PER_SEC := 500.0
  const THROTTLED_INPUT_BURST := 120.0

  // ---- The token bucket ----

  /** Times are in seconds. */
  datatype Limiter = Limiter(capacity: real, refillPerSec: real, tokens: real, last: Option<real>)

  /** A clock that reads earlier than before adds nothing and does not move the base back. */
  function Refilled(l: Limiter, now: real): Limiter {
    match l.last
    case None => l.(last := Some(now))
    case Some(last) =>
      l.(tokens := MinReal(l.tokens + MaxReal(now - last, 0.0) * l.refillPerSec, l.capacity),
         last := Some(MaxReal(last, now)))
  }

  function Allow(l: Limiter, now: real): (Limiter, bool) {
    var r := Refilled(l, now);
    if r.tokens >= 1.0 then (r.(tokens := r.tokens - 1.0), true) else (r, false)
  }

  class RateLimiter {
    const capacity: real
    const refillPerSec: real
    var tokens: real
    var last: Option<real>

    ghost function State(): Limiter
      reads this
    {
      Limiter(capacity, refillPerSec, tokens, last)
    }

    constructor (refillPerSec: real, burst: real)
      ensures State() == Limiter(MaxReal(burst, 1.0), refillPerSec, MaxReal(burst, 1.0), None)
      ensures fresh(this)
    {
      capacity := MaxReal(burst, 1.0);
      this.refillPerSec := refillPerSec;
      tokens := MaxReal(burst, 1.0);
      last := None;
    }

    method TryAllow(now: real) returns (allowed: bool)
      modifies this
      ensures (State(), allowed) == Allow(old(State()), now)
    {
      if last.Some? {
        var elapsed := MaxReal(now - last.value, 0.0);
        var refilled := tokens + elapsed * refillPerSec;
        tokens := MinReal(refilled, capacity);
        last := Some(MaxReal(last.value, now));
      } else {
        last := Some(now);
      }
      if tokens >= 1.0 {
        tokens := tokens - 1.0;
        allowed := true;
      } else {
        allowed := false;
      }
    }
  }

  // ---- Admission ----

  function Held(mask: bv8): bv8 { mask & DEFINED_BUTTON_BITS }

  /** Clears a held button and presses none. */
  predicate PureRelease(e: InputEvent, held: bv8) {
    && e.eventType == Button
    && held & !Held(e.buttonMask) != 0
    && Held(e.buttonMask) & !held == 0
  }

  /** The guard: its bucket, its mirror of the buttons the injector holds, and its count of refusals. */
  datatype Guard = Guard(limiter: Limiter, mask: bv8, throttled: nat)

  datatype Verdict = Bypassed | Paid | Refused

  function Admit(g: Guard, e: InputEvent, now: real): (Limiter, Verdict) {
    if PureRelease(e, g.mask) then (g.limiter, Bypassed)
    else
      var (limiter, allowed) := Allow(g.limiter, now);
      (limiter, if allowed then Paid else Refused)
  }

  /** One event arriving at `now`; `room` says whether the bounded queue can take one more. */
  datatype Arrival = Arrival(event: InputEvent, now: real, room: bool)

  function Enqueues(g: Guard, a: Arrival): bool {
    Admit(g, a.event, a.now).1 != Refused && a.room
  }

  function Forward(g: Guard, a: Arrival): Guard {
    var (limiter, verdict) := Admit(g, a.event, a.now);
    Guard(limiter,
          if Enqueues(g, a) && a.event.eventType == Button then Held(a.event.buttonMask) else g.mask,
          if verdict == Refused then g.throttled + 1 else g.throttled)
  }

  class InputGuard {
    const limiter: RateLimiter
    var admittedButtonMask: bv8
    var throttled: nat

    ghost function State(): Guard
      reads this, limiter
    {
      Guard(limiter.State(), admittedButtonMask, throttled)
    }

    constructor ()
      ensures State() == NewGuard() && fresh(limiter)
    {
      limiter := new RateLimiter(MAX_THROTTLED_INPUT_PER_SEC, THROTTLED_INPUT_BURST);
      admittedButtonMask, throttled := 0, 0;
    }

    method AdmitInput(event: InputEvent, now: real) returns (admitted: bool)
      modifies limiter
      ensures limiter.State() == Admit(old(State()), event, now).0
      ensures admitted <==> Admit(old(State()), event, now).1 != Refused
    {
      match event.eventType {
        case Button =>
          var curr := event.buttonMask & DEFINED_BUTTON_BITS;
          var released := admittedButtonMask & !curr;
          var newlyPressed := curr & !admittedButtonMask;
          if released != 0 && newlyPressed == 0 {
            admitted := true;
          } else {
            admitted := limiter.TryAllow(now);
          }
        case _ =>
          admitted := limiter.TryAllow(now);
      }
    }

    method ForwardInput(a: Arrival) returns (enqueued: bool)
      modifies this, limiter
      ensures State() == Forward(old(State()), a) && enqueued == Enqueues(old(State()), a)
    {
      var admitted := AdmitInput(a.event, a.now);
      enqueued := admitted && a.room;
      if admitted {
        if enqueued && a.event.eventType == Button {
          admittedButtonMask := a.event.buttonMask & DEFINED_BUTTON_BITS;
        }
      } else {
        throttled := throttled + 1;
      }
    }
  }

  function NewGuard(): Guard {
    Guard(Limiter(THROTTLED_INPUT_BURST, MAX_THROTTLED_INPUT_PER_SEC, THROTTLED_INPUT_BURST, None), 0, 0)
  }

  // ---- Runs ----

  function Run(run: seq<Arrival>): Guard {
    if run == [] then NewGuard() else Forward(Run(run[..|run| - 1]), run[|run| - 1])
  }

  /** The events the injector gets to see, in order. */
  function Enqueued(run: seq<Arrival>): seq<InputEvent> {
    if run == [] then []
    else
      var before, a := run[..|run| - 1], run[|run| - 1];
      Enqueued(before) + if Enqueues(Run(before), a) then [a.event] else []
  }

  /** Buttons an injector holds down after a series of events: the mask of the last Button event. */
  function HeldAfter(events: seq<InputEvent>): bv8 {
    if events == [] then 0
    else if events[|events| - 1].eventType == Button then Held(events[|events| - 1].buttonMask)
    else HeldAfter(events[..|events| - 1])
  }

  /** Enqueued events by verdict: without paying, paying for a button, paying in all, and tokens spent. */
  datatype Tally = Tally(bypassed: nat, paidButtons: nat, paid: nat, granted: nat)

  function Charged(t: Tally, g: Guard, a: Arrival): Tally {
    var verdict := Admit(g, a.event, a.now).1;
    Tally(t.bypassed + (if verdict == Bypassed && a.room then 1 else 0),
          t.paidButtons + (if verdict == Paid && a.room && a.event.eventType == Button then 1 else 0),
          t.paid + (if verdict == Paid && a.room then 1 else 0),
          t.granted + (if verdict == Paid then 1 else 0))
  }

  function Count(run: seq<Arrival>): Tally {
    if run == [] then Tally(0, 0, 0, 0)
    else
      var before, a := run[..|run| - 1], run[|run| - 1];
      Charged(Count(before), Run(before), a)
  }

  /** The mirror is what the injector holds once it has drained the queue, whatever the queue dropped. */
  lemma {:induction false} MirrorIsExact(run: seq<Arrival>)
    ensures Run(run).mask == HeldAfter(Enqueued(run))
  {
    if run != [] {
      MirrorIsExact(run[..|run| - 1]);
      var before, a := run[..|run| - 1], run[|run| - 1];
      if Enqueues(Run(before), a) {
        var events := Enqueued(run);
        assert events[..|events| - 1] == Enqueued(before);
      } else {
        assert Enqueued(run) == Enqueued(before);
      }
    }
  }

  lemma ReleaseBypasses(g: Guard, a: Arrival)
    requires PureRelease(a.event, g.mask)
    ensures Admit(g, a.event, a.now).1 == Bypassed && (Enqueues(g, a) <==> a.room)
  {
  }

  /** An event that only releases buttons the injector holds is never refused: it is enqueued if it fits. */
  lemma ReleaseIsNeverRefused(run: seq<Arrival>, a: Arrival)
    requires PureRelease(a.event, HeldAfter(Enqueued(run)))
    ensures Admit(Run(run), a.event, a.now).1 == Bypassed
    ensures Enqueued(run + [a]) == Enqueued(run) + if a.room then [a.event] else []
  {
    hide HeldAfter, PureRelease, Admit, Enqueues, Run;
    MirrorIsExact(run);
    ReleaseBypasses(Run(run), a);
    assert (run + [a])[..|run|] == run;
  }

  function PopCount(mask: bv8): nat {
    (if mask & 1 != 0 then 1 else 0) + (if mask & 2 != 0 then 1 else 0) + (if mask & 4 != 0 then 1 else 0)
  }

  lemma ReleaseDropsABit(held: bv8, curr: bv8)
    requires Defined(held) && Defined(curr)
    requires held & !curr != 0 && curr & !held == 0
    ensures PopCount(curr) < PopCount(held)
  {
  }

  lemma HeldIsDefined(mask: bv8)
    ensures Defined(Held(mask))
  {
  }

  /** A free event gives up a held button; a paid one presses at most three. */
  ghost predicate Amortised(bypassed: int, paidButtons: int, paid: int, granted: int, held: bv8, held': bv8) {
    && bypassed + PopCount(held') <= DEFINED_BUTTONS * paidButtons + PopCount(held)
    && 0 <= paidButtons <= paid <= granted
  }

  ghost predicate Defined(mask: bv8) { mask & DEFINED_BUTTON_BITS == mask }

  lemma StepAmortises(g: Guard, t: Tally, a: Arrival)
    requires Defined(g.mask)
    ensures var t', g' := Charged(t, g, a), Forward(g, a);
            && Amortised(t'.bypassed - t.bypassed, t'.paidButtons - t.paidButtons, t'.paid - t.paid,
                         t'.granted - t.granted, g.mask, g'.mask)
            && (if Enqueues(g, a) then 1 else 0) == t'.bypassed - t.bypassed + t'.paid - t.paid
            && Defined(g'.mask)
  {
    hide PopCount, Held, Allow;
    HeldIsDefined(a.event.buttonMask);
    PopCountBound(Held(a.event.buttonMask));
    if PureRelease(a.event, g.mask) {
      ReleaseDropsABit(g.mask, Held(a.event.buttonMask));
    }
  }

  /**
   * Every free event gives up a button that some paid event pressed, or that was held to begin with: what
   * the events from place `from` on got through for free, against what they paid.
   */
  lemma {:induction false} BypassInWindow(run: seq<Arrival>, from: nat)
    requires from <= |run|
    ensures var t, t0 := Count(run), Count(run[..from]);
            && Amortised(t.bypassed - t0.bypassed, t.paidButtons - t0.paidButtons, t.paid - t0.paid,
                         t.granted - t0.granted, Run(run[..from]).mask, Run(run).mask)
            && |Enqueued(run)| - |Enqueued(run[..from])| == t.bypassed - t0.bypassed + t.paid - t0.paid
    ensures Defined(Run(run).mask)
  {
    hide PopCount, Defined, Forward, Charged, Enqueues;
    if from == |run| {
      assert run[..from] == run;
      MaskIsDefined(run);
    } else {
      var before, a := run[..|run| - 1], run[|run| - 1];
      assert before[..from] == run[..from];
      BypassInWindow(before, from);
      StepAmortises(Run(before), Count(before), a);
    }
  }

  lemma {:induction false} MaskIsDefined(run: seq<Arrival>)
    ensures Defined(Run(run).mask)
  {
    if run == [] {
      NothingHeld();
    } else {
      hide Defined, Forward;
      MaskIsDefined(run[..|run| - 1]);
      StepAmortises(Run(run[..|run| - 1]), Count(run[..|run| - 1]), run[|run| - 1]);
    }
  }

  /** Over a whole session, nothing is held to begin with. */
  lemma BypassIsAmortised(run: seq<Arrival>)
    ensures var t := Count(run);
            && t.bypassed + PopCount(Run(run).mask) <= DEFINED_BUTTONS * t.paidButtons
            && t.paidButtons <= t.paid <= t.granted
            && |Enqueued(run)| == t.bypassed + t.paid
  {
    hide PopCount, Forward, Charged, Enqueues;
    BypassInWindow(run, 0);
    assert run[..0] == [];
    NothingHeldAtFirst(run);
  }

  lemma PopCountBound(mask: bv8)
    ensures PopCount(mask) <= DEFINED_BUTTONS
  {
  }

  lemma NothingHeld()
    ensures PopCount(0) == 0 && Defined(0)
  {
  }

  // ---- What the bucket bounds ----

  /** From place `from` on, every reading of the clock falls within `seconds` of `start`. */
  ghost predicate Spans(run: seq<Arrival>, from: nat, start: real, seconds: real) {
    forall i :: from <= i < |run| ==> start <= run[i].now <= start + seconds
  }

  ghost predicate Bounded(l: Limiter) {
    && l.capacity == THROTTLED_INPUT_BURST && l.refillPerSec == MAX_THROTTLED_INPUT_PER_SEC
    && 0.0 <= l.tokens <= l.capacity
  }

  /** How far into the span the bucket's clock has come. */
  function Progress(l: Limiter, start: real, end: real): real {
    if l.last.None? || l.last.value < start then 0.0 else MinReal(l.last.value, end) - start
  }

  /** Tokens spent in the span plus tokens left never exceed the capacity plus what accrued in it. */
  ghost predicate Conserves(l: Limiter, start: real, end: real, spent: nat) {
    && Bounded(l)
    && (spent > 0 ==> l.last.Some? && l.last.value >= start)
    && spent as real + l.tokens <= l.capacity + Progress(l, start, end) * MAX_THROTTLED_INPUT_PER_SEC
  }

  lemma AllowConserves(l: Limiter, now: real, start: real, end: real, spent: nat)
    requires start <= now <= end && Conserves(l, start, end, spent)
    ensures var (l', ok) := Allow(l, now);
            Conserves(l', start, end, if ok then spent + 1 else spent)
  {
  }

  lemma NothingSpent(l: Limiter, start: real, end: real)
    requires Bounded(l) && start <= end
    ensures Conserves(l, start, end, 0)
  {
  }

  lemma StepConserves(g: Guard, t: Tally, a: Arrival, start: real, end: real, spent: nat)
    requires start <= a.now <= end && Conserves(g.limiter, start, end, spent)
    ensures var t' := Charged(t, g, a);
            && t.granted <= t'.granted
            && Conserves(Forward(g, a).limiter, start, end, spent + t'.granted - t.granted)
  {
    hide Conserves, Allow, PureRelease;
    AllowConserves(g.limiter, a.now, start, end, spent);
  }

  lemma {:induction false} LimiterIsBounded(run: seq<Arrival>)
    ensures Bounded(Run(run).limiter)
    ensures Run(run).limiter.last.None? ==> Run(run).limiter.tokens == THROTTLED_INPUT_BURST
  {
    if run != [] {
      hide PureRelease;
      LimiterIsBounded(run[..|run| - 1]);
    }
  }

  lemma {:induction false} ConservesInWindow(run: seq<Arrival>, from: nat, start: real, seconds: real)
    requires from <= |run| && seconds >= 0.0 && Spans(run, from, start, seconds)
    ensures Count(run[..from]).granted <= Count(run).granted
    ensures Conserves(Run(run).limiter, start, start + seconds, Count(run).granted - Count(run[..from]).granted)
  {
    hide Conserves, Bounded, Forward, Charged;
    if from == |run| {
      assert run[..from] == run;
      LimiterIsBounded(run);
      NothingSpent(Run(run).limiter, start, start + seconds);
    } else {
      var before, a := run[..|run| - 1], run[|run| - 1];
      assert before[..from] == run[..from];
      ConservesInWindow(before, from, start, seconds);
      StepConserves(Run(before), Count(before), a, start, start + seconds,
                    Count(before).granted - Count(run[..from]).granted);
    }
  }

  /** In any stretch of any session the events pay at most the burst plus what the rate refills. */
  lemma TokensAreConserved(run: seq<Arrival>, from: nat, start: real, seconds: real)
    requires from <= |run| && seconds >= 0.0 && Spans(run, from, start, seconds)
    ensures (Count(run).granted - Count(run[..from]).granted) as real
            <= THROTTLED_INPUT_BURST + MAX_THROTTLED_INPUT_PER_SEC * seconds
  {
    hide Run, Count;
    ConservesInWindow(run, from, start, seconds);
    var l := Run(run).limiter;
    assert Progress(l, start, start + seconds) <= seconds;
  }

  /**
   * The guard's promise: over any stretch of time of any session, however events are mixed, at most four
   * events reach the injector for each token, and one more for each button held when the stretch begins.
   */
  lemma FloodIsBounded(run: seq<Arrival>, from: nat, start: real, seconds: real)
    requires from <= |run| && seconds >= 0.0 && Spans(run, from, start, seconds)
    ensures (|Enqueued(run)| - |Enqueued(run[..from])|) as real <=
            PopCount(Run(run[..from]).mask) as real
            + (1 + DEFINED_BUTTONS) as real * (THROTTLED_INPUT_BURST + MAX_THROTTLED_INPUT_PER_SEC * seconds)
    ensures PopCount(Run(run[..from]).mask) <= DEFINED_BUTTONS
    ensures PopCount(Run(run[..0]).mask) == 0
  {
    hide Run, Enqueued, Count, PopCount;
    BypassInWindow(run, from);
    TokensAreConserved(run, from, start, seconds);
    PopCountBound(Run(run[..from]).mask);
    NothingHeldAtFirst(run);
  }

  lemma NothingHeldAtFirst(run: seq<Arrival>)
    ensures PopCount(Run(run[..0]).mask) == 0
  {
    NothingHeld();
  }

  // ---- Held buttons do add to it ----

  const BURST: nat := 120

  /** Events arriving at one instant with room in the queue. */
  ghost predicate AllAt(events: seq<Arrival>, now: real) {
    forall i :: 0 <= i < |events| ==> events[i].now == now && events[i].room
  }

  /** What is in the bucket once it has read the clock at `now`. */
  function TokensAt(l: Limiter, now: real): real { Refilled(l, now).tokens }

  lemma AppendOne(run: seq<Arrival>, a: Arrival)
    ensures Run(run + [a]) == Forward(Run(run), a) && Count(run + [a]) == Charged(Count(run), Run(run), a)
    ensures |Enqueued(run + [a])| == |Enqueued(run)| + if Enqueues(Run(run), a) then 1 else 0
  {
    assert (run + [a])[..|run|] == run;
  }

  /** At one instant nothing accrues: a token is spent or still there. */
  lemma InstantStep(g: Guard, t: Tally, a: Arrival)
    requires Bounded(g.limiter)
    ensures Bounded(Forward(g, a).limiter) && TokensAt(g.limiter, a.now) >= 0.0
    ensures TokensAt(Forward(g, a).limiter, a.now) + (Charged(t, g, a).granted - t.granted) as real
            == TokensAt(g.limiter, a.now)
  {
    hide PureRelease;
  }

  lemma {:induction false} SpentAtOnce(past: seq<Arrival>, events: seq<Arrival>, now: real)
    requires AllAt(events, now)
    ensures TokensAt(Run(past + events).limiter, now) + (Count(past + events).granted - Count(past).granted) as real
            == TokensAt(Run(past).limiter, now)
    ensures TokensAt(Run(past + events).limiter, now) >= 0.0
    decreases |events|
  {
    hide Forward, Charged, TokensAt, Bounded, Enqueues;
    if events == [] {
      assert past + events == past;
      LimiterIsBounded(past);
      InstantStep(Run(past), Count(past), Press(0, now));
    } else {
      var before, a := events[..|events| - 1], events[|events| - 1];
      assert past + events == past + before + [a];
      SpentAtOnce(past, before, now);
      AppendOne(past + before, a);
      LimiterIsBounded(past + before);
      InstantStep(Run(past + before), Count(past + before), a);
      LimiterIsBounded(past + events);
      InstantStep(Run(past + events), Count(past + events), a);
    }
  }

  function Press(mask: bv8, now: real): Arrival { Arrival(InputEvent(Button, mask, []), now, true) }

  /** `n` times press all three buttons and let go of one after the other. */
  function Flood(n: nat, now: real): seq<Arrival> {
    if n == 0 then []
    else Flood(n - 1, now) + [Press(7, now), Press(6, now), Press(4, now), Press(0, now)]
  }

  /** A mask with its highest defined button let go. */
  function Fewer(mask: bv8): bv8 {
    if mask & 4 != 0 then mask & 3 else if mask & 2 != 0 then mask & 1 else 0
  }

  /** Let go of `n` buttons, one after the other. */
  function OneByOne(mask: bv8, n: nat, now: real): seq<Arrival> {
    if n == 0 then [] else [Press(Fewer(mask), now)] + OneByOne(Fewer(mask), n - 1, now)
  }

  lemma LetGo(run: seq<Arrival>, mask: bv8, now: real)
    requires PureRelease(Press(mask, now).event, Run(run).mask)
    ensures var run' := run + [Press(mask, now)];
            && Run(run').mask == Held(mask) && Run(run').limiter == Run(run).limiter
            && |Enqueued(run')| == |Enqueued(run)| + 1
  {
    hide PureRelease, Held, Run, Count, Enqueued;
    AppendOne(run, Press(mask, now));
  }

  lemma PressNew(run: seq<Arrival>, mask: bv8, now: real)
    requires Run(run).mask == 0 && TokensAt(Run(run).limiter, now) >= 1.0
    ensures var run' := run + [Press(mask, now)];
            && Run(run').mask == Held(mask)
            && TokensAt(Run(run').limiter, now) == TokensAt(Run(run).limiter, now) - 1.0
            && |Enqueued(run')| == |Enqueued(run)| + 1
  {
    hide Run, Count, Enqueued, PureRelease, Held;
    LimiterIsBounded(run);
    NothingToRelease(mask, now);
    AppendOne(run, Press(mask, now));
  }

  lemma NothingToRelease(mask: bv8, now: real)
    ensures !PureRelease(Press(mask, now).event, 0)
  {
  }

  lemma Masks(now: real)
    ensures Held(7) == 7 && Held(6) == 6 && Held(4) == 4 && Held(0) == 0
    ensures PureRelease(Press(6, now).event, 7) && PureRelease(Press(4, now).event, 6)
            && PureRelease(Press(0, now).event, 4)
  {
  }

  lemma OneCycle(run: seq<Arrival>, now: real)
    requires Run(run).mask == 0 && TokensAt(Run(run).limiter, now) >= 1.0
    ensures var run' := run + [Press(7, now), Press(6, now), Press(4, now), Press(0, now)];
            && Run(run').mask == 0 && TokensAt(Run(run').limiter, now) == TokensAt(Run(run).limiter, now) - 1.0
            && |Enqueued(run')| == |Enqueued(run)| + 4
  {
    hide PureRelease, Held, Run, Enqueued, TokensAt;
    Masks(now);
    PressNew(run, 7, now);
    var r1 := run + [Press(7, now)];
    LetGo(r1, 6, now);
    var r2 := r1 + [Press(6, now)];
    LetGo(r2, 4, now);
    var r3 := r2 + [Press(4, now)];
    LetGo(r3, 0, now);
    assert r3 + [Press(0, now)] == run + [Press(7, now), Press(6, now), Press(4, now), Press(0, now)];
  }

  lemma {:induction false} FloodGetsThrough(past: seq<Arrival>, n: nat, now: real)
    requires Run(past).mask == 0 && n as real <= TokensAt(Run(past).limiter, now)
    ensures var run := past + Flood(n, now);
            && Run(run).mask == 0
            && TokensAt(Run(run).limiter, now) == TokensAt(Run(past).limiter, now) - n as real
            && |Enqueued(run)| == |Enqueued(past)| + 4 * n
    ensures AllAt(Flood(n, now), now)
  {
    hide Run, Enqueued, TokensAt;
    if n == 0 {
      assert past + Flood(n, now) == past;
    } else {
      FloodGetsThrough(past, n - 1, now);
      OneCycle(past + Flood(n - 1, now), now);
      assert past + Flood(n, now)
             == past + Flood(n - 1, now) + [Press(7, now), Press(6, now), Press(4, now), Press(0, now)];
    }
  }

  lemma OneLess(held: bv8, now: real)
    requires Defined(held) && PopCount(held) > 0
    ensures PureRelease(Press(Fewer(held), now).event, held)
    ensures Held(Fewer(held)) == Fewer(held) && PopCount(Fewer(held)) == PopCount(held) - 1
  {
  }

  lemma NoneHeld(held: bv8)
    requires Defined(held) && PopCount(held) == 0
    ensures held == 0
  {
  }

  lemma {:induction false} OneByOneGetsThrough(past: seq<Arrival>, n: nat, now: real)
    requires PopCount(Run(past).mask) == n
    ensures var events := OneByOne(Run(past).mask, n, now);
            var run := past + events;
            && AllAt(events, now)
            && Run(run).mask == 0 && Run(run).limiter == Run(past).limiter
            && |Enqueued(run)| == |Enqueued(past)| + n
    decreases n
  {
    hide Run, Enqueued, PopCount, PureRelease, Held, Fewer, Defined;
    var mask := Run(past).mask;
    MaskIsDefined(past);
    if n == 0 {
      NoneHeld(mask);
      assert past + OneByOne(mask, n, now) == past;
    } else {
      OneLess(mask, now);
      LetGo(past, Fewer(mask), now);
      var next := past + [Press(Fewer(mask), now)];
      OneByOneGetsThrough(next, n - 1, now);
      assert past + OneByOne(mask, n, now) == next + OneByOne(Fewer(mask), n - 1, now);
    }
  }

  /** The most that can get through at one instant: a free release of each button held, then four for each token. */
  function MostAtOnce(g: Guard, now: real): int {
    PopCount(g.mask) + (1 + DEFINED_BUTTONS) * TokensAt(g.limiter, now).Floor
  }

  function FullFlood(g: Guard, now: real): seq<Arrival>
    requires Bounded(g.limiter)
  {
    OneByOne(g.mask, PopCount(g.mask), now) + Flood(TokensAt(g.limiter, now).Floor, now)
  }

  lemma FullFloodGetsThrough(past: seq<Arrival>, now: real)
    ensures Bounded(Run(past).limiter)
    ensures AllAt(FullFlood(Run(past), now), now)
    ensures |Enqueued(past + FullFlood(Run(past), now))| - |Enqueued(past)| == MostAtOnce(Run(past), now)
  {
    hide Run, Enqueued, TokensAt, PopCount, Bounded;
    var g := Run(past);
    LimiterIsBounded(past);
    TokensNotNegative(g, now);
    var releases, n := OneByOne(g.mask, PopCount(g.mask), now), TokensAt(g.limiter, now).Floor;
    OneByOneGetsThrough(past, PopCount(g.mask), now);
    FloodGetsThrough(past + releases, n, now);
    assert past + FullFlood(g, now) == past + releases + Flood(n, now);
  }

  lemma TokensNotNegative(g: Guard, now: real)
    requires Bounded(g.limiter)
    ensures TokensAt(g.limiter, now) >= 0.0
  {
  }

  lemma NoMoreAtOnce(past: seq<Arrival>, events: seq<Arrival>, now: real)
    requires AllAt(events, now)
    ensures |Enqueued(past + events)| - |Enqueued(past)| <= MostAtOnce(Run(past), now)
  {
    hide Run, Enqueued, TokensAt, Count, PopCount;
    assert (past + events)[..|past|] == past;
    BypassInWindow(past + events, |past|);
    SpentAtOnce(past, events, now);
    var granted := Count(past + events).granted - Count(past).granted;
    assert granted as real <= TokensAt(Run(past).limiter, now);
  }

  /** That many is reached, and no more, at any instant of any session. */
  lemma MostAtOnceIsExact(past: seq<Arrival>, now: real)
    ensures forall events :: AllAt(events, now) ==>
              |Enqueued(past + events)| - |Enqueued(past)| <= MostAtOnce(Run(past), now)
    ensures exists events ::
              AllAt(events, now) && |Enqueued(past + events)| - |Enqueued(past)| == MostAtOnce(Run(past), now)
  {
    hide Run, Enqueued, MostAtOnce;
    FullFloodGetsThrough(past, now);
    forall events | AllAt(events, now)
      ensures |Enqueued(past + events)| - |Enqueued(past)| <= MostAtOnce(Run(past), now)
    {
      NoMoreAtOnce(past, events, now);
    }
  }

  /**
   * The bound without the held buttons, four events for each token of the burst, is broken at an instant
   * exactly when a button is held and the bucket is full.
   */
  lemma BurstExceededExactlyWhen(past: seq<Arrival>, now: real)
    ensures (exists events ::
               AllAt(events, now) && |Enqueued(past + events)| - |Enqueued(past)| > (1 + DEFINED_BUTTONS) * BURST)
            <==> Run(past).mask != 0 && TokensAt(Run(past).limiter, now) == THROTTLED_INPUT_BURST
  {
    hide Run, Enqueued, TokensAt, PopCount;
    MostAtOnceIsExact(past, now);
    TokensAtMost(past, now);
    PopCountBound(Run(past).mask);
    NothingHeld();
    MaskIsDefined(past);
    if PopCount(Run(past).mask) == 0 {
      NoneHeld(Run(past).mask);
    }
  }

  lemma TokensAtMost(past: seq<Arrival>, now: real)
    ensures TokensAt(Run(past).limiter, now) <= THROTTLED_INPUT_BURST
  {
    hide Run;
    LimiterIsBounded(past);
  }

  /**
   * A run that reaches the bound of FloodIsBounded: ten seconds after all three buttons went down, 483 events
   * get through at once.
   */
  lemma FourEightyThreeAtOnce()
    ensures var events := OneByOne(7, 3, 10.0) + Flood(BURST, 10.0);
            && AllAt(events, 10.0)
            && |Enqueued([Press(7, 0.0)] + events)| - |Enqueued([Press(7, 0.0)])| == 3 + 4 * BURST == 483
  {
    hide Enqueued, Run, TokensAt;
    FirstPress();
    FullFloodGetsThrough([Press(7, 0.0)], 10.0);
  }

  lemma FirstPress()
    ensures var g := Run([Press(7, 0.0)]);
            g.mask == 7 && PopCount(g.mask) == 3 && TokensAt(g.limiter, 10.0) == THROTTLED_INPUT_BURST
  {
    hide Enqueued;
    assert [Press(7, 0.0)][..0] == [];
    assert Run([]) == NewGuard();
  }

  // ---- Releases that are not pure ----

  /** Clears a held button, whatever else it does. */
  predicate Releases(e: InputEvent, held: bv8) { e.eventType == Button && held & !Held(e.buttonMask) != 0 }

  predicate Presses(e: InputEvent, held: bv8) { Held(e.buttonMask) & !held != 0 }

  /** An event that releases a button is refused exactly if it presses another and the bucket is empty. */
  lemma ReleaseRefusedExactlyWhen(g: Guard, e: InputEvent, now: real)
    requires Releases(e, g.mask)
    ensures Admit(g, e, now).1 == Refused <==> Presses(e, g.mask) && TokensAt(g.limiter, now) < 1.0
  {
    hide Refilled;
  }

  /** A run that ends so: with the bucket empty and the left button down, changing over to the middle one. */
  lemma MixedReleaseIsRefused()
    ensures var run := Flood(BURST - 1, 0.0) + [Press(1, 0.0)];
            && Releases(Press(2, 0.0).event, Run(run).mask)
            && Admit(Run(run), Press(2, 0.0).event, 0.0).1 == Refused
  {
    hide Run, TokensAt, Admit, Enqueued;
    AtFirst();
    var past := [] + Flood(BURST - 1, 0.0);
    FloodGetsThrough([], BURST - 1, 0.0);
    assert past == Flood(BURST - 1, 0.0);
    PressNew(past, 1, 0.0);
    ChangeOver();
    ReleaseRefusedExactlyWhen(Run(past + [Press(1, 0.0)]), Press(2, 0.0).event, 0.0);
  }

  lemma AtFirst()
    ensures Run([]).mask == 0 && TokensAt(Run([]).limiter, 0.0) == THROTTLED_INPUT_BURST
  {
  }

  lemma ChangeOver()
    ensures Held(1) == 1 && Releases(Press(2, 0.0).event, 1) && Presses(Press(2, 0.0).event, 1)
  {
  }

  // ---- Exactly when a token is there ----

  /** An event that asked the bucket, and its answer. */
  datatype Try = Try(now: real, granted: bool)

  function Tries(run: seq<Arrival>): seq<Try> {
    if run == [] then []
    else
      var before, a := run[..|run| - 1], run[|run| - 1];
      var verdict := Admit(Run(before), a.event, a.now).1;
      Tries(before) + if verdict == Bypassed then [] else [Try(a.now, verdict == Paid)]
  }

  function Grants(tries: seq<Try>): nat {
    if tries == [] then 0 else Grants(tries[..|tries| - 1]) + if tries[|tries| - 1].granted then 1 else 0
  }

  /** The latest reading of the clock among tries and `now`. */
  function Latest(tries: seq<Try>, now: real): real {
    if tries == [] then now else MaxReal(Latest(tries[..|tries| - 1], tries[|tries| - 1].now), now)
  }

  /** Since try `j`, at most a burst of 120 and 500 a second were granted, with `need` more to spare. */
  ghost predicate RoomSince(tries: seq<Try>, j: nat, now: real, need: real)
    requires j < |tries|
  {
    need + Grants(tries[j..]) as real <= 120.0 + 500.0 * (Latest(tries, now) - Latest(tries[..j], tries[j].now))
  }

  ghost predicate Room(tries: seq<Try>, now: real, need: real) {
    forall j :: 0 <= j < |tries| ==> RoomSince(tries, j, now, need)
  }

  /** How far the clock moves on from the last try to `now`. */
  function Elapse(tries: seq<Try>, now: real): real
    requires tries != []
  {
    var last := |tries| - 1;
    MaxReal(now - Latest(tries[..last], tries[last].now), 0.0)
  }

  lemma RoomSinceStep(tries: seq<Try>, t: Try, j: nat, now: real, need: real)
    requires j < |tries|
    ensures var g := if t.granted then 1.0 else 0.0;
            RoomSince(tries + [t], j, now, need) <==>
            RoomSince(tries, j, t.now, need + g - 500.0 * Elapse(tries + [t], now))
  {
    var all := tries + [t];
    assert all[..|tries|] == tries && all[..j] == tries[..j];
    assert all[j..][..|tries| - j] == tries[j..];
  }

  lemma RoomStep(tries: seq<Try>, t: Try, now: real, need: real)
    ensures var g := if t.granted then 1.0 else 0.0;
            var moved := 500.0 * Elapse(tries + [t], now);
            Room(tries + [t], now, need) <==> need + g - moved <= 120.0 && Room(tries, t.now, need + g - moved)
  {
    hide RoomSince, Latest, Grants;
    var all := tries + [t];
    var need' := need + (if t.granted then 1.0 else 0.0) - 500.0 * Elapse(all, now);
    forall j | 0 <= j < |tries| ensures RoomSince(all, j, now, need) <==> RoomSince(tries, j, t.now, need') {
      RoomSinceStep(tries, t, j, now, need);
    }
    RoomSinceLast(tries, t, now, need);
    assert Room(all, now, need) ==> RoomSince(all, |tries|, now, need);
  }

  lemma RoomSinceLast(tries: seq<Try>, t: Try, now: real, need: real)
    ensures var g := if t.granted then 1.0 else 0.0;
            RoomSince(tries + [t], |tries|, now, need) <==> need + g - 500.0 * Elapse(tries + [t], now) <= 120.0
  {
    var all := tries + [t];
    assert all[..|tries|] == tries && all[|tries|..] == [t] && [t][..0] == [];
    assert Grants([t]) == if t.granted then 1 else 0;
  }

  /** One try against the bucket, by what is in it later. */
  lemma TryStep(l: Limiter, t: real, now: real, need: real)
    requires Bounded(l) && need <= 120.0
    ensures var (l', ok) := Allow(l, t);
            var at := if l.last.Some? then MaxReal(l.last.value, t) else t;
            && l'.last == Some(at)
            && (TokensAt(l', now) >= need <==>
                TokensAt(l, t) >= need + (if ok then 1.0 else 0.0) - 500.0 * MaxReal(now - at, 0.0))
            && (ok <==> TokensAt(l, t) >= 1.0) && TokensAt(l, t) <= 120.0
  {
  }

  /** The bucket's clock is the latest try. */
  ghost predicate ClockOf(l: Limiter, tries: seq<Try>) {
    l.last == if tries == [] then None else Some(Latest(tries[..|tries| - 1], tries[|tries| - 1].now))
  }

  lemma LatestStep(tries: seq<Try>, t: Try, now: real)
    ensures (tries + [t])[..|tries|] == tries
    ensures Latest(tries, t.now) ==
            if tries == [] then t.now else MaxReal(Latest(tries[..|tries| - 1], tries[|tries| - 1].now), t.now)
    ensures Elapse(tries + [t], now) == MaxReal(now - Latest(tries, t.now), 0.0)
  {
  }

  /** What must have been in the bucket at `t` for `need` to be in it at `now`. */
  function Needed(tries: seq<Try>, t: Try, now: real, need: real): real {
    need + (if t.granted then 1.0 else 0.0) - 500.0 * Elapse(tries + [t], now)
  }

  lemma BucketStep(l: Limiter, tries: seq<Try>, t: real, now: real, need: real)
    requires Bounded(l) && ClockOf(l, tries) && need <= 120.0
    requires var need' := Needed(tries, Try(t, Allow(l, t).1), now, need);
             need' <= 120.0 ==> (TokensAt(l, t) >= need' <==> Room(tries, t, need'))
    ensures var (l', ok) := Allow(l, t);
            && ClockOf(l', tries + [Try(t, ok)])
            && (TokensAt(l', now) >= need <==> Room(tries + [Try(t, ok)], now, need))
  {
    hide TokensAt, Room, Latest, Allow, Bounded, Elapse;
    var try := Try(t, Allow(l, t).1);
    TryStep(l, t, now, need);
    LatestStep(tries, try, now);
    RoomStep(tries, try, now, need);
  }

  /** What the bucket holds at any time is what the tries leave room for. */
  lemma {:induction false} BucketIsRoom(run: seq<Arrival>, now: real, need: real)
    requires need <= 120.0
    ensures ClockOf(Run(run).limiter, Tries(run))
    ensures TokensAt(Run(run).limiter, now) >= need <==> Room(Tries(run), now, need)
    decreases |run|
  {
    if run == [] {
      StartsFull(now);
    } else {
      hide TokensAt, Room, Allow, Bounded, PureRelease, ClockOf, Needed;
      var before, a := run[..|run| - 1], run[|run| - 1];
      var l, tries := Run(before).limiter, Tries(before);
      LimiterIsBounded(before);
      BucketIsRoom(before, now, need);
      if Admit(Run(before), a.event, a.now).1 == Bypassed {
        assert Tries(run) == tries;
      } else {
        var need' := Needed(tries, Try(a.now, Allow(l, a.now).1), now, need);
        if need' <= 120.0 {
          BucketIsRoom(before, a.now, need');
        }
        BucketStep(l, tries, a.now, now, need);
      }
    }
  }

  lemma StartsFull(now: real)
    ensures TokensAt(Run([]).limiter, now) == 120.0
  {
  }

  /**
   * The exact law of the bucket, from the times and answers of a session alone: an event that is not a pure release
   * is granted if and only if, since every earlier try, fewer than 120 and 500 for each second since were granted.
   */
  lemma GrantedExactlyWhen(run: seq<Arrival>, a: Arrival)
    requires !PureRelease(a.event, HeldAfter(Enqueued(run)))
    ensures Admit(Run(run), a.event, a.now).1 == Paid <==> Room(Tries(run), a.now, 1.0)
  {
    hide Run, Room, Tries, HeldAfter, PureRelease, Enqueued;
    MirrorIsExact(run);
    BucketIsRoom(run, a.now, 1.0);
  }

  /** The count of throttled events is how many tries were not granted. */
  lemma {:induction false} ThrottledAreTheRefused(run: seq<Arrival>)
    ensures Run(run).throttled + Grants(Tries(run)) == |Tries(run)|
  {
    if run != [] {
      hide PureRelease, Allow;
      var before := Tries(run[..|run| - 1]);
      ThrottledAreTheRefused(run[..|run| - 1]);
      if |Tries(run)| > |before| {
        assert Tries(run)[..|before|] == before;
      } else {
        assert Tries(run) == before;
      }
    }
  }

  // ---- So well-behaved input is not held up ----

  lemma {:induction false} ClockIsPast(run: seq<Arrival>, now: real)
    requires forall j :: 0 <= j < |run| ==> run[j].now <= now
    ensures Run(run).limiter.last.Some? ==> Run(run).limiter.last.value <= now
  {
    if run != [] {
      hide PureRelease;
      ClockIsPast(run[..|run| - 1], now);
    }
  }

  /** After 240 ms without events, any 120 of them get through at once. */
  lemma QuietRefills(past: seq<Arrival>, events: seq<Arrival>, now: real)
    requires forall j :: 0 <= j < |past| ==> past[j].now + 0.24 <= now
    requires AllAt(events, now) && |events| <= 120
    ensures |Enqueued(past + events)| == |Enqueued(past)| + |events|
  {
    hide Run, Enqueued;
    ClockIsPast(past, now - 0.24);
    LimiterIsBounded(past);
    assert TokensAt(Run(past).limiter, now) == 120.0;
    AllThrough(past, events, now);
  }

  lemma {:induction false} AllThrough(past: seq<Arrival>, events: seq<Arrival>, now: real)
    requires AllAt(events, now) && |events| as real <= TokensAt(Run(past).limiter, now)
    ensures |Enqueued(past + events)| == |Enqueued(past)| + |events|
    ensures Count(past + events).granted <= Count(past).granted + |events|
    decreases |events|
  {
    hide Run, Enqueued, Count, TokensAt, Admit, Enqueues, Charged, Forward;
    if events == [] {
      assert past + events == past;
    } else {
      var before, a := events[..|events| - 1], events[|events| - 1];
      AllThrough(past, before, now);
      SpentAtOnce(past, before, now);
      assert past + events == past + before + [a];
      AppendOne(past + before, a);
      NotRefused(Run(past + before), Count(past + before), a);
    }
  }

  lemma NotRefused(g: Guard, t: Tally, a: Arrival)
    requires TokensAt(g.limiter, a.now) >= 1.0
    ensures (Enqueues(g, a) <==> a.room) && Charged(t, g, a).granted <= t.granted + 1
  {
    hide PureRelease;
  }

  /** The bucket has a token for whoever comes 2 ms later. */
  ghost predicate ReadySoon(l: Limiter, now: real) {
    && Bounded(l) && (l.last.Some? ==> l.last.value <= now)
    && TokensAt(l, now + 0.002) >= 1.0
  }

  lemma StaysReady(g: Guard, a: Arrival, before: real)
    requires ReadySoon(g.limiter, before) && a.now >= before + 0.002
    ensures Admit(g, a.event, a.now).1 != Refused && ReadySoon(Forward(g, a).limiter, a.now)
  {
    hide PureRelease;
  }

  lemma BecomesReady(g: Guard, a: Arrival)
    requires Bounded(g.limiter) && (g.limiter.last.Some? ==> g.limiter.last.value <= a.now)
    requires Admit(g, a.event, a.now).1 == Paid
    ensures ReadySoon(Forward(g, a).limiter, a.now)
  {
    hide PureRelease;
  }

  /** From an event that was granted on, events at least 2 ms apart are never refused, however long they go on. */
  lemma {:induction false} SteadyIsNeverRefused(run: seq<Arrival>, from: nat, i: nat)
    requires from <= i < |run| && forall j :: 0 <= j < from ==> run[j].now <= run[from].now
    requires forall j :: from <= j < |run| - 1 ==> run[j].now + 0.002 <= run[j + 1].now
    requires Admit(Run(run[..from]), run[from].event, run[from].now).1 == Paid
    ensures Admit(Run(run[..i]), run[i].event, run[i].now).1 != Refused
    ensures ReadySoon(Run(run[..i + 1]).limiter, run[i].now)
    decreases i
  {
    hide ReadySoon, Admit, Forward, Bounded;
    assert run[..i + 1][..i] == run[..i];
    if i == from {
      LimiterIsBounded(run[..i]);
      ClockIsPast(run[..i], run[i].now);
      BecomesReady(Run(run[..i]), run[i]);
    } else {
      SteadyIsNeverRefused(run, from, i - 1);
      StaysReady(Run(run[..i]), run[i], run[i - 1].now);
    }
  }
}
