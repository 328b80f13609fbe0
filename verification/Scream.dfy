/** The window-based controller for the native path (after RFC 8298). */
module Scream {
  import opened Arith
  import opened Wire
  import opened Congestion

  const QUEUE_DELAY_HIGH_THRESHOLD := 0.020
  const QUEUE_DELAY_TARGET := 0.010
  const LOSS_THRESHOLD := 0.02
  const MSS := 1460.0
  const BETA_DECREASE := 0.85
  const SLOW_START_SCALE := 8.0
  const MIN_CWND := 2.0 * MSS
  const MAX_CWND := 2_500_000.0

  datatype Phase = SlowStart | SteadyState

  datatype Controller = Controller(
    phase: Phase, cwnd: real, ssthresh: real, srtt: real,
    lastFeedback: Option<real>, lastDecrease: Option<real>, target: u64)

  function ClampCwnd(cwnd: real): real { ClampReal(cwnd, MIN_CWND, MAX_CWND) }

  function InitialCwnd(c: Config): real {
    ClampCwnd(c.initialBitrate as real * ClampRtt(c.initialRtt) / 8.0)
  }

  function Initial(c: Config): Controller {
    Controller(SlowStart, InitialCwnd(c), MAX_CWND, ClampRtt(c.initialRtt), None, None,
               ClampBitrate(c, c.initialBitrate))
  }

  // ---- One feedback ----

  function Derived(c: Config, s: Controller): Controller {
    s.(target := TargetOf(c, s.cwnd * 8.0 / MaxReal(s.srtt, MIN_RTT)))
  }

  predicate Congested(fb: Stats) {
    MinReal(fb.queueDelay, MAX_QUEUE_DELAY) >= QUEUE_DELAY_HIGH_THRESHOLD || LossFraction(fb) >= LOSS_THRESHOLD
  }

  function Decreased(s: Controller, now: real): Controller {
    s.(ssthresh := MaxReal(s.cwnd * BETA_DECREASE, MIN_CWND), cwnd := ClampCwnd(s.cwnd * BETA_DECREASE),
       lastDecrease := Some(now), phase := SteadyState)
  }

  function SteadyStep(cwnd: real, acked: u32): real
    requires cwnd > 0.0
  {
    if acked > 0 then MaxReal(MSS * acked as real / cwnd, MSS) else 0.0
  }

  function Increased(s: Controller, acked: u32, queueDelay: real): Controller
    requires s.cwnd > 0.0
  {
    match s.phase
    case SlowStart =>
      var cwnd := s.cwnd + acked as real * SLOW_START_SCALE;
      s.(cwnd := ClampCwnd(cwnd),
         phase := if cwnd >= s.ssthresh || queueDelay > QUEUE_DELAY_TARGET then SteadyState else SlowStart)
    case SteadyState =>
      s.(cwnd := ClampCwnd(s.cwnd + SteadyStep(s.cwnd, acked)))
  }

  function Observed(s: Controller, fb: Stats, now: real): Controller {
    s.(lastFeedback := Some(now), srtt := Smoothed(s.srtt, fb.rtt))
  }

  function Feedback(c: Config, s: Controller, fb: Stats, now: real): (s': Controller)
    requires s.cwnd > 0.0
    ensures s.cwnd >= MIN_CWND ==> s'.cwnd >= MIN_CWND
  {
    match TimingOf(s.lastFeedback, now)
    case Ignored => s
    case Restart => Derived(c, Initial(c).(lastFeedback := Some(now)))
    case Regular =>
      var seen := Observed(s, fb, now);
      var moved :=
        if Congested(fb) then
          if CutSuppressed(seen.lastDecrease, seen.srtt, now) then seen else Decreased(seen, now)
        else Increased(seen, fb.bytesAcked, MinReal(fb.queueDelay, MAX_QUEUE_DELAY));
      Derived(c, moved)
  }

  class ScreamController {
    const config: Config
    var phase: Phase
    var cwnd: real
    var ssthresh: real
    var srtt: real
    var lastFeedback: Option<real>
    var lastDecrease: Option<real>
    var target: u64

    ghost function State(): Controller
      reads this
    {
      Controller(phase, cwnd, ssthresh, srtt, lastFeedback, lastDecrease, target)
    }

    ghost predicate Valid()
      reads this
    {
      cwnd >= MIN_CWND
    }

    constructor (config: Config)
      ensures Valid() && this.config == config && State() == Initial(config)
    {
      this.config := config;
      var initialRtt := ClampRtt(config.initialRtt);
      cwnd := InitialCwnd(config);
      target := ClampBitrate(config, config.initialBitrate);
      srtt, ssthresh, phase := initialRtt, MAX_CWND, SlowStart;
      lastFeedback, lastDecrease := None, None;
    }

    method UpdateTargetBitrate()
      modifies this`target
      ensures State() == Derived(config, old(State()))
    {
      var floor := MaxReal(srtt, MIN_RTT);
      target := TargetOf(config, cwnd * 8.0 / floor);
    }

    method ApplyIncrease(acked: u32, queueDelay: real)
      requires cwnd > 0.0
      modifies this`cwnd, this`phase
      ensures State() == Increased(old(State()), acked, queueDelay)
    {
      match phase {
        case SlowStart =>
          cwnd := cwnd + acked as real * SLOW_START_SCALE;
          if cwnd >= ssthresh || queueDelay > QUEUE_DELAY_TARGET {
            phase := SteadyState;
          }
        case SteadyState =>
          if acked > 0 {
            var delta := MaxReal(MSS * acked as real / cwnd, MSS);
            cwnd := cwnd + delta;
          }
      }
      cwnd := ClampCwnd(cwnd);
    }

    method ApplyDecrease(now: real)
      modifies this`cwnd, this`ssthresh, this`lastDecrease, this`phase
      ensures State() == Decreased(old(State()), now)
    {
      ssthresh := MaxReal(cwnd * BETA_DECREASE, MIN_CWND);
      cwnd := ClampCwnd(cwnd * BETA_DECREASE);
      lastDecrease := Some(now);
      phase := SteadyState;
    }

    method Restart(now: real)
      modifies this
      ensures State() == Derived(config, Initial(config).(lastFeedback := Some(now)))
    {
      hide InitialCwnd;
      var initialRtt := ClampRtt(config.initialRtt);
      phase := SlowStart;
      cwnd := InitialCwnd(config);
      srtt, lastDecrease, ssthresh, lastFeedback := initialRtt, None, MAX_CWND, Some(now);
      UpdateTargetBitrate();
    }

    method OnFeedback(fb: Stats, now: real)
      requires Valid()
      modifies this
      ensures State() == Feedback(config, old(State()), fb, now) && Valid()
    {
      hide TargetOf, LossFraction, Decreased, Increased, Derived, Initial, ClampRtt;
      if lastFeedback.Some? {
        if now < lastFeedback.value || now - lastFeedback.value < MIN_UPDATE_INTERVAL {
          return;
        }
        if now - lastFeedback.value > MAX_UPDATE_INTERVAL {
          Restart(now);
          return;
        }
      }
      lastFeedback := Some(now);
      if fb.rtt > 0.0 {
        srtt := 0.875 * srtt + 0.125 * ClampRtt(fb.rtt);
      }
      var queueDelay := MinReal(fb.queueDelay, MAX_QUEUE_DELAY);
      var loss := LossFraction(fb);
      if queueDelay >= QUEUE_DELAY_HIGH_THRESHOLD || loss >= LOSS_THRESHOLD {
        if !CutSuppressed(lastDecrease, srtt, now) {
          ApplyDecrease(now);
        }
      } else {
        ApplyIncrease(fb.bytesAcked, queueDelay);
      }
      UpdateTargetBitrate();
      assert cwnd == State().cwnd;
    }
  }

  // ---- What every feedback keeps ----

  /**
   * Ranges, the target always derived from the window in force, and: slow start has never seen a cut, so its
   * threshold is still the maximum. The threshold a cut records is therefore never consulted.
   */
  ghost predicate Sane(c: Config, s: Controller) {
    && 2920.0 <= s.cwnd <= 2500000.0 && ValidSrtt(s.srtt)
    && c.minBitrate <= s.target <= c.maxBitrate
    && (s.lastFeedback.Some? ==> s == Derived(c, s))
    && (s.phase == SlowStart ==> s.ssthresh == 2500000.0 && s.lastDecrease == None)
  }

  lemma FeedbackIsSane(c: Config, s: Controller, fb: Stats, now: real)
    requires ValidConfig(c) && Sane(c, s)
    ensures Sane(c, Feedback(c, s, fb, now))
  {
    hide LossFraction, TargetOf;
    SmoothedStaysValid(s.srtt, fb.rtt);
  }

  predicate IsRegular(s: Controller, now: real) { TimingOf(s.lastFeedback, now) == Regular }

  predicate Cuts(c: Config, s: Controller, fb: Stats, now: real)
    requires s.cwnd > 0.0
  {
    IsRegular(s, now) && Feedback(c, s, fb, now).lastDecrease != s.lastDecrease
  }

  /** Out of slow start: nothing without acknowledged bytes, a segment up to a window of them, in proportion beyond. */
  ghost predicate SteadyGrowth(cwnd: real, step: real, acked: real) {
    if acked == 0.0 then step == 0.0
    else if acked <= cwnd then step == 1460.0
    else step * cwnd == 1460.0 * acked
  }

  lemma StepIsSteadyGrowth(cwnd: real, acked: u32)
    requires cwnd > 0.0
    ensures SteadyGrowth(cwnd, SteadyStep(cwnd, acked), acked as real)
  {
    if acked > 0 {
      Share(acked as real, cwnd, MSS * acked as real / cwnd);
    }
  }

  /** The share of a segment that acknowledged bytes are of the window is a whole one from a window on. */
  lemma Share(acked: real, cwnd: real, q: real)
    requires cwnd > 0.0 && q == 1460.0 * acked / cwnd
    ensures q * cwnd == 1460.0 * acked && (q >= 1460.0 <==> acked >= cwnd) && (q == 1460.0 <==> acked == cwnd)
  {
    Product(q - 1460.0, cwnd);
  }

  lemma Product(x: real, y: real)
    requires y > 0.0
    ensures (x * y >= 0.0 <==> x >= 0.0) && (x * y == 0.0 <==> x == 0.0)
  {
  }

  /** A quotient of a product by something at least twice the first factor is at most half the second. */
  lemma HalfAtMost(acked: real, cwnd: real)
    requires acked >= 0.0 && cwnd >= MIN_CWND
    ensures 0.0 <= MSS * acked / cwnd <= acked / 2.0
  {
    var q := MSS * acked / cwnd;
    assert q * cwnd == MSS * acked;
    assert (q - acked / 2.0) * cwnd <= 0.0;
  }

  /**
   * The window falls exactly on a congested report that is not held off, to 85 percent or the minimum. In slow
   * start it otherwise grows by at most eight times the acknowledged bytes, and slow start ends exactly on
   * congestion, a queue above target or the maximum window. In steady state it grows by at least one segment and
   * at most one segment or half of the bytes, and steady state is not left.
   */
  lemma WindowMoves(c: Config, s: Controller, fb: Stats, now: real)
    requires Sane(c, s) && IsRegular(s, now)
    ensures var heldOff := CutSuppressed(s.lastDecrease, Smoothed(s.srtt, fb.rtt), now);
            Cuts(c, s, fb, now) <==> Congested(fb) && !heldOff
    ensures var s', acked := Feedback(c, s, fb, now), fb.bytesAcked as real;
            && (if Cuts(c, s, fb, now) then
                  s'.cwnd == s'.ssthresh == MaxReal(0.85 * s.cwnd, 2920.0) && s'.lastDecrease == Some(now)
                else s'.cwnd >= s.cwnd && s'.lastDecrease == s.lastDecrease)
            && (s.phase == SlowStart ==>
                && s'.cwnd <= s.cwnd + 8.0 * acked
                && (s'.phase == SlowStart <==>
                    !Congested(fb) && s.cwnd + 8.0 * acked < 2500000.0 && fb.queueDelay <= 0.010))
            && (s.phase == SteadyState ==>
                && s'.phase == SteadyState && s'.cwnd <= s.cwnd + MaxReal(1460.0, acked / 2.0)
                && (!Congested(fb) && acked > 0.0 ==> s'.cwnd >= MinReal(s.cwnd + 1460.0, 2500000.0))
                && (!Congested(fb) && s'.cwnd < 2500000.0 ==> SteadyGrowth(s.cwnd, s'.cwnd - s.cwnd, acked)))
  {
    hide LossFraction, TargetOf;
    SmoothedStaysValid(s.srtt, fb.rtt);
    HalfAtMost(fb.bytesAcked as real, s.cwnd);
    StepIsSteadyGrowth(s.cwnd, fb.bytesAcked);
  }

  /** By numbers: 20 ms of queue or 2 percent of loss. */
  lemma CongestedExactly(fb: Stats)
    ensures Congested(fb) <==> fb.queueDelay >= 0.020 || LossFraction(fb) >= 0.02
  {
  }

  // ---- Whole runs ----

  function Run(c: Config, reports: seq<Report>): (s: Controller)
    ensures s.cwnd >= MIN_CWND
  {
    if reports == [] then Initial(c)
    else
      var last := reports[|reports| - 1];
      Feedback(c, Run(c, reports[..|reports| - 1]), last.fb, last.now)
  }

  lemma {:induction false} RunIsSane(c: Config, reports: seq<Report>)
    requires ValidConfig(c)
    ensures Sane(c, Run(c, reports))
  {
    if reports != [] {
      var last := reports[|reports| - 1];
      RunIsSane(c, reports[..|reports| - 1]);
      FeedbackIsSane(c, Run(c, reports[..|reports| - 1]), last.fb, last.now);
    }
  }

  predicate CutAt(c: Config, reports: seq<Report>, i: nat)
    requires i < |reports|
  {
    Cuts(c, Run(c, reports[..i]), reports[i].fb, reports[i].now)
  }

  function ClockOf(s: Controller): Clock { Clock(s.lastFeedback, s.lastDecrease, s.srtt) }

  lemma FeedbackTicks(c: Config, s: Controller, fb: Stats, now: real)
    requires Sane(c, s)
    ensures Ticks(ClockOf(s), now, ClockOf(Feedback(c, s, fb, now)))
    ensures Cuts(c, s, fb, now) <==> CutsBetween(ClockOf(s), now, ClockOf(Feedback(c, s, fb, now)))
  {
    hide Congested, TargetOf, Smoothed, SteadyStep;
    SmoothedStaysValid(s.srtt, fb.rtt);
  }

  /** Any two cuts of a run, restarts between them or not, are at least one smoothed RTT apart. */
  lemma CutsAreSpaced(c: Config, reports: seq<Report>, i: nat, j: nat)
    requires ValidConfig(c) && i < j < |reports| && CutAt(c, reports, i) && CutAt(c, reports, j)
    ensures reports[j].now - reports[i].now >= Run(c, reports[..j + 1]).srtt >= MIN_RTT
  {
    hide Feedback, Cuts, Ticks, CutsBetween;
    var trace := seq(|reports| + 1, k requires 0 <= k <= |reports| => ClockOf(Run(c, reports[..k])));
    var times := seq(|reports|, k requires 0 <= k < |reports| => reports[k].now);
    forall k | 0 <= k < |reports|
      ensures Ticks(trace[k], times[k], trace[k + 1])
      ensures CutAt(c, reports, k) <==> CutsBetween(trace[k], times[k], trace[k + 1])
    {
      assert reports[..k + 1][..k] == reports[..k];
      RunIsSane(c, reports[..k]);
      FeedbackTicks(c, Run(c, reports[..k]), reports[k].fb, reports[k].now);
    }
    RunIsSane(c, reports[..j + 1]);
    CutsInTraceAreSpaced(trace, times, i, j);
  }

  /** The bytes acknowledged by the regular reports since the start or the last restart. */
  function AckedSinceRestart(reports: seq<Report>): nat {
    if reports == [] then 0
    else
      var k := |reports| - 1;
      match LastTiming(reports)
      case Ignored => AckedSinceRestart(reports[..k])
      case Restart => 0
      case Regular => AckedSinceRestart(reports[..k]) + reports[k].fb.bytesAcked
  }

  /**
   * Slow start loses nothing and is never cut: while it lasts, the window is the initial one plus eight times
   * every acknowledged byte since the last restart, however the reports arrived.
   */
  lemma {:induction false} SlowStartIsExact(c: Config, reports: seq<Report>)
    requires ValidConfig(c)
    ensures Run(c, reports).lastFeedback == LastAccepted(reports)
    ensures var s := Run(c, reports);
            s.phase == SlowStart ==> s.cwnd == InitialCwnd(c) + 8.0 * AckedSinceRestart(reports) as real
  {
    if reports != [] {
      hide LossFraction, TargetOf, Smoothed, SteadyStep, InitialCwnd;
      var k := |reports| - 1;
      SlowStartIsExact(c, reports[..k]);
      RunIsSane(c, reports[..k]);
    }
  }

  // ---- The target by the window ----

  lemma Quotient(cwnd: real, srtt: real, n: int)
    requires srtt > 0.0
    ensures n as real <= cwnd * 8.0 / srtt <==> n as real * srtt <= 8.0 * cwnd
  {
    var q := cwnd * 8.0 / srtt;
    assert q * srtt == 8.0 * cwnd;
    assert (q - n as real) * srtt == 8.0 * cwnd - n as real * srtt;
  }

  /** A window of bytes each smoothed RTT, as whole bits per second between the bounds. */
  ghost predicate TargetFitsWindow(c: Config, s: Controller) {
    && c.minBitrate <= s.target <= c.maxBitrate
    && (s.target > c.minBitrate ==> s.target as real * s.srtt <= 8.0 * s.cwnd)
    && (s.target < c.maxBitrate ==> 8.0 * s.cwnd < (s.target + 1) as real * s.srtt)
  }

  lemma DerivedFits(c: Config, s: Controller)
    requires ValidConfig(c) && ValidSrtt(s.srtt)
    ensures TargetFitsWindow(c, Derived(c, s))
  {
    var target: int := Derived(c, s).target;
    Quotient(s.cwnd, s.srtt, target);
    Quotient(s.cwnd, s.srtt, target + 1);
  }

  /** After any run with a report. */
  lemma TargetFollowsWindow(c: Config, reports: seq<Report>)
    requires ValidConfig(c) && Run(c, reports).lastFeedback.Some?
    ensures TargetFitsWindow(c, Run(c, reports))
  {
    hide Derived, TargetFitsWindow;
    RunIsSane(c, reports);
    DerivedFits(c, Run(c, reports));
  }

  /** The window that carries the initial bitrate over the initial RTT, between two segments and 2.5 MB. */
  lemma InitialWindow(c: Config)
    ensures var bits := c.initialBitrate as real * ClampRtt(c.initialRtt);
            && (bits <= 23360.0 ==> InitialCwnd(c) == 2920.0)
            && (bits >= 20000000.0 ==> InitialCwnd(c) == 2500000.0)
            && (23360.0 <= bits <= 20000000.0 ==> 8.0 * InitialCwnd(c) == bits)
  {
  }

  /** So a first report that confirms the initial RTT gives back the initial bitrate, when nothing is clamped. */
  lemma FirstReportKeepsInitialBitrate(c: Config, fb: Stats, now: real)
    requires c.minBitrate <= c.initialBitrate <= c.maxBitrate && 0.0001 <= c.initialRtt <= 10.0
    requires 23360.0 <= c.initialBitrate as real * c.initialRtt <= 20000000.0
    requires fb.rtt == c.initialRtt && fb.bytesAcked == 0 && !Congested(fb)
    ensures Run(c, [Report(fb, now)]).target == c.initialBitrate
  {
    hide Congested, InitialCwnd, Derived;
    InitialWindow(c);
    FirstReport(c, fb, now);
    var s := Run(c, [Report(fb, now)]);
    FullWindow(c.initialBitrate, c.initialRtt, s.cwnd);
    TargetAt(c, s);
  }

  lemma FirstReport(c: Config, fb: Stats, now: real)
    requires fb.rtt == c.initialRtt > 0.0 && fb.bytesAcked == 0 && !Congested(fb)
    ensures var s := Run(c, [Report(fb, now)]);
            s == Derived(c, s) && s.srtt == ClampRtt(c.initialRtt) && s.cwnd == InitialCwnd(c)
  {
    hide Congested, TargetOf, SteadyStep, Decreased;
    assert [Report(fb, now)][..0] == [];
  }

  lemma TargetAt(c: Config, s: Controller)
    requires c.minBitrate <= c.initialBitrate <= c.maxBitrate && 0.0001 <= s.srtt
    requires s.cwnd * 8.0 / s.srtt == c.initialBitrate as real
    ensures Derived(c, s).target == c.initialBitrate
  {
  }

  lemma FullWindow(bitrate: u64, rtt: real, cwnd: real)
    requires rtt > 0.0 && 8.0 * cwnd == bitrate as real * rtt
    ensures cwnd * 8.0 / rtt == bitrate as real
  {
    var q := cwnd * 8.0 / rtt;
    assert (q - bitrate as real) * rtt == 0.0;
  }

  // ---- Restarts ----

  /** The first report after more than 30 s leaves the initial window and threshold, whatever came before. */
  lemma RestartResets(c: Config, past: seq<Report>, r: Report)
    requires LongGap(past, r)
    ensures var s := Run(c, past + [r]);
            && s.phase == SlowStart && s.lastDecrease == None && s.lastFeedback == Some(r.now)
            && s.cwnd == InitialCwnd(c) && s.ssthresh == 2500000.0 && s.srtt == ClampRtt(c.initialRtt)
  {
    hide InitialCwnd, Increased, Decreased;
    LastFeedbackIsLastAccepted(c, past);
    assert (past + [r])[..|past|] == past;
  }

  lemma {:induction false} LastFeedbackIsLastAccepted(c: Config, reports: seq<Report>)
    ensures Run(c, reports).lastFeedback == LastAccepted(reports)
  {
    if reports != [] {
      hide Congested, SteadyStep, InitialCwnd, TargetOf, Smoothed;
      LastFeedbackIsLastAccepted(c, reports[..|reports| - 1]);
    }
  }

  /** And so a restart forgets: two runs that share what came from such a report on end in the same state. */
  lemma {:induction false} RestartForgets(c: Config, a: seq<Report>, b: seq<Report>, r: Report, rest: seq<Report>)
    requires LongGap(a, r) && LongGap(b, r)
    ensures Run(c, a + [r] + rest) == Run(c, b + [r] + rest)
    decreases |rest|
  {
    hide Increased, Decreased, Congested, InitialCwnd, TargetOf;
    if rest == [] {
      LastFeedbackIsLastAccepted(c, a);
      LastFeedbackIsLastAccepted(c, b);
      assert (a + [r] + rest)[..|a|] == a && (b + [r] + rest)[..|b|] == b;
    } else {
      hide Feedback;
      var front, last := rest[..|rest| - 1], rest[|rest| - 1];
      RestartForgets(c, a, b, r, front);
      assert (a + [r] + rest)[..|a + [r] + rest| - 1] == a + [r] + front;
      assert (b + [r] + rest)[..|b + [r] + rest| - 1] == b + [r] + front;
    }
  }
}
