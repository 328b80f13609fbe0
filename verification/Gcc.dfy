/** The delay-and-loss based controller for the WebRTC path. */
module Gcc {
  import opened Arith
  import opened Wire
  import opened Congestion

  const OVERUSE_THRESHOLD := 0.025
  const UNDERUSE_THRESHOLD := 0.010
  const LOSS_HIGH_THRESHOLD := 0.10
  const LOSS_LOW_THRESHOLD := 0.02
  const BETA_DECREASE := 0.85
  const AIMD_INCREASE_BPS := 8000.0
  const AIMD_HEADROOM_FRACTION := 0.5
  const MULTIPLICATIVE_INCREASE := 1.08

  datatype Phase = Hold | Increase | Decrease

  /** `anchor` is the last known operating point: the estimate just before the cut that recorded it. */
  datatype Controller = Controller(
    phase: Phase, srtt: real, lastFeedback: Option<real>, lastDecrease: Option<real>,
    estimate: real, target: u64, anchor: Option<real>)

  function Initial(c: Config): Controller {
    Controller(Hold, ClampRtt(c.initialRtt), None, None,
               ClampBitrate(c, c.initialBitrate) as real, ClampBitrate(c, c.initialBitrate), None)
  }

  // ---- One feedback ----

  function NextPhase(phase: Phase, queueDelay: real): Phase {
    if queueDelay > OVERUSE_THRESHOLD then Decrease
    else if queueDelay < UNDERUSE_THRESHOLD then
      match phase case Decrease => Hold case Hold => Increase case Increase => Increase
    else phase
  }

  function AckedThroughput(fb: Stats): real {
    if fb.interval > 0.0 then fb.bytesAcked as real * 8.0 / fb.interval else 0.0
  }

  function Increased(c: Config, estimate: real, anchor: Option<real>): real {
    match anchor
    case Some(a) =>
      if estimate >= 0.9 * a then
        estimate + MaxReal(MinReal(AIMD_INCREASE_BPS, MaxReal(a - estimate, 0.0) * AIMD_HEADROOM_FRACTION), 1.0)
      else estimate * MULTIPLICATIVE_INCREASE
    case None =>
      if estimate < 0.9 * c.maxBitrate as real then estimate * MULTIPLICATIVE_INCREASE
      else estimate + AIMD_INCREASE_BPS
  }

  /** The delay path: what the phase does to the estimate and the anchor. */
  function AfterDelay(c: Config, g: Controller, loss: real, acked: real, now: real): Controller {
    match g.phase
    case Hold => g
    case Decrease =>
      if CutSuppressed(g.lastDecrease, g.srtt, now) then g
      else g.(anchor := if g.estimate > acked then Some(g.estimate) else g.anchor,
              estimate := g.estimate * BETA_DECREASE,
              lastDecrease := Some(now))
    case Increase =>
      var anchor := if g.anchor.Some? && loss <= LOSS_LOW_THRESHOLD && acked > g.anchor.value then None else g.anchor;
      g.(anchor := anchor, estimate := Increased(c, g.estimate, anchor))
  }

  /** The loss path, relative to the estimate `before` the delay path ran. */
  function AfterLoss(g: Controller, before: real, loss: real, now: real): Controller {
    if loss > LOSS_HIGH_THRESHOLD then
      if !CutSuppressed(g.lastDecrease, g.srtt, now) && before * BETA_DECREASE < g.estimate then
        g.(anchor := Some(before), estimate := before * BETA_DECREASE, lastDecrease := Some(now))
      else g
    else if loss > LOSS_LOW_THRESHOLD && g.estimate > before then g.(estimate := before)
    else g
  }

  function Observed(g: Controller, fb: Stats, now: real): Controller {
    g.(lastFeedback := Some(now), srtt := Smoothed(g.srtt, fb.rtt),
       phase := NextPhase(g.phase, MinReal(fb.queueDelay, MAX_QUEUE_DELAY)))
  }

  function Feedback(c: Config, g: Controller, fb: Stats, now: real): Controller {
    match TimingOf(g.lastFeedback, now)
    case Ignored => g
    case Restart => Initial(c).(lastFeedback := Some(now))
    case Regular =>
      var loss := LossFraction(fb);
      var delayed := AfterDelay(c, Observed(g, fb, now), loss, AckedThroughput(fb), now);
      var final := AfterLoss(delayed, g.estimate, loss, now);
      final.(target := TargetOf(c, final.estimate))
  }

  class GccController {
    const config: Config
    var phase: Phase
    var srtt: real
    var lastFeedback: Option<real>
    var lastDecrease: Option<real>
    var estimate: real
    var target: u64
    var anchor: Option<real>

    ghost function State(): Controller
      reads this
    {
      Controller(phase, srtt, lastFeedback, lastDecrease, estimate, target, anchor)
    }

    constructor (config: Config)
      ensures this.config == config && State() == Initial(config)
    {
      this.config := config;
      var initial := ClampBitrate(config, config.initialBitrate);
      phase, srtt := Hold, ClampRtt(config.initialRtt);
      lastFeedback, lastDecrease, anchor := None, None, None;
      estimate, target := initial as real, initial;
    }

    method ColdRestart()
      modifies this
      ensures State() == Initial(config).(lastFeedback := old(lastFeedback))
    {
      var initial := ClampBitrate(config, config.initialBitrate);
      estimate := initial as real;
      srtt := ClampRtt(config.initialRtt);
      phase := Hold;
      lastDecrease, anchor := None, None;
      target := initial;
    }

    method OnFeedback(fb: Stats, now: real)
      modifies this
      ensures State() == Feedback(config, old(State()), fb, now)
    {
      if lastFeedback.Some? {
        if now < lastFeedback.value || now - lastFeedback.value < MIN_UPDATE_INTERVAL {
          return;
        }
        if now - lastFeedback.value > MAX_UPDATE_INTERVAL {
          lastFeedback := Some(now);
          ColdRestart();
          return;
        }
      }
      lastFeedback := Some(now);
      if fb.rtt > 0.0 {
        srtt := 0.875 * srtt + 0.125 * ClampRtt(fb.rtt);
      }
      var queueDelay := MinReal(fb.queueDelay, MAX_QUEUE_DELAY);
      var loss := LossFraction(fb);
      var acked := AckedThroughput(fb);
      phase := NextPhase(phase, queueDelay);
      var before := estimate;
      DelayPath(loss, acked, now);
      LossPath(before, loss, now);
      target := TargetOf(config, estimate);
    }

    method DelayPath(loss: real, acked: real, now: real)
      modifies this`anchor, this`estimate, this`lastDecrease
      ensures State() == AfterDelay(config, old(State()), loss, acked, now)
    {
      match phase {
        case Decrease =>
          if !CutSuppressed(lastDecrease, srtt, now) {
            if estimate > acked {
              anchor := Some(estimate);
            }
            estimate := estimate * BETA_DECREASE;
            lastDecrease := Some(now);
          }
        case Hold =>
        case Increase =>
          if anchor.Some? && loss <= LOSS_LOW_THRESHOLD && acked > anchor.value {
            anchor := None;
          }
          if anchor.Some? {
            if estimate >= 0.9 * anchor.value {
              var headroom := MaxReal(anchor.value - estimate, 0.0);
              var step := MaxReal(MinReal(AIMD_INCREASE_BPS, headroom * AIMD_HEADROOM_FRACTION), 1.0);
              estimate := estimate + step;
            } else {
              estimate := estimate * MULTIPLICATIVE_INCREASE;
            }
          } else {
            var cap := config.maxBitrate as real;
            if estimate < 0.9 * cap {
              estimate := estimate * MULTIPLICATIVE_INCREASE;
            } else {
              estimate := estimate + AIMD_INCREASE_BPS;
            }
          }
      }
    }

    method LossPath(before: real, loss: real, now: real)
      modifies this`anchor, this`estimate, this`lastDecrease
      ensures State() == AfterLoss(old(State()), before, loss, now)
    {
      if loss > LOSS_HIGH_THRESHOLD {
        if !CutSuppressed(lastDecrease, srtt, now) {
          var cut := before * BETA_DECREASE;
          if cut < estimate {
            anchor := Some(before);
            estimate := cut;
            lastDecrease := Some(now);
          }
        }
      } else if loss > LOSS_LOW_THRESHOLD {
        if estimate > before {
          estimate := before;
        }
      }
    }
  }

  // ---- What one feedback can do ----

  ghost predicate Sane(c: Config, g: Controller) {
    && ValidSrtt(g.srtt) && g.estimate >= 0.0
    && g.target == TargetOf(c, g.estimate)
    && (g.anchor.Some? ==> g.anchor.value >= 0.0)
  }

  predicate IsRegular(g: Controller, now: real) { TimingOf(g.lastFeedback, now) == Regular }

  /** A report cuts the estimate when it moves the time of the last decrease. */
  predicate Cuts(c: Config, g: Controller, fb: Stats, now: real) {
    IsRegular(g, now) && Feedback(c, g, fb, now).lastDecrease != g.lastDecrease
  }

  /** Whether a cut is still held off when the report `fb` has been folded into the smoothed RTT. */
  predicate HeldOff(g: Controller, fb: Stats, now: real) {
    CutSuppressed(g.lastDecrease, Smoothed(g.srtt, fb.rtt), now)
  }

  lemma FeedbackIsSane(c: Config, g: Controller, fb: Stats, now: real)
    requires ValidConfig(c) && Sane(c, g)
    ensures Sane(c, Feedback(c, g, fb, now))
  {
    hide LossFraction, AckedThroughput, NextPhase;
    SmoothedStaysValid(g.srtt, fb.rtt);
  }

  /**
   * One report takes off exactly 15 percent or nothing, so the delay cut and the loss cut never both apply,
   * and what it adds is at least the smaller of 8 percent and 1 bit per second and at most the larger of 8
   * percent and 8000.
   */
  lemma EstimateMovesSlowly(c: Config, g: Controller, fb: Stats, now: real)
    requires Sane(c, g) && IsRegular(g, now)
    ensures var e, e' := g.estimate, Feedback(c, g, fb, now).estimate;
            && e' <= MaxReal(1.08 * e, e + 8000.0)
            && if Cuts(c, g, fb, now) then e' == 0.85 * e else e' == e || e' >= MinReal(1.08 * e, e + 1.0)
    ensures var t := Feedback(c, g, fb, now).lastDecrease; t == g.lastDecrease || t == Some(now)
  {
    hide LossFraction, AckedThroughput, NextPhase, TargetOf, Smoothed;
    SmoothedStaysValid(g.srtt, fb.rtt);
  }

  /**
   * Exactly when a positive estimate falls and exactly when it grows. Loss between 2 and 10 percent freezes it;
   * loss above 10 percent does not, while the previous cut still holds the next one off.
   */
  lemma WhenTheEstimateMoves(c: Config, g: Controller, fb: Stats, now: real)
    requires Sane(c, g) && IsRegular(g, now) && g.estimate > 0.0
    ensures var phase, loss := Observed(g, fb, now).phase, LossFraction(fb);
            var e' := Feedback(c, g, fb, now).estimate;
            && (e' < g.estimate <==> !HeldOff(g, fb, now) && (phase == Decrease || loss > 0.10))
            && (e' > g.estimate <==>
                phase == Increase
                && (loss <= 0.02 || (loss > 0.10 && HeldOff(g, fb, now))))
  {
    hide LossFraction, AckedThroughput, NextPhase, TargetOf, Smoothed;
    SmoothedStaysValid(g.srtt, fb.rtt);
  }

  /**
   * The anchor is meant to lie above the rate the network delivered. After a cut it does exactly when the
   * estimate exceeded that rate, or the cut came from the delay path and no anchor at or below it stood.
   */
  lemma AnchorAboveDelivered(c: Config, g: Controller, fb: Stats, now: real)
    requires Sane(c, g) && Cuts(c, g, fb, now)
    ensures var anchor, acked := Feedback(c, g, fb, now).anchor, AckedThroughput(fb);
            (anchor.Some? ==> anchor.value > acked) <==>
            (g.estimate > acked
             || (Observed(g, fb, now).phase == Decrease && (g.anchor.Some? ==> g.anchor.value > acked)))
  {
    hide LossFraction, AckedThroughput, NextPhase, TargetOf, Smoothed;
    SmoothedStaysValid(g.srtt, fb.rtt);
  }

  /** Two reports: heavy loss at full delivery records a low anchor, and the next calm report discards it. */
  lemma LossAnchorIsDiscarded()
    ensures var c := Config(100_000, 10_000_000, 1_000_000, 0.05);
            var lossy := Stats(0.05, 0.0, 25_000, 0, 64, 0.1);
            var calm := Stats(0.05, 0.0, 25_000, 0, 0, 0.1);
            var cut := Feedback(c, Initial(c), lossy, 0.0);
            var next := Feedback(c, cut, calm, 0.1);
            && cut.anchor == Some(1_000_000.0) && AckedThroughput(lossy) == 2_000_000.0
            && cut.estimate == 850_000.0 && next.anchor == None && next.estimate == 918_000.0
  {
  }

  /** Two reports: heavy loss at full delivery records a low anchor, and a cut of the delay path leaves it there. */
  lemma LossAnchorOutlivesADelayCut()
    ensures var c := Config(100_000, 10_000_000, 1_000_000, 0.05);
            var lossy := Stats(0.05, 0.0, 25_000, 0, 64, 0.1);
            var queued := Stats(0.05, 0.03, 25_000, 0, 0, 0.1);
            var cut := Feedback(c, Initial(c), lossy, 0.0);
            && Cuts(c, cut, queued, 0.1) && Observed(cut, queued, 0.1).phase == Decrease
            && Feedback(c, cut, queued, 0.1).anchor == Some(1_000_000.0) && AckedThroughput(queued) == 2_000_000.0
  {
  }

  /** Three reports: heavy loss cuts the estimate, and while that cut holds off the next, heavy loss lets it grow. */
  lemma GrowthUnderHeavyLoss()
    ensures var c := Config(100_000, 10_000_000, 1_000_000, 0.05);
            var calm := Stats(0.05, 0.0, 25_000, 0, 0, 0.1);
            var lossy := Stats(0.05, 0.0, 1_000, 0, 64, 0.1);
            var g1 := Feedback(c, Initial(c), calm, 0.0);
            var g2 := Feedback(c, g1, lossy, 0.1);
            var g3 := Feedback(c, g2, lossy, 0.12);
            && Cuts(c, g1, lossy, 0.1) && HeldOff(g2, lossy, 0.12)
            && LossFraction(lossy) == 0.25 && g3.estimate > g2.estimate
  {
  }

  // ---- Whole runs ----

  function Run(c: Config, reports: seq<Report>): Controller {
    if reports == [] then Initial(c)
    else
      var last := reports[|reports| - 1];
      Feedback(c, Run(c, reports[..|reports| - 1]), last.fb, last.now)
  }

  /**
   * Calm reports (below 10 ms of queue) since the last one of overuse (above 25 ms), by the history alone; a
   * start or a restart stands for one.
   */
  function CalmReports(reports: seq<Report>): nat {
    if reports == [] then 1
    else
      var before, r := CalmReports(reports[..|reports| - 1]), reports[|reports| - 1];
      match LastTiming(reports)
      case Ignored => before
      case Restart => 1
      case Regular =>
        if r.fb.queueDelay > 0.025 then 0
        else if r.fb.queueDelay < 0.010 then before + 1
        else before
  }

  /** Overuse ends growth at once, and it takes two calm reports to come back to it. */
  lemma {:induction false} PhaseIsHistory(c: Config, reports: seq<Report>)
    ensures Run(c, reports).lastFeedback == LastAccepted(reports)
    ensures var calm := CalmReports(reports);
            Run(c, reports).phase == if calm == 0 then Decrease else if calm == 1 then Hold else Increase
  {
    if reports != [] {
      hide LossFraction, AckedThroughput, TargetOf, Smoothed, CutSuppressed, Increased;
      PhaseIsHistory(c, reports[..|reports| - 1]);
    }
  }

  lemma {:induction false} RunIsSane(c: Config, reports: seq<Report>)
    requires ValidConfig(c)
    ensures Sane(c, Run(c, reports))
  {
    if reports != [] {
      var last := reports[|reports| - 1];
      RunIsSane(c, reports[..|reports| - 1]);
      FeedbackIsSane(c, Run(c, reports[..|reports| - 1]), last.fb, last.now);
    }
  }

  /** Report `i` of a run cut the estimate. */
  predicate CutAt(c: Config, reports: seq<Report>, i: nat)
    requires i < |reports|
  {
    Cuts(c, Run(c, reports[..i]), reports[i].fb, reports[i].now)
  }

  function ClockOf(g: Controller): Clock { Clock(g.lastFeedback, g.lastDecrease, g.srtt) }

  lemma FeedbackTicks(c: Config, g: Controller, fb: Stats, now: real)
    requires Sane(c, g)
    ensures Ticks(ClockOf(g), now, ClockOf(Feedback(c, g, fb, now)))
    ensures Cuts(c, g, fb, now) <==> CutsBetween(ClockOf(g), now, ClockOf(Feedback(c, g, fb, now)))
  {
    hide LossFraction, AckedThroughput, NextPhase, TargetOf, Smoothed, Increased;
    SmoothedStaysValid(g.srtt, fb.rtt);
  }

  /** Any two cuts of a run, restarts between them or not, are at least one smoothed RTT apart. */
  lemma CutsAreSpaced(c: Config, reports: seq<Report>, i: nat, j: nat)
    requires ValidConfig(c) && i < j < |reports| && CutAt(c, reports, i) && CutAt(c, reports, j)
    ensures reports[j].now - reports[i].now >= Run(c, reports[..j + 1]).srtt >= MIN_RTT
  {
    hide Feedback, Cuts, Ticks, CutsBetween;
    var trace := seq(|reports| + 1, k requires 0 <= k <= |reports| => ClockOf(Run(c, reports[..k])));
    var times := seq(|reports|, k requires 0 <= k < |reports| => reports[k].now);
    forall k | 0 <= k < |reports|
      ensures Ticks(trace[k], times[k], trace[k + 1])
      ensures CutAt(c, reports, k) <==> CutsBetween(trace[k], times[k], trace[k + 1])
    {
      assert reports[..k + 1][..k] == reports[..k];
      RunIsSane(c, reports[..k]);
      FeedbackTicks(c, Run(c, reports[..k]), reports[k].fb, reports[k].now);
    }
    RunIsSane(c, reports[..j + 1]);
    CutsInTraceAreSpaced(trace, times, i, j);
  }

  /** How many reports have come in since the one whose cut recorded the present anchor. */
  function SinceAnchor(c: Config, reports: seq<Report>): nat {
    if reports == [] then 0
    else
      var k := |reports| - 1;
      if CutAt(c, reports, k) && Run(c, reports).anchor == Some(Run(c, reports[..k]).estimate) then 0
      else SinceAnchor(c, reports[..k]) + 1
  }

  ghost predicate NearAnchor(g: Controller, n: nat) {
    g.anchor.Some? ==> g.estimate <= g.anchor.value + n as real
  }

  lemma StepStaysNearAnchor(c: Config, g: Controller, fb: Stats, now: real, n: nat)
    requires Sane(c, g) && NearAnchor(g, n)
    ensures var g' := Feedback(c, g, fb, now);
            && NearAnchor(g', n + 1)
            && (Cuts(c, g, fb, now) && g'.anchor == Some(g.estimate) ==> NearAnchor(g', 0))
  {
    hide LossFraction, AckedThroughput, NextPhase, TargetOf, Smoothed, CutSuppressed;
    if IsRegular(g, now) {
      EstimateMovesSlowly(c, g, fb, now);
    }
  }

  /** While an anchor stands, the estimate exceeds it by at most one bit per second per report. */
  lemma {:induction false} OvershootIsBounded(c: Config, reports: seq<Report>)
    requires ValidConfig(c)
    ensures NearAnchor(Run(c, reports), SinceAnchor(c, reports))
  {
    if reports != [] {
      hide Feedback, NearAnchor, Cuts, Sane, Initial;
      var k := |reports| - 1;
      OvershootIsBounded(c, reports[..k]);
      RunIsSane(c, reports[..k]);
      StepStaysNearAnchor(c, Run(c, reports[..k]), reports[k].fb, reports[k].now, SinceAnchor(c, reports[..k]));
    }
  }

  // ---- Restarts ----

  lemma {:induction false} LastFeedbackIsLastAccepted(c: Config, reports: seq<Report>)
    ensures Run(c, reports).lastFeedback == LastAccepted(reports)
  {
    PhaseIsHistory(c, reports);
  }

  /** The first report after more than 30 s leaves the initial values, whatever came before. */
  lemma RestartResets(c: Config, past: seq<Report>, r: Report)
    requires ValidConfig(c) && LongGap(past, r)
    ensures var g := Run(c, past + [r]);
            && g.phase == Hold && g.anchor == None && g.lastDecrease == None && g.lastFeedback == Some(r.now)
            && g.estimate == g.target as real
            && (c.initialBitrate <= c.minBitrate ==> g.target == c.minBitrate)
            && (c.initialBitrate >= c.maxBitrate ==> g.target == c.maxBitrate)
            && (c.minBitrate <= c.initialBitrate <= c.maxBitrate ==> g.target == c.initialBitrate)
            && g.srtt == if c.initialRtt < 0.0001 then 0.0001 else if c.initialRtt <= 10.0 then c.initialRtt else 10.0
  {
    hide AfterDelay, AfterLoss, Observed;
    LastFeedbackIsLastAccepted(c, past);
    assert (past + [r])[..|past|] == past;
  }

  /** And so a restart forgets: two runs that share what came from such a report on end in the same state. */
  lemma {:induction false} RestartForgets(c: Config, a: seq<Report>, b: seq<Report>, r: Report, rest: seq<Report>)
    requires LongGap(a, r) && LongGap(b, r)
    ensures Run(c, a + [r] + rest) == Run(c, b + [r] + rest)
    decreases |rest|
  {
    hide AfterDelay, AfterLoss, Observed;
    if rest == [] {
      LastFeedbackIsLastAccepted(c, a);
      LastFeedbackIsLastAccepted(c, b);
      assert (a + [r] + rest)[..|a|] == a && (b + [r] + rest)[..|b|] == b;
    } else {
      hide Feedback;
      var front, last := rest[..|rest| - 1], rest[|rest| - 1];
      RestartForgets(c, a, b, r, front);
      assert (a + [r] + rest)[..|a + [r] + rest| - 1] == a + [r] + front;
      assert (b + [r] + rest)[..|b + [r] + rest| - 1] == b + [r] + front;
    }
  }

  // ---- Growth by numbers ----

  /**
   * What a growing report adds. From 90 percent of the anchor on it is half the way to it, at least 1 and at most
   * 8000; below that 8 percent. Without an anchor, or with one the delivered rate has passed, it is 8 percent up
   * to 90 percent of the maximum, and 8000 from there.
   */
  lemma GrowthExactly(c: Config, g: Controller, fb: Stats, now: real)
    requires Sane(c, g) && IsRegular(g, now) && Observed(g, fb, now).phase == Increase && LossFraction(fb) <= 0.02
    ensures var e, e' := g.estimate, Feedback(c, g, fb, now).estimate;
            if g.anchor.Some? && AckedThroughput(fb) <= g.anchor.value then
              var a := g.anchor.value;
              && Feedback(c, g, fb, now).anchor == g.anchor
              && (10.0 * e < 9.0 * a ==> 100.0 * e' == 108.0 * e)
              && (10.0 * e >= 9.0 * a && a - e >= 16000.0 ==> e' == e + 8000.0)
              && (10.0 * e >= 9.0 * a && 2.0 <= a - e <= 16000.0 ==> 2.0 * e' == e + a)
              && (10.0 * e >= 9.0 * a && a - e <= 2.0 ==> e' == e + 1.0)
            else
              && Feedback(c, g, fb, now).anchor == None
              && (10.0 * e < 9.0 * c.maxBitrate as real ==> 100.0 * e' == 108.0 * e)
              && (10.0 * e >= 9.0 * c.maxBitrate as real ==> e' == e + 8000.0)
  {
    hide LossFraction, AckedThroughput, NextPhase, TargetOf, Smoothed, CutSuppressed;
  }

  /** The delivered rate of a report: bits acknowledged over its interval. */
  lemma DeliveredRate(fb: Stats)
    ensures fb.interval > 0.0 ==> AckedThroughput(fb) * fb.interval == 8.0 * fb.bytesAcked as real
    ensures fb.interval <= 0.0 ==> AckedThroughput(fb) == 0.0
  {
  }
}
