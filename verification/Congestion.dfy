/** What the two congestion controllers share: feedback reports, clamping, bitrates. Times are in seconds. */
module Congestion {
  import opened Arith
  import opened Wire

  const MIN_RTT := 0.0001
  const MAX_RTT := 10.0
  const MAX_QUEUE_DELAY := 2.0
  const MIN_UPDATE_INTERVAL := 0.001
  const MAX_UPDATE_INTERVAL := 30.0

  datatype Stats = Stats(
    rtt: real, queueDelay: real, bytesAcked: u32, bytesLost: u32, lossQ8: u8, interval: real)

  datatype Report = Report(fb: Stats, now: real)

  /** Bitrates are whole bits per second. */
  datatype Config = Config(minBitrate: u64, maxBitrate: u64, initialBitrate: u64, initialRtt: real)

  ghost predicate ValidConfig(c: Config) { c.minBitrate <= c.maxBitrate }

  function ClampReal(x: real, low: real, high: real): real { if x < low then low else if x > high then high else x }

  function ClampRtt(rtt: real): real { ClampReal(rtt, MIN_RTT, MAX_RTT) }

  function ClampBitrate(c: Config, n: int): u64 {
    if n < c.minBitrate then c.minBitrate else if n > c.maxBitrate then c.maxBitrate else n
  }

  /** The whole bitrate just below a rate within the bounds; the nearer bound for a rate outside them. */
  function TargetOf(c: Config, bps: real): (target: u64)
    ensures ValidConfig(c) ==> c.minBitrate <= target <= c.maxBitrate
    ensures c.minBitrate as real <= bps <= c.maxBitrate as real ==> target as real <= bps < target as real + 1.0
    ensures ValidConfig(c) && bps < c.minBitrate as real ==> target == c.minBitrate
    ensures bps > c.maxBitrate as real && ValidConfig(c) ==> target == c.maxBitrate
  {
    ClampBitrate(c, bps.Floor)
  }

  function LossFraction(fb: Stats): (loss: real)
    ensures 0.0 <= loss <= 1.0
  {
    if fb.lossQ8 > 0 then fb.lossQ8 as real / 256.0
    else if fb.bytesLost > 0 then
      MinReal(fb.bytesLost as real / (if fb.bytesAcked > 1 then fb.bytesAcked else 1) as real, 1.0)
    else 0.0
  }

  /** The explicit fraction if there is one, in 256ths; else lost over acknowledged bytes, all of them at most. */
  lemma LossExactly(fb: Stats)
    ensures fb.lossQ8 > 0 ==> LossFraction(fb) * 256.0 == fb.lossQ8 as real
    ensures fb.lossQ8 == 0 && fb.bytesLost == 0 ==> LossFraction(fb) == 0.0
    ensures fb.lossQ8 == 0 && fb.bytesLost > 0 ==>
              if fb.bytesLost >= fb.bytesAcked then LossFraction(fb) == 1.0
              else LossFraction(fb) * fb.bytesAcked as real == fb.bytesLost as real
  {
    var d := if fb.bytesAcked > 1 then fb.bytesAcked else 1;
    Ratio(fb.bytesLost as real, d as real, fb.bytesLost as real / d as real);
  }

  lemma Ratio(n: real, d: real, q: real)
    requires d > 0.0 && q == n / d
    ensures q * d == n && (n >= d <==> q >= 1.0)
  {
    assert (q - 1.0) * d == n - d;
  }

  function Smoothed(srtt: real, rtt: real): real {
    if rtt > 0.0 then 0.875 * srtt + 0.125 * ClampRtt(rtt) else srtt
  }

  predicate ValidSrtt(srtt: real) { MIN_RTT <= srtt <= MAX_RTT }

  /** Each RTT moves the smoothed one an eighth of the way, so it stays between the bounds. */
  lemma SmoothedStaysValid(srtt: real, rtt: real)
    requires ValidSrtt(srtt)
    ensures ValidSrtt(Smoothed(srtt, rtt)) && 0.0001 <= Smoothed(srtt, rtt) <= 10.0
    ensures rtt > 0.0 ==> 8.0 * (Smoothed(srtt, rtt) - srtt) == ClampRtt(rtt) - srtt
    ensures ClampRtt(rtt) == if rtt < 0.0001 then 0.0001 else if rtt <= 10.0 then rtt else 10.0
  {
  }

  /** How a report is treated, by the time since the last one. */
  datatype Timing = Ignored | Restart | Regular

  function TimingOf(last: Option<real>, now: real): Timing {
    if last.None? then Regular
    else if now < last.value || now - last.value < MIN_UPDATE_INTERVAL then Ignored
    else if now - last.value > MAX_UPDATE_INTERVAL then Restart
    else Regular
  }

  /** By numbers: ignored under 1 ms or before the last report, a restart after 30 s. */
  lemma TimingExactly(last: real, now: real)
    ensures TimingOf(Some(last), now) == Ignored <==> now < last + 0.001
    ensures TimingOf(Some(last), now) == Restart <==> now > last + 30.0
    ensures TimingOf(None, now) == Regular
  {
  }

  /** The time of the last report of a run that was not ignored. */
  function LastAccepted(reports: seq<Report>): Option<real> {
    if reports == [] then None
    else
      var before, now := LastAccepted(reports[..|reports| - 1]), reports[|reports| - 1].now;
      if TimingOf(before, now) == Ignored then before else Some(now)
  }

  /** How the last report of a run is treated. */
  function LastTiming(reports: seq<Report>): Timing
    requires reports != []
  {
    TimingOf(LastAccepted(reports[..|reports| - 1]), reports[|reports| - 1].now)
  }

  /** A cut is suppressed within one smoothed RTT of the previous one. */
  predicate CutSuppressed(lastDecrease: Option<real>, srtt: real, now: real) {
    lastDecrease.Some? && MaxReal(now - lastDecrease.value, 0.0) < MaxReal(srtt, MIN_RTT)
  }

  // ---- Spacing of cuts ----

  /** What is still known of a cut made at `t`: its time or a later one, or that a restart followed it. */
  ghost predicate Remembers(lastFeedback: Option<real>, lastDecrease: Option<real>, t: real) {
    && lastFeedback.Some? && lastFeedback.value >= t
    && ((lastDecrease.Some? && lastDecrease.value >= t) || lastFeedback.value > t + MAX_UPDATE_INTERVAL)
  }

  /** The hold-off lasts exactly one smoothed RTT from the last cut, also when the clock has gone back. */
  lemma HeldOffForOneRtt(lastDecrease: Option<real>, srtt: real, now: real)
    requires ValidSrtt(srtt)
    ensures CutSuppressed(lastDecrease, srtt, now) <==> lastDecrease.Some? && now < lastDecrease.value + srtt
  {
  }

  /** A cut that is not suppressed comes at least one smoothed RTT after any cut still remembered. */
  lemma UnsuppressedIsSpaced(last: Option<real>, lastDecrease: Option<real>, srtt: real, now: real, t: real)
    requires Remembers(last, lastDecrease, t) && ValidSrtt(srtt)
    requires TimingOf(last, now) == Regular && !CutSuppressed(lastDecrease, srtt, now)
    ensures now - t >= srtt
  {
  }

  /** The part of a controller that times its cuts. */
  datatype Clock = Clock(lastFeedback: Option<real>, lastDecrease: Option<real>, srtt: real)

  /** What a report at `now` may do to it: nothing, a restart, or a new reading with or without a cut. */
  ghost predicate Ticks(a: Clock, now: real, b: Clock) {
    && ValidSrtt(b.srtt)
    && match TimingOf(a.lastFeedback, now)
       case Ignored => b == a
       case Restart => b.lastFeedback == Some(now) && b.lastDecrease == None
       case Regular =>
         && b.lastFeedback == Some(now)
         && (b.lastDecrease == a.lastDecrease
             || (b.lastDecrease == Some(now) && !CutSuppressed(a.lastDecrease, b.srtt, now)))
  }

  ghost predicate CutsBetween(a: Clock, now: real, b: Clock) {
    TimingOf(a.lastFeedback, now) == Regular && b.lastDecrease != a.lastDecrease
  }

  lemma {:induction false} TraceRemembers(trace: seq<Clock>, times: seq<real>, i: nat, k: nat)
    requires i < k <= |times| && |trace| == |times| + 1
    requires forall n :: 0 <= n < |times| ==> Ticks(trace[n], times[n], trace[n + 1])
    requires CutsBetween(trace[i], times[i], trace[i + 1])
    ensures Remembers(trace[k].lastFeedback, trace[k].lastDecrease, times[i])
    decreases k
  {
    assert Ticks(trace[k - 1], times[k - 1], trace[k]);
    if i < k - 1 {
      TraceRemembers(trace, times, i, k - 1);
    }
  }

  /** Any two cuts of a trace, restarts between them or not, are at least one smoothed RTT apart. */
  lemma CutsInTraceAreSpaced(trace: seq<Clock>, times: seq<real>, i: nat, j: nat)
    requires i < j < |times| && |trace| == |times| + 1
    requires forall n :: 0 <= n < |times| ==> Ticks(trace[n], times[n], trace[n + 1])
    requires CutsBetween(trace[i], times[i], trace[i + 1]) && CutsBetween(trace[j], times[j], trace[j + 1])
    ensures times[j] - times[i] >= trace[j + 1].srtt
  {
    TraceRemembers(trace, times, i, j);
    assert Ticks(trace[j], times[j], trace[j + 1]);
    UnsuppressedIsSpaced(trace[j].lastFeedback, trace[j].lastDecrease, trace[j + 1].srtt, times[j], times[i]);
  }

  /** A report without an RTT leaves the smoothed RTT alone; reading it as the least RTT would not. */
  lemma ZeroRttIsNotLeastRtt(srtt: real)
    requires ValidSrtt(srtt)
    ensures Smoothed(srtt, 0.0) == srtt
    ensures Smoothed(srtt, 0.0) == Smoothed(srtt, MIN_RTT) <==> srtt == MIN_RTT
  {
  }

  // ---- Restarts ----

  /** A report that comes more than 30 s after the last accepted one of `past`. */
  ghost predicate LongGap(past: seq<Report>, r: Report) {
    LastAccepted(past).Some? && r.now > LastAccepted(past).value + 30.0
  }
}
