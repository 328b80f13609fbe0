/** The tiered loss-recovery decision and the rate limit on forced keyframes. Times are in nanoseconds. */
module LossRecovery {
  import opened Arith
  import opened Wire

  const MIN_RTT := 100_000
  const RTT_MID_BAND_LOW := 150_000_000
  const RTT_HIGH := 300_000_000
  const IDR_SUPPRESS_MIN := 500_000_000
  const MAX_KEYFRAME_AGE := 10_000_000_000
  const NACK_MAX_CONSECUTIVE_LOSS := 2
  const NACK_MAX_REQUESTS := 16
  const FEC_LOSS_THRESHOLD := 0.05
  const STALE_KEYFRAME_LOSS_THRESHOLD := 0.01

  datatype Action = NoAction | Nack(requests: seq<u16>) | RelyOnFec | ForcedIdr

  datatype LossState = LossState(
    rtt: nat, consecutiveLoss: nat, loss: real, frameGap: nat,
    keyframeAge: nat, fecRatio: real, missing: seq<u16>)

  function Clamp01(x: real): real { if x < 0.0 then 0.0 else if x > 1.0 then 1.0 else x }

  // ---- The decision ----

  predicate NackEligible(s: LossState) {
    && s.rtt < RTT_MID_BAND_LOW
    && s.consecutiveLoss <= NACK_MAX_CONSECUTIVE_LOSS
    && s.loss < FEC_LOSS_THRESHOLD
    && s.frameGap < 3
    && s.missing != []
  }

  function IdrGapThreshold(rtt: nat): nat {
    if rtt < RTT_MID_BAND_LOW then 3 else if rtt <= RTT_HIGH then 2 else 1
  }

  predicate NeedsIdr(s: LossState) {
    || s.frameGap >= IdrGapThreshold(s.rtt)
    || s.loss >= FEC_LOSS_THRESHOLD
    || (s.keyframeAge > MAX_KEYFRAME_AGE && s.loss > STALE_KEYFRAME_LOSS_THRESHOLD)
  }

  function DetermineAction(s: LossState): Action {
    if NackEligible(s) then Nack(s.missing[..Min(NACK_MAX_REQUESTS, |s.missing|)])
    else if NeedsIdr(s) then ForcedIdr
    else if s.loss < s.fecRatio && s.frameGap <= 1 then RelyOnFec
    else NoAction
  }

  /** Conditions that only get worse never withdraw a forced keyframe. */
  lemma ForcedIdrIsMonotone(s: LossState, t: LossState)
    requires s.rtt <= t.rtt && s.consecutiveLoss <= t.consecutiveLoss && s.loss <= t.loss
    requires s.frameGap <= t.frameGap && s.keyframeAge <= t.keyframeAge && s.missing == t.missing
    ensures DetermineAction(s) == ForcedIdr ==> DetermineAction(t) == ForcedIdr
  {
  }

  /** Missing packets to ask for are the one thing that can withdraw it, and only for a stale keyframe. */
  lemma NackPreemptsStaleKeyframe(s: LossState, missing: seq<u16>)
    requires DetermineAction(s) == ForcedIdr
    ensures DetermineAction(s.(missing := missing)) != ForcedIdr <==>
              s.missing == [] && NackEligible(s.(missing := missing))
    ensures DetermineAction(s.(missing := missing)) != ForcedIdr ==>
              s.keyframeAge > MAX_KEYFRAME_AGE && STALE_KEYFRAME_LOSS_THRESHOLD < s.loss < FEC_LOSS_THRESHOLD
  {
  }

  /** Such a state: 2 percent loss, a keyframe 11 s old, and one packet to ask for or none. */
  lemma StaleKeyframeWaits()
    ensures var s := LossState(50_000_000, 1, 0.02, 0, 11_000_000_000, 0.0, []);
            DetermineAction(s) == ForcedIdr && DetermineAction(s.(missing := [7])) == Nack([7])
  {
  }

  /** A gap detector always reports a frame gap of zero, so the gap thresholds never force a keyframe. */
  lemma WithoutFrameGap(s: LossState)
    requires s.frameGap == 0
    ensures DetermineAction(s) == ForcedIdr <==>
              (s.loss >= FEC_LOSS_THRESHOLD
               || (s.keyframeAge > MAX_KEYFRAME_AGE && s.loss > STALE_KEYFRAME_LOSS_THRESHOLD && !NackEligible(s)))
  {
  }

  /**
   * The tiers by numbers. Requests need an RTT under 150 ms, at most two packets lost in a row and loss under 5
   * percent; a keyframe is forced by a gap of 3, 2 or 1 frames as the RTT grows, 5 percent of loss, or 1 percent with
   * a keyframe older than 10 s; the redundancy is relied on while it exceeds the loss.
   */
  lemma Tiers(s: LossState)
    ensures var ask :=
              s.rtt < 150_000_000 && s.consecutiveLoss <= 2 && s.loss < 0.05 && s.frameGap < 3 && s.missing != [];
            var force :=
              || s.loss >= 0.05 || (s.loss > 0.01 && s.keyframeAge > 10_000_000_000)
              || s.frameGap >= 3 || (s.frameGap >= 2 && s.rtt >= 150_000_000)
              || (s.frameGap >= 1 && s.rtt > 300_000_000);
            var action := DetermineAction(s);
            && (action.Nack? <==> ask)
            && (action == ForcedIdr <==> !ask && force)
            && (action == RelyOnFec <==> !ask && !force && s.loss < s.fecRatio && s.frameGap <= 1)
            && (ask ==>
                  action.requests <= s.missing && |action.requests| == if |s.missing| < 16 then |s.missing| else 16)
  {
  }

  /** More redundancy changes nothing but that nothing is done: exactly then, and if it exceeds the loss. */
  lemma MoreRedundancy(s: LossState, fecRatio: real)
    requires fecRatio >= s.fecRatio
    ensures var more := s.(fecRatio := fecRatio);
            DetermineAction(more) ==
            if DetermineAction(s) == NoAction && s.loss < fecRatio && s.frameGap <= 1 then RelyOnFec
            else DetermineAction(s)
  {
  }

  // ---- The rate limit ----

  function SuppressWindow(rtt: nat): nat { Max(IDR_SUPPRESS_MIN, 2 * rtt) }

  /** Time since the last forced keyframe; zero when the clock reads earlier than that. */
  function Elapsed(lastIdr: int, now: int): nat { if now < lastIdr then 0 else now - lastIdr }

  function Clamped(s: LossState): LossState {
    s.(rtt := Max(s.rtt, MIN_RTT), loss := Clamp01(s.loss), fecRatio := Clamp01(s.fecRatio))
  }

  predicate Suppressed(lastIdr: Option<int>, rtt: nat, now: int) {
    lastIdr.Some? && Elapsed(lastIdr.value, now) < SuppressWindow(Max(rtt, MIN_RTT))
  }

  /** One feedback: the time of the last forced keyframe afterwards, and the action. */
  function Feedback(lastIdr: Option<int>, s: LossState, now: int): (Option<int>, Action) {
    if Suppressed(lastIdr, s.rtt, now) then (lastIdr, NoAction)
    else
      var action := DetermineAction(Clamped(s));
      (if action == ForcedIdr then Some(now) else lastIdr, action)
  }

  /** By numbers: less than 500 ms, or two RTTs of at least 100 us, after the last one, or before it. */
  lemma SuppressedExactly(lastIdr: int, rtt: nat, now: int)
    ensures Suppressed(Some(lastIdr), rtt, now) <==>
            now < lastIdr + 500_000_000 || now < lastIdr + 2 * rtt || now < lastIdr + 200_000
    ensures !Suppressed(None, rtt, now)
  {
  }

  /** Measurements outside their range count as the end of it they are beyond. */
  lemma OutOfRange(lastIdr: Option<int>, s: LossState, now: int)
    requires !Suppressed(lastIdr, s.rtt, now)
    ensures s.loss < 0.0 ==> Feedback(lastIdr, s, now) == Feedback(lastIdr, s.(loss := 0.0), now)
    ensures s.loss > 1.0 ==> Feedback(lastIdr, s, now) == Feedback(lastIdr, s.(loss := 1.0), now)
    ensures 0.0 <= s.loss <= 1.0 && 0.0 <= s.fecRatio <= 1.0 && s.rtt >= 100_000 ==>
              Feedback(lastIdr, s, now).1 == DetermineAction(s)
    ensures s.fecRatio > 1.0 ==> Feedback(lastIdr, s, now) == Feedback(lastIdr, s.(fecRatio := 1.0), now)
  {
  }

  class LossRecoveryController {
    var lastIdrRequest: Option<int>

    constructor ()
      ensures lastIdrRequest == None
    {
      lastIdrRequest := None;
    }

    method OnFeedback(state: LossState, now: int) returns (action: Action)
      modifies this
      ensures (lastIdrRequest, action) == Feedback(old(lastIdrRequest), state, now)
    {
      var rtt := Max(state.rtt, MIN_RTT);
      var loss := Clamp01(state.loss);
      var fecRatio := Clamp01(state.fecRatio);
      var suppressWindow := SuppressWindow(rtt);
      if lastIdrRequest.Some? {
        var elapsed := Elapsed(lastIdrRequest.value, now);
        if elapsed < suppressWindow {
          return NoAction;
        }
      }
      action := DetermineAction(LossState(rtt, state.consecutiveLoss, loss, state.frameGap,
                                          state.keyframeAge, fecRatio, state.missing));
      if action == ForcedIdr {
        lastIdrRequest := Some(now);
      }
    }

    /** What is left of the window after the last forced keyframe; None once it is over. */
    function SuppressionRemaining(rtt: nat, now: int): (r: Option<nat>)
      reads this
      ensures Suppressed(lastIdrRequest, rtt, now) <==> r.Some? && r.value > 0
      ensures r == Some(0) <==>
                lastIdrRequest.Some? && now == lastIdrRequest.value + SuppressWindow(Max(rtt, MIN_RTT))
      ensures lastIdrRequest.Some? && now <= lastIdrRequest.value ==>
                r == Some(Max(500_000_000, Max(2 * rtt, 200_000)))
    {
      if lastIdrRequest.None? then None
      else
        var window := SuppressWindow(Max(rtt, MIN_RTT));
        var elapsed := Elapsed(lastIdrRequest.value, now);
        if window >= elapsed then Some(window - elapsed) else None
    }
  }

  /** At the end of the window nothing is left, yet not none; and the next keyframe is already forced. */
  method AtTheBoundary() returns (first: Action, left: Option<nat>, second: Action)
    ensures first == second == ForcedIdr && left == Some(0)
  {
    var lossy := LossState(50_000_000, 0, 0.06, 0, 0, 0.0, []);
    var controller := new LossRecoveryController();
    first := controller.OnFeedback(lossy, 0);
    left := controller.SuppressionRemaining(50_000_000, 500_000_000);
    second := controller.OnFeedback(lossy, 500_000_000);
  }

  /** The time of the last forced keyframe after a run of feedbacks. */
  function LastIdr(run: seq<(LossState, int)>): Option<int> {
    if run == [] then None
    else Feedback(LastIdr(run[..|run| - 1]), run[|run| - 1].0, run[|run| - 1].1).0
  }

  /** Feedback number `i` of a run forces a keyframe. */
  predicate ForcesIdr(run: seq<(LossState, int)>, i: nat)
    requires i < |run|
  {
    Feedback(LastIdr(run[..i]), run[i].0, run[i].1).1 == ForcedIdr
  }

  /** The time the window runs from is that of the last keyframe forced, and of nothing else. */
  lemma OnlyForcedKeyframesCount(run: seq<(LossState, int)>)
    requires run != []
    ensures LastIdr(run) ==
            if ForcesIdr(run, |run| - 1) then Some(run[|run| - 1].1) else LastIdr(run[..|run| - 1])
  {
  }

  lemma {:induction false} LastIdrIsLatest(run: seq<(LossState, int)>, i: nat)
    requires i < |run| && ForcesIdr(run, i)
    ensures LastIdr(run).Some? && LastIdr(run).value >= run[i].1
    decreases |run|
  {
    var before := run[..|run| - 1];
    if i < |before| {
      assert before[..i] == run[..i];
      LastIdrIsLatest(before, i);
    } else {
      assert run[..i] == before;
    }
  }

  /**
   * Under any clock, even one that jumps backwards, any two forced keyframes are in time order and at
   * least the window of the later one apart.
   */
  lemma IdrSpacing(run: seq<(LossState, int)>, i: nat, j: nat)
    requires i < j < |run| && ForcesIdr(run, i) && ForcesIdr(run, j)
    ensures run[j].1 - run[i].1 >= IDR_SUPPRESS_MIN
    ensures run[j].1 - run[i].1 >= 2 * Max(run[j].0.rtt, MIN_RTT)
  {
    assert run[..j][..i] == run[..i];
    LastIdrIsLatest(run[..j], i);
  }
}
