/** Detector and decision together: what is asked for again after a run of packets. */
module Recovery {
  import opened Arith
  import opened GapDetection
  import opened LossRecovery

  /** The state the decision sees: a gap report and the measurements of the link. */
  function StateOf(r: GapReport, rtt: nat, loss: real, keyframeAge: nat, fecRatio: real): LossState {
    LossState(rtt, r.consecutiveLoss, loss, r.frameGap, keyframeAge, fecRatio, r.missingSeqs)
  }

  lemma {:induction false} MissingFitsTheWindow(received: set<int>, n: int, low: int)
    requires low <= n + 1
    ensures |Missing(received, n, low)| <= n + 1 - low
    decreases n - low
  {
    if n >= low {
      MissingFitsTheWindow(received, n - 1, low);
    }
  }

  /**
   * A request for packets asks for exactly those missing between the first and the highest, of the last sixteen
   * numbers, newest first: the limit on requests never cuts one off.
   */
  lemma NackAsksForTheMissing(s: LossState, r: GapReport, first: int, high: int, received: set<int>)
    requires first <= high && Describes(r, first, high, received) && s.missing == r.missingSeqs
    ensures DetermineAction(s).Nack? ==>
              DetermineAction(s).requests == Wrap(Missing(received, high - 1, Max(first, high - WINDOW)))
  {
    hide Missing;
    MissingFitsTheWindow(received, high - 1, Max(first, high - WINDOW));
    assert s.missing[..|s.missing|] == s.missing;
  }

  lemma SameNumber(m: int, n: int)
    requires m % SEQUENCES == n % SEQUENCES && -SEQUENCES < m - n < SEQUENCES
    ensures m == n
  {
    assert (m - n) % SEQUENCES == 0;
  }

  /** No packet received within half the sequence space is ever asked for, however the sequence wraps. */
  lemma NeverAsksForAReceived(received: set<int>, low: int, high: int, n: int)
    requires n in received && high - HALF <= n <= high && high - WINDOW <= low
    ensures n % SEQUENCES !in Wrap(Missing(received, high - 1, low))
  {
    hide Missing;
    var missing := Missing(received, high - 1, low);
    MissingIsExact(received, high - 1, low);
    forall i | 0 <= i < |missing| ensures Wrap(missing)[i] != n % SEQUENCES {
      assert missing[i] in missing;
      if missing[i] % SEQUENCES == n % SEQUENCES {
        SameNumber(missing[i], n);
      }
    }
  }

  /**
   * Packets seen sixteen bits at a time, then one feedback: a request lists exactly the missing ones of the true
   * numbers and none that was received; without a request, a keyframe is forced exactly for loss or a stale
   * keyframe, outside the window of the last one.
   */
  method ObserveAndDecide(
      numbers: seq<int>, controller: LossRecoveryController, rtt: nat, loss: real, keyframeAge: nat, fecRatio: real,
      now: int)
    returns (action: Action)
    requires numbers != [] && 0 <= numbers[0] < SEQUENCES && Orderly(numbers)
    modifies controller
    ensures var high, received := Highest(numbers), AsSet(numbers);
            action.Nack? ==>
              && action.requests == Wrap(Missing(received, high - 1, Max(numbers[0], high - WINDOW)))
              && forall n :: n in received && high - HALF <= n ==> n % SEQUENCES !in action.requests
    ensures var suppressed := Suppressed(old(controller.lastIdrRequest), rtt, now);
            var stale := keyframeAge > MAX_KEYFRAME_AGE && loss > STALE_KEYFRAME_LOSS_THRESHOLD;
            && (suppressed ==> action == NoAction)
            && (action == ForcedIdr <==> !suppressed && (loss >= FEC_LOSS_THRESHOLD || stale) && !action.Nack?)
  {
    hide Describes, Missing, Highest, AsSet, DetermineAction, Wrap, Orderly;
    var detector, report := Observe(numbers);
    var state := StateOf(report, rtt, loss, keyframeAge, fecRatio);
    action := controller.OnFeedback(state, now);
    ghost var high, received := Highest(numbers), AsSet(numbers);
    HighestIsHighest(numbers);
    NackAsksForTheMissing(Clamped(state), report, numbers[0], high, received);
    forall n | n in received && high - HALF <= n
      ensures n % SEQUENCES !in Wrap(Missing(received, high - 1, Max(numbers[0], high - WINDOW)))
    {
      NeverAsksForAReceived(received, Max(numbers[0], high - WINDOW), high, n);
    }
    NoGap(report, numbers[0], high, received);
    ForcedUnlessAsked(Clamped(state));
  }

  lemma ForcedUnlessAsked(s: LossState)
    requires s.frameGap == 0
    ensures DetermineAction(s) == ForcedIdr <==>
            && !DetermineAction(s).Nack?
            && (s.loss >= FEC_LOSS_THRESHOLD
                || (s.keyframeAge > MAX_KEYFRAME_AGE && s.loss > STALE_KEYFRAME_LOSS_THRESHOLD))
  {
    WithoutFrameGap(s);
  }

  lemma NoGap(r: GapReport, first: int, high: int, received: set<int>)
    requires Describes(r, first, high, received)
    ensures r.frameGap == 0
  {
  }

  lemma {:induction false} HighestIsHighest(numbers: seq<int>)
    requires numbers != []
    ensures numbers[0] <= Highest(numbers) && forall n :: n in AsSet(numbers) ==> n <= Highest(numbers)
  {
    assert numbers[..|numbers|] == numbers;
    if |numbers| == 1 {
      OneOnly(numbers);
    } else {
      HighestIsHighest(numbers[..|numbers| - 1]);
      OneMore(numbers, |numbers| - 1);
    }
  }
}
