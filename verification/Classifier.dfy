/** The hysteresis machine that maps classification scores to a content mode. */
module Classifier {
  import opened Arith

  const GAME_ENTER_THRESHOLD := 0.65
  const GAME_EXIT_THRESHOLD := 0.40
  const SCROLL_ENTER_THRESHOLD := 0.35
  const SCROLL_EXIT_THRESHOLD := 0.25
  const GAME_ENTER_DWELL := 8
  const GAME_EXIT_DWELL := 30
  const SCROLL_ENTER_DWELL := 4
  const SCROLL_EXIT_DWELL := 10

  datatype Mode = Work | Scrolling | Game

  datatype FsmState =
    | InWork(scrollCounter: nat)
    | WorkToGame(counter: nat)
    | InScrolling(gameCounter: nat, exitCounter: nat)
    | InGame(gameExitCounter: nat)
  {
    function Mode(): Mode {
      match this
      case InWork(_) => Work
      case WorkToGame(_) => Work
      case InScrolling(_, _) => Scrolling
      case InGame(_) => Game
    }
  }

  function Advance(state: FsmState, score: real): FsmState {
    match state
    case InWork(scrollCounter) =>
      if score > GAME_ENTER_THRESHOLD then WorkToGame(1)
      else if score > SCROLL_ENTER_THRESHOLD then
        if scrollCounter + 1 >= SCROLL_ENTER_DWELL then InScrolling(0, 0) else InWork(scrollCounter + 1)
      else InWork(0)
    case WorkToGame(counter) =>
      if score > GAME_ENTER_THRESHOLD then
        if counter + 1 >= GAME_ENTER_DWELL then InGame(0) else WorkToGame(counter + 1)
      else if score > SCROLL_ENTER_THRESHOLD then InWork(1)
      else InWork(0)
    case InScrolling(gameCounter, exitCounter) =>
      if score > GAME_ENTER_THRESHOLD then
        if gameCounter + 1 >= GAME_ENTER_DWELL then InGame(0) else InScrolling(gameCounter + 1, 0)
      else if score < SCROLL_EXIT_THRESHOLD then
        if exitCounter + 1 >= SCROLL_EXIT_DWELL then InWork(0) else InScrolling(0, exitCounter + 1)
      else InScrolling(0, 0)
    case InGame(exitCounter) =>
      if score < GAME_EXIT_THRESHOLD then
        if exitCounter + 1 >= GAME_EXIT_DWELL then InWork(0) else InGame(exitCounter + 1)
      else InGame(0)
  }

  // ---- Runs ----

  function Run(scores: seq<real>): FsmState {
    if scores == [] then InWork(0)
    else Advance(Run(scores[..|scores| - 1]), scores[|scores| - 1])
  }

  /** The mode after the first `n` ticks. */
  function ModeAt(scores: seq<real>, n: nat): Mode
    requires n <= |scores|
  {
    Run(scores[..n]).Mode()
  }

  /** Length of the longest suffix of scores strictly above, or strictly below, a threshold. */
  function RunAbove(scores: seq<real>, t: real): nat {
    if scores == [] || scores[|scores| - 1] <= t then 0 else 1 + RunAbove(scores[..|scores| - 1], t)
  }

  function RunBelow(scores: seq<real>, t: real): nat {
    if scores == [] || scores[|scores| - 1] >= t then 0 else 1 + RunBelow(scores[..|scores| - 1], t)
  }

  /** Ticks since the mode last changed, or since the start. */
  function Age(scores: seq<real>): nat {
    if scores == [] then 0
    else
      var before := scores[..|scores| - 1];
      if Run(before).Mode() == Run(scores).Mode() then Age(before) + 1 else 0
  }

  /** The machine as an object; `scores` records every score it was ticked with. */
  class ContentClassifier {
    var state: FsmState
    ghost var scores: seq<real>

    ghost predicate Valid()
      reads this
    {
      state == Run(scores)
    }

    constructor ()
      ensures Valid() && scores == []
    {
      state, scores := InWork(0), [];
    }

    /** The score comes from the score provider, which is not part of the machine. */
    method OnTick(score: real) returns (mode: Mode)
      requires Valid()
      modifies this
      ensures Valid() && scores == old(scores) + [score]
      ensures mode == ModeAt(scores, |scores|)
    {
      hide Advance;
      assert (scores + [score])[..|scores|] == scores;
      state := Advance(state, score);
      scores := scores + [score];
      assert scores[..|scores|] == scores;
      mode := state.Mode();
    }
  }

  // ---- Counters are exact run lengths ----

  /** Length of the longest suffix of scores in the band that leads from Work to Scrolling. */
  function RunInBand(scores: seq<real>): nat {
    if scores == [] || !InBand(scores[|scores| - 1]) then 0 else 1 + RunInBand(scores[..|scores| - 1])
  }

  predicate InBand(score: real) { 0.35 < score <= 0.65 }

  /**
   * Every counter is the length of the current run of scores it watches. Only the counter toward
   * Scrolling can fall short of its run, after landing in Work in the middle of one: it then counts
   * from there.
   */
  lemma {:induction false} CountersAreRunLengths(scores: seq<real>)
    ensures match Run(scores)
            case InWork(s) =>
              s < 4 && s == Min(RunInBand(scores), Age(scores))
              && RunAbove(scores, 0.65) == 0
            case WorkToGame(c) =>
              0 < c < 8 && c == RunAbove(scores, 0.65) && c <= Age(scores)
            case InScrolling(g, e) =>
              && g < 8 && g == RunAbove(scores, 0.65) && g <= Age(scores)
              && e < 10 && e == RunBelow(scores, 0.25) && e <= Age(scores)
              && (g == 0 || e == 0)
            case InGame(e) =>
              e < 30 && e == RunBelow(scores, 0.40) && e <= Age(scores)
  {
    if scores != [] {
      CountersAreRunLengths(scores[..|scores| - 1]);
    }
  }

  /** Fewest ticks a mode is kept before the machine moves to another one; 0 where it never does. */
  function Dwell(from: Mode, to: Mode): nat {
    match (from, to)
    case (Work, Scrolling) => 4
    case (Work, Game) => 8
    case (Scrolling, Game) => 8
    case (Scrolling, Work) => 10
    case (Game, Work) => 30
    case _ => 0
  }

  /** A mode change always ends a full dwell of scores on the right side of its threshold. */
  lemma ModeChangeNeedsDwell(scores: seq<real>)
    requires scores != []
    ensures var before := scores[..|scores| - 1];
            var from, to := Run(before).Mode(), Run(scores).Mode();
            from != to ==>
              && 0 < Dwell(from, to) <= Age(before) + 1
              && (to == Game ==> RunAbove(scores, 0.65) == Dwell(from, to))
              && (to == Scrolling ==> RunInBand(scores) >= Dwell(from, to))
              && (from == Scrolling && to == Work ==> RunBelow(scores, 0.25) == Dwell(from, to))
              && (from == Game ==> RunBelow(scores, 0.40) == Dwell(from, to))
  {
    CountersAreRunLengths(scores[..|scores| - 1]);
    CountersAreRunLengths(scores);
  }

  /** Tick `n` (counted from 1) changes the mode. */
  predicate Changes(scores: seq<real>, n: nat)
    requires 0 < n <= |scores|
  {
    ModeAt(scores, n - 1) != ModeAt(scores, n)
  }

  lemma {:induction false} AgeSinceChange(scores: seq<real>, m: nat)
    requires 0 < m <= |scores| && Changes(scores, m)
    ensures Age(scores) <= |scores| - m
    decreases |scores|
  {
    var before := scores[..|scores| - 1];
    if m < |scores| {
      assert before[..m] == scores[..m] && before[..m - 1] == scores[..m - 1];
      AgeSinceChange(before, m);
    } else {
      assert scores[..m] == scores && scores[..m - 1] == before;
    }
  }

  /** Two mode changes are never closer than the dwell of the later one, so never closer than 4 ticks. */
  lemma ModeChangesAreSpaced(scores: seq<real>, m: nat, n: nat)
    requires 0 < m < n <= |scores| && Changes(scores, m) && Changes(scores, n)
    ensures n - m >= Dwell(ModeAt(scores, n - 1), ModeAt(scores, n)) >= 4
  {
    var upTo := scores[..n];
    assert upTo[..n - 1] == scores[..n - 1];
    ModeChangeNeedsDwell(upTo);
    assert scores[..n - 1][..m] == scores[..m] && scores[..n - 1][..m - 1] == scores[..m - 1];
    AgeSinceChange(scores[..n - 1], m);
  }

  // ---- Entering Game ----

  /** How often a run has entered Game. */
  function GameEntries(scores: seq<real>): nat {
    if scores == [] then 0
    else
      var before := scores[..|scores| - 1];
      GameEntries(before) + if Run(before).Mode() != Game && Run(scores).Mode() == Game then 1 else 0
  }

  /** Ticks accounted for: 38 for each visit to Game completed, 8 for one under way, plus its progress. */
  lemma {:induction false} TicksPerEntry(scores: seq<real>)
    ensures var k := GameEntries(scores);
            match Run(scores)
            case InWork(_) => |scores| >= 38 * k
            case WorkToGame(c) => |scores| >= 38 * k + c
            case InScrolling(g, _) => |scores| >= 38 * k + g
            case InGame(e) => k >= 1 && |scores| >= 38 * (k - 1) + 8 + e
  {
    if scores != [] {
      TicksPerEntry(scores[..|scores| - 1]);
    }
  }

  /** The `k`-th entry into Game comes no earlier than tick 8 + 38 (k - 1). */
  lemma GameEntryTime(scores: seq<real>, k: nat)
    requires k > 0 && GameEntries(scores) >= k
    ensures |scores| >= 8 + 38 * (k - 1)
  {
    TicksPerEntry(scores);
  }

  // ---- Convergence ----

  function Continue(state: FsmState, scores: seq<real>): FsmState
    decreases |scores|
  {
    if scores == [] then state else Continue(Advance(state, scores[0]), scores[1..])
  }

  lemma {:induction false} RunSplits(past: seq<real>, scores: seq<real>)
    ensures Run(past + scores) == Continue(Run(past), scores)
    decreases |scores|
  {
    if scores == [] {
      assert past + scores == past;
    } else {
      assert past + scores == (past + [scores[0]]) + scores[1..];
      assert (past + [scores[0]])[..|past|] == past;
      RunSplits(past + [scores[0]], scores[1..]);
    }
  }

  /** Ticks still needed to reach Game, or Work, if every score pushes that way. */
  function ToGame(state: FsmState): nat {
    match state
    case InWork(_) => 8
    case WorkToGame(c) => if c < 8 then 8 - c else 1
    case InScrolling(g, _) => if g < 8 then 8 - g else 1
    case InGame(_) => 0
  }

  function ToWork(state: FsmState): nat {
    match state
    case InWork(_) => 0
    case WorkToGame(_) => 0
    case InScrolling(_, e) => if e < 10 then 10 - e else 1
    case InGame(e) => if e < 30 then 30 - e else 1
  }

  lemma {:induction false} HighScoresReachGame(state: FsmState, scores: seq<real>)
    requires forall i :: 0 <= i < |scores| ==> scores[i] > 0.65
    ensures |scores| >= ToGame(state) <==> Continue(state, scores).Mode() == Game
    decreases |scores|
  {
    if scores != [] {
      HighScoresReachGame(Advance(state, scores[0]), scores[1..]);
    }
  }

  lemma {:induction false} LowScoresReachWork(state: FsmState, scores: seq<real>)
    requires forall i :: 0 <= i < |scores| ==> scores[i] < 0.25
    ensures |scores| >= ToWork(state) <==> Continue(state, scores).Mode() == Work
    decreases |scores|
  {
    if scores != [] {
      LowScoresReachWork(Advance(state, scores[0]), scores[1..]);
    }
  }

  /** Whatever came before, 8 high scores end in Game and 30 low ones in Work. */
  lemma Converges(past: seq<real>, scores: seq<real>)
    ensures (forall i :: 0 <= i < |scores| ==> scores[i] > 0.65) && |scores| >= 8
            ==> Run(past + scores).Mode() == Game
    ensures (forall i :: 0 <= i < |scores| ==> scores[i] < 0.25) && |scores| >= 30
            ==> Run(past + scores).Mode() == Work
  {
    RunSplits(past, scores);
    CountersAreRunLengths(past);
    if forall i :: 0 <= i < |scores| ==> scores[i] > 0.65 {
      HighScoresReachGame(Run(past), scores);
    }
    if forall i :: 0 <= i < |scores| ==> scores[i] < 0.25 {
      LowScoresReachWork(Run(past), scores);
    }
  }

  /** After Game is left, Scrolling is four ticks away, however high in its band the score is. */
  lemma {:induction false} ScrollingAfterGame(past: seq<real>, scores: seq<real>)
    requires past != [] && Run(past[..|past| - 1]).Mode() == Game && Run(past).Mode() == Work
    requires |scores| < 4
    ensures Run(past + scores).Mode() == Work
  {
    if scores == [] {
      assert past + scores == past;
    } else {
      var all := past + scores;
      var n := |past|;
      if Run(all).Mode() != Work {
        ScrollingAfterGame(past, scores[..|scores| - 1]);
        assert all[..|all| - 1] == past + scores[..|scores| - 1];
        assert all[..n] == past && all[..n - 1] == past[..n - 1];
        assert all[..|all|] == all;
        ModeChangesAreSpaced(all, n, |all|);
      }
    }
  }

  /** On the fourth tick it is reached exactly if all four scores were in its band. */
  lemma ScrollingOnTheFourthTick(past: seq<real>, scores: seq<real>)
    requires past != [] && Run(past[..|past| - 1]).Mode() == Game && Run(past).Mode() == Work
    requires |scores| == 4
    ensures Run(past + scores).Mode() == Scrolling <==> forall i :: 0 <= i < |scores| ==> InBand(scores[i])
  {
    RunSplits(past, scores);
    assert Run(past) == InWork(0);
    FourTicks(scores);
  }

  lemma FourTicks(scores: seq<real>)
    requires |scores| == 4
    ensures Continue(InWork(0), scores).Mode() == Scrolling <==> forall i :: 0 <= i < |scores| ==> InBand(scores[i])
  {
    var s1 := Advance(InWork(0), scores[0]);
    var s2 := Advance(s1, scores[1]);
    var s3 := Advance(s2, scores[2]);
    assert scores[1..][1..] == scores[2..] && scores[2..][1..] == scores[3..] && scores[3..][1..] == [];
    assert Continue(InWork(0), scores) == Continue(s1, scores[1..]);
    assert Continue(s1, scores[1..]) == Continue(s2, scores[2..]);
    assert Continue(s2, scores[2..]) == Continue(s3, scores[3..]);
    assert Continue(s3, scores[3..]) == Advance(s3, scores[3]);
  }

  function Repeated(score: real, n: nat): (s: seq<real>)
    ensures |s| == n && forall i :: 0 <= i < n ==> s[i] == score
  {
    seq(n, _ => score)
  }

  lemma {:induction false} GameCountsDown(e: nat, n: nat)
    requires e + n < 30
    ensures Continue(InGame(e), Repeated(0.0, n)) == InGame(e + n)
    decreases n
  {
    if n > 0 {
      GameCountsDown(e + 1, n - 1);
      assert Repeated(0.0, n)[1..] == Repeated(0.0, n - 1);
    }
  }

  /** A run: Game is entered and left, and a score in the middle of the band does not bring Scrolling next. */
  lemma NotOnTheNextTick()
    ensures var past := Repeated(1.0, 8) + Repeated(0.0, 30);
            && Run(past[..|past| - 1]).Mode() == Game && Run(past).Mode() == Work
            && InBand(0.5) && Run(past + [0.5]).Mode() == Work
  {
    var high, low := Repeated(1.0, 8), Repeated(0.0, 30);
    var past := high + low;
    Converges([], high);
    assert [] + high == high;
    assert Run(high) == InGame(0) by { CountersAreRunLengths(high); }
    assert past[..|past| - 1] == high + Repeated(0.0, 29);
    RunSplits(high, Repeated(0.0, 29));
    GameCountsDown(0, 29);
    Converges(high, low);
    ScrollingAfterGame(past, [0.5]);
  }
}
