/** The 16-bit sliding bitmap over wrapping sequence numbers agrees with a plain set of packets. */
module GapDetection {
  import opened Arith
  import opened Wire
  import opened MaskBits

  const SEQUENCES := 0x1_0000
  const HALF := 0x8000
  const WINDOW := 16

  // ---- Unwrapping ----

  /** The packet number nearest to `high` that travels as `sequence`. */
  function Unwrapped(high: int, sequence: u16): (n: int)
    ensures n % SEQUENCES == sequence && high - HALF <= n < high + HALF
  {
    var delta := (sequence - high) % SEQUENCES;
    if delta < HALF then high + delta else high + delta - SEQUENCES
  }

  /** A packet numbered within half the sequence space of the highest one is recovered exactly. */
  lemma UnwrapsTrueNumber(high: int, n: int)
    requires high - HALF <= n < high + HALF
    ensures Unwrapped(high, n % SEQUENCES) == n
  {
    var m := Unwrapped(high, n % SEQUENCES);
    assert m % SEQUENCES == n % SEQUENCES;
    assert -SEQUENCES < m - n < SEQUENCES;
    assert (m - n) % SEQUENCES == 0;
  }

  /** Subtracting before or after wrapping gives the same wire number. */
  lemma WrapMinus(high: int, k: int)
    ensures (high % SEQUENCES - k) % SEQUENCES == (high - k) % SEQUENCES
    ensures (k - high % SEQUENCES) % SEQUENCES == (k - high) % SEQUENCES
  {
    var q := high / SEQUENCES;
    WholeTurns(high % SEQUENCES - k, q);
    WholeTurns(k - high % SEQUENCES, -q);
  }

  lemma WholeTurns(a: int, q: int)
    ensures (a + SEQUENCES * q) % SEQUENCES == a % SEQUENCES
  {
  }

  /** The three cases the detector distinguishes, by the wrapping distances it computes. */
  lemma UnwrapCases(high: int, sequence: u16)
    ensures var delta := (sequence - high % SEQUENCES) % SEQUENCES;
            var back := (high % SEQUENCES - sequence) % SEQUENCES;
            && (delta < HALF ==> Unwrapped(high, sequence) == high + delta)
            && (delta >= HALF ==> 0 < back && Unwrapped(high, sequence) == high - back)
            && (0 < delta < HALF ==> (high + delta) % SEQUENCES == sequence)
  {
    WrapMinus(high, sequence);
  }

  // ---- What a report means ----

  /** The numbers from `n` down to `low` that were not received, in descending order. */
  ghost function Missing(received: set<int>, n: int, low: int): seq<int>
    decreases n - low
  {
    if n < low then []
    else (if n in received then [] else [n]) + Missing(received, n - 1, low)
  }

  /** `Missing` lists exactly the unreceived numbers, each once, the newest first. */
  lemma {:induction false} MissingIsExact(received: set<int>, n: int, low: int)
    ensures forall m :: m in Missing(received, n, low) <==> low <= m <= n && m !in received
    ensures forall i, j :: 0 <= i < j < |Missing(received, n, low)| ==>
              Missing(received, n, low)[i] > Missing(received, n, low)[j]
    decreases n - low
  {
    if n >= low {
      MissingIsExact(received, n - 1, low);
      var rest := Missing(received, n - 1, low);
      forall i | 0 <= i < |rest| ensures rest[i] <= n - 1 { assert rest[i] in rest; }
    }
  }

  datatype GapReport = GapReport(
    consecutiveLoss: nat, frameGap: nat, nackBitmap: bv16, missingSeqs: seq<u16>)

  function Wrap(numbers: seq<int>): (w: seq<u16>)
    ensures |w| == |numbers|
  {
    seq(|numbers|, i requires 0 <= i < |numbers| => numbers[i] % 65536)
  }

  /** The report, read off the plain set of packet numbers received. */
  ghost predicate Describes(r: GapReport, first: int, high: int, received: set<int>) {
    var low := Max(first, high - 16);
    && r.missingSeqs == Wrap(Missing(received, high - 1, low))
    && (forall i :: 0 <= i < 16 ==>
          (Bit(r.nackBitmap, i) <==> high - 1 - i >= low && high - 1 - i !in received))
    && r.frameGap == 0
    && r.consecutiveLoss <= high - low
    && (forall m :: high - r.consecutiveLoss <= m < high ==> m !in received)
    && (r.consecutiveLoss < high - low ==> high - 1 - r.consecutiveLoss in received)
  }

  // ---- The mask ----

  /** The window after the highest number grows by `delta`: shift, then mark the old highest. */
  function Advanced(mask: bv16, delta: nat): bv16
    requires delta > 0
  {
    (if delta >= 16 then 0 else ShiftLeft(mask, delta)) | (if delta <= 16 then Unit(delta - 1) else 0)
  }

  lemma AdvancedBit(mask: bv16, delta: nat, i: nat)
    requires delta > 0 && i < 16
    ensures Bit(Advanced(mask, delta), i) <==> (i >= delta && Bit(mask, i - delta)) || i == delta - 1
  {
    hide Bit, Unit, ShiftLeft;
    var shifted := if delta >= 16 then 0 else ShiftLeft(mask, delta);
    var unit := if delta <= 16 then Unit(delta - 1) else 0;
    OrBit(shifted, unit, i);
    AllOnesBit(i);
    if delta < 16 {
      ShiftBit(mask, delta, i);
    }
    if delta <= 16 {
      UnitBit(delta - 1, i);
    }
  }

  /** The window with the packet `back` places below the highest marked, if it is that recent. */
  function Marked(mask: bv16, back: nat): bv16
    requires back > 0
  {
    if back <= 16 then mask | Unit(back - 1) else mask
  }

  lemma MarkedBit(mask: bv16, back: nat, i: nat)
    requires back > 0 && i < 16
    ensures Bit(Marked(mask, back), i) <==> Bit(mask, i) || i == back - 1
  {
    hide Bit, Unit;
    if back <= 16 {
      OrBit(mask, Unit(back - 1), i);
      UnitBit(back - 1, i);
    }
  }

  function TrackedMask(tracked: nat): bv16 {
    if tracked >= 16 then 0xFFFF else Unit(tracked) - 1
  }

  lemma TrackedMaskBit(tracked: nat, i: nat)
    requires i < 16
    ensures Bit(TrackedMask(tracked), i) <==> i < tracked
  {
    hide Bit, Unit;
    AllOnesBit(i);
    if tracked < 16 {
      LowMaskBit(tracked, i);
    }
  }

  function NackBits(mask: bv16, tracked: nat): bv16 {
    !mask & TrackedMask(tracked)
  }

  lemma NackBit(mask: bv16, tracked: nat, i: nat)
    requires i < 16
    ensures Bit(NackBits(mask, tracked), i) <==> !Bit(mask, i) && i < tracked
  {
    hide Bit, TrackedMask;
    AndNotBit(mask, TrackedMask(tracked), i);
    TrackedMaskBit(tracked, i);
  }

  /** Bit `i` of the mask says whether the packet `i + 1` places below `high` was received. */
  ghost predicate Window(mask: bv16, high: int, received: set<int>) {
    forall i :: 0 <= i < WINDOW ==> (Bit(mask, i) <==> high - 1 - i in received)
  }

  lemma WindowOpens(high: int)
    ensures Window(0, high, {high})
  {
    forall i | 0 <= i < WINDOW ensures !Bit(0, i) { AllOnesBit(i); }
  }

  lemma WindowAdvances(mask: bv16, high: int, received: set<int>, delta: nat)
    requires Window(mask, high, received) && high in received && delta > 0
    requires forall n :: n in received ==> n <= high
    ensures Window(Advanced(mask, delta), high + delta, received + {high + delta})
  {
    hide Bit, Advanced;
    forall i | 0 <= i < WINDOW
      ensures Bit(Advanced(mask, delta), i) <==> high + delta - 1 - i in received + {high + delta}
    {
      AdvancedBit(mask, delta, i);
      if i >= delta {
        assert Bit(mask, i - delta) <==> high - 1 - (i - delta) in received;
      }
    }
  }

  lemma WindowMarks(mask: bv16, high: int, received: set<int>, back: nat)
    requires Window(mask, high, received) && back > 0
    ensures Window(Marked(mask, back), high, received + {high - back})
  {
    hide Bit, Marked;
    forall i | 0 <= i < WINDOW
      ensures Bit(Marked(mask, back), i) <==> high - 1 - i in received + {high - back}
    {
      MarkedBit(mask, back, i);
    }
  }

  /** Position of the lowest set bit, 16 if there is none. */
  method TrailingZeros(mask: bv16) returns (n: nat)
    ensures n <= 16
    ensures forall i :: 0 <= i < n ==> !Bit(mask, i)
    ensures n < 16 ==> Bit(mask, n)
  {
    n := 0;
    while n < 16 && !Bit(mask, n)
      invariant n <= 16
      invariant forall i :: 0 <= i < n ==> !Bit(mask, i)
    {
      n := n + 1;
    }
  }

  class GapDetector {
    var highest: Option<u16>
    var mask: bv16
    var lastReceived: Option<u16>
    var tracked: nat

    /** The unwrapped numbers: of the first packet, the highest one, and all of them. */
    ghost var first: int
    ghost var high: int
    ghost var received: set<int>

    ghost predicate Valid()
      reads this
    {
      if highest.None? then
        received == {} && lastReceived == None && tracked == 0
      else
        && highest.value == high % SEQUENCES
        && lastReceived == highest
        && high in received && first in received && first <= high
        && (forall n :: n in received ==> n <= high)
        && tracked == Min(high - first, WINDOW)
        && Window(mask, high, received)
    }

    constructor ()
      ensures Valid() && received == {} && highest == None
    {
      highest, lastReceived, mask, tracked := None, None, 0, 0;
      received := {};
    }

    /** Record a packet. Its number is the one nearest to the highest so far that fits the sequence. */
    method OnReceive(sequence: u16) returns (r: GapReport)
      requires Valid()
      modifies this
      ensures Valid() && highest.Some?
      ensures old(highest.None?) ==> first == high == sequence && received == {sequence as int}
      ensures old(highest.Some?) ==>
                var n := Unwrapped(old(high), sequence);
                first == old(first) && high == Max(old(high), n) && received == old(received) + {n}
      ensures Describes(r, first, high, received)
    {
      hide Window, Advanced, Marked, Describes, Unwrapped, Min;
      if highest.None? {
        highest, lastReceived := Some(sequence), Some(sequence);
        mask, tracked := 0, 0;
        first, high, received := sequence, sequence, {sequence as int};
        WindowOpens(high);
        TrackedFrom(high, high, 0);
      } else {
        var delta := (sequence - highest.value) % SEQUENCES;
        UnwrapCases(high, sequence);
        if 0 < delta < HALF {
          WindowAdvances(mask, high, received, delta);
          TrackedFrom(first, high, delta);
          mask := Advanced(mask, delta);
          highest := Some(sequence);
          tracked := Min(tracked + Min(delta, 16), 16);
          lastReceived := Some(sequence);
          high := high + delta;
          received := received + {high};
        } else if delta == 0 {
          lastReceived := Some(sequence);
          assert received + {high} == received;
        } else {
          var back := (highest.value - sequence) % SEQUENCES;
          WindowMarks(mask, high, received, back);
          mask := Marked(mask, back);
          received := received + {high - back};
        }
      }
      r := BuildReport();
    }

    method BuildReport() returns (r: GapReport)
      requires Valid()
      ensures highest.Some? ==> Describes(r, first, high, received)
      ensures highest.None? ==> r == GapReport(0, 0, 0, [])
    {
      hide Bit, NackBits;
      if highest.None? {
        return GapReport(0, 0, 0, []);
      }
      var frameGap := if lastReceived.None? then 0 else (highest.value - lastReceived.value) % SEQUENCES;
      var nackBitmap := NackBits(mask, tracked);
      forall i | 0 <= i < WINDOW
        ensures Bit(nackBitmap, i) <==> !Bit(mask, i) && i < tracked
      {
        NackBit(mask, tracked, i);
      }
      var zeros := TrailingZeros(mask);
      var consecutiveLoss := Min(zeros, tracked);
      var missingSeqs := ListMissing(nackBitmap);
      forall m | high - consecutiveLoss <= m < high ensures m !in received {
        assert !Bit(mask, high - 1 - m);
      }
      r := GapReport(consecutiveLoss, frameGap, nackBitmap, missingSeqs);
    }

    method ListMissing(nackBitmap: bv16) returns (missingSeqs: seq<u16>)
      requires Valid() && highest.Some?
      requires forall i :: 0 <= i < WINDOW ==> (Bit(nackBitmap, i) <==> !Bit(mask, i) && i < tracked)
      ensures missingSeqs == Wrap(Missing(received, high - 1, Max(first, high - WINDOW)))
    {
      hide Bit, Missing, Wrap;
      ghost var low := Max(first, high - WINDOW);
      NoneMissing(received, low);
      missingSeqs := [];
      var i := 0;
      while i < 16 && i < tracked
        invariant i <= tracked
        invariant missingSeqs + Wrap(Missing(received, high - 1 - i, low))
                  == Wrap(Missing(received, high - 1, low))
        decreases 16 - i
      {
        OneFewer(received, high, i, low, missingSeqs);
        if Bit(nackBitmap, i) {
          missingSeqs := missingSeqs + [(highest.value - (1 + i)) % SEQUENCES];
        }
        i := i + 1;
      }
    }
  }

  /** The count of tracked numbers is how many lie between the first and the highest, up to the window. */
  lemma TrackedFrom(first: int, high: int, delta: nat)
    requires first <= high
    ensures Min(Min(high - first, WINDOW) + Min(delta, 16), 16) == Min(high + delta - first, WINDOW) >= 0
    ensures first == high ==> Min(high - first, WINDOW) == 0
  {
  }

  lemma NoneMissing(received: set<int>, low: int)
    ensures Wrap(Missing(received, low - 1, low)) == []
  {
  }

  /** Moving on past `high - 1 - i` takes it from the list to come if it is missing, and nothing otherwise. */
  lemma OneFewer(received: set<int>, high: int, i: nat, low: int, done: seq<u16>)
    requires low <= high - 1 - i
    ensures var now, next := Wrap(Missing(received, high - 1 - i, low)), Wrap(Missing(received, high - 2 - i, low));
            done + now ==
            if high - 1 - i in received then done + next
            else done + [(high % SEQUENCES - (1 + i)) % SEQUENCES] + next
  {
    var rest := Missing(received, high - 2 - i, low);
    if high - 1 - i in received {
      assert [] + rest == rest;
    } else {
      WrapCons(high - 1 - i, rest);
      WrapMinus(high, 1 + i);
    }
  }

  lemma WrapCons(n: int, rest: seq<int>)
    ensures Wrap([n] + rest) == [n % SEQUENCES] + Wrap(rest)
  {
  }

  // ---- Whole runs ----

  function Highest(numbers: seq<int>): int
    requires numbers != []
  {
    if |numbers| == 1 then numbers[0]
    else Max(Highest(numbers[..|numbers| - 1]), numbers[|numbers| - 1])
  }

  function AsSet(numbers: seq<int>): set<int> { set n | n in numbers }

  lemma OneOnly(numbers: seq<int>)
    requires numbers != []
    ensures AsSet(numbers[..1]) == {numbers[0]} && Highest(numbers[..1]) == numbers[0]
  {
    assert numbers[..1] == [numbers[0]];
  }

  lemma OneMore(numbers: seq<int>, k: nat)
    requires 0 < k < |numbers|
    ensures AsSet(numbers[..k + 1]) == AsSet(numbers[..k]) + {numbers[k]}
    ensures Highest(numbers[..k + 1]) == Max(Highest(numbers[..k]), numbers[k])
  {
    assert numbers[..k + 1] == numbers[..k] + [numbers[k]];
    assert numbers[..k + 1][..k] == numbers[..k];
  }

  /** Every packet is within half the sequence space of the highest one before it. */
  ghost predicate Orderly(numbers: seq<int>) {
    forall k :: 0 < k < |numbers| ==>
      Highest(numbers[..k]) - 32768 <= numbers[k] < Highest(numbers[..k]) + 32768
  }

  /**
   * A detector that sees only 16 bits of each packet number ends with the report that the set of true
   * numbers calls for, however often the sequence wraps.
   */
  method Observe(numbers: seq<int>) returns (d: GapDetector, r: GapReport)
    requires numbers != [] && 0 <= numbers[0] < 65536 && Orderly(numbers)
    ensures d.Valid() && Describes(r, numbers[0], Highest(numbers), AsSet(numbers))
  {
    hide Describes, Unwrapped, Window, AsSet, Highest;
    d := new GapDetector();
    r := d.OnReceive(numbers[0]);
    OneOnly(numbers);
    for k := 1 to |numbers|
      invariant d.Valid() && d.highest.Some?
      invariant d.first == numbers[0] && d.high == Highest(numbers[..k])
      invariant d.received == AsSet(numbers[..k])
      invariant Describes(r, d.first, d.high, d.received)
      modifies d
    {
      UnwrapsTrueNumber(d.high, numbers[k]);
      OneMore(numbers, k);
      r := d.OnReceive(numbers[k] % SEQUENCES);
    }
    assert numbers[..|numbers|] == numbers;
  }
}
