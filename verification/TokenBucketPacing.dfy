/** The byte-denominated token bucket that paces file transfers. Times are in seconds. */
module TokenBucketPacing {
  import opened Arith
  import opened Wire

  const TOKEN_SLACK := 0.5

  type Seconds = t: real | t >= 0.0

  datatype Bucket = Bucket(fill: real, capacity: real, tokens: real)

  ghost predicate Valid(b: Bucket) { b.fill >= 0.0 && 0.0 <= b.tokens <= b.capacity }

  function BytesPerSec(bitsPerSec: nat): real { bitsPerSec as real / 8.0 }

  function NewBucket(rate: nat, burst: Seconds): (b: Bucket)
    ensures Valid(b) && b.tokens == b.capacity
  {
    var capacity := BytesPerSec(rate) * burst;
    Product(BytesPerSec(rate), burst);
    Bucket(BytesPerSec(rate), capacity, capacity)
  }

  lemma Product(a: real, b: real)
    requires a >= 0.0 && b >= 0.0
    ensures a * b >= 0.0
  {
  }

  function Rerated(b: Bucket, rate: nat, burst: Seconds): Bucket {
    var capacity := BytesPerSec(rate) * burst;
    Bucket(BytesPerSec(rate), capacity, MinReal(b.tokens, capacity))
  }

  function Advanced(b: Bucket, elapsed: Seconds): Bucket {
    b.(tokens := MinReal(b.tokens + b.fill * elapsed, b.capacity))
  }

  predicate CanConsume(b: Bucket, bytes: nat) { b.tokens + TOKEN_SLACK >= bytes as real }

  function Consumed(b: Bucket, bytes: nat): Bucket {
    if !CanConsume(b, bytes) then b
    else b.(tokens := if b.tokens < bytes as real then 0.0 else b.tokens - bytes as real)
  }

  class TokenBucket {
    var fill: real
    var capacity: real
    var tokens: real

    ghost function State(): Bucket
      reads this
    {
      Bucket(fill, capacity, tokens)
    }

    constructor (rate: nat, burst: Seconds)
      ensures State() == NewBucket(rate, burst)
    {
      fill := BytesPerSec(rate);
      capacity := BytesPerSec(rate) * burst;
      tokens := BytesPerSec(rate) * burst;
    }

    method SetRate(rate: nat, burst: Seconds)
      requires Valid(State())
      modifies this
      ensures State() == Rerated(old(State()), rate, burst) && Valid(State())
    {
      fill := BytesPerSec(rate);
      capacity := fill * burst;
      Product(fill, burst);
      if tokens > capacity {
        tokens := capacity;
      }
    }

    method Advance(elapsed: Seconds)
      requires Valid(State())
      modifies this`tokens
      ensures State() == Advanced(old(State()), elapsed) && Valid(State())
    {
      var added := fill * elapsed;
      Product(fill, elapsed);
      tokens := MinReal(tokens + added, capacity);
    }

    method TryConsume(bytes: nat) returns (ok: bool)
      requires Valid(State())
      modifies this`tokens
      ensures State() == Consumed(old(State()), bytes) && Valid(State())
      ensures ok == CanConsume(old(State()), bytes)
    {
      var want := bytes as real;
      if tokens + TOKEN_SLACK >= want {
        tokens := tokens - want;
        if tokens < 0.0 {
          tokens := 0.0;
        }
        return true;
      }
      return false;
    }

    /** None is a promise that waiting is useless; a wait is a promise that waiting that long is enough. */
    method TimeUntil(bytes: nat) returns (r: Option<Seconds>)
      requires Valid(State())
      ensures r == None <==> forall t: Seconds :: !CanConsume(Advanced(State(), t), bytes)
      ensures r.Some? ==> CanConsume(Advanced(State(), r.value), bytes)
      ensures r.Some? && r.value > 0.0 ==>
                forall t: Seconds ::
                  CanConsume(Advanced(State(), t), bytes) <==> fill * t >= fill * r.value - TOKEN_SLACK
    {
      var want := bytes as real;
      if tokens + TOKEN_SLACK >= want {
        assert Advanced(State(), 0.0) == State();
        return Some(0.0);
      }
      if fill <= 0.0 || want > capacity + TOKEN_SLACK {
        forall t: Seconds ensures !CanConsume(Advanced(State(), t), bytes) {
          if fill <= 0.0 {
            assert fill * t == 0.0;
          }
        }
        return None;
      }
      var deficit := want - tokens;
      var wait := deficit / fill;
      assert fill * wait == deficit;
      assert CanConsume(Advanced(State(), wait), bytes);
      return Some(wait);
    }
  }

  // ---- Runs ----

  datatype Op = Advance(elapsed: Seconds) | SetRate(rate: nat, burst: Seconds) | TryConsume(bytes: nat)

  function Apply(b: Bucket, op: Op): Bucket {
    match op
    case Advance(elapsed) => Advanced(b, elapsed)
    case SetRate(rate, burst) => Rerated(b, rate, burst)
    case TryConsume(bytes) => Consumed(b, bytes)
  }

  function Run(b: Bucket, ops: seq<Op>): Bucket
    decreases |ops|
  {
    if ops == [] then b else Run(Apply(b, ops[0]), ops[1..])
  }

  /** Bytes granted, consumes that succeeded, and bytes that accrued at the rate then in force. */
  datatype Ledger = Ledger(granted: nat, successes: nat, accrued: real)

  function Entry(b: Bucket, op: Op): Ledger {
    match op
    case Advance(elapsed) => Ledger(0, 0, b.fill * elapsed)
    case SetRate(_, _) => Ledger(0, 0, 0.0)
    case TryConsume(bytes) => if CanConsume(b, bytes) then Ledger(bytes, 1, 0.0) else Ledger(0, 0, 0.0)
  }

  function Account(b: Bucket, ops: seq<Op>): Ledger
    decreases |ops|
  {
    if ops == [] then Ledger(0, 0, 0.0)
    else
      var e, rest := Entry(b, ops[0]), Account(Apply(b, ops[0]), ops[1..]);
      Ledger(e.granted + rest.granted, e.successes + rest.successes, e.accrued + rest.accrued)
  }

  lemma StepBalances(b: Bucket, op: Op)
    requires Valid(b)
    ensures Valid(Apply(b, op))
    ensures var e := Entry(b, op);
            e.granted as real + Apply(b, op).tokens <= b.tokens + e.accrued + TOKEN_SLACK * e.successes as real
  {
    match op {
      case Advance(elapsed) => Product(b.fill, elapsed);
      case SetRate(rate, burst) => Product(BytesPerSec(rate), burst);
      case TryConsume(_) =>
    }
  }

  /** Whatever is asked and however the rate changes, no more is granted than was there or accrued. */
  lemma {:induction false} NeverOverspends(b: Bucket, ops: seq<Op>)
    requires Valid(b)
    ensures Valid(Run(b, ops))
    ensures var l := Account(b, ops);
            l.granted as real + Run(b, ops).tokens <= b.tokens + l.accrued + TOKEN_SLACK * l.successes as real
    decreases |ops|
  {
    if ops != [] {
      hide Apply, Entry;
      StepBalances(b, ops[0]);
      NeverOverspends(Apply(b, ops[0]), ops[1..]);
    }
  }

  /** From a fresh bucket: the burst capacity, plus what the rate allows, plus half a byte per grant. */
  lemma PacingBound(rate: nat, burst: Seconds, ops: seq<Op>)
    ensures var l := Account(NewBucket(rate, burst), ops);
            l.granted as real <= NewBucket(rate, burst).capacity + l.accrued + TOKEN_SLACK * l.successes as real
  {
    NeverOverspends(NewBucket(rate, burst), ops);
  }

  // ---- The rate by numbers ----

  /** A rate of bits each second: an eighth of it in bytes, and as many as fit the burst at most. */
  lemma RateIsBits(rate: nat, burst: Seconds)
    ensures var b := NewBucket(rate, burst);
            8.0 * b.fill == rate as real && 8.0 * b.capacity == rate as real * burst && b.tokens == b.capacity
  {
    Eighth(rate as real, burst);
  }

  lemma Eighth(r: real, t: real)
    ensures 8.0 * (r / 8.0 * t) == r * t
  {
  }

  /** An empty bucket can give `bytes` after `t` seconds exactly if their bits, four short, accrued and fit. */
  lemma WhatAccrues(rate: nat, burst: Seconds, t: Seconds, bytes: nat)
    ensures CanConsume(Advanced(NewBucket(rate, burst).(tokens := 0.0), t), bytes) <==>
            8.0 * bytes as real <= rate as real * t + 4.0 && 8.0 * bytes as real <= rate as real * burst + 4.0
  {
    RateIsBits(rate, burst);
    Eighth(rate as real, t);
  }

  /** Waiting twice is waiting once for as long as both. */
  lemma WaitsAddUp(b: Bucket, s: Seconds, t: Seconds)
    requires Valid(b)
    ensures Advanced(Advanced(b, s), t) == Advanced(b, s + t)
  {
    Product(b.fill, s);
    Product(b.fill, t);
    assert b.fill * (s + t) == b.fill * s + b.fill * t;
  }

  /** A new rate keeps the balance, or as much of it as the new burst holds. */
  lemma NewRateKeepsBalance(b: Bucket, rate: nat, burst: Seconds)
    ensures var b' := Rerated(b, rate, burst);
            && 8.0 * b'.fill == rate as real && 8.0 * b'.capacity == rate as real * burst
            && (8.0 * b.tokens <= rate as real * burst ==> b'.tokens == b.tokens)
            && (8.0 * b.tokens >= rate as real * burst ==> b'.tokens == b'.capacity)
  {
    Eighth(rate as real, burst);
  }

  /** A grant takes exactly its bytes, or all there is if half a byte was missing; a refusal takes nothing. */
  lemma GrantCosts(b: Bucket, bytes: nat)
    requires Valid(b)
    ensures var b' := Consumed(b, bytes);
            && b'.fill == b.fill && b'.capacity == b.capacity
            && (b.tokens >= bytes as real ==> b'.tokens == b.tokens - bytes as real)
            && (b.tokens < bytes as real <= b.tokens + 0.5 ==> b'.tokens == 0.0)
            && (bytes as real > b.tokens + 0.5 ==> b' == b)
    ensures CanConsume(b, bytes) <==> bytes as real <= b.tokens + 0.5
  {
  }
}
