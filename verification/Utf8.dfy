/** UTF-8: scalar values and their byte forms. */
module Utf8 {
  import opened Wire

  type Scalar = c: nat | c < 0xD800 || 0xE000 <= c < 0x11_0000 witness 0

  /** A continuation byte carries six bits. */
  function Tail(bits: nat): byte
    requires bits < 0x40
  {
    0x80 + bits
  }

  function EncodeScalar(c: Scalar): (bytes: seq<byte>)
    ensures 0 < |bytes| <= 4
  {
    var q := c / 0x40;
    var r := q / 0x40;
    if c < 0x80 then [c]
    else if c < 0x800 then [0xC0 + q, Tail(c % 0x40)]
    else if c < 0x1_0000 then [0xE0 + r, Tail(q % 0x40), Tail(c % 0x40)]
    else [0xF0 + r / 0x40, Tail(r % 0x40), Tail(q % 0x40), Tail(c % 0x40)]
  }

  function Encode(s: seq<Scalar>): seq<byte> {
    if s == [] then [] else EncodeScalar(s[0]) + Encode(s[1..])
  }

  predicate Continues(b: byte) { 0x80 <= b < 0xC0 }

  /** The bits gathered so far, followed by the six of a continuation byte. */
  function Extend(bits: nat, b: byte): nat
    requires Continues(b)
  {
    bits * 0x40 + (b as int - 0x80)
  }

  /** The first scalar of a byte string. Overlong forms, surrogates and values out of range are refused. */
  function FirstScalar(b: seq<byte>): (r: Option<(Scalar, nat)>)
    requires b != []
    ensures r.Some? ==> 0 < r.value.1 <= |b|
  {
    var lead: int := b[0];
    if lead < 0x80 then Some((lead, 1))
    else if 0xC2 <= lead < 0xE0 && |b| >= 2 && Continues(b[1]) then
      Some((Extend(lead - 0xC0, b[1]), 2))
    else if 0xE0 <= lead < 0xF0 && |b| >= 3 && Continues(b[1]) && Continues(b[2]) then
      var c := Extend(Extend(lead - 0xE0, b[1]), b[2]);
      if c < 0x800 || 0xD800 <= c < 0xE000 then None else Some((c, 3))
    else if 0xF0 <= lead < 0xF5 && |b| >= 4 && Continues(b[1]) && Continues(b[2]) && Continues(b[3]) then
      var c := Extend(Extend(Extend(lead - 0xF0, b[1]), b[2]), b[3]);
      if c < 0x1_0000 || c >= 0x11_0000 then None else Some((c, 4))
    else None
  }

  function Decode(b: seq<byte>): Option<seq<Scalar>> {
    if b == [] then Some([])
    else
      var first := FirstScalar(b);
      if first.None? then None
      else
        var rest := Decode(b[first.value.1..]);
        if rest.None? then None else Some([first.value.0] + rest.value)
  }

  lemma ExtendTail(c: nat)
    ensures Extend(c / 0x40, Tail(c % 0x40)) == c && Continues(Tail(c % 0x40))
  {
  }

  lemma TailOfExtend(bits: nat, b: byte)
    requires Continues(b)
    ensures var c := Extend(bits, b); c / 0x40 == bits && Tail(c % 0x40) == b
  {
  }

  lemma ScalarRoundTrip(c: Scalar, rest: seq<byte>)
    ensures FirstScalar(EncodeScalar(c) + rest) == Some((c, |EncodeScalar(c)|))
  {
    hide Extend, Tail, Continues;
    ExtendTail(c);
    ExtendTail(c / 0x40);
    ExtendTail(c / 0x40 / 0x40);
    TailIsHigh(c);
  }

  lemma TailIsHigh(c: Scalar)
    ensures 0x80 <= c < 0x800 ==> 0xC2 <= 0xC0 + c / 0x40 < 0xE0
    ensures 0x800 <= c < 0x1_0000 ==> 0xE0 <= 0xE0 + c / 0x40 / 0x40 < 0xF0
    ensures 0x1_0000 <= c ==> 0xF0 <= 0xF0 + c / 0x40 / 0x40 / 0x40 < 0xF5
  {
  }

  lemma ScalarCanonical(b: seq<byte>)
    requires b != [] && FirstScalar(b).Some?
    ensures var (c, n) := FirstScalar(b).value; EncodeScalar(c) == b[..n]
  {
    var lead: int, n := b[0], FirstScalar(b).value.1;
    match n {
      case 1 =>
      case 2 => TwoCanonical(lead - 0xC0, b[1]);
      case 3 => ThreeCanonical(lead - 0xE0, b[1], b[2]);
      case _ => FourCanonical(lead - 0xF0, b[1], b[2], b[3]);
    }
  }

  lemma TwoCanonical(bits: nat, x: byte)
    requires 2 <= bits < 0x20 && Continues(x)
    ensures EncodeScalar(Extend(bits, x)) == [0xC0 + bits, x]
  {
    TailOfExtend(bits, x);
  }

  lemma ThreeCanonical(bits: nat, x: byte, y: byte)
    requires bits < 0x10 && Continues(x) && Continues(y)
    requires var c := Extend(Extend(bits, x), y); 0x800 <= c && !(0xD800 <= c < 0xE000)
    ensures EncodeScalar(Extend(Extend(bits, x), y)) == [0xE0 + bits, x, y]
  {
    TailOfExtend(bits, x);
    TailOfExtend(Extend(bits, x), y);
  }

  lemma FourCanonical(bits: nat, x: byte, y: byte, z: byte)
    requires bits < 5 && Continues(x) && Continues(y) && Continues(z)
    requires 0x1_0000 <= Extend(Extend(Extend(bits, x), y), z) < 0x11_0000
    ensures EncodeScalar(Extend(Extend(Extend(bits, x), y), z)) == [0xF0 + bits, x, y, z]
  {
    hide Tail;
    TailOfExtend(bits, x);
    TailOfExtend(Extend(bits, x), y);
    TailOfExtend(Extend(Extend(bits, x), y), z);
  }

  lemma {:induction false} RoundTrip(s: seq<Scalar>)
    ensures Decode(Encode(s)) == Some(s)
  {
    hide FirstScalar, EncodeScalar;
    if s != [] {
      ScalarRoundTrip(s[0], Encode(s[1..]));
      RoundTrip(s[1..]);
      assert Encode(s)[|EncodeScalar(s[0])|..] == Encode(s[1..]);
      assert [s[0]] + s[1..] == s;
    }
  }

  lemma {:induction false} Canonical(b: seq<byte>)
    requires Decode(b).Some?
    ensures Encode(Decode(b).value) == b
    decreases |b|
  {
    hide FirstScalar, EncodeScalar;
    if b != [] {
      var (c, n) := FirstScalar(b).value;
      ScalarCanonical(b);
      Canonical(b[n..]);
      assert Decode(b).value[1..] == Decode(b[n..]).value;
      assert b[..n] + b[n..] == b;
    }
  }

  /** The four forms by their places. */
  lemma Forms(c: Scalar)
    ensures var e := EncodeScalar(c);
            && (c < 128 ==> e == [c])
            && (128 <= c < 2048 ==> |e| == 2 && (e[0] as int - 192) * 64 + (e[1] as int - 128) == c)
            && (2048 <= c < 65536 ==>
                  |e| == 3 && (e[0] as int - 224) * 4096 + (e[1] as int - 128) * 64 + (e[2] as int - 128) == c)
            && (65536 <= c ==>
                  |e| == 4
                  && (e[0] as int - 240) * 262144 + (e[1] as int - 128) * 4096 + (e[2] as int - 128) * 64
                     + (e[3] as int - 128) == c)
            && forall i :: 1 <= i < |e| ==> 128 <= e[i] < 192
  {
  }
}
