/** The bits of a 16-bit mask, one at a time. */
module MaskBits {

  /** `1 << i` */
  function Unit(i: nat): bv16 {
    if i == 0 then 0x0001 else if i == 1 then 0x0002 else if i == 2 then 0x0004 else if i == 3 then 0x0008
    else if i == 4 then 0x0010 else if i == 5 then 0x0020 else if i == 6 then 0x0040 else if i == 7 then 0x0080
    else if i == 8 then 0x0100 else if i == 9 then 0x0200 else if i == 10 then 0x0400 else if i == 11 then 0x0800
    else if i == 12 then 0x1000 else if i == 13 then 0x2000 else if i == 14 then 0x4000
    else 0x8000
  }

  predicate Meets(m: bv16, u: bv16) { m & u != 0 }

  predicate Bit(m: bv16, i: nat)
    requires i < 16
  {
    Meets(m, Unit(i))
  }

  /** `m << n`, one position at a time. */
  function ShiftLeft(m: bv16, n: nat): bv16 {
    if n == 0 then m else ShiftLeft(m, n - 1) << 1
  }

  lemma DoubleBit(m: bv16, i: nat)
    requires i < 16
    ensures Bit(m << 1, i) <==> i >= 1 && Bit(m, i - 1)
  {
  }

  lemma {:induction false} ShiftBit(m: bv16, n: nat, i: nat)
    requires i < 16
    ensures Bit(ShiftLeft(m, n), i) <==> i >= n && Bit(m, i - n)
  {
    hide Bit;
    if n > 0 {
      DoubleBit(ShiftLeft(m, n - 1), i);
      if i >= 1 {
        ShiftBit(m, n - 1, i - 1);
      }
    }
  }

  lemma UnitBit(n: nat, i: nat)
    requires n < 16 && i < 16
    ensures Bit(Unit(n), i) <==> i == n
  {
  }

  /** The mask `(1 << n) - 1` has exactly the low `n` bits. */
  lemma LowMaskBit(n: nat, i: nat)
    requires n < 16 && i < 16
    ensures Bit(Unit(n) - 1, i) <==> i < n
  {
  }

  lemma AllOnesBit(i: nat)
    requires i < 16
    ensures Bit(0xFFFF, i) && !Bit(0, i)
  {
  }

  predicate OneBit(u: bv16) { u != 0 && u & (u - 1) == 0 }

  lemma OrMask(a: bv16, b: bv16, u: bv16)
    ensures (a | b) & u != 0 <==> a & u != 0 || b & u != 0
  {
  }

  lemma OrMeets(a: bv16, b: bv16, u: bv16)
    ensures Meets(a | b, u) <==> Meets(a, u) || Meets(b, u)
  {
    OrMask(a, b, u);
  }

  lemma AndNotMask(a: bv16, b: bv16, u: bv16)
    requires OneBit(u)
    ensures (!a & b) & u != 0 <==> a & u == 0 && b & u != 0
  {
  }

  lemma AndNotMeets(a: bv16, b: bv16, u: bv16)
    requires OneBit(u)
    ensures Meets(!a & b, u) <==> !Meets(a, u) && Meets(b, u)
  {
    AndNotMask(a, b, u);
    hide OneBit;
  }

  lemma UnitIsOneBit(i: nat)
    requires i < 16
    ensures OneBit(Unit(i))
  {
  }

  lemma OrBit(a: bv16, b: bv16, i: nat)
    requires i < 16
    ensures Bit(a | b, i) <==> Bit(a, i) || Bit(b, i)
  {
    hide Unit, OneBit, Meets;
    OrMeets(a, b, Unit(i));
  }

  lemma AndNotBit(a: bv16, b: bv16, i: nat)
    requires i < 16
    ensures Bit(!a & b, i) <==> !Bit(a, i) && Bit(b, i)
  {
    hide Unit, OneBit, Meets;
    UnitIsOneBit(i);
    AndNotMeets(a, b, Unit(i));
  }
}
