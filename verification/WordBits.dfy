/** The bits of 16-bit words and of the bytes they are read from. */
module WordBits {
  import opened Words
  import opened Lfsr

  /** The word with b below the bits of x. */
  function Push(x: bv16, b: bool): bv16 {
    (x << 1) | (if b then 1 else 0)
  }

  /** The low n bits of v as a word. */
  function ToBits(v: nat, n: nat): bv16 {
    if n == 0 then 0 else Push(ToBits(v / 2, n - 1), v % 2 == 1)
  }

  /** The 16-bit word with the value v. */
  function AsWord(v: uint16): bv16 {
    ToBits(v, 16)
  }

  /** Bit k of a number. */
  function NatBit(v: nat, k: nat): bool {
    if k == 0 then v % 2 == 1 else NatBit(v / 2, k - 1)
  }

  function Pow2(n: nat): (p: nat)
    ensures p >= 1
  {
    if n == 0 then 1 else 2 * Pow2(n - 1)
  }

  lemma {:induction false} BitOfBits(v: nat, n: nat, k: nat)
    requires k < n <= 16
    ensures Bit(ToBits(v, n), k) == NatBit(v, k)
    decreases n
  {
    hide Hit, Mask, Above, Push;
    var x := ToBits(v / 2, n - 1);
    if k == 0 {
      LowestBit(x, v % 2 == 1);
    } else {
      BitOfBits(v / 2, n - 1, k - 1);
      MaskShift(k - 1);
      BitAbove(x, v % 2 == 1, Mask(k - 1), Mask(k));
    }
  }

  lemma {:induction false} LowestBit(x: bv16, b: bool)
    ensures Hit(Push(x, b), Mask(0)) <==> b
  {
  }

  lemma {:induction false} BitAbove(x: bv16, b: bool, m: bv16, n: bv16)
    requires Above(n, m)
    ensures Hit(Push(x, b), n) <==> Hit(x, m)
  {
  }

  /** The bits of a number put together from two parts are the bits of the parts. */
  lemma {:induction false} BitOfParts(low: nat, high: nat, n: nat, k: nat)
    requires low < Pow2(n)
    ensures NatBit(low + Pow2(n) * high, k) == if k < n then NatBit(low, k) else NatBit(high, k - n)
    decreases k
  {
    if n > 0 {
      HalfOfParts(low, high, Pow2(n - 1));
      if k > 0 { BitOfParts(low / 2, high, n - 1, k - 1); }
    }
  }

  lemma {:induction false} HalfOfParts(low: nat, high: nat, p: nat)
    requires low < 2 * p
    ensures low + 2 * p * high >= 0 && low / 2 < p
    ensures (low + 2 * p * high) / 2 == low / 2 + p * high && (low + 2 * p * high) % 2 == low % 2
  {
    assert 2 * p * high == 2 * (p * high);
  }

  lemma {:induction false} ZeroBits(n: nat)
    ensures ToBits(0, n) == 0
  {
    if n > 0 { ZeroBits(n - 1); }
  }

  lemma {:induction false} PowerBits(i: nat)
    requires i < 16
    ensures ToBits(Pow2(i), i + 1) == Mask(i)
  {
    hide Mask, Above, Push;
    if i == 0 {
      FirstBit();
    } else {
      PowerBits(i - 1);
      MaskShift(i - 1);
      ShiftedMask(Mask(i), Mask(i - 1));
    }
  }

  lemma {:induction false} FirstBit()
    ensures ToBits(1, 1) == Mask(0)
  {
    assert ToBits(0, 0) == 0;
  }

  lemma {:induction false} ShiftedMask(n: bv16, m: bv16)
    requires Above(n, m)
    ensures Push(m, false) == n
  {
  }

  lemma {:induction false} SmallPowers()
    ensures Pow2(7) == 0x80 && Pow2(8) == 0x100 && Pow2(15) == 0x8000
  {
    assert Pow2(2) == 4;
    assert Pow2(4) == 0x10;
    assert Pow2(6) == 0x40;
    assert Pow2(8) == 0x100;
    assert Pow2(10) == 0x400;
    assert Pow2(12) == 0x1000;
    assert Pow2(14) == 0x4000;
  }

  lemma {:induction false} KnownWords()
    ensures AsWord(0) == 0 && AsWord(1) == 1 && AsWord(0x8000) == 0x8000
  {
    hide Push, Mask;
    ZeroBits(15);
    ZeroBits(16);
    OneBits();
    PowerBits(15);
    TopMask();
    SmallPowers();
  }

  lemma {:induction false} OneBits()
    ensures ToBits(1, 16) == 1
  {
    ZeroBits(15);
  }

  lemma {:induction false} TopMask()
    ensures Mask(15) == 0x8000
  {
  }
}
