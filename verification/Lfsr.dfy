/** example/demo_cpp/inc/AxiTrafficGenLfsr.hpp: the generator of the test pattern. */
module Lfsr {
  function NewBit(v: bv16): bv16 {
    1 ^ v ^ (v >> 1) ^ (v >> 3) ^ (v >> 12)
  }

  /** The state after v. */
  function Next(v: bv16): bv16 {
    (NewBit(v) << 15) | (v >> 1)
  }

  /** The state before v. */
  function Previous(v: bv16): bv16 {
    (v << 1) | ((1 ^ (v >> 15) ^ v ^ (v >> 2) ^ (v >> 11)) & 1)
  }

  /** The state k steps after v. */
  function Iter(v: bv16, k: nat): bv16 {
    if k == 0 then v else Next(Iter(v, k - 1))
  }

  /** Bit i of v. */
  function Bit(v: bv16, i: nat): bool
    requires i < 16
  {
    Hit(v, Mask(i))
  }

  predicate Hit(v: bv16, m: bv16) {
    v & m != 0
  }

  /** a and b have the same bits under the mask m. */
  predicate SameUnder(a: bv16, b: bv16, m: bv16) {
    a & m == b & m
  }

  function Union(m: bv16, n: bv16): bv16 {
    m | n
  }

  /** n is the mask one bit above m. */
  predicate Above(n: bv16, m: bv16) {
    n == m << 1 && m & 0x8000 == 0
  }

  function Mask(i: nat): bv16
    requires i < 16
  {
    match i
    case 0 => 0x1 case 1 => 0x2 case 2 => 0x4 case 3 => 0x8
    case 4 => 0x10 case 5 => 0x20 case 6 => 0x40 case 7 => 0x80
    case 8 => 0x100 case 9 => 0x200 case 10 => 0x400 case 11 => 0x800
    case 12 => 0x1000 case 13 => 0x2000 case 14 => 0x4000 case 15 => 0x8000
  }

  function Num(b: bool): nat {
    if b then 1 else 0
  }

  /** The bit sequence that starts with the 16 bits of the seed; each further bit is set exactly if
      an even number of the bits 16, 15, 13 and 4 places before it are. */
  function Sequence(seed: bv16, t: nat): bool {
    if t < 16 then Bit(seed, t)
    else (Num(Sequence(seed, t - 16)) + Num(Sequence(seed, t - 15))
          + Num(Sequence(seed, t - 13)) + Num(Sequence(seed, t - 4))) % 2 == 0
  }

  lemma {:induction false} NextShifts(v: bv16, i: nat)
    requires i < 15
    ensures Bit(Next(v), i) == Bit(v, i + 1)
  {
    hide Next, Mask, Hit, Above;
    MaskShift(i);
    ShiftMask(v, Mask(i), Mask(i + 1));
  }

  lemma {:induction false} MaskShift(i: nat)
    requires i < 15
    ensures Above(Mask(i + 1), Mask(i))
  {
  }

  lemma {:induction false} ShiftMask(v: bv16, m: bv16, n: bv16)
    requires Above(n, m)
    ensures Hit(Next(v), m) <==> Hit(v, n)
  {
  }

  /** The new top bit is set exactly if an even number of the bits 0, 1, 3 and 12 are. */
  lemma {:induction false} NextTop(v: bv16)
    ensures Bit(Next(v), 15) <==>
            (Num(Bit(v, 0)) + Num(Bit(v, 1)) + Num(Bit(v, 3)) + Num(Bit(v, 12))) % 2 == 0
  {
    hide Num;
    TopBitXor(v);
    EvenCount(Bit(v, 0), Bit(v, 1), Bit(v, 3), Bit(v, 12));
  }

  lemma {:induction false} TopBitXor(v: bv16)
    ensures Bit(Next(v), 15) == ((Bit(v, 0) == Bit(v, 1)) == (Bit(v, 3) == Bit(v, 12)))
  {
  }

  lemma {:induction false} EvenCount(a: bool, b: bool, c: bool, d: bool)
    ensures ((a == b) == (c == d)) <==> (Num(a) + Num(b) + Num(c) + Num(d)) % 2 == 0
  {
  }

  /** From outside: the successor of 0 has its top bit set, and flipping one bit of a state flips
      the new top bit exactly if it is bit 0, 1, 3 or 12. */
  lemma {:induction false} TapsAre(v: bv16, j: nat)
    requires j < 16
    ensures Next(0) == 0x8000 && Next(0x0008) == 0x0004
    ensures Bit(Next(v ^ Mask(j)), 15) != Bit(Next(v), 15) <==> j in {0, 1, 3, 12}
  {
    hide Num, Bit, Mask;
    KnownSteps();
    TopBitXor(v);
    TopBitXor(v ^ Mask(j));
    FlipOne(v, j, 0);
    FlipOne(v, j, 1);
    FlipOne(v, j, 3);
    FlipOne(v, j, 12);
  }

  lemma {:induction false} KnownSteps()
    ensures Next(0) == 0x8000 && Next(0x0008) == 0x0004
  {
  }

  lemma {:induction false} FlipOne(v: bv16, j: nat, i: nat)
    requires j < 16 && i < 16
    ensures Bit(v ^ Mask(j), i) == (Bit(v, i) != (i == j))
  {
    hide Mask, Hit, Apart, OneBitMask;
    MaskIsOneBit(i);
    if i == j {
      FlipSame(v, Mask(i));
    } else {
      MasksApart(i, j);
      FlipOther(v, Mask(j), Mask(i));
    }
  }

  lemma {:induction false} MasksApart(i: nat, j: nat)
    requires i < 16 && j < 16 && i != j
    ensures Apart(Mask(i), Mask(j))
  {
  }

  predicate Apart(m: bv16, n: bv16) {
    m & n == 0
  }

  predicate OneBitMask(m: bv16) {
    m != 0 && m & (m - 1) == 0
  }

  lemma {:induction false} FlipSame(v: bv16, m: bv16)
    requires OneBitMask(m)
    ensures Hit(v ^ m, m) != Hit(v, m)
  {
  }

  lemma {:induction false} FlipOther(v: bv16, m: bv16, n: bv16)
    requires Apart(n, m)
    ensures Hit(v ^ m, n) == Hit(v, n)
  {
  }

  /** 16 bits determine the state. */
  lemma {:induction false} SameBits(a: bv16, b: bv16)
    requires forall i: nat :: i < 16 ==> Bit(a, i) == Bit(b, i)
    ensures a == b
  {
    hide Bit, LowMask;
    SameUpTo(a, b, 15);
    AllMasks();
  }

  /** The masks of bits 0 to i together. */
  function LowMask(i: nat): bv16
    requires i < 16
  {
    if i == 0 then Mask(0) else Union(LowMask(i - 1), Mask(i))
  }

  lemma {:induction false} AllMasks()
    ensures LowMask(15) == 0xffff
  {
    assert LowMask(7) == 0xff;
  }

  lemma {:induction false} SameUpTo(a: bv16, b: bv16, i: nat)
    requires i < 16 && forall k: nat :: k <= i ==> Bit(a, k) == Bit(b, k)
    ensures SameUnder(a, b, LowMask(i))
    decreases i
  {
    hide Bit, Mask, SameUnder, Union;
    SameBit(a, b, i);
    if i > 0 {
      SameUpTo(a, b, i - 1);
      Distribute(a, b, LowMask(i - 1), Mask(i));
    }
  }

  lemma {:induction false} Distribute(a: bv16, b: bv16, x: bv16, y: bv16)
    requires SameUnder(a, b, x) && SameUnder(a, b, y)
    ensures SameUnder(a, b, Union(x, y))
  {
  }

  lemma {:induction false} SameBit(a: bv16, b: bv16, i: nat)
    requires i < 16 && Bit(a, i) == Bit(b, i)
    ensures SameUnder(a, b, Mask(i))
  {
    hide Mask, Hit, SameUnder, OneBitMask;
    MaskIsOneBit(i);
    OneBit(a, b, Mask(i));
  }

  lemma {:induction false} MaskIsOneBit(i: nat)
    requires i < 16
    ensures OneBitMask(Mask(i))
  {
  }

  lemma {:induction false} OneBit(a: bv16, b: bv16, m: bv16)
    requires OneBitMask(m) && (Hit(a, m) <==> Hit(b, m))
    ensures SameUnder(a, b, m)
  {
  }

  /** After k steps the state is the 16-bit window of the sequence that starts at k. */
  lemma {:induction false} Window(seed: bv16, k: nat, i: nat)
    requires i < 16
    ensures Bit(Iter(seed, k), i) == Sequence(seed, k + i)
    decreases k
  {
    hide Bit, Next, Num;
    if k > 0 {
      var v := Iter(seed, k - 1);
      if i < 15 {
        NextShifts(v, i);
        Window(seed, k - 1, i + 1);
      } else {
        NextTop(v);
        Window(seed, k - 1, 0);
        Window(seed, k - 1, 1);
        Window(seed, k - 1, 3);
        Window(seed, k - 1, 12);
      }
    }
  }

  /** The window determines the state: a state is the one after k steps just when its bits are
      those of the sequence from k on. */
  lemma {:induction false} WindowDetermines(seed: bv16, k: nat, v: bv16)
    ensures v == Iter(seed, k) <==> forall i: nat :: i < 16 ==> Bit(v, i) == Sequence(seed, k + i)
  {
    hide Bit, Iter, Sequence;
    forall i: nat | i < 16 ensures Bit(Iter(seed, k), i) == Sequence(seed, k + i) {
      Window(seed, k, i);
    }
    if forall i: nat :: i < 16 ==> Bit(v, i) == Sequence(seed, k + i) {
      SameBits(v, Iter(seed, k));
    }
  }

  /** Every state has exactly one predecessor. */
  lemma {:induction false} StepIsBijective(v: bv16)
    ensures Previous(Next(v)) == v && Next(Previous(v)) == v
  {
    hide *;
    PreviousOfNext(v);
    NextOfPrevious(v);
  }

  lemma {:induction false} PreviousOfNext(v: bv16)
    ensures Previous(Next(v)) == v
  {
  }

  lemma {:induction false} NextOfPrevious(v: bv16)
    ensures Next(Previous(v)) == v
  {
  }

  /** Streams from different seeds never merge. */
  lemma {:induction false} NeverMerge(a: bv16, b: bv16, k: nat)
    ensures Iter(a, k) == Iter(b, k) <==> a == b
    decreases k
  {
    hide Next, Previous;
    if k > 0 {
      NeverMerge(a, b, k - 1);
      StepIsBijective(Iter(a, k - 1));
      StepIsBijective(Iter(b, k - 1));
    }
  }

  /** All ones is the one seed whose pattern never changes. */
  lemma {:induction false} StuckOnlyAtOnes(seed: bv16)
    ensures (forall k: nat :: Iter(seed, k) == seed) <==> seed == 0xffff
  {
    if seed == 0xffff {
      forall k: nat ensures Iter(seed, k) == seed { OnesStay(k); }
    } else {
      assert Iter(seed, 0) == seed;
      assert Iter(seed, 1) == Next(seed);
      OnlyFixedPoint(seed);
    }
  }

  lemma {:induction false} OnlyFixedPoint(v: bv16)
    ensures Next(v) == v <==> v == 0xffff
  {
  }

  lemma {:induction false} OnesStay(k: nat)
    ensures Iter(0xffff, k) == 0xffff
  {
    if k > 0 { OnesStay(k - 1); }
  }

  lemma {:induction false} IterAdd(v: bv16, a: nat, b: nat)
    ensures Iter(v, a + b) == Iter(Iter(v, a), b)
    decreases b
  {
    if b > 0 { IterAdd(v, a, b - 1); }
  }

  class AxiTrafficGenLfsr {
    var val: bv16

    constructor (seed: bv16)
      ensures val == seed
    {
      val := seed;
    }

    method Set(seed: bv16)
      modifies this
      ensures val == seed
    {
      val := seed;
    }

    /** Every bit moves down by one; the new top bit is set exactly if an even number of the bits
        0, 1, 3 and 12 were. */
    method Advance() returns (r: bv16)
      modifies this
      ensures r == val == Next(old(val))
      ensures forall i: nat :: i < 15 ==> Bit(val, i) == Bit(old(val), i + 1)
      ensures Bit(val, 15) <==>
              (Num(Bit(old(val), 0)) + Num(Bit(old(val), 1)) + Num(Bit(old(val), 3)) + Num(Bit(old(val), 12))) % 2 == 0
    {
      hide Bit, Num;
      ghost var v := val;
      var newBit := 1 ^ val ^ (val >> 1) ^ (val >> 3) ^ (val >> 12);
      val := (newBit << 15) | (val >> 1);
      r := val;
      NextTop(v);
      forall i: nat | i < 15 ensures Bit(val, i) == Bit(v, i + 1) { NextShifts(v, i); }
    }

    function Get(): bv16
      reads this
    {
      val
    }
  }
}
