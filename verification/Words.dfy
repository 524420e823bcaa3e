/** Bytes, little-endian words and byte-sequence splicing: the vocabulary of device memory. */
module Words {
  type byte = x: int | 0 <= x < 0x100
  type uint16 = x: int | 0 <= x < 0x1_0000
  type uint26 = x: int | 0 <= x < 0x400_0000
  type uint32 = x: int | 0 <= x < 0x1_0000_0000
  type uint64 = x: int | 0 <= x < 0x1_0000_0000_0000_0000

  function Pow256(n: nat): (p: nat)
    ensures p >= 1
  {
    if n == 0 then 1 else 256 * Pow256(n - 1)
  }

  /** The n bytes of v, least significant first. */
  function ToLe(v: nat, n: nat): (b: seq<byte>)
    ensures |b| == n
    decreases n
  {
    if n == 0 then [] else [v % 256] + ToLe(v / 256, n - 1)
  }

  /** The number whose bytes, least significant first, are b. */
  function FromLe(b: seq<byte>): nat {
    if b == [] then 0 else b[0] + 256 * FromLe(b[1..])
  }

  lemma {:induction false} FromToLe(v: nat, n: nat)
    requires v < Pow256(n)
    ensures FromLe(ToLe(v, n)) == v
    decreases n
  {
    if n > 0 {
      FromToLe(v / 256, n - 1);
      assert ToLe(v, n)[1..] == ToLe(v / 256, n - 1);
    }
  }

  lemma {:induction false} ToFromLe(b: seq<byte>)
    ensures FromLe(b) < Pow256(|b|)
    ensures ToLe(FromLe(b), |b|) == b
  {
    if b != [] {
      ToFromLe(b[1..]);
      assert FromLe(b) / 256 == FromLe(b[1..]) && FromLe(b) % 256 == b[0];
      assert b == [b[0]] + b[1..];
    }
  }

  lemma {:induction false} PowersOf256()
    ensures Pow256(4) == 0x1_0000_0000
    ensures Pow256(8) == 0x1_0000_0000_0000_0000
  {
    assert Pow256(2) == 0x1_0000;
    assert Pow256(4) == 256 * (256 * Pow256(2));
    assert Pow256(6) == 256 * (256 * Pow256(4));
  }

  /** Four bytes are a 32-bit word, eight a 64-bit word, and back. */
  lemma {:induction false} WordLe(b: seq<byte>)
    ensures |b| == 4 ==> FromLe(b) < 0x1_0000_0000
    ensures |b| == 8 ==> FromLe(b) < 0x1_0000_0000_0000_0000
    ensures ToLe(FromLe(b), |b|) == b
  {
    hide ToLe, FromLe, Pow256;
    ToFromLe(b);
    PowersOf256();
  }

  /** Byte by byte, the least significant first. */
  lemma {:induction false} LeFour(b: seq<byte>)
    requires |b| == 4
    ensures var b0: nat, b1: nat, b2: nat, b3: nat := b[0], b[1], b[2], b[3];
            FromLe(b) == b0 + 0x100 * b1 + 0x1_0000 * b2 + 0x100_0000 * b3
  {
    LeTail(b);
    assert b[4..] == [];
  }

  lemma {:induction false} LeEight(b: seq<byte>)
    requires |b| == 8
    ensures FromLe(b) == FromLe(b[..4]) + 0x1_0000_0000 * FromLe(b[4..])
  {
    hide FromLe;
    LeTail(b);
    LeFour(b[..4]);
  }

  lemma {:induction false} LeTail(b: seq<byte>)
    requires |b| >= 4
    ensures var b0: nat, b1: nat, b2: nat, b3: nat := b[0], b[1], b[2], b[3];
            FromLe(b) == b0 + 0x100 * b1 + 0x1_0000 * b2 + 0x100_0000 * b3 + 0x1_0000_0000 * FromLe(b[4..])
  {
    var b0: nat, b1: nat, b2: nat, b3: nat := b[0], b[1], b[2], b[3];
    assert FromLe(b[3..]) == b3 + 256 * FromLe(b[4..]) by { assert b[3..][1..] == b[4..]; }
    assert FromLe(b[2..]) == b2 + 256 * FromLe(b[3..]) by { assert b[2..][1..] == b[3..]; }
    assert FromLe(b[1..]) == b1 + 256 * FromLe(b[2..]) by { assert b[1..][1..] == b[2..]; }
  }

  lemma {:induction false} ZeroBytes(n: nat)
    ensures forall k :: 0 <= k < n ==> ToLe(0, n)[k] == 0
    decreases n
  {
    if n > 0 {
      ZeroBytes(n - 1);
      assert forall k :: 1 <= k < n ==> ToLe(0, n)[k] == ToLe(0, n - 1)[k - 1];
    }
  }

  /** m with the bytes at offs replaced by d. */
  function Splice(m: seq<byte>, offs: nat, d: seq<byte>): (r: seq<byte>)
    requires offs + |d| <= |m|
    ensures |r| == |m|
    ensures r[offs..offs + |d|] == d
    ensures forall k :: 0 <= k < offs || offs + |d| <= k < |m| ==> r[k] == m[k]
  {
    m[..offs] + d + m[offs + |d|..]
  }

  lemma {:induction false} SpliceElsewhere(m: seq<byte>, offs: nat, d: seq<byte>, a: nat, b: nat)
    requires offs + |d| <= |m| && a <= b <= |m| && (b <= offs || offs + |d| <= a)
    ensures Splice(m, offs, d)[a..b] == m[a..b]
  {
  }
}
