/** Register access: the word loops that move registers between device memory and the program. */
module HwAccess {
  import opened Words

  const UINT32_SIZE: nat := 0x1_0000_0000

  /** How many of n bytes written word by word at offs reach a memory of len bytes before the
      bounds check stops the write. */
  function Landed(len: nat, offs: nat, n: nat): (k: nat)
    ensures k <= n && (k == 0 || offs + k <= len)
    ensures k == n <==> (n == 0 || offs + n <= len)
  {
    if offs + n <= len then n
    else if offs >= len then 0
    else (len - offs) / 4 * 4
  }

  /** Memory after data was written at offs. */
  function Store(m: seq<byte>, offs: nat, data: seq<byte>): (r: seq<byte>)
    ensures |r| == |m|
  {
    var k := Landed(|m|, offs, |data|);
    if k == 0 then m else Splice(m, offs, data[..k])
  }

  /** Read-after-write returns the value, and no byte outside the register changes. */
  lemma {:induction false} StoreReadsBack(m: seq<byte>, offs: nat, data: seq<byte>)
    requires offs + |data| <= |m|
    ensures Store(m, offs, data)[offs..offs + |data|] == data
    ensures forall k :: 0 <= k < |m| && !(offs <= k < offs + |data|) ==> Store(m, offs, data)[k] == m[k]
  {
    assert data[..|data|] == data;
  }

  lemma {:induction false} StoreWhole(m: seq<byte>, offs: nat, data: seq<byte>)
    ensures offs + |data| <= |m| ==> Store(m, offs, data) == Splice(m, offs, data)
  {
    assert data[..|data|] == data;
    if data == [] && offs <= |m| { assert Splice(m, offs, data) == m; }
  }

  lemma {:induction false} StoreNothing(m: seq<byte>, offs: nat)
    ensures Store(m, offs, []) == m
  {
  }

  /** A write to one register is invisible to every other. */
  lemma {:induction false} StoreElsewhere(m: seq<byte>, offs: nat, data: seq<byte>, a: nat, b: nat)
    requires a <= b <= |m| && (b <= offs || offs + |data| <= a)
    ensures Store(m, offs, data)[a..b] == m[a..b]
  {
  }

  /** Writing one more word extends what has landed. */
  lemma {:induction false} StoreNextWord(m: seq<byte>, offs: nat, data: seq<byte>, i: nat)
    requires i % 4 == 0 && i + 4 <= |data| && |data| % 4 == 0 && (i == 0 || offs + i <= |m|)
    ensures offs + i + 4 <= |m| ==>
              Splice(Store(m, offs, data[..i]), offs + i, data[i..i + 4]) == Store(m, offs, data[..i + 4])
    ensures offs + i + 4 > |m| ==> Store(m, offs, data[..i]) == Store(m, offs, data) && offs + |data| > |m|
  {
    if offs + i + 4 > |m| {
      LandedStops(|m|, offs, |data|, i);
      assert data[..i][..i] == data[..i];
    } else {
      hide Splice;
      assert data[..i][..i] == data[..i] && data[..i + 4][..i + 4] == data[..i + 4];
      SpliceNext(m, offs, data, i);
    }
  }

  lemma {:induction false} LandedStops(len: nat, offs: nat, n: nat, i: nat)
    requires i % 4 == 0 && i + 4 <= n && (i == 0 || offs + i <= len) && offs + i + 4 > len
    ensures Landed(len, offs, n) == i == Landed(len, offs, i)
  {
  }

  lemma {:induction false} SpliceNext(m: seq<byte>, offs: nat, data: seq<byte>, i: nat)
    requires i + 4 <= |data| && offs + i + 4 <= |m|
    ensures Splice(Splice(m, offs, data[..i]), offs + i, data[i..i + 4]) == Splice(m, offs, data[..i + 4])
    ensures i == 0 ==> Splice(m, offs, data[..i]) == m
  {
    assert data[..i + 4] == data[..i] + data[i..i + 4];
    assert m[..offs] + data[..i] + m[offs + i..] == Splice(m, offs, data[..i]);
  }

  /** Two words, the lower address first, extend what has landed as one 64-bit word does. */
  lemma {:induction false} StoreNextPair(m: seq<byte>, offs: nat, data: seq<byte>, i: nat)
    requires i % 8 == 0 && i + 8 <= |data| && |data| % 8 == 0 && (i == 0 || offs + i <= |m|)
    ensures offs + i + 8 <= |m| ==>
              Store(Store(m, offs, data[..i]), offs + i, data[i..i + 8]) == Store(m, offs, data[..i + 8])
    ensures offs + i + 8 > |m| ==>
              Store(Store(m, offs, data[..i]), offs + i, data[i..i + 8]) == Store(m, offs, data) && offs + |data| > |m|
  {
    hide Splice, Store, Landed;
    Eights(i, |data|);
    var pair, landed := data[i..i + 8], Store(m, offs, data[..i]);
    StoreTwoWords(landed, offs + i, pair);
    PairWords(data, i);
    StoreNextWord(m, offs, data, i);
    if offs + i + 8 <= |m| {
      StoreNextWord(m, offs, data, i + 4);
      assert Splice(landed, offs + i, pair[0..4]) == Store(m, offs, data[..i + 4]);
    } else if offs + i + 4 <= |m| {
      StoreNextWord(m, offs, data, i + 4);
      assert Splice(landed, offs + i, pair[0..4]) == Store(m, offs, data);
    }
  }

  lemma {:induction false} Eights(i: nat, n: nat)
    requires i % 8 == 0 && n % 8 == 0
    ensures i % 4 == 0 && (i + 4) % 4 == 0 && (i + 8) % 8 == 0 && n % 4 == 0
    ensures i < n ==> i + 8 <= n
  {
    var a, b := i / 8, n / 8;
    assert i == 8 * a && n == 8 * b;
    HalvesOfEight(a);
    HalvesOfEight(b);
    assert a < b || b <= a;
  }

  lemma {:induction false} HalvesOfEight(a: nat)
    ensures (8 * a) % 4 == 0 && (8 * a + 4) % 4 == 0 && (8 * a + 8) % 8 == 0
  {
  }

  lemma {:induction false} Fours(i: nat, n: nat)
    requires i % 4 == 0 && n % 4 == 0
    ensures (i + 4) % 4 == 0 && (i < n ==> i + 4 <= n)
  {
  }

  lemma {:induction false} SliceNext(m: seq<byte>, offs: nat, i: nat, k: nat)
    requires offs + i + k <= |m|
    ensures m[offs..offs + i] + m[offs + i..offs + i + k] == m[offs..offs + i + k]
  {
  }

  lemma {:induction false} PairWords(data: seq<byte>, i: nat)
    requires i + 8 <= |data|
    ensures data[i..i + 8][0..4] == data[i..i + 4] && data[i..i + 8][4..8] == data[i + 4..i + 8]
  {
  }

  lemma {:induction false} StoreTwoWords(m: seq<byte>, offs: nat, pair: seq<byte>)
    requires |pair| == 8
    ensures offs + 8 <= |m| ==> Store(m, offs, pair) == Splice(Splice(m, offs, pair[0..4]), offs + 4, pair[4..8])
    ensures offs + 4 <= |m| < offs + 8 ==> Store(m, offs, pair) == Splice(m, offs, pair[0..4])
    ensures offs + 4 > |m| ==> Store(m, offs, pair) == m
  {
    hide Splice, Store, Landed;
    StoreNothing(m, offs);
    assert pair[..0] == [] && pair[..8] == pair;
    StoreNextWord(m, offs, pair, 0);
    if offs + 4 <= |m| { StoreNextWord(m, offs, pair, 4); }
  }

  /** Word-wise access to a memory of bytes: natively 64 bits wide without bounds checks, as a
      memory mapping is, or 32 bits wide with the bounds checks of the mock hardware. */
  class HwAccessor {
    const native64: bool
    const physAddr: uint64
    const mem: array<byte>

    /** The memory is smaller than the 32-bit offset space, so offsets never wrap before the
        bounds check fires; its physical addresses fit 64 bits. */
    ghost predicate Valid() {
      mem.Length < UINT32_SIZE && physAddr + mem.Length <= 0x1_0000_0000_0000_0000
    }

    /** What the accessor demands of its caller: a mapping must not be left. */
    ghost predicate Mapped(offs: nat, size: nat) {
      native64 ==> offs + size <= mem.Length
    }

    constructor (memSize: nat, isNative64: bool, addr: uint64)
      requires memSize < UINT32_SIZE && addr + memSize <= 0x1_0000_0000_0000_0000
      ensures Valid() && fresh(mem) && mem.Length == memSize && native64 == isNative64 && physAddr == addr
      ensures forall k :: 0 <= k < memSize ==> mem[k] == 0
    {
      native64, physAddr := isNative64, addr;
      mem := new byte[memSize](_ => 0);
    }

    method Rd32(offs: uint32) returns (ok: bool, val: uint32)
      requires Valid() && Mapped(offs, 4)
      ensures ok <==> offs + 4 <= mem.Length
      ensures ok ==> val == FromLe(mem[offs..offs + 4])
    {
      if offs + 4 > mem.Length {
        return false, 0;
      }
      WordLe(mem[offs..offs + 4]);
      return true, FromLe(mem[offs..offs + 4]);
    }

    method Wr32(offs: uint32, data: uint32) returns (ok: bool)
      requires Valid() && Mapped(offs, 4)
      modifies mem
      ensures ok <==> offs + 4 <= mem.Length
      ensures mem[..] == if ok then Splice(old(mem[..]), offs, ToLe(data, 4)) else old(mem[..])
    {
      if offs + 4 > mem.Length {
        return false;
      }
      hide ToLe, FromLe, Splice, Store, Landed;
      var b := ToLe(data, 4);
      forall k | 0 <= k < 4 {
        mem[offs + k] := b[k];
      }
      return true;
    }

    /** Natively one access, otherwise two 32-bit accesses, the lower address first. */
    method Rd64(offs: uint32) returns (ok: bool, val: uint64)
      requires Valid() && Mapped(offs, 8)
      ensures ok <==> offs + 8 <= mem.Length
      ensures ok ==> val == FromLe(mem[offs..offs + 8])
    {
      hide ToLe, FromLe;
      if native64 {
        WordLe(mem[offs..offs + 8]);
        return true, FromLe(mem[offs..offs + 8]);
      }
      var lo, hi;
      ok, lo := Rd32(offs);
      if !ok { return false, 0; }
      ok, hi := Rd32((offs + 4) % UINT32_SIZE);
      if !ok { return false, 0; }
      WordLe(mem[offs..offs + 4]);
      WordLe(mem[offs + 4..offs + 8]);
      assert mem[offs..offs + 4] + mem[offs + 4..offs + 8] == mem[offs..offs + 8];
      WordLe(mem[offs..offs + 8]);
      return true, FromLe(ToLe(lo, 4) + ToLe(hi, 4));
    }

    method Wr64(offs: uint32, data: uint64) returns (ok: bool)
      requires Valid() && Mapped(offs, 8)
      modifies mem
      ensures ok <==> offs + 8 <= mem.Length
      ensures mem[..] == Store(old(mem[..]), offs, ToLe(data, 8))
    {
      hide ToLe, FromLe, Splice, Store, Landed;
      var b := ToLe(data, 8);
      ghost var m := mem[..];
      StoreTwoWords(m, offs, b);
      StoreWhole(m, offs, b);
      if native64 {
        forall k | 0 <= k < 8 {
          mem[offs + k] := b[k];
        }
        assert mem[..] == Splice(m, offs, b);
        return true;
      }
      WordLe(b[0..4]);
      WordLe(b[4..8]);
      ok := Wr32(offs, FromLe(b[0..4]));
      if ok {
        ok := Wr32((offs + 4) % UINT32_SIZE, FromLe(b[4..8]));
      }
    }

    method RdMem32(offs: uint32, size: nat) returns (ok: bool, data: seq<byte>)
      requires Valid() && Mapped(offs, size) && size > 0 && size % 4 == 0
      ensures ok <==> offs + size <= mem.Length
      ensures ok ==> data == mem[offs..offs + size]
    {
      hide ToLe, FromLe, Splice, Store, Landed;
      ghost var m := mem[..];
      data := [];
      var i := 0;
      while i < size
        invariant i <= size && i % 4 == 0
        invariant (i == 0 || offs + i <= mem.Length) && |data| == i
        invariant i > 0 ==> data == m[offs..offs + i]
      {
        Fours(i, size);
        assert (offs + i) % UINT32_SIZE == offs + i;
        var w;
        ok, w := Rd32((offs + i) % UINT32_SIZE);
        if !ok { return false, []; }
        WordLe(m[offs + i..offs + i + 4]);
        SliceNext(m, offs, i, 4);
        data := data + ToLe(w, 4);
        i := i + 4;
      }
      ok := true;
    }

    method RdMem64(offs: uint32, size: nat) returns (ok: bool, data: seq<byte>)
      requires Valid() && Mapped(offs, size) && size > 0 && size % 8 == 0
      ensures ok <==> offs + size <= mem.Length
      ensures ok ==> data == mem[offs..offs + size]
    {
      hide ToLe, FromLe, Splice, Store, Landed;
      ghost var m := mem[..];
      data := [];
      var i := 0;
      while i < size
        invariant i <= size && i % 8 == 0
        invariant (i == 0 || offs + i <= mem.Length) && |data| == i
        invariant i > 0 ==> data == m[offs..offs + i]
      {
        Eights(i, size);
        assert (offs + i) % UINT32_SIZE == offs + i;
        var w;
        ok, w := Rd64((offs + i) % UINT32_SIZE);
        if !ok { return false, []; }
        WordLe(m[offs + i..offs + i + 8]);
        SliceNext(m, offs, i, 8);
        data := data + ToLe(w, 8);
        i := i + 8;
      }
      ok := true;
    }

    method WrMem32(offs: uint32, data: seq<byte>) returns (ok: bool)
      requires Valid() && Mapped(offs, |data|) && |data| > 0 && |data| % 4 == 0
      modifies mem
      ensures ok <==> offs + |data| <= mem.Length
      ensures mem[..] == Store(old(mem[..]), offs, data)
    {
      hide ToLe, FromLe, Splice, Store, Landed;
      ghost var m := mem[..];
      StoreNothing(m, offs);
      assert data[..0] == [];
      var i := 0;
      while i < |data|
        invariant i <= |data| && i % 4 == 0
        invariant i == 0 || offs + i <= mem.Length
        invariant mem[..] == Store(m, offs, data[..i])
      {
        Fours(i, |data|);
        StoreNextWord(m, offs, data, i);
        WordLe(data[i..i + 4]);
        ok := Wr32((offs + i) % UINT32_SIZE, FromLe(data[i..i + 4]));
        if !ok { return; }
        i := i + 4;
      }
      assert data[..i] == data;
      ok := true;
    }

    method WrMem64(offs: uint32, data: seq<byte>) returns (ok: bool)
      requires Valid() && Mapped(offs, |data|) && |data| > 0 && |data| % 8 == 0
      modifies mem
      ensures ok <==> offs + |data| <= mem.Length
      ensures mem[..] == Store(old(mem[..]), offs, data)
    {
      hide ToLe, FromLe, Splice, Store, Landed;
      ghost var m := mem[..];
      StoreNothing(m, offs);
      assert data[..0] == [];
      var i := 0;
      while i < |data|
        invariant i <= |data| && i % 8 == 0
        invariant i == 0 || offs + i <= mem.Length
        invariant mem[..] == Store(m, offs, data[..i])
      {
        Eights(i, |data|);
        StoreNextPair(m, offs, data, i);
        WordLe(data[i..i + 8]);
        ok := Wr64((offs + i) % UINT32_SIZE, FromLe(data[i..i + 8]));
        if !ok { return; }
        i := i + 8;
      }
      assert data[..i] == data;
      ok := true;
    }

    /** Registers of a multiple of 8 bytes go through the 64-bit loop, others through the 32-bit
        loop; either way the result is the same. */
    method RdReg(offs: uint32, size: nat) returns (ok: bool, data: seq<byte>)
      requires Valid() && Mapped(offs, size) && size > 0 && size % 4 == 0
      ensures ok <==> offs + size <= mem.Length
      ensures ok ==> data == mem[offs..offs + size]
    {
      if size > 4 && size % 8 == 0 {
        ok, data := RdMem64(offs, size);
      } else {
        ok, data := RdMem32(offs, size);
      }
    }

    method WrReg(offs: uint32, data: seq<byte>) returns (ok: bool)
      requires Valid() && Mapped(offs, |data|) && |data| > 0 && |data| % 4 == 0
      modifies mem
      ensures ok <==> offs + |data| <= mem.Length
      ensures mem[..] == Store(old(mem[..]), offs, data)
    {
      if |data| > 4 && |data| % 8 == 0 {
        ok := WrMem64(offs, data);
      } else {
        ok := WrMem32(offs, data);
      }
    }
  }
}
