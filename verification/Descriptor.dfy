/** The packed descriptor structs of the scatter-gather engine and their layout in descriptor memory. */
module Descriptor {
  import opened Words
  import opened Modular

  /** Address distance from one descriptor to the next. */
  const STRIDE: nat := 0x40
  /** Size of a descriptor, including four bytes of padding. */
  const DESC_SIZE: nat := 0x38
  /** Offset of the status word within a descriptor. */
  const STATUS_OFFS: nat := 0x1c

  /** S2mmDescStatus: a 26-bit byte count and six flags in one 32-bit word. */
  datatype Status = Status(len: uint26, eof: bool, sof: bool, intErr: bool, slvErr: bool, decErr: bool, cmplt: bool)

  function Bit(b: bool): nat {
    if b then 1 else 0
  }

  /** The six flag bits, end-of-frame lowest, cmplt highest. */
  function Flags(st: Status): (f: nat)
    ensures f < 64
  {
    Bit(st.eof) + 2 * Bit(st.sof) + 4 * Bit(st.intErr) + 8 * Bit(st.slvErr) + 16 * Bit(st.decErr) + 32 * Bit(st.cmplt)
  }

  function StatusWord(st: Status): uint32 {
    st.len + 0x400_0000 * Flags(st)
  }

  function WordStatus(w: uint32): Status {
    var f := w / 0x400_0000;
    Status(w % 0x400_0000, f % 2 == 1, f / 2 % 2 == 1, f / 2 / 2 % 2 == 1,
           f / 2 / 2 / 2 % 2 == 1, f / 2 / 2 / 2 / 2 % 2 == 1, f / 2 / 2 / 2 / 2 / 2 % 2 == 1)
  }

  /** The status struct and its word determine each other: a read-modify-write of one flag
      changes no other bit. */
  lemma {:induction false} StatusRoundTrip(st: Status, w: uint32)
    ensures WordStatus(StatusWord(st)) == st
    ensures StatusWord(WordStatus(w)) == w
  {
    WordOfStatus(st);
    StatusOfWord(w);
  }

  lemma {:induction false} WordOfStatus(st: Status)
    ensures WordStatus(StatusWord(st)) == st
  {
    hide WithFlag, Flags;
    var f5 := WithFlag(st.cmplt, 0);
    var f4 := WithFlag(st.decErr, f5);
    var f3 := WithFlag(st.slvErr, f4);
    var f2 := WithFlag(st.intErr, f3);
    var f1 := WithFlag(st.sof, f2);
    FlagsNested(st);
    assert StatusWord(st) / 0x400_0000 == Flags(st) && StatusWord(st) % 0x400_0000 == st.len;
    LowFlag(st.eof, f1);
    LowFlag(st.sof, f2);
    LowFlag(st.intErr, f3);
    LowFlag(st.slvErr, f4);
    LowFlag(st.decErr, f5);
    LowFlag(st.cmplt, 0);
  }

  /** A flag below the others. */
  function WithFlag(b: bool, rest: nat): nat {
    Bit(b) + 2 * rest
  }

  lemma {:induction false} FlagsNested(st: Status)
    ensures Flags(st) == WithFlag(st.eof, WithFlag(st.sof, WithFlag(st.intErr,
                           WithFlag(st.slvErr, WithFlag(st.decErr, WithFlag(st.cmplt, 0))))))
  {
  }

  lemma {:induction false} LowFlag(b: bool, rest: nat)
    ensures WithFlag(b, rest) / 2 == rest && (WithFlag(b, rest) % 2 == 1 <==> b)
  {
  }

  lemma {:induction false} StatusOfWord(w: uint32)
    ensures StatusWord(WordStatus(w)) == w
  {
    FlagsOfBits(w / 0x400_0000);
  }

  lemma {:induction false} FlagsOfBits(f0: nat)
    requires f0 < 64
    ensures f0 == f0 % 2 + 2 * (f0 / 2 % 2) + 4 * (f0 / 2 / 2 % 2) + 8 * (f0 / 2 / 2 / 2 % 2)
                  + 16 * (f0 / 2 / 2 / 2 / 2 % 2) + 32 * (f0 / 2 / 2 / 2 / 2 / 2 % 2)
  {
    var f1 := f0 / 2;
    var f2 := f1 / 2;
    var f3 := f2 / 2;
    var f4 := f3 / 2;
    var f5 := f4 / 2;
    assert f5 == f5 % 2;
    assert f4 == f4 % 2 + 2 * f5;
    assert f3 == f3 % 2 + 2 * f4;
    assert f2 == f2 % 2 + 2 * f3;
    assert f1 == f1 % 2 + 2 * f2;
  }

  /** Clearing cmplt clears the top bit of the word and leaves the other 31. */
  lemma {:induction false} ClearCmpltWord(w: uint32)
    ensures StatusWord(WordStatus(w).(cmplt := false)) == w % 0x8000_0000
  {
    StatusOfWord(w);
    var st, f := WordStatus(w), w / 0x400_0000;
    assert w == w % 0x400_0000 + 0x400_0000 * f;
    TopFlag(f);
    FlagsWithout(st);
    assert st.len == w % 0x400_0000 && Bit(st.cmplt) == f / 32 && Flags(st) == f;
    hide WordStatus, Flags;
    TopBit(w, f);
  }

  lemma {:induction false} FlagsWithout(st: Status)
    ensures Flags(st.(cmplt := false)) == Flags(st) - 32 * Bit(st.cmplt)
  {
  }

  lemma {:induction false} TopFlag(f: nat)
    requires f < 64
    ensures f / 2 / 2 / 2 / 2 / 2 % 2 == f / 32
  {
  }

  lemma {:induction false} TopBit(w: uint32, f: nat)
    requires f == w / 0x400_0000
    ensures w - 0x400_0000 * (32 * (f / 32)) == w % 0x8000_0000
  {
  }

  /** The bytes write_cyc_mode writes for one descriptor; control flags, reserved words, status
      and application words are zero, the padding is whatever it happens to be. */
  function DescBytes(nxtdesc: uint64, bufferAddr: uint64, bufferLen: uint26, pad: seq<byte>): (b: seq<byte>)
    requires |pad| == 4
    ensures |b| == DESC_SIZE
  {
    ToLe(nxtdesc, 8) + ToLe(bufferAddr, 8) + ToLe(0, 8) + ToLe(bufferLen, 4) + ToLe(0, 4) + ToLe(0, 20) + pad
  }

  /** Descriptor i fits in m. */
  predicate InMemory(m: seq<byte>, i: nat) {
    i * STRIDE + DESC_SIZE <= |m|
  }

  function NxtAt(m: seq<byte>, i: nat): nat
    requires InMemory(m, i)
  {
    FromLe(m[i * STRIDE..i * STRIDE + 8])
  }

  function AddrAt(m: seq<byte>, i: nat): nat
    requires InMemory(m, i)
  {
    FromLe(m[i * STRIDE + 8..i * STRIDE + 16])
  }

  /** The 26-bit buffer length in the control word. */
  function LenAt(m: seq<byte>, i: nat): uint26
    requires InMemory(m, i)
  {
    FromLe(m[i * STRIDE + 24..i * STRIDE + 28]) % 0x400_0000
  }

  function WordAt(m: seq<byte>, i: nat): (w: uint32)
    requires InMemory(m, i)
  {
    WordLe(m[i * STRIDE + STATUS_OFFS..i * STRIDE + STATUS_OFFS + 4]);
    FromLe(m[i * STRIDE + STATUS_OFFS..i * STRIDE + STATUS_OFFS + 4])
  }

  function StatusAt(m: seq<byte>, i: nat): Status
    requires InMemory(m, i)
  {
    WordStatus(WordAt(m, i))
  }

  /** In bytes: the status of descriptor i is the word at offset 0x1c of its 0x40 bytes, least
      significant byte first. Its low 26 bits are the byte count; then come end of frame, start of
      frame, the three error flags and completion, in that order. */
  lemma {:induction false} StatusBytes(m: seq<byte>, i: nat)
    requires i * 0x40 + 0x38 <= |m|
    ensures InMemory(m, i)
    ensures var st, o := StatusAt(m, i), i * 0x40 + 0x1c;
            var b0: nat, b1: nat, b2: nat, b: nat := m[o], m[o + 1], m[o + 2], m[o + 3];
            && st.len == b0 + 0x100 * b1 + 0x1_0000 * b2 + 0x100_0000 * (b % 4)
            && (st.eof <==> b / 4 % 2 == 1) && (st.sof <==> b / 8 % 2 == 1)
            && (st.intErr <==> b / 16 % 2 == 1) && (st.slvErr <==> b / 32 % 2 == 1)
            && (st.decErr <==> b / 64 % 2 == 1) && (st.cmplt <==> b / 128 % 2 == 1)
  {
    hide FromLe, WordStatus;
    var o := i * 0x40 + 0x1c;
    var b0: nat, b1: nat, b2: nat, b: nat := m[o], m[o + 1], m[o + 2], m[o + 3];
    LeFour(m[o..o + 4]);
    WordParts(WordAt(m, i), b0 + 0x100 * b1 + 0x1_0000 * b2, b);
  }

  lemma {:induction false} WordParts(w: uint32, low: nat, b: nat)
    requires low < 0x100_0000 && b < 0x100 && w == low + 0x100_0000 * b
    ensures var st := WordStatus(w);
            && st.len == low + 0x100_0000 * (b % 4)
            && (st.eof <==> b / 4 % 2 == 1) && (st.sof <==> b / 8 % 2 == 1)
            && (st.intErr <==> b / 16 % 2 == 1) && (st.slvErr <==> b / 32 % 2 == 1)
            && (st.decErr <==> b / 64 % 2 == 1) && (st.cmplt <==> b / 128 % 2 == 1)
  {
    assert w / 0x400_0000 == b / 4 && w % 0x400_0000 == low + 0x100_0000 * (b % 4);
    Halvings(b);
  }

  lemma {:induction false} Halvings(b: nat)
    ensures b / 4 / 2 == b / 8 && b / 8 / 2 == b / 16 && b / 16 / 2 == b / 32
    ensures b / 32 / 2 == b / 64 && b / 64 / 2 == b / 128
  {
  }

  /** Likewise the next pointer at offset 0, the buffer address at 8 and the length at 0x18. */
  lemma {:induction false} FieldBytes(m: seq<byte>, i: nat)
    requires i * 0x40 + 0x38 <= |m|
    ensures InMemory(m, i)
    ensures var o := i * 0x40;
            && NxtAt(m, i) == FromLe(m[o..o + 4]) + 0x1_0000_0000 * FromLe(m[o + 4..o + 8])
            && AddrAt(m, i) == FromLe(m[o + 8..o + 12]) + 0x1_0000_0000 * FromLe(m[o + 12..o + 16])
            && LenAt(m, i) == FromLe(m[o + 0x18..o + 0x1c]) % 0x400_0000
  {
    hide FromLe;
    var o := i * 0x40;
    SubSlice(m, o, 8, 0, 4);
    SubSlice(m, o, 8, 4, 8);
    SubSlice(m, o + 8, 8, 0, 4);
    SubSlice(m, o + 8, 8, 4, 8);
    LeEight(m[o..o + 8]);
    LeEight(m[o + 8..o + 16]);
    assert m[o..o + 8][..4] == m[o..o + 4] && m[o..o + 8][4..] == m[o + 4..o + 8];
    assert m[o + 8..o + 16][..4] == m[o + 8..o + 12] && m[o + 8..o + 16][4..] == m[o + 12..o + 16];
  }

  /** Reserved and application words, control flags and status of descriptor i are zero. */
  ghost predicate RestIsZero(m: seq<byte>, i: nat)
    requires i * 0x40 + 0x38 <= |m|
  {
    && m[i * 0x40 + 0x1b] < 4
    && (forall p :: i * 0x40 + 0x10 <= p < i * 0x40 + 0x18 ==> m[p] == 0)
    && (forall p :: i * 0x40 + 0x1c <= p < i * 0x40 + 0x34 ==> m[p] == 0)
  }

  lemma {:induction false} DescZeros(nxtdesc: uint64, bufferAddr: uint64, bufferLen: uint26, pad: seq<byte>)
    requires |pad| == 4
    ensures var b := DescBytes(nxtdesc, bufferAddr, bufferLen, pad);
            b[0x1b] < 4 && forall k :: 0x10 <= k < 0x18 || 0x1c <= k < 0x34 ==> b[k] == 0
  {
    hide ToLe;
    ZeroBytes(8);
    ZeroBytes(4);
    ZeroBytes(20);
    TopByte(bufferLen);
    var b := DescBytes(nxtdesc, bufferAddr, bufferLen, pad);
    assert b[0x1b] == ToLe(bufferLen, 4)[3];
    assert forall k :: 0x10 <= k < 0x18 ==> b[k] == ToLe(0, 8)[k - 0x10];
    assert forall k :: 0x1c <= k < 0x20 ==> b[k] == ToLe(0, 4)[k - 0x1c];
    assert forall k :: 0x20 <= k < 0x34 ==> b[k] == ToLe(0, 20)[k - 0x20];
  }

  lemma {:induction false} TopByte(v: uint26)
    ensures ToLe(v, 4)[3] < 4
  {
    hide ToLe;
    var b := ToLe(v, 4);
    PowersOf256();
    FromToLe(v, 4);
    LeFour(b);
  }

  lemma {:induction false} DescFields(nxtdesc: uint64, bufferAddr: uint64, bufferLen: uint26, pad: seq<byte>)
    requires |pad| == 4
    ensures var b := DescBytes(nxtdesc, bufferAddr, bufferLen, pad);
            && b[0..8] == ToLe(nxtdesc, 8) && b[8..16] == ToLe(bufferAddr, 8)
            && b[24..28] == ToLe(bufferLen, 4) && b[28..32] == ToLe(0, 4)
  {
    hide ToLe;
  }

  lemma {:induction false} SubSlice(m: seq<byte>, o: nat, len: nat, a: nat, b: nat)
    requires o + len <= |m| && a <= b <= len
    ensures m[o..o + len][a..b] == m[o + a..o + b]
  {
    var x, y := m[o..o + len][a..b], m[o + a..o + b];
    assert |x| == |y| && forall k :: 0 <= k < |x| ==> x[k] == m[o + a + k];
  }

  lemma {:induction false} RestOf(m: seq<byte>, i: nat)
    requires InMemory(m, i)
    requires var b := m[i * STRIDE..i * STRIDE + DESC_SIZE];
             b[0x1b] < 4 && forall k :: 0x10 <= k < 0x18 || 0x1c <= k < 0x34 ==> b[k] == 0
    ensures RestIsZero(m, i)
  {
    var b := m[i * STRIDE..i * STRIDE + DESC_SIZE];
    assert forall p :: i * 0x40 <= p < i * 0x40 + 0x38 ==> m[p] == b[p - i * 0x40];
  }

  /** A descriptor that was written reads back field by field, and the rest of it is zero. */
  lemma {:induction false} DescReadsBack(
    m: seq<byte>, i: nat, nxtdesc: uint64, bufferAddr: uint64, bufferLen: uint26, pad: seq<byte>)
    requires |pad| == 4 && InMemory(m, i)
    requires m[i * STRIDE..i * STRIDE + DESC_SIZE] == DescBytes(nxtdesc, bufferAddr, bufferLen, pad)
    ensures NxtAt(m, i) == nxtdesc && AddrAt(m, i) == bufferAddr && LenAt(m, i) == bufferLen
    ensures StatusAt(m, i) == Status(0, false, false, false, false, false, false)
    ensures RestIsZero(m, i)
  {
    hide ToLe, FromLe, Pow256, DescBytes;
    DescZeros(nxtdesc, bufferAddr, bufferLen, pad);
    RestOf(m, i);
    var o, d := i * STRIDE, m[i * STRIDE..i * STRIDE + DESC_SIZE];
    SubSlice(m, o, DESC_SIZE, 0, 8);
    SubSlice(m, o, DESC_SIZE, 8, 16);
    SubSlice(m, o, DESC_SIZE, 24, 28);
    SubSlice(m, o, DESC_SIZE, 28, 32);
    DescFields(nxtdesc, bufferAddr, bufferLen, pad);
    PowersOf256();
    FromToLe(nxtdesc, 8);
    FromToLe(bufferAddr, 8);
    FromToLe(bufferLen, 4);
    FromToLe(0, 4);
  }

  /** Byte p belongs to the status word of one of the first n descriptors. */
  predicate InStatus(p: nat, n: nat) {
    p / STRIDE < n && STATUS_OFFS <= p % STRIDE < STATUS_OFFS + 4
  }

  /** Every byte outside the status words of the first n descriptors is the same in both. */
  ghost predicate SameTopology(a: seq<byte>, b: seq<byte>, n: nat) {
    |a| == |b| && forall p :: 0 <= p < |a| && !InStatus(p, n) ==> b[p] == a[p]
  }

  /** In particular the chain, the addresses and the lengths are. */
  lemma {:induction false} SameFields(a: seq<byte>, b: seq<byte>, n: nat, i: nat)
    requires SameTopology(a, b, n) && InMemory(a, i)
    ensures NxtAt(b, i) == NxtAt(a, i) && AddrAt(b, i) == AddrAt(a, i) && LenAt(b, i) == LenAt(a, i)
  {
    hide FromLe, SameTopology;
    SameRange(a, b, n, i, 0, 8);
    SameRange(a, b, n, i, 8, 16);
    SameRange(a, b, n, i, 24, 28);
  }

  lemma {:induction false} SameRange(a: seq<byte>, b: seq<byte>, n: nat, i: nat, from: nat, to: nat)
    requires SameTopology(a, b, n) && InMemory(a, i) && from <= to <= STATUS_OFFS
    ensures |a| == |b| && a[i * STRIDE + from..i * STRIDE + to] == b[i * STRIDE + from..i * STRIDE + to]
  {
    forall p | i * STRIDE + from <= p < i * STRIDE + to ensures a[p] == b[p] {
      ModUnique(p, STRIDE, i, p - i * STRIDE);
    }
  }

  /** m after a status word was written to descriptor i. */
  function WriteStatus(m: seq<byte>, i: nat, st: Status): (r: seq<byte>)
    requires InMemory(m, i)
  {
    Splice(m, i * STRIDE + STATUS_OFFS, ToLe(StatusWord(st), 4))
  }

  /** A status write changes that status word and no other byte of the memory. */
  lemma {:induction false} StatusWriteFrame(m: seq<byte>, i: nat, st: Status)
    requires InMemory(m, i)
    ensures var r, offs := WriteStatus(m, i, st), i * STRIDE + STATUS_OFFS;
            |r| == |m| && forall p :: 0 <= p < |m| && !(offs <= p < offs + 4) ==> r[p] == m[p]
    ensures StatusAt(WriteStatus(m, i, st), i) == st
    ensures forall j :: j != i && InMemory(m, j) ==> StatusAt(WriteStatus(m, i, st), j) == StatusAt(m, j)
  {
    hide ToLe, FromLe, StatusWord, WordStatus, Pow256, Splice, StatusAt;
    StatusWritten(m, i, st);
    forall j: nat | j != i && InMemory(m, j) ensures StatusAt(WriteStatus(m, i, st), j) == StatusAt(m, j) {
      OtherStatus(m, i, st, j);
    }
  }

  lemma {:induction false} StatusWriteTopology(m: seq<byte>, i: nat, st: Status, n: nat)
    requires InMemory(m, i) && i < n
    ensures SameTopology(m, WriteStatus(m, i, st), n)
  {
    hide StatusAt, WriteStatus;
    StatusWriteFrame(m, i, st);
    forall p | 0 <= p < |m| && !InStatus(p, n) ensures !(i * STRIDE + STATUS_OFFS <= p < i * STRIDE + STATUS_OFFS + 4) {
      if i * STRIDE <= p < i * STRIDE + STRIDE { ModUnique(p, STRIDE, i, p - i * STRIDE); }
    }
  }

  lemma {:induction false} StatusWritten(m: seq<byte>, i: nat, st: Status)
    requires InMemory(m, i)
    ensures StatusAt(WriteStatus(m, i, st), i) == st
  {
    hide ToLe, FromLe, StatusWord, WordStatus, Pow256, Splice;
    WordOfStatus(st);
    PowersOf256();
    FromToLe(StatusWord(st), 4);
  }

  lemma {:induction false} OtherStatus(m: seq<byte>, i: nat, st: Status, j: nat)
    requires InMemory(m, i) && InMemory(m, j) && i != j
    ensures StatusAt(WriteStatus(m, i, st), j) == StatusAt(m, j)
  {
    hide ToLe, FromLe, StatusWord, WordStatus, Splice;
    var o := j * STRIDE + STATUS_OFFS;
    SpliceElsewhere(m, i * STRIDE + STATUS_OFFS, ToLe(StatusWord(st), 4), o, o + 4);
  }

  /** Any sequence of status writes, by the program or by the engine. */
  function WriteStatuses(m: seq<byte>, writes: seq<(nat, Status)>): (r: seq<byte>)
    decreases |writes|
  {
    if writes == [] then m
    else WriteStatuses(if InMemory(m, writes[0].0) then WriteStatus(m, writes[0].0, writes[0].1) else m, writes[1..])
  }

  /** Whatever statuses are written, no byte outside the status words changes. */
  lemma {:induction false} TopologySurvives(m: seq<byte>, writes: seq<(nat, Status)>)
    ensures SameTopology(m, WriteStatuses(m, writes), |m|)
    decreases |writes|
  {
    hide SameTopology, WriteStatus;
    if writes == [] {
      SameItself(m);
    } else if InMemory(m, writes[0].0) {
      var w := WriteStatus(m, writes[0].0, writes[0].1);
      StatusWriteTopology(m, writes[0].0, writes[0].1, |m|);
      SameLength(m, w, |m|);
      TopologySurvives(w, writes[1..]);
      SameCompose(m, w, WriteStatuses(w, writes[1..]), |m|);
    } else {
      TopologySurvives(m, writes[1..]);
    }
  }

  lemma {:induction false} SameItself(m: seq<byte>)
    ensures SameTopology(m, m, |m|)
  {
  }

  lemma {:induction false} SameLength(a: seq<byte>, b: seq<byte>, n: nat)
    requires SameTopology(a, b, n)
    ensures |a| == |b|
  {
  }

  lemma {:induction false} SameCompose(a: seq<byte>, b: seq<byte>, c: seq<byte>, n: nat)
    requires SameTopology(a, b, n) && SameTopology(b, c, n)
    ensures SameTopology(a, c, n)
  {
    hide InStatus;
  }

  /** The descriptors below n form a chain in ring order from address base. */
  ghost predicate Chained(m: seq<byte>, base: nat, n: nat) {
    forall i :: 0 <= i < n ==> InMemory(m, i) && NxtAt(m, i) == base + (i + 1) % n * STRIDE
  }

  /** Where the engine is after following nxtdesc k times from address a. */
  function Follow(m: seq<byte>, base: nat, a: nat, k: nat): nat
    decreases k
  {
    if k == 0 then a
    else
      var p := Follow(m, base, a, k - 1);
      if base <= p && p - base + 8 <= |m| then FromLe(m[p - base..p - base + 8]) else p
  }

  /** The chain is one cycle: k hops from the first descriptor lead to descriptor k mod n. */
  lemma {:induction false} FollowCycles(m: seq<byte>, base: nat, n: nat, k: nat)
    requires n > 0 && Chained(m, base, n)
    ensures Follow(m, base, base, k) == base + k % n * 0x40
    decreases k
  {
    if k > 0 {
      FollowCycles(m, base, n, k - 1);
      hide Chained, Follow;
      FollowHop(m, base, n, k - 1, (k - 1) % n);
      ModAdd(n, k - 1, 1);
    }
  }

  lemma {:induction false} FollowHop(m: seq<byte>, base: nat, n: nat, k: nat, i: nat)
    requires i < n && Chained(m, base, n) && Follow(m, base, base, k) == base + i * STRIDE
    ensures Follow(m, base, base, k + 1) == base + (i + 1) % n * STRIDE
  {
    hide Chained, FromLe;
    Hop(m, base, n, i);
    var p := Follow(m, base, base, k);
    assert p - base == i * STRIDE;
  }

  /** One hop leads from a descriptor of the chain to the next. */
  lemma {:induction false} Hop(m: seq<byte>, base: nat, n: nat, i: nat)
    requires i < n && Chained(m, base, n)
    ensures i * STRIDE + 8 <= |m| && FromLe(m[i * STRIDE..i * STRIDE + 8]) == base + (i + 1) % n * STRIDE
  {
    hide FromLe;
    assert InMemory(m, i) && NxtAt(m, i) == base + (i + 1) % n * STRIDE;
  }

  /** The cycle, every buffer address and length, and every other byte outside the status words
      survive any sequence of status writes. */
  lemma {:induction false} CycleForever(m: seq<byte>, base: nat, n: nat, writes: seq<(nat, Status)>, k: nat)
    requires n > 0 && Chained(m, base, n)
    ensures var r := WriteStatuses(m, writes);
            && Follow(r, base, base, k) == base + k % n * 0x40
            && SameTopology(m, r, |m|) && |r| == |m|
            && forall i :: 0 <= i < n ==>
                 InMemory(m, i) && AddrAt(r, i) == AddrAt(m, i) && LenAt(r, i) == LenAt(m, i)
  {
    hide Follow, NxtAt, AddrAt, LenAt;
    TopologySurvives(m, writes);
    var r := WriteStatuses(m, writes);
    forall i | 0 <= i < n
      ensures InMemory(r, i) && NxtAt(r, i) == base + (i + 1) % n * STRIDE
      ensures AddrAt(r, i) == AddrAt(m, i) && LenAt(r, i) == LenAt(m, i)
    {
      assert InMemory(m, i);
      SameFields(m, r, |m|, i);
    }
    FollowCycles(r, base, n, k);
  }
}
