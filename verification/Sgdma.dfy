/** The scatter-gather receive ring: descriptors in device memory, data in DMA buffers. */
module Sgdma {
  import opened Words
  import opened Modular
  import opened Descriptor
  import opened HwAccess
  import opened Ring

  /** Number of descriptors the accessors are declared for. */
  const MAX_DESCS: nat := 1024

  /** A physically contiguous buffer that the engine writes to. */
  class DmaBuffer {
    const base: uint64
    const data: array<byte>

    ghost predicate Valid() {
      base + data.Length <= 0x1_0000_0000_0000_0000
    }

    constructor (addr: uint64, bytes: array<byte>)
      ensures base == addr && data == bytes
    {
      base, data := addr, bytes;
    }

    /** Appends the region's bytes to out; the region lies in the buffer. */
    method AppendFromBuf(addr: nat, size: nat, out: seq<byte>) returns (r: seq<byte>)
      requires base <= addr && addr - base + size <= data.Length
      ensures r == out + data[addr - base..addr - base + size]
    {
      r := out + data[addr - base..addr - base + size];
    }
  }

  /** The first n descriptors lie in a memory of len bytes. */
  predicate Fits(len: nat, n: nat) {
    n == 0 || (n - 1) * STRIDE + DESC_SIZE <= len
  }

  function StatusesOf(m: seq<byte>, n: nat): (sts: seq<Status>)
    requires Fits(|m|, n)
    ensures |sts| == n
  {
    seq(n, i requires 0 <= i < n => StatusAt(m, i))
  }

  /** Buffer i of equal-sized buffers laid out one after the other, up to the stored length. */
  function BufOf(data: seq<byte>, bufSize: nat, i: nat, st: Status): Buf {
    Buf(st, if i * bufSize + st.len <= |data| then data[i * bufSize..i * bufSize + st.len] else [])
  }

  /** The buffers at the given indices. */
  function BufsOf(sts: seq<Status>, data: seq<byte>, bufSize: nat, idx: seq<nat>): (r: seq<Buf>)
    requires forall k :: 0 <= k < |idx| ==> idx[k] < |sts|
    ensures |r| == |idx|
  {
    seq(|idx|, k requires 0 <= k < |idx| => BufOf(data, bufSize, idx[k], sts[idx[k]]))
  }

  /** The address of buffer i as the program computes it, in 64 bits. */
  function BufferAddr(base: uint64, size: nat, i: nat): uint64 {
    (base + i * size) % 0x1_0000_0000_0000_0000
  }

  lemma {:induction false} BufferAddrIs(buf: DmaBuffer, num: nat, size: nat)
    requires buf.Valid() && num * size <= buf.data.Length
    ensures forall i :: 0 <= i < num ==> BufferAddr(buf.base, size, i) == buf.base + i * size
  {
    forall i | 0 <= i < num ensures BufferAddr(buf.base, size, i) == buf.base + i * size {
      BufferInRegion(num, size, buf.data.Length, i);
    }
  }

  /** The 64-bit address of the descriptor after descriptor i in a ring of n. */
  function Successor(first: uint64, i: nat, n: nat): uint64
    requires n > 0
  {
    (first + (i + 1) % n * STRIDE) % 0x1_0000_0000_0000_0000
  }

  /** The statuses after exactly the listed descriptors were released. */
  function Released(sts: seq<Status>, idx: seq<nat>): (r: seq<Status>)
    ensures |r| == |sts|
  {
    seq(|sts|, i requires 0 <= i < |sts| => if i in idx then sts[i].(cmplt := false) else sts[i])
  }

  /** Distinct buffers of a ring never overlap, and all lie in the region. */
  lemma {:induction false} BuffersDisjoint(n: nat, bufSize: nat, region: nat, i: nat, j: nat)
    requires n * bufSize <= region && i < n && j < n && i < j
    ensures i * bufSize + bufSize <= j * bufSize && j * bufSize + bufSize <= region
  {
    MulGap(bufSize, j - i);
    MulGap(bufSize, n - j);
    assert bufSize * (j - i) == j * bufSize - i * bufSize;
    assert bufSize * (n - j) == n * bufSize - j * bufSize;
  }

  /** The first k descriptors of the ring over the given buffers are in memory. */
  ghost predicate Written(m: seq<byte>, base: uint64, addrs: seq<uint64>, size: uint26, pad: seq<byte>, k: nat)
    requires |pad| == 4 && k <= |addrs|
  {
    forall j :: 0 <= j < k ==>
      InMemory(m, j) && Slot(m, j) == DescBytes(Successor(base, j, |addrs|), addrs[j], size, pad)
  }

  lemma {:induction false} NoneWritten(m: seq<byte>, base: uint64, addrs: seq<uint64>, size: uint26, pad: seq<byte>)
    requires |pad| == 4
    ensures Written(m, base, addrs, size, pad, 0)
  {
  }

  lemma {:induction false} OneWritten(
    m: seq<byte>, base: uint64, addrs: seq<uint64>, size: uint26, pad: seq<byte>, k: nat)
    requires |pad| == 4 && k < |addrs| && InMemory(m, k) && Written(m, base, addrs, size, pad, k)
    ensures var desc := DescBytes(Successor(base, k, |addrs|), addrs[k], size, pad);
            Written(Store(m, k * STRIDE, desc), base, addrs, size, pad, k + 1)
  {
    hide DescBytes, Store, Successor;
    var desc := DescBytes(Successor(base, k, |addrs|), addrs[k], size, pad);
    var r := Store(m, k * STRIDE, desc);
    StoreReadsBack(m, k * STRIDE, desc);
    forall j | 0 <= j < k ensures InMemory(r, j) && Slot(r, j) == Slot(m, j) {
      StoreElsewhere(m, k * STRIDE, desc, j * STRIDE, j * STRIDE + DESC_SIZE);
    }
  }

  /** A ring that was written is one chain, with the given buffers and no descriptor complete. */
  lemma {:induction false} AllWritten(m: seq<byte>, base: uint64, addrs: seq<uint64>, size: uint26, pad: seq<byte>)
    requires |pad| == 4 && Written(m, base, addrs, size, pad, |addrs|)
    requires base + |m| <= 0x1_0000_0000_0000_0000
    ensures Chained(m, base, |addrs|)
    ensures forall i :: 0 <= i < |addrs| ==>
              InMemory(m, i) && AddrAt(m, i) == addrs[i] && LenAt(m, i) == size && RestIsZero(m, i) &&
              StatusAt(m, i) == Status(0, false, false, false, false, false, false)
  {
    hide DescBytes, Successor, NxtAt, AddrAt, LenAt, StatusAt, RestIsZero;
    forall j | 0 <= j < |addrs|
      ensures InMemory(m, j) && NxtAt(m, j) == base + (j + 1) % |addrs| * STRIDE
      ensures AddrAt(m, j) == addrs[j] && LenAt(m, j) == size
      ensures StatusAt(m, j) == Status(0, false, false, false, false, false, false) && RestIsZero(m, j)
    {
      DescReadsBack(m, j, Successor(base, j, |addrs|), addrs[j], size, pad);
      assert InMemory(m, |addrs| - 1);
      SuccessorIs(base, j, |addrs|, |m|);
    }
  }

  lemma {:induction false} SuccessorIs(base: uint64, j: nat, n: nat, size: nat)
    requires j < n && (n - 1) * STRIDE + DESC_SIZE <= size && base + size <= 0x1_0000_0000_0000_0000
    ensures Successor(base, j, n) == base + (j + 1) % n * STRIDE
  {
    var i := (j + 1) % n;
    assert 0 <= i <= n - 1;
  }

  lemma {:induction false} IndicesEmpty(head: nat, a: nat, n: nat)
    requires n > 0
    ensures Indices(head, a, a, n) == []
    ensures head < n ==> At(head, 0, n) == head
  {
  }

  lemma {:induction false} IndicesNext(head: nat, a: nat, b: nat, n: nat)
    requires a <= b && n > 0
    ensures Indices(head, a, b + 1, n) == Indices(head, a, b, n) + [At(head, b, n)]
    ensures (At(head, b, n) + 1) % n == At(head, b + 1, n)
  {
    IndicesGrow(head, a, b, n);
  }

  lemma {:induction false} FlatNil()
    ensures Flat([]) == []
  {
  }

  lemma {:induction false} FlatStep(bufs: seq<Buf>, i: nat)
    requires i < |bufs|
    ensures Flat(bufs[..i + 1]) == Flat(bufs[..i]) + bufs[i].bytes
  {
    assert bufs[..i + 1] == bufs[..i] + [bufs[i]];
    FlatSnoc(bufs[..i], bufs[i]);
  }

  lemma {:induction false} StoreIsWriteStatus(m: seq<byte>, i: nat, st: Status)
    requires InMemory(m, i)
    ensures Store(m, STATUS_OFFS + i * STRIDE, ToLe(StatusWord(st), 4)) == WriteStatus(m, i, st)
  {
    hide ToLe, StatusWord, Splice;
    var b := ToLe(StatusWord(st), 4);
    assert b[..4] == b;
  }

  lemma {:induction false} InRing(len: nat, n: nat, i: nat)
    requires Fits(len, n) && i < n
    ensures i * STRIDE + DESC_SIZE <= len
  {
  }

  lemma {:induction false} BufferInRegion(n: nat, bufSize: nat, region: nat, i: nat)
    requires n * bufSize <= region && i < n
    ensures 0 <= i * bufSize && i * bufSize + bufSize <= region
  {
    MulGap(bufSize, n - i);
    assert bufSize * (n - i) == n * bufSize - i * bufSize;
  }

  /** The bytes of descriptor j. */
  function Slot(m: seq<byte>, j: nat): (b: seq<byte>)
    requires InMemory(m, j)
  {
    m[j * STRIDE..j * STRIDE + DESC_SIZE]
  }

  /** Where a stream-mode scan stops is where the window ends, or at its first empty buffer. */
  lemma {:induction false} WindowStops(sts: seq<Status>, head: nat, i: nat, empty: bool)
    requires head < |sts| && i <= |sts|
    requires forall j :: 0 <= j < i ==> !IsFree(Rotated(sts, head)[j]) && !IsEmpty(Rotated(sts, head)[j])
    requires if empty then i < |sts| && !IsFree(Rotated(sts, head)[i]) && IsEmpty(Rotated(sts, head)[i])
             else i == |sts| || IsFree(Rotated(sts, head)[i])
    ensures TakeAll(sts, head) ==
            if empty then Taken([], At(head, i, |sts|), false)
            else Taken(Indices(head, 0, i, |sts|), At(head, i, |sts|), true)
  {
    hide Rotated;
    var r := Rotated(sts, head);
    var e := FirstFrom(r, IsFree, 0);
    var w := r[..e];
    assert w == Window(sts, head);
    var z := FirstFrom(w, IsEmpty, 0);
    if empty {
      assert e > i && IsEmpty(w[i]);
      FirstUnique(w, IsEmpty, i);
    } else {
      if i < |r| { FirstUnique(r, IsFree, i); }
      assert e == i && forall j :: 0 <= j < i ==> !IsEmpty(w[j]);
    }
  }

  /** Where a packet-mode scan stops, the splitter has its answer: d buffers without start of
      frame, then buffers without end of frame up to i, where it meets an empty buffer, an end
      of frame, a free descriptor or its own start. */
  lemma {:induction false} ScanStops(sts: seq<Status>, head: nat, d: nat, i: nat, hasSof: bool)
    requires head < |sts| && d <= i <= |sts|
    requires var r := Rotated(sts, head);
             && (forall j :: 0 <= j < i ==> r[j].cmplt && r[j].len > 0)
             && (forall j :: 0 <= j < d ==> !r[j].sof) && (forall j :: d <= j < i ==> !r[j].eof)
             && (if hasSof then d < |r| && r[d].sof && r[d].cmplt else d == i)
             && (i == |r| || !r[i].cmplt || r[i].len == 0 || (hasSof && r[i].eof))
    ensures TakePacket(sts, head) ==
            var n, r := |sts|, Rotated(sts, head);
            if i < n && r[i].cmplt && r[i].len == 0 then Taken([], At(head, d, n), false)
            else if i < n && r[i].cmplt then Taken(Indices(head, d, i + 1, n), At(head, i + 1, n), true)
            else Taken([], At(head, d, n), true)
  {
    hide Rotated, Indices, NextPacket, FirstFrom;
    var n, r := |sts|, Rotated(sts, head);
    var e := FirstFrom(r, IsFree, 0);
    var w := r[..e];
    assert w == Window(sts, head) && e >= i;
    assert forall j :: 0 <= j < e ==> w[j] == r[j];
    SplitterStops(w, d, i, hasSof);
  }

  /** A scan that has seen i completed buffers, d of them before any start of frame, and no end of
      frame after it. */
  ghost predicate PacketScan(sts: seq<Status>, head: nat, d: nat, i: nat, hasSof: bool)
    requires head < |sts|
  {
    && d <= i <= |sts|
    && var r := Rotated(sts, head);
       && (forall j :: 0 <= j < i ==> r[j].cmplt && r[j].len > 0)
       && (forall j :: 0 <= j < d ==> !r[j].sof) && (forall j :: d <= j < i ==> !r[j].eof)
       && (if hasSof then d < i && r[d].sof else d == i)
  }

  lemma {:induction false} ScanBegins(sts: seq<Status>, head: nat)
    requires head < |sts|
    ensures PacketScan(sts, head, 0, 0, false)
    ensures Indices(head, 0, 0, |sts|) == [] && At(head, 0, |sts|) == head
  {
    IndicesEmpty(head, 0, |sts|);
  }

  /** A completed buffer that is not empty keeps the scan going, unless it ends a packet. */
  lemma {:induction false} ScanGoesOn(sts: seq<Status>, head: nat, d: nat, i: nat, hasSof: bool)
    requires head < |sts| && i < |sts| && PacketScan(sts, head, d, i, hasSof)
    ensures var st := sts[At(head, i, |sts|)];
            st.cmplt && st.len > 0 ==>
              if !hasSof && !st.sof then PacketScan(sts, head, d + 1, i + 1, false)
              else !st.eof ==> PacketScan(sts, head, d, i + 1, true)
  {
    hide Rotated, At;
    RotatedAt(sts, head, i);
  }

  /** At the end of the window, or at an empty buffer, the scan has its answer. */
  lemma {:induction false} ScanOver(sts: seq<Status>, head: nat, d: nat, i: nat, hasSof: bool)
    requires head < |sts| && PacketScan(sts, head, d, i, hasSof)
    requires var st := sts[At(head, i, |sts|)]; i == |sts| || !st.cmplt || st.len == 0
    ensures TakePacket(sts, head) ==
            Taken([], At(head, d, |sts|), i == |sts| || !sts[At(head, i, |sts|)].cmplt)
  {
    hide Rotated, At, TakePacket;
    if i < |sts| { RotatedAt(sts, head, i); }
    ScanStops(sts, head, d, i, hasSof);
  }

  /** And so it has at an end of frame. */
  lemma {:induction false} ScanFinds(sts: seq<Status>, head: nat, d: nat, i: nat, hasSof: bool)
    requires head < |sts| && i < |sts| && PacketScan(sts, head, d, i, hasSof)
    requires var st := sts[At(head, i, |sts|)]; st.cmplt && st.len > 0 && (hasSof || st.sof) && st.eof
    ensures TakePacket(sts, head) == Taken(Indices(head, d, i + 1, |sts|), At(head, i + 1, |sts|), true)
  {
    hide Rotated, At, TakePacket, Indices;
    RotatedAt(sts, head, i);
    ScanStops(sts, head, d, i, true);
  }

  lemma {:induction false} SplitterStops(w: seq<Status>, d: nat, i: nat, hasSof: bool)
    requires d <= i <= |w|
    requires forall j :: 0 <= j < i ==> w[j].len > 0
    requires (forall j :: 0 <= j < d ==> !w[j].sof) && (forall j :: d <= j < i ==> !w[j].eof)
    requires if hasSof then d < |w| && w[d].sof else d == i
    requires i == |w| || w[i].len == 0 || (hasSof && w[i].eof)
    ensures NextPacket(w) ==
            if i < |w| && w[i].len == 0 then EmptyBuffer(d, i)
            else if i < |w| then Packet(d, i + 1)
            else NoPacket(d)
  {
    var d' := FirstFrom(w, IsSof, 0);
    var e := FirstFrom(w, IsEof, d');
    var z := FirstFrom(w, IsEmpty, 0);
    assert hasSof ==> d' == d by { if hasSof { FirstUnique(w, IsSof, d); } }
    assert d' >= d && e >= i && z >= i;
    if i < |w| && w[i].len == 0 { FirstUnique(w, IsEmpty, i); }
  }

  class UioMemSgdma {
    const hw: HwAccessor
    var mem: DmaBuffer?
    var nr: nat
    var next: nat
    var bufAddrs: seq<uint64>
    var bufSize: nat

    /** The ring is built: its descriptors fit in descriptor memory, its buffers in the region. */
    ghost predicate Built()
      reads this`mem, this`nr, this`bufAddrs, this`bufSize
      ensures Built() ==> hw.Valid() && Fits(hw.mem.Length, nr) && nr <= MAX_DESCS
      ensures Built() ==> mem != null && mem.data != hw.mem
    {
      && hw.Valid() && nr <= MAX_DESCS && Fits(hw.mem.Length, nr)
      && |bufAddrs| == nr && mem != null && mem.Valid() && mem.data != hw.mem
      && nr * bufSize <= mem.data.Length
      && forall i :: 0 <= i < nr ==> bufAddrs[i] == mem.base + i * bufSize
    }

    /** The ring is built and the read index is on it. */
    ghost predicate Ready()
      reads this
      ensures Ready() ==> Fits(hw.mem.Length, nr)
    {
      Built() && (if nr == 0 then next == 0 else next < nr)
    }

    /** The status words as they are in descriptor memory. */
    ghost function Statuses(): (sts: seq<Status>)
      reads this`nr, hw.mem
      requires Fits(hw.mem.Length, nr)
      ensures |sts| == nr
    {
      StatusesOf(hw.mem[..], nr)
    }

    /** The engine stores no more than fits in a buffer. */
    ghost predicate Bounded()
      requires Fits(hw.mem.Length, nr)
      reads this`nr, this`bufSize, hw.mem
    {
      forall i :: 0 <= i < nr ==> Statuses()[i].len <= bufSize
    }

    constructor (hardware: HwAccessor)
      requires hardware.Valid()
      ensures hw == hardware && nr == 0 && next == 0 && mem == null
    {
      hw, mem, nr, next, bufAddrs, bufSize := hardware, null, 0, 0, [], 0;
    }

    /** Writes the descriptors of a ring over the given buffers; fails if they do not fit in
        descriptor memory. */
    method WriteCycMode(addrs: seq<uint64>, size: nat, pad: seq<byte>) returns (ok: bool)
      requires hw.Valid() && |addrs| <= MAX_DESCS && |pad| == 4
      requires hw.native64 ==> Fits(hw.mem.Length, |addrs|)
      modifies this`nr, this`next, hw.mem
      ensures ok <==> Fits(hw.mem.Length, |addrs|)
      ensures nr == |addrs| && next == 0
      ensures ok ==> Chained(hw.mem[..], hw.physAddr, nr)
      ensures ok ==> forall i :: 0 <= i < nr ==>
                AddrAt(hw.mem[..], i) == addrs[i] && LenAt(hw.mem[..], i) == size % 0x400_0000 &&
                RestIsZero(hw.mem[..], i) &&
                StatusAt(hw.mem[..], i) == Status(0, false, false, false, false, false, false)
    {
      hide ToLe, FromLe, Store, Splice, DescBytes, Pow256, StatusAt, NxtAt, AddrAt, LenAt, Written, Chained, RestIsZero;
      nr, next := |addrs|, 0;
      var i := 0;
      NoneWritten(hw.mem[..], hw.physAddr, addrs, size % 0x400_0000, pad);
      while i < nr
        invariant i <= nr == |addrs| && next == 0
        invariant i == 0 || (i - 1) * STRIDE + DESC_SIZE <= hw.mem.Length
        invariant Written(hw.mem[..], hw.physAddr, addrs, size % 0x400_0000, pad, i)
      {
        var desc := DescBytes(Successor(hw.physAddr, i, nr), addrs[i], size % 0x400_0000, pad);
        ghost var m := hw.mem[..];
        ok := hw.WrReg(i * STRIDE, desc);
        if !ok { return; }
        OneWritten(m, hw.physAddr, addrs, size % 0x400_0000, pad, i);
        i := i + 1;
      }
      ok := true;
      AllWritten(hw.mem[..], hw.physAddr, addrs, size % 0x400_0000, pad);
    }

    /** Lays num buffers of the given size out from the start of buf, one after the other. */
    method PlaceBuffers(buf: DmaBuffer, num: nat, size: nat)
      modifies this`bufAddrs
      ensures |bufAddrs| == num
      ensures forall j :: 0 <= j < num ==> bufAddrs[j] == BufferAddr(buf.base, size, j)
    {
      bufAddrs := [];
      var i := 0;
      while i < num
        invariant i <= num && |bufAddrs| == i
        invariant forall j :: 0 <= j < i ==> bufAddrs[j] == BufferAddr(buf.base, size, j)
      {
        bufAddrs := bufAddrs + [BufferAddr(buf.base, size, i)];
        i := i + 1;
      }
    }

    /** Builds the ring over num buffers of the given size in buf. Whether they fit in buf is not
        checked; only if they do is the ring ready for use. */
    method InitBuffers(buf: DmaBuffer, num: nat, size: nat, pad: seq<byte>) returns (ok: bool)
      requires hw.Valid() && num <= MAX_DESCS && |pad| == 4
      requires buf.Valid() && buf.data != hw.mem
      requires hw.native64 ==> Fits(hw.mem.Length, num)
      modifies this, hw.mem
      ensures ok <==> Fits(hw.mem.Length, num)
      ensures ok ==> mem == buf && nr == num && next == 0 && bufSize == size
      ensures ok ==> (Ready() <==> num * size <= buf.data.Length)
      ensures ok ==> Chained(hw.mem[..], hw.physAddr, num)
      ensures ok ==> forall i :: 0 <= i < num ==>
                && AddrAt(hw.mem[..], i) == BufferAddr(buf.base, size, i)
                && (LenAt(hw.mem[..], i) == size <==> size < 0x400_0000)
                && !StatusAt(hw.mem[..], i).cmplt
      ensures num * size <= buf.data.Length ==>
                forall i :: 0 <= i < num ==> BufferAddr(buf.base, size, i) == buf.base + i * size
    {
      hide StatusAt, AddrAt, LenAt, Chained, BufferAddr;
      if num * size <= buf.data.Length { BufferAddrIs(buf, num, size); }
      mem := buf;
      PlaceBuffers(buf, num, size);
      ok := WriteCycMode(bufAddrs, size, pad);
      bufSize := size;
    }

    /** One status register read. */
    method RdStatus(i: nat) returns (st: Status)
      requires Ready() && i < nr
      ensures st == Statuses()[i]
    {
      hide FromLe, WordStatus;
      var ok, w := hw.RdReg(STATUS_OFFS + i * STRIDE, 4);
      WordLe(w);
      st := WordStatus(FromLe(w));
    }

    /** All completed buffers, from the read index on. */
    method GetFullBuffers() returns (ok: bool, result: seq<nat>)
      requires Ready()
      modifies this`next
      ensures Ready()
      ensures nr == 0 ==> ok && result == [] && next == 0
      ensures nr > 0 ==> var take := TakeAll(Statuses(), old(next));
                         ok == take.ok && next == take.next && (ok ==> result == take.idx)
    {
      hide StatusAt, Statuses, Rotated, TakeAll, Built, Indices, At;
      result := [];
      ghost var sts, head := Statuses(), next;
      ghost var r := if nr > 0 then Rotated(sts, head) else [];
      if nr > 0 { IndicesEmpty(head, 0, nr); }
      var i := 0;
      while i < nr
        invariant i <= nr && Built() && Statuses() == sts && (nr > 0 ==> next < nr)
        invariant nr > 0 ==> next == At(head, i, nr) && result == Indices(head, 0, i, nr)
        invariant nr == 0 ==> result == [] && next == 0
        invariant forall j :: 0 <= j < i ==> r[j].cmplt && r[j].len > 0
      {
        var st := RdStatus(next);
        RotatedAt(sts, head, i);
        if !st.cmplt { break; }
        if st.len == 0 {
          WindowStops(sts, head, i, true);
          return false, [];
        }
        IndicesNext(head, 0, i, nr);
        result := result + [next];
        next := (next + 1) % nr;
        i := i + 1;
      }
      ok := true;
      if nr > 0 { WindowStops(sts, head, i, false); }
    }

    /** The next complete packet, if there is one; buffers before its start of frame are passed
        over. */
    method GetNextPacket() returns (ok: bool, result: seq<nat>)
      requires Ready()
      modifies this`next
      ensures Ready()
      ensures nr == 0 ==> ok && result == [] && next == 0
      ensures nr > 0 ==> var take := TakePacket(Statuses(), old(next));
                         ok == take.ok && next == take.next && (ok ==> result == take.idx)
    {
      hide StatusAt, Statuses, TakePacket, Built, Indices, At, PacketScan;
      result := [];
      var hasSof, n := false, next;
      ghost var sts, head, d: nat := Statuses(), next, 0;
      if nr > 0 { ScanBegins(sts, head); }
      var i := 0;
      while i < nr
        invariant 0 <= d <= i <= nr && Built() && Statuses() == sts && (!hasSof ==> d == i)
        invariant nr == 0 ==> result == [] && next == 0
        invariant nr > 0 ==> n == At(head, i, nr) && next == At(head, d, nr) && result == Indices(head, d, i, nr)
        invariant nr > 0 ==> PacketScan(sts, head, d, i, hasSof)
      {
        var st := RdStatus(n);
        if !st.cmplt { break; }
        if st.len == 0 {
          ScanOver(sts, head, d, i, hasSof);
          return false, [];
        }
        ScanGoesOn(sts, head, d, i, hasSof);
        IndicesNext(head, d, i, nr);
        if !hasSof && !st.sof {
          n := (n + 1) % nr;
          next := n;
          i, d := i + 1, d + 1;
          IndicesEmpty(head, d, nr);
          continue;
        }
        if st.eof { ScanFinds(sts, head, d, i, hasSof); }
        if st.sof && !hasSof { hasSof := true; }
        result := result + [n];
        n := (n + 1) % nr;
        if st.eof {
          next := n;
          return true, result;
        }
        i := i + 1;
      }
      if nr > 0 { ScanOver(sts, head, d, i, hasSof); }
      return true, [];
    }

    /** The statuses of the listed descriptors, read before any data is copied. */
    method RdStatuses(idx: seq<nat>) returns (stats: seq<Status>)
      requires Ready() && forall k :: 0 <= k < |idx| ==> idx[k] < nr
      ensures |stats| == |idx| && forall k :: 0 <= k < |idx| ==> stats[k] == Statuses()[idx[k]]
    {
      hide Statuses;
      stats := [];
      var i := 0;
      while i < |idx|
        invariant i == |stats| <= |idx|
        invariant forall k :: 0 <= k < i ==> stats[k] == Statuses()[idx[k]]
      {
        var st := RdStatus(idx[i]);
        stats := stats + [st];
        i := i + 1;
      }
    }

    /** Appends one buffer to out, then clears its cmplt flag; st is its cached status. */
    method TakeBuffer(k: nat, st: Status, out: seq<byte>) returns (r: seq<byte>)
      requires Built() && k < nr && st.len <= bufSize
      modifies hw.mem
      ensures Built()
      ensures 0 <= k * bufSize && k * bufSize + st.len <= mem.data.Length
      ensures r == out + mem.data[k * bufSize..k * bufSize + st.len] == out + BufOf(mem.data[..], bufSize, k, st).bytes
      ensures Statuses() == old(Statuses())[k := st.(cmplt := false)]
      ensures SameTopology(old(hw.mem[..]), hw.mem[..], nr)
    {
      hide StatusAt, StatusWord, ToLe, Splice, Store, InStatus;
      BufferInRegion(nr, bufSize, mem.data.Length, k);
      r := mem.AppendFromBuf(bufAddrs[k], st.len, out);
      ghost var m := hw.mem[..];
      var freed := st.(cmplt := false);
      var ok := hw.WrReg(STATUS_OFFS + k * STRIDE, ToLe(StatusWord(freed), 4));
      StoreIsWriteStatus(m, k, freed);
      InRing(hw.mem.Length, nr, k);
      StatusWriteFrame(m, k, freed);
      StatusWriteTopology(m, k, freed, nr);
    }

    /** Copies the listed buffers out, in order, and releases exactly them. */
    method ReadBuffers(idx: seq<nat>) returns (result: seq<byte>)
      requires Ready() && Bounded() && forall k :: 0 <= k < |idx| ==> idx[k] < nr
      modifies hw.mem
      ensures Ready() && Bounded()
      ensures result == Flat(BufsOf(old(Statuses()), mem.data[..], bufSize, idx))
      ensures Statuses() == Released(old(Statuses()), idx)
      ensures SameTopology(old(hw.mem[..]), hw.mem[..], nr)
    {
      hide StatusAt, Flat, NxtAt, AddrAt, LenAt, Statuses, Built, BufOf;
      ghost var m0, sts := hw.mem[..], Statuses();
      var stats := RdStatuses(idx);
      result := [];
      ghost var bufs := BufsOf(sts, mem.data[..], bufSize, idx);
      var i := 0;
      assert bufs[..0] == [];
      FlatNil();
      while i < |idx|
        invariant i <= |idx| && Built()
        invariant result == Flat(bufs[..i])
        invariant forall j :: 0 <= j < nr ==> Statuses()[j] == if j in idx[..i] then sts[j].(cmplt := false) else sts[j]
        invariant SameTopology(m0, hw.mem[..], nr)
      {
        result := TakeBuffer(idx[i], stats[i], result);
        FlatStep(bufs, i);
        assert idx[..i + 1] == idx[..i] + [idx[i]];
        i := i + 1;
      }
      assert idx[..|idx|] == idx && bufs[..|idx|] == bufs;
    }
  }
}
