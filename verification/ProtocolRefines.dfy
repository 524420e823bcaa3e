/** While the engine is quiet, the steps of the handler amount to what the methods compute: one
    wake-up acknowledges, drains the ring as DrainAll does, and re-arms or stops. This holds for
    arbitrary flags and lengths. */
module ProtocolRefines {
  import opened Words
  import opened Modular
  import opened Descriptor
  import opened Ring
  import opened Sgdma
  import opened Draining
  import opened Protocol

  /** k steps of the handler alone. */
  function HandlerRun(cfg: Config, s: State, k: nat): State
    requires cfg.n > 0
    decreases k
  {
    if k == 0 then s else HandlerRun(cfg, Protocol.Step(cfg, s, Handler), k - 1)
  }

  /** The handler alone gets from s to t. */
  ghost predicate Reaches(cfg: Config, s: State, t: State)
    requires cfg.n > 0
  {
    exists k: nat :: HandlerRun(cfg, s, k) == t
  }

  lemma {:induction false} ReachesSelf(cfg: Config, s: State)
    requires cfg.n > 0
    ensures Reaches(cfg, s, s)
  {
    assert HandlerRun(cfg, s, 0) == s;
  }

  lemma {:induction false} ReachesNext(cfg: Config, s: State, t: State)
    requires cfg.n > 0 && Reaches(cfg, Protocol.Step(cfg, s, Handler), t)
    ensures Reaches(cfg, s, t)
  {
    hide Protocol.Step;
    var k: nat :| HandlerRun(cfg, Protocol.Step(cfg, s, Handler), k) == t;
    assert HandlerRun(cfg, s, k + 1) == t;
  }

  lemma {:induction false} ReachesTrans(cfg: Config, s: State, t: State, u: State)
    requires cfg.n > 0 && Reaches(cfg, s, t) && Reaches(cfg, t, u)
    ensures Reaches(cfg, s, u)
  {
    var j: nat :| HandlerRun(cfg, s, j) == t;
    var k: nat :| HandlerRun(cfg, t, k) == u;
    RunsCompose(cfg, s, j, k);
  }

  lemma {:induction false} RunsCompose(cfg: Config, s: State, j: nat, k: nat)
    requires cfg.n > 0
    ensures HandlerRun(cfg, HandlerRun(cfg, s, j), k) == HandlerRun(cfg, s, j + k)
    decreases j
  {
    hide Protocol.Step;
    if j > 0 { RunsCompose(cfg, Protocol.Step(cfg, s, Handler), j - 1, k); }
  }

  /** Such a run is one of the runs of the protocol. */
  lemma {:induction false} ReachesExec(cfg: Config, s: State, t: State) returns (run: seq<Act>)
    requires cfg.n > 0 && Reaches(cfg, s, t)
    ensures Exec(cfg, s, run) == t && forall i :: 0 <= i < |run| ==> run[i] == Handler
  {
    var k: nat :| HandlerRun(cfg, s, k) == t;
    run := ExecHandler(cfg, s, k);
  }

  lemma {:induction false} ExecHandler(cfg: Config, s: State, k: nat) returns (run: seq<Act>)
    requires cfg.n > 0
    ensures Exec(cfg, s, run) == HandlerRun(cfg, s, k) && forall i :: 0 <= i < |run| ==> run[i] == Handler
    decreases k
  {
    hide Protocol.Step;
    if k == 0 {
      run := [];
    } else {
      var rest := ExecHandler(cfg, Protocol.Step(cfg, s, Handler), k - 1);
      run := [Handler] + rest;
      assert run[1..] == rest;
    }
  }

  /** The buffers of the ring, one after the other. */
  function Bytes(slots: seq<Protocol.Slot>): seq<byte> {
    if slots == [] then [] else slots[0].data + Bytes(slots[1..])
  }

  /** Every buffer has its size, and no completed one claims more than that. */
  ghost predicate Shaped(cfg: Config, slots: seq<Protocol.Slot>) {
    && cfg.n > 0 && |slots| == cfg.n
    && forall i :: 0 <= i < cfg.n ==>
         |slots[i].data| == cfg.bufSize && (slots[i].st.cmplt ==> slots[i].st.len <= cfg.bufSize)
  }

  /** The handler's loop variables after i descriptors, d of them passed over. */
  ghost predicate Scanning(cfg: Config, s: State, head: nat, d: nat) {
    && cfg.n > 0 && |s.slots| == cfg.n && head < cfg.n && s.pc.Scan?
    && d <= s.pc.i <= cfg.n
    && s.pc.m == At(head, s.pc.i, cfg.n) && s.pc.acc == Indices(head, d, s.pc.i, cfg.n)
    && (if cfg.packets then
          s.next == At(head, d, cfg.n) && PacketScan(SlotStatuses(s.slots), head, d, s.pc.i, s.pc.hasSof)
          && (!s.pc.hasSof ==> d == s.pc.i)
        else
          && d == 0 && s.next == At(head, s.pc.i, cfg.n)
          && forall j :: 0 <= j < s.pc.i ==>
               var r := Rotated(SlotStatuses(s.slots), head); r[j].cmplt && r[j].len > 0)
  }

  /** Where a look that takes this leaves the handler. */
  function AfterLook(take: Taken): Pc {
    if !take.ok then Dead(EmptyBufferSeen) else if take.idx == [] then Rearming else Fetching(take.idx, [])
  }

  /** t differs from s only in the program counter, the read index and history. */
  ghost predicate Looked(s: State, t: State, pc: Pc, next: nat) {
    t == s.(pc := pc, next := next, handed := t.handed, lo := t.lo)
  }

  /** The look that the scan is about to complete. */
  function LookOf(cfg: Config, s: State, head: nat): Taken
    requires head < |s.slots|
  {
    TakeNext(cfg.packets, SlotStatuses(s.slots), head)
  }

  /** A scan ends as an atomic look at the ring does. */
  lemma {:induction false} ScanRun(cfg: Config, s: State, head: nat, d: nat) returns (t: State)
    requires Scanning(cfg, s, head, d)
    ensures Reaches(cfg, s, t) && Looked(s, t, AfterLook(LookOf(cfg, s, head)), LookOf(cfg, s, head).next)
    decreases cfg.n - s.pc.i
  {
    hide Scanning, Protocol.Step, Reaches, TakeNext;
    ScanBounds(cfg, s, head, d);
    var u := Protocol.Step(cfg, s, Handler);
    var more, d' := ScanOnce(cfg, s, head, d);
    if more {
      t := ScanRun(cfg, u, head, d');
    } else {
      t := u;
      ReachesSelf(cfg, t);
    }
    ReachesNext(cfg, s, t);
  }

  lemma {:induction false} ScanBounds(cfg: Config, s: State, head: nat, d: nat)
    requires Scanning(cfg, s, head, d)
    ensures cfg.n > 0 && head < |s.slots| == cfg.n && s.pc.Scan? && s.pc.i <= cfg.n
    ensures s.pc.m < cfg.n && (s.pc.i < cfg.n ==> s.pc.m == At(head, s.pc.i, cfg.n))
    ensures s.pc.i < cfg.n ==> Rotated(SlotStatuses(s.slots), head)[s.pc.i] == s.slots[s.pc.m].st
  {
    hide At, Rotated;
    if s.pc.i < cfg.n { RotatedAt(SlotStatuses(s.slots), head, s.pc.i); }
  }

  /** One step goes on scanning or ends the scan. */
  lemma {:induction false} ScanOnce(cfg: Config, s: State, head: nat, d: nat) returns (more: bool, d': nat)
    requires Scanning(cfg, s, head, d)
    ensures cfg.n > 0 && head < |s.slots|
    ensures var t := Protocol.Step(cfg, s, Handler);
            if more then
              t.pc.Scan? && t.pc.i == s.pc.i + 1 <= cfg.n && Scanning(cfg, t, head, d') && Looked(s, t, t.pc, t.next)
            else
              Looked(s, t, AfterLook(LookOf(cfg, s, head)), LookOf(cfg, s, head).next)
  {
    hide Scanning, TakeNext, Protocol.Step;
    ScanBounds(cfg, s, head, d);
    d' := d;
    if s.pc.i == cfg.n || !s.slots[s.pc.m].st.cmplt || s.slots[s.pc.m].st.len == 0 {
      more := false;
      if cfg.packets { PacketScanEnds(cfg, s, head, d); } else { StreamScanEnds(cfg, s, head, d); }
    } else if !cfg.packets {
      more := true;
      StreamScanGoesOn(cfg, s, head, d);
    } else if !s.pc.hasSof && !s.slots[s.pc.m].st.sof {
      more, d' := true, d + 1;
      PacketScanSkips(cfg, s, head, d);
    } else if s.slots[s.pc.m].st.eof {
      more := false;
      PacketScanFinds(cfg, s, head, d);
    } else {
      more := true;
      PacketScanGoesOn(cfg, s, head, d);
    }
  }

  /** The scan is at a completed buffer that is not empty. */
  ghost predicate AtBuffer(cfg: Config, s: State) {
    s.pc.Scan? && s.pc.i < cfg.n && s.pc.m < |s.slots| && s.slots[s.pc.m].st.cmplt && s.slots[s.pc.m].st.len > 0
  }

  lemma {:induction false} PacketScanEnds(cfg: Config, s: State, head: nat, d: nat)
    requires Scanning(cfg, s, head, d) && cfg.packets
    requires s.pc.i == cfg.n || !s.slots[s.pc.m].st.cmplt || s.slots[s.pc.m].st.len == 0
    ensures var t := Protocol.Step(cfg, s, Handler);
            Looked(s, t, AfterLook(LookOf(cfg, s, head)), LookOf(cfg, s, head).next)
  {
    hide At, PacketScan, TakePacket, Indices;
    ScanBounds(cfg, s, head, d);
    ScanOver(SlotStatuses(s.slots), head, d, s.pc.i, s.pc.hasSof);
  }

  lemma {:induction false} PacketScanFinds(cfg: Config, s: State, head: nat, d: nat)
    requires Scanning(cfg, s, head, d) && cfg.packets && AtBuffer(cfg, s)
    requires (s.pc.hasSof || s.slots[s.pc.m].st.sof) && s.slots[s.pc.m].st.eof
    ensures var t := Protocol.Step(cfg, s, Handler);
            Looked(s, t, AfterLook(LookOf(cfg, s, head)), LookOf(cfg, s, head).next)
  {
    hide At, PacketScan, TakePacket, Indices;
    ScanBounds(cfg, s, head, d);
    IndicesNext(head, d, s.pc.i, cfg.n);
    ScanFinds(SlotStatuses(s.slots), head, d, s.pc.i, s.pc.hasSof);
  }

  lemma {:induction false} PacketScanSkips(cfg: Config, s: State, head: nat, d: nat)
    requires Scanning(cfg, s, head, d) && cfg.packets && AtBuffer(cfg, s)
    requires !s.pc.hasSof && !s.slots[s.pc.m].st.sof
    ensures var t := Protocol.Step(cfg, s, Handler);
            t.pc.Scan? && t.pc.i == s.pc.i + 1 && Scanning(cfg, t, head, d + 1) && Looked(s, t, t.pc, t.next)
  {
    hide At, PacketScan, Indices, Protocol.Step;
    ScanBounds(cfg, s, head, d);
    SkipEffect(cfg, s);
    ScanGoesOn(SlotStatuses(s.slots), head, d, s.pc.i, false);
    IndicesNext(head, d, s.pc.i, cfg.n);
    IndicesEmpty(head, s.pc.i + 1, cfg.n);
  }

  lemma {:induction false} SkipEffect(cfg: Config, s: State)
    requires cfg.n > 0 && cfg.packets && AtBuffer(cfg, s) && !s.pc.hasSof && !s.slots[s.pc.m].st.sof
    ensures var up := (s.pc.m + 1) % cfg.n;
            Protocol.Step(cfg, s, Handler)
            == s.(pc := Scan(s.pc.i + 1, up, false, []), next := up, handed := s.handed + 1, lo := s.lo + 1)
  {
  }

  lemma {:induction false} PacketScanGoesOn(cfg: Config, s: State, head: nat, d: nat)
    requires Scanning(cfg, s, head, d) && cfg.packets && AtBuffer(cfg, s)
    requires (s.pc.hasSof || s.slots[s.pc.m].st.sof) && !s.slots[s.pc.m].st.eof
    ensures var t := Protocol.Step(cfg, s, Handler);
            t.pc.Scan? && t.pc.i == s.pc.i + 1 && Scanning(cfg, t, head, d) && Looked(s, t, t.pc, t.next)
  {
    hide At, PacketScan, Indices;
    ScanBounds(cfg, s, head, d);
    ScanGoesOn(SlotStatuses(s.slots), head, d, s.pc.i, s.pc.hasSof);
    IndicesNext(head, d, s.pc.i, cfg.n);
  }

  lemma {:induction false} StreamScanEnds(cfg: Config, s: State, head: nat, d: nat)
    requires Scanning(cfg, s, head, d) && !cfg.packets
    requires s.pc.i == cfg.n || !s.slots[s.pc.m].st.cmplt || s.slots[s.pc.m].st.len == 0
    ensures var t := Protocol.Step(cfg, s, Handler);
            Looked(s, t, AfterLook(LookOf(cfg, s, head)), LookOf(cfg, s, head).next)
  {
    hide At, Rotated, TakeAll, Indices;
    ScanBounds(cfg, s, head, d);
    var i := s.pc.i;
    WindowStops(SlotStatuses(s.slots), head, i, i < cfg.n && s.slots[s.pc.m].st.cmplt);
  }

  lemma {:induction false} StreamScanGoesOn(cfg: Config, s: State, head: nat, d: nat)
    requires Scanning(cfg, s, head, d) && !cfg.packets && AtBuffer(cfg, s)
    ensures var t := Protocol.Step(cfg, s, Handler);
            t.pc.Scan? && t.pc.i == s.pc.i + 1 && Scanning(cfg, t, head, d) && Looked(s, t, t.pc, t.next)
  {
    hide At, Rotated, Indices;
    ScanBounds(cfg, s, head, d);
    IndicesNext(head, d, s.pc.i, cfg.n);
  }

  predicate OnRing(idx: seq<nat>, n: nat) {
    forall k :: 0 <= k < |idx| ==> idx[k] < n
  }

  /** The listed slots are complete. */
  predicate AllComplete(slots: seq<Protocol.Slot>, idx: seq<nat>)
    requires OnRing(idx, |slots|)
  {
    forall k :: 0 <= k < |idx| ==> slots[idx[k]].st.cmplt
  }

  /** The statuses of the listed slots. */
  function Cached(slots: seq<Protocol.Slot>, idx: seq<nat>): (r: seq<Status>)
    requires OnRing(idx, |slots|)
    ensures |r| == |idx|
  {
    seq(|idx|, k requires 0 <= k < |idx| => slots[idx[k]].st)
  }

  /** The slots after the listed ones were released. */
  function ReleaseSlots(slots: seq<Protocol.Slot>, idx: seq<nat>): (r: seq<Protocol.Slot>)
    ensures |r| == |slots|
  {
    seq(|slots|, i requires 0 <= i < |slots| =>
      if i in idx then slots[i].(st := slots[i].st.(cmplt := false)) else slots[i])
  }

  /** What the listed slots hold. */
  function Contents(slots: seq<Protocol.Slot>, idx: seq<nat>): (r: seq<Buf>)
    requires OnRing(idx, |slots|)
    ensures |r| == |idx|
  {
    seq(|idx|, k requires 0 <= k < |idx| => Content(slots[idx[k]]))
  }

  /** Reading the statuses reads them all. */
  lemma {:induction false} FetchRun(cfg: Config, s: State, m: nat)
    requires cfg.n > 0 && s.pc.Fetching? && OnRing(s.pc.idx, |s.slots|)
    requires m <= |s.pc.idx| && s.pc.stats == Cached(s.slots, s.pc.idx)[..m]
    ensures Reaches(cfg, s, s.(pc := Copying(s.pc.idx, Cached(s.slots, s.pc.idx), 0, [], 0)))
    decreases |s.pc.idx| - m
  {
    hide Reaches, HandlerRun;
    var t := s.(pc := Copying(s.pc.idx, Cached(s.slots, s.pc.idx), 0, [], 0));
    if m < |s.pc.idx| {
      var u := Protocol.Step(cfg, s, Handler);
      assert u.pc.stats == Cached(s.slots, s.pc.idx)[..m + 1];
      FetchRun(cfg, u, m + 1);
    } else {
      assert Cached(s.slots, s.pc.idx)[..m] == Cached(s.slots, s.pc.idx);
      ReachesSelf(cfg, t);
    }
    ReachesNext(cfg, s, t);
  }

  /** Copying a buffer copies the rest of it, then releases it. */
  lemma {:induction false} BufferRun(cfg: Config, s: State)
    requires cfg.n > 0 && s.pc.Copying? && s.pc.k < |s.pc.idx| == |s.pc.stats| && s.pc.idx[s.pc.k] < |s.slots|
    requires s.pc.j <= s.pc.stats[s.pc.k].len <= |s.slots[s.pc.idx[s.pc.k]].data|
    ensures Reaches(cfg, s, Copied(s))
    decreases s.pc.stats[s.pc.k].len - s.pc.j
  {
    hide Reaches, HandlerRun;
    var u, t := Protocol.Step(cfg, s, Handler), Copied(s);
    if s.pc.j < s.pc.stats[s.pc.k].len {
      BufferRun(cfg, u);
      AppendSlice(s.pc.out, s.slots[s.pc.idx[s.pc.k]].data, s.pc.j, s.pc.stats[s.pc.k].len);
    } else {
      AppendNothing(s.pc.out, s.slots[s.pc.idx[s.pc.k]].data, s.pc.j);
      ReachesSelf(cfg, t);
    }
    ReachesNext(cfg, s, t);
  }

  lemma {:induction false} AppendNothing(out: seq<byte>, data: seq<byte>, j: nat)
    requires j <= |data|
    ensures out + data[j..j] == out
  {
  }

  lemma {:induction false} AppendSlice(out: seq<byte>, data: seq<byte>, j: nat, len: nat)
    requires j < len <= |data|
    ensures out + [data[j]] + data[j + 1..len] == out + data[j..len]
  {
  }

  function Copied(s: State): State
    requires s.pc.Copying? && s.pc.k < |s.pc.idx| == |s.pc.stats| && s.pc.idx[s.pc.k] < |s.slots|
    requires s.pc.j <= s.pc.stats[s.pc.k].len <= |s.slots[s.pc.idx[s.pc.k]].data|
  {
    var Copying(idx, stats, k, out, j) := s.pc;
    var slot := s.slots[idx[k]];
    s.(slots := s.slots[idx[k] := slot.(st := stats[k].(cmplt := false))], cleared := s.cleared + 1,
       pc := Copying(idx, stats, k + 1, out + slot.data[j..stats[k].len], 0))
  }

  /** In the middle of copying a group out of the given slots. */
  ghost predicate CopyingGroup(cfg: Config, s: State, slots: seq<Protocol.Slot>, idx: seq<nat>, k: nat) {
    && Shaped(cfg, slots) && OnRing(idx, |slots|) && AllComplete(slots, idx) && k <= |idx|
    && s.slots == ReleaseSlots(slots, idx[..k])
    && s.pc == Copying(idx, Cached(slots, idx), k, Flat(Contents(slots, idx)[..k]), 0)
  }

  /** Copying a group copies all its bytes, in order, and releases exactly its slots. */
  lemma {:induction false} CopyRun(cfg: Config, s: State, slots: seq<Protocol.Slot>, idx: seq<nat>, k: nat)
    returns (t: State)
    requires CopyingGroup(cfg, s, slots, idx, k)
    ensures cfg.n > 0 && Reaches(cfg, s, t)
    ensures t == s.(slots := ReleaseSlots(slots, idx), pc := Pushing(Flat(Contents(slots, idx))), cleared := t.cleared)
    decreases |idx| - k
  {
    hide Reaches, HandlerRun, Flat, Contents, Cached, ReleaseSlots, Protocol.Step;
    if k < |idx| {
      CopyOne(cfg, s, slots, idx, k);
      var u := Copied(s);
      t := CopyRun(cfg, u, slots, idx, k + 1);
      BufferRun(cfg, s);
      ReachesTrans(cfg, s, u, t);
    } else {
      t := s.(pc := Pushing(s.pc.out));
      CopyEnds(cfg, s);
      assert idx[..k] == idx && Contents(slots, idx)[..k] == Contents(slots, idx);
      ReachesSelf(cfg, t);
      ReachesNext(cfg, s, t);
    }
  }

  lemma {:induction false} CopyEnds(cfg: Config, s: State)
    requires cfg.n > 0 && s.pc.Copying? && s.pc.k == |s.pc.idx|
    ensures Protocol.Step(cfg, s, Handler) == s.(pc := Pushing(s.pc.out))
  {
  }

  lemma {:induction false} CopyOne(cfg: Config, s: State, slots: seq<Protocol.Slot>, idx: seq<nat>, k: nat)
    requires CopyingGroup(cfg, s, slots, idx, k) && k < |idx|
    ensures idx[k] < |s.slots| && s.pc.stats[k].len <= |s.slots[idx[k]].data|
    ensures CopyingGroup(cfg, Copied(s), slots, idx, k + 1)
  {
    hide Flat;
    var bufs, slot := Contents(slots, idx), slots[idx[k]];
    FlatStep(bufs, k);
    assert idx[..k + 1] == idx[..k] + [idx[k]];
    assert s.slots[idx[k]].data == slot.data;
    assert slot.data[0..slot.st.len] == slot.data[..slot.st.len] == bufs[k].bytes;
    var a, b := Copied(s).slots, ReleaseSlots(slots, idx[..k + 1]);
    assert forall i :: 0 <= i < |a| ==> a[i] == b[i];
  }

  /** The buffers lie where the descriptors say. */
  lemma {:induction false} BytesAt(slots: seq<Protocol.Slot>, size: nat, i: nat)
    requires i <= |slots| && forall j :: 0 <= j < |slots| ==> |slots[j].data| == size
    ensures |Bytes(slots)| == |slots| * size && i * size <= |Bytes(slots)|
    ensures i < |slots| ==>
              i * size + size <= |Bytes(slots)| && Bytes(slots)[i * size..i * size + size] == slots[i].data
    decreases |slots|
  {
    if slots != [] {
      var rest, i' := Bytes(slots[1..]), if i > 0 then i - 1 else 0;
      BytesAt(slots[1..], size, i');
      OneMoreTimes(|slots| - 1, size);
      OneMoreTimes(i', size);
      assert Bytes(slots) == slots[0].data + rest;
      if 0 < i < |slots| {
        assert Bytes(slots)[size + i' * size..size + i' * size + size] == rest[i' * size..i' * size + size];
      }
    }
  }

  lemma {:induction false} OneMoreTimes(k: nat, size: nat)
    ensures (k + 1) * size == size + k * size && 0 * size == 0 <= k * size
  {
  }

  lemma {:induction false} BytesSame(a: seq<Protocol.Slot>, b: seq<Protocol.Slot>)
    requires |a| == |b| && forall i :: 0 <= i < |a| ==> a[i].data == b[i].data
    ensures Bytes(a) == Bytes(b)
    decreases |a|
  {
    if a != [] { BytesSame(a[1..], b[1..]); }
  }

  /** What the slots hold is what the methods read from the region. */
  lemma {:induction false} ContentsAre(cfg: Config, slots: seq<Protocol.Slot>, idx: seq<nat>)
    requires Shaped(cfg, slots) && OnRing(idx, |slots|) && AllComplete(slots, idx)
    ensures Contents(slots, idx) == BufsOf(SlotStatuses(slots), Bytes(slots), cfg.bufSize, idx)
  {
    hide Bytes;
    var a, b := Contents(slots, idx), BufsOf(SlotStatuses(slots), Bytes(slots), cfg.bufSize, idx);
    forall k | 0 <= k < |idx| ensures a[k] == b[k] {
      SlotContent(cfg, slots, idx[k]);
    }
  }

  lemma {:induction false} SlotContent(cfg: Config, slots: seq<Protocol.Slot>, i: nat)
    requires Shaped(cfg, slots) && i < |slots| && slots[i].st.cmplt
    ensures Content(slots[i]) == BufOf(Bytes(slots), cfg.bufSize, i, slots[i].st)
  {
    hide Bytes;
    BytesAt(slots, cfg.bufSize, i);
    BufferStart(Bytes(slots), cfg.bufSize, i, slots[i].st, slots[i].data);
  }

  lemma {:induction false} BufferStart(bytes: seq<byte>, size: nat, i: nat, st: Status, data: seq<byte>)
    requires 0 <= i * size && i * size + size <= |bytes| && bytes[i * size..i * size + size] == data && st.len <= size
    ensures BufOf(bytes, size, i, st) == Buf(st, data[..st.len])
  {
    var o := i * size;
    SubSlice(bytes, o, size, 0, st.len);
    assert o + 0 == o;
  }

  /** Releasing slots is releasing descriptors; the bytes stay. */
  lemma {:induction false} ReleaseSlotsIs(cfg: Config, slots: seq<Protocol.Slot>, idx: seq<nat>)
    requires Shaped(cfg, slots)
    ensures Shaped(cfg, ReleaseSlots(slots, idx))
    ensures SlotStatuses(ReleaseSlots(slots, idx)) == Released(SlotStatuses(slots), idx)
    ensures Bytes(ReleaseSlots(slots, idx)) == Bytes(slots)
  {
    BytesSame(ReleaseSlots(slots, idx), slots);
  }

  /** t differs from s only in slots, program counter, read index, queue and history. */
  ghost predicate Drained(s: State, t: State, slots: seq<Protocol.Slot>, pc: Pc, next: nat, queue: seq<Block>) {
    t == s.(slots := slots, pc := pc, next := next, queue := queue,
            handed := t.handed, lo := t.lo, cleared := t.cleared)
  }

  /** One round: a look that takes something is followed by copying and releasing it. */
  lemma {:induction false} RoundRun(cfg: Config, s: State) returns (t: State)
    requires Shaped(cfg, s.slots) && s.next < cfg.n && s.pc == Scan(0, s.next, false, [])
    requires LookOf(cfg, s, s.next).ok && LookOf(cfg, s, s.next).idx != []
    ensures Reaches(cfg, s, t)
    ensures var take := LookOf(cfg, s, s.next);
            && OnRing(take.idx, |s.slots|) && AllComplete(s.slots, take.idx)
            && Drained(s, t, ReleaseSlots(s.slots, take.idx), Pushing(Flat(Contents(s.slots, take.idx))),
                       take.next, s.queue)
  {
    hide Reaches, HandlerRun, Flat, Contents, TakeNext, Completed;
    var take := LookOf(cfg, s, s.next);
    ScanStarts(cfg, s);
    TakeFacts(cfg.packets, SlotStatuses(s.slots), s.next);
    var u := ScanRun(cfg, s, s.next, 0);
    assert Cached(u.slots, take.idx)[..0] == [];
    FetchRun(cfg, u, 0);
    var v := u.(pc := Copying(take.idx, Cached(u.slots, take.idx), 0, [], 0));
    CopyStarts(cfg, v, take.idx);
    t := CopyRun(cfg, v, s.slots, take.idx, 0);
    ReachesTrans(cfg, s, u, v);
    ReachesTrans(cfg, s, v, t);
  }

  lemma {:induction false} ScanStarts(cfg: Config, s: State)
    requires Shaped(cfg, s.slots) && s.next < cfg.n && s.pc == Scan(0, s.next, false, [])
    ensures Scanning(cfg, s, s.next, 0)
  {
    hide PacketScan;
    ScanBegins(SlotStatuses(s.slots), s.next);
  }

  lemma {:induction false} CopyStarts(cfg: Config, s: State, idx: seq<nat>)
    requires Shaped(cfg, s.slots) && OnRing(idx, |s.slots|) && AllComplete(s.slots, idx)
    requires s.pc == Copying(idx, Cached(s.slots, idx), 0, [], 0)
    ensures CopyingGroup(cfg, s, s.slots, idx, 0)
  {
    assert idx[..0] == [] && Contents(s.slots, idx)[..0] == [];
    assert ReleaseSlots(s.slots, []) == s.slots;
    FlatNil();
  }

  /** Where the handler is after a drain that ended so. */
  function AfterDrain(end: Outcome): Pc
    requires end.Done? || end.ZeroLength? || end.Overflow?
  {
    match end
    case Done => Rearming
    case ZeroLength => Dead(EmptyBufferSeen)
    case Overflow(lost) => Dead(QueueFull(lost))
  }

  /** What a drain by the methods would do now. */
  function DrainOf(cfg: Config, s: State): Drainage
    requires s.next < |s.slots| && |s.queue| <= cfg.cap
  {
    DrainAll(cfg.packets, SlotStatuses(s.slots), s.next, Bytes(s.slots), cfg.bufSize, cfg.cap - |s.queue|)
  }

  /** t is s after that drain. */
  ghost predicate DrainedTo(s: State, t: State, d: Drainage)
    requires d.end.Done? || d.end.ZeroLength? || d.end.Overflow?
  {
    && Drained(s, t, t.slots, AfterDrain(d.end), d.next, s.queue + d.sent)
    && SlotStatuses(t.slots) == d.sts && Bytes(t.slots) == Bytes(s.slots)
  }

  /** The handler's loop, from its first status read to its end, is the drain of the methods. */
  lemma {:induction false} DrainRuns(cfg: Config, s: State) returns (t: State)
    requires Shaped(cfg, s.slots) && s.next < cfg.n && s.pc == Scan(0, s.next, false, []) && |s.queue| <= cfg.cap
    ensures Reaches(cfg, s, t) && DrainedTo(s, t, DrainOf(cfg, s))
    decreases Completed(SlotStatuses(s.slots))
  {
    hide Reaches, HandlerRun, Flat, Contents, TakeNext, Completed, Released, BufsOf, Bytes, SlotStatuses;
    hide ReleaseSlots, DrainAll;
    var sts, take := SlotStatuses(s.slots), LookOf(cfg, s, s.next);
    DrainRound(cfg.packets, sts, s.next, Bytes(s.slots), cfg.bufSize, cfg.cap - |s.queue|, []);
    if !take.ok || take.idx == [] {
      ScanStarts(cfg, s);
      t := ScanRun(cfg, s, s.next, 0);
      assert s.queue + [] == s.queue;
    } else {
      var v := RoundAndPush(cfg, s);
      if |s.queue| < cfg.cap {
        t := DrainRuns(cfg, v);
        DrainedOn(cfg, s, v, t);
        ReachesTrans(cfg, s, v, t);
      } else {
        t := v;
        assert s.queue + [] == s.queue;
      }
    }
  }

  /** A round and the push of its block: the queue grows, or the block is lost. */
  lemma {:induction false} RoundAndPush(cfg: Config, s: State) returns (v: State)
    requires Shaped(cfg, s.slots) && s.next < cfg.n && s.pc == Scan(0, s.next, false, []) && |s.queue| <= cfg.cap
    requires LookOf(cfg, s, s.next).ok && LookOf(cfg, s, s.next).idx != []
    ensures Reaches(cfg, s, v) && Shaped(cfg, v.slots)
    ensures var take := LookOf(cfg, s, s.next);
            && OnRing(take.idx, |s.slots|) && take.next < cfg.n
            && SlotStatuses(v.slots) == Released(SlotStatuses(s.slots), take.idx) && Bytes(v.slots) == Bytes(s.slots)
            && var block := Flat(BufsOf(SlotStatuses(s.slots), Bytes(s.slots), cfg.bufSize, take.idx));
               if |s.queue| < cfg.cap then
                 Drained(s, v, v.slots, Scan(0, take.next, false, []), take.next, s.queue + [block])
               else
                 Drained(s, v, v.slots, Dead(QueueFull(block)), take.next, s.queue)
  {
    hide Reaches, HandlerRun, Flat, Contents, TakeNext, Completed, Released, BufsOf, Bytes, SlotStatuses, ReleaseSlots;
    var take := LookOf(cfg, s, s.next);
    TakeFacts(cfg.packets, SlotStatuses(s.slots), s.next);
    var u := RoundRun(cfg, s);
    ContentsAre(cfg, s.slots, take.idx);
    ReleaseSlotsIs(cfg, s.slots, take.idx);
    v := Protocol.Step(cfg, u, Handler);
    ReachesSelf(cfg, v);
    ReachesNext(cfg, u, v);
    ReachesTrans(cfg, s, u, v);
  }

  /** The drain after a round is the rest of the drain. */
  lemma {:induction false} DrainedOn(cfg: Config, s: State, v: State, t: State)
    requires s.next < |s.slots| == |v.slots| && |s.queue| < cfg.cap && |v.queue| == |s.queue| + 1
    requires var sts, take := SlotStatuses(s.slots), LookOf(cfg, s, s.next);
             && take.ok && take.idx != [] && OnRing(take.idx, |s.slots|) && take.next < |s.slots|
             && SlotStatuses(v.slots) == Released(sts, take.idx) && Bytes(v.slots) == Bytes(s.slots)
             && var block := Flat(BufsOf(sts, Bytes(s.slots), cfg.bufSize, take.idx));
                Drained(s, v, v.slots, Scan(0, take.next, false, []), take.next, s.queue + [block])
    requires DrainedTo(v, t, DrainOf(cfg, v))
    ensures DrainedTo(s, t, DrainOf(cfg, s))
  {
    hide Flat, TakeNext, Completed, Released, BufsOf, Bytes, SlotStatuses, DrainAll;
    var sts, take := SlotStatuses(s.slots), LookOf(cfg, s, s.next);
    var none: seq<Block>, d, rest := [], DrainOf(cfg, s), DrainOf(cfg, v);
    var block := Flat(BufsOf(sts, Bytes(s.slots), cfg.bufSize, take.idx));
    DrainRound(cfg.packets, sts, s.next, Bytes(s.slots), cfg.bufSize, cfg.cap - |s.queue|, none);
    assert d.(sent := none + d.sent) == rest.(sent := none + [block] + rest.sent);
    assert none + d.sent == d.sent && none + [block] == [block];
    assert s.queue + ([block] + rest.sent) == s.queue + [block] + rest.sent;
  }

  /** Unless it sees a fault, a handler woken by a completion gets to its first status read. */
  lemma {:induction false} WakesToScan(cfg: Config, s: State)
    requires cfg.n > 0 && s.pc.Armed? && s.ioc && !(s.err && s.fault)
    ensures Reaches(cfg, s, StartScan(s.(ioc := false, err := false)))
  {
    hide Reaches, HandlerRun;
    var t := StartScan(s.(ioc := false, err := false));
    ReachesSelf(cfg, t);
    if s.err { ReachesNext(cfg, s.(ioc := false, err := false, pc := Checking(true)), t); }
    ReachesNext(cfg, s.(pc := Acking(true, s.err)), t);
    ReachesNext(cfg, s.(pc := Woken), t);
    ReachesNext(cfg, s, t);
  }

  /** Seeing a fault, it stops. */
  lemma {:induction false} WakesToStop(cfg: Config, s: State)
    requires cfg.n > 0 && s.pc.Armed? && s.err && s.fault
    ensures Reaches(cfg, s, s.(ioc := false, err := false, pc := Dead(DmaError)))
  {
    hide Reaches, HandlerRun;
    var t := s.(ioc := false, err := false, pc := Dead(DmaError));
    ReachesSelf(cfg, t);
    ReachesNext(cfg, s.(ioc := false, err := false, pc := Checking(s.ioc)), t);
    ReachesNext(cfg, s.(pc := Acking(s.ioc, true)), t);
    ReachesNext(cfg, s.(pc := Woken), t);
    ReachesNext(cfg, s, t);
  }

  /** Woken by an error that is none, it re-arms. */
  lemma {:induction false} WakesInVain(cfg: Config, s: State)
    requires cfg.n > 0 && s.pc.Armed? && s.err && !s.fault && !s.ioc
    ensures Reaches(cfg, s, s.(err := false, pc := Rearming))
  {
    hide Reaches, HandlerRun;
    var t := s.(err := false, pc := Rearming);
    ReachesSelf(cfg, t);
    ReachesNext(cfg, s.(err := false, pc := Checking(false)), t);
    ReachesNext(cfg, s.(pc := Acking(false, true)), t);
    ReachesNext(cfg, s.(pc := Woken), t);
    ReachesNext(cfg, s, t);
  }

  /** One wake-up of the handler, with the engine quiet, does what the interrupt handler method
      does: it acknowledges what it saw, stops on a fault, drains if a completion was seen, and
      re-arms unless something was thrown. */
  lemma {:induction false} WakeUpRefines(cfg: Config, s: State) returns (t: State)
    requires Shaped(cfg, s.slots) && s.next < cfg.n && |s.queue| <= cfg.cap && s.pc.Armed? && (s.ioc || s.err)
    ensures Reaches(cfg, s, t)
    ensures var seen := s.(ioc := false, err := false);
            if s.err && s.fault then t == seen.(pc := Dead(DmaError))
            else if s.ioc then DrainedTo(seen, t, DrainOf(cfg, s))
            else t == seen.(pc := Rearming)
  {
    hide Reaches, HandlerRun, DrainAll, Protocol.Step;
    var seen := s.(ioc := false, err := false);
    if s.err && s.fault {
      t := seen.(pc := Dead(DmaError));
      WakesToStop(cfg, s);
    } else if s.ioc {
      WakesToScan(cfg, s);
      t := DrainRuns(cfg, StartScan(seen));
      ReachesTrans(cfg, s, StartScan(seen), t);
    } else {
      t := seen.(pc := Rearming);
      WakesInVain(cfg, s);
    }
  }
}
