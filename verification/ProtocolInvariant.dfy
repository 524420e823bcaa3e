/** The invariant of the receive protocol and its preservation by every step. */
module ProtocolInvariant {
  import opened Words
  import opened Modular
  import opened Descriptor
  import opened Ring
  import opened Protocol

  /** The buffers from..to of the run lie intact in their slots. */
  ghost predicate Holds(n: nat, slots: seq<Slot>, prod: seq<Buf>, k: nat)
    requires n > 0 && |slots| == n && k < |prod|
  {
    Content(slots[k % n]) == prod[k]
  }

  ghost predicate Free(n: nat, slots: seq<Slot>, k: nat)
    requires n > 0 && |slots| == n
  {
    !slots[k % n].st.cmplt
  }

  /** Released <= handed out <= produced <= released + n. */
  ghost predicate Counters(n: nat, s: State) {
    && n > 0 && s.lo <= s.cleared <= s.handed <= |s.prod| <= s.cleared + n
    && s.next == s.handed % n
  }

  /** Every buffer not yet released is intact in its slot, every other slot is the engine's. */
  ghost predicate Memory(cfg: Config, slots: seq<Slot>, prod: seq<Buf>, cleared: nat) {
    && ValidConfig(cfg) && |slots| == cfg.n
    && (forall i :: 0 <= i < cfg.n ==> |slots[i].data| == cfg.bufSize)
    && (forall k :: cleared <= k < |prod| ==> Holds(cfg.n, slots, prod, k))
    && (forall k :: |prod| <= k < cleared + cfg.n ==> Free(cfg.n, slots, k))
  }

  ghost predicate Conforming(cfg: Config, prod: seq<Buf>) {
    WellFormed(prod) && forall k :: 0 <= k < |prod| ==> prod[k].st.len <= cfg.bufSize
  }

  ghost predicate StatsOf(prod: seq<Buf>, lo: nat, stats: seq<Status>) {
    lo + |stats| <= |prod| && forall t :: 0 <= t < |stats| ==> stats[t] == prod[lo + t].st
  }

  /** The group in hand: buffers lo up to handed, by ring index. */
  ghost predicate Group(n: nat, lo: nat, handed: nat, idx: seq<nat>) {
    n > 0 && lo < handed && idx == Indices(lo, 0, handed - lo, n)
  }

  /** What the handler's local variables mean. */
  ghost predicate Local(cfg: Config, pc: Pc, prod: seq<Buf>, lo: nat, cleared: nat, handed: nat) {
    && lo <= cleared <= handed <= |prod| && cfg.n > 0
    && match pc
       case Scan(i, m, hasSof, acc) =>
         && cleared == lo && i <= cfg.n && lo + i <= |prod| && m == (lo + i) % cfg.n
         && acc == Indices(lo, 0, i, cfg.n)
         && (if cfg.packets then handed == lo && hasSof == (i > 0) && !HasEof(prod[lo..lo + i])
             else handed == lo + i)
       case Fetching(idx, stats) =>
         Group(cfg.n, lo, handed, idx) && cleared == lo && |stats| <= |idx| && StatsOf(prod, lo, stats)
       case Copying(idx, stats, k, out, j) =>
         && Group(cfg.n, lo, handed, idx) && |stats| == |idx| && StatsOf(prod, lo, stats)
         && k <= |idx| && cleared == lo + k
         && (if k < |idx| then j <= |prod[lo + k].bytes| && out == Flat(prod[lo..lo + k]) + prod[lo + k].bytes[..j]
             else j == 0 && out == Flat(prod[lo..lo + k]))
       case Pushing(out) => lo < handed == cleared && out == Flat(prod[lo..handed])
       case Dead(QueueFull(lost)) => lo < handed == cleared && lost == Flat(prod[lo..handed])
       case Dead(DmaError) => lo == handed
       case Dead(_) => false
       case _ => lo == handed
  }

  /** In packet mode the group in hand is exactly one packet. */
  ghost predicate Boundaries(cfg: Config, prod: seq<Buf>, lo: nat, handed: nat) {
    cfg.packets && lo <= handed <= |prod| ==>
      && Closed(prod[..lo])
      && (lo < handed ==> EndsFrame(prod[handed - 1]) && !HasEof(prod[lo..handed - 1]))
  }

  /** Everything before the group in hand was delivered, in order, exactly once. */
  ghost predicate Ledger(cfg: Config, done: seq<Buf>, delivered: seq<seq<byte>>) {
    if cfg.packets then Packets(done) == delivered else Flat(done) == Join(delivered)
  }

  /** The handler stops for good only on an engine fault or a full queue. */
  ghost predicate Excused(cfg: Config, s: State) {
    && |s.queue| <= cfg.cap
    && (s.pc.Dead? ==> (s.pc.why == DmaError && s.fault) || s.pc.why.QueueFull?)
  }

  /** The handler is asleep, or on its way back to sleep without another scan ahead. */
  predicate Resting(pc: Pc) {
    pc.Armed? || pc.Woken? || pc.Rearming? || (pc.Acking? && !pc.ioc) || (pc.Checking? && !pc.ioc)
  }

  /** No lost interrupt. */
  ghost predicate Notified(pc: Pc, ioc: bool, pend: bool, waiting: seq<Buf>) {
    Resting(pc) && HasEof(waiting) ==> ioc || pend
  }

  ghost predicate Inv(cfg: Config, s: State) {
    && Counters(cfg.n, s)
    && Memory(cfg, s.slots, s.prod, s.cleared)
    && Conforming(cfg, s.prod)
    && Local(cfg, s.pc, s.prod, s.lo, s.cleared, s.handed)
    && Boundaries(cfg, s.prod, s.lo, s.handed)
    && Ledger(cfg, s.prod[..s.lo], s.popped + s.queue)
    && Excused(cfg, s)
    && Notified(s.pc, s.ioc, s.pend, s.prod[s.handed..])
  }

  lemma {:induction false} InitInv(cfg: Config, s: State)
    requires ValidConfig(cfg) && Init(cfg, s)
    ensures Inv(cfg, s)
  {
  }

  /** All counters within one turn of k, other than k itself, live in other slots. */
  lemma {:induction false} OtherSlots(n: nat, k: nat)
    requires n > 0
    ensures forall j: nat :: j != k && k < j + n && j < k + n ==> j % n != k % n
  {
    forall j: nat | j != k && k < j + n && j < k + n ensures j % n != k % n {
      if j < k { ModDistinct(n, j, k); } else { ModDistinct(n, k, j); }
    }
  }

  /** The engine's next slot has cmplt clear exactly while the ring has room. */
  lemma {:induction false} RoomIffFree(cfg: Config, s: State)
    requires Counters(cfg.n, s) && Memory(cfg, s.slots, s.prod, s.cleared) && Conforming(cfg, s.prod)
    ensures !s.slots[Tail(cfg, s)].st.cmplt <==> |s.prod| < s.cleared + cfg.n
  {
    if |s.prod| < s.cleared + cfg.n {
      assert Free(cfg.n, s.slots, |s.prod|);
    } else {
      ModTurn(cfg.n, s.cleared);
      assert Holds(cfg.n, s.slots, s.prod, s.cleared);
    }
  }

  /** A write to the slot of counter k disturbs no other counter within a turn. */
  lemma {:induction false} MemoryUpdate(cfg: Config, slots: seq<Slot>, prod: seq<Buf>, cleared: nat, k: nat, slot: Slot)
    requires Memory(cfg, slots, prod, cleared) && |slot.data| == cfg.bufSize
    requires cleared <= k < cleared + cfg.n && cleared <= |prod| <= cleared + cfg.n
    ensures |slots| == cfg.n > 0
    ensures var s' := slots[k % cfg.n := slot];
            && (forall i :: 0 <= i < cfg.n ==> |s'[i].data| == cfg.bufSize)
            && (forall j: nat :: cleared <= j < |prod| && j != k ==> Holds(cfg.n, s', prod, j))
            && (forall j: nat :: |prod| <= j < cleared + cfg.n && j != k ==> Free(cfg.n, s', j))
  {
    OtherSlots(cfg.n, k);
    var s' := slots[k % cfg.n := slot];
    forall j: nat | cleared <= j < |prod| && j != k ensures Holds(cfg.n, s', prod, j) {
      assert Holds(cfg.n, slots, prod, j);
    }
    forall j: nat | |prod| <= j < cleared + cfg.n && j != k ensures Free(cfg.n, s', j) {
      assert Free(cfg.n, slots, j);
    }
  }

  lemma {:induction false} FillKeeps(cfg: Config, s: State, a: Act)
    requires Inv(cfg, s) && a.Fill? && Enabled(cfg, s, a)
    ensures Inv(cfg, Step(cfg, s, a))
  {
    hide Memory, Conforming, Local, Boundaries, Ledger, Notified;
    FillMemory(cfg, s, a);
  }

  lemma {:induction false} FillMemory(cfg: Config, s: State, a: Act)
    requires Counters(cfg.n, s) && Memory(cfg, s.slots, s.prod, s.cleared) && Conforming(cfg, s.prod)
    requires a.Fill? && Enabled(cfg, s, a)
    ensures Memory(cfg, Step(cfg, s, a).slots, s.prod, s.cleared)
  {
    hide WellFormed, Holds;
    RoomIffFree(cfg, s);
    MemoryUpdate(cfg, s.slots, s.prod, s.cleared, |s.prod|, s.slots[Tail(cfg, s)].(data := a.data));
    TailUntouched(cfg, s, a);
  }

  /** Filling the engine's slot leaves its status as it is. */
  lemma {:induction false} TailUntouched(cfg: Config, s: State, a: Act)
    requires cfg.n > 0 && |s.slots| == cfg.n && a.Fill? && Enabled(cfg, s, a)
    ensures Free(cfg.n, Step(cfg, s, a).slots, |s.prod|)
  {
  }

  lemma {:induction false} ConformingAppend(cfg: Config, prod: seq<Buf>, b: Buf)
    requires Conforming(cfg, prod)
    requires b.st.cmplt && 0 < b.st.len == |b.bytes| <= cfg.bufSize && (Closed(prod) ==> b.st.sof)
    ensures Conforming(cfg, prod + [b])
  {
    var p := prod + [b];
    forall k | 0 <= k < |p|
      ensures p[k].st.cmplt && 0 < p[k].st.len == |p[k].bytes| <= cfg.bufSize
      ensures Closed(p[..k]) ==> p[k].st.sof
    {
      if k < |prod| {
        assert p[k] == prod[k];
        assert p[..k] == prod[..k];
      } else {
        assert p[..k] == prod;
      }
    }
  }

  /** What the handler knows of the past survives a new completion. */
  lemma {:induction false} LocalGrows(cfg: Config, pc: Pc, prod: seq<Buf>, b: Buf, lo: nat, cleared: nat, handed: nat)
    requires Local(cfg, pc, prod, lo, cleared, handed) && Boundaries(cfg, prod, lo, handed)
    ensures Local(cfg, pc, prod + [b], lo, cleared, handed) && Boundaries(cfg, prod + [b], lo, handed)
  {
    var p := prod + [b];
    assert forall x, y :: 0 <= x <= y <= |prod| ==> p[x..y] == prod[x..y];
    assert p[..lo] == prod[..lo];
  }

  lemma {:induction false} PublishMemory(cfg: Config, s: State, a: Act)
    requires Counters(cfg.n, s) && Memory(cfg, s.slots, s.prod, s.cleared) && Conforming(cfg, s.prod)
    requires a.Publish? && Enabled(cfg, s, a)
    ensures var t := Step(cfg, s, a);
            Counters(cfg.n, t) && Memory(cfg, t.slots, t.prod, t.cleared) && Conforming(cfg, t.prod)
  {
    var t := Step(cfg, s, a);
    var slot := s.slots[Tail(cfg, s)].(st := a.st);
    RoomIffFree(cfg, s);
    MemoryUpdate(cfg, s.slots, s.prod, s.cleared, |s.prod|, slot);
    ConformingAppend(cfg, s.prod, Content(slot));
    forall k | s.cleared <= k < |t.prod| ensures Holds(cfg.n, t.slots, t.prod, k) {
      if k < |s.prod| { assert Holds(cfg.n, t.slots, s.prod, k); }
    }
  }

  lemma {:induction false} PublishKeeps(cfg: Config, s: State, a: Act)
    requires Inv(cfg, s) && a.Publish? && Enabled(cfg, s, a)
    ensures Inv(cfg, Step(cfg, s, a))
  {
    hide Flat, Packets, Join, Memory, Conforming, Local, Boundaries, Ledger, HasEof;
    var t := Step(cfg, s, a);
    PublishMemory(cfg, s, a);
    var b := t.prod[|s.prod|];
    LocalGrows(cfg, s.pc, s.prod, b, s.lo, s.cleared, s.handed);
    assert t.prod[..t.lo] == s.prod[..s.lo];
    NotifiedGrows(s.prod[s.handed..], b);
    assert t.prod[t.handed..] == s.prod[s.handed..] + [b];
  }

  lemma {:induction false} NotifiedGrows(w: seq<Buf>, b: Buf)
    ensures HasEof(w + [b]) <==> HasEof(w) || EndsFrame(b)
  {
    if HasEof(w) {
      var j :| 0 <= j < |w| && EndsFrame(w[j]);
      assert EndsFrame((w + [b])[j]);
    }
    assert (w + [b])[|w|] == b;
  }

  lemma {:induction false} RaiseKeeps(cfg: Config, s: State, a: Act)
    requires Inv(cfg, s) && (a.RaiseIoc? || a.RaiseErr?)
    ensures Inv(cfg, Step(cfg, s, a))
  {
  }

  lemma {:induction false} PopKeeps(cfg: Config, s: State, a: Act)
    requires Inv(cfg, s) && a.Pop?
    ensures Inv(cfg, Step(cfg, s, a))
  {
    var t := Step(cfg, s, a);
    assert t.popped + t.queue == s.popped + s.queue;
  }

  lemma {:induction false} StartKeeps(cfg: Config, s: State)
    requires Inv(cfg, s) && s.lo == s.handed && !s.pc.Dead?
    ensures Inv(cfg, StartScan(s))
  {
    assert Indices(s.lo, 0, 0, cfg.n) == [];
    assert s.prod[s.lo..s.lo + 0] == [];
  }

  /** A fault that the handler has not stopped for is signalled by an error interrupt that is
      pending, or has been observed and is about to be acted on. */
  predicate FaultNoticed(s: State) {
    s.fault && !s.pc.Dead? ==> s.err || (s.pc.Acking? && s.pc.err) || s.pc.Checking?
  }

  /** Acknowledging clears exactly the interrupts that were observed; whatever was raised since
      stays pending, completion or error. Going back to sleep without a drain happens only if no
      completion was observed, and a fault is never overlooked. */
  lemma {:induction false} AckKeeps(cfg: Config, s: State)
    requires Inv(cfg, s) && Enabled(cfg, s, Handler)
    requires s.pc.Armed? || s.pc.Woken? || s.pc.Acking? || s.pc.Checking? || s.pc.Rearming?
    ensures Inv(cfg, Step(cfg, s, Handler))
    ensures FaultNoticed(s) ==> FaultNoticed(Step(cfg, s, Handler))
    ensures s.pc.Acking? ==>
              var t := Step(cfg, s, Handler);
              (t.ioc <==> s.ioc && !s.pc.ioc) && (t.err <==> s.err && !s.pc.err)
  {
    hide Flat, Packets, Join, Memory, Conforming, FaultNoticed;
    AckExact(cfg, s);
    match s.pc
    case Acking(ioc, err) =>
      var t := s.(ioc := s.ioc && !ioc, err := s.err && !err);
      if err {
        assert Inv(cfg, t.(pc := Checking(ioc)));
      } else if ioc {
        StartKeeps(cfg, t.(pc := Checking(true)));
      }
    case Checking(ioc) =>
      if !s.fault && ioc { StartKeeps(cfg, s); }
    case _ =>
  }

  lemma {:induction false} AckExact(cfg: Config, s: State)
    requires cfg.n > 0 && Enabled(cfg, s, Handler)
    requires s.pc.Armed? || s.pc.Woken? || s.pc.Acking? || s.pc.Checking? || s.pc.Rearming?
    ensures var t := Step(cfg, s, Handler);
            && (FaultNoticed(s) ==> FaultNoticed(t))
            && (s.pc.Acking? ==> (t.ioc <==> s.ioc && !s.pc.ioc) && (t.err <==> s.err && !s.pc.err))
  {
    hide ScanStep, ReadStep, EngineStep;
  }

  /** Reading a clear cmplt bit, or having come full circle, the scan has seen everything. */
  lemma {:induction false} ScanEnd(cfg: Config, s: State)
    requires Inv(cfg, s) && s.pc.Scan?
    requires s.pc.i == cfg.n || (s.pc.m < |s.slots| && !s.slots[s.pc.m].st.cmplt)
    ensures s.lo + s.pc.i == |s.prod|
    ensures !HasEof(s.prod[s.handed..])
    ensures !cfg.packets ==> s.prod[s.handed..] == []
  {
    var k := s.lo + s.pc.i;
    assert s.pc.i < cfg.n && k < |s.prod| ==> Holds(cfg.n, s.slots, s.prod, k);
    assert s.prod[s.lo..k] == s.prod[s.lo..];
  }

  /** The buffer under the scan is the next one produced. */
  lemma {:induction false} ScanSees(cfg: Config, s: State)
    requires Inv(cfg, s) && s.pc.Scan? && s.pc.i < cfg.n && s.slots[s.pc.m].st.cmplt
    ensures s.lo + s.pc.i < |s.prod| && s.slots[s.pc.m].st == s.prod[s.lo + s.pc.i].st
    ensures s.slots[s.pc.m].st.len > 0
    ensures cfg.packets && s.pc.i == 0 ==> s.slots[s.pc.m].st.sof
  {
    var k := s.lo + s.pc.i;
    assert k == |s.prod| ==> Free(cfg.n, s.slots, k);
    assert Holds(cfg.n, s.slots, s.prod, k);
  }

  lemma {:induction false} ScanLocals(cfg: Config, s: State)
    requires cfg.n > 0 && Inv(cfg, s) && s.pc.Scan?
    ensures s.lo + s.pc.i <= |s.prod| && s.pc.i <= cfg.n && s.pc.m == (s.lo + s.pc.i) % cfg.n < |s.slots|
    ensures s.next == s.handed % cfg.n && s.pc.acc == Indices(s.lo, 0, s.pc.i, cfg.n)
    ensures if cfg.packets then s.handed == s.lo && s.pc.hasSof == (s.pc.i > 0) && !HasEof(s.prod[s.lo..s.lo + s.pc.i])
            else s.handed == s.lo + s.pc.i
  {
    hide Flat, Packets, Join, Ledger, Notified, Conforming, Boundaries;
  }

  lemma {:induction false} ScanKeeps(cfg: Config, s: State)
    requires Inv(cfg, s) && s.pc.Scan?
    ensures Inv(cfg, Step(cfg, s, Handler))
  {
    hide Inv, Indices, HasEof, EndScan;
    CfgIsValid(cfg, s);
    ScanLocals(cfg, s);
    var Scan(i, m, hasSof, acc) := s.pc;
    if i == cfg.n || !s.slots[m].st.cmplt {
      ScanEnd(cfg, s);
      EndScanKeeps(cfg, s);
    } else {
      ScanSees(cfg, s);
      IndicesGrow(s.lo, 0, i, cfg.n);
      var k := s.lo + i;
      NotifiedGrows(s.prod[s.lo..k], s.prod[k]);
      assert s.prod[s.lo..k + 1] == s.prod[s.lo..k] + [s.prod[k]];
      if !cfg.packets { ScanStreamKeeps(cfg, s); } else { ScanPacketKeeps(cfg, s); }
    }
  }

  lemma {:induction false} CfgIsValid(cfg: Config, s: State)
    requires Inv(cfg, s)
    ensures cfg.n > 0
  {
  }

  lemma {:induction false} EndScanKeeps(cfg: Config, s: State)
    requires Inv(cfg, s) && s.pc.Scan? && s.lo + s.pc.i == |s.prod| && !HasEof(s.prod[s.handed..])
    ensures Inv(cfg, EndScan(s, if cfg.packets then [] else s.pc.acc))
  {
    assert cfg.packets || s.pc.acc == [] ==> s.lo == s.handed;
  }

  lemma {:induction false} ScanStreamKeeps(cfg: Config, s: State)
    requires Inv(cfg, s) && s.pc.Scan? && !cfg.packets && s.pc.i < cfg.n && s.lo + s.pc.i < |s.prod|
    requires s.slots[s.pc.m].st.cmplt && s.slots[s.pc.m].st.len > 0
    requires Indices(s.lo, 0, s.pc.i + 1, cfg.n) == s.pc.acc + [s.pc.m]
    requires (s.pc.m + 1) % cfg.n == (s.lo + s.pc.i + 1) % cfg.n
    ensures Inv(cfg, Step(cfg, s, Handler))
  {
  }

  lemma {:induction false} ScanPacketKeeps(cfg: Config, s: State)
    requires Inv(cfg, s) && s.pc.Scan? && cfg.packets && s.pc.i < cfg.n && s.lo + s.pc.i < |s.prod|
    requires s.slots[s.pc.m].st.cmplt && s.slots[s.pc.m].st.len > 0
    requires s.slots[s.pc.m].st == s.prod[s.lo + s.pc.i].st
    requires s.pc.i == 0 ==> s.slots[s.pc.m].st.sof
    requires Indices(s.lo, 0, s.pc.i + 1, cfg.n) == s.pc.acc + [s.pc.m]
    requires (s.pc.m + 1) % cfg.n == (s.lo + s.pc.i + 1) % cfg.n
    requires HasEof(s.prod[s.lo..s.lo + s.pc.i + 1]) <==> s.slots[s.pc.m].st.eof
    ensures Inv(cfg, Step(cfg, s, Handler))
  {
    hide Flat, Packets, Join, Conforming;
  }

  /** Each descriptor of the group in hand is still complete and still holds its buffer. */
  lemma {:induction false} GroupHolds(cfg: Config, s: State, idx: seq<nat>, k: nat)
    requires Counters(cfg.n, s) && Memory(cfg, s.slots, s.prod, s.cleared)
    requires Group(cfg.n, s.lo, s.handed, idx) && k < |idx| && s.cleared <= s.lo + k
    ensures idx[k] == (s.lo + k) % cfg.n < |s.slots|
    ensures Content(s.slots[idx[k]]) == s.prod[s.lo + k]
  {
    assert Holds(cfg.n, s.slots, s.prod, s.lo + k);
  }

  lemma {:induction false} FetchKeeps(cfg: Config, s: State)
    requires Inv(cfg, s) && s.pc.Fetching?
    ensures Inv(cfg, Step(cfg, s, Handler))
  {
    hide Flat, Packets, Join, Conforming, Ledger, Boundaries, Indices;
    var Fetching(idx, stats) := s.pc;
    if |stats| < |idx| {
      GroupHolds(cfg, s, idx, |stats|);
      assert StatsOf(s.prod, s.lo, stats + [s.prod[s.lo + |stats|].st]);
    } else {
      CopyStart(cfg, s, idx, stats, 0, []);
    }
  }

  /** At the start of the next buffer, nothing of it is copied yet. */
  lemma {:induction false} CopyStart(cfg: Config, s: State, idx: seq<nat>, stats: seq<Status>, k: nat, out: seq<byte>)
    requires Counters(cfg.n, s) && Group(cfg.n, s.lo, s.handed, idx) && |stats| == |idx| && StatsOf(s.prod, s.lo, stats)
    requires k <= |idx| && s.cleared == s.lo + k && out == if k == 0 then [] else Flat(s.prod[s.lo..s.lo + k])
    ensures Local(cfg, Copying(idx, stats, k, out, 0), s.prod, s.lo, s.cleared, s.handed)
  {
    assert s.prod[s.lo..s.lo] == [];
    if k < |idx| {
      assert s.prod[s.lo + k].bytes[..0] == [];
    }
  }

  /** The buffer being copied is the first one not yet released, and lies intact in its slot. */
  lemma {:induction false} CopySlot(cfg: Config, s: State)
    requires Inv(cfg, s) && s.pc.Copying? && s.pc.k < |s.pc.idx|
    ensures s.cleared == s.lo + s.pc.k < s.handed <= |s.prod| && s.pc.k < |s.pc.stats|
    ensures s.pc.idx[s.pc.k] == s.cleared % cfg.n < |s.slots|
    ensures Content(s.slots[s.pc.idx[s.pc.k]]) == s.prod[s.cleared]
  {
    hide Flat, Packets, Join, Ledger, Boundaries, Notified, Excused, Conforming, StatsOf, Content, Indices;
    GroupHolds(cfg, s, s.pc.idx, s.pc.k);
    GroupLength(cfg.n, s.lo, s.handed, s.pc.idx);
  }

  lemma {:induction false} GroupLength(n: nat, lo: nat, handed: nat, idx: seq<nat>)
    requires Group(n, lo, handed, idx)
    ensures |idx| == handed - lo
  {
  }

  /** Its cached status is its status, and the bytes copied so far are its first bytes. */
  lemma {:induction false} CopyBytes(cfg: Config, s: State)
    requires Inv(cfg, s) && s.pc.Copying? && s.pc.k < |s.pc.idx|
    ensures s.cleared == s.lo + s.pc.k < |s.prod| && s.pc.k < |s.pc.stats|
    ensures var b := s.prod[s.cleared];
            && s.pc.stats[s.pc.k] == b.st && b.st.len == |b.bytes| <= cfg.bufSize && s.pc.j <= |b.bytes|
            && s.pc.out == Flat(s.prod[s.lo..s.cleared]) + b.bytes[..s.pc.j]
  {
    hide Flat, Packets, Join, Ledger, Boundaries, Notified, Excused, Memory, Indices, Closed;
    GroupLength(cfg.n, s.lo, s.handed, s.pc.idx);
    assert s.pc.stats[s.pc.k] == s.prod[s.lo + s.pc.k].st;
    assert s.prod[s.cleared].st.cmplt;
  }

  lemma {:induction false} CopyByteKeeps(cfg: Config, s: State)
    requires Inv(cfg, s) && s.pc.Copying? && s.pc.k < |s.pc.idx| && s.pc.j < s.pc.stats[s.pc.k].len
    ensures Inv(cfg, Step(cfg, s, Handler))
  {
    hide Flat, Packets, Join, Ledger, Boundaries, Indices, Memory, Conforming, Group, StatsOf, Content;
    CopySlot(cfg, s);
    CopyBytes(cfg, s);
    SlotByte(cfg, s);
    var bytes := s.prod[s.cleared].bytes;
    assert bytes[..s.pc.j + 1] == bytes[..s.pc.j] + [bytes[s.pc.j]];
  }

  lemma {:induction false} SlotByte(cfg: Config, s: State)
    requires Inv(cfg, s) && s.pc.Copying? && s.pc.k < |s.pc.idx| && s.pc.j < s.pc.stats[s.pc.k].len
    ensures s.cleared < |s.prod| && s.pc.idx[s.pc.k] < |s.slots| && s.pc.j < |s.prod[s.cleared].bytes|
    ensures var data := s.slots[s.pc.idx[s.pc.k]].data;
            s.pc.j < |data| && data[s.pc.j] == s.prod[s.cleared].bytes[s.pc.j]
  {
    hide Inv, Flat;
    CopySlot(cfg, s);
    CopyBytes(cfg, s);
    SlotSizes(cfg, s);
  }

  lemma {:induction false} SlotStatus(cfg: Config, s: State)
    requires Inv(cfg, s) && s.pc.Copying? && s.pc.k < |s.pc.idx|
    ensures s.pc.idx[s.pc.k] < |s.slots| && s.pc.k < |s.pc.stats|
    ensures s.slots[s.pc.idx[s.pc.k]].st == s.pc.stats[s.pc.k]
  {
    hide Inv, Flat;
    CopySlot(cfg, s);
    CopyBytes(cfg, s);
  }

  lemma {:induction false} SlotSizes(cfg: Config, s: State)
    requires Inv(cfg, s)
    ensures |s.slots| == cfg.n && forall i :: 0 <= i < cfg.n ==> |s.slots[i].data| == cfg.bufSize
  {
    hide Flat, Packets, Join, Ledger, Boundaries, Notified, Excused, Conforming, Local, Holds, Free;
  }

  /** The write-back frees exactly the slot just copied, and can erase no fresh completion:
      the engine's completions are all in other slots. */
  lemma {:induction false} ReleaseMemory(cfg: Config, s: State)
    requires Counters(cfg.n, s) && Memory(cfg, s.slots, s.prod, s.cleared) && s.cleared < |s.prod|
    ensures s.cleared % cfg.n < |s.slots|
    ensures var slot := s.slots[s.cleared % cfg.n];
            Memory(cfg, s.slots[s.cleared % cfg.n := slot.(st := slot.st.(cmplt := false))], s.prod, s.cleared + 1)
  {
    var p := s.cleared % cfg.n;
    var slot := s.slots[p].(st := s.slots[p].st.(cmplt := false));
    var s' := s.slots[p := slot];
    MemoryUpdate(cfg, s.slots, s.prod, s.cleared, s.cleared, slot);
    ModTurn(cfg.n, s.cleared);
    forall k | |s.prod| <= k < s.cleared + 1 + cfg.n ensures Free(cfg.n, s', k) {
    }
  }

  lemma {:induction false} ReleaseKeeps(cfg: Config, s: State)
    requires Inv(cfg, s) && s.pc.Copying? && s.pc.k < |s.pc.idx| && s.pc.j >= s.pc.stats[s.pc.k].len
    ensures Inv(cfg, Step(cfg, s, Handler))
  {
    hide Flat, Packets, Join, Ledger, Boundaries, Indices, Memory, Conforming, Group, StatsOf;
    ReleaseLocal(cfg, s);
    ReleaseMemory(cfg, s);
  }

  lemma {:induction false} ReleaseLocal(cfg: Config, s: State)
    requires Inv(cfg, s) && s.pc.Copying? && s.pc.k < |s.pc.idx| && s.pc.j >= s.pc.stats[s.pc.k].len
    ensures s.pc.idx[s.pc.k] == s.cleared % cfg.n < |s.slots|
    ensures s.slots[s.pc.idx[s.pc.k]].st == s.pc.stats[s.pc.k] && s.cleared < s.handed
    ensures Local(cfg, Copying(s.pc.idx, s.pc.stats, s.pc.k + 1, s.pc.out, 0), s.prod, s.lo, s.cleared + 1, s.handed)
  {
    hide Flat, Packets, Join, Ledger, Boundaries, Notified, Excused, Indices;
    hide Memory, Conforming, Group, StatsOf, Content;
    CopySlot(cfg, s);
    CopyBytes(cfg, s);
    SlotStatus(cfg, s);
    var Copying(idx, stats, k, out, j) := s.pc;
    var b := s.prod[s.cleared];
    assert b.bytes[..j] == b.bytes;
    FlatSnoc(s.prod[s.lo..s.cleared], b);
    assert s.prod[s.lo..s.cleared + 1] == s.prod[s.lo..s.cleared] + [b];
    CopyStart(cfg, s.(cleared := s.cleared + 1), idx, stats, k + 1, out);
  }

  lemma {:induction false} CopyDoneKeeps(cfg: Config, s: State)
    requires Inv(cfg, s) && s.pc.Copying? && s.pc.k >= |s.pc.idx|
    ensures Inv(cfg, Step(cfg, s, Handler))
  {
    hide Flat, Packets, Join, Conforming, Memory, Ledger, Boundaries, Indices;
  }

  /** Pushing the group in hand completes its delivery. */
  lemma {:induction false} PushLedger(cfg: Config, s: State)
    requires Inv(cfg, s) && s.pc.Pushing?
    ensures Ledger(cfg, s.prod[..s.handed], s.popped + s.queue + [s.pc.out])
    ensures cfg.packets ==> Closed(s.prod[..s.handed])
  {
    hide Memory, Conforming, Notified, Flat, Packets, Join, HasEof;
    var done, group := s.prod[..s.lo], s.prod[s.lo..s.handed];
    assert s.prod[..s.handed] == done + group;
    if cfg.packets {
      assert group[..|group| - 1] == s.prod[s.lo..s.handed - 1];
      PushedPacket(done, group, s.popped + s.queue);
    } else {
      PushedBytes(done, group, s.popped + s.queue);
    }
  }

  lemma {:induction false} PushedPacket(done: seq<Buf>, group: seq<Buf>, delivered: seq<seq<byte>>)
    requires Closed(done) && Packets(done) == delivered
    requires group != [] && EndsFrame(group[|group| - 1]) && !HasEof(group[..|group| - 1])
    ensures Packets(done + group) == delivered + [Flat(group)] && Closed(done + group)
  {
    hide Packets, Flat, HasEof;
    OnePacket(group);
    PacketsAppend(done, group);
  }

  lemma {:induction false} PushedBytes(done: seq<Buf>, group: seq<Buf>, delivered: seq<seq<byte>>)
    requires Flat(done) == Join(delivered)
    ensures Flat(done + group) == Join(delivered + [Flat(group)])
  {
    hide Flat;
    FlatAppend(done, group);
    JoinAppend(delivered, [Flat(group)]);
    assert Join([Flat(group)]) == Flat(group) + Join([]);
  }

  lemma {:induction false} PushKeeps(cfg: Config, s: State)
    requires Inv(cfg, s) && s.pc.Pushing?
    ensures Inv(cfg, Step(cfg, s, Handler))
  {
    hide Flat, Packets, Join, Conforming, Memory, Ledger, Closed;
    if |s.queue| < cfg.cap {
      PushLedger(cfg, s);
      var t := s.(queue := s.queue + [s.pc.out], lo := s.handed);
      assert t.popped + t.queue == s.popped + s.queue + [s.pc.out];
      StartKeeps(cfg, t.(pc := Checking(true)));
    }
  }

  /** Every step of every actor keeps the invariant. */
  lemma {:induction false} StepKeeps(cfg: Config, s: State, a: Act)
    requires Inv(cfg, s)
    ensures Inv(cfg, Step(cfg, s, a))
  {
    if Enabled(cfg, s, a) {
      match a
      case Fill(_) => FillKeeps(cfg, s, a);
      case Publish(_) => PublishKeeps(cfg, s, a);
      case RaiseIoc => RaiseKeeps(cfg, s, a);
      case RaiseErr(_) => RaiseKeeps(cfg, s, a);
      case Pop => PopKeeps(cfg, s, a);
      case Handler =>
        match s.pc
        case Scan(_, _, _, _) => ScanKeeps(cfg, s);
        case Fetching(_, _) => FetchKeeps(cfg, s);
        case Copying(idx, stats, k, _, j) =>
          if k >= |idx| { CopyDoneKeeps(cfg, s); }
          else if j < stats[k].len { CopyByteKeeps(cfg, s); }
          else { ReleaseKeeps(cfg, s); }
        case Pushing(_) => PushKeeps(cfg, s);
        case _ => AckKeeps(cfg, s);
    }
  }

  /** The invariant holds after every run. */
  lemma {:induction false} RunKeeps(cfg: Config, s: State, run: seq<Act>)
    requires cfg.n > 0 && Inv(cfg, s)
    ensures Inv(cfg, Exec(cfg, s, run))
    decreases |run|
  {
    hide Inv;
    if run != [] {
      StepKeeps(cfg, s, run[0]);
      RunKeeps(cfg, Step(cfg, s, run[0]), run[1..]);
    }
  }
}
