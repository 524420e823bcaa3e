/** What the invariant means for users of the library, over every run. */
module ProtocolTheorems {
  import opened Words
  import opened Modular
  import opened Descriptor
  import opened Ring
  import opened Protocol
  import opened ProtocolInvariant

  /** s is reached from a freshly initialised ring by some run. */
  ghost predicate Reachable(cfg: Config, s: State) {
    ValidConfig(cfg) && exists s0, run :: Init(cfg, s0) && s == Exec(cfg, s0, run)
  }

  lemma {:induction false} ReachableInv(cfg: Config, s: State)
    requires Reachable(cfg, s)
    ensures cfg.n > 0 && Inv(cfg, s)
    ensures |s.slots| == cfg.n && s.handed <= |s.prod|
  {
    var s0, run :| Init(cfg, s0) && s == Exec(cfg, s0, run);
    InitInv(cfg, s0);
    RunKeeps(cfg, s0, run);
  }

  /** Gathering consecutive intact slots yields the bytes of the run of buffers they hold. */
  lemma {:induction false} GatherRun(slots: seq<Slot>, prod: seq<Buf>, idx: seq<nat>, from: nat)
    requires from + |idx| <= |prod|
    requires forall t :: 0 <= t < |idx| ==> idx[t] < |slots| && Content(slots[idx[t]]) == prod[from + t]
    ensures Gather(slots, idx) == Flat(prod[from..from + |idx|])
    decreases |idx|
  {
    if idx != [] {
      var r := prod[from..from + |idx|];
      assert r[1..] == prod[from + 1..from + 1 + |idx[1..]|];
      GatherRun(slots, prod, idx[1..], from + 1);
    }
  }

  lemma {:induction false} GatherGroup(cfg: Config, s: State, k: nat, end: nat)
    requires Inv(cfg, s) && s.cleared <= k <= end <= |s.prod|
    ensures Gather(s.slots, Indices(k, 0, end - k, cfg.n)) == Flat(s.prod[k..end])
  {
    hide Flat, Packets, Join, Conforming, Ledger, Boundaries, Notified, Gather, Local;
    var idx := Indices(k, 0, end - k, cfg.n);
    forall t | 0 <= t < |idx| ensures idx[t] < |s.slots| && Content(s.slots[idx[t]]) == s.prod[k + t] {
      assert Holds(cfg.n, s.slots, s.prod, k + t);
    }
    GatherRun(s.slots, s.prod, idx, k);
  }

  /** The bytes in the handler's hands are those of the buffers handed out and not delivered. */
  lemma {:induction false} HandIs(cfg: Config, s: State)
    requires Inv(cfg, s)
    ensures InHand(cfg, s) == if s.lo < s.handed then [Flat(s.prod[s.lo..s.handed])] else []
  {
    hide Flat, Packets, Join, Conforming, Ledger, Boundaries, Notified, Gather, Memory;
    match s.pc
    case Scan(_, _, _, _) =>
      if !cfg.packets { GatherGroup(cfg, s, s.lo, s.handed); }
    case Fetching(_, _) => GatherGroup(cfg, s, s.lo, s.handed);
    case Copying(_, _, _, _, _) => HandCopying(cfg, s);
    case _ =>
  }

  lemma {:induction false} HandCopying(cfg: Config, s: State)
    requires Inv(cfg, s) && s.pc.Copying?
    ensures InHand(cfg, s) == [Flat(s.prod[s.lo..s.handed])] && s.lo < s.handed
  {
    hide Flat, Packets, Join, Conforming, Ledger, Boundaries, Notified, Gather, Memory, StatsOf;
    var Copying(idx, _, k, out, j) := s.pc;
    var run := s.prod[s.lo..s.handed];
    GatherGroup(cfg, s, s.lo + k, s.handed);
    assert idx[k..] == Indices(s.lo + k, 0, s.handed - s.lo - k, cfg.n);
    assert run[..k] == s.prod[s.lo..s.lo + k] && run[k..] == s.prod[s.lo + k..s.handed];
    assert k < |idx| ==> run[k] == s.prod[s.lo + k];
    FlatFromByte(run, k, j);
    var rest := Flat(run[k..])[j..];
    assert k == |idx| ==> Flat(run[..k]) + [] + rest == Flat(run[..k]) + rest;
  }

  /** A run of buffers is its first k, the first j bytes of the next, and what follows. */
  lemma {:induction false} FlatFromByte(bufs: seq<Buf>, k: nat, j: nat)
    requires k <= |bufs| && (if k < |bufs| then j <= |bufs[k].bytes| else j == 0)
    ensures j <= |Flat(bufs[k..])|
    ensures Flat(bufs) == Flat(bufs[..k]) + (if k < |bufs| then bufs[k].bytes[..j] else []) + Flat(bufs[k..])[j..]
  {
    SplitAt(bufs, k);
    if k < |bufs| {
      var b, rest := bufs[k].bytes, Flat(bufs[k + 1..]);
      assert bufs[k..][1..] == bufs[k + 1..];
      assert Flat(bufs[k..]) == b + rest;
      assert (b + rest)[j..] == b[j..] + rest && b == b[..j] + b[j..];
    }
  }

  lemma {:induction false} WaitingIs(cfg: Config, s: State)
    requires cfg.n > 0 && Inv(cfg, s)
    ensures |s.slots| == cfg.n && s.handed <= |s.prod|
    ensures Waiting(cfg, s) == s.prod[s.handed..]
  {
    hide Flat, Packets, Join, Conforming, Ledger, Boundaries, Notified, Local;
    forall j | 0 <= j < |s.prod| - s.handed ensures Waiting(cfg, s)[j] == s.prod[s.handed..][j] {
      assert Holds(cfg.n, s.slots, s.prod, s.handed + j);
    }
  }

  /** Exactly once, in order: at every moment of every run in packet mode, the packets the
      engine has completed are those read, then those queued, then the one in the handler's
      hands, then those that still lie in the ring. */
  lemma {:induction false} ExactlyOnce(cfg: Config, s: State)
    requires Reachable(cfg, s) && cfg.packets
    ensures cfg.n > 0 && |s.slots| == cfg.n && s.handed <= |s.prod|
    ensures Packets(s.prod) == s.popped + s.queue + InHand(cfg, s) + Packets(Waiting(cfg, s))
  {
    ReachableInv(cfg, s);
    HandIs(cfg, s);
    WaitingIs(cfg, s);
    InvPackets(cfg, s);
  }

  lemma {:induction false} InvPackets(cfg: Config, s: State)
    requires cfg.packets && Inv(cfg, s)
    ensures Packets(s.prod) == s.popped + s.queue
                               + (if s.lo < s.handed then [Flat(s.prod[s.lo..s.handed])] else [])
                               + Packets(s.prod[s.handed..])
  {
    hide Memory, Conforming, Notified, Local, Flat, Packets, HasEof;
    var done, rest := s.prod[..s.lo], s.prod[s.lo..];
    SplitAt(s.prod, s.lo);
    if s.lo < s.handed {
      var group := rest[..s.handed - s.lo];
      assert group == s.prod[s.lo..s.handed];
      assert group[..|group| - 1] == s.prod[s.lo..s.handed - 1];
      OnePacket(group);
      SplitAt(rest, s.handed - s.lo);
      assert rest[s.handed - s.lo..] == s.prod[s.handed..];
    }
  }

  /** In stream mode the same holds of bytes. */
  lemma {:induction false} ExactlyOnceStream(cfg: Config, s: State)
    requires Reachable(cfg, s) && !cfg.packets
    ensures cfg.n > 0 && |s.slots| == cfg.n && s.handed <= |s.prod|
    ensures Flat(s.prod) == Join(s.popped + s.queue + InHand(cfg, s)) + Flat(Waiting(cfg, s))
  {
    ReachableInv(cfg, s);
    HandIs(cfg, s);
    WaitingIs(cfg, s);
    JoinAppend(s.popped + s.queue, InHand(cfg, s));
    StreamSplit(s.prod, s.lo, s.handed);
    JoinOne(Flat(s.prod[s.lo..s.handed]));
    hide Memory, Conforming, Notified, Local, Packets, Flat, Join, Boundaries;
  }

  lemma {:induction false} JoinOne(x: seq<byte>)
    ensures Join([x]) == x && Join([]) == []
  {
    assert Join([x]) == x + Join([]);
  }

  lemma {:induction false} StreamSplit(prod: seq<Buf>, lo: nat, handed: nat)
    requires lo <= handed <= |prod|
    ensures Flat(prod) == Flat(prod[..lo]) + Flat(prod[lo..handed]) + Flat(prod[handed..])
    ensures lo == handed ==> Flat(prod[lo..handed]) == []
  {
    SplitAt(prod, handed);
    SplitAt(prod[..handed], lo);
    assert prod[..handed][..lo] == prod[..lo];
    assert prod[..handed][lo..] == prod[lo..handed];
  }

  /** No lost interrupt: whenever the handler sleeps while a complete packet lies at the head
      of the ring, the interrupt that wakes it is pending or about to be raised. */
  lemma {:induction false} NoLostInterrupt(cfg: Config, s: State)
    requires Reachable(cfg, s) && s.pc.Armed?
    ensures cfg.n > 0 && |s.slots| == cfg.n && s.handed <= |s.prod|
    ensures Packets(Waiting(cfg, s)) != [] ==> Enabled(cfg, s, Handler) || Enabled(cfg, s, RaiseIoc)
  {
    ReachableInv(cfg, s);
    WaitingIs(cfg, s);
    if !HasEof(s.prod[s.handed..]) {
      NoEofNoPackets(s.prod[s.handed..]);
    }
  }

  /** Ownership: counters stay in order within one turn of the ring, every buffer completed and
      not yet released still lies intact in its slot, and the engine may touch a slot only if no
      such buffer is in it. */
  lemma {:induction false} OwnershipSafe(cfg: Config, s: State)
    requires Reachable(cfg, s)
    ensures cfg.n > 0 && |s.slots| == cfg.n
    ensures s.cleared <= s.handed <= |s.prod| <= s.cleared + cfg.n && s.next == s.handed % cfg.n
    ensures forall k :: s.cleared <= k < |s.prod| ==> Content(s.slots[k % cfg.n]) == s.prod[k]
    ensures !s.slots[Tail(cfg, s)].st.cmplt ==> forall k :: s.cleared <= k < |s.prod| ==> k % cfg.n != Tail(cfg, s)
  {
    ReachableInv(cfg, s);
    RoomIffFree(cfg, s);
    OtherSlots(cfg.n, |s.prod|);
    forall k | s.cleared <= k < |s.prod| ensures Content(s.slots[k % cfg.n]) == s.prod[k] {
      assert Holds(cfg.n, s.slots, s.prod, k);
    }
  }

  /** A status write-back clears cmplt of the descriptor just copied and changes nothing else:
      the cached status is still what memory holds, so no fresh completion is erased. */
  lemma {:induction false} WriteBackExact(cfg: Config, s: State)
    requires Reachable(cfg, s) && s.pc.Copying? && s.pc.k < |s.pc.idx|
    requires s.pc.k < |s.pc.stats| && s.pc.j >= s.pc.stats[s.pc.k].len
    ensures cfg.n > 0 && s.cleared % cfg.n < |s.slots| && s.cleared < |s.prod|
    ensures var slot := s.slots[s.cleared % cfg.n];
            && slot.st == s.prod[s.cleared].st
            && Step(cfg, s, Handler).slots == s.slots[s.cleared % cfg.n := slot.(st := slot.st.(cmplt := false))]
  {
    ReachableInv(cfg, s);
    ReleaseLocal(cfg, s);
    assert Holds(cfg.n, s.slots, s.prod, s.cleared);
  }

  /** The handler never stops but for an engine fault or a full queue; in particular it never
      sees an empty buffer and never leaves the bounds of the ring or of a buffer. */
  lemma {:induction false} StopsOnlyWithCause(cfg: Config, s: State)
    requires Reachable(cfg, s) && s.pc.Dead?
    ensures (s.pc.why == DmaError && s.fault) || s.pc.why.QueueFull?
  {
    ReachableInv(cfg, s);
  }
}
