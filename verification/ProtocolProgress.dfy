/** Linearisation of the scans, delivery of what is complete, and when the ring can stall. */
module ProtocolProgress {
  import opened Words
  import opened Modular
  import opened Descriptor
  import opened Ring
  import opened Protocol
  import opened ProtocolInvariant
  import opened ProtocolTheorems

  /** With nothing in hand, the window ahead of the read index is what was produced since. */
  lemma {:induction false} WindowIs(cfg: Config, s: State)
    requires cfg.n > 0 && Inv(cfg, s) && s.cleared == s.lo
    ensures |s.slots| == cfg.n
    ensures Window(SlotStatuses(s.slots), s.lo % cfg.n) == Statuses(s.prod[s.lo..])
  {
    hide Flat, Packets, Join, Ledger, Boundaries, Notified, Local;
    var sts, len := SlotStatuses(s.slots), |s.prod| - s.lo;
    var r := Rotated(sts, s.lo % cfg.n);
    forall j | 0 <= j < cfg.n ensures r[j] == s.slots[(s.lo + j) % cfg.n].st {
      ModAdd(cfg.n, s.lo, j);
    }
    forall j | 0 <= j < len ensures r[j] == s.prod[s.lo + j].st && !IsFree(r[j]) {
      assert Holds(cfg.n, s.slots, s.prod, s.lo + j);
    }
    if len < cfg.n {
      assert Free(cfg.n, s.slots, |s.prod|);
      FirstUnique(r, IsFree, len);
    }
    assert r[..len] == Statuses(s.prod[s.lo..]);
  }

  /** A scan for a packet, however the engine interleaves with it, ends with exactly what an
      atomic get_next_packet would take from memory at the moment of its last status read. */
  lemma {:induction false} ScanLinearises(cfg: Config, s: State)
    requires Reachable(cfg, s) && cfg.packets && s.pc.Scan? && !Step(cfg, s, Handler).pc.Scan?
    ensures s.next < |s.slots|
    ensures var t, take := Step(cfg, s, Handler), TakePacket(SlotStatuses(s.slots), s.next);
            && take.ok && t.next == take.next && t.slots == s.slots
            && t.pc == (if take.idx == [] then Rearming else Fetching(take.idx, []))
  {
    ReachableInv(cfg, s);
    WindowIs(cfg, s);
    ScanPacketOutcome(cfg, s);
  }

  lemma {:induction false} ScanPacketOutcome(cfg: Config, s: State)
    requires cfg.n > 0 && Inv(cfg, s) && cfg.packets && s.pc.Scan? && !Step(cfg, s, Handler).pc.Scan?
    requires |s.slots| == cfg.n && Window(SlotStatuses(s.slots), s.lo % cfg.n) == Statuses(s.prod[s.lo..])
    ensures var t, take := Step(cfg, s, Handler), TakePacket(SlotStatuses(s.slots), s.next);
            && take.ok && t.next == take.next && t.slots == s.slots
            && t.pc == (if take.idx == [] then Rearming else Fetching(take.idx, []))
  {
    hide Inv, Window, NextPacket, Indices;
    ScanLocals(cfg, s);
    ModAdd(cfg.n, s.lo, 0);
    if s.pc.i == cfg.n || !s.slots[s.pc.m].st.cmplt {
      ScanEnd(cfg, s);
      NothingToTake(cfg, s);
    } else {
      ScanSees(cfg, s);
      PacketToTake(cfg, s);
      IndicesFrom(s.lo, s.pc.i + 1, cfg.n);
      ModAdd(cfg.n, s.lo, s.pc.i + 1);
      IndicesGrow(s.lo, 0, s.pc.i, cfg.n);
    }
  }

  lemma {:induction false} NothingToTake(cfg: Config, s: State)
    requires Inv(cfg, s) && cfg.packets && s.handed == s.lo && !HasEof(s.prod[s.lo..])
    ensures NextPacket(Statuses(s.prod[s.lo..])) == NoPacket(0)
  {
    hide Inv, NextPacket, WellFormed;
    UndeliveredWellFormed(cfg, s);
    SplitterTakesFirstPacket(s.prod[s.lo..]);
  }

  lemma {:induction false} PacketToTake(cfg: Config, s: State)
    requires Inv(cfg, s) && cfg.packets && s.pc.Scan? && s.lo + s.pc.i < |s.prod| && EndsFrame(s.prod[s.lo + s.pc.i])
    ensures NextPacket(Statuses(s.prod[s.lo..])) == Packet(0, s.pc.i + 1)
  {
    hide Inv, NextPacket, WellFormed, HasEof;
    CfgIsValid(cfg, s);
    ScanLocals(cfg, s);
    UndeliveredWellFormed(cfg, s);
    var rest := s.prod[s.lo..];
    assert s.prod[s.lo..s.lo + s.pc.i] == rest[..s.pc.i];
    FirstPacketEnds(rest, s.pc.i);
  }

  lemma {:induction false} UndeliveredWellFormed(cfg: Config, s: State)
    requires Inv(cfg, s) && cfg.packets
    ensures s.lo <= |s.prod| && WellFormed(s.prod[s.lo..])
  {
    hide Flat, Packets, Join, Ledger, Notified, Memory, Local, WellFormed;
    WellFormedRest(s.prod, s.lo);
  }

  lemma {:induction false} FirstPacketEnds(rest: seq<Buf>, i: nat)
    requires WellFormed(rest) && i < |rest| && EndsFrame(rest[i]) && !HasEof(rest[..i])
    ensures NextPacket(Statuses(rest)) == Packet(0, i + 1)
  {
    hide NextPacket, WellFormed;
    SplitterTakesFirstPacket(rest);
    assert forall j :: 0 <= j < i ==> rest[..i][j] == rest[j];
    FirstUnique(rest, EndsFrame, i);
  }

  lemma {:induction false} IndicesFrom(lo: nat, len: nat, n: nat)
    requires n > 0
    ensures Indices(lo % n, 0, len, n) == Indices(lo, 0, len, n)
  {
    var a, b := Indices(lo % n, 0, len, n), Indices(lo, 0, len, n);
    forall j | 0 <= j < len ensures a[j] == b[j] {
      ModAdd(n, lo, j);
    }
  }

  /** The same for a scan in stream mode, which starts at the first buffer it hands out. */
  lemma {:induction false} StreamScanLinearises(cfg: Config, s: State)
    requires Reachable(cfg, s) && !cfg.packets && s.pc.Scan? && !Step(cfg, s, Handler).pc.Scan?
    ensures cfg.n > 0 && |s.slots| == cfg.n
    ensures var t, take := Step(cfg, s, Handler), TakeAll(SlotStatuses(s.slots), s.lo % cfg.n);
            && take.ok && t.next == take.next && t.slots == s.slots
            && t.pc == (if take.idx == [] then Rearming else Fetching(take.idx, []))
  {
    ReachableInv(cfg, s);
    WindowIs(cfg, s);
    StreamScanOutcome(cfg, s);
  }

  lemma {:induction false} StreamScanOutcome(cfg: Config, s: State)
    requires cfg.n > 0 && Inv(cfg, s) && !cfg.packets && s.pc.Scan? && !Step(cfg, s, Handler).pc.Scan?
    requires |s.slots| == cfg.n && Window(SlotStatuses(s.slots), s.lo % cfg.n) == Statuses(s.prod[s.lo..])
    ensures var t, take := Step(cfg, s, Handler), TakeAll(SlotStatuses(s.slots), s.lo % cfg.n);
            && take.ok && t.next == take.next && t.slots == s.slots
            && t.pc == (if take.idx == [] then Rearming else Fetching(take.idx, []))
  {
    hide Inv, Window, Indices, FirstFrom;
    ScanLocals(cfg, s);
    StreamScanOver(cfg, s);
    ScanEnd(cfg, s);
    IndicesFrom(s.lo, s.pc.i, cfg.n);
    ModAdd(cfg.n, s.lo, s.pc.i);
  }

  /** In stream mode only a clear cmplt bit, or a full turn, ends a scan; no buffer was empty. */
  lemma {:induction false} StreamScanOver(cfg: Config, s: State)
    requires cfg.n > 0 && Inv(cfg, s) && !cfg.packets && s.pc.Scan? && !Step(cfg, s, Handler).pc.Scan?
    ensures s.pc.i == cfg.n || (s.pc.m < |s.slots| && !s.slots[s.pc.m].st.cmplt)
    ensures var w := Statuses(s.prod[s.lo..]); FirstFrom(w, IsEmpty, 0) == |w|
  {
    hide Flat, Packets, Join, Ledger, Notified, Boundaries, Indices;
    if s.pc.i < cfg.n && s.slots[s.pc.m].st.cmplt { ScanSees(cfg, s); }
    var w := Statuses(s.prod[s.lo..]);
    forall j | 0 <= j < |w| ensures !IsEmpty(w[j]) {
      assert w[j] == s.prod[s.lo + j].st;
    }
  }
}
