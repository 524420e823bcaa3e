/** When reception stalls for good: exactly when, in either mode, and by which packets. */
module ProtocolStall {
  import opened Words
  import opened Descriptor
  import opened Ring
  import opened Modular
  import opened Draining
  import opened Protocol
  import opened ProtocolInvariant
  import opened ProtocolTheorems
  import opened ProtocolProgress
  import opened ProtocolDelivery
  import opened ProtocolRefines

  ghost predicate EofWithin(prod: seq<Buf>, k: nat, n: nat) {
    k + n <= |prod| ==> HasEof(prod[k..k + n])
  }

  /** Every n consecutive buffers contain an end of frame: packets fit in the ring. */
  ghost predicate Fits(n: nat, prod: seq<Buf>) {
    forall k: nat :: EofWithin(prod, k, n)
  }

  /** If packets fit in the ring, a full ring never meets a handler that sleeps for good. */
  lemma {:induction false} FullRingWakesHandler(cfg: Config, s: State)
    requires Reachable(cfg, s) && Fits(cfg.n, s.prod) && s.pc.Armed?
    ensures cfg.n > 0 && |s.slots| == cfg.n
    ensures s.slots[Tail(cfg, s)].st.cmplt ==> Enabled(cfg, s, Handler) || Enabled(cfg, s, RaiseIoc)
  {
    ReachableInv(cfg, s);
    RoomIffFree(cfg, s);
    InvBasics(cfg, s);
    if s.slots[Tail(cfg, s)].st.cmplt {
      assert EofWithin(s.prod, s.handed, cfg.n);
      assert s.prod[s.handed..] == s.prod[s.handed..s.handed + cfg.n];
    }
  }

  /** The ring is full of one unfinished packet that the handler cannot take. */
  ghost predicate Wedged(cfg: Config, s: State) {
    && cfg.packets && s.lo == s.handed <= |s.prod| && !HasEof(s.prod[s.handed..])
    && !s.pc.Fetching? && !s.pc.Copying? && !s.pc.Pushing?
  }

  /** The handler sleeps, or is going back to sleep, and no completion will wake it. */
  predicate Deaf(cfg: Config, s: State) {
    !cfg.packets && !s.ioc && !s.pend && Resting(s.pc)
  }

  /** The ring is full, and the handler does not get to releasing anything. */
  ghost predicate Stuck(cfg: Config, s: State) {
    |s.prod| == s.cleared + cfg.n && (s.pc.Dead? || Doomed(s) || Wedged(cfg, s) || Deaf(cfg, s))
  }

  lemma {:induction false} NoEofAt(w: seq<Buf>, i: nat)
    requires !HasEof(w) && i < |w|
    ensures !w[i].st.eof
  {
    assert !EndsFrame(w[i]);
  }

  lemma {:induction false} WedgedScan(cfg: Config, s: State)
    requires cfg.n > 0 && Inv(cfg, s) && Wedged(cfg, s) && s.pc.Scan?
    ensures var t := Step(cfg, s, Handler);
            && SameDelivery(s, t) && t.handed == s.handed && t.cleared == s.cleared
            && (t.pc.Scan? || t.pc.Rearming? || t.pc.Dead?)
  {
    hide Inv, Packets, Flat, Indices, HasEof, ReadStep, EngineStep, SlotStatuses;
    ScanLocals(cfg, s);
    if s.pc.i < cfg.n && s.slots[s.pc.m].st.cmplt {
      ScanSees(cfg, s);
      NoEofAt(s.prod[s.handed..], s.pc.i);
    }
  }

  lemma {:induction false} WedgedHandler(cfg: Config, s: State)
    requires cfg.n > 0 && Inv(cfg, s) && Wedged(cfg, s)
    ensures var t := Step(cfg, s, Handler);
            t.prod == s.prod && t.cleared == s.cleared && (t.pc.Dead? || Wedged(cfg, t))
  {
    hide Inv, HasEof, Step;
    if s.pc.Scan? {
      WedgedScan(cfg, s);
    } else if s.pc.Acking? || s.pc.Checking? {
      WedgedAck(cfg, s);
    } else {
      WedgedWake(cfg, s);
    }
  }

  lemma {:induction false} WedgedAck(cfg: Config, s: State)
    requires cfg.n > 0 && Wedged(cfg, s) && (s.pc.Acking? || s.pc.Checking?)
    ensures var t := Step(cfg, s, Handler);
            t.prod == s.prod && t.cleared == s.cleared && (t.pc.Dead? || Wedged(cfg, t))
  {
    hide HasEof, ScanStep, ReadStep, EngineStep;
  }

  lemma {:induction false} WedgedWake(cfg: Config, s: State)
    requires cfg.n > 0 && Wedged(cfg, s) && !s.pc.Scan? && !s.pc.Acking? && !s.pc.Checking?
    ensures var t := Step(cfg, s, Handler);
            t.prod == s.prod && t.cleared == s.cleared && (t.pc.Dead? || Wedged(cfg, t))
  {
    hide HasEof, ScanStep, ReadStep, EngineStep;
  }

  lemma {:induction false} DoomedHandler(cfg: Config, s: State)
    requires cfg.n > 0 && Doomed(s)
    ensures var t := Step(cfg, s, Handler);
            t.prod == s.prod && t.cleared == s.cleared && (t.pc.Dead? || Doomed(t))
  {
    hide ScanStep, ReadStep, EngineStep;
  }

  lemma {:induction false} DeafHandler(cfg: Config, s: State)
    requires cfg.n > 0 && Deaf(cfg, s)
    ensures var t := Step(cfg, s, Handler);
            t.prod == s.prod && t.cleared == s.cleared && (t.pc.Dead? || Deaf(cfg, t))
  {
    hide ScanStep, ReadStep, EngineStep;
  }

  lemma {:induction false} StuckHandler(cfg: Config, s: State)
    requires cfg.n > 0 && Inv(cfg, s) && Stuck(cfg, s)
    ensures var t := Step(cfg, s, Handler); Stuck(cfg, t) && t.prod == s.prod
  {
    hide Inv, Step, Wedged, Doomed, Deaf;
    if s.pc.Dead? {
      DeadStays(cfg, s);
    } else if Doomed(s) {
      DoomedHandler(cfg, s);
    } else if Wedged(cfg, s) {
      WedgedHandler(cfg, s);
    } else {
      DeafHandler(cfg, s);
    }
  }

  lemma {:induction false} DeadStays(cfg: Config, s: State)
    requires cfg.n > 0 && s.pc.Dead?
    ensures Step(cfg, s, Handler) == s
  {
  }

  /** What the engine and the reader can still do to a full ring. */
  lemma {:induction false} StuckOthers(cfg: Config, s: State, a: Act)
    requires cfg.n > 0 && |s.slots| == cfg.n && s.slots[Tail(cfg, s)].st.cmplt && Stuck(cfg, s) && !a.Handler?
    ensures var t := Step(cfg, s, a); Stuck(cfg, t) && t.prod == s.prod
  {
    hide HasEof, HandlerStep;
  }

  lemma {:induction false} StuckStep(cfg: Config, s: State, a: Act)
    requires cfg.n > 0 && Inv(cfg, s) && Stuck(cfg, s)
    ensures var t := Step(cfg, s, a); Inv(cfg, t) && Stuck(cfg, t) && t.prod == s.prod
  {
    hide Inv, Step, Wedged, Doomed, Deaf;
    StepKeeps(cfg, s, a);
    if a.Handler? {
      StuckHandler(cfg, s);
    } else {
      FullIff(cfg, s);
      StuckOthers(cfg, s, a);
    }
  }

  lemma {:induction false} FullIff(cfg: Config, s: State)
    requires Inv(cfg, s)
    ensures |s.slots| == cfg.n > 0 && |s.prod| <= s.cleared + cfg.n
    ensures s.slots[Tail(cfg, s)].st.cmplt <==> |s.prod| == s.cleared + cfg.n
  {
    hide Flat, Packets, Join, Ledger, Boundaries, Notified, Local, Excused;
    RoomIffFree(cfg, s);
  }

  lemma {:induction false} StuckForever(cfg: Config, s: State, run: seq<Act>)
    requires cfg.n > 0 && Inv(cfg, s) && Stuck(cfg, s)
    ensures Exec(cfg, s, run).prod == s.prod
    decreases |run|
  {
    hide Inv, Stuck, Step;
    if run != [] {
      StuckStep(cfg, s, run[0]);
      StuckForever(cfg, Step(cfg, s, run[0]), run[1..]);
    }
  }

  /** A completion of one byte that is a packet of its own. */
  const FRESH := Status(1, true, true, false, false, false, true)

  /** The counters of the group in hand only grow. */
  lemma {:induction false} LoGrows(cfg: Config, s: State)
    requires cfg.n > 0 && Inv(cfg, s)
    ensures s.lo <= Step(cfg, s, Handler).lo
  {
    hide Inv, ReadStep, ScanStep, EngineStep;
    InvBasics(cfg, s);
    if s.pc.Fetching? || s.pc.Copying? { ReadKeepsLo(cfg, s); }
    if s.pc.Scan? { ScanKeepsLo(cfg, s); }
  }

  lemma {:induction false} ScanKeepsLo(cfg: Config, s: State)
    requires cfg.n > 0 && s.pc.Scan?
    ensures s.lo <= ScanStep(cfg, s).lo
  {
  }

  lemma {:induction false} ReadKeepsLo(cfg: Config, s: State)
    requires s.pc.Fetching? || s.pc.Copying?
    ensures ReadStep(cfg, s).lo == s.lo
  {
  }

  lemma {:induction false} RunGrows(cfg: Config, s: State, k: nat)
    requires cfg.n > 0 && Inv(cfg, s)
    ensures var t := HandlerRun(cfg, s, k); Inv(cfg, t) && s.lo <= t.lo
    decreases k
  {
    hide Inv, Step;
    if k > 0 {
      LoGrows(cfg, s);
      StepKeeps(cfg, s, Handler);
      RunGrows(cfg, Step(cfg, s, Handler), k - 1);
    }
  }

  lemma {:induction false} ReachedInv(cfg: Config, s: State, t: State)
    requires cfg.n > 0 && Inv(cfg, s) && Reaches(cfg, s, t)
    ensures Inv(cfg, t) && s.lo <= t.lo
  {
    hide Inv, HandlerRun;
    var k: nat :| HandlerRun(cfg, s, k) == t;
    RunGrows(cfg, s, k);
  }

  /** Every counter index of a turn is the index of some counter. */
  lemma {:induction false} SomeCounter(n: nat, c: nat, i: nat) returns (k: nat)
    requires i < n
    ensures c <= k < c + n && k % n == i
  {
    var r := c % n;
    if i >= r {
      k := c + (i - r);
      ModUnique(k, n, c / n, i);
    } else {
      k := c + (i + n - r);
      assert n * (c / n + 1) == n * (c / n) + n;
      ModUnique(k, n, c / n + 1, i);
    }
  }

  /** A reachable ring has the shape that the methods rely on. */
  lemma {:induction false} InvShaped(cfg: Config, s: State)
    requires Inv(cfg, s)
    ensures Shaped(cfg, s.slots) && s.next < cfg.n && |s.queue| <= cfg.cap
  {
    hide Flat, Packets, Join, Ledger, Boundaries, Notified, Local, WellFormed;
    forall i | 0 <= i < cfg.n && s.slots[i].st.cmplt ensures s.slots[i].st.len <= cfg.bufSize {
      var k := SomeCounter(cfg.n, s.cleared, i);
      assert k >= |s.prod| ==> Free(cfg.n, s.slots, k);
      assert Holds(cfg.n, s.slots, s.prod, k);
    }
  }

  /** With a complete packet ahead, or in stream mode with anything ahead, a look takes it. */
  lemma {:induction false} LookFinds(cfg: Config, s: State)
    requires cfg.n > 0 && Inv(cfg, s) && s.lo == s.handed <= |s.prod|
    requires if cfg.packets then HasEof(s.prod[s.handed..]) else s.prod[s.handed..] != []
    ensures |s.slots| == cfg.n && s.next < cfg.n
    ensures LookOf(cfg, s, s.next).ok && LookOf(cfg, s, s.next).idx != []
  {
    hide Inv, Window, NextPacket, HasEof, WellFormed;
    InvBasics(cfg, s);
    InvShaped(cfg, s);
    WindowIs(cfg, s);
    NextIs(cfg, s);
    var bufs := s.prod[s.lo..];
    if cfg.packets {
      UndeliveredWellFormed(cfg, s);
      SplitterTakesFirstPacket(bufs);
      EofFound(bufs);
    } else {
      NoneEmptyAhead(cfg, s);
    }
  }

  lemma {:induction false} NextIs(cfg: Config, s: State)
    requires Inv(cfg, s)
    ensures cfg.n > 0 && s.next == s.handed % cfg.n
  {
  }

  lemma {:induction false} EofFound(bufs: seq<Buf>)
    requires HasEof(bufs)
    ensures FirstFrom(bufs, EndsFrame, 0) < |bufs|
  {
  }

  lemma {:induction false} NoneEmptyAhead(cfg: Config, s: State)
    requires Inv(cfg, s) && s.lo <= |s.prod|
    ensures var w := Statuses(s.prod[s.lo..]); FirstFrom(w, IsEmpty, 0) == |w|
  {
    hide Flat, Packets, Join, Ledger, Notified, Boundaries, Local, Memory;
    var w := Statuses(s.prod[s.lo..]);
    forall j | 0 <= j < |w| ensures !IsEmpty(w[j]) {
      assert w[j] == s.prod[s.lo + j].st;
    }
  }

  /** Awake, with something to take and no fault in sight, the handler releases a descriptor of
      the full ring, whether or not the queue has room. */
  lemma {:induction false} HandlerMakesRoom(cfg: Config, s: State) returns (t: State)
    requires cfg.n > 0 && Inv(cfg, s) && s.pc.Armed? && s.ioc && !Doomed(s)
    requires s.handed <= |s.prod|
    requires if cfg.packets then HasEof(s.prod[s.handed..]) else s.prod[s.handed..] != []
    ensures Reaches(cfg, s, t) && Inv(cfg, t) && t.prod == s.prod && t.cleared > s.cleared
  {
    hide Inv, Reaches, HandlerRun, HasEof, LookOf, Flat, Contents, ReleaseSlots;
    var u := StartScan(s.(ioc := false, err := false));
    WakesToScan(cfg, s);
    ReachedInv(cfg, s, u);
    InvBasics(cfg, s);
    InvShaped(cfg, u);
    LookFinds(cfg, u);
    t := RoundRun(cfg, u);
    ReachesTrans(cfg, s, u, t);
    ReachedInv(cfg, s, t);
    PushedCounters(cfg, s, t);
  }

  lemma {:induction false} PushedCounters(cfg: Config, s: State, t: State)
    requires Inv(cfg, s) && Inv(cfg, t) && s.pc.Armed? && t.pc.Pushing? && s.lo <= t.lo
    ensures t.cleared > s.cleared
  {
  }

  /** Once there is room, the engine can complete another buffer. */
  lemma {:induction false} EngineMovesOn(cfg: Config, t: State)
    requires cfg.n > 0 && Inv(cfg, t) && 0 < |t.prod| < t.cleared + cfg.n
    ensures |Step(cfg, t, Publish(FRESH)).prod| == |t.prod| + 1
  {
    hide Flat, Packets, Join, Boundaries, Ledger, Local, Notified;
    RoomIffFree(cfg, t);
    assert 0 < t.prod[0].st.len <= cfg.bufSize;
  }

  /** There is a continuation in which the engine completes another buffer. */
  lemma {:induction false} MovesOn(cfg: Config, s: State) returns (run: seq<Act>)
    requires cfg.n > 0 && Inv(cfg, s) && s.pc.Armed? && !Doomed(s) && |s.prod| == s.cleared + cfg.n
    requires s.handed <= |s.prod|
    requires if cfg.packets then HasEof(s.prod[s.handed..]) else s.ioc || s.pend
    ensures Exec(cfg, s, run).prod != s.prod
  {
    hide Inv, Exec, Reaches, HasEof, Step;
    Awake(cfg, s);
    var first := if s.ioc then [] else [RaiseIoc];
    var u := if s.ioc then s else s.(ioc := true, pend := false);
    FirstStep(cfg, s);
    RunKeeps(cfg, s, first);
    FullAhead(cfg, u);
    var t := HandlerMakesRoom(cfg, u);
    var rest := ReachesExec(cfg, u, t);
    EngineMovesOn(cfg, t);
    ExecAppend(cfg, s, first, rest);
    ExecAppend(cfg, s, first + rest, [Publish(FRESH)]);
    ExecOne(cfg, t, Publish(FRESH));
    run := first + rest + [Publish(FRESH)];
  }

  lemma {:induction false} Awake(cfg: Config, s: State)
    requires Inv(cfg, s) && s.pc.Armed? && s.handed <= |s.prod|
    requires if cfg.packets then HasEof(s.prod[s.handed..]) else s.ioc || s.pend
    ensures s.ioc || s.pend
  {
  }

  lemma {:induction false} FirstStep(cfg: Config, s: State)
    requires cfg.n > 0 && s.pc.Armed? && (s.ioc || s.pend)
    ensures Exec(cfg, s, if s.ioc then [] else [RaiseIoc]) == if s.ioc then s else s.(ioc := true, pend := false)
  {
    if !s.ioc { ExecOne(cfg, s, RaiseIoc); }
  }

  lemma {:induction false} FullAhead(cfg: Config, s: State)
    requires Inv(cfg, s) && s.pc.Armed? && |s.prod| == s.cleared + cfg.n
    ensures s.handed <= |s.prod| && s.prod[s.handed..] != [] && 0 < |s.prod|
  {
    hide Flat, Packets, Join, Boundaries, Ledger, Notified, Memory, Conforming;
  }

  /** In packet mode, a full ring with the handler asleep makes no progress in any continuation
      exactly if the handler is about to see a fault or the ring holds no end of frame. Room in
      the queue does not matter. */
  lemma {:induction false} StallsIffPacketTooLong(cfg: Config, s: State)
    requires Reachable(cfg, s) && cfg.packets && s.pc.Armed?
    requires cfg.n > 0 && |s.slots| == cfg.n && s.slots[Tail(cfg, s)].st.cmplt
    ensures s.handed <= |s.prod|
    ensures (forall run :: Exec(cfg, s, run).prod == s.prod) <==>
            (s.fault && s.err) || !HasEof(s.prod[s.handed..])
  {
    hide Inv, Exec, Reachable, HasEof;
    ReachableInv(cfg, s);
    FullIff(cfg, s);
    InvBasics(cfg, s);
    if (s.fault && s.err) || !HasEof(s.prod[s.handed..]) {
      forall run ensures Exec(cfg, s, run).prod == s.prod { StuckForever(cfg, s, run); }
    } else {
      var run := MovesOn(cfg, s);
    }
  }

  /** In stream mode, exactly if it is about to see a fault or no completion interrupt is pending
      or due: buffers without end of frame wake nobody. */
  lemma {:induction false} StreamStallsIffUnnoticed(cfg: Config, s: State)
    requires Reachable(cfg, s) && !cfg.packets && s.pc.Armed?
    requires cfg.n > 0 && |s.slots| == cfg.n && s.slots[Tail(cfg, s)].st.cmplt
    ensures (forall run :: Exec(cfg, s, run).prod == s.prod) <==>
            (s.fault && s.err) || (!s.ioc && !s.pend)
  {
    hide Inv, Exec, Reachable, HasEof;
    ReachableInv(cfg, s);
    FullIff(cfg, s);
    InvBasics(cfg, s);
    if (s.fault && s.err) || (!s.ioc && !s.pend) {
      forall run ensures Exec(cfg, s, run).prod == s.prod { StuckForever(cfg, s, run); }
    } else {
      var run := MovesOn(cfg, s);
    }
  }

  /** If the engine, meeting a completed descriptor, halts with an error instead of waiting, that
      is the end: the handler stops with it, and no buffer is ever completed again. */
  lemma {:induction false} HaltIsFinal(cfg: Config, s: State)
    requires Reachable(cfg, s) && s.pc.Armed?
    requires cfg.n > 0 && |s.slots| == cfg.n && s.slots[Tail(cfg, s)].st.cmplt
    ensures var t := Step(cfg, s, RaiseErr(true));
            && Reaches(cfg, t, t.(ioc := false, err := false, pc := Dead(DmaError)))
            && forall run :: Exec(cfg, t, run).prod == s.prod
  {
    hide Inv, Exec, Reachable, Reaches;
    ReachableInv(cfg, s);
    FullIff(cfg, s);
    StepKeeps(cfg, s, RaiseErr(true));
    var t := Step(cfg, s, RaiseErr(true));
    WakesToStop(cfg, t);
    forall run ensures Exec(cfg, t, run).prod == s.prod { StuckForever(cfg, t, run); }
  }

  /** No packet that started at k has gone on for more than n buffers. */
  ghost predicate BoundedAt(n: nat, prod: seq<Buf>, k: nat) {
    k + n < |prod| && Closed(prod[..k]) ==> HasEof(prod[k..k + n])
  }

  ghost predicate AllBounded(n: nat, prod: seq<Buf>) {
    forall k: nat :: BoundedAt(n, prod, k)
  }

  /** The engine completes the n+1st buffer of a packet in no run: a packet that needs more than n
      buffers never gets further than filling the ring. */
  lemma {:induction false} LongPacketsNeverPass(cfg: Config, s: State)
    requires Reachable(cfg, s) && cfg.packets
    ensures AllBounded(cfg.n, s.prod)
  {
    hide Inv, AllBounded;
    var s0, run :| Init(cfg, s0) && s == Exec(cfg, s0, run);
    InitInv(cfg, s0);
    NothingBounded(cfg.n);
    RunBounded(cfg, s0, run);
  }

  lemma {:induction false} NothingBounded(n: nat)
    ensures AllBounded(n, [])
  {
  }

  lemma {:induction false} RunBounded(cfg: Config, s: State, run: seq<Act>)
    requires cfg.n > 0 && cfg.packets && Inv(cfg, s) && AllBounded(cfg.n, s.prod)
    ensures AllBounded(cfg.n, Exec(cfg, s, run).prod)
    decreases |run|
  {
    hide Inv, AllBounded, Step;
    if run != [] {
      StepBounded(cfg, s, run[0]);
      StepKeeps(cfg, s, run[0]);
      RunBounded(cfg, Step(cfg, s, run[0]), run[1..]);
    }
  }

  lemma {:induction false} StepBounded(cfg: Config, s: State, a: Act)
    requires cfg.n > 0 && cfg.packets && Inv(cfg, s) && AllBounded(cfg.n, s.prod)
    ensures AllBounded(cfg.n, Step(cfg, s, a).prod)
  {
    hide Inv, HasEof, Closed, HandlerStep;
    var p, t := |s.prod|, Step(cfg, s, a);
    if a.Handler? { HandlerProducesNothing(cfg, s); }
    if t.prod != s.prod {
      Published(cfg, s, a);
      forall k: nat ensures BoundedAt(cfg.n, t.prod, k) {
        if k + cfg.n < p {
          assert BoundedAt(cfg.n, s.prod, k);
          assert t.prod[..k] == s.prod[..k] && t.prod[k..k + cfg.n] == s.prod[k..k + cfg.n];
        } else if k + cfg.n == p {
          assert t.prod[k..k + cfg.n] == s.prod[k..];
          RingHoldsEof(cfg, s, k);
        }
      }
    }
  }

  lemma {:induction false} Published(cfg: Config, s: State, a: Act)
    requires cfg.n > 0 && Inv(cfg, s) && Step(cfg, s, a).prod != s.prod && !a.Handler?
    ensures |s.prod| < s.cleared + cfg.n
    ensures |Step(cfg, s, a).prod| == |s.prod| + 1 && Step(cfg, s, a).prod[..|s.prod|] == s.prod
  {
    hide Inv, HandlerStep;
    FullIff(cfg, s);
  }

  /** A packet that the handler has begun to release is complete. */
  lemma {:induction false} RingHoldsEof(cfg: Config, s: State, k: nat)
    requires cfg.packets && Inv(cfg, s) && k < s.cleared && k <= |s.prod|
    ensures HasEof(s.prod[k..])
  {
    hide Flat, Packets, Join, Ledger, Notified, Memory, Conforming;
    InvBasics(cfg, s);
    if s.lo <= k {
      assert EndsFrame(s.prod[k..][s.handed - 1 - k]);
    } else {
      assert s.prod[..s.lo][s.lo - 1] == s.prod[s.lo - 1];
      assert EndsFrame(s.prod[k..][s.lo - 1 - k]);
    }
  }

  /** A one-byte buffer in the middle of a packet, or at its start. */
  function Piece(sof: bool): Status {
    Status(1, false, sof, false, false, false, true)
  }

  /** The engine completes k one-byte buffers of one packet before the handler starts. */
  lemma {:induction false} FillRing(cfg: Config, s0: State, k: nat) returns (run: seq<Act>)
    requires ValidConfig(cfg) && cfg.bufSize >= 1 && Init(cfg, s0) && k <= cfg.n
    ensures var s := Exec(cfg, s0, run);
            && Inv(cfg, s) && s.pc == Rearming && !s.fault && |s.prod| == k && s.handed == s.cleared == 0
            && !HasEof(s.prod)
    decreases k
  {
    hide Inv, Exec, Step, Counters, Memory, Conforming;
    if k == 0 {
      run := [];
      ExecNone(cfg, s0);
      InitInv(cfg, s0);
    } else {
      var before := FillRing(cfg, s0, k - 1);
      var s, a := Exec(cfg, s0, before), Publish(Piece(k == 1));
      run := before + [a];
      ExecAppend(cfg, s0, before, [a]);
      ExecOne(cfg, s, a);
      StepKeeps(cfg, s, a);
      OnePiece(cfg, s, k == 1);
    }
  }

  lemma {:induction false} ExecNone(cfg: Config, s: State)
    requires cfg.n > 0
    ensures Exec(cfg, s, []) == s
  {
  }

  lemma {:induction false} OnePiece(cfg: Config, s: State, sof: bool)
    requires cfg.n > 0 && cfg.bufSize >= 1 && Inv(cfg, s) && |s.prod| < s.cleared + cfg.n
    requires !HasEof(s.prod) && (sof <==> s.prod == [])
    ensures var t := Step(cfg, s, Publish(Piece(sof)));
            && |t.prod| == |s.prod| + 1 && t.handed == s.handed && t.cleared == s.cleared && t.pc == s.pc
            && t.fault == s.fault && !HasEof(t.prod)
  {
    hide Inv, Step, HasEof, Closed;
    TailIsFree(cfg, s);
    PieceFits(cfg, s, sof);
    PieceStep(cfg, s, sof);
    var t := Step(cfg, s, Publish(Piece(sof)));
    NotifiedGrows(s.prod, t.prod[|s.prod|]);
  }

  lemma {:induction false} TailIsFree(cfg: Config, s: State)
    requires cfg.n > 0 && Inv(cfg, s) && |s.prod| < s.cleared + cfg.n
    ensures |s.slots| == cfg.n && !s.slots[Tail(cfg, s)].st.cmplt
  {
    hide Flat, Packets, Join, Ledger, Boundaries, Notified, Local, Excused;
    RoomIffFree(cfg, s);
  }

  lemma {:induction false} PieceFits(cfg: Config, s: State, sof: bool)
    requires cfg.n > 0 && cfg.bufSize >= 1 && |s.slots| == cfg.n && !s.slots[Tail(cfg, s)].st.cmplt
    requires !HasEof(s.prod) && (sof <==> s.prod == [])
    ensures Enabled(cfg, s, Publish(Piece(sof)))
  {
    if s.prod != [] { assert !EndsFrame(s.prod[|s.prod| - 1]); }
  }

  lemma {:induction false} PieceStep(cfg: Config, s: State, sof: bool)
    requires cfg.n > 0 && Enabled(cfg, s, Publish(Piece(sof)))
    ensures var t := Step(cfg, s, Publish(Piece(sof)));
            && |t.prod| == |s.prod| + 1 && t.prod == s.prod + [t.prod[|s.prod|]] && !EndsFrame(t.prod[|s.prod|])
            && t.handed == s.handed && t.cleared == s.cleared && t.pc == s.pc && t.fault == s.fault
  {
  }

  /** For every ring there is a run after which the handler sleeps, the ring holds one unfinished
      packet, and no continuation completes another buffer. */
  lemma {:induction false} OverlongPacketStalls(cfg: Config, s0: State) returns (run: seq<Act>)
    requires ValidConfig(cfg) && cfg.bufSize >= 1 && cfg.packets && Init(cfg, s0)
    ensures var s := Exec(cfg, s0, run);
            && s.pc.Armed? && |s.prod| == cfg.n
            && forall more :: Exec(cfg, s, more).prod == s.prod
  {
    hide Inv, Exec, Step, HasEof;
    var fill := FillRing(cfg, s0, cfg.n);
    var s := Exec(cfg, s0, fill);
    run := fill + [Handler];
    ExecAppend(cfg, s0, fill, [Handler]);
    ExecOne(cfg, s, Handler);
    StepKeeps(cfg, s, Handler);
    var t := Exec(cfg, s0, run);
    Rearmed(cfg, s);
    InvBasics(cfg, t);
    assert t.prod[t.handed..] == t.prod;
    forall more ensures Exec(cfg, t, more).prod == t.prod { StuckForever(cfg, t, more); }
  }

  lemma {:induction false} Rearmed(cfg: Config, s: State)
    requires cfg.n > 0 && s.pc == Rearming
    ensures Step(cfg, s, Handler) == s.(pc := Armed)
  {
  }
}
