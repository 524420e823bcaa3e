/** Delivery of complete packets. */
module ProtocolDelivery {
  import opened Words
  import opened Descriptor
  import opened Ring
  import opened Protocol
  import opened ProtocolInvariant
  import opened ProtocolTheorems
  import opened ProtocolProgress

  predicate OnlyHandler(run: seq<Act>) {
    forall i :: 0 <= i < |run| ==> run[i] == Handler
  }

  /** Woken for a completion, or draining. */
  predicate Active(s: State) {
    match s.pc
    case Armed => s.ioc
    case Woken => s.ioc
    case Acking(ioc, _) => ioc
    case Checking(ioc) => ioc
    case Rearming => false
    case Dead(_) => false
    case _ => true
  }

  /** The queue has room for the packet in hand and all complete packets in the ring. */
  ghost predicate HasRoom(cfg: Config, s: State) {
    s.lo <= |s.prod| && |s.queue| + |Packets(s.prod[s.lo..])| <= cfg.cap
  }

  function Phase(pc: Pc): nat {
    match pc
    case Armed => 7
    case Woken => 6
    case Acking(_, _) => 5
    case Checking(_) => 4
    case Scan(_, _, _, _) => 3
    case Fetching(_, _) => 2
    case Copying(_, _, _, _, _) => 1
    case _ => 0
  }

  /** What is left of the current loop, and of the byte loop inside it. */
  function Left(cfg: Config, pc: Pc): (int, int) {
    match pc
    case Scan(i, _, _, _) => (cfg.n - i, 0)
    case Fetching(idx, stats) => (|idx| - |stats|, 0)
    case Copying(idx, stats, k, _, j) => (|idx| - k, if k < |stats| then stats[k].len - j else 0)
    case _ => (0, 0)
  }

  predicate Less(cfg: Config, t: State, s: State) {
    || t.lo > s.lo
    || (t.lo == s.lo && Phase(t.pc) < Phase(s.pc))
    || (t.lo == s.lo && Phase(t.pc) == Phase(s.pc) && Left(cfg, t.pc).0 < Left(cfg, s.pc).0)
    || (t.lo == s.lo && Phase(t.pc) == Phase(s.pc) && Left(cfg, t.pc).0 == Left(cfg, s.pc).0
        && Left(cfg, t.pc).1 < Left(cfg, s.pc).1)
  }

  /** The handler is about to see an engine fault. */
  predicate Doomed(s: State) {
    s.fault && match s.pc
               case Armed => s.err
               case Woken => s.err
               case Acking(_, err) => err
               case Checking(_) => true
               case _ => false
  }

  ghost predicate CanDrain(cfg: Config, s: State) {
    cfg.n > 0 && cfg.packets && Inv(cfg, s) && Active(s) && !Doomed(s)
  }

  lemma {:induction false} InvBasics(cfg: Config, s: State)
    requires Inv(cfg, s)
    ensures s.lo <= s.cleared <= s.handed <= |s.prod| && |s.slots| == cfg.n > 0
    ensures s.pc.Dead? ==> s.pc.why.QueueFull? || s.pc.why.DmaError?
    ensures s.pc.Armed? ==> s.lo == s.handed
  {
  }

  lemma {:induction false} ExecAppend(cfg: Config, s: State, a: seq<Act>, b: seq<Act>)
    requires cfg.n > 0
    ensures Exec(cfg, s, a + b) == Exec(cfg, Exec(cfg, s, a), b)
    decreases |a|
  {
    if a == [] {
      assert a + b == b;
    } else {
      assert (a + b)[1..] == a[1..] + b;
      ExecAppend(cfg, Step(cfg, s, a[0]), a[1..], b);
    }
  }

  /** The first packet of what is undelivered is the group in hand. */
  lemma {:induction false} PushRoom(cfg: Config, s: State)
    requires CanDrain(cfg, s) && HasRoom(cfg, s) && s.pc.Pushing?
    ensures s.lo < s.handed && |s.queue| < cfg.cap
    ensures HasRoom(cfg, s.(queue := s.queue + [s.pc.out], lo := s.handed))
  {
    hide Memory, Conforming, Notified, Flat, Packets, Join;
    var rest := s.prod[s.lo..];
    var len := s.handed - s.lo;
    assert rest[..len] == s.prod[s.lo..s.handed] && rest[len..] == s.prod[s.handed..];
    assert rest[..len][..len - 1] == s.prod[s.lo..s.handed - 1];
    OnePacket(rest[..len]);
    SplitAt(rest, len);
  }

  /** What a step of the drain leaves alone. */
  predicate SameDelivery(s: State, t: State) {
    t.lo == s.lo && t.prod == s.prod && t.popped == s.popped && t.queue == s.queue && t.fault == s.fault
  }

  /** One handler step of a drain: the drain goes on with less to do, or it ends having seen every
      buffer, with no end-of-frame flag among those left, or the queue is full. */
  lemma {:induction false} DrainStep(cfg: Config, s: State)
    requires CanDrain(cfg, s)
    ensures var t := Step(cfg, s, Handler);
            && Inv(cfg, t) && t.prod == s.prod && t.popped == s.popped && s.lo <= t.lo <= t.handed <= |t.prod|
            && (if t.pc.Dead? then s.pc.Pushing? && |s.queue| >= cfg.cap && t.pc.why.QueueFull?
                else if Active(t) then CanDrain(cfg, t) && Less(cfg, t, s)
                else t.pc == Rearming && !HasEof(t.prod[t.handed..]))
    ensures !s.pc.Pushing? ==> SameDelivery(s, Step(cfg, s, Handler))
  {
    hide Inv, Packets, HasEof, Indices, Step, Less, Active, Doomed;
    StepKeeps(cfg, s, Handler);
    InvBasics(cfg, s);
    InvBasics(cfg, Step(cfg, s, Handler));
    if s.pc.Scan? {
      DrainScan(cfg, s);
    } else if s.pc.Pushing? {
      DrainPush(cfg, s);
    } else if s.pc.Fetching? {
      DrainFetch(cfg, s);
    } else if s.pc.Copying? {
      DrainCopy(cfg, s);
    } else {
      DrainWake(cfg, s);
    }
  }

  lemma {:induction false} DrainFetch(cfg: Config, s: State)
    requires CanDrain(cfg, s) && s.pc.Fetching? && Inv(cfg, Step(cfg, s, Handler))
    ensures var t := Step(cfg, s, Handler);
            Active(t) && !Doomed(t) && !t.pc.Dead? && Less(cfg, t, s) && SameDelivery(s, t)
  {
    hide Inv, Step, ScanStep, HandlerStep;
    FetchEffect(cfg, s);
    InvBasics(cfg, Step(cfg, s, Handler));
  }

  lemma {:induction false} FetchEffect(cfg: Config, s: State)
    requires cfg.n > 0 && s.pc.Fetching?
    ensures var t := Step(cfg, s, Handler);
            && SameDelivery(s, t)
            && (t.pc.Dead? ==> t.pc.why == OutOfBounds)
            && (t.pc.Dead? || t.pc.Copying?
                || (t.pc.Fetching? && t.pc.idx == s.pc.idx && |t.pc.stats| == |s.pc.stats| + 1))
  {
  }

  lemma {:induction false} DrainCopy(cfg: Config, s: State)
    requires CanDrain(cfg, s) && s.pc.Copying? && Inv(cfg, Step(cfg, s, Handler))
    ensures var t := Step(cfg, s, Handler);
            Active(t) && !Doomed(t) && !t.pc.Dead? && Less(cfg, t, s) && SameDelivery(s, t)
  {
    hide Inv, Step, ScanStep, HandlerStep;
    CopyEffect(cfg, s);
    InvBasics(cfg, Step(cfg, s, Handler));
  }

  lemma {:induction false} CopyEffect(cfg: Config, s: State)
    requires cfg.n > 0 && s.pc.Copying?
    ensures var t := Step(cfg, s, Handler);
            && SameDelivery(s, t)
            && (t.pc.Dead? ==> t.pc.why == OutOfBounds)
            && (t.pc.Dead? || t.pc.Pushing?
                || (t.pc.Copying? && t.pc.idx == s.pc.idx && t.pc.stats == s.pc.stats && s.pc.k < |s.pc.stats|
                    && if t.pc.k == s.pc.k then t.pc.j == s.pc.j + 1 else t.pc.k == s.pc.k + 1))
  {
  }

  lemma {:induction false} DrainWake(cfg: Config, s: State)
    requires CanDrain(cfg, s) && !s.pc.Scan? && !s.pc.Fetching? && !s.pc.Copying? && !s.pc.Pushing?
    ensures var t := Step(cfg, s, Handler);
            Active(t) && !Doomed(t) && !t.pc.Dead? && Less(cfg, t, s) && SameDelivery(s, t)
  {
    hide Inv, ScanStep, ReadStep, EngineStep;
  }

  lemma {:induction false} HandlerProducesNothing(cfg: Config, s: State)
    requires cfg.n > 0
    ensures Step(cfg, s, Handler).prod == s.prod
  {
    hide ScanStep, ReadStep, EngineStep;
    if s.pc.Scan? { ScanProducesNothing(cfg, s); }
    if s.pc.Fetching? || s.pc.Copying? { ReadProducesNothing(cfg, s); }
  }

  lemma {:induction false} ScanProducesNothing(cfg: Config, s: State)
    requires cfg.n > 0 && s.pc.Scan?
    ensures ScanStep(cfg, s).prod == s.prod
  {
  }

  lemma {:induction false} ReadProducesNothing(cfg: Config, s: State)
    requires s.pc.Fetching? || s.pc.Copying?
    ensures ReadStep(cfg, s).prod == s.prod
  {
  }

  lemma {:induction false} StepIsHandler(cfg: Config, s: State)
    requires cfg.n > 0 && Active(s)
    ensures Step(cfg, s, Handler) == HandlerStep(cfg, s)
  {
    hide HandlerStep, EngineStep;
  }

  lemma {:induction false} DrainPush(cfg: Config, s: State)
    requires CanDrain(cfg, s) && s.pc.Pushing? && s.lo <= s.handed
    ensures var t := Step(cfg, s, Handler);
            && t.prod == s.prod && t.popped == s.popped && t.fault == s.fault
            && (if |s.queue| >= cfg.cap then t.pc.Dead? && t.pc.why.QueueFull? && t.lo == s.lo
                else Active(t) && !Doomed(t) && !t.pc.Dead? && Less(cfg, t, s)
                     && t.lo == s.handed && t.queue == s.queue + [s.pc.out])
  {
    hide Inv, Packets, ScanStep, ReadStep, EngineStep;
    PushingHasGroup(cfg, s);
  }

  lemma {:induction false} PushingHasGroup(cfg: Config, s: State)
    requires Inv(cfg, s) && s.pc.Pushing?
    ensures s.lo < s.handed
  {
  }

  lemma {:induction false} DrainScan(cfg: Config, s: State)
    requires CanDrain(cfg, s) && s.pc.Scan?
    ensures var t := Step(cfg, s, Handler);
            && SameDelivery(s, t) && !t.pc.Dead? && !Doomed(t)
            && s.handed <= |s.prod| && t.handed <= |t.prod|
            && (if Active(t) then Less(cfg, t, s) else t.pc == Rearming && !HasEof(t.prod[t.handed..]))
  {
    hide Inv, Step, HasRoom, Indices, ReadStep, HasEof, ScanStep;
    StepIsHandler(cfg, s);
    InvBasics(cfg, s);
    ScanLocals(cfg, s);
    if s.pc.i == cfg.n || !s.slots[s.pc.m].st.cmplt {
      ScanEnd(cfg, s);
      ScanStepEnds(cfg, s);
    } else {
      ScanSees(cfg, s);
      ScanStepSees(cfg, s);
    }
  }

  lemma {:induction false} ScanStepEnds(cfg: Config, s: State)
    requires cfg.n > 0 && cfg.packets && s.pc.Scan?
    requires s.pc.i == cfg.n || (s.pc.m < |s.slots| && !s.slots[s.pc.m].st.cmplt)
    ensures ScanStep(cfg, s) == s.(pc := Rearming)
  {
  }

  /** On a buffer that belongs to the packet, the scan goes on or has found the packet. */
  lemma {:induction false} ScanStepSees(cfg: Config, s: State)
    requires cfg.n > 0 && cfg.packets && s.pc.Scan? && s.pc.i < cfg.n && s.pc.m < |s.slots|
    requires s.slots[s.pc.m].st.cmplt && s.slots[s.pc.m].st.len > 0 && (s.pc.hasSof || s.slots[s.pc.m].st.sof)
    ensures var t := ScanStep(cfg, s);
            && SameDelivery(s, t)
            && (if s.slots[s.pc.m].st.eof then t.pc.Fetching? && t.handed == s.handed + |s.pc.acc| + 1
                else t.pc.Scan? && t.pc.i == s.pc.i + 1 && t.handed == s.handed)
  {
  }

  /** Room in the queue is enough for the whole drain. */
  lemma {:induction false} RoomKeeps(cfg: Config, s: State)
    requires CanDrain(cfg, s) && HasRoom(cfg, s)
    ensures HasRoom(cfg, Step(cfg, s, Handler)) && !Step(cfg, s, Handler).pc.Dead?
  {
    hide Inv, Packets, Step, Active, Doomed, Less;
    DrainStep(cfg, s);
    if s.pc.Pushing? {
      InvBasics(cfg, s);
      PushRoom(cfg, s);
      DrainPush(cfg, s);
    }
  }

  /** Woken by a completion, the handler drains on its own and goes back to sleep with every
      complete packet out of the ring. */
  lemma {:induction false} DrainRun(cfg: Config, s: State) returns (run: seq<Act>)
    requires CanDrain(cfg, s) && HasRoom(cfg, s)
    ensures OnlyHandler(run)
    ensures var t := Exec(cfg, s, run);
            && Inv(cfg, t) && t.pc == Rearming && t.prod == s.prod && t.popped == s.popped
            && t.handed <= |t.prod| && !HasEof(t.prod[t.handed..])
    decreases |s.prod| - s.lo, Phase(s.pc), Left(cfg, s.pc).0, Left(cfg, s.pc).1
  {
    hide Inv, Step, HasEof, Packets, HasRoom, Active, Doomed;
    DrainStep(cfg, s);
    RoomKeeps(cfg, s);
    DrainBounds(cfg, s);
    var t := Step(cfg, s, Handler);
    if Active(t) {
      var rest := DrainRun(cfg, t);
      run := [Handler] + rest;
      assert run[1..] == rest;
    } else {
      run := [Handler];
      assert run[1..] == [];
    }
  }

  lemma {:induction false} DrainBounds(cfg: Config, s: State)
    requires cfg.n > 0 && Inv(cfg, s)
    ensures s.lo <= |s.prod| && Left(cfg, s.pc).0 >= 0 && Left(cfg, s.pc).1 >= 0
  {
    hide Memory, Notified, Flat, Packets, Join, HasRoom, Boundaries, Ledger;
  }

  lemma {:induction false} ExecOne(cfg: Config, s: State, a: Act)
    requires cfg.n > 0
    ensures Exec(cfg, s, [a]) == Step(cfg, s, a)
  {
    assert [a][1..] == [];
  }

  /** Every packet that is complete when the handler sleeps is delivered: at most the interrupt
      that is due has to be raised, and the handler alone does the rest. */
  lemma {:induction false} CompletePacketsArrive(cfg: Config, s: State) returns (run: seq<Act>)
    requires Reachable(cfg, s) && cfg.packets && s.pc.Armed? && !s.fault && HasRoom(cfg, s)
    requires s.handed <= |s.prod| && HasEof(s.prod[s.handed..])
    ensures OnlyHandler(run) || (run != [] && run[0] == RaiseIoc && OnlyHandler(run[1..]))
    ensures cfg.n > 0 && |s.slots| == cfg.n
    ensures var t := Exec(cfg, s, run);
            && Inv(cfg, t) && t.pc.Armed? && t.prod == s.prod && t.popped == s.popped
            && t.queue == s.queue + Packets(Waiting(cfg, s))
            && t.handed <= |t.prod| && !HasEof(t.prod[t.handed..])
  {
    hide Packets, HasEof, Flat, Join, Memory, Conforming, Boundaries, Ledger;
    ReachableInv(cfg, s);
    WaitingIs(cfg, s);
    if s.ioc {
      run := SleepAgain(cfg, s);
      QueueGrows(cfg, s, Exec(cfg, s, run));
    } else {
      StepKeeps(cfg, s, RaiseIoc);
      var u := Step(cfg, s, RaiseIoc);
      assert u == s.(ioc := true, pend := false);
      var rest := SleepAgain(cfg, u);
      run := [RaiseIoc] + rest;
      assert run[1..] == rest;
      QueueGrows(cfg, s, Exec(cfg, s, run));
    }
  }

  lemma {:induction false} SleepAgain(cfg: Config, s: State) returns (run: seq<Act>)
    requires CanDrain(cfg, s) && HasRoom(cfg, s)
    ensures OnlyHandler(run)
    ensures var t := Exec(cfg, s, run);
            && Inv(cfg, t) && t.pc == Armed && t.prod == s.prod && t.popped == s.popped
            && t.handed <= |t.prod| && !HasEof(t.prod[t.handed..])
  {
    hide Inv, Packets, HasEof, Exec;
    var drain := DrainRun(cfg, s);
    run := drain + [Handler];
    var w := Exec(cfg, s, drain);
    ExecAppend(cfg, s, drain, [Handler]);
    ExecOne(cfg, w, Handler);
    StepKeeps(cfg, w, Handler);
  }

  lemma {:induction false} QueueGrows(cfg: Config, s: State, t: State)
    requires cfg.packets && Inv(cfg, s) && Inv(cfg, t) && s.pc.Armed? && t.pc.Armed?
    requires t.prod == s.prod && t.popped == s.popped && !HasEof(t.prod[t.handed..])
    ensures t.queue == s.queue + Packets(s.prod[s.handed..])
  {
    hide Memory, Conforming, Notified, Flat, Packets, Join, Boundaries, Ledger;
    InvPackets(cfg, s);
    InvPackets(cfg, t);
    NoEofNoPackets(t.prod[t.handed..]);
    assert Packets(s.prod) == s.popped + s.queue + Packets(s.prod[s.handed..]);
    assert Packets(t.prod) == t.popped + t.queue;
    assert Packets(s.prod)[|s.popped|..] == s.queue + Packets(s.prod[s.handed..]);
    assert Packets(t.prod)[|t.popped|..] == t.queue;
  }
}
