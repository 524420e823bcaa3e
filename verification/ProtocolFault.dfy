/** Engine faults: none is overlooked, and once the engine has halted the handler stops. */
module ProtocolFault {
  import opened Words
  import opened Ring
  import opened Protocol
  import opened ProtocolInvariant
  import opened ProtocolTheorems
  import opened ProtocolDelivery
  import opened ProtocolStall
  import opened ProtocolLiveness

  lemma {:induction false} StepNotices(cfg: Config, s: State, a: Act)
    requires cfg.n > 0 && FaultNoticed(s)
    ensures FaultNoticed(Step(cfg, s, a))
  {
    hide ScanStep, ReadStep;
    if a.Handler? {
      if s.pc.Scan? { ScanKeepsAlarm(cfg, s); }
      if s.pc.Fetching? || s.pc.Copying? { ReadKeepsAlarm(cfg, s); }
    }
  }

  lemma {:induction false} ScanKeepsAlarm(cfg: Config, s: State)
    requires cfg.n > 0 && s.pc.Scan?
    ensures ScanStep(cfg, s).err == s.err && ScanStep(cfg, s).fault == s.fault
  {
  }

  lemma {:induction false} ReadKeepsAlarm(cfg: Config, s: State)
    requires s.pc.Fetching? || s.pc.Copying?
    ensures ReadStep(cfg, s).err == s.err && ReadStep(cfg, s).fault == s.fault
  {
  }

  lemma {:induction false} RunNotices(cfg: Config, s: State, run: seq<Act>)
    requires cfg.n > 0 && FaultNoticed(s)
    ensures FaultNoticed(Exec(cfg, s, run))
    decreases |run|
  {
    hide Step, FaultNoticed;
    if run != [] {
      StepNotices(cfg, s, run[0]);
      RunNotices(cfg, Step(cfg, s, run[0]), run[1..]);
    }
  }

  /** No fault is lost: in every reachable state with an engine fault, the handler has stopped, or
      the error interrupt is pending, or the handler has observed it and is about to look. */
  lemma {:induction false} NoLostFault(cfg: Config, s: State)
    requires Reachable(cfg, s) && s.fault && !s.pc.Dead?
    ensures s.err || (s.pc.Acking? && s.pc.err) || s.pc.Checking?
  {
    hide Exec;
    var s0, run :| Init(cfg, s0) && s == Exec(cfg, s0, run);
    RunNotices(cfg, s0, run);
  }

  /** In the receive loop. */
  predicate InLoop(pc: Pc) {
    pc.Scan? || pc.Fetching? || pc.Copying? || pc.Pushing?
  }

  /** The stages a handler passes on its way to noticing a fault. */
  function ToStop(pc: Pc): nat {
    match pc
    case Dead(_) => 0
    case Checking(_) => 1
    case Acking(_, err) => if err then 2 else 7
    case Woken => 3
    case Armed => 4
    case Rearming => 5
    case _ => 6
  }

  /** In either mode the loop gets on with what there is to receive, or ends. */
  lemma {:induction false} LoopStep(cfg: Config, s: State)
    requires cfg.n > 0 && Inv(cfg, s) && InLoop(s.pc)
    ensures var t := Step(cfg, s, Handler);
            t.prod == s.prod && (t.pc.Dead? || t.pc.Rearming? || (InLoop(t.pc) && Less(cfg, t, s)))
  {
    hide Inv, Step, HandlerStep;
    HandlerProducesNothing(cfg, s);
    if s.pc.Scan? {
      ScanEffect(cfg, s);
    } else if s.pc.Fetching? {
      FetchEffect(cfg, s);
    } else if s.pc.Copying? {
      CopyEffect(cfg, s);
    } else {
      PushEffect(cfg, s);
      PushingHasGroup(cfg, s);
    }
  }

  lemma {:induction false} ScanEffect(cfg: Config, s: State)
    requires cfg.n > 0 && s.pc.Scan?
    ensures var t := Step(cfg, s, Handler);
            && s.lo <= t.lo
            && (t.pc.Dead? || t.pc.Rearming? || t.pc.Fetching? || (t.pc.Scan? && t.pc.i == s.pc.i + 1))
  {
    hide ReadStep, EngineStep, ScanStep;
    ScanKeepsLo(cfg, s);
    ScanMoves(cfg, s);
  }

  lemma {:induction false} ScanMoves(cfg: Config, s: State)
    requires cfg.n > 0 && s.pc.Scan?
    ensures var pc := ScanStep(cfg, s).pc;
            pc.Dead? || pc.Rearming? || pc.Fetching? || (pc.Scan? && pc.i == s.pc.i + 1)
  {
  }

  lemma {:induction false} PushEffect(cfg: Config, s: State)
    requires cfg.n > 0 && s.pc.Pushing?
    ensures var t := Step(cfg, s, Handler); t.pc.Dead? || (t.pc.Scan? && t.lo == s.handed)
  {
    hide ReadStep, EngineStep, ScanStep;
  }

  /** With a fault signalled, a handler step is one towards stopping. */
  lemma {:induction false} FaultStep(cfg: Config, s: State)
    requires cfg.n > 0 && Inv(cfg, s) && s.fault && FaultNoticed(s) && !s.pc.Dead?
    ensures Enabled(cfg, s, Handler)
    ensures var t := Step(cfg, s, Handler);
            t.prod == s.prod && (ToStop(t.pc) < ToStop(s.pc) || (InLoop(s.pc) && InLoop(t.pc) && Less(cfg, t, s)))
  {
    hide Inv, Less;
    if InLoop(s.pc) {
      hide Step;
      LoopStep(cfg, s);
    } else {
      hide ScanStep, ReadStep, EngineStep;
    }
  }

  /** From i on: every step is one of the protocol, a handler that can step does so in the end, and
      the engine, having halted, completes nothing more. */
  ghost predicate HaltedRun(cfg: Config, st: nat -> State, act: nat -> Act, i: nat) {
    && cfg.n > 0
    && (forall k: nat :: IsStep(cfg, st, act, k))
    && (forall k: nat :: HandlerTurn(cfg, st, act, k))
    && (forall k: nat :: k >= i ==> !act(k).Publish?)
  }

  /** A state in which a fault waits to be noticed. */
  ghost predicate Faulted(cfg: Config, s: State) {
    Inv(cfg, s) && s.fault && FaultNoticed(s)
  }

  lemma {:induction false} FaultedStep(cfg: Config, s: State, a: Act)
    requires cfg.n > 0 && Faulted(cfg, s)
    ensures Faulted(cfg, Step(cfg, s, a))
    ensures !a.Handler? && !a.Publish? ==>
              var t := Step(cfg, s, a); t.pc == s.pc && t.lo == s.lo && t.prod == s.prod
  {
    hide Inv, Step, FaultNoticed;
    StepKeeps(cfg, s, a);
    StepNotices(cfg, s, a);
    FaultStays(cfg, s, a);
    if !a.Handler? && !a.Publish? { QuietStep(cfg, s, a); }
  }

  lemma {:induction false} FaultStays(cfg: Config, s: State, a: Act)
    requires cfg.n > 0 && s.fault
    ensures Step(cfg, s, a).fault
  {
    hide ScanStep, ReadStep;
    if s.pc.Scan? { ScanKeepsAlarm(cfg, s); }
    if s.pc.Fetching? || s.pc.Copying? { ReadKeepsAlarm(cfg, s); }
  }

  lemma {:induction false} QuietStep(cfg: Config, s: State, a: Act)
    requires cfg.n > 0 && !a.Handler? && !a.Publish?
    ensures var t := Step(cfg, s, a); t.pc == s.pc && t.lo == s.lo && t.prod == s.prod
  {
  }

  /** The handler's next step finds it where it was. */
  lemma {:induction false} NextTurn(cfg: Config, st: nat -> State, act: nat -> Act, i0: nat, i: nat, j: nat)
    returns (k: nat)
    requires HaltedRun(cfg, st, act, i0) && i0 <= i <= j && Faulted(cfg, st(i)) && !st(i).pc.Dead?
    requires act(j) == Handler || !Enabled(cfg, st(j), Handler)
    ensures i <= k && act(k) == Handler && Faulted(cfg, st(k)) && st(k + 1) == Step(cfg, st(k), Handler)
    ensures st(k).pc == st(i).pc && st(k).lo == st(i).lo && st(k).prod == st(i).prod
    decreases j - i
  {
    hide Inv, Step, FaultNoticed, Less;
    assert IsStep(cfg, st, act, i);
    if act(i) == Handler {
      k := i;
    } else {
      FaultedStep(cfg, st(i), act(i));
      FaultStep(cfg, st(i));
      k := NextTurn(cfg, st, act, i0, i + 1, j);
    }
  }

  lemma {:induction false} ReachesStop(cfg: Config, st: nat -> State, act: nat -> Act, i0: nat, i: nat)
    returns (j: nat)
    requires HaltedRun(cfg, st, act, i0) && i0 <= i && Faulted(cfg, st(i))
    ensures i <= j && Faulted(cfg, st(j)) && st(j).pc.Dead?
    decreases ToStop(st(i).pc), |st(i).prod| - st(i).lo, Phase(st(i).pc), Left(cfg, st(i).pc).0, Left(cfg, st(i).pc).1
  {
    hide Inv, Step, FaultNoticed;
    if st(i).pc.Dead? {
      j := i;
    } else {
      assert HandlerTurn(cfg, st, act, i);
      var m: nat :| i <= m && (act(m) == Handler || !Enabled(cfg, st(m), Handler));
      var k := NextTurn(cfg, st, act, i0, i, m);
      FaultStep(cfg, st(k));
      FaultedStep(cfg, st(k), Handler);
      DrainBounds(cfg, st(k));
      j := ReachesStop(cfg, st, act, i0, k + 1);
    }
  }

  /** Once the engine has halted on a fault, the handler stops, in either mode: it receives what is
      there, goes back to sleep, is woken by the error and sees it, unless the queue overflows
      before. */
  lemma {:induction false} FaultStopsHandler(cfg: Config, st: nat -> State, act: nat -> Act, i: nat)
    returns (j: nat)
    requires HaltedRun(cfg, st, act, i) && Reachable(cfg, st(i)) && st(i).fault
    ensures i <= j && st(j).pc.Dead? && (st(j).pc.why == DmaError || st(j).pc.why.QueueFull?)
  {
    hide Inv, Exec;
    ReachableInv(cfg, st(i));
    if !st(i).pc.Dead? { NoLostFault(cfg, st(i)); }
    j := ReachesStop(cfg, st, act, i, i);
    StopCause(cfg, st(j));
  }

  lemma {:induction false} StopCause(cfg: Config, s: State)
    requires Inv(cfg, s) && s.pc.Dead?
    ensures s.pc.why == DmaError || s.pc.why.QueueFull?
  {
  }
}
