/** Delivery while the engine keeps running: under fair scheduling every complete packet reaches
    the reader or the queue, unless the queue overflows. */
module ProtocolLiveness {
  import opened Words
  import opened Descriptor
  import opened Ring
  import opened Protocol
  import opened ProtocolInvariant
  import opened ProtocolTheorems
  import opened ProtocolDelivery

  ghost predicate IsStep(cfg: Config, st: nat -> State, act: nat -> Act, i: nat) {
    cfg.n > 0 && st(i + 1) == Step(cfg, st(i), act(i))
  }

  /** From i on, there is a moment when the handler steps or cannot. */
  ghost predicate HandlerTurn(cfg: Config, st: nat -> State, act: nat -> Act, i: nat) {
    exists j: nat :: i <= j && (act(j) == Handler || !Enabled(cfg, st(j), Handler))
  }

  /** From i on, there is a moment when the interrupt is raised or is not due. */
  ghost predicate EngineTurn(st: nat -> State, act: nat -> Act, i: nat) {
    exists j: nat :: i <= j && (act(j) == RaiseIoc || !st(j).pend)
  }

  /** An infinite run in packet mode without engine faults, in which a handler that can step does
      so in the end, and an interrupt that is due is raised in the end. The engine may complete
      any number of buffers at any time, and the reader may read or not. */
  ghost predicate FairRun(cfg: Config, st: nat -> State, act: nat -> Act) {
    && cfg.n > 0 && cfg.packets
    && (forall i: nat :: IsStep(cfg, st, act, i))
    && (forall i: nat :: HandlerTurn(cfg, st, act, i))
    && (forall i: nat :: EngineTurn(st, act, i))
    && (forall i: nat :: !st(i).fault)
  }

  /** Such runs exist, for every ring. */
  lemma {:induction false} FairRunExists(cfg: Config) returns (st: nat -> State, act: nat -> Act)
    requires ValidConfig(cfg) && cfg.packets
    ensures FairRun(cfg, st, act) && Init(cfg, st(0))
  {
    var slot := Slot(Status(0, false, false, false, false, false, false), seq(cfg.bufSize, _ => 0));
    var s := State(seq(cfg.n, _ => slot), 0, false, false, false, Rearming, [], [], false, 0, 0, 0, []);
    st := (i: nat) => if i == 0 then s else s.(pc := Armed);
    act := (i: nat) => Handler;
    forall i: nat ensures IsStep(cfg, st, act, i) && HandlerTurn(cfg, st, act, i) && EngineTurn(st, act, i) {
      assert act(i) == Handler && !st(i).pend;
    }
  }

  /** The first c buffers end with a complete packet. */
  ghost predicate Target(s: State, c: nat) {
    c <= |s.prod| && (c == 0 || EndsFrame(s.prod[c - 1]))
  }

  predicate Done(s: State, c: nat) {
    s.pc.Dead? || s.lo >= c
  }

  /** The handler can step now. */
  predicate Awake(s: State) {
    !s.pc.Dead? && (s.pc.Armed? ==> s.ioc)
  }

  /** A step of another thread leaves the handler where it is. */
  lemma {:induction false} OtherStep(cfg: Config, s: State, a: Act)
    requires cfg.n > 0 && !a.Handler?
    ensures var t := Step(cfg, s, a);
            && t.pc == s.pc && t.lo == s.lo && t.handed == s.handed && s.prod <= t.prod
            && (s.ioc ==> t.ioc) && (s.pend ==> t.pend || a.RaiseIoc?) && (a.RaiseIoc? && s.pend ==> t.ioc)
            && (t.ioc ==> s.ioc || a.RaiseIoc?)
  {
  }

  /** So the handler's next step finds it where it was. */
  lemma {:induction false} HandlerComes(cfg: Config, st: nat -> State, act: nat -> Act, i: nat, j: nat, c: nat)
    returns (k: nat)
    requires FairRun(cfg, st, act) && Inv(cfg, st(i)) && Awake(st(i)) && Target(st(i), c)
    requires i <= j && (act(j) == Handler || !Enabled(cfg, st(j), Handler))
    ensures i <= k && act(k) == Handler && Inv(cfg, st(k)) && Target(st(k), c)
    ensures st(k).pc == st(i).pc && st(k).lo == st(i).lo && (st(i).ioc ==> st(k).ioc)
    decreases j - i
  {
    hide Inv, Step, FairRun;
    if act(i) == Handler {
      k := i;
    } else {
      Follows(cfg, st, act, i);
      OtherStep(cfg, st(i), act(i));
      StepKeeps(cfg, st(i), act(i));
      AwakeEnabled(cfg, st(i));
      k := HandlerComes(cfg, st, act, i + 1, j, c);
    }
  }

  lemma {:induction false} Follows(cfg: Config, st: nat -> State, act: nat -> Act, i: nat)
    requires FairRun(cfg, st, act)
    ensures cfg.n > 0 && cfg.packets && st(i + 1) == Step(cfg, st(i), act(i)) && !st(i).fault
  {
    hide Step;
    assert IsStep(cfg, st, act, i);
  }

  lemma {:induction false} AwakeEnabled(cfg: Config, s: State)
    requires Awake(s)
    ensures Enabled(cfg, s, Handler)
  {
  }

  lemma {:induction false} NextHandler(cfg: Config, st: nat -> State, act: nat -> Act, i: nat, c: nat) returns (k: nat)
    requires FairRun(cfg, st, act) && Inv(cfg, st(i)) && Awake(st(i)) && Target(st(i), c)
    ensures i <= k && act(k) == Handler && Inv(cfg, st(k)) && Target(st(k), c)
    ensures st(k).pc == st(i).pc && st(k).lo == st(i).lo && (st(i).ioc ==> st(k).ioc)
    ensures st(k + 1) == Step(cfg, st(k), Handler) && !st(k).fault && cfg.n > 0 && cfg.packets
  {
    hide Inv, Step;
    assert HandlerTurn(cfg, st, act, i);
    var j: nat :| i <= j && (act(j) == Handler || !Enabled(cfg, st(j), Handler));
    k := HandlerComes(cfg, st, act, i, j, c);
    Follows(cfg, st, act, k);
  }

  /** Asleep or going back to sleep without a drain ahead. */
  predicate Idle(s: State) {
    !Active(s) && !s.pc.Dead?
  }

  lemma {:induction false} IdleNeedsWaking(cfg: Config, s: State, c: nat)
    requires Inv(cfg, s) && Idle(s) && !Done(s, c) && Target(s, c)
    ensures Resting(s.pc) && (s.ioc || s.pend) && (s.pc.Armed? ==> !s.ioc) && (s.pc.Woken? ==> !s.ioc)
  {
    hide Flat, Packets, Join, Ledger, Boundaries, Memory, Conforming;
    assert EndsFrame(s.prod[s.handed..][c - 1 - s.handed]);
  }

  /** While no interrupt is raised, an idle handler stays idle; it may wake for errors. */
  lemma {:induction false} IdleStep(cfg: Config, s: State, a: Act)
    requires cfg.n > 0 && Idle(s) && Resting(s.pc) && !s.ioc && s.pend && !s.fault && !Step(cfg, s, a).fault
    ensures var t := Step(cfg, s, a);
            && t.lo == s.lo && s.prod <= t.prod && Resting(t.pc) && !t.pc.Dead?
            && (if a.RaiseIoc? then t.ioc else Idle(t) && !t.ioc && t.pend)
  {
    hide ScanStep, ReadStep;
  }

  lemma {:induction false} InterruptComes(cfg: Config, st: nat -> State, act: nat -> Act, i: nat, j: nat, c: nat)
    returns (k: nat)
    requires FairRun(cfg, st, act) && Inv(cfg, st(i)) && Target(st(i), c)
    requires Idle(st(i)) && Resting(st(i).pc) && !st(i).ioc && st(i).pend
    requires i <= j && (act(j) == RaiseIoc || !st(j).pend)
    ensures i <= k && Inv(cfg, st(k)) && Target(st(k), c) && st(k).lo == st(i).lo
    ensures Resting(st(k).pc) && !st(k).pc.Dead? && st(k).ioc
    decreases j - i
  {
    hide Inv, Step, FairRun;
    Follows(cfg, st, act, i);
    Follows(cfg, st, act, i + 1);
    IdleStep(cfg, st(i), act(i));
    StepKeeps(cfg, st(i), act(i));
    if act(i) == RaiseIoc {
      k := i + 1;
    } else {
      k := InterruptComes(cfg, st, act, i + 1, j, c);
    }
  }

  /** How far from draining the handler is. */
  function Stage(s: State): nat {
    if Active(s) then 0 else if s.ioc then 1 else 2
  }

  /** With the interrupt pending, an idle handler is on its way to waking up. */
  lemma {:induction false} GoesToWake(cfg: Config, s: State)
    requires cfg.n > 0 && Idle(s) && Resting(s.pc) && s.ioc && !s.fault && !s.pc.Armed? && !s.pc.Woken?
    ensures var t := Step(cfg, s, Handler);
            && t.lo == s.lo && t.prod == s.prod && !t.pc.Dead? && t.ioc && Stage(t) <= 1
            && (Stage(t) == 1 ==> Phase(t.pc) < Phase(s.pc))
  {
    hide ScanStep, ReadStep, EngineStep;
  }

  lemma {:induction false} DrainedEnough(cfg: Config, s: State, c: nat)
    requires Inv(cfg, s) && s.pc == Rearming && s.handed <= |s.prod| && !HasEof(s.prod[s.handed..]) && Target(s, c)
    ensures s.lo >= c
  {
    hide Flat, Packets, Join, Ledger, Boundaries, Memory, Conforming, HasEof;
    if s.handed < c { EofAhead(s.prod, s.handed, c); }
  }

  lemma {:induction false} EofAhead(prod: seq<Buf>, from: nat, c: nat)
    requires from < c <= |prod| && EndsFrame(prod[c - 1])
    ensures HasEof(prod[from..])
  {
    assert EndsFrame(prod[from..][c - 1 - from]);
  }

  /** A handler that can step and is draining is found draining when it does. */
  lemma {:induction false} ActiveStays(s: State, t: State)
    requires t.pc == s.pc && (s.ioc ==> t.ioc)
    ensures Active(s) ==> Active(t) && Awake(s)
    ensures Idle(s) && s.ioc && !s.pc.Armed? && !s.pc.Woken? ==> Idle(t) && Awake(s)
  {
  }

  /** From any moment on, there is one at which the first c buffers are delivered or the queue has
      overflowed. */
  lemma {:induction false} Deliver(cfg: Config, st: nat -> State, act: nat -> Act, i: nat, c: nat) returns (j: nat)
    requires FairRun(cfg, st, act) && Inv(cfg, st(i)) && Target(st(i), c)
    ensures i <= j && Inv(cfg, st(j)) && Done(st(j), c)
    decreases c - st(i).lo, Stage(st(i)), Phase(st(i).pc), Left(cfg, st(i).pc).0, Left(cfg, st(i).pc).1
  {
    hide Inv, Step, FairRun, HasEof, Active, Resting, Target, Doomed, Awake, EngineTurn;
    j := i;
    if Active(st(i)) && !Done(st(i), c) {
      ActiveStays(st(i), st(i));
      var k := NextHandler(cfg, st, act, i, c);
      ActiveStays(st(i), st(k));
      NoFaultNoDoom(st(k));
      DrainStep(cfg, st(k));
      DrainBounds(cfg, st(k));
      TargetStays(st(k), st(k + 1), c);
      j := k + 1;
      if !st(j).pc.Dead? && Active(st(j)) {
        j := Deliver(cfg, st, act, j, c);
      } else if !st(j).pc.Dead? {
        DrainedEnough(cfg, st(j), c);
      }
    } else if !Done(st(i), c) {
      IdleNeedsWaking(cfg, st(i), c);
      if st(i).ioc {
        ActiveStays(st(i), st(i));
        var k := NextHandler(cfg, st, act, i, c);
        ActiveStays(st(i), st(k));
        GoesToWake(cfg, st(k));
        StepKeeps(cfg, st(k), Handler);
        TargetStays(st(k), st(k + 1), c);
        j := Deliver(cfg, st, act, k + 1, c);
      } else {
        var m := EngineComes(cfg, st, act, i);
        var k := InterruptComes(cfg, st, act, i, m, c);
        j := Deliver(cfg, st, act, k, c);
      }
    }
  }

  lemma {:induction false} NoFaultNoDoom(s: State)
    requires !s.fault
    ensures !Doomed(s)
  {
  }

  lemma {:induction false} TargetStays(s: State, t: State, c: nat)
    requires Target(s, c) && s.prod == t.prod
    ensures Target(t, c)
  {
  }

  lemma {:induction false} EngineComes(cfg: Config, st: nat -> State, act: nat -> Act, i: nat) returns (j: nat)
    requires FairRun(cfg, st, act)
    ensures i <= j && (act(j) == RaiseIoc || !st(j).pend)
  {
    assert EngineTurn(st, act, i);
    j :| i <= j && (act(j) == RaiseIoc || !st(j).pend);
  }

  /** What was produced stays produced. */
  lemma {:induction false} ProdGrows(cfg: Config, st: nat -> State, act: nat -> Act, i: nat, j: nat)
    requires FairRun(cfg, st, act) && i <= j
    ensures st(i).prod <= st(j).prod
    decreases j - i
  {
    hide FairRun, Step;
    if i < j {
      Follows(cfg, st, act, i);
      StepProdGrows(cfg, st(i), act(i));
      ProdGrows(cfg, st, act, i + 1, j);
    }
  }

  lemma {:induction false} StepProdGrows(cfg: Config, s: State, a: Act)
    requires cfg.n > 0
    ensures s.prod <= Step(cfg, s, a).prod
  {
    hide Step;
    if a.Handler? { HandlerProducesNothing(cfg, s); } else { OtherStep(cfg, s, a); }
  }

  /** What is delivered of the first c buffers are all their packets. */
  lemma {:induction false} DeliveredPackets(cfg: Config, before: seq<Buf>, s: State)
    requires cfg.packets && Inv(cfg, s) && before <= s.prod && s.lo >= Complete(before)
    ensures Packets(before) <= s.popped + s.queue
  {
    hide Memory, Conforming, Notified, Local, Packets, Flat, Complete, HasEof;
    var c, done := Complete(before), s.prod[..s.lo];
    ModesAgree(before);
    SplitAt(done, c);
    assert done[..c] == before[..c];
  }

  /** In every fair run, however much the engine goes on to produce, the packets complete at any
      moment are in the end read or queued, in order, unless the queue overflows. */
  lemma {:induction false} EventuallyDelivered(cfg: Config, st: nat -> State, act: nat -> Act, i: nat) returns (j: nat)
    requires FairRun(cfg, st, act) && Reachable(cfg, st(i))
    ensures i <= j
    ensures (st(j).pc.Dead? && st(j).pc.why.QueueFull?) || Packets(st(i).prod) <= st(j).popped + st(j).queue
  {
    hide Inv, FairRun, Packets, Complete;
    ReachableInv(cfg, st(i));
    var c := Complete(st(i).prod);
    j := Deliver(cfg, st, act, i, c);
    ProdGrows(cfg, st, act, i, j);
    Follows(cfg, st, act, j);
    if st(j).pc.Dead? {
      DeadCause(cfg, st(j));
    } else {
      DeliveredPackets(cfg, st(i).prod, st(j));
    }
  }

  lemma {:induction false} DeadCause(cfg: Config, s: State)
    requires Inv(cfg, s) && s.pc.Dead? && !s.fault
    ensures s.pc.why.QueueFull?
  {
  }
}
