/** The receive protocol as a transition system: the DMA engine, the handler thread and the
    reader thread, interleaved at every register access, byte copied and queue operation. */
module Protocol {
  import opened Words
  import opened Descriptor
  import opened Ring

  /** n descriptors, bytes per buffer, queue capacity, packet mode or stream mode. */
  datatype Config = Config(n: nat, bufSize: nat, cap: nat, packets: bool)

  /** A descriptor's status word and the contents of its buffer. */
  datatype Slot = Slot(st: Status, data: seq<byte>)

  datatype Failure = EmptyBufferSeen | DmaError | QueueFull(lost: seq<byte>) | OutOfBounds

  /** Where the handler is: between any two constructors lies at least one access to memory
      that the engine or the reader shares. */
  datatype Pc =
    | Armed
    | Woken
    | Acking(ioc: bool, err: bool)
    | Checking(ioc: bool)
    | Scan(i: nat, m: nat, hasSof: bool, acc: seq<nat>)
    | Fetching(idx: seq<nat>, stats: seq<Status>)
    | Copying(idx: seq<nat>, stats: seq<Status>, k: nat, out: seq<byte>, j: nat)
    | Pushing(out: seq<byte>)
    | Rearming
    | Dead(why: Failure)

  /** Device and program state up to queue; history variables from prod on: every buffer the
      engine completed, whether an interrupt is due, the start of the group in hand, how many
      buffers were handed out and released, and everything the reader got. */
  datatype State = State(
    slots: seq<Slot>, next: nat, ioc: bool, err: bool, fault: bool, pc: Pc, queue: seq<seq<byte>>,
    prod: seq<Buf>, pend: bool, lo: nat, handed: nat, cleared: nat, popped: seq<seq<byte>>)

  datatype Act =
    | Fill(data: seq<byte>)
    | Publish(st: Status)
    | RaiseIoc
    | RaiseErr(isFault: bool)
    | Handler
    | Pop

  ghost predicate ValidConfig(cfg: Config) {
    cfg.n >= 1 && cfg.bufSize < 0x400_0000
  }

  ghost predicate Init(cfg: Config, s: State) {
    && |s.slots| == cfg.n
    && (forall i :: 0 <= i < cfg.n ==> !s.slots[i].st.cmplt && |s.slots[i].data| == cfg.bufSize)
    && s.next == 0 && !s.ioc && !s.err && !s.fault && s.pc == Rearming && s.queue == []
    && s.prod == [] && !s.pend && s.lo == s.handed == s.cleared == 0 && s.popped == []
  }

  /** The slot the engine works on: it follows the descriptor chain. */
  function Tail(cfg: Config, s: State): nat
    requires cfg.n > 0
  {
    |s.prod| % cfg.n
  }

  /** What a completed slot holds. */
  function Content(slot: Slot): Buf {
    Buf(slot.st, if slot.st.len <= |slot.data| then slot.data[..slot.st.len] else slot.data)
  }

  /** The engine owns its next slot while cmplt is clear. A conforming producer marks the
      start of each packet and completes no empty buffer. */
  predicate Enabled(cfg: Config, s: State, a: Act) {
    match a
    case Fill(data) =>
      cfg.n > 0 && Tail(cfg, s) < |s.slots| && !s.slots[Tail(cfg, s)].st.cmplt && |data| == cfg.bufSize
    case Publish(st) =>
      && cfg.n > 0 && Tail(cfg, s) < |s.slots| && !s.slots[Tail(cfg, s)].st.cmplt
      && st.cmplt && 0 < st.len <= cfg.bufSize && (Closed(s.prod) ==> st.sof)
    case RaiseIoc => s.pend
    case RaiseErr(_) => true
    case Handler => !s.pc.Dead? && (s.pc.Armed? ==> s.ioc || s.err)
    case Pop => s.queue != []
  }

  function EngineStep(cfg: Config, s: State, a: Act): State
    requires Enabled(cfg, s, a) && !a.Handler? && !a.Pop?
  {
    match a
    case Fill(data) =>
      s.(slots := s.slots[Tail(cfg, s) := s.slots[Tail(cfg, s)].(data := data)])
    case Publish(st) =>
      var slot := s.slots[Tail(cfg, s)].(st := st);
      s.(slots := s.slots[Tail(cfg, s) := slot], prod := s.prod + [Content(slot)], pend := s.pend || st.eof)
    case RaiseIoc => s.(ioc := true, pend := false)
    case RaiseErr(isFault) => s.(err := true, fault := s.fault || isFault)
  }

  function StartScan(s: State): State {
    s.(pc := Scan(0, s.next, false, []))
  }

  function EndScan(s: State, found: seq<nat>): State {
    s.(pc := if found == [] then Rearming else Fetching(found, []))
  }

  /** One status read of get_full_buffers or get_next_packet. */
  function ScanStep(cfg: Config, s: State): State
    requires s.pc.Scan? && cfg.n > 0
  {
    var Scan(i, m, hasSof, acc) := s.pc;
    var up := (m + 1) % cfg.n;
    if i == cfg.n then EndScan(s, if cfg.packets then [] else acc)
    else if m >= |s.slots| then s.(pc := Dead(OutOfBounds))
    else
      var st := s.slots[m].st;
      if !st.cmplt then EndScan(s, if cfg.packets then [] else acc)
      else if st.len == 0 then s.(pc := Dead(EmptyBufferSeen))
      else if !cfg.packets then
        s.(pc := Scan(i + 1, up, hasSof, acc + [m]), next := up, handed := s.handed + 1)
      else if !hasSof && !st.sof then
        s.(pc := Scan(i + 1, up, false, []), next := up, handed := s.handed + 1, lo := s.lo + 1)
      else if st.eof then
        EndScan(s.(next := up, handed := s.handed + |acc| + 1), acc + [m])
      else
        s.(pc := Scan(i + 1, up, true, acc + [m]))
  }

  /** One access of read_buffers: a status read, a byte copied, or the status write-back. */
  function ReadStep(cfg: Config, s: State): State
    requires s.pc.Fetching? || s.pc.Copying?
  {
    match s.pc
    case Fetching(idx, stats) =>
      if |stats| >= |idx| then s.(pc := Copying(idx, stats, 0, [], 0))
      else if idx[|stats|] >= |s.slots| then s.(pc := Dead(OutOfBounds))
      else s.(pc := Fetching(idx, stats + [s.slots[idx[|stats|]].st]))
    case Copying(idx, stats, k, out, j) =>
      if k >= |idx| then s.(pc := Pushing(out))
      else if k >= |stats| || idx[k] >= |s.slots| then s.(pc := Dead(OutOfBounds))
      else if j >= stats[k].len then
        s.(slots := s.slots[idx[k] := s.slots[idx[k]].(st := stats[k].(cmplt := false))],
           cleared := s.cleared + 1, pc := Copying(idx, stats, k + 1, out, 0))
      else if j >= |s.slots[idx[k]].data| then s.(pc := Dead(OutOfBounds))
      else s.(pc := Copying(idx, stats, k, out + [s.slots[idx[k]].data[j]], j + 1))
  }

  /** One step of the handler thread: acknowledge, drain, re-arm. */
  function HandlerStep(cfg: Config, s: State): State
    requires cfg.n > 0
  {
    match s.pc
    case Armed => s.(pc := Woken)
    case Woken => s.(pc := Acking(s.ioc, s.err))
    case Acking(ioc, err) =>
      var t := s.(ioc := s.ioc && !ioc, err := s.err && !err);
      if err then t.(pc := Checking(ioc)) else if ioc then StartScan(t) else t.(pc := Rearming)
    case Checking(ioc) =>
      if s.fault then s.(pc := Dead(DmaError)) else if ioc then StartScan(s) else s.(pc := Rearming)
    case Scan(_, _, _, _) => ScanStep(cfg, s)
    case Fetching(_, _) => ReadStep(cfg, s)
    case Copying(_, _, _, _, _) => ReadStep(cfg, s)
    case Pushing(out) =>
      if |s.queue| >= cfg.cap then s.(pc := Dead(QueueFull(out)))
      else StartScan(s.(queue := s.queue + [out], lo := s.handed))
    case Rearming => s.(pc := Armed)
    case Dead(_) => s
  }

  /** A step; an action that is not enabled changes nothing. */
  function Step(cfg: Config, s: State, a: Act): State
    requires cfg.n > 0
  {
    if !Enabled(cfg, s, a) then s
    else match a
         case Handler => HandlerStep(cfg, s)
         case Pop => s.(queue := s.queue[1..], popped := s.popped + [s.queue[0]])
         case _ => EngineStep(cfg, s, a)
  }

  /** The state after a run: any interleaving of the three actors is a sequence of actions. */
  function Exec(cfg: Config, s: State, run: seq<Act>): State
    requires cfg.n > 0
    decreases |run|
  {
    if run == [] then s else Exec(cfg, Step(cfg, s, run[0]), run[1..])
  }

  /** The buffers completed and not yet handed out, as they lie in memory. */
  function Waiting(cfg: Config, s: State): seq<Buf>
    requires cfg.n > 0 && |s.slots| == cfg.n && s.handed <= |s.prod|
  {
    seq(|s.prod| - s.handed, j requires 0 <= j => Content(s.slots[(s.handed + j) % cfg.n]))
  }

  /** What the descriptors of the ring say. */
  function SlotStatuses(slots: seq<Slot>): (r: seq<Status>)
    ensures |r| == |slots|
  {
    seq(|slots|, i requires 0 <= i < |slots| => slots[i].st)
  }

  /** The bytes in memory behind a list of ring indices. */
  function Gather(slots: seq<Slot>, idx: seq<nat>): seq<byte> {
    if idx == [] then [] else (if idx[0] < |slots| then Content(slots[idx[0]]).bytes else []) + Gather(slots, idx[1..])
  }

  /** The packet (or, in stream mode, the block) in the handler's hands: bytes already copied
      and bytes still in memory; after a rejected push, the block that was lost. */
  function InHand(cfg: Config, s: State): seq<seq<byte>> {
    match s.pc
    case Scan(_, _, _, acc) => if cfg.packets || acc == [] then [] else [Gather(s.slots, acc)]
    case Fetching(idx, _) => [Gather(s.slots, idx)]
    case Copying(idx, _, k, out, j) =>
      var rest := Gather(s.slots, if k <= |idx| then idx[k..] else []);
      [out + if j <= |rest| then rest[j..] else []]
    case Pushing(out) => [out]
    case Dead(QueueFull(lost)) => [lost]
    case _ => []
  }
}
