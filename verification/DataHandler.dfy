/** The interrupt handler: acknowledge, drain the ring into the queue, re-arm. */
module DataHandler {
  import opened Words
  import opened Ring
  import opened Sgdma
  import opened AxiDma
  import opened Queue
  import opened Draining

  /** DataHandlerSync: received blocks go to a queue that another thread reads. */
  class DataHandlerSync {
    const dma: UioAxiDmaIf
    const desc: UioMemSgdma
    const queue: ConcurrentQueue<Block>
    const receivePackets: bool

    constructor (d: UioAxiDmaIf, s: UioMemSgdma, q: ConcurrentQueue<Block>, packets: bool)
      ensures dma == d && desc == s && queue == q && receivePackets == packets
    {
      dma, desc, queue, receivePackets := d, s, q, packets;
    }

    /** What a drain from the present state does if the engine stays quiet. */
    ghost function DrainNow(): Drainage
      requires desc.Ready() && |queue.items| <= queue.maxElems
      reads desc, desc.hw.mem, queue`items, if desc.mem == null then {} else {desc.mem.data}
    {
      DrainAll(receivePackets, desc.Statuses(), desc.next, desc.mem.data[..], desc.bufSize,
               queue.maxElems - |queue.items|)
    }

    /** Queues a block; a full queue makes it throw. */
    method ProcessData(bytes: Block) returns (ok: bool)
      modifies queue
      ensures ok <==> |old(queue.items)| < queue.maxElems
      ensures queue.items == if ok then old(queue.items) + [bytes] else old(queue.items)
      ensures queue.abort == old(queue.abort)
    {
      ok := queue.Push(bytes);
    }

    /** Hands the next block to the reader; see the queue for what a timeout means. */
    method Read(timeout: nat, wakes: seq<Wake<Block>>) returns (r: Popped<Block>)
      modifies queue
      ensures (r, queue.View()) == PopResult(old(queue.View()), timeout, wakes)
    {
      ghost var u;
      r, u := queue.Pop(timeout, wakes);
    }

    /** Wakes a reader for good; what is queued stays queued. */
    method Stop()
      modifies queue
      ensures queue.abort && queue.items == old(queue.items)
    {
      queue.AbortConsumers();
    }

    /** One look at the ring: what it takes is copied out and its descriptors are released; an
        empty buffer makes it throw. */
    method Receive() returns (ok: bool, found: bool, bytes: Block)
      requires desc.Ready() && desc.Bounded()
      modifies desc`next, desc.hw.mem
      ensures desc.Ready() && desc.Bounded()
      ensures var sts, take := old(desc.Statuses()), TakeNext(receivePackets, old(desc.Statuses()), old(desc.next));
              && ok == take.ok && desc.next == take.next && (found <==> ok && take.idx != [])
              && (forall k :: 0 <= k < |take.idx| ==> take.idx[k] < |sts|)
              && (found ==> bytes == Flat(BufsOf(sts, desc.mem.data[..], desc.bufSize, take.idx)))
              && desc.Statuses() == if found then Released(sts, take.idx) else sts
    {
      hide Window, Flat, TakePacket, TakeAll, BufsOf, Released, Completed, UioMemSgdma.Bounded, UioMemSgdma.Built;
      TakeFacts(receivePackets, desc.Statuses(), desc.next);
      var full;
      if receivePackets {
        ok, full := desc.GetNextPacket();
      } else {
        ok, full := desc.GetFullBuffers();
      }
      if !ok || full == [] { return ok, false, []; }
      bytes := desc.ReadBuffers(full);
      found := true;
    }

    /** Receives until the ring has nothing more to give: the loop is the drain, for arbitrary
        flags and lengths. If the queue overflows, the blocks before are queued and the next
        one, already released from the ring, is lost. */
    method Drain() returns (r: Outcome)
      requires desc.Ready() && desc.Bounded() && |queue.items| <= queue.maxElems
      modifies desc`next, desc.hw.mem, queue
      ensures desc.Ready() && desc.Bounded()
      ensures queue.abort == old(queue.abort) && |queue.items| <= queue.maxElems
      ensures r == old(DrainNow()).end && queue.items == old(queue.items) + old(DrainNow()).sent
      ensures desc.Statuses() == old(DrainNow()).sts && desc.next == old(DrainNow()).next
    {
      hide DrainAll, TakeNext, Completed, Released, BufsOf, Flat;
      hide UioMemSgdma.Ready, UioMemSgdma.Bounded, UioMemSgdma.Statuses;
      ghost var d := DrainNow();
      ghost var sent: seq<Block> := [];
      assert d.(sent := sent + d.sent) == d;
      while true
        invariant desc.Ready() && desc.Bounded()
        invariant queue.abort == old(queue.abort) && |queue.items| <= queue.maxElems
        invariant queue.items == old(queue.items) + sent
        invariant DrainNow().(sent := sent + DrainNow().sent) == d
        decreases Completed(desc.Statuses())
      {
        ReadyFacts();
        DrainRound(receivePackets, desc.Statuses(), desc.next, desc.mem.data[..], desc.bufSize,
                   queue.maxElems - |queue.items|, sent);
        var ok, found, bytes := Receive();
        if !ok { return ZeroLength; }
        if !found { return Done; }
        ok := ProcessData(bytes);
        if !ok { return Overflow(bytes); }
        sent := sent + [bytes];
      }
    }

    lemma ReadyFacts()
      requires desc.Ready()
      ensures desc.mem != null && desc.mem.data != desc.hw.mem
      ensures if desc.Statuses() == [] then desc.next == 0 else desc.next < |desc.Statuses()|
    {
    }

    method StartRead()
      modifies dma`armed
      ensures dma.armed
    {
      dma.ArmInterrupt();
    }

    /** The interrupt handler: acknowledge what was seen, stop on an engine error, drain if a
        completion was seen, and re-arm unless something was thrown. raised is what the engine
        raises between the status read and the acknowledgement. */
    method HandleInput(ioError: bool, irqCount: uint32, raised: Raised) returns (r: Outcome)
      requires desc.Ready() && desc.Bounded() && |queue.items| <= queue.maxElems
      modifies dma`dmasr, dma`armed, desc`next, desc.hw.mem, queue
      ensures desc.Ready() && desc.Bounded()
      ensures ioError ==> r == IoError && dma.dmasr == old(dma.dmasr)
      ensures !ioError ==> dma.dmasr == old(dma.dmasr).(ioc := raised.ioc && !old(dma.dmasr).ioc,
                                                        err := raised.err && !old(dma.dmasr).err,
                                                        dly := old(dma.dmasr).dly || raised.dly)
      ensures !ioError ==>
                (r != DmaFault <==>
                  !old(dma.dmasr).err
                  || old(dma.dmasr) == old(dma.dmasr).(dmaIntErr := false, dmaSlvErr := false, dmaDecErr := false,
                                                       sgIntErr := false, sgSlvErr := false, sgDecErr := false))
      ensures if !ioError && r != DmaFault && old(dma.dmasr).ioc then
                && r == old(DrainNow()).end && queue.items == old(queue.items) + old(DrainNow()).sent
                && desc.Statuses() == old(DrainNow()).sts && desc.next == old(DrainNow()).next
              else
                && queue.items == old(queue.items) && desc.next == old(desc.next)
                && desc.Statuses() == old(desc.Statuses())
                && (!ioError && r != DmaFault ==> r == Done)
      ensures queue.abort == old(queue.abort)
      ensures if ioError then dma.armed == old(dma.armed) else dma.armed <==> r == Done
    {
      hide DrainAll, UioMemSgdma.Bounded, UioMemSgdma.Built;
      if ioError { return IoError; }
      var count, stat := dma.ClearInterrupt(irqCount, raised);
      if stat.err {
        var faulty := dma.CheckForErrors();
        if faulty { return DmaFault; }
      }
      r := Done;
      if stat.ioc {
        r := Drain();
      }
      if r == Done {
        StartRead();
      }
    }
  }
}
