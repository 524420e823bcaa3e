/** The control and status registers of the DMA engine. */
module AxiDma {
  import opened Words
  import opened Modular

  datatype DmaCr = DmaCr(rs: bool, reset: bool, cyclicBdEnable: bool, iocIrqEn: bool, dlyIrqEn: bool, errIrqEn: bool)

  datatype DmaSr = DmaSr(halted: bool, idle: bool, dmaIntErr: bool, dmaSlvErr: bool, dmaDecErr: bool,
                         sgIntErr: bool, sgSlvErr: bool, sgDecErr: bool, ioc: bool, dly: bool, err: bool)

  /** Interrupts the engine raises between two register accesses. */
  datatype Raised = Raised(ioc: bool, dly: bool, err: bool)

  /** The 26-bit pointer field and the upper word for an address; without 64-bit pointers the
      upper word is zero. */
  function PointerField(a: uint64): uint26 {
    a % 0x1_0000_0000 / 64
  }

  function UpperWord(a: uint64, wide: bool): uint32 {
    if wide then a / 0x1_0000_0000 else 0
  }

  function Address(field: uint26, upper: uint32, wide: bool): uint64 {
    field * 64 + if wide then upper * 0x1_0000_0000 else 0
  }

  /** What start writes, get_curr_desc reads back, exactly for addresses aligned to 64 bytes. */
  lemma {:induction false} PointerRoundTrip(a: uint64, wide: bool)
    requires wide || a < 0x1_0000_0000
    ensures Address(PointerField(a), UpperWord(a, wide), wide) == a - a % 64
    ensures Address(PointerField(a), UpperWord(a, wide), wide) == a <==> a % 64 == 0
  {
    var lo, hi := a % 0x1_0000_0000, a / 0x1_0000_0000;
    assert lo == lo / 64 * 64 + lo % 64;
    assert a % 64 == lo % 64 by { ModUnique(a, 64, hi * 0x400_0000 + lo / 64, lo % 64); }
  }

  /** Every descriptor of a ring that starts on a 64-byte boundary has such an address. */
  lemma {:induction false} RingPointersRoundTrip(base: uint64, n: nat, k: nat, wide: bool)
    requires n > 0 && base % 64 == 0 && base + n * 64 <= if wide then 0x1_0000_0000_0000_0000 else 0x1_0000_0000
    ensures var a := base + k % n * 64;
            Address(PointerField(a), UpperWord(a, wide), wide) == a
  {
    var a := base + k % n * 64;
    ModUnique(a, 64, base / 64 + k % n, 0);
    PointerRoundTrip(a, wide);
  }

  /** The status register after the engine raised interrupts. */
  function WithRaised(sr: DmaSr, r: Raised): DmaSr {
    sr.(ioc := sr.ioc || r.ioc, dly := sr.dly || r.dly, err := sr.err || r.err)
  }

  /** The status register after bits were written to it: a one clears an interrupt, all other
      bits are read-only. */
  function Cleared(sr: DmaSr, bits: Raised): DmaSr {
    sr.(ioc := sr.ioc && !bits.ioc, dly := sr.dly && !bits.dly, err := sr.err && !bits.err)
  }

  /** Writing back what was seen clears that and nothing else: an interrupt raised since stays
      pending unless it was already seen, and the delay interrupt is never cleared. */
  lemma {:induction false} Acknowledged(stat: DmaSr, raised: Raised)
    ensures Cleared(WithRaised(stat, raised), Raised(stat.ioc, false, stat.err))
            == stat.(ioc := raised.ioc && !stat.ioc, err := raised.err && !stat.err, dly := stat.dly || raised.dly)
  {
  }

  /** The pointer field holds bits 31 to 6 of the address. */
  lemma {:induction false} PointerBits(a: uint64)
    ensures PointerField(a) == a / 64 % 0x400_0000
  {
    var lo, hi := a % 0x1_0000_0000, a / 0x1_0000_0000;
    ModUnique(a, 64, hi * 0x400_0000 + lo / 64, lo % 64);
    ModUnique(a / 64, 0x400_0000, hi, lo / 64);
  }

  class UioAxiDmaIf {
    const wide: bool
    var dmacr: DmaCr
    var curdesc: uint26
    var curdescMsb: uint32
    var taildesc: uint26
    var taildescMsb: uint32
    var dmasr: DmaSr
    var armed: bool

    constructor (is64bit: bool, cr: DmaCr, sr: DmaSr)
      ensures wide == is64bit && dmacr == cr && dmasr == sr && !armed
    {
      wide, dmacr, dmasr := is64bit, cr, sr;
      curdesc, curdescMsb, taildesc, taildescMsb, armed := 0, 0, 0, 0, false;
    }

    /** Resets the engine, points it at the first descriptor and lets it run with completion and
        error interrupts, stopping at completed descriptors; cr is what the control register
        reads after the reset. */
    method Start(startDesc: uint64, cr: DmaCr)
      requires wide || startDesc < 0x1_0000_0000
      modifies this`dmacr, this`curdesc, this`curdescMsb, this`taildesc, this`taildescMsb
      ensures curdesc == startDesc / 64 % 0x400_0000 && taildesc == 1
      ensures curdescMsb == taildescMsb == if wide then startDesc / 0x1_0000_0000 else 0
      ensures Address(curdesc, curdescMsb, wide) == startDesc - startDesc % 64
      ensures dmacr.rs && !dmacr.cyclicBdEnable && dmacr.iocIrqEn && dmacr.errIrqEn
      ensures dmacr.reset == cr.reset && dmacr.dlyIrqEn == cr.dlyIrqEn
      ensures Address(taildesc, taildescMsb, wide) == 0x40 + (if wide then startDesc - startDesc % 0x1_0000_0000 else 0)
    {
      PointerRoundTrip(startDesc, wide);
      PointerBits(startDesc);
      dmacr := DmaCr(false, true, false, false, false, false);
      curdesc := PointerField(startDesc);
      curdescMsb := UpperWord(startDesc, wide);
      var ctrl := cr;
      ctrl := ctrl.(rs := true);
      ctrl := ctrl.(cyclicBdEnable := false);
      ctrl := ctrl.(iocIrqEn := true);
      ctrl := ctrl.(errIrqEn := true);
      dmacr := ctrl;
      taildesc := 0x50 / 64;
      taildescMsb := UpperWord(startDesc, wide);
    }

    /** The address of a descriptor: whichever address the two registers were set from comes back,
        down to its 64-byte boundary. */
    method GetCurrDesc() returns (a: uint64)
      ensures a % 64 == 0 && a / 64 % 0x400_0000 == curdesc
      ensures a / 0x1_0000_0000 == (if wide then curdescMsb else 0)
      ensures forall x: uint64 ::
                ((wide || x < 0x1_0000_0000) && PointerField(x) == curdesc && UpperWord(x, wide) == curdescMsb)
                ==> a == x - x % 64
    {
      a := curdesc * 64;
      if wide {
        a := a + curdescMsb * 0x1_0000_0000;
      }
      ModUnique(a / 64, 0x400_0000, if wide then curdescMsb else 0, curdesc) by {
        ModUnique(a, 64, curdesc + if wide then curdescMsb * 0x400_0000 else 0, 0);
      }
      ModUnique(a, 64, curdesc + if wide then curdescMsb * 0x400_0000 else 0, 0);
      forall x: uint64 | (wide || x < 0x1_0000_0000) && PointerField(x) == curdesc && UpperWord(x, wide) == curdescMsb
        ensures a == x - x % 64
      {
        PointerRoundTrip(x, wide);
      }
    }

    /** Acknowledges the interrupts seen in one status read by writing exactly those bits back.
        An interrupt raised between read and write stays pending unless it was already seen. The
        interrupt that woke the caller does not fire again until it is armed. */
    method ClearInterrupt(irqCount: uint32, raised: Raised) returns (count: uint32, stat: DmaSr)
      modifies this`dmasr, this`armed
      ensures count == irqCount && stat == old(dmasr) && !armed
      ensures dmasr == stat.(ioc := raised.ioc && !stat.ioc, err := raised.err && !stat.err,
                             dly := stat.dly || raised.dly)
    {
      hide Cleared, WithRaised;
      count := irqCount;
      armed := false;
      stat := dmasr;
      dmasr := WithRaised(dmasr, raised);
      WriteStatus(Raised(stat.ioc, false, stat.err));
      Acknowledged(stat, raised);
    }

    method WriteStatus(bits: Raised)
      modifies this`dmasr
      ensures dmasr == Cleared(old(dmasr), bits)
    {
      dmasr := Cleared(dmasr, bits);
    }

    /** There is an error unless all six error bits are clear; halted and idle are no errors. */
    method CheckForErrors() returns (hasErrors: bool)
      ensures !hasErrors <==>
              dmasr == dmasr.(dmaIntErr := false, dmaSlvErr := false, dmaDecErr := false,
                              sgIntErr := false, sgSlvErr := false, sgDecErr := false)
    {
      var sr := dmasr;
      hasErrors := false;
      if sr.dmaIntErr { hasErrors := true; }
      if sr.dmaSlvErr { hasErrors := true; }
      if sr.dmaDecErr { hasErrors := true; }
      if sr.sgIntErr { hasErrors := true; }
      if sr.sgSlvErr { hasErrors := true; }
      if sr.sgDecErr { hasErrors := true; }
    }

    method ArmInterrupt()
      modifies this`armed
      ensures armed
    {
      armed := true;
    }
  }
}
