/** example/demo_cpp/src/DataHandlerPrint.cpp: checks received bytes against the generator's
    pattern, beat by beat. */
module StreamCheck {
  import opened Words
  import opened Lfsr
  import opened Modular
  import opened WordBits

  datatype Option<T> = None | Some(value: T)

  /** The state of the check: the generator, the words that matched, the words looked at, the
      bytes received, and whether the handler has been told to stop. */
  datatype Check = Check(lfsr: Option<bv16>, ok: nat, total: nat, rcvd: nat, stopped: bool)

  /** 16-bit word i of the bytes. */
  function WordAt(bytes: seq<byte>, i: nat): bv16
    requires 2 * i + 1 < |bytes|
  {
    var low: int, high: int := bytes[2 * i], bytes[2 * i + 1];
    AsWord(low + 256 * high)
  }

  /** Words of one beat; a trailing odd byte of a beat is not looked at. */
  function PerBeat(bpb: nat): nat {
    bpb / 2
  }

  /** Words that a call looks at unless one of them mismatches. */
  function Count(bytes: seq<byte>, bpb: nat): (n: nat)
    requires bpb > 0
    ensures 2 * n <= |bytes|
  {
    CountFits(|bytes|, bpb);
    |bytes| / bpb * PerBeat(bpb)
  }

  lemma {:induction false} CountFits(n: nat, bpb: nat)
    requires bpb > 0
    ensures 0 <= 2 * (n / bpb * PerBeat(bpb)) <= n
  {
    var k, w := n / bpb, PerBeat(bpb);
    assert n == bpb * k + n % bpb;
    Scale(k, 2 * w, bpb);
    assert 2 * (k * w) == k * (2 * w);
  }

  lemma {:induction false} Scale(k: nat, a: nat, b: nat)
    requires a <= b
    ensures 0 <= k * a <= k * b
  {
  }

  /** The beat that word i belongs to. */
  function BeatOf(bpb: nat, i: nat): nat
    requires bpb >= 2
  {
    i / PerBeat(bpb)
  }

  /** The word expected at position i. */
  function Expected(seed: bv16, bpb: nat, i: nat): bv16
    requires bpb >= 2
  {
    Iter(seed, BeatOf(bpb, i))
  }

  /** The first k words are as expected. */
  ghost predicate Matches(bytes: seq<byte>, seed: bv16, bpb: nat, k: nat)
    requires 2 * k <= |bytes|
  {
    bpb >= 2 ==> forall i: nat :: i < k ==> WordAt(bytes, i) == Expected(seed, bpb, i)
  }

  /** How many words match before the first that does not, or all of them. */
  function Prefix(bytes: seq<byte>, seed: bv16, bpb: nat, i: nat): (f: nat)
    requires bpb > 0 && i <= Count(bytes, bpb)
    requires Matches(bytes, seed, bpb, i)
    ensures i <= f <= Count(bytes, bpb) && Matches(bytes, seed, bpb, f)
    ensures f < Count(bytes, bpb) ==> bpb >= 2 && WordAt(bytes, f) != Expected(seed, bpb, f)
    decreases Count(bytes, bpb) - i
  {
    if i == Count(bytes, bpb) || WordAt(bytes, i) != Expected(seed, bpb, i) then i else Prefix(bytes, seed, bpb, i + 1)
  }

  /** The prefix is determined by matching up to it and mismatching there. */
  lemma {:induction false} PrefixUnique(bytes: seq<byte>, seed: bv16, bpb: nat, k: nat)
    requires bpb > 0 && k <= Count(bytes, bpb) && Matches(bytes, seed, bpb, k)
    requires k < Count(bytes, bpb) ==> bpb >= 2 && WordAt(bytes, k) != Expected(seed, bpb, k)
    ensures Prefix(bytes, seed, bpb, 0) == k
  {
    hide Prefix, WordAt, Expected, Count;
    var f := Prefix(bytes, seed, bpb, 0);
    if f < Count(bytes, bpb) { MismatchBounds(bytes, seed, bpb, k, f); }
    if k < Count(bytes, bpb) { MismatchBounds(bytes, seed, bpb, f, k); }
  }

  lemma {:induction false} MismatchBounds(bytes: seq<byte>, seed: bv16, bpb: nat, k: nat, i: nat)
    requires bpb >= 2 && 2 * k <= |bytes| && Matches(bytes, seed, bpb, k)
    requires 2 * i + 1 < |bytes| && WordAt(bytes, i) != Expected(seed, bpb, i)
    ensures k <= i
  {
    hide WordAt, Expected;
  }

  /** A lone byte as the very first data would make the source read its seed out of bounds. */
  predicate Readable(c: Check, bytes: seq<byte>) {
    |bytes| == 1 ==> c.lfsr.Some?
  }

  function Seed(c: Check, bytes: seq<byte>): bv16
    requires bytes != [] && Readable(c, bytes)
  {
    if c.lfsr.Some? then c.lfsr.value else WordAt(bytes, 0)
  }

  predicate Enough(rcvd: nat, expected: nat) {
    expected != 0 && rcvd >= expected
  }

  /** What one call does to the state of the check. */
  function Process(c: Check, bytes: seq<byte>, bpb: nat, expected: nat): Check
    requires bpb > 0 && Readable(c, bytes)
  {
    if bytes == [] then c else
      var seed := Seed(c, bytes);
      var n := Count(bytes, bpb);
      var f := Prefix(bytes, seed, bpb, 0);
      var rcvd := c.rcvd + |bytes|;
      if f < n then Check(Some(Iter(seed, BeatOf(bpb, f))), c.ok + f, c.total + f + 1, rcvd, true)
      else Check(Some(Iter(seed, |bytes| / bpb)), c.ok + n, c.total + n, rcvd, c.stopped || Enough(rcvd, expected))
  }

  lemma {:induction false} NothingYet(bytes: seq<byte>, seed: bv16, bpb: nat)
    ensures Matches(bytes, seed, bpb, 0) && Iter(seed, 0) == seed
  {
  }

  lemma {:induction false} IterStep(seed: bv16, i: nat)
    ensures Iter(seed, i + 1) == Next(Iter(seed, i))
  {
    hide Next;
  }

  lemma {:induction false} BeatInside(bytes: seq<byte>, bpb: nat, i: nat)
    requires bpb > 0 && i < |bytes| / bpb
    ensures i * PerBeat(bpb) + PerBeat(bpb) == (i + 1) * PerBeat(bpb) <= Count(bytes, bpb)
  {
    hide PerBeat;
    BelowProduct(i, |bytes| / bpb, PerBeat(bpb));
  }

  lemma {:induction false} BelowProduct(i: nat, k: nat, w: nat)
    requires i < k
    ensures i * w + w == (i + 1) * w <= k * w
  {
    Scale(w, i + 1, k);
  }

  lemma {:induction false} AllBeats(bytes: seq<byte>, bpb: nat)
    requires bpb > 0
    ensures Count(bytes, bpb) == |bytes| / bpb * PerBeat(bpb)
  {
  }

  lemma {:induction false} ExpectedInBeat(seed: bv16, bpb: nat, i: nat, j: nat)
    requires bpb > 0 && j < PerBeat(bpb)
    ensures i * PerBeat(bpb) + j >= 0 && bpb >= 2
    ensures Expected(seed, bpb, i * PerBeat(bpb) + j) == Iter(seed, i)
    ensures BeatOf(bpb, i * PerBeat(bpb) + j) == i
  {
    hide Iter;
    ModUnique(i * PerBeat(bpb) + j, PerBeat(bpb), i, j);
  }

  lemma {:induction false} OneMore(bytes: seq<byte>, seed: bv16, bpb: nat, k: nat)
    requires bpb >= 2 && 2 * k + 1 < |bytes| && Matches(bytes, seed, bpb, k)
    requires WordAt(bytes, k) == Expected(seed, bpb, k)
    ensures Matches(bytes, seed, bpb, k + 1)
  {
    hide WordAt, Expected;
  }

  class DataHandlerPrint {
    var lfsr: AxiTrafficGenLfsr?
    var counterOk: nat
    var counterTotal: nat
    const numBytesPerBeat: nat
    const numBytesExpected: nat
    var numBytesRcvd: nat
    var stopped: bool

    ghost function View(): Check
      reads this, lfsr
    {
      Check(if lfsr == null then None else Some(lfsr.val), counterOk, counterTotal, numBytesRcvd, stopped)
    }

    constructor (bpb: nat, expected: nat)
      ensures View() == Check(None, 0, 0, 0, false)
      ensures numBytesPerBeat == bpb && numBytesExpected == expected
    {
      lfsr, counterOk, counterTotal, numBytesRcvd, stopped := null, 0, 0, 0, false;
      numBytesPerBeat, numBytesExpected := bpb, expected;
    }

    /** The inner loop: the words of beat i, up to the first that is not the expected one. */
    method CheckBeat(bytes: seq<byte>, ghost seed: bv16, i: nat, expVal: bv16) returns (ok: bool, ghost f: nat)
      requires numBytesPerBeat > 0 && i < |bytes| / numBytesPerBeat && expVal == Iter(seed, i)
      requires i * PerBeat(numBytesPerBeat) <= Count(bytes, numBytesPerBeat)
      requires Matches(bytes, seed, numBytesPerBeat, i * PerBeat(numBytesPerBeat))
      modifies this`counterOk, this`counterTotal
      ensures i * PerBeat(numBytesPerBeat) <= f <= Count(bytes, numBytesPerBeat)
      ensures Matches(bytes, seed, numBytesPerBeat, f)
      ensures counterOk == old(counterOk) + f - i * PerBeat(numBytesPerBeat)
      ensures counterTotal == old(counterTotal) + f - i * PerBeat(numBytesPerBeat) + if ok then 0 else 1
      ensures ok ==> f == (i + 1) * PerBeat(numBytesPerBeat)
      ensures !ok ==> numBytesPerBeat >= 2 && f < Count(bytes, numBytesPerBeat) && BeatOf(numBytesPerBeat, f) == i
                      && WordAt(bytes, f) != Expected(seed, numBytesPerBeat, f)
    {
      hide WordAt, Iter, Expected, Matches, PerBeat, Count;
      var bpb := numBytesPerBeat;
      var w := PerBeat(bpb);
      var idx, j := i * w, 0;
      BeatInside(bytes, bpb, i);
      while j < w
        invariant j <= w && idx == i * w + j
        invariant counterOk == old(counterOk) + j && counterTotal == old(counterTotal) + j
        invariant Matches(bytes, seed, bpb, idx)
      {
        ExpectedInBeat(seed, bpb, i, j);
        var recvVal := WordAt(bytes, idx);
        counterTotal := counterTotal + 1;
        if expVal != recvVal { return false, idx; }
        OneMore(bytes, seed, bpb, idx);
        counterOk := counterOk + 1;
        idx := idx + 1;
        j := j + 1;
      }
      ok, f := true, idx;
    }

    /** The outer loop: beat after beat against the generator, up to the first mismatch. */
    method CheckBeats(bytes: seq<byte>) returns (ok: bool, ghost f: nat)
      requires numBytesPerBeat > 0 && lfsr != null
      modifies this`counterOk, this`counterTotal, lfsr
      ensures Matches(bytes, old(lfsr.val), numBytesPerBeat, 0)
      ensures f == Prefix(bytes, old(lfsr.val), numBytesPerBeat, 0)
      ensures ok <==> f == Count(bytes, numBytesPerBeat)
      ensures counterOk == old(counterOk) + f && counterTotal == old(counterTotal) + f + if ok then 0 else 1
      ensures ok ==> lfsr.val == Iter(old(lfsr.val), |bytes| / numBytesPerBeat)
      ensures !ok ==> numBytesPerBeat >= 2 && lfsr.val == Iter(old(lfsr.val), BeatOf(numBytesPerBeat, f))
    {
      hide WordAt, Prefix, Iter, Expected, Matches, Next, PerBeat, Count, BeatOf;
      ghost var seed, w := lfsr.val, PerBeat(numBytesPerBeat);
      var i := 0;
      NothingYet(bytes, seed, numBytesPerBeat);
      while i < |bytes| / numBytesPerBeat
        invariant i <= |bytes| / numBytesPerBeat && i * w <= Count(bytes, numBytesPerBeat)
        invariant lfsr.val == Iter(seed, i)
        invariant counterOk == old(counterOk) + i * w && counterTotal == old(counterTotal) + i * w
        invariant Matches(bytes, seed, numBytesPerBeat, i * w)
      {
        ok, f := CheckBeat(bytes, seed, i, lfsr.Get());
        if !ok {
          PrefixUnique(bytes, seed, numBytesPerBeat, f);
          return;
        }
        var _ := lfsr.Advance();
        IterStep(seed, i);
        i := i + 1;
      }
      AllBeats(bytes, numBytesPerBeat);
      PrefixUnique(bytes, seed, numBytesPerBeat, i * w);
      ok, f := true, i * w;
    }

    /** The nested loops with their early exit are the closed form. */
    method ProcessData(bytes: seq<byte>)
      requires numBytesPerBeat > 0 && Readable(View(), bytes)
      modifies this, lfsr
      ensures lfsr == old(lfsr) || fresh(lfsr)
      ensures View() == Process(old(View()), bytes, numBytesPerBeat, numBytesExpected)
    {
      hide WordAt, Prefix, Iter, Expected, Matches, PerBeat, Count, BeatOf;
      numBytesRcvd := numBytesRcvd + |bytes|;
      if |bytes| == 0 { return; }
      if lfsr == null {
        lfsr := new AxiTrafficGenLfsr(WordAt(bytes, 0));
      }
      ghost var f;
      var ok;
      ok, f := CheckBeats(bytes);
      if !ok {
        stopped := true;
        return;
      }
      if numBytesExpected != 0 && numBytesRcvd >= numBytesExpected {
        stopped := true;
      }
    }
  }
}
