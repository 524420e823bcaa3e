/** What the streaming check reports, in terms of the received bytes alone. */
module StreamMeaning {
  import opened Words
  import opened Lfsr
  import opened Modular
  import opened WordBits
  import opened StreamCheck
  import opened StreamTheorems
  import Ring

  const FRESH := Check(None, 0, 0, 0, false)

  /** The pattern that starts with the first two bytes: bit t of the stream, and from bit 16 on a
      bit that is set exactly if an even number of the bits 16, 15, 13 and 4 places before are. */
  function PatternBit(bytes: seq<byte>, t: nat): bool
    requires |bytes| >= 2
  {
    if t < 16 then NatBit(bytes[t / 8], t % 8)
    else (Num(PatternBit(bytes, t - 16)) + Num(PatternBit(bytes, t - 15))
          + Num(PatternBit(bytes, t - 13)) + Num(PatternBit(bytes, t - 4))) % 2 == 0
  }

  /** Bytes 2i and 2i+1 hold the 16 bits of the pattern from their beat on. */
  ghost predicate WordFits(bytes: seq<byte>, bpb: nat, i: nat)
    requires bpb > 0 && 2 * i + 1 < |bytes|
  {
    forall k: nat :: k < 16 ==> NatBit(bytes[2 * i + k / 8], k % 8) == PatternBit(bytes, 2 * i / bpb + k)
  }

  lemma {:induction false} WordBitIs(bytes: seq<byte>, i: nat, k: nat)
    requires 2 * i + 1 < |bytes| && k < 16
    ensures Bit(WordAt(bytes, i), k) == NatBit(bytes[2 * i + k / 8], k % 8)
  {
    hide Bit, NatBit, ToBits;
    var low: nat, high: nat := bytes[2 * i], bytes[2 * i + 1];
    BitOfBits(low + 256 * high, 16, k);
    SmallPowers();
    BitOfParts(low, high, 8, k);
  }

  /** The pattern is the generator's sequence for the seed in the first word. */
  lemma {:induction false} PatternIs(bytes: seq<byte>, t: nat)
    requires |bytes| >= 2
    ensures PatternBit(bytes, t) == Sequence(WordAt(bytes, 0), t)
  {
    hide Bit, WordAt, NatBit, Num;
    if t < 16 {
      WordBitIs(bytes, 0, t);
    } else {
      PatternIs(bytes, t - 16);
      PatternIs(bytes, t - 15);
      PatternIs(bytes, t - 13);
      PatternIs(bytes, t - 4);
    }
  }

  lemma {:induction false} BeatIs(bpb: nat, i: nat)
    requires bpb > 0 && bpb % 2 == 0
    ensures BeatOf(bpb, i) == 2 * i / bpb
  {
    var w := bpb / 2;
    assert i == w * (i / w) + i % w && bpb * (i / w) == 2 * (w * (i / w));
    ModUnique(2 * i, bpb, i / w, 2 * (i % w));
  }

  /** A word fits exactly if it is the word that the check expects. */
  lemma {:induction false} FitsIffExpected(bytes: seq<byte>, bpb: nat, i: nat)
    requires bpb > 0 && bpb % 2 == 0 && 2 * i + 1 < |bytes|
    ensures WordFits(bytes, bpb, i) <==> WordAt(bytes, i) == Expected(WordAt(bytes, 0), bpb, i)
  {
    hide Bit, WordAt, NatBit, Sequence, PatternBit, BeatOf, Iter;
    var seed, b := WordAt(bytes, 0), BeatOf(bpb, i);
    BeatIs(bpb, i);
    WindowDetermines(seed, b, WordAt(bytes, i));
    if WordFits(bytes, bpb, i) {
      forall k: nat | k < 16 ensures Bit(WordAt(bytes, i), k) == Sequence(seed, b + k) {
        WordBitIs(bytes, i, k);
        PatternIs(bytes, b + k);
      }
    }
    if WordAt(bytes, i) == Iter(seed, b) {
      forall k: nat | k < 16 ensures NatBit(bytes[2 * i + k / 8], k % 8) == PatternBit(bytes, 2 * i / bpb + k) {
        WordBitIs(bytes, i, k);
        PatternIs(bytes, b + k);
      }
    }
  }

  /** The words of n bytes that the check looks at: those of whole beats. */
  function WordsIn(n: nat, bpb: nat): nat
    requires bpb > 0
  {
    n / bpb * (bpb / 2)
  }

  /** A fresh check that gets a stream in calls of whole beats counts the words that fit the
      pattern up to the first that does not, and looks at one more if there is one. It then stops;
      otherwise it has received everything, and stops exactly if that many bytes were expected. */
  lemma {:induction false} CheckMeaning(chunks: seq<seq<byte>>, bpb: nat, expected: nat)
    requires bpb > 0 && bpb % 2 == 0 && Aligned(chunks, bpb)
    requires Safe(FRESH, chunks) && Ring.Join(chunks) != []
    ensures var bytes, fed := Ring.Join(chunks), Feed(FRESH, chunks, bpb, expected);
            var n := WordsIn(|bytes|, bpb);
            && |bytes| >= 2 && 2 * n <= |bytes| && fed.ok <= n
            && (forall i: nat :: i < fed.ok ==> WordFits(bytes, bpb, i))
            && (if fed.ok < n then
                  !WordFits(bytes, bpb, fed.ok) && fed.total == fed.ok + 1 && fed.stopped
                else
                  fed.total == n && fed.rcvd == |bytes| && (fed.stopped <==> 0 < expected <= |bytes|))
  {
    hide Prefix, WordAt, Iter, Ring.Join, Safe, Aligned, Feed, WordFits, Expected, PerBeat;
    var bytes := Ring.Join(chunks);
    ChunkingIndependence(FRESH, chunks, bpb, expected);
    var seed := WordAt(bytes, 0);
    NothingYet(bytes, seed, bpb);
    WordCount(bytes, bpb);
    var f := Prefix(bytes, seed, bpb, 0);
    forall i: nat | i < f ensures WordFits(bytes, bpb, i) {
      FitsIffExpected(bytes, bpb, i);
    }
    if f < Count(bytes, bpb) { FitsIffExpected(bytes, bpb, f); }
  }

  lemma {:induction false} WordCount(bytes: seq<byte>, bpb: nat)
    requires bpb > 0
    ensures Count(bytes, bpb) == WordsIn(|bytes|, bpb)
  {
  }

  /** Over any run of calls whatsoever the received bytes are all bytes, and the handler has been
      told to stop exactly if a word did not fit or the expected number of bytes has come in. */
  lemma {:induction false} StopsExactly(c: Check, chunks: seq<seq<byte>>, bpb: nat, expected: nat)
    requires bpb > 0 && Safe(c, chunks) && !c.stopped && !(0 < expected <= c.rcvd)
    ensures var end := RunAll(c, chunks, bpb, expected);
            && end.rcvd == c.rcvd + |Ring.Join(chunks)|
            && (end.stopped <==>
                end.total - end.ok > c.total - c.ok || 0 < expected <= c.rcvd + |Ring.Join(chunks)|)
  {
    CountersCountMismatches(c, chunks, bpb, expected);
    StopsFrom(c, chunks, bpb, expected);
  }

  /** The same from a state in which the handler may have been told to stop already. */
  lemma {:induction false} StopsFrom(c: Check, chunks: seq<seq<byte>>, bpb: nat, expected: nat)
    requires bpb > 0 && Safe(c, chunks) && (0 < expected <= c.rcvd ==> c.stopped)
    ensures var end := RunAll(c, chunks, bpb, expected);
            && end.rcvd == c.rcvd + |Ring.Join(chunks)|
            && (end.stopped <==> c.stopped || Mismatches(c, chunks, bpb, expected) > 0
                                 || 0 < expected <= c.rcvd + |Ring.Join(chunks)|)
    decreases |chunks|
  {
    hide Prefix, Count, WordAt, Iter;
    if chunks != [] {
      StopsFrom(Process(c, chunks[0], bpb, expected), chunks[1..], bpb, expected);
    }
  }
}
