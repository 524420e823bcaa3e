/** What the check means for whole streams, however they are cut into calls. */
module StreamTheorems {
  import opened Words
  import opened Lfsr
  import opened Modular
  import opened StreamCheck
  import opened WordBits
  import Ring

  /** The call stops at a word that is not as expected. */
  predicate Mismatch(c: Check, bytes: seq<byte>, bpb: nat)
    requires bpb > 0 && Readable(c, bytes)
  {
    bytes != [] && Prefix(bytes, Seed(c, bytes), bpb, 0) < Count(bytes, bpb)
  }

  lemma {:induction false} WordInPrefix(a: seq<byte>, b: seq<byte>, i: nat)
    requires 2 * i + 1 < |a|
    ensures WordAt(a + b, i) == WordAt(a, i)
  {
  }

  lemma {:induction false} WordInSuffix(a: seq<byte>, b: seq<byte>, n: nat, i: nat)
    requires |a| == 2 * n && 2 * i + 1 < |b|
    ensures WordAt(a + b, n + i) == WordAt(b, i)
  {
  }

  lemma {:induction false} CountGrows(a: seq<byte>, b: seq<byte>, bpb: nat)
    requires bpb > 0
    ensures Count(a, bpb) <= Count(a + b, bpb)
  {
    hide PerBeat;
    DivMono(|a|, |a + b|, bpb);
    Scale(PerBeat(bpb), |a| / bpb, |a + b| / bpb);
  }

  lemma {:induction false} DivMono(m: nat, n: nat, p: nat)
    requires p > 0 && m <= n
    ensures 0 <= m / p <= n / p
  {
    var d := m / p - n / p;
    assert m == p * (m / p) + m % p && n == p * (n / p) + n % p;
    MulGap(p, d);
  }

  lemma {:induction false} CountAdds(a: seq<byte>, b: seq<byte>, bpb: nat)
    requires bpb > 0 && |a| % bpb == 0
    ensures Count(a + b, bpb) == Count(a, bpb) + Count(b, bpb)
    ensures |a + b| / bpb == |a| / bpb + |b| / bpb
    ensures bpb % 2 == 0 ==> 2 * Count(a, bpb) == |a|
  {
    var k, m, w := |a| / bpb, |b| / bpb, PerBeat(bpb);
    ModUnique(|a| + |b|, bpb, k + m, |b| % bpb) by {
      assert bpb * (k + m) == bpb * k + bpb * m;
    }
    assert (k + m) * w == k * w + m * w;
    if bpb % 2 == 0 {
      assert bpb == 2 * w;
      assert bpb * k == 2 * (k * w);
    }
  }

  /** A mismatch in the first part is the mismatch of the whole. */
  lemma {:induction false} MismatchStays(a: seq<byte>, b: seq<byte>, seed: bv16, bpb: nat)
    requires bpb > 0 && Prefix(a, seed, bpb, 0) < Count(a, bpb)
    ensures Prefix(a + b, seed, bpb, 0) == Prefix(a, seed, bpb, 0) < Count(a + b, bpb)
  {
    hide WordAt, Prefix, Expected, Count;
    var f := Prefix(a, seed, bpb, 0);
    CountGrows(a, b, bpb);
    WordInPrefix(a, b, f);
    forall i: nat | i < f ensures WordAt(a + b, i) == Expected(seed, bpb, i) {
      WordInPrefix(a, b, i);
    }
    PrefixUnique(a + b, seed, bpb, f);
  }

  /** Words expected of a later part are those of a generator that has been advanced. */
  lemma {:induction false} ExpectedLater(seed: bv16, bpb: nat, beats: nat, i: nat)
    requires bpb >= 2
    ensures beats * PerBeat(bpb) >= 0
    ensures Expected(seed, bpb, beats * PerBeat(bpb) + i) == Expected(Iter(seed, beats), bpb, i)
  {
    var w := PerBeat(bpb);
    hide Iter;
    IterAdd(seed, beats, i / w);
    ModUnique(beats * w + i, w, beats + i / w, i % w) by {
      assert w * (beats + i / w) == beats * w + w * (i / w);
    }
  }

  /** When the first part matches, the second is checked as if on its own. */
  lemma {:induction false} PrefixAdds(a: seq<byte>, b: seq<byte>, seed: bv16, bpb: nat)
    requires bpb > 0 && (bpb % 2 == 0 || bpb == 1) && |a| % bpb == 0
    requires Prefix(a, seed, bpb, 0) == Count(a, bpb)
    ensures Prefix(a + b, seed, bpb, 0) == Count(a, bpb) + Prefix(b, Iter(seed, |a| / bpb), bpb, 0)
  {
    hide WordAt, Prefix, Expected, Count, PerBeat, Iter, Matches;
    CountAdds(a, b, bpb);
    if bpb == 1 {
      NoWords(a);
      NoWords(b);
    } else {
      var later := Iter(seed, |a| / bpb);
      NothingYet(b, later, bpb);
      var f := Prefix(b, later, bpb, 0);
      MatchesAdds(a, b, seed, bpb, f);
      if f < Count(b, bpb) { SuffixWord(a, b, seed, bpb, f); }
      PrefixUnique(a + b, seed, bpb, Count(a, bpb) + f);
    }
  }

  lemma {:induction false} NoWords(a: seq<byte>)
    ensures Count(a, 1) == 0
  {
  }

  lemma {:induction false} MatchesAdds(a: seq<byte>, b: seq<byte>, seed: bv16, bpb: nat, f: nat)
    requires bpb > 1 && |a| == 2 * Count(a, bpb) && 2 * f <= |b|
    requires Matches(a, seed, bpb, Count(a, bpb)) && Matches(b, Iter(seed, |a| / bpb), bpb, f)
    ensures Matches(a + b, seed, bpb, Count(a, bpb) + f)
  {
    hide WordAt, Expected, Count, PerBeat, Iter;
    var n := Count(a, bpb);
    forall i: nat | i < n + f ensures WordAt(a + b, i) == Expected(seed, bpb, i) {
      if i < n {
        WordInPrefix(a, b, i);
      } else {
        SuffixWord(a, b, seed, bpb, i - n);
      }
    }
  }

  lemma {:induction false} SuffixWord(a: seq<byte>, b: seq<byte>, seed: bv16, bpb: nat, i: nat)
    requires bpb > 1 && |a| == 2 * Count(a, bpb) && 2 * i + 1 < |b|
    ensures WordAt(a + b, Count(a, bpb) + i) == WordAt(b, i)
    ensures Expected(seed, bpb, Count(a, bpb) + i) == Expected(Iter(seed, |a| / bpb), bpb, i)
  {
    hide WordAt, Expected, Iter, PerBeat;
    AllBeats(a, bpb);
    WordInSuffix(a, b, Count(a, bpb), i);
    ExpectedLater(seed, bpb, |a| / bpb, i);
  }

  /** Feeding a whole stream is feeding a first part of whole beats and then the rest, unless the
      first part mismatches; then it is feeding the first part, but for the bytes received. */
  lemma {:induction false} ProcessSplits(c: Check, a: seq<byte>, b: seq<byte>, bpb: nat, expected: nat)
    requires bpb > 0 && (bpb % 2 == 0 || bpb == 1) && |a| % bpb == 0
    requires Readable(c, a) && Readable(c, a + b)
    ensures Mismatch(c, a, bpb) ==>
      Process(c, a + b, bpb, expected) == Process(c, a, bpb, expected).(rcvd := c.rcvd + |a + b|)
    ensures !Mismatch(c, a, bpb) && Readable(Process(c, a, bpb, expected), b) ==>
      Process(c, a + b, bpb, expected) == Process(Process(c, a, bpb, expected), b, bpb, expected)
  {
    if a == [] {
      assert a + b == b;
    } else if b == [] {
      assert a + b == a;
    } else {
      hide WordAt, Prefix, Count, PerBeat, Iter;
      var seed := Seed(c, a);
      SameSeed(c, a, b);
      NothingYet(a, seed, bpb);
      if Mismatch(c, a, bpb) {
        MismatchStays(a, b, seed, bpb);
      } else {
        MatchingSplits(c, a, b, bpb, expected);
      }
    }
  }

  lemma {:induction false} SameSeed(c: Check, a: seq<byte>, b: seq<byte>)
    requires a != [] && Readable(c, a) && Readable(c, a + b)
    ensures Seed(c, a + b) == Seed(c, a)
  {
  }

  lemma {:induction false} MatchingSplits(c: Check, a: seq<byte>, b: seq<byte>, bpb: nat, expected: nat)
    requires bpb > 0 && (bpb % 2 == 0 || bpb == 1) && |a| % bpb == 0
    requires a != [] && b != [] && Readable(c, a) && Readable(c, a + b)
    requires !Mismatch(c, a, bpb)
    ensures Process(c, a + b, bpb, expected) == Process(Process(c, a, bpb, expected), b, bpb, expected)
  {
    hide WordAt, Prefix, Count, PerBeat, Iter, Matches;
    var seed, beats := Seed(c, a), |a| / bpb;
    SameSeed(c, a, b);
    NothingYet(a, seed, bpb);
    NothingYet(a + b, seed, bpb);
    NothingYet(b, Iter(seed, beats), bpb);
    PrefixAdds(a, b, seed, bpb);
    CountAdds(a, b, bpb);
    GeneratorAdds(a, seed, bpb, Prefix(b, Iter(seed, beats), bpb, 0));
    IterAdd(seed, beats, |b| / bpb);
  }

  /** The generator's position when word i after the first part mismatches. */
  lemma {:induction false} GeneratorAdds(a: seq<byte>, seed: bv16, bpb: nat, i: nat)
    requires bpb > 0
    ensures bpb > 1 ==> Iter(seed, BeatOf(bpb, Count(a, bpb) + i)) == Iter(Iter(seed, |a| / bpb), BeatOf(bpb, i))
  {
    hide Iter;
    if bpb > 1 { ExpectedLater(seed, bpb, |a| / bpb, i); }
  }

  /** No lone byte starts the data. */
  predicate Safe(c: Check, chunks: seq<seq<byte>>) {
    c.lfsr.Some? || forall i :: 0 <= i < |chunks| ==> |chunks[i]| != 1
  }

  /** All chunks but the last are whole beats. */
  predicate Aligned(chunks: seq<seq<byte>>, bpb: nat)
    requires bpb > 0
  {
    forall i :: 0 <= i < |chunks| - 1 ==> |chunks[i]| % bpb == 0
  }

  /** Feeding chunks up to and including the first that mismatches. */
  function Feed(c: Check, chunks: seq<seq<byte>>, bpb: nat, expected: nat): Check
    requires bpb > 0 && Safe(c, chunks)
    decreases |chunks|
  {
    if chunks == [] then c
    else if Mismatch(c, chunks[0], bpb) then Process(c, chunks[0], bpb, expected)
    else Feed(Process(c, chunks[0], bpb, expected), chunks[1..], bpb, expected)
  }

  lemma {:induction false} JoinedSafe(c: Check, chunks: seq<seq<byte>>)
    requires Safe(c, chunks)
    ensures Readable(c, Ring.Join(chunks))
  {
    if chunks != [] {
      JoinedSafe(c, chunks[1..]);
      if |chunks[0]| == 0 { assert Ring.Join(chunks) == Ring.Join(chunks[1..]); }
    }
  }

  /** However a stream is cut into calls of whole beats, up to the first mismatch the counters,
      the generator and the decision to stop are those of a single call; so are the received
      bytes when nothing mismatches. */
  lemma {:induction false} ChunkingIndependence(c: Check, chunks: seq<seq<byte>>, bpb: nat, expected: nat)
    requires bpb > 0 && (bpb % 2 == 0 || bpb == 1)
    requires Safe(c, chunks) && Aligned(chunks, bpb)
    ensures Readable(c, Ring.Join(chunks))
    ensures var whole, fed := Process(c, Ring.Join(chunks), bpb, expected), Feed(c, chunks, bpb, expected);
            && fed == whole.(rcvd := fed.rcvd)
            && (!Mismatch(c, Ring.Join(chunks), bpb) ==> fed == whole)
    decreases |chunks|
  {
    JoinedSafe(c, chunks);
    if chunks != [] {
      hide WordAt, Prefix, Count, PerBeat, Iter;
      var a, b := chunks[0], Ring.Join(chunks[1..]);
      var d := Process(c, a, bpb, expected);
      if |chunks| == 1 {
        assert a + b == a;
      } else {
        assert forall i :: 0 <= i < |chunks[1..]| - 1 ==> chunks[1..][i] == chunks[i + 1];
        ProcessSplits(c, a, b, bpb, expected);
        MismatchSplits(c, a, b, bpb, expected);
        if !Mismatch(c, a, bpb) {
          ChunkingIndependence(d, chunks[1..], bpb, expected);
        }
      }
    }
  }

  /** The whole mismatches exactly when one of its parts does. */
  lemma {:induction false} MismatchSplits(c: Check, a: seq<byte>, b: seq<byte>, bpb: nat, expected: nat)
    requires bpb > 0 && (bpb % 2 == 0 || bpb == 1) && |a| % bpb == 0
    requires Readable(c, a) && Readable(c, a + b) && Readable(Process(c, a, bpb, expected), b)
    ensures Mismatch(c, a + b, bpb) <==>
      Mismatch(c, a, bpb) || Mismatch(Process(c, a, bpb, expected), b, bpb)
  {
    if a == [] {
      assert a + b == b;
    } else if b == [] {
      assert a + b == a;
    } else {
      hide WordAt, Prefix, Count, PerBeat, Iter, Matches;
      var seed := Seed(c, a);
      SameSeed(c, a, b);
      NothingYet(a, seed, bpb);
      NothingYet(a + b, seed, bpb);
      NothingYet(b, Iter(seed, |a| / bpb), bpb);
      if Mismatch(c, a, bpb) {
        MismatchStays(a, b, seed, bpb);
      } else {
        PrefixAdds(a, b, seed, bpb);
        CountAdds(a, b, bpb);
      }
    }
  }

  /** Cutting a stream after whole beats that match makes no difference to the state. */
  ghost predicate CutsAreFree(bpb: nat)
    requires bpb > 0
  {
    forall c: Check, a: seq<byte>, b: seq<byte>, expected: nat ::
      |a| % bpb == 0 && Readable(c, a) && Readable(c, a + b) && !Mismatch(c, a, bpb)
      && Readable(Process(c, a, bpb, expected), b)
      ==> Process(c, a + b, bpb, expected) == Process(Process(c, a, bpb, expected), b, bpb, expected)
  }

  /** A beat that the generator in state 0 accepts, with something in the byte that is ignored. */
  function ZeroBeat(bpb: nat): seq<byte>
    requires bpb >= 3
  {
    seq(bpb, i => if i == bpb - 1 then 1 else 0)
  }

  /** The beat that follows it. */
  function NextBeat(bpb: nat): seq<byte> {
    seq(bpb, i => if i % 2 == 0 then 0 else 0x80)
  }

  lemma {:induction false} OneBeat(bytes: seq<byte>, bpb: nat)
    requires bpb > 0 && |bytes| == bpb
    ensures Count(bytes, bpb) == PerBeat(bpb) && |bytes| / bpb == 1
  {
    ModUnique(bpb, bpb, 1, 0);
  }

  lemma {:induction false} BeatMatches(bytes: seq<byte>, seed: bv16, bpb: nat)
    requires bpb >= 3 && |bytes| == bpb
    requires forall i: nat :: i < PerBeat(bpb) ==> WordAt(bytes, i) == seed
    ensures Prefix(bytes, seed, bpb, 0) == Count(bytes, bpb)
  {
    OneBeat(bytes, bpb);
    hide WordAt, Count, PerBeat;
    forall i: nat | i < PerBeat(bpb) ensures Expected(seed, bpb, i) == seed {
      ModUnique(i, PerBeat(bpb), 0, i);
    }
    PrefixUnique(bytes, seed, bpb, PerBeat(bpb));
  }

  lemma {:induction false} ZeroBeatWords(bpb: nat, i: nat)
    requires bpb >= 3 && bpb % 2 == 1 && i < PerBeat(bpb)
    ensures WordAt(ZeroBeat(bpb), i) == 0
  {
    hide AsWord;
    KnownWords();
  }

  lemma {:induction false} NextBeatWords(bpb: nat, i: nat)
    requires bpb >= 3 && bpb % 2 == 1 && i < PerBeat(bpb)
    ensures WordAt(NextBeat(bpb), i) == 0x8000
  {
    hide WordAt;
    assert NextBeat(bpb)[2 * i] == 0 && NextBeat(bpb)[2 * i + 1] == 0x80;
    TopBitWord(NextBeat(bpb), i);
  }

  lemma {:induction false} TopBitWord(bytes: seq<byte>, i: nat)
    requires 2 * i + 1 < |bytes| && bytes[2 * i] == 0 && bytes[2 * i + 1] == 0x80
    ensures WordAt(bytes, i) == 0x8000
  {
    hide AsWord;
    KnownWords();
  }

  lemma {:induction false} StraddlingWord(bpb: nat)
    requires bpb >= 3 && bpb % 2 == 1
    ensures 2 * PerBeat(bpb) + 1 < |ZeroBeat(bpb) + NextBeat(bpb)|
    ensures WordAt(ZeroBeat(bpb) + NextBeat(bpb), PerBeat(bpb)) == 1
  {
    hide AsWord;
    KnownWords();
    var w := PerBeat(bpb);
    var ab := ZeroBeat(bpb) + NextBeat(bpb);
    assert ab[2 * w] == 1 && ab[2 * w + 1] == 0;
  }

  /** With an odd number of bytes per beat, words are read across beats within a call but not
      across calls: two beats that match in two calls mismatch in one. */
  lemma {:induction false} OddBeatsDiffer(bpb: nat)
    requires bpb >= 3 && bpb % 2 == 1
    ensures var c := Check(Some(0), 0, 0, 0, false); var a, b := ZeroBeat(bpb), NextBeat(bpb);
            && |a| == |b| == bpb && !Mismatch(c, a, bpb)
            && Process(Process(c, a, bpb, 0), b, bpb, 0).ok == 2 * PerBeat(bpb)
            && Process(c, a + b, bpb, 0).ok == PerBeat(bpb)
  {
    hide WordAt, Prefix, Count, PerBeat, ZeroBeat, NextBeat, Matches, Iter, Next;
    var a, b := ZeroBeat(bpb), NextBeat(bpb);
    OddLengths(bpb);
    OneBeat(a, bpb);
    OneBeat(b, bpb);
    forall i: nat | i < PerBeat(bpb) ensures WordAt(a, i) == 0 && WordAt(b, i) == 0x8000 {
      ZeroBeatWords(bpb, i);
      NextBeatWords(bpb, i);
    }
    BeatMatches(a, 0, bpb);
    BeatMatches(b, 0x8000, bpb);
    SecondBeat();
    WholeMismatches(bpb);
  }

  lemma {:induction false} OddLengths(bpb: nat)
    requires bpb >= 3
    ensures |ZeroBeat(bpb)| == |NextBeat(bpb)| == bpb && PerBeat(bpb) >= 1
  {
  }

  lemma {:induction false} SecondBeat()
    ensures Iter(0, 1) == 0x8000
  {
  }

  lemma {:induction false} WholeMismatches(bpb: nat)
    requires bpb >= 3 && bpb % 2 == 1
    ensures var ab := ZeroBeat(bpb) + NextBeat(bpb);
            Prefix(ab, 0, bpb, 0) == PerBeat(bpb) < Count(ab, bpb)
  {
    hide WordAt, Prefix, Count, PerBeat, ZeroBeat, NextBeat, Iter;
    var a, b, w := ZeroBeat(bpb), NextBeat(bpb), PerBeat(bpb);
    OddLengths(bpb);
    ModUnique(bpb, bpb, 1, 0);
    CountAdds(a, b, bpb);
    OneBeat(a, bpb);
    OneBeat(b, bpb);
    forall i: nat | i < w ensures WordAt(a + b, i) == Expected(0, bpb, i) {
      FirstBeatOfTwo(bpb, i);
    }
    StraddlingWord(bpb);
    ModUnique(w, w, 1, 0);
    SecondBeat();
    PrefixUnique(a + b, 0, bpb, w);
  }

  lemma {:induction false} FirstBeatOfTwo(bpb: nat, i: nat)
    requires bpb >= 3 && bpb % 2 == 1 && i < PerBeat(bpb)
    ensures 2 * i + 1 < |ZeroBeat(bpb) + NextBeat(bpb)|
    ensures WordAt(ZeroBeat(bpb) + NextBeat(bpb), i) == Expected(0, bpb, i)
  {
    hide WordAt, Next;
    ZeroBeatWords(bpb, i);
    WordInPrefix(ZeroBeat(bpb), NextBeat(bpb), i);
    ModUnique(i, PerBeat(bpb), 0, i);
  }

  /** Exactly when beats are whole words, or hold no word, does it not matter where a stream is
      cut. */
  lemma {:induction false} CutsAreFreeIff(bpb: nat)
    requires bpb > 0
    ensures CutsAreFree(bpb) <==> bpb % 2 == 0 || bpb == 1
  {
    hide Process, Mismatch, ZeroBeat, NextBeat, PerBeat;
    if bpb % 2 == 0 || bpb == 1 {
      forall c: Check, a: seq<byte>, b: seq<byte>, expected: nat |
        |a| % bpb == 0 && Readable(c, a) && Readable(c, a + b) && !Mismatch(c, a, bpb)
        && Readable(Process(c, a, bpb, expected), b)
        ensures Process(c, a + b, bpb, expected) == Process(Process(c, a, bpb, expected), b, bpb, expected)
      {
        ProcessSplits(c, a, b, bpb, expected);
      }
    } else {
      var c := Check(Some(0), 0, 0, 0, false);
      OddLengths(bpb);
      ModUnique(bpb, bpb, 1, 0);
      OddBeatsDiffer(bpb);
    }
  }

  /** Every call of a run, also those after a mismatch. */
  function RunAll(c: Check, chunks: seq<seq<byte>>, bpb: nat, expected: nat): Check
    requires bpb > 0 && Safe(c, chunks)
    decreases |chunks|
  {
    if chunks == [] then c else RunAll(Process(c, chunks[0], bpb, expected), chunks[1..], bpb, expected)
  }

  /** How many calls of a run hit a mismatch. */
  function Mismatches(c: Check, chunks: seq<seq<byte>>, bpb: nat, expected: nat): nat
    requires bpb > 0 && Safe(c, chunks)
    decreases |chunks|
  {
    if chunks == [] then 0
    else (if Mismatch(c, chunks[0], bpb) then 1 else 0)
         + Mismatches(Process(c, chunks[0], bpb, expected), chunks[1..], bpb, expected)
  }

  /** Over every run the counters differ by the number of calls that hit a mismatch. */
  lemma {:induction false} CountersCountMismatches(c: Check, chunks: seq<seq<byte>>, bpb: nat, expected: nat)
    requires bpb > 0 && Safe(c, chunks)
    ensures RunAll(c, chunks, bpb, expected).total - RunAll(c, chunks, bpb, expected).ok
            == c.total - c.ok + Mismatches(c, chunks, bpb, expected)
    decreases |chunks|
  {
    if chunks != [] {
      hide Prefix, Count, WordAt, Iter;
      CountersCountMismatches(Process(c, chunks[0], bpb, expected), chunks[1..], bpb, expected);
    }
  }

  /** The words of a stream are the generator's, bit for bit: word i holds the 16 bits of the
      sequence that start at its beat. */
  ghost predicate IsPattern(bytes: seq<byte>, seed: bv16, bpb: nat)
    requires bpb > 1
  {
    forall i: nat, k: nat :: i < Count(bytes, bpb) && k < 16 ==>
      Bit(WordAt(bytes, i), k) == Sequence(seed, BeatOf(bpb, i) + k)
  }

  /** A stream that starts the check, cut in any way into calls of whole beats, ends with equal
      counters exactly when it is the pattern of the seed in its first word. */
  lemma {:induction false} AcceptsExactlyThePattern(chunks: seq<seq<byte>>, bpb: nat, expected: nat)
    requires bpb > 0 && bpb % 2 == 0 && Aligned(chunks, bpb)
    requires Safe(Check(None, 0, 0, 0, false), chunks) && Ring.Join(chunks) != []
    ensures |Ring.Join(chunks)| >= 2
    ensures var fed := Feed(Check(None, 0, 0, 0, false), chunks, bpb, expected);
            fed.ok == fed.total <==> IsPattern(Ring.Join(chunks), WordAt(Ring.Join(chunks), 0), bpb)
  {
    hide Prefix, Count, PerBeat, WordAt, Iter, Ring.Join, Safe, Aligned, Feed, IsPattern;
    var c, bytes := Check(None, 0, 0, 0, false), Ring.Join(chunks);
    ChunkingIndependence(c, chunks, bpb, expected);
    var seed := WordAt(bytes, 0);
    NothingYet(bytes, seed, bpb);
    PatternIsPrefix(bytes, seed, bpb);
  }

  lemma {:induction false} PatternIsPrefix(bytes: seq<byte>, seed: bv16, bpb: nat)
    requires bpb > 1
    ensures Prefix(bytes, seed, bpb, 0) == Count(bytes, bpb) <==> IsPattern(bytes, seed, bpb)
  {
    hide Prefix, Count, WordAt, Iter, Bit, Sequence;
    var n, f := Count(bytes, bpb), Prefix(bytes, seed, bpb, 0);
    forall i: nat | i < n
      ensures WordAt(bytes, i) == Expected(seed, bpb, i) <==>
        forall k: nat :: k < 16 ==> Bit(WordAt(bytes, i), k) == Sequence(seed, BeatOf(bpb, i) + k)
    {
      WindowDetermines(seed, BeatOf(bpb, i), WordAt(bytes, i));
    }
    assert f < n ==> WordAt(bytes, f) != Expected(seed, bpb, f);
  }
}
