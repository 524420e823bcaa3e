/** What becomes of buffers that the packet splitter passes over: they stay complete until a look
    takes them as part of a later packet, if ever. */
module Skipping {
  import opened Words
  import opened Modular
  import opened Descriptor
  import opened Ring
  import opened Sgdma
  import opened Draining

  /** How many buffers of the window a look moves the read index past. */
  function Moved(w: seq<Status>): (r: nat)
    ensures NextPacket(w).skip <= r <= |w|
  {
    match NextPacket(w)
    case Packet(_, end) => end
    case NoPacket(skip) => skip
    case EmptyBuffer(skip, _) => skip
  }

  /** Whether a look finds a packet, nothing, or an empty buffer: of the buffers it moves past,
      those before the start of frame stay complete, the others are released. So it leaves some
      behind exactly if the first buffer of the window is neither a start of frame nor empty. */
  lemma {:induction false} SkippedStayComplete(sts: seq<Status>, head: nat)
    requires head < |sts|
    ensures var w, take := Window(sts, head), TakePacket(sts, head);
            var after, skip := Released(sts, take.idx), NextPacket(w).skip;
            && take.next == At(head, Moved(w), |sts|)
            && (forall j :: 0 <= j < Moved(w) ==> (Rotated(after, head)[j].cmplt <==> j < skip))
            && ((exists j :: 0 <= j < Moved(w) && Rotated(after, head)[j].cmplt) <==>
                w != [] && !w[0].sof && w[0].len > 0)
  {
    hide Window, Indices, NextPacket, Rotated, At, Released;
    var w, idx := Window(sts, head), TakePacket(sts, head).idx;
    var after, skip := Released(sts, idx), NextPacket(w).skip;
    NextIsAt(sts, head);
    forall j | 0 <= j < Moved(w) ensures Rotated(after, head)[j].cmplt <==> j < skip {
      RotatedAt(after, head, j);
      ReleasedHere(sts, head, j);
    }
    SkipIsFirst(w);
    if skip > 0 { assert Rotated(after, head)[0].cmplt; }
  }

  lemma {:induction false} NextIsAt(sts: seq<Status>, head: nat)
    requires head < |sts|
    ensures TakePacket(sts, head).next == At(head, Moved(Window(sts, head)), |sts|)
  {
    hide Window, NextPacket;
  }

  /** A buffer of the window that a look moves past is released exactly if it was not skipped. */
  lemma {:induction false} ReleasedHere(sts: seq<Status>, head: nat, j: nat)
    requires head < |sts| && j < Moved(Window(sts, head))
    ensures Released(sts, TakePacket(sts, head).idx)[At(head, j, |sts|)].cmplt
            <==> j < NextPacket(Window(sts, head)).skip
  {
    hide Window, NextPacket, At;
    var w := Window(sts, head);
    WindowFacts(sts, head);
    assert w[j].cmplt;
    TakenIs(sts, head, j);
  }

  /** The ring index of window position j is taken exactly if j lies within the packet. */
  lemma {:induction false} TakenIs(sts: seq<Status>, head: nat, j: nat)
    requires head < |sts| && j < |sts|
    ensures var f := NextPacket(Window(sts, head));
            At(head, j, |sts|) in TakePacket(sts, head).idx <==> f.Packet? && f.skip <= j < f.end
  {
    hide Window, NextPacket, At, Indices;
    var f := NextPacket(Window(sts, head));
    if f.Packet? { InIndicesFrom(head, f.skip, f.end, |sts|, j); }
  }

  lemma {:induction false} SkipIsFirst(w: seq<Status>)
    ensures NextPacket(w).skip > 0 <==> w != [] && !w[0].sof && w[0].len > 0
  {
    if w != [] {
      assert IsSof(w[0]) <==> w[0].sof;
      assert IsEmpty(w[0]) <==> w[0].len == 0;
    }
  }

  /** Positions s to e are the first packet: s is the first start of frame, e the first end of
      frame from there on, and no buffer up to e is empty. */
  ghost predicate Span(w: seq<Status>, s: nat, e: nat) {
    && s <= e < |w| && w[s].sof && w[e].eof
    && (forall k :: 0 <= k < s ==> !w[k].sof) && (forall k :: s <= k < e ==> !w[k].eof)
    && (forall k :: 0 <= k <= e ==> w[k].len > 0)
  }

  /** For any flags and lengths, the packet that a look takes is the span. */
  lemma {:induction false} PacketIsSpan(w: seq<Status>, s: nat, e: nat)
    ensures NextPacket(w) == Packet(s, e + 1) <==> Span(w, s, e)
  {
    var d := FirstFrom(w, IsSof, 0);
    var f := FirstFrom(w, IsEof, d);
    var z := FirstFrom(w, IsEmpty, 0);
    if Span(w, s, e) {
      FirstUnique(w, IsSof, s);
      assert f <= e ==> IsEof(w[f]) && !(s <= f < e);
      assert f > e ==> !IsEof(w[e]);
      assert z <= e ==> IsEmpty(w[z]);
    } else if NextPacket(w) == Packet(s, e + 1) {
      SpanOfPacket(w, s, e);
    }
  }

  lemma {:induction false} SpanOfPacket(w: seq<Status>, s: nat, e: nat)
    requires NextPacket(w) == Packet(s, e + 1)
    ensures Span(w, s, e)
  {
    assert forall k :: 0 <= k < s ==> !IsSof(w[k]);
    assert forall k :: s <= k < e ==> !IsEof(w[k]);
    assert forall k :: 0 <= k <= e ==> !IsEmpty(w[k]);
    assert IsSof(w[s]) && IsEof(w[e]);
  }

  /** A look throws exactly if the window holds an empty buffer and no packet ends before it. */
  lemma {:induction false} ThrowsIffEmptyFirst(w: seq<Status>)
    ensures NextPacket(w).EmptyBuffer? <==>
            exists z :: 0 <= z < |w| && w[z].len == 0 && forall s: nat, e: nat :: e < z ==> !Span(w, s, e)
  {
    hide Span, NextPacket;
    if NextPacket(w).Packet? {
      var s, e := NextPacket(w).skip, NextPacket(w).end - 1;
      PacketIsSpan(w, s, e);
      SpanNotEmpty(w, s, e);
    } else if NextPacket(w).EmptyBuffer? {
      EmptyIsFirst(w);
      forall s: nat, e: nat ensures !Span(w, s, e) { PacketIsSpan(w, s, e); }
    } else {
      NoPacketMeans(w);
    }
  }

  lemma {:induction false} SpanNotEmpty(w: seq<Status>, s: nat, e: nat)
    requires Span(w, s, e)
    ensures forall z :: 0 <= z < |w| && w[z].len == 0 ==> e < z
  {
  }

  lemma {:induction false} EmptyIsFirst(w: seq<Status>)
    requires NextPacket(w).EmptyBuffer?
    ensures var f := NextPacket(w);
            && w[f.at].len == 0 && (forall k :: 0 <= k < f.at ==> w[k].len > 0)
            && (forall k :: 0 <= k < f.skip ==> !w[k].sof) && f.skip <= f.at
            && (f.skip < f.at ==> w[f.skip].sof) && (forall k :: f.skip <= k < f.at ==> !w[k].eof)
  {
    var d := FirstFrom(w, IsSof, 0);
    var z := FirstFrom(w, IsEmpty, 0);
    assert IsEmpty(w[z]) && forall k :: 0 <= k < z ==> !IsEmpty(w[k]);
    assert forall k :: 0 <= k < d ==> !IsSof(w[k]);
    assert d < |w| ==> IsSof(w[d]);
    assert forall k :: d <= k < FirstFrom(w, IsEof, d) ==> !IsEof(w[k]);
  }

  /** In stream mode a look takes the whole window, in order; but if a buffer in it is empty, the
      look throws, with the read index moved up to the first such buffer. */
  lemma {:induction false} StreamLookMeans(sts: seq<Status>, head: nat)
    requires head < |sts|
    ensures var w, take := Window(sts, head), TakeAll(sts, head);
            && (take.ok <==> forall k :: 0 <= k < |w| ==> w[k].len > 0)
            && (take.ok ==>
                  |take.idx| == |w| && (forall k :: 0 <= k < |w| ==> take.idx[k] == At(head, k, |sts|))
                  && take.next == At(head, |w|, |sts|))
            && (!take.ok ==>
                  take.idx == []
                  && exists z :: 0 <= z < |w| && w[z].len == 0 && (forall k :: 0 <= k < z ==> w[k].len > 0)
                                 && take.next == At(head, z, |sts|))
  {
    hide Window;
    var w := Window(sts, head);
    var z := FirstFrom(w, IsEmpty, 0);
    assert forall k :: 0 <= k < z ==> !IsEmpty(w[k]);
    assert z < |w| ==> IsEmpty(w[z]) && TakeAll(sts, head).next == At(head, z, |sts|);
  }

  /** A look takes the buffer at window position j exactly if the first start of frame lies at or
      before it, no end of frame lies between, one follows, and no buffer up to there is empty. */
  lemma {:induction false} TakenIffInSpan(sts: seq<Status>, head: nat, j: nat)
    requires head < |sts| && j < |Window(sts, head)|
    ensures At(head, j, |sts|) in TakePacket(sts, head).idx <==>
            exists s: nat, e: nat :: s <= j <= e && Span(Window(sts, head), s, e)
  {
    hide Window, NextPacket, At, Span, TakePacket;
    var w := Window(sts, head);
    TakenIs(sts, head, j);
    var f := NextPacket(w);
    if f.Packet? && f.skip <= j < f.end {
      PacketIsSpan(w, f.skip, f.end - 1);
    }
    forall s: nat, e: nat | s <= j <= e && Span(w, s, e) ensures f.Packet? && f.skip <= j < f.end {
      PacketIsSpan(w, s, e);
    }
  }

  /** So a buffer without start of frame, such as one passed over before, is delivered by a later
      look exactly as a part of a packet that started in front of it. */
  lemma {:induction false} LateIffBehindStart(sts: seq<Status>, head: nat, j: nat)
    requires head < |sts| && j < |Window(sts, head)| && !Window(sts, head)[j].sof
    ensures At(head, j, |sts|) in TakePacket(sts, head).idx <==>
            exists s: nat, e: nat :: s < j <= e && Span(Window(sts, head), s, e)
  {
    hide Window, NextPacket, At, TakePacket;
    var w := Window(sts, head);
    TakenIffInSpan(sts, head, j);
    forall s: nat, e: nat | s <= j <= e && Span(w, s, e) ensures s < j {
      assert w[s].sof;
    }
  }

  /** What happens to the ring: a look that takes and releases a packet, or a completion by the
      engine, which writes free descriptors only. */
  datatype Event = Look | Complete(i: nat, st: Status)

  datatype RingState = RingState(sts: seq<Status>, head: nat)

  function After(r: RingState, ev: Event): (t: RingState)
    requires r.head < |r.sts|
    ensures |t.sts| == |r.sts| && t.head < |t.sts|
  {
    match ev
    case Look =>
      TakeFacts(true, r.sts, r.head);
      var take := TakePacket(r.sts, r.head);
      RingState(Released(r.sts, take.idx), take.next)
    case Complete(i, st) =>
      if i < |r.sts| && !r.sts[i].cmplt then r.(sts := r.sts[i := st]) else r
  }

  function AfterAll(r: RingState, evs: seq<Event>): (t: RingState)
    requires r.head < |r.sts|
    decreases |evs|
  {
    if evs == [] then r else AfterAll(After(r, evs[0]), evs[1..])
  }

  /** Descriptor i is complete with the same status all the time. */
  ghost predicate HeldThroughout(r: RingState, evs: seq<Event>, i: nat)
    requires r.head < |r.sts| && i < |r.sts|
    decreases |evs|
  {
    evs == [] || (After(r, evs[0]).sts[i] == r.sts[i] && HeldThroughout(After(r, evs[0]), evs[1..], i))
  }

  /** Some look takes it. */
  ghost predicate EverTaken(r: RingState, evs: seq<Event>, i: nat)
    requires r.head < |r.sts|
    decreases |evs|
  {
    evs != [] && ((evs[0].Look? && i in TakePacket(r.sts, r.head).idx) || EverTaken(After(r, evs[0]), evs[1..], i))
  }

  /** Over any run of looks and completions, a completed descriptor keeps its status until a look
      takes it, and no longer: the engine gets a buffer that was passed over back exactly if a
      later packet swallows it. */
  lemma {:induction false} HeldUntilTaken(r: RingState, evs: seq<Event>, i: nat)
    requires r.head < |r.sts| && i < |r.sts| && r.sts[i].cmplt
    ensures HeldThroughout(r, evs, i) <==> !EverTaken(r, evs, i)
    decreases |evs|
  {
    if evs != [] {
      hide TakePacket, After;
      OneEvent(r, evs[0], i);
      if After(r, evs[0]).sts[i] == r.sts[i] { HeldUntilTaken(After(r, evs[0]), evs[1..], i); }
    }
  }

  lemma {:induction false} OneEvent(r: RingState, ev: Event, i: nat)
    requires r.head < |r.sts| && i < |r.sts| && r.sts[i].cmplt
    ensures After(r, ev).sts[i] == r.sts[i] <==> !(ev.Look? && i in TakePacket(r.sts, r.head).idx)
  {
    hide TakePacket;
  }

  /** A completed one-byte buffer with these flags. */
  function Flagged(sof: bool, eof: bool): Status {
    Status(1, eof, sof, false, false, false, true)
  }

  const EMPTY := Status(0, false, false, false, false, false, false)

  /** On a ring with room to spare, a packet that reaches the end of the ring without its end of
      frame is completed by an older buffer that was passed over at the start of the ring. */
  lemma {:induction false} LateTail(sts: seq<Status>)
    requires |sts| >= 3 && sts[0] == Flagged(false, true) && !sts[1].cmplt
    requires sts[|sts| - 1] == Flagged(true, false)
    ensures Window(sts, |sts| - 1) == [Flagged(true, false), Flagged(false, true)]
    ensures TakePacket(sts, |sts| - 1) == Taken([|sts| - 1, 0], 1, true)
  {
    var n, w := |sts|, [Flagged(true, false), Flagged(false, true)];
    WrapAt(n);
    LateWindow(sts);
    PacketIsSpan(w, 0, 1);
    assert Indices(n - 1, 0, 2, n) == [n - 1, 0];
  }

  lemma {:induction false} WrapAt(n: nat)
    requires n >= 3
    ensures At(n - 1, 0, n) == n - 1 && At(n - 1, 1, n) == 0 && At(n - 1, 2, n) == 1
  {
    ModUnique(n, n, 1, 0);
    ModUnique(n + 1, n, 1, 1);
  }

  lemma {:induction false} LateWindow(sts: seq<Status>)
    requires |sts| >= 3 && sts[0] == Flagged(false, true) && !sts[1].cmplt
    requires sts[|sts| - 1] == Flagged(true, false)
    ensures Window(sts, |sts| - 1) == [Flagged(true, false), Flagged(false, true)]
  {
    hide Window, At;
    WrapAt(|sts|);
    WindowUnique(sts, |sts| - 1, [Flagged(true, false), Flagged(false, true)]);
  }

  /** Such a ring comes about, and the old buffer is then delivered and given back: in a ring of
      three, an end of frame without start is passed over, a packet of one buffer comes and goes,
      and the next packet wraps around before its end. */
  lemma {:induction false} LateTailHappens()
    ensures var r := RingState([Flagged(false, true), EMPTY, EMPTY], 0);
            var evs := [Look, Complete(1, Flagged(true, true)), Look, Complete(2, Flagged(true, false))];
            var late := AfterAll(r, evs);
            && NextPacket(Window(r.sts, 0)) == NoPacket(1)
            && late.sts[0] == r.sts[0] && |Window(late.sts, late.head)| < |late.sts|
            && TakePacket(late.sts, late.head).idx == [2, 0]
            && !After(late, Look).sts[0].cmplt
  {
    hide Window, NextPacket, TakePacket, Indices;
    var e, p, s := Flagged(false, true), Flagged(true, true), Flagged(true, false);
    var r := RingState([e, EMPTY, EMPTY], 0);
    var evs := [Look, Complete(1, p), Look, Complete(2, s)];
    var r4 := RingState([e, p.(cmplt := false), s], 2);
    PassedOver();
    OneTaken();
    LateTail(r4.sts);
    assert Released(r.sts, []) == r.sts;
    assert Released([e, p, EMPTY], [1]) == [e, p.(cmplt := false), EMPTY];
    assert AfterAll(r, evs) == r4 by {
      assert evs[1..] == [Complete(1, p), Look, Complete(2, s)];
      assert evs[1..][1..] == [Look, Complete(2, s)];
      assert evs[1..][1..][1..] == [Complete(2, s)];
      assert evs[1..][1..][1..][1..] == [];
      assert After(r, Look) == r.(head := 1);
      assert After(r.(head := 1), Complete(1, p)) == RingState([e, p, EMPTY], 1);
      assert After(RingState([e, p, EMPTY], 1), Look) == RingState([e, p.(cmplt := false), EMPTY], 2);
    }
  }

  lemma {:induction false} PassedOver()
    ensures var sts := [Flagged(false, true), EMPTY, EMPTY];
            NextPacket(Window(sts, 0)) == NoPacket(1) && TakePacket(sts, 0) == Taken([], 1, true)
  {
    var sts, w := [Flagged(false, true), EMPTY, EMPTY], [Flagged(false, true)];
    WindowUnique(sts, 0, w);
    assert FirstFrom(w, IsSof, 0) == 1 && FirstFrom(w, IsEmpty, 0) == 1;
  }

  lemma {:induction false} OneTaken()
    ensures TakePacket([Flagged(false, true), Flagged(true, true), EMPTY], 1) == Taken([1], 2, true)
  {
    var sts, w := [Flagged(false, true), Flagged(true, true), EMPTY], [Flagged(true, true)];
    WindowUnique(sts, 1, w);
    PacketIsSpan(w, 0, 0);
    assert Indices(1, 0, 1, 3) == [1];
  }

  /** When the look for a packet finds none after passing over d buffers, the window ahead of the
      moved read index is the rest of the window; on a full ring the buffers passed over follow
      it, because they are still complete. */
  lemma {:induction false} WindowAfterSkip(sts: seq<Status>, head: nat, d: nat)
    requires head < |sts| && d <= |Window(sts, head)|
    ensures var w, again := Window(sts, head), Window(sts, At(head, d, |sts|));
            again == if |w| == |sts| then w[d..] + w[..d] else w[d..]
  {
    hide Window, At;
    var n, w, at := |sts|, Window(sts, head), At(head, d, |sts|);
    WindowFacts(sts, head);
    var again := if |w| == n then w[d..] + w[..d] else w[d..];
    forall j | 0 <= j < |again| ensures again[j] == sts[At(at, j, n)] && again[j].cmplt {
      AtAgain(head, d, j, n);
      if j >= |w| - d {
        AtTurn(head, d + j - n, n);
        assert again[j] == w[d + j - n];
      } else {
        assert again[j] == w[d + j];
      }
    }
    if |w| < n { AtAgain(head, d, |w| - d, n); }
    WindowUnique(sts, at, again);
  }

  /** On an unchanged ring a look that finds no packet is not always the last word: a second look
      finds one exactly if the ring is full, a start of frame was seen, and an end of frame lies
      among the buffers passed over. The packet found then ends with those older buffers. */
  lemma {:induction false} LookTwice(sts: seq<Status>, head: nat)
    requires head < |sts| && NextPacket(Window(sts, head)).NoPacket?
    ensures var w, d := Window(sts, head), NextPacket(Window(sts, head)).skip;
            TakePacket(sts, TakePacket(sts, head).next).idx != [] <==>
              |w| == |sts| && d < |w| && exists j :: 0 <= j < d && w[j].eof
  {
    hide Window;
    var n, w := |sts|, Window(sts, head);
    var d := NextPacket(w).skip;
    WindowAfterSkip(sts, head, d);
    NoPacketMeans(w);
    var again := Window(sts, At(head, d, n));
    SecondLook(w, d, again, n);
  }

  lemma {:induction false} NoPacketMeans(w: seq<Status>)
    requires NextPacket(w).NoPacket?
    ensures var d := NextPacket(w).skip;
            && (forall j :: 0 <= j < |w| ==> w[j].len > 0)
            && (forall j :: 0 <= j < d ==> !w[j].sof) && (forall j :: d <= j < |w| ==> !w[j].eof)
            && (d < |w| ==> w[d].sof)
  {
    var d := NextPacket(w).skip;
    assert forall j :: 0 <= j < |w| ==> !IsEmpty(w[j]);
    assert forall j :: 0 <= j < d ==> !IsSof(w[j]);
    assert forall j :: d <= j < |w| ==> !IsEof(w[j]);
  }

  lemma {:induction false} SecondLook(w: seq<Status>, d: nat, again: seq<Status>, n: nat)
    requires d <= |w| && |w| <= n
    requires again == if |w| == n then w[d..] + w[..d] else w[d..]
    requires forall j :: 0 <= j < |w| ==> w[j].len > 0
    requires forall j :: 0 <= j < d ==> !w[j].sof
    requires forall j :: d <= j < |w| ==> !w[j].eof
    requires d < |w| ==> w[d].sof
    ensures NextPacket(again).Packet? <==> |w| == n && d < |w| && exists j :: 0 <= j < d && w[j].eof
  {
    forall j | 0 <= j < |again|
      ensures !IsEmpty(again[j]) && again[j] == if j < |w| - d then w[d + j] else w[d + j - |w|]
    {
    }
    var f := FirstFrom(again, IsSof, 0);
    var e := FirstFrom(again, IsEof, f);
    if d < |w| {
      FirstUnique(again, IsSof, 0);
      if e < |again| { assert w[e + d - |w|].eof; }
      if |w| == n && exists j :: 0 <= j < d && w[j].eof {
        var j :| 0 <= j < d && w[j].eof;
        assert IsEof(again[|w| - d + j]);
      }
    }
  }
}
