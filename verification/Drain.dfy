/** Draining the ring, over values: what repeated looks at it take and leave. */
module Draining {
  import opened Words
  import opened Modular
  import opened Descriptor
  import opened Ring
  import opened Sgdma

  type Block = seq<byte>

  /** What a drain of the given completed buffers hands to process_data: each complete packet,
      or, in stream mode, everything at once. */
  function Blocks(packets: bool, bufs: seq<Buf>): seq<Block> {
    if packets then Packets(bufs) else if bufs == [] then [] else [Flat(bufs)]
  }

  /** How many buffers such a drain consumes. */
  function Consumed(packets: bool, bufs: seq<Buf>): (r: nat)
    ensures r <= |bufs|
  {
    if packets then Complete(bufs) else |bufs|
  }

  /** The completed buffers ahead of the read index, with their bytes. */
  function WindowBufs(sts: seq<Status>, head: nat, data: seq<byte>, bufSize: nat): (r: seq<Buf>)
    requires sts == [] || head < |sts|
  {
    if sts == [] then [] else BufsOf(sts, data, bufSize, Indices(head, 0, |Window(sts, head)|, |sts|))
  }

  /** The ring after the first e buffers of its window were released. */
  function ReleasedTo(sts: seq<Status>, head: nat, e: nat): (r: seq<Status>)
    requires head < |sts|
    ensures |r| == |sts|
  {
    Released(sts, Indices(head, 0, e, |sts|))
  }

  lemma {:induction false} AtAgain(head: nat, e: nat, j: nat, n: nat)
    requires n > 0
    ensures At(At(head, e, n), j, n) == At(head, e + j, n)
  {
    ModAdd(n, head + e, j);
  }

  lemma {:induction false} AtTurn(head: nat, j: nat, n: nat)
    requires n > 0
    ensures At(head, j + n, n) == At(head, j, n)
  {
    ModTurn(n, head + j);
  }

  /** A window is determined by where its completed run stops. */
  lemma {:induction false} WindowUnique(sts: seq<Status>, head: nat, w: seq<Status>)
    requires head < |sts| && |w| <= |sts|
    requires forall j :: 0 <= j < |w| ==> w[j] == sts[At(head, j, |sts|)] && w[j].cmplt
    requires |w| < |sts| ==> !sts[At(head, |w|, |sts|)].cmplt
    ensures Window(sts, head) == w
  {
    hide Rotated, At;
    var r := Rotated(sts, head);
    forall j | 0 <= j < |w| ensures r[j] == w[j] { RotatedAt(sts, head, j); }
    if |w| < |r| {
      RotatedAt(sts, head, |w|);
      FirstUnique(r, IsFree, |w|);
    }
    assert r[..|w|] == w;
  }

  lemma {:induction false} WindowFacts(sts: seq<Status>, head: nat)
    requires head < |sts|
    ensures var w := Window(sts, head);
            && (forall j :: 0 <= j < |w| ==> w[j] == sts[At(head, j, |sts|)] && w[j].cmplt)
            && (|w| < |sts| ==> !sts[At(head, |w|, |sts|)].cmplt)
  {
    hide Rotated, At;
    var r, w := Rotated(sts, head), Window(sts, head);
    assert |w| < |r| ==> IsFree(r[|w|]);
    if |w| < |r| { RotatedAt(sts, head, |w|); }
    forall j | 0 <= j < |w| ensures w[j] == sts[At(head, j, |sts|)] && w[j].cmplt {
      RotatedAt(sts, head, j);
      assert w[j] == r[j] && !IsFree(r[j]);
    }
  }

  lemma {:induction false} ReleasedAt(sts: seq<Status>, head: nat, e: nat, j: nat)
    requires head < |sts| && e <= |sts| && j < |sts|
    ensures var i := At(head, j, |sts|);
            ReleasedTo(sts, head, e)[i] == if j < e then sts[i].(cmplt := false) else sts[i]
  {
    hide Indices, At;
    InIndicesFrom(head, 0, e, |sts|, j);
  }

  /** Released buffers leave the window, the rest of it stays as it is. */
  lemma {:induction false} WindowAfterRelease(sts: seq<Status>, head: nat, e: nat)
    requires head < |sts| && e <= |Window(sts, head)|
    ensures Window(ReleasedTo(sts, head, e), At(head, e, |sts|)) == Window(sts, head)[e..]
  {
    hide Window, ReleasedTo, At;
    var n, w := |sts|, Window(sts, head);
    WindowFacts(sts, head);
    forall j | 0 <= j < |w| - e
      ensures ReleasedTo(sts, head, e)[At(At(head, e, n), j, n)] == w[e..][j]
    {
      AtAgain(head, e, j, n);
      ReleasedAt(sts, head, e, e + j);
    }
    if |w| - e < n { WindowEnds(sts, head, e); }
    WindowUnique(ReleasedTo(sts, head, e), At(head, e, n), w[e..]);
  }

  /** Behind the rest of the window lies a free descriptor, or one just released. */
  lemma {:induction false} WindowEnds(sts: seq<Status>, head: nat, e: nat)
    requires head < |sts| && e <= |Window(sts, head)| && |Window(sts, head)| - e < |sts|
    ensures !ReleasedTo(sts, head, e)[At(At(head, e, |sts|), |Window(sts, head)| - e, |sts|)].cmplt
  {
    hide Window, ReleasedTo, At;
    var n, len := |sts|, |Window(sts, head)|;
    WindowFacts(sts, head);
    AtAgain(head, e, len - e, n);
    if len < n {
      ReleasedAt(sts, head, e, len);
    } else {
      AtTurn(head, 0, n);
      ReleasedAt(sts, head, e, 0);
    }
  }

  /** After the first e buffers were released, the buffers ahead are the rest of the window,
      wherever the ring wraps. */
  lemma {:induction false} BufsAfterRelease(sts: seq<Status>, head: nat, e: nat, data: seq<byte>, bufSize: nat)
    requires head < |sts| && e <= |WindowBufs(sts, head, data, bufSize)|
    ensures WindowBufs(ReleasedTo(sts, head, e), At(head, e, |sts|), data, bufSize)
            == WindowBufs(sts, head, data, bufSize)[e..]
  {
    hide Window, WindowBufs, ReleasedTo, At, BufOf;
    var n, len := |sts|, |WindowBufs(sts, head, data, bufSize)|;
    var sts', head' := ReleasedTo(sts, head, e), At(head, e, n);
    WindowBufsAt(sts, head, data, bufSize, 0);
    WindowAfterRelease(sts, head, e);
    WindowBufsAt(sts', head', data, bufSize, 0);
    var a, b := WindowBufs(sts', head', data, bufSize), WindowBufs(sts, head, data, bufSize)[e..];
    forall j | 0 <= j < len - e ensures a[j] == b[j] {
      WindowBufsAt(sts, head, data, bufSize, e + j);
      WindowBufsAt(sts', head', data, bufSize, j);
      AtAgain(head, e, j, n);
      ReleasedAt(sts, head, e, e + j);
    }
  }

  lemma {:induction false} WindowBufsAt(sts: seq<Status>, head: nat, data: seq<byte>, bufSize: nat, j: nat)
    requires head < |sts|
    ensures var bufs := WindowBufs(sts, head, data, bufSize);
            && |bufs| == |Window(sts, head)|
            && (j < |bufs| ==> bufs[j] == BufOf(data, bufSize, At(head, j, |sts|), sts[At(head, j, |sts|)]))
  {
    hide Window, Indices, BufOf;
  }

  lemma {:induction false} WindowStatuses(sts: seq<Status>, head: nat, data: seq<byte>, bufSize: nat)
    requires head < |sts|
    ensures Statuses(WindowBufs(sts, head, data, bufSize)) == Window(sts, head)
  {
    hide Window, Indices;
    WindowFacts(sts, head);
  }

  /** How many buffers make up the first block of a window; zero if there is none. */
  function FirstBlock(packets: bool, bufs: seq<Buf>): (len: nat)
    ensures len <= |bufs|
  {
    var e := FirstFrom(bufs, EndsFrame, 0);
    if !packets then |bufs| else if e < |bufs| then e + 1 else 0
  }

  /** What a look at a well-formed ring takes is the first block of the window. */
  lemma {:induction false} TakesFirstBlock(packets: bool, sts: seq<Status>, head: nat, data: seq<byte>, bufSize: nat)
    requires head < |sts| && WellFormed(WindowBufs(sts, head, data, bufSize))
    ensures var bufs := WindowBufs(sts, head, data, bufSize);
            var take := if packets then TakePacket(sts, head) else TakeAll(sts, head);
            var len := FirstBlock(packets, bufs);
            && take.ok && take.idx == Indices(head, 0, len, |sts|) && take.next == At(head, len, |sts|)
            && BufsOf(sts, data, bufSize, take.idx) == bufs[..len]
  {
    hide Window, NextPacket, WindowBufs, WellFormed;
    var bufs := WindowBufs(sts, head, data, bufSize);
    WindowStatuses(sts, head, data, bufSize);
    WindowPrefix(sts, head, data, bufSize);
    if packets {
      SplitterTakesFirstPacket(bufs);
      ModUnique(head + 0, |sts|, 0, head);
      assert Indices(head, 0, 0, |sts|) == [];
    } else {
      NoneEmpty(bufs);
    }
  }

  /** Taking block after block yields the blocks of the window, and what is left is well formed. */
  lemma {:induction false} BlocksStep(packets: bool, bufs: seq<Buf>)
    requires WellFormed(bufs)
    ensures var len := FirstBlock(packets, bufs);
            && WellFormed(bufs[len..])
            && (if len == 0 then Blocks(packets, bufs) == [] && Consumed(packets, bufs) == 0
                else Blocks(packets, bufs) == [Flat(bufs[..len])] + Blocks(packets, bufs[len..])
                     && Consumed(packets, bufs) == len + Consumed(packets, bufs[len..]))
  {
    hide Flat, Packets, Complete;
    var len := FirstBlock(packets, bufs);
    if packets {
      FirstBlockPacket(bufs);
      if len > 0 { assert bufs[..len][len - 1] == bufs[len - 1]; }
      WellFormedRest(bufs, len);
    } else {
      assert bufs[..len] == bufs && bufs[len..] == [];
    }
  }

  lemma {:induction false} NoneEmpty(bufs: seq<Buf>)
    requires WellFormed(bufs)
    ensures FirstFrom(Statuses(bufs), IsEmpty, 0) == |bufs|
  {
    var w := Statuses(bufs);
    assert forall j :: 0 <= j < |w| ==> w[j] == bufs[j].st && !IsEmpty(w[j]);
  }

  lemma {:induction false} WindowPrefix(sts: seq<Status>, head: nat, data: seq<byte>, bufSize: nat)
    requires head < |sts|
    ensures var bufs := WindowBufs(sts, head, data, bufSize);
            forall e :: 0 <= e <= |bufs| ==> BufsOf(sts, data, bufSize, Indices(head, 0, e, |sts|)) == bufs[..e]
  {
    hide Window;
    var bufs := WindowBufs(sts, head, data, bufSize);
    forall e | 0 <= e <= |bufs| ensures BufsOf(sts, data, bufSize, Indices(head, 0, e, |sts|)) == bufs[..e] {
      var idx := Indices(head, 0, e, |sts|);
      assert idx == Indices(head, 0, |bufs|, |sts|)[..e];
    }
  }

  lemma {:induction false} FirstBlockPacket(bufs: seq<Buf>)
    ensures var e := FirstFrom(bufs, EndsFrame, 0);
            if e == |bufs| then Packets(bufs) == [] && Complete(bufs) == 0
            else Packets(bufs) == [Flat(bufs[..e + 1])] + Packets(bufs[e + 1..])
                 && Complete(bufs) == e + 1 + Complete(bufs[e + 1..])
  {
    hide Flat;
    var e := FirstFrom(bufs, EndsFrame, 0);
    if e < |bufs| {
      CompleteRest(bufs, e);
    }
  }

  lemma {:induction false} InIndicesFrom(head: nat, a: nat, b: nat, n: nat, j: nat)
    requires n > 0 && a <= b <= n && j < n
    ensures At(head, j, n) in Indices(head, a, b, n) <==> a <= j < b
  {
    hide Indices;
    var idx := Indices(head, a, b, n);
    if a <= j < b {
      assert idx[j - a] == At(head, j, n);
    } else {
      forall k | 0 <= k < b - a ensures idx[k] != At(head, j, n) {
        if j < a { ModDistinct(n, head + j, head + a + k); } else { ModDistinct(n, head + a + k, head + j); }
      }
    }
  }

  lemma {:induction false} ReleasedNone(sts: seq<Status>, head: nat)
    requires head < |sts|
    ensures ReleasedTo(sts, head, 0) == sts && At(head, 0, |sts|) == head
  {
    assert Indices(head, 0, 0, |sts|) == [];
  }

  datatype Outcome = Done | IoError | DmaFault | ZeroLength | Overflow(lost: Block)

  /** One look at the ring, for a packet or for everything. */
  function TakeNext(packets: bool, sts: seq<Status>, head: nat): (r: Taken)
    requires if sts == [] then head == 0 else head < |sts|
  {
    if sts == [] then Taken([], 0, true) else if packets then TakePacket(sts, head) else TakeAll(sts, head)
  }

  /** How many descriptors are complete. */
  function Completed(sts: seq<Status>): (r: nat)
    ensures r <= |sts|
  {
    if sts == [] then 0 else (if sts[0].cmplt then 1 else 0) + Completed(sts[1..])
  }

  /** What a drain does: how it ends, the blocks it sends, and the ring it leaves. */
  datatype Drainage = Drainage(end: Outcome, sent: seq<Block>, sts: seq<Status>, next: nat)

  /** Look, copy out, release, send, for arbitrary flags and lengths, until a look takes nothing,
      an empty buffer makes it throw, or more than room blocks were to be sent. */
  function DrainAll(packets: bool, sts: seq<Status>, head: nat, data: seq<byte>, bufSize: nat, room: nat): (d: Drainage)
    requires if sts == [] then head == 0 else head < |sts|
    ensures |d.sts| == |sts| && (if sts == [] then d.next == 0 else d.next < |sts|)
    ensures |d.sent| <= room && (d.end.Done? || d.end.ZeroLength? || d.end.Overflow?)
    decreases Completed(sts)
  {
    TakeFacts(packets, sts, head);
    var take := TakeNext(packets, sts, head);
    if !take.ok then Drainage(ZeroLength, [], sts, take.next)
    else if take.idx == [] then Drainage(Done, [], sts, take.next)
    else
      var block := Flat(BufsOf(sts, data, bufSize, take.idx));
      var left := Released(sts, take.idx);
      if room == 0 then Drainage(Overflow(block), [], left, take.next)
      else
        var d := DrainAll(packets, left, take.next, data, bufSize, room - 1);
        d.(sent := [block] + d.sent)
  }

  /** One round of a drain, after the given blocks were sent. */
  lemma {:induction false} DrainRound(
    packets: bool, sts: seq<Status>, head: nat, data: seq<byte>, bufSize: nat, room: nat, sent: seq<Block>)
    requires if sts == [] then head == 0 else head < |sts|
    ensures var take, d := TakeNext(packets, sts, head), DrainAll(packets, sts, head, data, bufSize, room);
            && (if sts == [] then take.next == 0 else take.next < |sts|)
            && (forall k :: 0 <= k < |take.idx| ==> take.idx[k] < |sts|)
            && (if !take.ok then d == Drainage(ZeroLength, [], sts, take.next)
                else if take.idx == [] then d == Drainage(Done, [], sts, take.next)
                else
                  var block, left := Flat(BufsOf(sts, data, bufSize, take.idx)), Released(sts, take.idx);
                  if room == 0 then d == Drainage(Overflow(block), [], left, take.next)
                  else
                    var rest := DrainAll(packets, left, take.next, data, bufSize, room - 1);
                    && d.(sent := sent + d.sent) == rest.(sent := sent + [block] + rest.sent)
                    && Completed(left) < Completed(sts))
  {
    hide TakeNext, Completed, Released, BufsOf, Flat;
    TakeFacts(packets, sts, head);
    var take := TakeNext(packets, sts, head);
    if take.ok && take.idx != [] && room > 0 {
      var block := Flat(BufsOf(sts, data, bufSize, take.idx));
      var rest := DrainAll(packets, Released(sts, take.idx), take.next, data, bufSize, room - 1);
      assert sent + ([block] + rest.sent) == sent + [block] + rest.sent;
    }
  }

  /** A look takes only completed descriptors of the ring, so releasing them is progress. */
  lemma {:induction false} TakeFacts(packets: bool, sts: seq<Status>, head: nat)
    requires if sts == [] then head == 0 else head < |sts|
    ensures var take := TakeNext(packets, sts, head);
            && (if sts == [] then take.next == 0 else take.next < |sts|)
            && (forall k :: 0 <= k < |take.idx| ==> take.idx[k] < |sts| && sts[take.idx[k]].cmplt)
            && (take.idx != [] ==> Completed(Released(sts, take.idx)) < Completed(sts))
  {
    hide Completed, Window, Indices, Released;
    var take := TakeNext(packets, sts, head);
    if sts != [] {
      var w := Window(sts, head);
      WindowFacts(sts, head);
      var from := if packets && NextPacket(w).Packet? then NextPacket(w).skip else 0;
      forall k | 0 <= k < |take.idx| ensures take.idx[k] < |sts| && sts[take.idx[k]].cmplt {
        assert w[from + k].cmplt;
      }
      if take.idx != [] { ReleaseIsProgress(sts, take.idx); }
    }
  }

  lemma {:induction false} ReleaseIsProgress(sts: seq<Status>, idx: seq<nat>)
    requires idx != [] && idx[0] < |sts| && sts[idx[0]].cmplt
    ensures Completed(Released(sts, idx)) < Completed(sts)
  {
    CompletedMonotone(Released(sts, idx), sts, idx[0]);
  }

  lemma {:induction false} CompletedMonotone(a: seq<Status>, b: seq<Status>, i: nat)
    requires |a| == |b| && forall j :: 0 <= j < |a| ==> a[j].cmplt ==> b[j].cmplt
    ensures Completed(a) <= Completed(b)
    ensures i < |a| && !a[i].cmplt && b[i].cmplt ==> Completed(a) < Completed(b)
    decreases |a|
  {
    if a != [] {
      CompletedMonotone(a[1..], b[1..], if i > 0 then i - 1 else |a|);
    }
  }

  /** The same descriptors, some of them released. */
  ghost predicate OnlyReleases(before: seq<Status>, after: seq<Status>) {
    |before| == |after| && forall i :: 0 <= i < |before| ==>
      after[i] == before[i] || (before[i].cmplt && after[i] == before[i].(cmplt := false))
  }

  lemma {:induction false} ReleasesCompose(a: seq<Status>, b: seq<Status>, c: seq<Status>)
    requires OnlyReleases(a, b) && OnlyReleases(b, c)
    ensures OnlyReleases(a, c)
  {
  }

  lemma {:induction false} ReleasedOnly(sts: seq<Status>, idx: seq<nat>)
    requires forall k :: 0 <= k < |idx| ==> idx[k] < |sts| && sts[idx[k]].cmplt
    ensures OnlyReleases(sts, sts) && OnlyReleases(sts, Released(sts, idx))
  {
    forall i | 0 <= i < |sts| && i in idx ensures sts[i].cmplt {
      var k :| 0 <= k < |idx| && idx[k] == i;
    }
  }

  /** A drain of a quiet ring sends at most as many blocks as there are completed descriptors,
      and clears that many cmplt flags at least; it changes nothing else. */
  lemma {:induction false} DrainIsBounded(
    packets: bool, sts: seq<Status>, head: nat, data: seq<byte>, bufSize: nat, room: nat)
    requires if sts == [] then head == 0 else head < |sts|
    ensures var d := DrainAll(packets, sts, head, data, bufSize, room);
            |d.sent| + Completed(d.sts) <= Completed(sts) && OnlyReleases(sts, d.sts)
    decreases Completed(sts)
  {
    hide Completed, TakeNext, Flat, BufsOf, Released, OnlyReleases;
    TakeFacts(packets, sts, head);
    var take := TakeNext(packets, sts, head);
    ReleasedOnly(sts, take.idx);
    if take.ok && take.idx != [] && room > 0 {
      var left := Released(sts, take.idx);
      DrainIsBounded(packets, left, take.next, data, bufSize, room - 1);
      ReleasesCompose(sts, left, DrainAll(packets, left, take.next, data, bufSize, room - 1).sts);
    }
  }

  /** On a well-formed window a drain sends every block of it, in order, and leaves the unfinished
      tail ahead; if there is not room for all, it sends what fits and loses the next one, which is
      no longer in the ring either. */
  lemma {:induction false} DrainOfWellFormed(
    packets: bool, sts: seq<Status>, head: nat, data: seq<byte>, bufSize: nat, room: nat)
    requires if sts == [] then head == 0 else head < |sts|
    requires WellFormed(WindowBufs(sts, head, data, bufSize))
    ensures var bufs := WindowBufs(sts, head, data, bufSize);
            var blocks, d := Blocks(packets, bufs), DrainAll(packets, sts, head, data, bufSize, room);
            if |blocks| <= room then
              d.end == Done && d.sent == blocks
              && WindowBufs(d.sts, d.next, data, bufSize) == bufs[Consumed(packets, bufs)..]
            else
              d.end == Overflow(blocks[room]) && d.sent == blocks[..room]
              && Blocks(packets, WindowBufs(d.sts, d.next, data, bufSize)) == blocks[room + 1..]
    decreases Completed(sts)
  {
    hide Completed, TakeNext, Flat, WindowBufs, WellFormed, Released, BufsOf, Blocks, Consumed, FirstBlock;
    var bufs := WindowBufs(sts, head, data, bufSize);
    var len, take := FirstBlock(packets, bufs), TakeNext(packets, sts, head);
    TakeFacts(packets, sts, head);
    TakeRound(packets, sts, head, data, bufSize);
    BlocksStep(packets, bufs);
    assert bufs[0..] == bufs;
    if len > 0 && room > 0 {
      DrainOfWellFormed(packets, Released(sts, take.idx), take.next, data, bufSize, room - 1);
      var rest := bufs[len..];
      assert rest[Consumed(packets, rest)..] == bufs[len + Consumed(packets, rest)..];
    }
  }

  /** From the same state, what a drain in stream mode sends is what a drain in packet mode
      sends, joined, and then the bytes of the unfinished tail. */
  lemma {:induction false} DrainModesAgree(sts: seq<Status>, head: nat, data: seq<byte>, bufSize: nat, room: nat)
    requires if sts == [] then head == 0 else head < |sts|
    requires WellFormed(WindowBufs(sts, head, data, bufSize))
    requires |Packets(WindowBufs(sts, head, data, bufSize))| <= room && 1 <= room
    ensures var bufs := WindowBufs(sts, head, data, bufSize);
            Join(DrainAll(false, sts, head, data, bufSize, room).sent)
            == Join(DrainAll(true, sts, head, data, bufSize, room).sent) + Flat(bufs[Complete(bufs)..])
  {
    hide DrainAll, WindowBufs, WellFormed, Packets, Complete;
    var bufs := WindowBufs(sts, head, data, bufSize);
    DrainOfWellFormed(false, sts, head, data, bufSize, room);
    DrainOfWellFormed(true, sts, head, data, bufSize, room);
    ModesAgree(bufs);
    if bufs != [] { assert Join([Flat(bufs)]) == Flat(bufs) + Join([]); }
  }

  /** One round: what is taken is the first block, and releasing it leaves the rest ahead. */
  lemma {:induction false} TakeRound(packets: bool, sts: seq<Status>, head: nat, data: seq<byte>, bufSize: nat)
    requires if sts == [] then head == 0 else head < |sts|
    requires WellFormed(WindowBufs(sts, head, data, bufSize))
    ensures var bufs, take := WindowBufs(sts, head, data, bufSize), TakeNext(packets, sts, head);
            var len := FirstBlock(packets, bufs);
            && take.ok && (take.idx == [] <==> len == 0) && (len == 0 ==> take.next == head)
            && (forall k :: 0 <= k < |take.idx| ==> take.idx[k] < |sts|)
            && (if sts == [] then take.next == 0 else take.next < |sts|)
            && BufsOf(sts, data, bufSize, take.idx) == bufs[..len]
            && (len > 0 ==> WindowBufs(Released(sts, take.idx), take.next, data, bufSize) == bufs[len..])
  {
    hide Window, TakePacket, TakeAll, WellFormed, FirstBlock, At, Completed;
    var bufs, take := WindowBufs(sts, head, data, bufSize), TakeNext(packets, sts, head);
    var len := FirstBlock(packets, bufs);
    TakeFacts(packets, sts, head);
    if sts != [] {
      hide WindowBufs, BufsOf, Released;
      TakesFirstBlock(packets, sts, head, data, bufSize);
      BufsAfterRelease(sts, head, len, data, bufSize);
      ReleasedNone(sts, head);
    }
  }
}
