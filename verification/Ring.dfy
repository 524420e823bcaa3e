/** What the ring operations mean, over values: the run of completed buffers ahead of the
    read index, the packet splitter, and the stream of packets a run of buffers carries. */
module Ring {
  import opened Words
  import opened Modular
  import opened Descriptor

  /** The least index from i on where p holds, |w| if there is none. */
  function FirstFrom<T>(w: seq<T>, p: T -> bool, i: nat): (r: nat)
    requires i <= |w|
    ensures i <= r <= |w|
    ensures forall j :: i <= j < r ==> !p(w[j])
    ensures r < |w| ==> p(w[r])
    decreases |w| - i
  {
    if i == |w| || p(w[i]) then i else FirstFrom(w, p, i + 1)
  }

  lemma {:induction false} FirstUnique<T>(w: seq<T>, p: T -> bool, k: nat)
    requires k < |w| && p(w[k]) && forall j :: 0 <= j < k ==> !p(w[j])
    ensures FirstFrom(w, p, 0) == k
  {
  }

  predicate IsFree(st: Status) { !st.cmplt }
  predicate IsSof(st: Status) { st.sof }
  predicate IsEof(st: Status) { st.eof }
  predicate IsEmpty(st: Status) { st.len == 0 }

  /** The ring index j places after head. */
  function At(head: nat, j: nat, n: nat): (r: nat)
    requires n > 0
    ensures r < n
  {
    (head + j) % n
  }

  /** The statuses in ring order from head. */
  function Rotated(sts: seq<Status>, head: nat): (r: seq<Status>)
    requires sts == [] || head < |sts|
    ensures |r| == |sts|
  {
    seq(|sts|, j requires 0 <= j < |sts| => sts[(head + j) % |sts|])
  }

  lemma {:induction false} RotatedAt(sts: seq<Status>, head: nat, j: nat)
    requires head < |sts| && j < |sts|
    ensures Rotated(sts, head)[j] == sts[At(head, j, |sts|)]
  {
  }

  /** The run of completed descriptors that starts at head, at most one full turn of the ring. */
  function Window(sts: seq<Status>, head: nat): (w: seq<Status>)
    requires sts == [] || head < |sts|
    ensures |w| <= |sts|
  {
    var r := Rotated(sts, head);
    r[..FirstFrom(r, IsFree, 0)]
  }

  /** Ring indices of window positions a up to b. */
  function Indices(head: nat, a: nat, b: nat, n: nat): (r: seq<nat>)
    requires a <= b && n > 0
    ensures |r| == b - a
    ensures forall j :: 0 <= j < b - a ==> r[j] == (head + a + j) % n
  {
    seq(b - a, j requires 0 <= j => (head + a + j) % n)
  }

  lemma {:induction false} IndicesGrow(head: nat, a: nat, b: nat, n: nat)
    requires a <= b && n > 0
    ensures Indices(head, a, b + 1, n) == Indices(head, a, b, n) + [(head + b) % n]
    ensures ((head + b) % n + 1) % n == (head + b + 1) % n
  {
    ModAdd(n, head + b, 1);
  }

  /** What one look for a packet in a window finds: window positions skip..end hold a packet,
      or no packet is complete, or a completed buffer is empty; skip is the number of leading
      buffers dropped for lack of a start-of-frame flag. */
  datatype Found = Packet(skip: nat, end: nat) | NoPacket(skip: nat) | EmptyBuffer(skip: nat, at: nat)

  /** The packet splitter, for arbitrary flags and lengths. */
  function NextPacket(w: seq<Status>): (r: Found)
    ensures r.skip <= |w|
    ensures r.Packet? ==> r.skip < r.end <= |w|
    ensures r.EmptyBuffer? ==> r.skip <= r.at < |w|
  {
    var d := FirstFrom(w, IsSof, 0);
    var e := FirstFrom(w, IsEof, d);
    var z := FirstFrom(w, IsEmpty, 0);
    if z < |w| && z <= e then EmptyBuffer(if z < d then z else d, z)
    else if e < |w| then Packet(d, e + 1)
    else NoPacket(d)
  }

  /** What a look at the ring takes: the indices of the buffers to read and the new read index;
      not ok when an empty buffer stops it. */
  datatype Taken = Taken(idx: seq<nat>, next: nat, ok: bool)

  /** One packet, atomically. */
  function TakePacket(sts: seq<Status>, head: nat): (r: Taken)
    requires head < |sts|
  {
    match NextPacket(Window(sts, head))
    case Packet(d, e) => Taken(Indices(head, d, e, |sts|), (head + e) % |sts|, true)
    case NoPacket(d) => Taken([], (head + d) % |sts|, true)
    case EmptyBuffer(d, _) => Taken([], (head + d) % |sts|, false)
  }

  /** All completed buffers, atomically. */
  function TakeAll(sts: seq<Status>, head: nat): (r: Taken)
    requires head < |sts|
  {
    var w := Window(sts, head);
    var z := FirstFrom(w, IsEmpty, 0);
    if z < |w| then Taken([], (head + z) % |sts|, false)
    else Taken(Indices(head, 0, |w|, |sts|), (head + |w|) % |sts|, true)
  }

  /** A completed buffer: its status word and the bytes it holds. */
  datatype Buf = Buf(st: Status, bytes: seq<byte>)

  predicate EndsFrame(b: Buf) { b.st.eof }

  function Statuses(bufs: seq<Buf>): (r: seq<Status>)
    ensures |r| == |bufs|
  {
    seq(|bufs|, j requires 0 <= j < |bufs| => bufs[j].st)
  }

  /** All bytes of a run of buffers. */
  function Flat(bufs: seq<Buf>): seq<byte> {
    if bufs == [] then [] else bufs[0].bytes + Flat(bufs[1..])
  }

  function Join(chunks: seq<seq<byte>>): seq<byte> {
    if chunks == [] then [] else chunks[0] + Join(chunks[1..])
  }

  /** The payloads of the packets that are complete in bufs, in order. */
  function Packets(bufs: seq<Buf>): seq<seq<byte>>
    decreases |bufs|
  {
    var e := FirstFrom(bufs, EndsFrame, 0);
    if e == |bufs| then [] else [Flat(bufs[..e + 1])] + Packets(bufs[e + 1..])
  }

  /** How many buffers belong to complete packets: the position after the last end-of-frame flag. */
  function Complete(bufs: seq<Buf>): (r: nat)
    ensures r <= |bufs|
    ensures r > 0 ==> EndsFrame(bufs[r - 1])
    ensures forall j :: r <= j < |bufs| ==> !EndsFrame(bufs[j])
  {
    if bufs == [] || EndsFrame(bufs[|bufs| - 1]) then |bufs| else Complete(bufs[..|bufs| - 1])
  }

  /** No packet is left open at the end. */
  predicate Closed(bufs: seq<Buf>) {
    bufs == [] || EndsFrame(bufs[|bufs| - 1])
  }

  ghost predicate HasEof(bufs: seq<Buf>) {
    exists j :: 0 <= j < |bufs| && EndsFrame(bufs[j])
  }

  /** Completed, non-empty buffers in which every packet starts with a start-of-frame flag. */
  ghost predicate WellFormed(bufs: seq<Buf>) {
    forall j :: 0 <= j < |bufs| ==>
      && bufs[j].st.cmplt && bufs[j].st.len == |bufs[j].bytes| > 0
      && (Closed(bufs[..j]) ==> bufs[j].st.sof)
  }

  lemma {:induction false} FlatAppend(a: seq<Buf>, b: seq<Buf>)
    ensures Flat(a + b) == Flat(a) + Flat(b)
  {
    if a == [] {
      assert a + b == b;
    } else {
      FlatAppend(a[1..], b);
      assert (a + b)[1..] == a[1..] + b && (a + b)[0] == a[0];
      assert Flat(a + b) == a[0].bytes + Flat((a + b)[1..]);
    }
  }

  lemma {:induction false} FlatSnoc(bufs: seq<Buf>, b: Buf)
    ensures Flat(bufs + [b]) == Flat(bufs) + b.bytes
  {
    FlatAppend(bufs, [b]);
    assert Flat([b]) == b.bytes + Flat([]);
  }

  lemma {:induction false} JoinAppend(a: seq<seq<byte>>, b: seq<seq<byte>>)
    ensures Join(a + b) == Join(a) + Join(b)
  {
    if a == [] {
      assert a + b == b;
    } else {
      JoinAppend(a[1..], b);
      assert (a + b)[1..] == a[1..] + b && (a + b)[0] == a[0];
      assert Join(a + b) == a[0] + Join((a + b)[1..]);
    }
  }

  /** A run without an end-of-frame flag carries no complete packet. */
  lemma {:induction false} NoEofNoPackets(bufs: seq<Buf>)
    requires !HasEof(bufs)
    ensures Packets(bufs) == []
  {
  }

  lemma {:induction false} OnePacket(bufs: seq<Buf>)
    requires bufs != [] && EndsFrame(bufs[|bufs| - 1]) && !HasEof(bufs[..|bufs| - 1])
    ensures Packets(bufs) == [Flat(bufs)]
  {
    var e := |bufs| - 1;
    assert forall j :: 0 <= j < e ==> bufs[..e][j] == bufs[j];
    FirstUnique(bufs, EndsFrame, e);
    assert bufs[..e + 1] == bufs && bufs[e + 1..] == [];
  }

  /** Packets never straddle a closed boundary. */
  lemma {:induction false} PacketsAppend(a: seq<Buf>, b: seq<Buf>)
    requires Closed(a)
    ensures Packets(a + b) == Packets(a) + Packets(b)
    decreases |a|
  {
    if a == [] {
      assert a + b == b;
    } else {
      var e := FirstFrom(a, EndsFrame, 0);
      assert a[|a| - 1] == (a + b)[|a| - 1];
      FirstUnique(a + b, EndsFrame, e);
      assert (a + b)[..e + 1] == a[..e + 1];
      assert (a + b)[e + 1..] == a[e + 1..] + b;
      PacketsAppend(a[e + 1..], b);
    }
  }

  lemma {:induction false} WellFormedRest(prod: seq<Buf>, lo: nat)
    requires WellFormed(prod) && lo <= |prod| && Closed(prod[..lo])
    ensures WellFormed(prod[lo..])
  {
    var r := prod[lo..];
    forall j | 0 <= j < |r|
      ensures r[j].st.cmplt && r[j].st.len == |r[j].bytes| > 0 && (Closed(r[..j]) ==> r[j].st.sof)
    {
      assert r[j] == prod[lo + j];
      if j > 0 {
        assert prod[..lo + j][lo + j - 1] == r[..j][j - 1];
      } else {
        assert prod[..lo + j] == prod[..lo];
      }
    }
  }

  /** On a well-formed run the splitter skips nothing and takes exactly the first packet. */
  lemma {:induction false} SplitterTakesFirstPacket(bufs: seq<Buf>)
    requires WellFormed(bufs)
    ensures NextPacket(Statuses(bufs)) ==
            var e := FirstFrom(bufs, EndsFrame, 0);
            if e < |bufs| then Packet(0, e + 1) else NoPacket(0)
  {
    var w := Statuses(bufs);
    var e := FirstFrom(bufs, EndsFrame, 0);
    forall j | 0 <= j < |bufs| ensures !IsEmpty(w[j]) && IsEof(w[j]) == EndsFrame(bufs[j]) {
    }
    if bufs != [] {
      assert Closed(bufs[..0]);
      FirstUnique(w, IsSof, 0);
    }
    if e < |bufs| {
      FirstUnique(w, IsEof, e);
    }
  }

  lemma {:induction false} CompleteRest(bufs: seq<Buf>, e: nat)
    requires e < |bufs| && EndsFrame(bufs[e])
    ensures Complete(bufs) == e + 1 + Complete(bufs[e + 1..])
  {
    var rest, c := bufs[e + 1..], Complete(bufs);
    var r := Complete(rest);
    assert c > e;
    assert forall j :: 0 <= j < |rest| ==> rest[j] == bufs[e + 1 + j];
    assert c == e + 1 || EndsFrame(rest[c - e - 2]);
    assert r == 0 || EndsFrame(bufs[e + r]);
  }

  lemma {:induction false} NoPacketsJoin()
    ensures Join([]) == [] && Flat([]) == []
  {
  }

  /** Packet mode and stream mode agree: the packets, joined, are the bytes of the longest
      prefix of the run that ends with an end-of-frame flag. */
  lemma {:induction false} PacketsJoin(bufs: seq<Buf>)
    ensures Join(Packets(bufs)) == Flat(bufs[..Complete(bufs)])
    decreases |bufs|
  {
    hide Flat, Complete, Packets, Join;
    var e := FirstFrom(bufs, EndsFrame, 0);
    FirstPacket(bufs, e);
    if e == |bufs| {
      NoPacketsJoin();
    } else {
      var rest := bufs[e + 1..];
      CompleteRest(bufs, e);
      PacketsJoin(rest);
      JoinFirst(Flat(bufs[..e + 1]), Packets(rest));
      FlatAppend(bufs[..e + 1], rest[..Complete(rest)]);
      assert bufs[..Complete(bufs)] == bufs[..e + 1] + rest[..Complete(rest)];
    }
  }

  lemma {:induction false} FirstPacket(bufs: seq<Buf>, e: nat)
    requires e == FirstFrom(bufs, EndsFrame, 0)
    ensures if e == |bufs| then Packets(bufs) == [] && Complete(bufs) == 0
            else Packets(bufs) == [Flat(bufs[..e + 1])] + Packets(bufs[e + 1..])
  {
    hide Flat;
  }

  lemma {:induction false} JoinFirst(x: seq<byte>, rest: seq<seq<byte>>)
    ensures Join([x] + rest) == x + Join(rest)
  {
    assert ([x] + rest)[1..] == rest;
  }

  /** What stream mode drains is what packet mode drains, then the unfinished tail, which
      holds no complete packet. */
  lemma {:induction false} ModesAgree(bufs: seq<Buf>)
    ensures Flat(bufs) == Join(Packets(bufs)) + Flat(bufs[Complete(bufs)..])
    ensures Packets(bufs[Complete(bufs)..]) == []
    ensures Packets(bufs) == Packets(bufs[..Complete(bufs)])
  {
    var c := Complete(bufs);
    var a, b := bufs[..c], bufs[c..];
    assert !HasEof(b) && Closed(a);
    PacketsJoin(bufs);
    NoEofNoPackets(b);
    SplitAt(bufs, c);
  }

  lemma {:induction false} SplitAt(bufs: seq<Buf>, c: nat)
    requires c <= |bufs|
    ensures Flat(bufs) == Flat(bufs[..c]) + Flat(bufs[c..])
    ensures Closed(bufs[..c]) ==> Packets(bufs) == Packets(bufs[..c]) + Packets(bufs[c..])
  {
    assert bufs == bufs[..c] + bufs[c..];
    FlatAppend(bufs[..c], bufs[c..]);
    if Closed(bufs[..c]) {
      PacketsAppend(bufs[..c], bufs[c..]);
    }
  }
}
