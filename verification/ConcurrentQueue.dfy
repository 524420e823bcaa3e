/** The bounded FIFO between the handler thread and its readers, as a monitor. */
module Queue {
  /** The state the mutex protects, and the abort flag. */
  datatype Fifo<T> = Fifo(items: seq<T>, abort: bool, cap: nat)

  /** What a thread does to the queue while it holds the mutex. A push into a full queue and a
      take from an empty one are allowed to happen and change nothing. */
  datatype Op<T> = Push(item: T) | Take | Abort

  function Apply<T>(q: Fifo<T>, op: Op<T>): Fifo<T> {
    match op
    case Push(x) => if |q.items| >= q.cap then q else q.(items := q.items + [x])
    case Take => if q.items == [] then q else q.(items := q.items[1..])
    case Abort => q.(abort := true)
  }

  function Run<T>(q: Fifo<T>, ops: seq<Op<T>>): Fifo<T>
    decreases |ops|
  {
    if ops == [] then q else Run(Apply(q, ops[0]), ops[1..])
  }

  /** The items whose push was accepted during a run, in order. */
  function Accepted<T>(q: Fifo<T>, ops: seq<Op<T>>): seq<T>
    decreases |ops|
  {
    if ops == [] then []
    else (if ops[0].Push? && |q.items| < q.cap then [ops[0].item] else []) + Accepted(Apply(q, ops[0]), ops[1..])
  }

  /** The items handed to consumers during a run, in order. */
  function Taken<T>(q: Fifo<T>, ops: seq<Op<T>>): seq<T>
    decreases |ops|
  {
    if ops == [] then []
    else (if ops[0].Take? && q.items != [] then [q.items[0]] else []) + Taken(Apply(q, ops[0]), ops[1..])
  }

  /** For any number of threads and any interleaving of their critical sections: what was in the
      queue and what was accepted is what was taken and what is left, in order, and the bound
      holds throughout. */
  lemma {:induction false} FifoOrder<T>(q: Fifo<T>, ops: seq<Op<T>>)
    requires |q.items| <= q.cap
    ensures q.items + Accepted(q, ops) == Taken(q, ops) + Run(q, ops).items
    ensures |Run(q, ops).items| <= q.cap && Run(q, ops).cap == q.cap
    ensures q.abort ==> Run(q, ops).abort
    decreases |ops|
  {
    if ops != [] {
      var p := Apply(q, ops[0]);
      FifoOrder(p, ops[1..]);
      match ops[0]
      case Push(x) =>
        if |q.items| < q.cap {
          assert q.items + Accepted(q, ops) == p.items + Accepted(p, ops[1..]);
        } else {
          assert Accepted(q, ops) == Accepted(p, ops[1..]);
        }
        assert Taken(q, ops) == Taken(p, ops[1..]);
      case Take =>
        if q.items != [] {
          assert q.items == [q.items[0]] + p.items;
          assert Taken(q, ops) == [q.items[0]] + Taken(p, ops[1..]);
          assert q.items + Accepted(q, ops) == [q.items[0]] + (p.items + Accepted(p, ops[1..]));
        }
      case Abort =>
        assert Accepted(q, ops) == Accepted(p, ops[1..]) && Taken(q, ops) == Taken(p, ops[1..]);
    }
  }

  lemma {:induction false} RunAppend<T>(q: Fifo<T>, a: seq<Op<T>>, b: seq<Op<T>>)
    ensures Run(q, a + b) == Run(Run(q, a), b)
    decreases |a|
  {
    if a == [] {
      assert a + b == b;
    } else {
      assert (a + b)[1..] == a[1..] + b;
      RunAppend(Apply(q, a[0]), a[1..], b);
    }
  }

  /** One wait on the condition variable: what other threads do until the waiter holds the
      mutex again, and whether the wait reports a timeout. */
  datatype Wake<T> = Wake(others: seq<Op<T>>, timedOut: bool)

  /** How a pop ends: with an item, empty-handed, or not within the given wake-ups. */
  datatype Popped<T> = Got(item: T) | EmptyHanded | Blocked

  /** The critical sections of all other threads during the first u waits. */
  function Others<T>(wakes: seq<Wake<T>>, u: nat): seq<Op<T>>
    requires u <= |wakes|
  {
    if u == 0 then [] else Others(wakes, u - 1) + wakes[u - 1].others
  }

  /** The outcome of a pop from state q, as a function of what the other threads do. */
  function PopResult<T>(q: Fifo<T>, timeout: nat, wakes: seq<Wake<T>>): (Popped<T>, Fifo<T>)
    decreases |wakes|
  {
    if q.items != [] then (Got(q.items[0]), Apply(q, Take))
    else if q.abort then (EmptyHanded, q)
    else if wakes == [] then (Blocked, q)
    else
      var p := Run(q, wakes[0].others);
      if timeout != 0 && wakes[0].timedOut then (EmptyHanded, p) else PopResult(p, timeout, wakes[1..])
  }

  /** An unlimited pop comes back empty-handed only from an empty, aborted queue: whatever was
      queued before the abort is delivered first. */
  lemma {:induction false} EmptyHandedMeansAborted<T>(q: Fifo<T>, wakes: seq<Wake<T>>)
    ensures var (r, t) := PopResult(q, 0, wakes); r.EmptyHanded? ==> t.items == [] && t.abort
    decreases |wakes|
  {
    if q.items == [] && !q.abort && wakes != [] {
      EmptyHandedMeansAborted(Run(q, wakes[0].others), wakes[1..]);
    }
  }

  /** Somebody aborts during one of the waits. */
  ghost predicate AbortedIn<T>(wakes: seq<Wake<T>>) {
    exists u :: 0 <= u < |wakes| && Op<T>.Abort in wakes[u].others
  }

  /** An abort lasts. */
  lemma {:induction false} AbortLasts<T>(q: Fifo<T>, ops: seq<Op<T>>)
    ensures Run(q, ops).abort <==> q.abort || Op<T>.Abort in ops
    decreases |ops|
  {
    if ops != [] {
      AbortLasts(Apply(q, ops[0]), ops[1..]);
      assert ops == [ops[0]] + ops[1..];
    }
  }

  /** After an abort no pop blocks: not one that starts later, and not one that wakes up at all
      once another thread has aborted during one of its waits. */
  lemma {:induction false} NoPopBlocksAfterAbort<T>(q: Fifo<T>, timeout: nat, wakes: seq<Wake<T>>)
    requires q.abort || AbortedIn(wakes)
    ensures !PopResult(q, timeout, wakes).0.Blocked?
    decreases |wakes|
  {
    if q.items == [] && !q.abort {
      var p := Run(q, wakes[0].others);
      AbortLasts(q, wakes[0].others);
      if !p.abort {
        var u :| 0 <= u < |wakes| && Op<T>.Abort in wakes[u].others;
        assert wakes[1..][u - 1] == wakes[u];
      }
      NoPopBlocksAfterAbort(p, timeout, wakes[1..]);
    }
  }

  /** An item pushed between the timeout and the moment the waiter regains the mutex. */
  lemma {:induction false} MissedItem<T>(timeout: nat, x: T) returns (q: Fifo<T>, wakes: seq<Wake<T>>)
    requires timeout > 0
    ensures PopResult(q, timeout, wakes).0.EmptyHanded? && PopResult(q, timeout, wakes).1.items == [x]
  {
    q := Fifo([], false, 1);
    var ops := [Op.Push(x)];
    wakes := [Wake(ops, true)];
    assert Run(q, ops) == Fifo([x], false, 1) by {
      var p := Apply(q, Op.Push(x));
      assert p == Fifo([x], false, 1);
      assert ops[1..] == [];
      assert Run(p, ops[1..]) == p;
    }
    assert wakes[0].others == ops && wakes[0].timedOut;
  }

  /** A pop leaves items behind while coming back empty-handed for some schedule exactly if it
      was called with a timeout: an item pushed between the timeout and the moment the waiter
      regains the mutex stays in the queue, and the caller gets nothing. */
  lemma {:induction false} TimedPopMayMissItem<T>(timeout: nat, x: T)
    ensures timeout > 0 <==>
            exists q: Fifo<T>, wakes: seq<Wake<T>> ::
              PopResult(q, timeout, wakes).0.EmptyHanded? && PopResult(q, timeout, wakes).1.items != []
  {
    if timeout > 0 {
      var q, wakes := MissedItem(timeout, x);
    } else {
      forall q: Fifo<T>, wakes: seq<Wake<T>>
        ensures !(PopResult(q, timeout, wakes).0.EmptyHanded? && PopResult(q, timeout, wakes).1.items != [])
      {
        EmptyHandedMeansAborted(q, wakes);
      }
    }
  }

  class ConcurrentQueue<T(0)> {
    var items: seq<T>
    var abort: bool
    const maxElems: nat

    ghost function View(): Fifo<T>
      reads this
    {
      Fifo(items, abort, maxElems)
    }

    constructor (cap: nat)
      ensures View() == Fifo([], false, cap)
    {
      items, abort, maxElems := [], false, cap;
    }

    /** Refused, without effect, exactly when the queue is full. */
    method Push(item: T) returns (ok: bool)
      modifies this
      ensures ok <==> |old(items)| < maxElems
      ensures items == (if ok then old(items) + [item] else old(items)) && abort == old(abort)
      ensures View() == Apply(old(View()), Op.Push(item))
    {
      if |items| >= maxElems {
        return false;
      }
      items := items + [item];
      return true;
    }

    method AbortConsumers()
      modifies this
      ensures abort && items == old(items)
      ensures View() == Apply(old(View()), Abort)
    {
      abort := true;
    }

    /** The rest of the system while a consumer waits without the mutex. */
    method Wait(others: seq<Op<T>>)
      modifies this
      ensures View() == Run(old(View()), others)
    {
      var i := 0;
      while i < |others|
        invariant i <= |others|
        invariant Run(View(), others[i..]) == Run(old(View()), others)
      {
        assert others[i..][1..] == others[i + 1..];
        match others[i] {
          case Push(x) => var _ := Push(x);
          case Take => if items != [] { items := items[1..]; }
          case Abort => AbortConsumers();
        }
        i := i + 1;
      }
    }

    /** Takes the front item, waiting as long as the queue is empty and not aborted; a timeout
        of zero waits without limit. The item is the front at the moment of taking. A wait that
        times out gives up without another look at the queue. */
    method Pop(timeout: nat, wakes: seq<Wake<T>>) returns (r: Popped<T>, ghost u: nat)
      modifies this
      ensures u <= |wakes|
      ensures var q := Run(old(View()), Others(wakes, u));
              && (r.Got? <==> q.items != [] && !(timeout > 0 && u > 0 && wakes[u - 1].timedOut))
              && (r.Got? ==> r.item == q.items[0])
              && View() == (if r.Got? then Apply(q, Take) else q)
              && (r.EmptyHanded? ==> (q.items == [] && q.abort) || (timeout > 0 && u > 0 && wakes[u - 1].timedOut))
              && (r.Blocked? ==> u == |wakes| && q.items == [] && !q.abort)
      ensures forall v :: 0 <= v < u ==> var p := Run(old(View()), Others(wakes, v)); p.items == [] && !p.abort
      ensures (r, View()) == PopResult(old(View()), timeout, wakes)
    {
      u := 0;
      var w := 0;
      while |items| == 0
        invariant w == u <= |wakes|
        invariant View() == Run(old(View()), Others(wakes, u))
        invariant u > 0 ==> !(timeout > 0 && wakes[u - 1].timedOut)
        invariant forall v :: 0 <= v < u ==> var p := Run(old(View()), Others(wakes, v)); p.items == [] && !p.abort
        invariant PopResult(View(), timeout, wakes[u..]) == PopResult(old(View()), timeout, wakes)
        decreases |wakes| - w
      {
        if abort { return EmptyHanded, u; }
        if w == |wakes| { return Blocked, u; }
        Wait(wakes[w].others);
        assert wakes[w..][1..] == wakes[w + 1..];
        RunAppend(old(View()), Others(wakes, w), wakes[w].others);
        w, u := w + 1, u + 1;
        if timeout != 0 && wakes[w - 1].timedOut { return EmptyHanded, u; }
      }
      r := Got(items[0]);
      items := items[1..];
    }
  }
}
