/** circular_q, the overrunning ring, and mpmc_blocking_queue, its locked wrapper.  Each locked
    region of the wrapper is one step; a wait is a step that cannot be taken until its condition
    holds, and a timed wait that runs out returns false. */
module CircularQueues {
  import opened Wrappers

  // ---- the queue as a value ----

  datatype Queue<T> = Queue(max: nat, held: seq<T>, overruns: nat) {
    ghost predicate Valid() { |held| <= max }
    predicate Full() { |held| == max }

    /** push_back: with no room left the oldest item goes -- with no room at all, the new one. */
    function Push(x: T): (q: Queue<T>)
      requires Valid()
      ensures q.Valid() && q.max == max
    {
      if Full() then Queue(max, (held + [x])[1..], overruns + 1) else this.(held := held + [x])
    }

    /** pop_front, guarded by the wait for something to pop. */
    function Pop(): (r: (Option<T>, Queue<T>))
      requires Valid()
      ensures r.1.Valid() && r.1.max == max
    {
      if held == [] then (None, this) else (Some(held[0]), this.(held := held[1..]))
    }
  }

  // ---- the ring ----

  /** The cells from `head` up to `tail`, around the end of the ring. */
  ghost function Around<T>(cells: seq<T>, head: nat, tail: nat): (s: seq<T>)
    requires head < |cells| && tail < |cells|
    ensures |s| < |cells|
  {
    if head <= tail then cells[head..tail] else cells[head..] + cells[..tail]
  }

  /** The cell after `i`. */
  ghost function After(i: nat, n: nat): nat
    requires i < n
  {
    if i + 1 == n then 0 else i + 1
  }

  lemma Appended<T>(cells: seq<T>, head: nat, tail: nat, item: T)
    requires head < |cells| && tail < |cells|
    ensures var all := Around(cells, head, tail) + [item];
            var now := cells[tail := item];
            if After(tail, |cells|) == head then |all| == |cells| && Around(now, After(head, |cells|), head) == all[1..]
            else |all| < |cells| && Around(now, head, After(tail, |cells|)) == all
  {
    var n, now := |cells|, cells[tail := item];
    if head <= tail {
      assert now[head..tail + 1] == cells[head..tail] + [item];
      if tail + 1 == n {
        assert now[head..] == now[head..n] && now[..0] == [];
        if head == 0 && n > 1 {
          assert now[1..] == now[0..n][1..];
        }
      }
    } else {
      var all := cells[head..] + cells[..tail] + [item];
      assert now[..tail + 1] == cells[..tail] + [item] && now[head..] == cells[head..];
      assert now[head..] + now[..tail + 1] == all;
      if tail + 1 == head {
        if head + 1 == n {
          assert now[head..] == [now[head]];
          assert now[0..head] == (now[head..] + now[..head])[1..];
        } else {
          assert now[head + 1..] == now[head..][1..];
          assert now[head + 1..] + now[..head] == (now[head..] + now[..head])[1..];
        }
      }
    }
  }

  class CircularQ<T(0)> {
    const maxItems: nat
    const v: array<T>
    var head: nat
    var tail: nat
    var overrunCounter: nat

    ghost predicate Valid()
      reads this
    {
      v.Length == maxItems && head < maxItems && tail < maxItems
    }

    ghost function Contents(): (s: seq<T>)
      requires Valid()
      reads this, v
      ensures |s| < maxItems
    {
      Around(v[..], head, tail)
    }

    ghost function View(): (q: Queue<T>)
      requires Valid()
      reads this, v
      ensures q.Valid() && q.max + 1 == maxItems
    {
      Queue(maxItems - 1, Contents(), overrunCounter)
    }

    /** One cell more than asked for: the one that tells a full ring from an empty one. */
    constructor (max: nat)
      ensures Valid() && fresh(v) && View() == Queue(max, [], 0)
    {
      maxItems := max + 1;
      v := new T[max + 1];
      head, tail, overrunCounter := 0, 0, 0;
    }

    method PushBack(item: T)
      requires Valid()
      modifies this`head, this`tail, this`overrunCounter, v
      ensures Valid() && View() == old(View()).Push(item)
    {
      ghost var was := v[..];
      v[tail] := item;
      Wraps(tail, maxItems);
      Wraps(head, maxItems);
      Appended(was, head, tail, item);
      tail := (tail + 1) % maxItems;
      if tail == head {
        head := (head + 1) % maxItems;
        overrunCounter := overrunCounter + 1;
      }
      assert v[..] == was[old(tail) := item];
    }

    method PopFront() returns (item: T)
      requires Valid() && Contents() != []
      modifies this`head
      ensures Valid() && (Some(item), View()) == old(View()).Pop()
    {
      ghost var was := Contents();
      item := v[head];
      Wraps(head, maxItems);
      head := (head + 1) % maxItems;
      assert Contents() == was[1..];
    }

    predicate Empty()
      requires Valid()
      reads this, v
      ensures Empty() <==> View().held == []
    {
      tail == head
    }

    predicate Full()
      requires Valid()
      reads this, v
      ensures Full() <==> View().Full()
    {
      Wraps(tail, maxItems);
      (tail + 1) % maxItems == head
    }
  }

  lemma Wraps(i: nat, n: nat)
    requires i < n
    ensures (i + 1) % n == After(i, n)
  {
  }

  class MpmcBlockingQueue<T(0)> {
    const q: CircularQ<T>

    constructor (max: nat)
      ensures q.Valid() && fresh(q) && fresh(q.v) && q.View() == Queue(max, [], 0)
    {
      q := new CircularQ(max);
    }

    /** One look at the queue under the lock: while it is full the caller goes on waiting. */
    method Enqueue(item: T) returns (waits: bool)
      requires q.Valid()
      modifies q`head, q`tail, q`overrunCounter, q.v
      ensures waits <==> old(q.View()).Full()
      ensures q.Valid() && q.View() == if waits then old(q.View()) else old(q.View()).Push(item)
    {
      waits := q.Full();
      if !waits { q.PushBack(item); }
    }

    method EnqueueNoWait(item: T)
      requires q.Valid()
      modifies q`head, q`tail, q`overrunCounter, q.v
      ensures q.Valid() && q.View() == old(q.View()).Push(item)
    {
      q.PushBack(item);
    }

    /** `None` when the time ran out with the queue still empty. */
    method DequeueFor() returns (popped: Option<T>)
      requires q.Valid()
      modifies q`head
      ensures q.Valid() && (popped, q.View()) == old(q.View()).Pop()
    {
      if q.Empty() {
        return None;
      }
      var item := q.PopFront();
      popped := Some(item);
    }
  }

  // ---- histories ----

  datatype Op<T> = Enqueue(x: T) | EnqueueNoWait(x: T) | DequeueFor

  /** A queue with what has gone in and what has come out so far. */
  datatype History<T> = History(q: Queue<T>, pushed: seq<T>, popped: seq<T>)

  predicate Enabled<T>(q: Queue<T>, op: Op<T>) {
    op.Enqueue? ==> !q.Full()
  }

  ghost predicate Next<T>(h: History<T>, op: Op<T>, k: History<T>) {
    && h.q.Valid()
    && Enabled(h.q, op)
    && match op
       case DequeueFor =>
         && k.q == h.q.Pop().1
         && k.pushed == h.pushed
         && k.popped == h.popped + (if h.q.held == [] then [] else [h.q.held[0]])
       case _ =>
         && k == History(h.q.Push(op.x), h.pushed + [op.x], h.popped)
  }

  ghost predicate IsRun<T(!new)>(run: seq<History<T>>, ops: seq<Op<T>>) {
    && |run| == |ops| + 1
    && run[0] == History(Queue(run[0].q.max, [], 0), [], [])
    && forall i :: 0 <= i < |ops| ==> Next(run[i], ops[i], run[i + 1])
  }

  /** `at` places every popped item among the pushed ones: in order, before everything held, and
      with no gap among the newest `max`, so an overrun item had that many newer ones behind it. */
  ghost predicate Places<T>(h: History<T>, at: seq<nat>)
    requires |h.q.held| <= |h.pushed|
  {
    && |at| == |h.popped|
    && (forall i :: 0 <= i < |at| ==> at[i] < |h.pushed| - |h.q.held| && h.popped[i] == h.pushed[at[i]])
    && (forall i, j :: 0 <= i < j < |at| ==> at[i] < at[j])
    && (forall i :: |h.pushed| - h.q.max <= i < |h.pushed| - |h.q.held| && 0 <= i ==> i in at)
  }

  /** Only overruns lose anything, the newest items are the ones held, and items leave in
      the order they came in. */
  ghost predicate Kept<T(!new)>(h: History<T>) {
    && h.q.Valid()
    && |h.pushed| == |h.popped| + |h.q.held| + h.q.overruns
    && h.q.held == h.pushed[|h.pushed| - |h.q.held|..]
    && exists at :: Places(h, at)
  }

  lemma PushKeeps<T(!new)>(h: History<T>, x: T)
    requires Kept(h) && h.q.Valid()
    ensures Kept(History(h.q.Push(x), h.pushed + [x], h.popped))
  {
    var k := History(h.q.Push(x), h.pushed + [x], h.popped);
    var at :| Places(h, at);
    assert Places(k, at);
  }

  lemma PopKeeps<T(!new)>(h: History<T>)
    requires Kept(h) && h.q.Valid() && h.q.held != []
    ensures Kept(History(h.q.Pop().1, h.pushed, h.popped + [h.q.held[0]]))
  {
    var k := History(h.q.Pop().1, h.pushed, h.popped + [h.q.held[0]]);
    var at :| Places(h, at);
    var n := |h.pushed| - |h.q.held|;
    assert Places(k, at + [n]) by {
      assert h.q.held[0] == h.pushed[n];
      assert n in at + [n];
    }
  }

  lemma NextKeeps<T(!new)>(h: History<T>, op: Op<T>, k: History<T>)
    requires Kept(h) && Next(h, op, k)
    ensures Kept(k) && k.q.max == h.q.max
  {
    hide Kept;
    match op
    case Enqueue(x) => PushKeeps(h, x);
    case EnqueueNoWait(x) => PushKeeps(h, x);
    case DequeueFor =>
      if h.q.held == [] {
        assert h == k by { assert h.popped + [] == h.popped; }
      } else {
        PopKeeps(h);
      }
  }

  lemma {:induction false} RunKeeps<T(!new)>(run: seq<History<T>>, ops: seq<Op<T>>, n: nat)
    requires IsRun(run, ops) && n < |run|
    ensures Kept(run[n]) && run[n].q.max == run[0].q.max
  {
    if n == 0 {
      assert Places(run[0], []);
    } else {
      RunKeeps(run, ops, n - 1);
      NextKeeps(run[n - 1], ops[n - 1], run[n]);
    }
  }

  /** With blocking enqueues only, nothing is ever overrun: what came out and what is held are
      together exactly what went in, in order. */
  lemma {:induction false} BlockingRunsAreFifo<T(!new)>(run: seq<History<T>>, ops: seq<Op<T>>, n: nat)
    requires IsRun(run, ops) && n < |run|
    requires forall i :: 0 <= i < |ops| ==> !ops[i].EnqueueNoWait?
    ensures run[n].q.overruns == 0
    ensures run[n].pushed == run[n].popped + run[n].q.held
  {
    if n > 0 {
      BlockingRunsAreFifo(run, ops, n - 1);
    }
  }
}
