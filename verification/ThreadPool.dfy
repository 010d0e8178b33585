/** spdlog's thread_pool: workers draining one bounded queue, and the destructor that posts one
    terminate message per worker and then joins them in order.  Each locked region of the queue is
    one step, so is the work on a dequeued message, and so is each join.  A wait that times out
    changes nothing and is no step. */
module ThreadPools {
  import opened Wrappers
  import opened CircularQueues

  datatype AsyncMsg = Log(id: nat) | Flush(id: nat) | Terminate
  datatype OverflowPolicy = Block | OverrunOldest

  /** A worker waits for a message, is busy with one, or has returned from its loop. */
  datatype Worker = Waiting | Handling(msg: AsyncMsg) | Exited

  /** The pool, with its bookkeeping: every message accepted, finished with and overrun so far;
      and, from the start of destruction on, what was queued then and what came and went since. */
  datatype Pool = Pool(
    q: Queue<AsyncMsg>,
    workers: seq<Worker>,
    destroying: bool,
    posted: nat,
    joined: nat,
    accepted: multiset<AsyncMsg>,
    finished: multiset<AsyncMsg>,
    dropped: multiset<AsyncMsg>,
    owed: seq<AsyncMsg>,
    taken: seq<AsyncMsg>,
    arrived: seq<AsyncMsg>,
    overrunsThen: nat)

  datatype Event =
    | Post(msg: AsyncMsg, policy: OverflowPolicy)
    | Begin
    | PostTerminate
    | Dequeue(w: nat)
    | Handle(w: nat)
    | Join

  /** The constructor: between 1 and 1000 threads, or an error. */
  function Create(max: nat, threads: nat): (r: Option<Pool>) {
    if threads == 0 || threads > 1000 then None
    else Some(Pool(Queue(max, [], 0), seq(threads, i => Waiting), false, 0, 0,
                   multiset{}, multiset{}, multiset{}, [], [], [], 0))
  }

  // ---- steps ----

  predicate Enabled(s: Pool, e: Event) {
    match e
    case Post(m, policy) => m != Terminate && (policy.Block? ==> !s.q.Full())
    case Begin => !s.destroying
    case PostTerminate => s.destroying && s.posted < |s.workers| && !s.q.Full()
    case Dequeue(w) => w < |s.workers| && s.workers[w].Waiting? && s.q.held != []
    case Handle(w) => w < |s.workers| && s.workers[w].Handling?
    case Join => s.destroying && s.posted == |s.workers| && s.joined < |s.workers| && s.workers[s.joined].Exited?
  }

  /** The message an enqueue pushes out. */
  function PushedOut(q: Queue<AsyncMsg>, m: AsyncMsg): multiset<AsyncMsg> {
    if q.Full() then multiset{(q.held + [m])[0]} else multiset{}
  }

  function Enqueued(s: Pool, m: AsyncMsg): Pool
    requires s.q.Valid()
  {
    s.(q := s.q.Push(m), accepted := s.accepted + multiset{m}, dropped := s.dropped + PushedOut(s.q, m),
       arrived := s.arrived + [m])
  }

  /** process_next_msg_ up to the switch on the message's type. */
  function Dequeued(s: Pool, w: nat): Pool
    requires s.q.Valid() && Enabled(s, Event.Dequeue(w))
  {
    var m := s.q.held[0];
    var t := s.(q := s.q.Pop().1, taken := s.taken + [m]);
    if m.Terminate? then t.(workers := s.workers[w := Exited], finished := s.finished + multiset{m})
    else t.(workers := s.workers[w := Handling(m)])
  }

  function Step(s: Pool, e: Event): Pool
    requires s.q.Valid() && Enabled(s, e)
  {
    match e
    case Post(m, _) => Enqueued(s, m)
    case Begin => s.(destroying := true, owed := s.q.held, taken := [], arrived := [], overrunsThen := s.q.overruns)
    case PostTerminate => Enqueued(s, Terminate).(posted := s.posted + 1)
    case Dequeue(w) => Dequeued(s, w)
    case Handle(w) =>
      s.(workers := s.workers[w := Waiting], finished := s.finished + multiset{s.workers[w].msg})
    case Join => s.(joined := s.joined + 1)
  }

  function Live(s: Pool): int { |s.workers| - multiset(s.workers)[Exited] }
  function Lost(s: Pool): nat { s.dropped[Terminate] }
  predicate Done(s: Pool) { s.destroying && s.joined == |s.workers| }

  // ---- what every step keeps ----

  /** Every message accepted is finished with, in a worker's hands, queued, or was overrun. */
  ghost predicate Accounted(s: Pool, m: AsyncMsg) {
    s.accepted[m] == s.finished[m] + multiset(s.workers)[Handling(m)] + multiset(s.q.held)[m] + s.dropped[m]
  }

  ghost predicate Conserved(s: Pool) {
    forall m :: Accounted(s, m)
  }

  /** One terminate message was posted for each turn of the destructor's loop, one worker has left
      for each that was dequeued, and no worker is ever busy with one. */
  ghost predicate Terminates(s: Pool) {
    && s.accepted[Terminate] == s.posted <= |s.workers|
    && s.finished[Terminate] == multiset(s.workers)[Exited]
    && multiset(s.workers)[Handling(Terminate)] == 0
  }

  ghost predicate Joins(s: Pool) {
    && s.joined <= |s.workers|
    && (!s.destroying ==> s.posted == s.joined == 0)
    && (s.joined > 0 ==> s.posted == |s.workers|)
    && (s.q.max == 0 ==> s.posted == 0)
    && forall i :: 0 <= i < s.joined ==> s.workers[i] == Exited
  }

  /** Since destruction began, and while nothing is overrun, messages leave in the order of the
      queue as it was then followed by what has been posted since. */
  ghost predicate Ordered(s: Pool) {
    && s.overrunsThen <= s.q.overruns
    && (s.overrunsThen == s.q.overruns ==> s.taken + s.q.held == s.owed + s.arrived)
    && multiset(s.owed)[Terminate] == 0
    && (s.destroying ==> multiset(s.taken)[Terminate] == multiset(s.workers)[Exited])
  }

  ghost predicate Sane(s: Pool) {
    s.q.Valid() && |s.workers| > 0 && Conserved(s) && Terminates(s) && Joins(s) && (s.destroying ==> Ordered(s))
  }

  lemma CreatedIsSane(max: nat, threads: nat)
    ensures Create(max, threads).Some? <==> 1 <= threads <= 1000
    ensures Create(max, threads).Some? ==> Sane(Create(max, threads).value) && !Create(max, threads).value.destroying
  {
    if 1 <= threads <= 1000 {
      var s := Create(max, threads).value;
      forall w: Worker | w != Waiting ensures multiset(s.workers)[w] == 0 {
        assert w !in s.workers;
      }
    }
  }

  lemma PushIsConserved(q: Queue<AsyncMsg>, m: AsyncMsg, x: AsyncMsg)
    requires q.Valid()
    ensures multiset(q.held)[x] + multiset{m}[x] == multiset(q.Push(m).held)[x] + PushedOut(q, m)[x]
  {
    var all := q.held + [m];
    assert multiset(all) == multiset(q.held) + multiset{m};
    assert multiset(all)[x] == multiset(q.held)[x] + multiset{m}[x];
    if q.Full() {
      assert all == [all[0]] + all[1..];
      assert multiset(all)[x] == multiset{all[0]}[x] + multiset(all[1..])[x];
    } else {
      assert q.Push(m).held == all;
    }
  }

  lemma PopIsConserved(q: Queue<AsyncMsg>, x: AsyncMsg)
    requires q.Valid() && q.held != []
    ensures multiset(q.held)[x] == multiset{q.held[0]}[x] + multiset(q.Pop().1.held)[x]
  {
    assert q.held == [q.held[0]] + q.held[1..];
  }

  lemma WorkerTurns(ws: seq<Worker>, w: nat, v: Worker, x: Worker)
    requires w < |ws|
    ensures multiset(ws)[ws[w]] > 0
    ensures multiset(ws[w := v])[x] == multiset(ws)[x] - (if ws[w] == x then 1 else 0) + (if v == x then 1 else 0)
  {
    assert ws[w] in ws;
  }

  lemma EnqueueAccounts(s: Pool, m: AsyncMsg, x: AsyncMsg)
    requires s.q.Valid() && Accounted(s, x)
    ensures Accounted(Enqueued(s, m), x)
  {
    PushIsConserved(s.q, m, x);
  }

  lemma EnqueueKeepsOrder(s: Pool, m: AsyncMsg)
    requires s.q.Valid() && Ordered(s)
    ensures Ordered(Enqueued(s, m))
  {
    if !s.q.Full() {
      assert s.taken + (s.q.held + [m]) == (s.taken + s.q.held) + [m];
      assert s.owed + (s.arrived + [m]) == (s.owed + s.arrived) + [m];
    }
  }

  lemma EnqueueKeeps(s: Pool, m: AsyncMsg)
    requires Sane(s)
    ensures Conserved(Enqueued(s, m)) && (s.destroying ==> Ordered(Enqueued(s, m)))
  {
    hide Accounted, Ordered, Enqueued;
    forall x ensures Accounted(Enqueued(s, m), x) {
      EnqueueAccounts(s, m, x);
    }
    if s.destroying {
      EnqueueKeepsOrder(s, m);
    }
  }

  lemma DequeueAccounts(s: Pool, w: nat, x: AsyncMsg)
    requires s.q.Valid() && Enabled(s, Dequeue(w)) && Accounted(s, x)
    ensures Accounted(Step(s, Dequeue(w)), x)
  {
    var m := s.q.held[0];
    PopIsConserved(s.q, x);
    if m.Terminate? {
      WorkerTurns(s.workers, w, Exited, Handling(x));
    } else {
      WorkerTurns(s.workers, w, Handling(m), Handling(x));
    }
  }

  lemma DequeueKeepsTerminates(s: Pool, w: nat)
    requires s.q.Valid() && Enabled(s, Dequeue(w)) && Terminates(s)
    ensures Terminates(Step(s, Dequeue(w)))
  {
    var t := Step(s, Dequeue(w));
    WorkerTurns(s.workers, w, t.workers[w], Exited);
    WorkerTurns(s.workers, w, t.workers[w], Handling(Terminate));
  }

  lemma DequeueKeepsOrder(s: Pool, w: nat)
    requires s.q.Valid() && Enabled(s, Dequeue(w)) && Ordered(s)
    ensures Ordered(Step(s, Dequeue(w)))
  {
    var t, m := Step(s, Dequeue(w)), s.q.held[0];
    if s.destroying {
      WorkerTurns(s.workers, w, t.workers[w], Exited);
      assert multiset(t.taken)[Terminate] == multiset(s.taken)[Terminate] + multiset{m}[Terminate];
    }
    OneMoveAcross(s.taken, s.q.held);
  }

  lemma OneMoveAcross<T>(a: seq<T>, b: seq<T>)
    requires b != []
    ensures (a + [b[0]]) + b[1..] == a + b
  {
  }

  lemma DequeueKeeps(s: Pool, w: nat)
    requires Sane(s) && Enabled(s, Dequeue(w))
    ensures Sane(Step(s, Dequeue(w)))
  {
    hide Accounted, Ordered, Terminates;
    var t := Step(s, Dequeue(w));
    forall x ensures Accounted(t, x) {
      DequeueAccounts(s, w, x);
    }
    DequeueKeepsTerminates(s, w);
    if s.destroying {
      DequeueKeepsOrder(s, w);
    }
  }

  lemma HandleAccounts(s: Pool, w: nat, x: AsyncMsg)
    requires s.q.Valid() && Enabled(s, Handle(w)) && Accounted(s, x)
    ensures Accounted(Step(s, Handle(w)), x)
  {
    WorkerTurns(s.workers, w, Waiting, Handling(x));
  }

  lemma HandleKeeps(s: Pool, w: nat)
    requires Sane(s) && Enabled(s, Handle(w))
    ensures Sane(Step(s, Handle(w)))
  {
    hide Accounted;
    var t := Step(s, Handle(w));
    forall x ensures Accounted(t, x) {
      HandleAccounts(s, w, x);
    }
    WorkerTurns(s.workers, w, Waiting, Exited);
    WorkerTurns(s.workers, w, Waiting, Handling(Terminate));
  }

  lemma BeginKeeps(s: Pool)
    requires Sane(s) && Enabled(s, Begin)
    ensures Sane(Step(s, Begin))
  {
    var t := Step(s, Begin);
    assert Accounted(s, Terminate);
    assert multiset(s.q.held)[Terminate] == 0;
    assert [] + s.q.held == s.q.held + [];
    forall x ensures Accounted(t, x) {
      assert Accounted(s, x);
    }
  }

  lemma JoinKeeps(s: Pool)
    requires Sane(s) && Enabled(s, Join)
    ensures Sane(Step(s, Join))
  {
    var t := Step(s, Join);
    forall x ensures Accounted(t, x) {
      assert Accounted(s, x);
    }
  }

  lemma PostKeeps(s: Pool, m: AsyncMsg, policy: OverflowPolicy)
    requires Sane(s) && Enabled(s, Post(m, policy))
    ensures Sane(Step(s, Post(m, policy)))
  {
    hide Conserved, Ordered;
    EnqueueKeeps(s, m);
  }

  lemma PostTerminateKeeps(s: Pool)
    requires Sane(s) && Enabled(s, PostTerminate)
    ensures Sane(Step(s, PostTerminate))
  {
    var t := Enqueued(s, Terminate);
    EnqueueKeeps(s, Terminate);
    forall x ensures Accounted(Step(s, PostTerminate), x) {
      assert Accounted(t, x);
    }
  }

  lemma StepKeepsSane(s: Pool, e: Event)
    requires Sane(s) && Enabled(s, e)
    ensures Sane(Step(s, e))
  {
    hide Sane, Enabled, Step;
    match e
    case Post(m, policy) => PostKeeps(s, m, policy);
    case Begin => BeginKeeps(s);
    case PostTerminate => PostTerminateKeeps(s);
    case Dequeue(w) => DequeueKeeps(s, w);
    case Handle(w) => HandleKeeps(s, w);
    case Join => JoinKeeps(s);
  }

  // ---- what follows ----

  /** Terminates queued, terminates still to post and terminates overrun make up the live workers. */
  lemma TerminatesMatchLiveWorkers(s: Pool)
    requires Sane(s)
    ensures multiset(s.q.held)[Terminate] + (|s.workers| - s.posted) + Lost(s) == Live(s)
  {
    assert Accounted(s, Terminate);
  }

  /** Every message queued when destruction began leaves the queue before the first worker does,
      as long as nothing is overrun from then on. */
  lemma QueuedAreTakenFirst(s: Pool, w: nat)
    requires Sane(s) && s.destroying && s.q.overruns == s.overrunsThen
    requires w < |s.workers| && s.workers[w] == Exited
    ensures s.owed <= s.taken
  {
    assert multiset(s.workers)[Exited] > 0 by { assert Exited in s.workers; }
    assert Terminate !in s.owed && Terminate in s.taken;
    var k :| 0 <= k < |s.taken| && s.taken[k] == Terminate;
    assert (s.taken + s.q.held)[k] == Terminate;
    assert (s.owed + s.arrived)[k] == Terminate;
    assert k >= |s.owed|;
    assert (s.taken + s.q.held)[..|s.owed|] == s.taken[..|s.owed|] && (s.owed + s.arrived)[..|s.owed|] == s.owed;
  }

  lemma {:induction false} AllExited(ws: seq<Worker>)
    requires forall i :: 0 <= i < |ws| ==> ws[i] == Exited
    ensures multiset(ws)[Exited] == |ws|
    ensures forall m :: multiset(ws)[Handling(m)] == 0
  {
    if ws != [] {
      var rest := ws[..|ws| - 1];
      AllExited(rest);
      assert ws == rest + [Exited];
    }
  }

  /** When the destructor returns, every message accepted has been finished with or was overrun,
      but for what was posted too late: what is still queued arrived after destruction began. */
  lemma DoneMeansHandled(s: Pool)
    requires Sane(s) && Done(s) && s.q.overruns == s.overrunsThen
    ensures forall m :: s.accepted[m] == s.finished[m] + multiset(s.q.held)[m] + s.dropped[m]
    ensures |s.q.held| <= |s.arrived| && s.q.held == s.arrived[|s.arrived| - |s.q.held|..]
    ensures Terminate !in s.q.held
  {
    AllExited(s.workers);
    QueuedAreTakenFirst(s, 0);
    forall m ensures s.accepted[m] == s.finished[m] + multiset(s.q.held)[m] + s.dropped[m] {
      assert Accounted(s, m);
    }
    assert s.accepted[Terminate] == s.finished[Terminate] + multiset(s.q.held)[Terminate] + s.dropped[Terminate];
    var all := s.taken + s.q.held;
    assert s.q.held == all[|s.taken|..];
    assert all[|s.taken|..] == s.arrived[|s.taken| - |s.owed|..];
  }

  // ---- the destructor finishes ----

  /** What the pool does by itself: everything but posts from outside and a second destruction. */
  predicate Internal(e: Event) { !e.Post? && !e.Begin? }

  function Busy(ws: seq<Worker>): nat {
    if ws == [] then 0 else (if ws[0].Handling? then 1 else 0) + Busy(ws[1..])
  }

  lemma {:induction false} BusyTurns(ws: seq<Worker>, w: nat, v: Worker)
    requires w < |ws|
    ensures Busy(ws[w := v]) == Busy(ws) - (if ws[w].Handling? then 1 else 0) + (if v.Handling? then 1 else 0)
  {
    var us := ws[w := v];
    if w == 0 {
      assert us[1..] == ws[1..];
    } else {
      assert us[1..] == ws[1..][w - 1 := v];
      BusyTurns(ws[1..], w - 1, v);
    }
  }

  /** Steps the pool can still take by itself, counted generously. */
  function Work(s: Pool): int {
    3 * (|s.workers| - s.posted) + 2 * |s.q.held| + Busy(s.workers) + (|s.workers| - s.joined)
  }

  lemma WorkIsCounted(s: Pool)
    requires Sane(s)
    ensures Work(s) >= 0
  {
  }

  lemma InternalStepsShrink(s: Pool, e: Event)
    requires s.q.Valid() && Enabled(s, e) && Internal(e)
    ensures Work(Step(s, e)) < Work(s)
    ensures s.destroying ==> Step(s, e).destroying
    ensures Step(s, e).q.max == s.q.max && Lost(s) == Lost(Step(s, e))
  {
    match e
    case Dequeue(w) => BusyTurns(s.workers, w, Step(s, e).workers[w]);
    case Handle(w) => BusyTurns(s.workers, w, Waiting);
    case _ =>
  }

  /** While the destructor has work left, the queue has room for a message at all, and no terminate
      message was overrun, some step can be taken: a blocked post always has a live drainer. */
  lemma SomethingCanMove(s: Pool) returns (e: Event)
    requires Sane(s) && s.destroying && !Done(s) && s.q.max > 0 && Lost(s) == 0
    ensures Internal(e) && Enabled(s, e)
  {
    TerminatesMatchLiveWorkers(s);
    if s.posted < |s.workers| && !s.q.Full() {
      e := PostTerminate;
    } else if s.posted == |s.workers| && s.workers[s.joined] == Exited {
      e := Join;
    } else {
      var w: nat;
      if s.posted == |s.workers| {
        w := s.joined;
        assert Live(s) > 0 by { LiveIsPositive(s.workers, w); }
      } else {
        w := LiveWorker(s.workers);
      }
      assert s.q.held != [];
      e := if s.workers[w].Waiting? then Dequeue(w) else Handle(w);
    }
  }

  lemma {:induction false} LiveIsPositive(ws: seq<Worker>, w: nat)
    requires w < |ws| && ws[w] != Exited
    ensures multiset(ws)[Exited] < |ws|
  {
    assert ws == ws[..w] + [ws[w]] + ws[w + 1..];
    assert |multiset(ws)| == |ws|;
  }

  lemma LiveWorker(ws: seq<Worker>) returns (w: nat)
    requires multiset(ws)[Exited] < |ws|
    ensures w < |ws| && ws[w] != Exited
  {
    if w: nat :| w < |ws| && ws[w] != Exited {
      return w;
    }
    AllExited(ws);
    assert false;
  }

  /** Takes the events one after another. */
  predicate CanTake(s: Pool, es: seq<Event>)
    requires s.q.Valid()
    decreases |es|
  {
    es == [] || (Enabled(s, es[0]) && CanTake(Step(s, es[0]), es[1..]))
  }

  function After(s: Pool, es: seq<Event>): (t: Pool)
    requires s.q.Valid() && CanTake(s, es)
    ensures t.q.Valid()
    decreases |es|
  {
    if es == [] then s else After(Step(s, es[0]), es[1..])
  }

  /** The invariant of every run, whoever posts what and when. */
  lemma {:induction false} RunKeepsSane(s: Pool, es: seq<Event>)
    requires Sane(s) && CanTake(s, es)
    ensures Sane(After(s, es))
    decreases |es|
  {
    if es != [] {
      StepKeepsSane(s, es[0]);
      RunKeepsSane(Step(s, es[0]), es[1..]);
    }
  }

  ghost predicate AllInternal(es: seq<Event>) {
    forall e :: e in es ==> Internal(e)
  }

  /** The destructor can always be brought to its end ... */
  lemma {:induction false} CanFinish(s: Pool) returns (es: seq<Event>)
    requires Sane(s) && s.destroying && s.q.max > 0 && Lost(s) == 0
    ensures AllInternal(es) && CanTake(s, es) && Done(After(s, es))
    decreases Work(s)
  {
    es := [];
    WorkIsCounted(s);
    if !Done(s) {
      var e := SomethingCanMove(s);
      StepKeepsSane(s, e);
      InternalStepsShrink(s, e);
      var rest := CanFinish(Step(s, e));
      es := [e] + rest;
      assert es[1..] == rest;
    }
  }

  /** ... and however the steps are scheduled it gets there: no internal run is longer than the work
      there was, and one that can go no further has finished. */
  lemma {:induction false} EveryScheduleFinishes(s: Pool, es: seq<Event>)
    requires Sane(s) && s.destroying && s.q.max > 0 && Lost(s) == 0
    requires AllInternal(es) && CanTake(s, es)
    ensures |es| <= Work(s)
    ensures (forall e :: Internal(e) ==> !Enabled(After(s, es), e)) ==> Done(After(s, es))
    decreases |es|
  {
    if es == [] {
      WorkIsCounted(s);
      if !Done(s) {
        var e := SomethingCanMove(s);
      }
    } else {
      StepKeepsSane(s, es[0]);
      InternalStepsShrink(s, es[0]);
      EveryScheduleFinishes(Step(s, es[0]), es[1..]);
    }
  }

  /** A terminate message lost to an overrun leaves a worker waiting for ever, and with it the
      destructor; so does a queue with no room at all. */
  lemma {:induction false} NeverFinishes(s: Pool, es: seq<Event>)
    requires Sane(s) && s.destroying && (s.q.max == 0 || Lost(s) > 0) && CanTake(s, es)
    ensures !Done(After(s, es))
    decreases |es|
  {
    if es == [] {
      if Done(s) {
        AllExited(s.workers);
        TerminatesMatchLiveWorkers(s);
        assert false;
      }
    } else {
      StepKeepsSane(s, es[0]);
      NeverFinishes(Step(s, es[0]), es[1..]);
    }
  }

  ghost predicate FinishesBy(s: Pool, es: seq<Event>)
    requires s.q.Valid()
  {
    CanTake(s, es) && Done(After(s, es))
  }

  /** Exactly when the destructor can return. */
  lemma FinishesExactlyWhen(s: Pool)
    requires Sane(s) && s.destroying
    ensures (exists es :: FinishesBy(s, es)) <==> s.q.max > 0 && Lost(s) == 0
  {
    if s.q.max > 0 && Lost(s) == 0 {
      var es := CanFinish(s);
      assert FinishesBy(s, es);
    } else {
      forall es | CanTake(s, es) ensures !FinishesBy(s, es) {
        NeverFinishes(s, es);
      }
    }
  }

  /** The condition fails in practice: an overrunning post onto a queue that is full of terminates
      strands the destructor for good. */
  lemma OverrunPostStrands(s: Pool, m: AsyncMsg, es: seq<Event>)
    requires Sane(s) && s.destroying && s.q.Full() && s.q.held != [] && s.q.held[0] == Terminate
    requires m != Terminate
    ensures Enabled(s, Post(m, OverrunOldest))
    ensures CanTake(Step(s, Post(m, OverrunOldest)), es) ==> !Done(After(Step(s, Post(m, OverrunOldest)), es))
  {
    var t := Step(s, Post(m, OverrunOldest));
    PostKeeps(s, m, OverrunOldest);
    assert t.dropped[Terminate] == s.dropped[Terminate] + PushedOut(s.q, m)[Terminate];
    if CanTake(t, es) {
      NeverFinishes(t, es);
    }
  }

  // ---- a whole life ----

  predicate NoOverrunPost(e: Event) { !e.Begin? && (e.Post? ==> e.policy.Block?) }

  lemma {:induction false} NothingIsOverrun(s: Pool, es: seq<Event>)
    requires s.q.Valid() && CanTake(s, es)
    requires forall e :: e in es ==> NoOverrunPost(e)
    ensures After(s, es).q.overruns == s.q.overruns && After(s, es).overrunsThen == s.overrunsThen
    ensures After(s, es).dropped == s.dropped && After(s, es).owed == s.owed
    ensures After(s, es).destroying == s.destroying && After(s, es).q.max == s.q.max
    decreases |es|
  {
    if es != [] {
      assert NoOverrunPost(es[0]);
      assert Step(s, es[0]).dropped == s.dropped;
      NothingIsOverrun(Step(s, es[0]), es[1..]);
    }
  }

  /** From the constructor through any use of the pool into a destruction during which nobody posts
      with the overrunning policy: what was queued is dequeued before the first worker leaves, the
      destructor can be brought to its end exactly when the queue has room for a message, and once
      it is there everything accepted was finished with or overrun earlier, or came too late. */
  lemma GracefulShutdown(start: Pool, use: seq<Event>, end: seq<Event>, s: Pool, t: Pool)
    requires Sane(start) && !start.destroying && CanTake(start, use)
    requires s == After(start, use) && !s.destroying && s.q.Valid()
    requires CanTake(Step(s, Begin), end) && t == After(Step(s, Begin), end)
    requires forall e :: e in end ==> NoOverrunPost(e)
    ensures Sane(t) && t.owed == s.q.held
    ensures (exists w :: 0 <= w < |t.workers| && t.workers[w] == Exited) ==> s.q.held <= t.taken
    ensures (exists es :: FinishesBy(t, es)) <==> s.q.max > 0
    ensures Done(t) ==> Terminate !in t.q.held && |t.q.held| <= |t.arrived| &&
                        t.q.held == t.arrived[|t.arrived| - |t.q.held|..]
    ensures Done(t) ==> forall m :: t.accepted[m] == t.finished[m] + multiset(t.q.held)[m] + t.dropped[m]
  {
    hide Sane, CanTake, After, FinishesBy;
    RunKeepsSane(start, use);
    StepKeepsSane(s, Begin);
    RunKeepsSane(Step(s, Begin), end);
    NothingIsOverrun(Step(s, Begin), end);
    NothingLostYet(s);
    FinishesExactlyWhen(t);
    if w :| 0 <= w < |t.workers| && t.workers[w] == Exited {
      QueuedAreTakenFirst(t, w);
    }
    if Done(t) {
      DoneMeansHandled(t);
    }
  }

  lemma NothingLostYet(s: Pool)
    requires Sane(s) && !s.destroying
    ensures Lost(s) == 0
  {
    assert Accounted(s, Terminate);
  }

  // ---- the methods ----

  class ThreadPool {
    const q: MpmcBlockingQueue<AsyncMsg>
    const threads: nat
    /** The messages given to the loggers' back ends, to log or to flush. */
    var handled: seq<AsyncMsg>

    /** Starts `threads` workers over an empty queue; `ok` is false where the source throws. */
    constructor (max: nat, n: nat)
      ensures q.q.Valid() && fresh(q) && fresh(q.q) && fresh(q.q.v)
      ensures threads > 0 <==> Create(max, n).Some?
      ensures handled == []
      ensures threads > 0 ==> q.q.View() == Create(max, n).value.q && threads == |Create(max, n).value.workers|
    {
      q := new MpmcBlockingQueue(max);
      threads := if n == 0 || n > 1000 then 0 else n;
      handled := [];
    }

    /** Under the blocking policy the caller waits while the queue is full; nothing is posted yet. */
    method PostAsyncMsg(msg: AsyncMsg, policy: OverflowPolicy) returns (waits: bool)
      requires q.q.Valid()
      modifies q.q`head, q.q`tail, q.q`overrunCounter, q.q.v
      ensures waits <==> policy.Block? && old(q.q.View()).Full()
      ensures q.q.Valid() && q.q.View() == if waits then old(q.q.View()) else old(q.q.View()).Push(msg)
    {
      if policy.Block? {
        waits := q.Enqueue(msg);
      } else {
        q.EnqueueNoWait(msg);
        waits := false;
      }
    }

    /** One turn of the worker loop: what it dequeued, what it had logged or flushed, and whether it
        goes on. */
    method ProcessNextMsg() returns (incoming: Option<AsyncMsg>, goOn: bool)
      requires q.q.Valid()
      modifies q.q`head, this`handled
      ensures q.q.Valid() && (incoming, q.q.View()) == old(q.q.View()).Pop()
      ensures !goOn <==> incoming == Some(Terminate)
      ensures handled == old(handled) + if incoming.Some? && goOn then [incoming.value] else []
    {
      incoming := q.DequeueFor();
      if incoming.None? {
        return incoming, true;
      }
      match incoming.value
      case Log(_) =>
        handled := handled + [incoming.value];
        goOn := true;
      case Flush(_) =>
        handled := handled + [incoming.value];
        goOn := true;
      case Terminate => goOn := false;
    }
  }
}
