/** What holds in every state of every run of one endpoint, whatever arrives at it. */
module EndpointRuns {
  import opened Wrappers
  import opened EndpointStates
  import opened EndpointProtocol
  import opened EndpointTokens
  import opened EndpointEndings
  import opened EndpointSending
  import opened EndpointProgress

  ghost predicate IsRun(run: seq<Endpoint>, actions: seq<Action>) {
    && |run| == |actions| + 1
    && Initial(run[0])
    && forall k :: 0 <= k < |actions| ==> run[k].core.Valid() && Next(run[k], actions[k]) == Some(run[k + 1])
  }

  /** What every reachable state is. */
  ghost predicate Ordered(s: Endpoint) {
    Steady(s) && Exclusive(s.acts, FlagsOf(s)) && HandlersOnce(s) && Roomy(s, 0)
  }

  lemma OrderedIsValid(s: Endpoint)
    requires Ordered(s)
    ensures s.core.Valid() && |s.pending| <= s.core.SendSpace() && Exclusive(s.acts, FlagsOf(s)) && Steady(s)
  {
  }

  lemma InitialIsOrdered(s: Endpoint)
    requires Initial(s)
    ensures Ordered(s)
  {
  }

  lemma NextOrdered(s: Endpoint, a: Action)
    requires Ordered(s) && s.core.Valid() && Next(s, a).Some?
    ensures Ordered(Next(s, a).value)
  {
    OrderedIsValid(s);
    hide Next, Steady, Exclusive, HandlersOnce, Roomy;
    ReadsFit(s, a);
    NextKeepsRoomy(s, a, 0);
    NextKeepsSteady(s, a);
    NextKeepsExclusive(s, a);
    NextKeepsHandlersOnce(s, a);
  }

  lemma {:induction false} RunOrdered(run: seq<Endpoint>, actions: seq<Action>, k: nat)
    requires IsRun(run, actions) && k < |run|
    ensures Ordered(run[k])
  {
    if k > 0 {
      var j := k - 1;
      RunOrdered(run, actions, j);
      assert Next(run[j], actions[j]) == Some(run[j + 1]);
      hide Next, Ordered, Initial;
      NextOrdered(run[j], actions[j]);
    }
  }

  lemma {:induction false} LeadsOrdered(s: Endpoint, actions: seq<Action>, t: Endpoint)
    requires Ordered(s) && Leads(s, actions, t)
    ensures Ordered(t)
    decreases |actions|
  {
    hide Next, Ordered;
    if actions != [] {
      NextOrdered(s, actions[0]);
      LeadsOrdered(Next(s, actions[0]).value, actions[1..], t);
    }
  }

  /** In every state of every run: one write and one read in flight at most, one activity at
      most creating messages, and at most one terminal handler ever called. */
  lemma RunKeepsOrder(run: seq<Endpoint>, actions: seq<Action>, k: nat, i: nat, j: nat)
    requires IsRun(run, actions) && k < |run|
    ensures |run[k].invoked| <= 1
    ensures i in run[k].acts && j in run[k].acts && i != j ==>
              && !(run[k].acts[i].Writing? && run[k].acts[j].Writing?)
              && !(run[k].acts[i].Reading? && run[k].acts[j].Reading?)
              && !(Creating(run[k].acts[i]) && Creating(run[k].acts[j]))
  {
    hide IsRun, Steady;
    RunOrdered(run, actions, k);
    if i in run[k].acts && j in run[k].acts && i != j {
      TokensAreExclusive(run[k], i, j);
    }
  }

  /** A failed read is never reported: whoever is about to call onError does not hold the read
      token, in any state of any run. */
  lemma ReadErrorsAreSilent(run: seq<Endpoint>, actions: seq<Action>, k: nat, i: nat)
    requires IsRun(run, actions) && k < |run| && i in run[k].acts
    ensures run[k].acts[i].Invoking? && run[k].acts[i].kind.Error? ==> !run[k].acts[i].hold.ReadToken?
  {
    hide IsRun, Steady, Exclusive;
    RunOrdered(run, actions, k);
    assert EndingAllowed(run[k], run[k].acts[i]);
  }

  /** While a write is in flight its bytes stay what the send buffer shows, and the wire ends with
      those already written. */
  lemma WriteInFlightIsStable(run: seq<Endpoint>, actions: seq<Action>, k: nat, i: nat)
    requires IsRun(run, actions) && k < |run| && i in run[k].acts && run[k].acts[i].Writing?
    ensures var s := run[k];
            && s.acts[i].data == Shown(s.core.sendSize, s.core.sendData)
            && s.acts[i].done == s.flushed <= |s.acts[i].data|
            && EndsWith(s.wire, s.acts[i].data[..s.acts[i].done])
  {
    hide IsRun, Exclusive, HandlersOnce;
    RunOrdered(run, actions, k);
    assert SendOk(run[k], run[k].acts[i]);
  }

  /** The marks are always within bounds: in every state of every run, marking what was written, read
      or consumed is never refused. */
  lemma MarksInBounds(run: seq<Endpoint>, actions: seq<Action>, k: nat, i: nat, ch: Choice)
    requires IsRun(run, actions) && k < |run| && i in run[k].acts
    ensures run[k].core.Valid()
    ensures run[k].acts[i].SendMarking? ==> SendStep(run[k], i, ch).Some?
    ensures run[k].acts[i].ReadMarking? || run[k].acts[i].Consuming? ==> ReceiveStep(run[k], i).Some?
  {
    hide IsRun, Exclusive, HandlersOnce;
    RunOrdered(run, actions, k);
    assert SendOk(run[k], run[k].acts[i]) && RoomFor(run[k], run[k].acts[i], 0);
  }

  /** Once the send ring is completely full, nothing more is ever sent: from then on its bytes and
      the wire stay as they are, whatever happens. */
  lemma {:induction false} FullSendRingForEver(s: Endpoint, actions: seq<Action>, t: Endpoint)
    requires Ordered(s) && |s.core.sendData| == s.core.sendSize && Leads(s, actions, t)
    ensures t.core.sendData == s.core.sendData && t.core.sendSize == s.core.sendSize && t.wire == s.wire
    decreases |actions|
  {
    hide Next, Ordered;
    if actions != [] {
      OrderedIsValid(s);
      FullRingStays(s, actions[0]);
      NextOrdered(s, actions[0]);
      FullSendRingForEver(Next(s, actions[0]).value, actions[1..], t);
    }
  }

  /** From any dead state on, the bits only grow, no read starts, and no write starts either
      unless a run_sending was already past its test. */
  lemma {:induction false} DeadStaysQuiet(run: seq<Endpoint>, actions: seq<Action>, k: nat, l: nat)
    requires IsRun(run, actions) && k <= l < |run|
    ensures run[k].core.bits.Within(run[l].core.bits)
    ensures run[k].core.bits.IsDead() ==> (run[l].core.reading ==> run[k].core.reading)
    ensures run[k].core.bits.IsDead() && (forall i :: i in run[k].acts ==> !run[k].acts[i].SendCreating?) ==>
              && (run[l].core.sending ==> run[k].core.sending)
              && (forall i :: i in run[l].acts ==> !run[l].acts[i].SendCreating?)
    decreases l - k
  {
    if k < l {
      var j := l - 1;
      DeadStaysQuiet(run, actions, k, j);
      assert run[j].core.Valid() && Next(run[j], actions[j]) == Some(run[j + 1]);
      NextQuiet(run[j], actions[j]);
      hide Next, IsRun;
    }
  }

  // ---- the read loop ----

  /** The ring has room for a frame, a byte for every go, and `slack` bytes that cover what a missed
      detection can leave out: four always do, none are needed where the order is settled or
      the first header passes the little-endian trial. */
  ghost predicate RoomEnough(run: seq<Endpoint>, slack: nat) {
    forall k :: 0 <= k < |run| ==> Bound(run[k], slack) <= run[k].core.readSize && Covered(run[k], slack)
  }

  lemma {:induction false} RunReadsOn(run: seq<Endpoint>, actions: seq<Action>, slack: nat, k: nat)
    requires IsRun(run, actions) && RoomEnough(run, slack) && k < |run|
    ensures Progressing(run[k], slack) || Stalled(run[k])
  {
    if k > 0 {
      var j := k - 1;
      RunReadsOn(run, actions, slack, j);
      assert Next(run[j], actions[j]) == Some(run[j + 1]);
      assert Bound(run[j], slack) <= run[j].core.readSize && Covered(run[j], slack);
      RunOrdered(run, actions, j);
      OrderedIsValid(run[j]);
      hide Next, IsRun, RoomEnough, Ordered, Progressing, Stalled, Covered, Bound, Steady, Exclusive;
      if Stalled(run[j]) {
        NextStaysStalled(run[j], actions[j]);
      } else {
        NextProgressesOrStalls(run[j], actions[j], slack);
      }
    }
  }

  /** When the read loop stalls, for every run, every order and every way of reading: run_reading
      asks for nothing if and only if the ring is full, and otherwise for exactly the bytes the
      parser still needs -- never fewer for want of room. */
  lemma StallsExactlyOnFullRing(run: seq<Endpoint>, actions: seq<Action>, slack: nat, k: nat, i: nat, ch: Choice)
    requires IsRun(run, actions) && RoomEnough(run, slack) && k < |run| && i in run[k].acts
    ensures run[k].core.Valid()
    ensures run[k].acts[i].ReadClaimed? ==>
              && run[k].acts[i].want <= run[k].core.ReadSpace()
              && (run[k].acts[i].want == 0 <==> |run[k].core.readData| == run[k].core.readSize)
    ensures run[k].acts[i].ReadEntry? && !run[k].locked && run[k].core.CanRead() && run[k].core.readNeeded > 0 ==>
              && ReadStep(run[k], i, ch).Some?
              && ReadStep(run[k], i, ch).value.acts[i] ==
                   ReadClaimed(if |run[k].core.readData| == run[k].core.readSize then 0 else run[k].core.readNeeded)
  {
    RunReadsOn(run, actions, slack, k);
    RunOrdered(run, actions, k);
    OrderedIsValid(run[k]);
    assert Bound(run[k], slack) <= run[k].core.readSize;
    hide IsRun, RoomEnough, Ordered, Steady, Exclusive;
    if Progressing(run[k], slack) {
      NeverStalls(run[k], i, ch, slack);
    }
  }

  /** A ring once full stays full: from then on no byte arrives and no message is delivered. */
  lemma {:induction false} FullReadRingForEver(run: seq<Endpoint>, actions: seq<Action>, slack: nat, k: nat, l: nat)
    requires IsRun(run, actions) && RoomEnough(run, slack) && k <= l < |run|
    requires |run[k].core.readData| == run[k].core.readSize
    ensures Stalled(run[l]) && run[l].arrived == run[k].arrived && run[l].delivered == run[k].delivered
    decreases l - k
  {
    if k == l {
      RunReadsOn(run, actions, slack, k);
    } else {
      var j := l - 1;
      FullReadRingForEver(run, actions, slack, k, j);
      assert Next(run[j], actions[j]) == Some(run[j + 1]);
      RunOrdered(run, actions, j);
      OrderedIsValid(run[j]);
      hide Next, IsRun, Stalled, Ordered, Steady, Exclusive, RoomEnough;
      NextStaysStalled(run[j], actions[j]);
    }
  }

  /** No read of the run fills the ring. */
  ghost predicate NoReadFills(run: seq<Endpoint>, actions: seq<Action>) {
    && |run| == |actions| + 1
    && forall k :: 0 <= k < |actions| ==> LeavesFree(run[k], actions[k], 1)
  }

  lemma {:induction false} RunStaysRoomy(run: seq<Endpoint>, actions: seq<Action>, k: nat)
    requires IsRun(run, actions) && NoReadFills(run, actions) && k < |run|
    ensures Roomy(run[k], 1)
  {
    if k > 0 {
      var j := k - 1;
      RunStaysRoomy(run, actions, j);
      assert Next(run[j], actions[j]) == Some(run[j + 1]) && LeavesFree(run[j], actions[j], 1);
      RunOrdered(run, actions, j);
      OrderedIsValid(run[j]);
      hide Next, IsRun, NoReadFills, Roomy, LeavesFree, Ordered, Steady, Exclusive;
      NextKeepsRoomy(run[j], actions[j], 1);
    }
  }

  /** The read loop never stalls: in every state of every run in which each read leaves a byte free,
      run_reading asks for exactly the bytes the parser still needs, and never for none. */
  lemma RunNeverStalls(run: seq<Endpoint>, actions: seq<Action>, slack: nat, k: nat, i: nat, ch: Choice)
    requires IsRun(run, actions) && RoomEnough(run, slack) && NoReadFills(run, actions)
    requires k < |run| && i in run[k].acts
    ensures run[k].core.Valid()
    ensures run[k].acts[i].ReadClaimed? ==> 1 <= run[k].acts[i].want <= run[k].core.ReadSpace()
    ensures run[k].acts[i].ReadEntry? && !run[k].locked && run[k].core.CanRead() && run[k].core.readNeeded > 0 ==>
              ReadStep(run[k], i, ch).Some?
              && ReadStep(run[k], i, ch).value.acts[i] == ReadClaimed(run[k].core.readNeeded)
  {
    RunStaysRoomy(run, actions, k);
    hide IsRun, RoomEnough, NoReadFills;
    StallsExactlyOnFullRing(run, actions, slack, k, i, ch);
  }

  /** Where reads come in bursts, a burst to spare is what keeps them from filling the ring. */
  lemma {:induction false} BurstsNeverFill(run: seq<Endpoint>, actions: seq<Action>, slack: nat, burst: nat, k: nat)
    requires IsRun(run, actions) && RoomEnough(run, slack) && k < |actions|
    requires forall j :: 0 <= j < |actions| ==> Bursts(run[j], actions[j], burst)
    requires forall j :: 0 <= j < |run| ==> Bound(run[j], slack) + burst <= run[j].core.readSize
    ensures Roomy(run[k], 1) && LeavesFree(run[k], actions[k], 1)
  {
    if k > 0 {
      var j := k - 1;
      BurstsNeverFill(run, actions, slack, burst, j);
      assert Next(run[j], actions[j]) == Some(run[j + 1]);
      RunOrdered(run, actions, j);
      OrderedIsValid(run[j]);
      NextKeepsRoomy(run[j], actions[j], 1);
    }
    RunReadsOn(run, actions, slack, k);
    assert Bursts(run[k], actions[k], burst) && Bound(run[k], slack) + burst <= run[k].core.readSize;
    hide IsRun, RoomEnough, Bursts, Bound, LeavesFree;
    BurstsLeaveAByte(run[k], actions[k], slack, burst);
  }
}
