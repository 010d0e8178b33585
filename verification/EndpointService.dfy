/** No message is left behind: once run_sending has been called after the last send, on a running endpoint
    that knows its byte order, there is always somebody at work on the queue until nothing in it
    can be sent. */
module EndpointService {
  import opened Framing
  import opened ProtoMessageSenders
  import opened EndpointStates
  import opened EndpointProtocol
  import opened EndpointTokens
  import opened EndpointEndings
  import opened EndpointSending
  import opened EndpointRuns

  predicate AtWork(pc: Pc) { pc.SendEntry? || pc.SendCreating? }

  /** The endpoint is dead, or sending, or about to; or the queue is empty, or stuck behind a front
      message longer than the whole ring. */
  ghost predicate Served(s: Endpoint) {
    || s.core.bits.IsDead()
    || s.core.sending
    || (exists i :: i in s.acts && AtWork(s.acts[i]))
    || s.core.txq == []
    || (s.core.sendData == [] && HEAD_SIZE + |s.core.txq[0]| > s.core.sendSize)
  }

  /** Running, and with a byte order to frame in. */
  ghost predicate Ready(s: Endpoint) {
    s.core.bits.running && s.core.order.Settled()
  }

  lemma SendStepServes(s: Endpoint, i: nat, ch: Choice)
    requires Steady(s) && Ready(s) && Served(s) && i in s.acts && SendStep(s, i, ch).Some?
    requires Allowed(s.acts[i], FlagsOf(s))
    ensures Served(SendStep(s, i, ch).value) && Ready(SendStep(s, i, ch).value)
  {
    assert SendOk(s, s.acts[i]);
    var s' := SendStep(s, i, ch).value;
    if s.acts[i].SendCreating? {
      CreateStepServes(s, i);
    } else if s.acts[i].SendEntry? {
      EntryServes(s, i, ch);
    } else {
      TokenStepServes(s, i, ch);
    }
  }

  lemma CreateStepServes(s: Endpoint, i: nat)
    requires s.core.Valid() && Ready(s) && i in s.acts && s.acts[i].SendCreating? && s.core.sendData == []
    ensures Served(CreateStep(s, i, true)) && Ready(CreateStep(s, i, true))
  {
    var s' := CreateStep(s, i, true);
    if NextFrame(s.core, s.pending).Add? {
      assert i in s'.acts && AtWork(s'.acts[i]);
    }
  }

  lemma EntryServes(s: Endpoint, i: nat, ch: Choice)
    requires s.core.Valid() && Ready(s) && i in s.acts && s.acts[i].SendEntry? && SendStep(s, i, ch).Some?
    ensures Served(SendStep(s, i, ch).value) && Ready(SendStep(s, i, ch).value)
  {
    var s' := SendStep(s, i, ch).value;
    assert s'.acts[i].SendCreating? ==> AtWork(s'.acts[i]);
  }

  lemma TokenStepServes(s: Endpoint, i: nat, ch: Choice)
    requires s.core.Valid() && Ready(s) && i in s.acts && SendStep(s, i, ch).Some?
    requires HoldOf(s.acts[i]) == SendToken && s.core.sending
    ensures Served(SendStep(s, i, ch).value) && Ready(SendStep(s, i, ch).value)
  {
    hide NextFrame, Shown;
    var s' := SendStep(s, i, ch).value;
    assert s'.acts[i].SendEntry? ==> AtWork(s'.acts[i]);
  }

  lemma NextServes(s: Endpoint, a: Action)
    requires Ordered(s) && s.core.Valid() && Ready(s) && Served(s) && !a.Send? && Next(s, a).Some?
    ensures Served(Next(s, a).value) && Ready(Next(s, a).value)
  {
    hide SendStep, ReadStep, ReceiveStep, EndStep, GoStep;
    OrderedIsValid(s);
    hide Ordered, Steady;
    var s' := Next(s, a).value;
    if a.Start? {
      if i :| i in s.acts && AtWork(s.acts[i]) {
        assert i in s'.acts && AtWork(s'.acts[i]);
      }
    } else {
      StepKinds(s, a.i, a.ch);
      assert Allowed(s.acts[a.i], FlagsOf(s));
      if Next(s, a) == SendStep(s, a.i, a.ch) {
        SendStepServes(s, a.i, a.ch);
      } else {
        OtherStepServes(s, a.i, a.ch);
      }
    }
  }

  lemma OtherStepServes(s: Endpoint, i: nat, ch: Choice)
    requires s.core.Valid() && |s.pending| <= s.core.SendSpace() && Ready(s) && Served(s)
    requires Next(s, Step(i, ch)).Some? && i in s.acts && Allowed(s.acts[i], FlagsOf(s))
    requires Next(s, Step(i, ch)) != SendStep(s, i, ch)
    ensures Served(Next(s, Step(i, ch)).value) && Ready(Next(s, Step(i, ch)).value)
  {
    var s' := Next(s, Step(i, ch)).value;
    OtherStepLeavesSending(s, i, ch);
    OrderAfterStep(s, i, ch);
    NextQuiet(s, Step(i, ch));
    NotAtWork(s, i, ch);
    hide Next, SendStep;
    if j :| j in s.acts && AtWork(s.acts[j]) {
      assert j in s'.acts && AtWork(s'.acts[j]);
    }
  }

  /** Whoever is at work on sending takes steps of the sending chain only. */
  lemma NotAtWork(s: Endpoint, i: nat, ch: Choice)
    requires s.core.Valid() && Next(s, Step(i, ch)).Some? && i in s.acts
    requires Next(s, Step(i, ch)) != SendStep(s, i, ch)
    ensures !AtWork(s.acts[i])
  {
    hide CreateStep, ReaderPass;
  }

  ghost predicate NoSends(actions: seq<Action>) {
    forall k :: 0 <= k < |actions| ==> !actions[k].Send?
  }

  lemma {:induction false} LeadsServed(s: Endpoint, actions: seq<Action>, t: Endpoint)
    requires Ordered(s) && Ready(s) && Served(s) && Leads(s, actions, t) && NoSends(actions)
    ensures Served(t)
    decreases |actions|
  {
    hide Next, Ordered, Served, Ready;
    if actions != [] {
      NextServes(s, actions[0]);
      NextOrdered(s, actions[0]);
      LeadsServed(Next(s, actions[0]).value, actions[1..], t);
    }
  }

  /** The sending side never strands a message: with a run_sending called, in a reachable state of a
      running endpoint on a settled order, every later state before the next send is served. */
  lemma NothingIsStranded(s: Endpoint, i: nat, actions: seq<Action>, t: Endpoint)
    requires Ordered(s) && Ready(s) && i in s.acts && s.acts[i].SendEntry?
    requires Leads(s, actions, t) && NoSends(actions)
    ensures Served(t)
  {
    hide Leads, Ordered;
    assert AtWork(s.acts[i]);
    LeadsServed(s, actions, t);
  }

  /** Why it has to be ready: with a message in front that fits an empty ring, run_sending starts to
      send it if and only if the endpoint is running and knows its byte order -- and nothing
      calls it again when that changes. */
  lemma StartsExactlyWhenReady(c: Core)
    requires c.Valid() && !c.bits.IsDead() && !c.sending && c.sendData == []
    requires c.txq != [] && HEAD_SIZE + |c.txq[0]| <= c.sendSize
    ensures RunSending(c).1.Claimed? <==> c.bits.running && c.order.Settled()
  {
    if c.order.Settled() {
      CreatesInOrder(c);
      FramesFirst(c.order, c.txq[..Fits(c.SendSpace(), c.txq)]);
    }
  }
}
