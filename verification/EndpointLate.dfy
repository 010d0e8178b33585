/** The sending token on a dead endpoint.  run_sending tests the state under the mutex, but the endpoint can
    die -- without the mutex -- while it is still creating messages; and then it takes the token
    all the same, exactly when there is something it can frame. */
module EndpointLate {
  import opened ByteStrings
  import opened Wrappers
  import opened Framing
  import opened ProtoMessageReaders
  import opened ProtoMessageSenders
  import opened EndpointStates
  import opened EndpointProtocol
  import opened EndpointTokens
  import opened EndpointSending
  import opened EndpointAlone
  import opened EndpointRuns

  /** A read on its way that will settle the byte order when it is parsed. */
  predicate WillSettle(c: Core, pc: Pc)
    requires c.Valid()
  {
    match pc
    case Parsing => ReaderPass(c).e.Settled()
    case ReadMarking(chunk) =>
      |chunk| <= c.ReadSpace() && ReaderPass(c.(readData := c.readData + chunk)).e.Settled()
    case _ => false
  }

  ghost predicate MaySettle(s: Endpoint)
    requires s.core.Valid()
  {
    s.core.order.Settled() || exists j :: j in s.acts && WillSettle(s.core, s.acts[j])
  }

  /** Room for the front message -- or, with nothing queued, for an empty one that may yet be sent. */
  predicate FrontFits(c: Core) {
    HEAD_SIZE + (if c.txq == [] then 0 else |c.txq[0]|) <= c.SendSpace()
  }

  ghost predicate CanFrame(s: Endpoint)
    requires s.core.Valid()
  {
    s.pending != [] || (MaySettle(s) && FrontFits(s.core))
  }

  ghost predicate SomebodyCreates(s: Endpoint) {
    exists i :: i in s.acts && s.acts[i].SendCreating?
  }

  ghost predicate LateSender(s: Endpoint)
    requires s.core.Valid()
  {
    SomebodyCreates(s) && CanFrame(s)
  }

  /** Dead, with the token free, and nobody on the way to taking it. */
  ghost predicate AtRest(s: Endpoint) {
    s.core.Valid() && s.core.bits.IsDead() && !s.core.sending && !LateSender(s)
  }

  // ---- a dead endpoint at rest stays at rest ----

  /** A step of `i` that brings nobody nearer to the token. */
  ghost predicate Idles(s: Endpoint, i: nat, s': Endpoint)
    requires i in s.acts
  {
    && s'.core.Valid() && s'.core.bits.IsDead() && !s'.core.sending
    && s'.pending == s.pending && s'.core.order == s.core.order && FrontFits(s'.core) == FrontFits(s.core)
    && s'.core.readSize == s.core.readSize && s'.core.readData == s.core.readData
    && i in s'.acts && s'.acts == s.acts[i := s'.acts[i]]
    && !s'.acts[i].SendCreating? && !s'.acts[i].Parsing? && !s'.acts[i].ReadMarking?
  }

  lemma SameReading(c: Core, d: Core, pc: Pc)
    requires c.Valid() && d.Valid() && c.order == d.order && c.readSize == d.readSize && c.readData == d.readData
    ensures WillSettle(c, pc) == WillSettle(d, pc)
  {
    hide Check;
  }

  /** Whoever may take the token afterwards could before. */
  lemma IdlingBringsNobody(s: Endpoint, i: nat, s': Endpoint)
    requires s.core.Valid() && i in s.acts && Idles(s, i, s') && LateSender(s')
    ensures LateSender(s)
  {
    hide WillSettle, FrontFits;
    var j :| j in s'.acts && s'.acts[j].SendCreating?;
    assert j in s.acts && s.acts[j].SendCreating?;
    if s'.pending == [] && !s'.core.order.Settled() {
      var k :| k in s'.acts && WillSettle(s'.core, s'.acts[k]);
      SameReading(s'.core, s.core, s'.acts[k]);
      SettlesWhere(s'.core, s'.acts[k]);
      assert k in s.acts && WillSettle(s.core, s.acts[k]);
    }
  }

  lemma IdlingStaysAtRest(s: Endpoint, i: nat, s': Endpoint)
    requires AtRest(s) && i in s.acts && Idles(s, i, s')
    ensures AtRest(s')
  {
    hide LateSender;
    if LateSender(s') {
      IdlingBringsNobody(s, i, s');
    }
  }

  lemma SettlesWhere(c: Core, pc: Pc)
    requires c.Valid() && WillSettle(c, pc)
    ensures pc.Parsing? || pc.ReadMarking?
  {
  }

  lemma SendStepAtRest(s: Endpoint, i: nat, ch: Choice)
    requires AtRest(s) && Steady(s) && Exclusive(s.acts, FlagsOf(s)) && i in s.acts && SendStep(s, i, ch).Some?
    ensures AtRest(SendStep(s, i, ch).value)
  {
    assert Allowed(s.acts[i], FlagsOf(s)) && SendOk(s, s.acts[i]);
    var s' := SendStep(s, i, ch).value;
    if s.acts[i].SendCreating? {
      CreatingAtRest(s, i);
    } else {
      assert s.acts[i].SendEntry?;
      IdlingStaysAtRest(s, i, s');
    }
  }

  lemma CreatingAtRest(s: Endpoint, i: nat)
    requires AtRest(s) && Exclusive(s.acts, FlagsOf(s)) && i in s.acts && s.acts[i].SendCreating? && s.core.sendData == []
    ensures AtRest(CreateStep(s, i, true))
  {
    hide WillSettle;
    var s' := CreateStep(s, i, true);
    forall j | j in s'.acts && j != i ensures !s'.acts[j].SendCreating? {
      assert !Conflict(s.acts[i], s.acts[j]);
    }
  }

  lemma ReadStepAtRest(s: Endpoint, i: nat, ch: Choice)
    requires AtRest(s) && i in s.acts && ReadStep(s, i, ch).Some?
    ensures AtRest(ReadStep(s, i, ch).value)
  {
    IdlingStaysAtRest(s, i, ReadStep(s, i, ch).value);
  }

  lemma ReceiveStepAtRest(s: Endpoint, i: nat)
    requires AtRest(s) && Exclusive(s.acts, FlagsOf(s)) && i in s.acts && ReceiveStep(s, i).Some?
    ensures AtRest(ReceiveStep(s, i).value)
  {
    hide ReaderPass, LateSender;
    var s' := ReceiveStep(s, i).value;
    if s.acts[i].ReadMarking? || s.acts[i].Parsing? || s.acts[i].Consuming? {
      ReadingAtRest(s, i);
    } else {
      IdlingStaysAtRest(s, i, s');
    }
  }

  lemma OnlyOneParses(s: Endpoint, i: nat)
    requires Exclusive(s.acts, FlagsOf(s)) && i in s.acts && HoldOf(s.acts[i]) == ReadToken
    ensures forall j :: j in s.acts && j != i ==> !s.acts[j].Parsing? && !s.acts[j].ReadMarking?
  {
    forall j | j in s.acts && j != i ensures !s.acts[j].Parsing? && !s.acts[j].ReadMarking? {
      assert !Conflict(s.acts[i], s.acts[j]);
    }
  }

  /** The reader's own steps: marking keeps what the parse will find, and the parse settles the order
      only if it was going to. */
  lemma ReadingBringsNobody(s: Endpoint, i: nat)
    requires s.core.Valid() && Exclusive(s.acts, FlagsOf(s)) && i in s.acts && ReceiveStep(s, i).Some?
    requires s.acts[i].ReadMarking? || s.acts[i].Parsing? || s.acts[i].Consuming?
    requires ReceiveStep(s, i).value.core.Valid() && LateSender(ReceiveStep(s, i).value)
    ensures LateSender(s)
  {
    hide ReaderPass;
    var s' := ReceiveStep(s, i).value;
    var j :| j in s'.acts && s'.acts[j].SendCreating?;
    assert j in s.acts && s.acts[j].SendCreating?;
    if s'.pending == [] && !s.core.order.Settled() && !s'.core.order.Settled() {
      OnlyOneParses(s, i);
      var k :| k in s'.acts && WillSettle(s'.core, s'.acts[k]);
      SettlesWhere(s'.core, s'.acts[k]);
      assert k == i;
    }
    if s'.pending == [] && !s.core.order.Settled() {
      assert WillSettle(s.core, s.acts[i]);
    }
  }

  lemma ReadingAtRest(s: Endpoint, i: nat)
    requires AtRest(s) && Exclusive(s.acts, FlagsOf(s)) && i in s.acts && ReceiveStep(s, i).Some?
    requires s.acts[i].ReadMarking? || s.acts[i].Parsing? || s.acts[i].Consuming?
    ensures AtRest(ReceiveStep(s, i).value)
  {
    hide ReaderPass, LateSender;
    if LateSender(ReceiveStep(s, i).value) {
      ReadingBringsNobody(s, i);
    }
  }

  lemma NextAtRest(s: Endpoint, a: Action)
    requires AtRest(s) && Ordered(s) && Next(s, a).Some?
    ensures AtRest(Next(s, a).value)
  {
    hide SendStep, ReadStep, ReceiveStep, EndStep, GoStep, AtRest;
    OrderedIsValid(s);
    hide Ordered;
    match a {
      case Send(_) => OutsideAtRest(s, a);
      case Start(_, _) => OutsideAtRest(s, a);
      case Step(i, ch) =>
        var s' := Next(s, a).value;
        StepKinds(s, i, ch);
        if SendStep(s, i, ch) == Some(s') {
          SendStepAtRest(s, i, ch);
        } else if ReadStep(s, i, ch) == Some(s') {
          ReadStepAtRest(s, i, ch);
        } else if ReceiveStep(s, i) == Some(s') {
          ReceiveStepAtRest(s, i);
        } else if EndStep(s, i) == Some(s') {
          EndStepAtRest(s, i);
        } else {
          GoStepAtRest(s, i, ch);
        }
    }
  }

  lemma EndStepAtRest(s: Endpoint, i: nat)
    requires AtRest(s) && i in s.acts && EndStep(s, i).Some?
    ensures AtRest(EndStep(s, i).value)
  {
    EndStepTouches(s, i);
    EndingsGrow(s, i);
    hide EndStep, LateSender;
    IdlingStaysAtRest(s, i, EndStep(s, i).value);
  }

  lemma EndingsGrow(s: Endpoint, i: nat)
    requires s.core.Valid() && i in s.acts && EndStep(s, i).Some? && s.core.bits.IsDead()
    ensures EndStep(s, i).value.core.bits.IsDead()
  {
  }

  lemma GoStepAtRest(s: Endpoint, i: nat, ch: Choice)
    requires AtRest(s) && i in s.acts && GoStep(s, i, ch).Some?
    ensures AtRest(GoStep(s, i, ch).value)
  {
    hide LateSender;
    IdlingStaysAtRest(s, i, GoStep(s, i, ch).value);
  }

  /** A message more or an activity more makes no difference. */
  lemma OutsideBringsNobody(s: Endpoint, a: Action)
    requires s.core.Valid() && !a.Step? && Next(s, a).Some? && LateSender(Next(s, a).value)
    ensures LateSender(s)
  {
    hide ReaderPass;
    var s' := Next(s, a).value;
    var j :| j in s'.acts && s'.acts[j].SendCreating?;
    assert j in s.acts && s.acts[j].SendCreating?;
    if s'.pending == [] && !s.core.order.Settled() {
      var k :| k in s'.acts && WillSettle(s'.core, s'.acts[k]);
      SameReading(s'.core, s.core, s'.acts[k]);
      assert k in s.acts && WillSettle(s.core, s.acts[k]);
    }
  }

  lemma OutsideAtRest(s: Endpoint, a: Action)
    requires AtRest(s) && !a.Step? && Next(s, a).Some?
    ensures AtRest(Next(s, a).value)
  {
    hide LateSender;
    if LateSender(Next(s, a).value) {
      OutsideBringsNobody(s, a);
    }
  }

  lemma {:induction false} LeadsAtRest(s: Endpoint, actions: seq<Action>, t: Endpoint)
    requires AtRest(s) && Ordered(s) && Leads(s, actions, t)
    ensures AtRest(t)
    decreases |actions|
  {
    hide Next, Ordered, AtRest;
    if actions != [] {
      NextAtRest(s, actions[0]);
      NextOrdered(s, actions[0]);
      LeadsAtRest(Next(s, actions[0]).value, actions[1..], t);
    }
  }

  // ---- whoever may take the token can ----

  /** With the order settled and a message that fits in front, or frames already written, creating
      messages ends with something to send. */
  lemma TurnsGrow(c: Core, pending: Bytes)
    requires c.Valid() && c.order.Settled() && |pending| <= c.SendSpace()
    requires pending != [] || (c.txq != [] && FrontFits(c))
    ensures TakeTurns(c, pending).Created? && TakeTurns(c, pending).core.sendData != []
  {
    hide TakeTurns;
    TakeTurnsRest(c, pending);
    if pending == [] {
      var k := Fits(c.SendSpace(), c.txq);
      FirstFrame(c.order, c.txq, k);
    }
  }

  lemma FirstFrame(e: Endianness, q: seq<Message>, k: nat)
    requires e.Settled() && 0 < k <= |q|
    ensures Frames(e, q[..k]) != []
  {
    FramesFirst(e, q[..k]);
  }

  /** The creator, left alone, takes the token. */
  lemma CreatorTakesToken(s: Endpoint, i: nat) returns (actions: seq<Action>, t: Endpoint)
    requires s.core.Valid() && i in s.acts && s.acts[i].SendCreating? && |s.pending| <= s.core.SendSpace()
    requires s.core.order.Settled() && (s.pending != [] || (s.core.txq != [] && FrontFits(s.core)))
    ensures Leads(s, actions, t) && t.core.sending && i in t.acts && t.acts[i] == SendClaimed
  {
    hide Next, Leads, TakeTurns, FrontFits;
    TurnsAlone(s, i, true);
    TurnsGrow(s.core, s.pending);
    t := AfterCreating(s, i, true, TakeTurns(s.core, s.pending));
    actions :| ByOne(actions, i) && Leads(s, actions, t);
  }

  /** Whoever will settle the order does so without touching the sending side. */
  lemma SettleFirst(s: Endpoint, j: nat) returns (actions: seq<Action>, t: Endpoint)
    requires s.core.Valid() && j in s.acts && WillSettle(s.core, s.acts[j])
    ensures Leads(s, actions, t) && t.core.Valid() && t.core.order.Settled()
    ensures t.core.txq == s.core.txq && t.core.sendSize == s.core.sendSize && t.core.sendData == s.core.sendData
    ensures t.pending == s.pending && j in t.acts && t.acts == s.acts[j := t.acts[j]]
  {
    hide Next, Leads, ReaderPass;
    var marked, first := s, [];
    if s.acts[j].ReadMarking? {
      marked := ReceiveStep(s, j).value;
      ReceivesOne(s, j, marked);
      first := [Step(j, NO_CHOICE)];
    } else {
      LeadsNowhere(s);
    }
    t := ReceiveStep(marked, j).value;
    ReceivesOne(marked, j, t);
    actions := first + [Step(j, NO_CHOICE)];
    LeadsFurther(s, first, marked, [Step(j, NO_CHOICE)], t);
    assert t.acts == s.acts[j := t.acts[j]];
  }

  lemma LeadsNowhere(s: Endpoint)
    ensures Leads(s, [], s)
  {
  }

  lemma ReceivesOne(s: Endpoint, j: nat, t: Endpoint)
    requires s.core.Valid() && j in s.acts && ReceiveStep(s, j) == Some(t)
    ensures Leads(s, [Step(j, NO_CHOICE)], t)
  {
    hide ReceiveStep, Next;
    OneKind(s, j, NO_CHOICE);
    LeadsOne(s, Step(j, NO_CHOICE), t);
  }

  /** Settle the order if need be, send an empty message if nothing is queued, and let the creator
      go on. */
  lemma LateSenderTakesToken(s: Endpoint) returns (actions: seq<Action>, t: Endpoint)
    requires Ordered(s) && s.core.Valid() && LateSender(s)
    ensures Leads(s, actions, t) && t.core.sending
  {
    OrderedIsValid(s);
    hide Next, Leads, Ordered, WillSettle, FrontFits;
    var i :| i in s.acts && s.acts[i].SendCreating?;
    var settled, first := s, [];
    LeadsNowhere(s);
    if !s.core.order.Settled() {
      PendingIsSettled(s);
      var j :| j in s.acts && WillSettle(s.core, s.acts[j]);
      SettlesWhere(s.core, s.acts[j]);
      first, settled := SettleFirst(s, j);
    }
    var queued, second := settled, [];
    LeadsNowhere(settled);
    if s.pending == [] {
      SameFront(s.core, settled.core);
      if s.core.txq == [] {
        queued := settled.(core := settled.core.(txq := [[]]), accepted := settled.accepted + [[]]);
        SendsEmpty(settled, queued);
        second := [Send([])];
      }
    }
    LeadsFurther(s, first, settled, second, queued);
    var third: seq<Action>;
    third, t := CreatorTakesToken(queued, i);
    actions := (first + second) + third;
    LeadsFurther(s, first + second, queued, third, t);
  }

  lemma PendingIsSettled(s: Endpoint)
    requires Steady(s)
    ensures s.pending != [] ==> s.core.order.Settled()
  {
  }

  lemma SameFront(c: Core, d: Core)
    requires c.txq == d.txq && c.sendSize == d.sendSize && c.sendData == d.sendData
    ensures FrontFits(c) == FrontFits(d)
  {
  }

  lemma SendsEmpty(s: Endpoint, t: Endpoint)
    requires s.core.Valid() && s.core.txq == []
    requires t == s.(core := s.core.(txq := [[]]), accepted := s.accepted + [[]])
    ensures Leads(s, [Send([])], t) && t.core.Valid()
    ensures FrontFits(s.core) ==> FrontFits(t.core)
  {
    assert s.core.txq + [[]] == [[]];
    LeadsOne(s, Send([]), t);
  }

  ghost predicate TakesToken(s: Endpoint, actions: seq<Action>, t: Endpoint) {
    Leads(s, actions, t) && t.core.sending
  }

  /** Exactly when a dead endpoint with the token free can still see it taken: when some run_sending
      is creating messages, and frames are pending, or there is -- or will be, once a read on its way
      is parsed -- an order to frame in and room for the front of the queue. */
  lemma DeadTakesTokenExactlyWhen(s: Endpoint)
    requires Ordered(s) && s.core.Valid() && s.core.bits.IsDead() && !s.core.sending
    ensures (exists actions, t :: TakesToken(s, actions, t)) <==> LateSender(s)
  {
    hide Leads, Ordered, LateSender;
    if LateSender(s) {
      var actions, t := LateSenderTakesToken(s);
      assert TakesToken(s, actions, t);
    } else {
      forall actions, t | Leads(s, actions, t) ensures !TakesToken(s, actions, t) {
        LeadsAtRest(s, actions, t);
      }
    }
  }
}
