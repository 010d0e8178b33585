/** Runs of a fresh endpoint that reach what the theorems speak of: a live endpoint with its byte order
    detected, a dead one that still takes the sending token, and a completely full send ring. */
module EndpointExamples {
  import opened ByteStrings
  import opened Wrappers
  import opened Framing
  import opened ProtoMessageReaders
  import opened ProtoMessageSenders
  import opened EndpointStates
  import opened EndpointProtocol
  import opened EndpointAlone
  import opened EndpointRuns
  import opened EndpointLate

  lemma AloneReaches(s: Endpoint, i: nat, t: Endpoint)
    requires Alone(s, i, t)
    ensures Reaches(s, t)
  {
    hide Leads;
  }

  ghost predicate Fresh(s: Endpoint) {
    Initial(s) && s.core.order == DUNNO && s.core.readSize > HEAD_SIZE
  }

  /** A fresh endpoint, after go and the frame of one empty message from a little-endian peer, with its
      next read in flight. */
  function Live(s: Endpoint): Endpoint {
    s.(core := s.core.(bits := s.core.bits.(running := true), reading := true, order := LITTLE),
       acts := map[0 := Reading(4)], arrived := [0, 0, 0, 0], dropped := 4, decoded := 4, delivered := [[]], goes := 1)
  }

  lemma AsksForOne(s: Endpoint) returns (t: Endpoint)
    requires Fresh(s)
    ensures Reaches(s, t)
    ensures t == s.(core := s.core.(bits := s.core.bits.(running := true), reading := true), goes := 1,
                    acts := map[0 := Reading(1)])
  {
    hide Leads, Alone, Next, Reaches;
    var s1 := s.At(0, GoStart);
    StartsGo(s, s1);
    GoAlone(s1, 0, false);
    var core := s.core.(bits := s.core.bits.(running := true), reading := true);
    assert Go(s1.core, false) == (core, Some(1));
    var s2 := s1.(core := core, goes := s1.goes + 1).At(0, ReadClaimed(1));
    AloneReaches(s1, 0, s2);
    t := s2.At(0, Reading(1));
    Reads(s2, 0, t);
    AloneReaches(s2, 0, t);
    ReachesFurther(s, s1, s2);
    ReachesFurther(s, s2, t);
    assert t.acts == map[0 := Reading(1)];
  }

  lemma StartsGo(s: Endpoint, t: Endpoint)
    requires s.core.Valid() && 0 !in s.acts && t == s.At(0, GoStart)
    ensures Reaches(s, t)
  {
    ReachesByOne(s, Start(0, GoStart), t);
  }

  lemma Arrives(s: Endpoint, chunk: Bytes, t: Endpoint)
    requires s.core.Valid() && 0 in s.acts && s.acts[0].Reading? && s.acts[0].want <= |chunk| <= s.core.ReadSpace()
    requires s.core.bits.Value() == RUNNING_ENDPOINT
    requires t == s.At(0, ReadMarking(chunk))
    ensures Reaches(s, t)
  {
    hide Leads, Reaches;
    var ch := Choice(Success, 0, chunk, false);
    var s1 := s.At(0, ReadDone(Success, chunk));
    assert ReadStep(s, 0, ch) == Some(s1);
    OneKind(s, 0, ch);
    hide Next;
    ReachesByOne(s, Step(0, ch), s1);
    AtTwice(s, 0, s1.acts[0], ReadMarking(chunk));
    assert ReceiveStep(s1, 0) == Some(t);
    hide Alone, ReceiveStep, ReadStep;
    Receives(s1, 0, t);
    AloneReaches(s1, 0, t);
    ReachesFurther(s, s1, t);
  }

  lemma BecomesLive(s: Endpoint)
    requires Fresh(s)
    ensures Reaches(s, Live(s))
  {
    hide Leads, Reaches, Next, Alone, Check;
    var s1 := AsksForOne(s);
    var chunk: Bytes := [0, 0, 0, 0];
    var s2 := s1.At(0, ReadMarking(chunk));
    Arrives(s1, chunk, s2);
    EmptyFrameDetected(chunk);
    assert s1.core.readData + chunk == chunk && chunk[4..] == [] && [] + chunk == chunk;
    var p := Passed(s2, chunk);
    var s3 := p.At(0, Consuming(4, 4));
    PassAlone(s2, 0, chunk, Consuming(4, 4));
    AloneReaches(s2, 0, s3);
    AcceptedAlone(s3, 0, 4, 4);
    var core := s.core.(bits := s.core.bits.(running := true), order := LITTLE);
    assert s3.core.(readData := s3.core.readData[4..], readNeeded := 4, reading := false) == core.(readNeeded := 4);
    assert RunReading(core.(readNeeded := 4)) == (core.(reading := true), Some(4));
    var s4 := s3.(core := core.(reading := true), dropped := 4).At(0, ReadClaimed(4));
    AloneReaches(s3, 0, s4);
    var s5 := s4.At(0, Reading(4));
    Reads(s4, 0, s5);
    AloneReaches(s4, 0, s5);
    ReachesFurther(s, s1, s2);
    ReachesFurther(s, s2, s3);
    ReachesFurther(s, s3, s4);
    ReachesFurther(s, s4, s5);
    assert s5.acts == map[0 := Reading(4)];
    assert s.delivered + [[]] == [[]] && s.arrived + chunk == chunk;
    assert s5 == Live(s);
  }

  // ---- a dead endpoint takes the sending token ----

  /** A message is queued and a run_sending has the mutex and is creating messages. */
  function Creates(s: Endpoint, m: Message): Endpoint {
    s.(core := s.core.(txq := [m]), accepted := [m], locked := true, acts := s.acts[1 := SendCreating])
  }

  lemma BeginsCreating(s: Endpoint, m: Message)
    requires s.core.Valid() && s.core.CanSend() && !s.locked && 1 !in s.acts
    requires s.core.txq == [] && s.core.sendData == [] && s.accepted == []
    ensures Reaches(s, Creates(s, m))
  {
    hide Leads, Reaches, Alone;
    var s2 := Entered(s, m);
    var t := Creates(s, m);
    assert s2.acts[1 := SendCreating] == t.acts;
    assert SendStep(s2, 1, NO_CHOICE) == Some(t);
    hide Next, SendStep;
    Sends(s2, 1, t);
    AloneReaches(s2, 1, t);
    ReachesFurther(s, s2, t);
  }

  /** A message is queued and run_sending is called. */
  lemma Entered(s: Endpoint, m: Message) returns (t: Endpoint)
    requires s.core.Valid() && 1 !in s.acts && s.core.txq == [] && s.accepted == []
    ensures Reaches(s, t)
    ensures t == s.(core := s.core.(txq := [m]), accepted := [m], acts := s.acts[1 := SendEntry])
  {
    hide Leads, Reaches;
    assert [] + [m] == [m];
    var s1 := s.(core := s.core.(txq := [m]), accepted := [m]);
    ReachesByOne(s, Send(m), s1);
    t := s1.At(1, SendEntry);
    ReachesByOne(s1, Start(1, SendEntry), t);
    ReachesFurther(s, s1, t);
  }

  /** The stream ends while that goes on, and CLOSED is set without the mutex. */
  lemma Dies(s: Endpoint) returns (t: Endpoint)
    requires s.core.Valid() && 0 in s.acts && s.acts[0].Reading? && s.core.bits.Value() == RUNNING_ENDPOINT
    ensures Reaches(s, t)
    ensures t == s.(core := Close(s.core)).At(0, EndCheck(Eof, ReadToken, false))
  {
    hide Leads, Reaches, Alone;
    var ch := Choice(EofOrAborted, 0, [], false);
    var s1 := s.At(0, ReadDone(EofOrAborted, []));
    assert ReadStep(s, 0, ch) == Some(s1);
    OneKind(s, 0, ch);
    hide Next;
    ReachesByOne(s, Step(0, ch), s1);
    var s2 := s.At(0, FlagClosed(ReadToken));
    AtTwice(s, 0, s1.acts[0], s2.acts[0]);
    Receives(s1, 0, s2);
    AloneReaches(s1, 0, s2);
    t := s.(core := Close(s.core)).At(0, EndCheck(Eof, ReadToken, false));
    AtTwice(s.(core := Close(s.core)), 0, s2.acts[0], t.acts[0]);
    Ends(s2, 0, t);
    AloneReaches(s2, 0, t);
    ReachesFurther(s, s1, s2);
    ReachesFurther(s, s2, t);
  }

  lemma ReachesOrdered(s: Endpoint, t: Endpoint)
    requires Initial(s) && Reaches(s, t)
    ensures Ordered(t) && t.core.Valid()
  {
    var actions :| Leads(s, actions, t);
    hide Leads;
    InitialIsOrdered(s);
    LeadsOrdered(s, actions, t);
    OrderedIsValid(t);
  }

  /** Every fresh endpoint with room for a frame can get there: dead, with the sending token free --
      and then taken. */
  lemma DeadEndpointTakesToken(s: Endpoint) returns (t: Endpoint, actions: seq<Action>, u: Endpoint)
    requires Fresh(s) && s.core.sendSize >= HEAD_SIZE
    ensures Reaches(s, t) && t.core.bits.IsDead() && !t.core.sending
    ensures TakesToken(t, actions, u)
  {
    hide Leads, Reaches, Ordered;
    var live := Live(s);
    BecomesLive(s);
    BeginsCreating(live, []);
    var creating := Creates(live, []);
    ReachesFurther(s, live, creating);
    t := Dies(creating);
    ReachesFurther(s, creating, t);
    ReachesOrdered(s, t);
    assert t.acts[1] == SendCreating;
    assert LateSender(t) by { hide WillSettle; }
    actions, u := LateSenderTakesToken(t);
  }

  // ---- a completely full send ring ----

  /** One message whose frame is as long as the ring fills it, whatever its size; and from then on
      the endpoint, alive, never sends a byte. */
  lemma FullRingIsReached(s: Endpoint, m: Message) returns (t: Endpoint)
    requires Fresh(s) && s.core.sendSize == HEAD_SIZE + |m|
    ensures Reaches(s, t) && |t.core.sendData| == t.core.sendSize && t.core.bits.Value() == RUNNING_ENDPOINT
    ensures t.accepted == [m] && t.wire == [] && 1 in t.acts && t.acts[1] == SendClaimed
    ensures forall u :: Reaches(t, u) ==> u.wire == []
  {
    hide Leads, Reaches, Ordered, Alone;
    var live := Live(s);
    BecomesLive(s);
    var entered := Entered(live, m);
    ReachesFurther(s, live, entered);
    OneMessageFills(entered.core, m);
    RunSendingAlone(entered, 1);
    var (c, start) := RunSending(entered.core);
    t := entered.(core := c).At(1, AfterStart(start));
    AloneReaches(entered, 1, t);
    ReachesFurther(s, entered, t);
    ReachesOrdered(s, t);
    forall u | Reaches(t, u) ensures u.wire == [] {
      FullForGood(t, u);
    }
  }

  lemma FullForGood(t: Endpoint, u: Endpoint)
    requires Ordered(t) && |t.core.sendData| == t.core.sendSize && Reaches(t, u)
    ensures u.wire == t.wire
  {
    var actions :| Leads(t, actions, u);
    hide Leads, Ordered;
    FullSendRingForEver(t, actions, u);
  }

  lemma OneMessageFills(c: Core, m: Message)
    requires c.Valid() && c.CanSend() && c.sendData == [] && c.txq == [m] && c.order == LITTLE
    requires c.sendSize == HEAD_SIZE + |m|
    ensures var (d, start) := RunSending(c);
            && start.Claimed? && |d.sendData| == d.sendSize == c.sendSize && d.bits == c.bits
  {
    assert c.txq[..1] == [m] && c.txq[1..] == [];
    FramesFirst(LITTLE, [m]);
    NoFrames(LITTLE);
    assert [m][1..] == [];
    assert Fits(c.SendSpace(), c.txq) == 1;
    hide Frames, Frame;
    assert Frame(LITTLE, m) + [] == Frame(LITTLE, m);
  }
}
