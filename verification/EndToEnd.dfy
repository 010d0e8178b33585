/** Two endpoints joined by a link that loses and reorders nothing but delivers in chunks of any
    size, every activity of both interleaved in any way. */
module EndToEnd {
  import opened ByteStrings
  import opened Wrappers
  import opened Framing
  import opened ProtoMessageReaders
  import opened EndpointStates
  import opened EndpointProtocol
  import opened EndpointTokens
  import opened EndpointSending
  import opened EndpointAccounts
  import opened EndpointReading
  import opened EndpointProgress

  /** The bytes a successful read of `s` may bring: those `wire` carries next. */
  ghost predicate Fed(s: Endpoint, a: Action, wire: Bytes) {
    (a.Step? && a.i in s.acts && s.acts[a.i].Reading? && a.ch.ec.Success?) ==>
      s.arrived + a.ch.chunk <= wire
  }

  /** Everything that has arrived, or is about to be marked as arrived, came from `wire`. */
  ghost predicate FromWire(s: Endpoint, pc: Pc, wire: Bytes) {
    match pc
    case ReadDone(ec, chunk) => ec.Success? ==> s.arrived + chunk <= wire
    case ReadMarking(chunk) => s.arrived + chunk <= wire
    case _ => true
  }

  ghost predicate Received(s: Endpoint, wire: Bytes) {
    && s.arrived <= wire
    && (forall i :: i in s.acts ==> FromWire(s, s.acts[i], wire))
  }

  ghost predicate Safe(s: Endpoint, e: Endianness)
    requires e.Settled()
  {
    Exclusive(s.acts, FlagsOf(s)) && SendSafe(s, e) && ReadSafe(s, e)
  }

  /** A peer whose order is still to be detected must not be sent a first message so long that
      its header fails the test. */
  ghost predicate Recognisable(s: Endpoint, peer: Endpoint) {
    s.core.order.DUNNO? ==> peer.accepted != [] ==> |peer.accepted[0]| < DETECT_LIMIT
  }

  // ---- one endpoint ----

  lemma InitialSafe(s: Endpoint, e: Endianness)
    requires e.Settled() && Initial(s) && (s.core.order == e || (s.core.order.DUNNO? && e.LITTLE?))
    ensures Safe(s, e) && Received(s, [])
  {
    var nothing := Frames(e, []);
    assert Exclusive(s.acts, FlagsOf(s)) && Steady(s);
    assert Accounted(s, e);
    assert Decoded(s, e);
    hide Accounted, Decoded;
  }

  lemma NextSafe(s: Endpoint, a: Action, e: Endianness)
    requires e.Settled() && Safe(s, e) && Next(s, a).Some?
    requires s.core.order.DUNNO? ==> LittleStart(s.arrived)
    ensures Safe(Next(s, a).value, e)
  {
    hide Next, SendSafe, ReadSafe, Exclusive;
    Parts(s, e);
    NextKeepsExclusive(s, a);
    NextKeepsReadSafe(s, a, e);
    OrderStays(s, a, e);
    NextKeepsSendSafe(s, a, e);
  }

  lemma Parts(s: Endpoint, e: Endianness)
    requires e.Settled() && SendSafe(s, e)
    ensures s.core.Valid() && |s.pending| <= s.core.SendSpace()
  {
  }

  lemma OrderStays(s: Endpoint, a: Action, e: Endianness)
    requires e.Settled() && s.core.Valid() && Next(s, a).Some? && ReadSafe(Next(s, a).value, e)
    ensures var order := Next(s, a).value.core.order; order == e || order.DUNNO?
    ensures s.core.order == e ==> Next(s, a).value.core.order == e
  {
    hide SendStep, ReadStep, ReceiveStep, EndStep, GoStep, Decoded;
    if a.Step? {
      OrderAfterStep(s, a.i, a.ch);
    }
  }

  /** The wire only grows. */
  lemma WireGrows(s: Endpoint, a: Action)
    requires s.core.Valid() && Next(s, a).Some?
    ensures s.wire <= Next(s, a).value.wire
  {
    hide SendStep, ReadStep, ReceiveStep, EndStep, GoStep;
    if a.Step? {
      var i, ch, s' := a.i, a.ch, Next(s, a).value;
      StepKinds(s, i, ch);
      if SendStep(s, i, ch) == Some(s') {
        SendStepWire(s, i, ch);
      } else if ReadStep(s, i, ch) == Some(s') {
        ReadStepWire(s, i, ch);
      } else if ReceiveStep(s, i) == Some(s') {
        ReceiveStepWire(s, i);
      } else if EndStep(s, i) == Some(s') {
        EndStepTouches(s, i);
      } else {
        GoStepTouches(s, i, ch);
      }
    }
  }

  lemma SendStepWire(s: Endpoint, i: nat, ch: Choice)
    requires s.core.Valid() && i in s.acts && SendStep(s, i, ch).Some?
    ensures s.wire <= SendStep(s, i, ch).value.wire
  {
    hide NextFrame, Shown;
  }

  lemma ReadStepWire(s: Endpoint, i: nat, ch: Choice)
    requires s.core.Valid() && i in s.acts && ReadStep(s, i, ch).Some?
    ensures s.wire == ReadStep(s, i, ch).value.wire
  {
  }

  lemma ReceiveStepWire(s: Endpoint, i: nat)
    requires s.core.Valid() && i in s.acts && ReceiveStep(s, i).Some?
    ensures s.wire == ReceiveStep(s, i).value.wire
  {
    hide ReaderPass;
  }

  // ---- receiving from a wire ----

  lemma ReceivedGrows(s: Endpoint, wire: Bytes, wire': Bytes)
    requires Received(s, wire) && wire <= wire'
    ensures Received(s, wire')
  {
    forall i | i in s.acts ensures FromWire(s, s.acts[i], wire') {
      assert FromWire(s, s.acts[i], wire);
    }
  }

  /** What a step that takes no bytes in leaves. */
  ghost predicate LeavesArrived(s: Endpoint, i: nat, s': Endpoint)
    requires i in s.acts
  {
    && s'.arrived == s.arrived
    && i in s'.acts && s'.acts == s.acts[i := s'.acts[i]]
    && !s'.acts[i].ReadDone? && !s'.acts[i].ReadMarking?
  }

  lemma LeavingKeepsReceived(s: Endpoint, i: nat, s': Endpoint, wire: Bytes)
    requires Received(s, wire) && i in s.acts && LeavesArrived(s, i, s')
    ensures Received(s', wire)
  {
    forall j | j in s'.acts ensures FromWire(s', s'.acts[j], wire) {
      assert FromWire(s, s.acts[j], wire);
    }
  }

  lemma ReadStepKeepsReceived(s: Endpoint, i: nat, ch: Choice, wire: Bytes)
    requires s.core.Valid() && i in s.acts && ReadStep(s, i, ch).Some?
    requires Received(s, wire) && Fed(s, Step(i, ch), wire)
    ensures Received(ReadStep(s, i, ch).value, wire)
  {
    var s' := ReadStep(s, i, ch).value;
    forall j | j in s'.acts ensures FromWire(s', s'.acts[j], wire) {
      assert FromWire(s, s.acts[j], wire);
    }
  }

  lemma ReceiveStepKeepsReceived(s: Endpoint, i: nat, wire: Bytes)
    requires s.core.Valid() && i in s.acts && ReceiveStep(s, i).Some?
    requires Received(s, wire) && Exclusive(s.acts, FlagsOf(s))
    ensures Received(ReceiveStep(s, i).value, wire)
  {
    hide ReaderPass;
    var s' := ReceiveStep(s, i).value;
    assert FromWire(s, s.acts[i], wire);
    forall j | j in s'.acts ensures FromWire(s', s'.acts[j], wire) {
      if j != i {
        assert !Conflict(s.acts[i], s.acts[j]);
      }
    }
  }

  lemma NextKeepsReceived(s: Endpoint, a: Action, wire: Bytes)
    requires s.core.Valid() && Next(s, a).Some? && |s.pending| <= s.core.SendSpace()
    requires Received(s, wire) && Fed(s, a, wire) && Exclusive(s.acts, FlagsOf(s))
    ensures Received(Next(s, a).value, wire)
  {
    hide SendStep, ReadStep, ReceiveStep, EndStep, GoStep;
    var s' := Next(s, a).value;
    match a {
      case Send(_) =>
        forall j | j in s'.acts ensures FromWire(s', s'.acts[j], wire) {
          assert FromWire(s, s.acts[j], wire);
        }
      case Start(i, pc) =>
        forall j | j in s'.acts ensures FromWire(s', s'.acts[j], wire) {
          assert j != i ==> FromWire(s, s.acts[j], wire);
        }
      case Step(i, ch) =>
        StepKinds(s, i, ch);
        if ReadStep(s, i, ch) == Some(s') {
          ReadStepKeepsReceived(s, i, ch, wire);
        } else if ReceiveStep(s, i) == Some(s') {
          ReceiveStepKeepsReceived(s, i, wire);
        } else {
          if SendStep(s, i, ch) == Some(s') {
            SendStepTouches(s, i, ch);
          } else if EndStep(s, i) == Some(s') {
            EndStepTouches(s, i);
          } else {
            GoStepTouches(s, i, ch);
          }
          LeavingKeepsReceived(s, i, s', wire);
        }
    }
  }

  // ---- both endpoints ----

  datatype System = System(a: Endpoint, b: Endpoint)

  datatype Event = AtA(action: Action) | AtB(action: Action)

  ghost function NextSystem(sys: System, ev: Event): Option<System>
    requires sys.a.core.Valid() && sys.b.core.Valid()
  {
    match ev
    case AtA(action) =>
      if Next(sys.a, action).None? || !Fed(sys.a, action, sys.b.wire) then None
      else Some(sys.(a := Next(sys.a, action).value))
    case AtB(action) =>
      if Next(sys.b, action).None? || !Fed(sys.b, action, sys.a.wire) then None
      else Some(sys.(b := Next(sys.b, action).value))
  }

  ghost predicate SystemSafe(sys: System, e: Endianness)
    requires e.Settled()
  {
    && Safe(sys.a, e) && Safe(sys.b, e)
    && Received(sys.a, sys.b.wire) && Received(sys.b, sys.a.wire)
  }

  ghost predicate InitialSystem(sys: System, e: Endianness)
    requires e.Settled()
  {
    && Initial(sys.a) && Initial(sys.b)
    && (sys.a.core.order == e || (sys.a.core.order.DUNNO? && e.LITTLE?))
    && (sys.b.core.order == e || (sys.b.core.order.DUNNO? && e.LITTLE?))
  }

  /** What has been put on the wire is the beginning of the frames of what was accepted. */
  lemma WireIsFrames(s: Endpoint, e: Endianness)
    requires e.Settled() && Accounted(s, e)
    ensures s.wire <= Frames(e, s.accepted)
  {
    StartOfFour(s.wire, s.core.sendData[s.flushed..], s.pending, Frames(e, s.core.txq));
  }

  lemma StartOfFour(p: Bytes, q: Bytes, r: Bytes, t: Bytes)
    ensures p <= p + q + r + t
  {
    assert p + q + r + t == p + (q + r + t);
  }

  lemma ArrivedStartsLittle(s: Endpoint, peer: Endpoint, e: Endianness)
    requires e.Settled() && Accounted(peer, e) && Received(s, peer.wire) && OrderKnown(s, e) && Recognisable(s, peer)
    ensures s.core.order.DUNNO? ==> LittleStart(s.arrived)
  {
    hide Accounted, LittleStart, Frames;
    if s.core.order.DUNNO? {
      WireIsFrames(peer, e);
      FramesLittleStart(s.arrived, peer.accepted);
    }
  }

  lemma NextSystemSafe(sys: System, ev: Event, e: Endianness)
    requires e.Settled() && SystemSafe(sys, e) && NextSystem(sys, ev).Some?
    requires Recognisable(sys.a, sys.b) && Recognisable(sys.b, sys.a)
    ensures SystemSafe(NextSystem(sys, ev).value, e)
  {
    match ev {
      case AtA(action) => OneSideMoves(sys.a, sys.b, action, e);
      case AtB(action) => OneSideMoves(sys.b, sys.a, action, e);
    }
  }

  lemma OneSideMoves(s: Endpoint, peer: Endpoint, a: Action, e: Endianness)
    requires e.Settled() && Safe(s, e) && Safe(peer, e) && Received(s, peer.wire) && Received(peer, s.wire)
    requires Next(s, a).Some? && Fed(s, a, peer.wire) && Recognisable(s, peer)
    ensures var s' := Next(s, a).value;
            Safe(s', e) && Received(s', peer.wire) && Received(peer, s'.wire)
  {
    hide Next, Received, Exclusive, Accounted, Decoded, Steady;
    Parts(s, e);
    ArrivedStartsLittle(s, peer, e);
    NextSafe(s, a, e);
    NextKeepsReceived(s, a, peer.wire);
    WireGrows(s, a);
    ReceivedGrows(peer, s.wire, Next(s, a).value.wire);
  }

  /** The bytes of accepted messages between the transmit queue of `a` and the handler of `b`. */
  ghost function InTransit(a: Endpoint, b: Endpoint): Bytes
    requires b.decoded <= |b.arrived| <= |a.wire| && a.flushed <= |a.core.sendData|
  {
    b.arrived[b.decoded..] + a.wire[|b.arrived|..] + a.core.sendData[a.flushed..] + a.pending
  }

  /** In every safe state the messages delivered at one end are a prefix of those accepted at
      the other, and the accepted messages are those delivered, then some whose frames are
      exactly the bytes in transit, then those still queued. */
  lemma DeliveredInOrder(a: Endpoint, b: Endpoint, e: Endianness)
    requires e.Settled() && Accounted(a, e) && Decoded(b, e) && b.arrived <= a.wire
    ensures b.delivered <= a.accepted
    ensures |b.delivered| + |a.core.txq| <= |a.accepted|
    ensures var between := a.accepted[|b.delivered|..|a.accepted| - |a.core.txq|];
            && a.accepted == b.delivered + between + a.core.txq
            && Frames(e, between) == InTransit(a, b)
  {
    hide Frames;
    var popped := Popped(a);
    PoppedBytes(a, e);
    OutSplits(a, b, e);
    hide Accounted, Decoded;
    FramesPrefix(e, b.delivered, popped);
    var between := popped[|b.delivered|..];
    assert popped == b.delivered + between;
    FramesAppend(e, b.delivered, between);
    PrefixCancels(Frames(e, b.delivered), Frames(e, between), InTransit(a, b));
    assert a.accepted[|b.delivered|..|popped|] == between;
  }

  /** The messages of the queue that have been turned into frames. */
  ghost function Popped(a: Endpoint): seq<Message>
    requires |a.core.txq| <= |a.accepted|
  {
    a.accepted[..|a.accepted| - |a.core.txq|]
  }

  lemma PoppedBytes(a: Endpoint, e: Endianness)
    requires e.Settled() && Accounted(a, e)
    ensures a.accepted == Popped(a) + a.core.txq
    ensures a.wire + a.core.sendData[a.flushed..] + a.pending == Frames(e, Popped(a))
  {
    hide Frames;
    var out := a.wire + a.core.sendData[a.flushed..] + a.pending;
    assert a.accepted == Popped(a) + a.core.txq;
    FramesAppend(e, Popped(a), a.core.txq);
    SuffixCancels(out, Frames(e, Popped(a)), Frames(e, a.core.txq));
  }

  lemma PrefixCancels(p: Bytes, q: Bytes, t: Bytes)
    requires p + q == p + t
    ensures q == t
  {
    assert q == (p + q)[|p|..] && t == (p + t)[|p|..];
  }

  lemma SuffixCancels(p: Bytes, q: Bytes, t: Bytes)
    requires p + t == q + t
    ensures p == q
  {
    assert |p| == |q|;
    assert p == (p + t)[..|p|] && q == (q + t)[..|p|];
  }

  lemma OutSplits(a: Endpoint, b: Endpoint, e: Endianness)
    requires e.Settled() && Decoded(b, e) && b.arrived <= a.wire && a.flushed <= |a.core.sendData|
    ensures a.wire + a.core.sendData[a.flushed..] + a.pending == Frames(e, b.delivered) + InTransit(a, b)
  {
    hide Frames;
    assert b.arrived == a.wire[..|b.arrived|];
    assert a.wire == b.arrived[..b.decoded] + b.arrived[b.decoded..] + a.wire[|b.arrived|..];
  }

  // ---- runs ----

  /** The states of a run: each follows from the one before by one event. */
  ghost predicate IsRun(run: seq<System>, events: seq<Event>) {
    && |run| == |events| + 1
    && forall k :: 0 <= k < |events| ==>
         run[k].a.core.Valid() && run[k].b.core.Valid() && NextSystem(run[k], events[k]) == Some(run[k + 1])
  }

  ghost predicate AlwaysRecognisable(run: seq<System>) {
    forall k :: 0 <= k < |run| ==> Recognisable(run[k].a, run[k].b) && Recognisable(run[k].b, run[k].a)
  }

  lemma {:induction false} RunSafe(run: seq<System>, events: seq<Event>, e: Endianness, k: nat)
    requires e.Settled() && IsRun(run, events) && InitialSystem(run[0], e) && AlwaysRecognisable(run)
    requires k < |run|
    ensures SystemSafe(run[k], e)
  {
    hide NextSystem, InitialSystem, SystemSafe;
    if k == 0 {
      InitialSystemSafe(run[0], e);
    } else {
      RunSafe(run, events, e, k - 1);
      var j := k - 1;
      assert NextSystem(run[j], events[j]) == Some(run[j + 1]);
      assert Recognisable(run[j].a, run[j].b) && Recognisable(run[j].b, run[j].a);
      NextSystemSafe(run[k - 1], events[k - 1], e);
    }
  }

  lemma InitialSystemSafe(sys: System, e: Endianness)
    requires e.Settled() && InitialSystem(sys, e)
    ensures SystemSafe(sys, e)
  {
    hide Safe;
    InitialSafe(sys.a, e);
    InitialSafe(sys.b, e);
  }

  /** End to end: in every state of every run, in both directions, nothing is lost, duplicated,
      reordered or altered. */
  lemma EndToEndDelivery(run: seq<System>, events: seq<Event>, e: Endianness, k: nat)
    requires e.Settled() && IsRun(run, events) && InitialSystem(run[0], e) && AlwaysRecognisable(run)
    requires k < |run|
    ensures var a, b := run[k].a, run[k].b;
            && b.delivered <= a.accepted && |b.delivered| + |a.core.txq| <= |a.accepted|
            && a.delivered <= b.accepted && |a.delivered| + |b.core.txq| <= |b.accepted|
    ensures var a, b := run[k].a, run[k].b;
            && b.decoded <= |b.arrived| <= |a.wire| && a.flushed <= |a.core.sendData|
            && Frames(e, a.accepted[|b.delivered|..|a.accepted| - |a.core.txq|]) == InTransit(a, b)
            && a.accepted[|a.accepted| - |a.core.txq|..] == a.core.txq
    ensures var a, b := run[k].a, run[k].b;
            && a.decoded <= |a.arrived| <= |b.wire| && b.flushed <= |b.core.sendData|
            && Frames(e, b.accepted[|a.delivered|..|b.accepted| - |b.core.txq|]) == InTransit(b, a)
            && b.accepted[|b.accepted| - |b.core.txq|..] == b.core.txq
  {
    hide IsRun, AlwaysRecognisable, InitialSystem, Exclusive, Frames;
    RunSafe(run, events, e, k);
    DeliveredInOrder(run[k].a, run[k].b, e);
    DeliveredInOrder(run[k].b, run[k].a, e);
  }

  /** In a run of two endpoints no detection is missed, so the read loops of both need no slack. */
  lemma NothingMissed(run: seq<System>, events: seq<Event>, e: Endianness, k: nat)
    requires e.Settled() && IsRun(run, events) && InitialSystem(run[0], e) && AlwaysRecognisable(run)
    requires k < |run|
    ensures Covered(run[k].a, 0) && Covered(run[k].b, 0)
  {
    RunSafe(run, events, e, k);
    assert Recognisable(run[k].a, run[k].b) && Recognisable(run[k].b, run[k].a);
    hide IsRun, AlwaysRecognisable, InitialSystem, Exclusive, Accounted, LittleStart;
    CoveredByPeer(run[k].a, run[k].b, e);
    CoveredByPeer(run[k].b, run[k].a, e);
  }

  lemma CoveredByPeer(s: Endpoint, peer: Endpoint, e: Endianness)
    requires e.Settled() && Safe(s, e) && Safe(peer, e) && Received(s, peer.wire) && Recognisable(s, peer)
    ensures Covered(s, 0)
  {
    hide Exclusive, Accounted, LittleStart, Received, Steady;
    ArrivedStartsLittle(s, peer, e);
    NothingDropped(s, e);
  }
}
