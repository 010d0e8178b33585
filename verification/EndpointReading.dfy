/** The reading half of an endpoint under any interleaving: the messages handed on are exactly
    those whose frames make up the bytes decoded so far. */
module EndpointReading {
  import opened ByteStrings
  import opened Wrappers
  import opened Framing
  import opened ProtoMessageReaders
  import opened EndpointStates
  import opened EndpointProtocol
  import opened EndpointTokens

  ghost predicate ReadOk(s: Endpoint, pc: Pc) {
    match pc
    case ReadClaimed(_) => s.dropped == s.decoded
    case Reading(_) => s.dropped == s.decoded
    case ReadDone(ec, chunk) => s.dropped == s.decoded && (ec.Success? ==> |chunk| <= s.core.ReadSpace())
    case ReadMarking(chunk) => s.dropped == s.decoded && |chunk| <= s.core.ReadSpace()
    case Parsing => s.dropped == s.decoded
    case Consuming(consumed, _) => s.dropped + consumed == s.decoded
    case SettingNeeded(_) => s.dropped == s.decoded
    case ReadReleasing => s.dropped == s.decoded
    case _ => true
  }

  /** Settled on `e`, or yet to detect it -- which works for a little-endian peer. */
  ghost predicate OrderKnown(s: Endpoint, e: Endianness) {
    s.core.order == e || (s.core.order.DUNNO? && e.LITTLE? && s.decoded == 0)
  }

  ghost predicate Decoded(s: Endpoint, e: Endianness)
    requires e.Settled()
  {
    && s.dropped <= s.decoded <= |s.arrived|
    && s.core.readData == s.arrived[s.dropped..]
    && s.arrived[..s.decoded] == Frames(e, s.delivered)
    && Deliverable(s.delivered)
  }

  ghost predicate ReadSafe(s: Endpoint, e: Endianness)
    requires e.Settled()
  {
    && s.core.Valid()
    && Decoded(s, e)
    && OrderKnown(s, e)
    && (!s.core.reading ==> s.dropped == s.decoded)
    && (forall i :: i in s.acts ==> ReadOk(s, s.acts[i]))
  }

  /** The outcome of the reader's pass, whether it knew the order or detected it. */
  lemma PassParses(c: Core, e: Endianness)
    requires c.Valid() && e.Settled()
    requires c.order == e || (c.order.DUNNO? && e.LITTLE? && LittleStart(c.readData))
    ensures var o, p := ReaderPass(c), Parse(e, Shown(c.readSize, c.readData));
            && o.bodies == p.bodies && o.consumed == p.consumed && o.needed == p.needed
            && (o.error.Some? <==> p.refused.Some?)
            && (o.e == e || (o.e == c.order && o.consumed == 0))
  {
    hide Check, Parse;
    var data := Shown(c.readSize, c.readData);
    if c.order == e {
      CheckSettled(e, true, data);
    } else {
      DetectsLittle(data);
      if |data| < HEAD_SIZE { ShortParse(e, data); }
    }
  }

  lemma ShortParse(e: Endianness, s: Bytes)
    requires e.Settled() && |s| < HEAD_SIZE
    ensures Parse(e, s).consumed == 0
  {
  }

  lemma ParsingDecodes(s: Endpoint, o: Outcome, e: Endianness)
    requires e.Settled() && s.core.Valid() && Decoded(s, e) && s.dropped == s.decoded
    requires var p := Parse(e, Shown(s.core.readSize, s.core.readData)); o.bodies == p.bodies && o.consumed == p.consumed
    ensures var s' := s.(core := s.core.(order := o.e), delivered := s.delivered + o.bodies, decoded := s.decoded + o.consumed);
            Decoded(s', e)
  {
    hide Parse, Frames;
    var data := Shown(s.core.readSize, s.core.readData);
    ParseConsumesFrames(e, data);
    FramesAppend(e, s.delivered, o.bodies);
    ParseOfNothing(e);
    var d := s.decoded + o.consumed;
    assert s.arrived[..d] == s.arrived[..s.decoded] + data[..o.consumed];
  }

  lemma ParseOfNothing(e: Endianness)
    requires e.Settled()
    ensures Parse(e, []).consumed == 0
  {
  }

  ghost predicate ReadUntouched(s: Endpoint, s': Endpoint) {
    && s'.core.readSize == s.core.readSize && s'.core.readData == s.core.readData
    && s'.arrived == s.arrived && s'.dropped == s.dropped
    && s'.decoded == s.decoded && s'.delivered == s.delivered
  }

  /** A step of `i` that leaves what has been read alone. */
  ghost predicate LeavesReading(s: Endpoint, i: nat, s': Endpoint)
    requires i in s.acts
  {
    && ReadUntouched(s, s') && s'.core.Valid() && s'.core.order == s.core.order
    && i in s'.acts && s'.acts == s.acts[i := s'.acts[i]] && ReadOk(s', s'.acts[i])
    && (s'.core.reading || s.dropped == s.decoded)
  }

  lemma LeavingKeepsReadSafe(s: Endpoint, i: nat, s': Endpoint, e: Endianness)
    requires e.Settled() && ReadSafe(s, e) && i in s.acts && LeavesReading(s, i, s')
    ensures ReadSafe(s', e)
  {
    forall j | j in s'.acts ensures ReadOk(s', s'.acts[j]) {
      assert ReadOk(s, s.acts[j]);
    }
  }

  /** Only the holder of the read token has anything at stake when the read buffer changes. */
  lemma OtherReadersHaveNothing(s: Endpoint, i: nat, j: nat, s': Endpoint)
    requires Exclusive(s.acts, FlagsOf(s)) && i in s.acts && j in s.acts && i != j
    requires HoldOf(s.acts[i]) == ReadToken
    ensures ReadOk(s', s.acts[j])
  {
    assert !Conflict(s.acts[i], s.acts[j]);
  }

  lemma SendStepLeavesReading(s: Endpoint, i: nat, ch: Choice)
    requires s.core.Valid() && i in s.acts && SendStep(s, i, ch).Some?
    requires |s.pending| <= s.core.SendSpace()
    requires !s.core.reading ==> s.dropped == s.decoded
    ensures LeavesReading(s, i, SendStep(s, i, ch).value)
  {
    SendStepTouches(s, i, ch);
    hide SendStep;
  }

  lemma ReadStepLeavesReading(s: Endpoint, i: nat, ch: Choice)
    requires s.core.Valid() && i in s.acts && ReadStep(s, i, ch).Some? && ReadOk(s, s.acts[i])
    requires !s.core.reading ==> s.dropped == s.decoded
    ensures LeavesReading(s, i, ReadStep(s, i, ch).value)
  {
  }

  lemma EndStepLeavesReading(s: Endpoint, i: nat)
    requires s.core.Valid() && i in s.acts && EndStep(s, i).Some?
    requires !s.core.reading ==> s.dropped == s.decoded
    ensures LeavesReading(s, i, EndStep(s, i).value)
  {
    EndStepTouches(s, i);
    hide EndStep;
  }

  lemma GoStepLeavesReading(s: Endpoint, i: nat, ch: Choice)
    requires s.core.Valid() && i in s.acts && GoStep(s, i, ch).Some?
    requires !s.core.reading ==> s.dropped == s.decoded
    ensures LeavesReading(s, i, GoStep(s, i, ch).value)
  {
    GoStepTouches(s, i, ch);
    hide GoStep;
  }

  lemma ParsingStepDecodes(s: Endpoint, i: nat, e: Endianness)
    requires e.Settled() && s.core.Valid() && Decoded(s, e) && OrderKnown(s, e)
    requires i in s.acts && s.acts[i].Parsing? && s.dropped == s.decoded
    requires s.core.order.DUNNO? ==> LittleStart(s.arrived)
    ensures Decoded(ReceiveStep(s, i).value, e) && OrderKnown(ReceiveStep(s, i).value, e)
  {
    hide ReaderPass, Parse, Frames, Decoded;
    var s', o := ReceiveStep(s, i).value, ReaderPass(s.core);
    NothingDropped(s, e);
    PassParses(s.core, e);
    ParsingDecodes(s, o, e);
    SameDecoded(s.(core := s.core.(order := o.e), delivered := s.delivered + o.bodies, decoded := s.decoded + o.consumed), s', e);
  }

  lemma ReceiveStepDecodes(s: Endpoint, i: nat, e: Endianness)
    requires e.Settled() && s.core.Valid() && Decoded(s, e) && OrderKnown(s, e)
    requires i in s.acts && ReceiveStep(s, i).Some? && ReadOk(s, s.acts[i])
    requires s.core.order.DUNNO? ==> LittleStart(s.arrived)
    ensures Decoded(ReceiveStep(s, i).value, e) && OrderKnown(ReceiveStep(s, i).value, e)
  {
    hide ReaderPass, Parse, Frames, Decoded;
    var pc, s' := s.acts[i], ReceiveStep(s, i).value;
    if pc.ReadMarking? {
      ArrivingDecodes(s, pc.chunk, s', e);
    } else if pc.Parsing? {
      ParsingStepDecodes(s, i, e);
    } else if pc.Consuming? {
      ConsumingDecodes(s, pc.consumed, s', e);
    } else {
      SameDecoded(s, s', e);
    }
  }

  lemma ArrivingDecodes(s: Endpoint, chunk: Bytes, s': Endpoint, e: Endianness)
    requires e.Settled() && Decoded(s, e)
    requires s'.core.readData == s.core.readData + chunk && s'.arrived == s.arrived + chunk
    requires s'.dropped == s.dropped && s'.decoded == s.decoded && s'.delivered == s.delivered
    ensures Decoded(s', e)
  {
    assert s'.core.readData == s'.arrived[s.dropped..];
    assert s'.arrived[..s.decoded] == s.arrived[..s.decoded];
  }

  lemma ConsumingDecodes(s: Endpoint, consumed: nat, s': Endpoint, e: Endianness)
    requires e.Settled() && Decoded(s, e)
    requires consumed <= |s.core.readData| && s.dropped + consumed <= s.decoded
    requires s'.core.readData == s.core.readData[consumed..] && s'.dropped == s.dropped + consumed
    requires s'.arrived == s.arrived && s'.decoded == s.decoded && s'.delivered == s.delivered
    ensures Decoded(s', e)
  {
    assert s'.core.readData == s'.arrived[s'.dropped..];
  }

  lemma NothingDropped(s: Endpoint, e: Endianness)
    requires e.Settled() && Decoded(s, e)
    ensures s.dropped == 0 ==> s.core.readData == s.arrived
  {
    assert s.arrived[0..] == s.arrived;
  }

  lemma ReceiveStepActs(s: Endpoint, i: nat)
    requires s.core.Valid() && i in s.acts && ReceiveStep(s, i).Some? && ReadOk(s, s.acts[i])
    requires Allowed(s.acts[i], FlagsOf(s))
    ensures var s' := ReceiveStep(s, i).value;
            && s'.core.Valid() && (!s'.core.reading ==> s'.dropped == s'.decoded)
            && i in s'.acts && s'.acts == s.acts[i := s'.acts[i]] && ReadOk(s', s'.acts[i])
  {
    hide ReaderPass;
  }

  lemma ReceiveStepKeepsReadSafe(s: Endpoint, i: nat, e: Endianness)
    requires e.Settled() && ReadSafe(s, e) && Exclusive(s.acts, FlagsOf(s))
    requires i in s.acts && ReceiveStep(s, i).Some?
    requires s.core.order.DUNNO? ==> LittleStart(s.arrived)
    ensures ReadSafe(ReceiveStep(s, i).value, e)
  {
    var pc, s' := s.acts[i], ReceiveStep(s, i).value;
    assert ReadOk(s, pc) && Allowed(pc, FlagsOf(s));
    assert HoldOf(pc) == ReadToken;
    ReceiveStepDecodes(s, i, e);
    ReceiveStepActs(s, i);
    hide ReceiveStep, Decoded;
    forall j | j in s'.acts ensures ReadOk(s', s'.acts[j]) {
      if j != i { OtherReadersHaveNothing(s, i, j, s'); }
    }
  }

  lemma NextKeepsReadSafe(s: Endpoint, a: Action, e: Endianness)
    requires e.Settled() && ReadSafe(s, e) && Exclusive(s.acts, FlagsOf(s)) && Next(s, a).Some?
    requires |s.pending| <= s.core.SendSpace()
    requires s.core.order.DUNNO? ==> LittleStart(s.arrived)
    ensures ReadSafe(Next(s, a).value, e)
  {
    hide SendStep, ReadStep, ReceiveStep, EndStep, GoStep, Decoded;
    var s' := Next(s, a).value;
    match a {
      case Send(_) =>
        SameDecoded(s, s', e);
        forall j | j in s'.acts ensures ReadOk(s', s'.acts[j]) {
          assert ReadOk(s, s.acts[j]);
        }
      case Start(i, pc) =>
        SameDecoded(s, s', e);
        forall j | j in s'.acts ensures ReadOk(s', s'.acts[j]) {
          assert j != i ==> ReadOk(s, s.acts[j]);
        }
      case Step(i, ch) =>
        StepKinds(s, i, ch);
        assert ReadOk(s, s.acts[i]);
        if ReceiveStep(s, i) == Some(s') {
          ReceiveStepKeepsReadSafe(s, i, e);
        } else {
          if SendStep(s, i, ch) == Some(s') {
            SendStepLeavesReading(s, i, ch);
          } else if ReadStep(s, i, ch) == Some(s') {
            ReadStepLeavesReading(s, i, ch);
          } else if EndStep(s, i) == Some(s') {
            EndStepLeavesReading(s, i);
          } else {
            GoStepLeavesReading(s, i, ch);
          }
          LeavingKeepsReadSafe(s, i, s', e);
        }
    }
  }

  lemma SameDecoded(s: Endpoint, s': Endpoint, e: Endianness)
    requires e.Settled() && Decoded(s, e) && ReadUntouched(s, s')
    ensures Decoded(s', e)
  {
  }
}
