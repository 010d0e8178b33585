/** The account of the bytes sent: every byte of every accepted message is, exactly once and in order,
    on the wire, in the send buffer, in frames being written, or still to be framed. */
module EndpointAccounts {
  import opened ByteStrings
  import opened Framing
  import opened EndpointStates
  import opened EndpointProtocol
  import opened EndpointTokens
  import opened EndpointSending

  /** The bytes of accepted messages, wherever they are. */
  ghost predicate Accounted(s: Endpoint, e: Endianness)
    requires e.Settled()
  {
    && s.flushed <= |s.core.sendData|
    && s.wire + s.core.sendData[s.flushed..] + s.pending + Frames(e, s.core.txq) == Frames(e, s.accepted)
    && |s.core.txq| <= |s.accepted|
    && s.accepted[|s.accepted| - |s.core.txq|..] == s.core.txq
  }

  /** The sender frames in `e` or, undetected, not at all. */
  ghost predicate SendSafe(s: Endpoint, e: Endianness)
    requires e.Settled()
  {
    && Steady(s)
    && (s.core.order == e || s.core.order.DUNNO?)
    && Accounted(s, e)
  }

  lemma AccountAdd(s: Endpoint, s': Endpoint, e: Endianness)
    requires e.Settled() && s.core.order == e && Accounted(s, e) && NextFrame(s.core, s.pending).Add?
    requires s' == s.(core := s.core.(txq := s.core.txq[1..]),
                      pending := s.pending + NextFrame(s.core, s.pending).frame)
    ensures Accounted(s', e) && |s'.pending| <= s'.core.SendSpace()
  {
    var q, f := s.core.txq, Frame(e, s.core.txq[0]);
    FramesFirst(e, q);
    hide Frames, Frame;
    Regroup(s.wire + s.core.sendData[s.flushed..], s.pending, f, Frames(e, q[1..]));
    SuffixRest(s.accepted, q);
  }

  lemma Regroup(a: Bytes, p: Bytes, f: Bytes, r: Bytes)
    ensures (a + p) + (f + r) == (a + (p + f)) + r
  {
  }

  lemma SuffixRest<T>(all: seq<T>, end: seq<T>)
    requires 0 < |end| <= |all| && all[|all| - |end|..] == end
    ensures all[|all| - |end[1..]|..] == end[1..]
  {
    assert all[|all| - |end|..][1..] == all[|all| - |end| + 1..];
  }

  lemma AccountAnnounce(s: Endpoint, s': Endpoint, e: Endianness)
    requires e.Settled() && Accounted(s, e)
    requires s'.core.sendData == s.core.sendData + s.pending && s'.pending == []
    requires s'.wire == s.wire && s'.flushed == s.flushed && s'.accepted == s.accepted && s'.core.txq == s.core.txq
    ensures Accounted(s', e)
  {
    hide Frames;
    assert s'.core.sendData[s.flushed..] == s.core.sendData[s.flushed..] + s.pending;
    Announced(s.wire, s.core.sendData[s.flushed..], s.pending);
  }

  lemma Announced(w: Bytes, d: Bytes, p: Bytes)
    ensures w + (d + p) + [] == w + d + p
  {
  }

  lemma AccountTransmit(s: Endpoint, s': Endpoint, e: Endianness, k: nat)
    requires e.Settled() && Accounted(s, e) && s.flushed + k <= |s.core.sendData|
    requires s'.wire == s.wire + s.core.sendData[s.flushed..s.flushed + k] && s'.flushed == s.flushed + k
    requires s'.core == s.core && s'.pending == s.pending && s'.accepted == s.accepted
    ensures Accounted(s', e)
  {
    hide Frames;
    var d := s.core.sendData;
    assert d[s.flushed..] == d[s.flushed..s.flushed + k] + d[s.flushed + k..];
    assert s'.wire + d[s'.flushed..] == s.wire + d[s.flushed..];
  }

  lemma SameAccount(s: Endpoint, s': Endpoint, e: Endianness)
    requires e.Settled() && Accounted(s, e) && SendUntouched(s, s')
    ensures Accounted(s', e)
  {
  }

  lemma CreateStepAccounts(s: Endpoint, i: nat, locked: bool, e: Endianness)
    requires e.Settled() && s.core.Valid() && Accounted(s, e) && (s.core.order == e || s.core.order.DUNNO?)
    requires s.core.order.Settled() || s.pending == []
    ensures Accounted(CreateStep(s, i, locked), e)
  {
    hide Accounted;
    var s' := CreateStep(s, i, locked);
    match NextFrame(s.core, s.pending) {
      case Add(frame) => AccountAdd(s, s', e);
      case Raise => SameAccount(s, s', e);
      case Stop => AccountAnnounce(s, s', e);
    }
  }

  lemma SendStepAccounts(s: Endpoint, i: nat, ch: Choice, e: Endianness)
    requires e.Settled() && SendSafe(s, e) && Exclusive(s.acts, FlagsOf(s)) && i in s.acts
    requires SendStep(s, i, ch).Some?
    ensures Accounted(SendStep(s, i, ch).value, e)
  {
    hide CreateStep, Accounted;
    var pc, s' := s.acts[i], SendStep(s, i, ch).value;
    assert SendOk(s, pc) && Allowed(pc, FlagsOf(s));
    hide Exclusive, Steady;
    if Creating(pc) {
      CreateStepAccounts(s, i, pc.SendCreating?, e);
      assert s' == CreateStep(s, i, pc.SendCreating?);
    } else if pc.Writing? && ch.count > 0 {
      AccountTransmit(s, s', e, ch.count);
    } else if pc.SendMarking? {
      AccountMark(s, s', e);
    } else {
      SameAccount(s, s', e);
    }
  }

  lemma AccountMark(s: Endpoint, s': Endpoint, e: Endianness)
    requires e.Settled() && Accounted(s, e) && s'.flushed == 0
    requires s'.core.sendData == s.core.sendData[s.flushed..] && s'.core.txq == s.core.txq
    requires s'.pending == s.pending && s'.wire == s.wire && s'.accepted == s.accepted
    ensures Accounted(s', e)
  {
    hide Frames;
    assert s'.core.sendData[0..] == s.core.sendData[s.flushed..];
  }

  lemma AccountAccept(s: Endpoint, s': Endpoint, m: Message, e: Endianness)
    requires e.Settled() && Accounted(s, e)
    requires s' == s.(core := s.core.(txq := s.core.txq + [m]), accepted := s.accepted + [m])
    ensures Accounted(s', e)
  {
    hide Frames;
    var q := s.core.txq;
    FramesAppend(e, s.accepted, [m]);
    FramesAppend(e, q, [m]);
    var a := s.wire + s.core.sendData[s.flushed..] + s.pending;
    assert a + (Frames(e, q) + Frames(e, [m])) == (a + Frames(e, q)) + Frames(e, [m]);
    assert s'.accepted[|s'.accepted| - |s'.core.txq|..] == s.accepted[|s.accepted| - |q|..] + [m];
  }

  lemma NextKeepsSendSafe(s: Endpoint, a: Action, e: Endianness)
    requires e.Settled() && SendSafe(s, e) && Exclusive(s.acts, FlagsOf(s)) && Next(s, a).Some?
    requires var order := Next(s, a).value.core.order; order == e || order.DUNNO?
    ensures SendSafe(Next(s, a).value, e)
  {
    assert s.core.Valid();
    hide SendStep, ReadStep, ReceiveStep, EndStep, GoStep, Accounted, Exclusive, Steady;
    var s' := Next(s, a).value;
    NextKeepsSteady(s, a);
    match a {
      case Send(m) =>
        if s' != s {
          AccountAccept(s, s', m, e);
        }
      case Start(_, _) => SameAccount(s, s', e);
      case Step(i, ch) => StepAccounts(s, i, ch, e);
    }
  }

  lemma StepAccounts(s: Endpoint, i: nat, ch: Choice, e: Endianness)
    requires e.Settled() && SendSafe(s, e) && Exclusive(s.acts, FlagsOf(s)) && Next(s, Step(i, ch)).Some?
    ensures Accounted(Next(s, Step(i, ch)).value, e)
  {
    hide SendStep, ReadStep, ReceiveStep, EndStep, GoStep, Accounted;
    StepKinds(s, i, ch);
    assert Allowed(s.acts[i], FlagsOf(s));
    if Next(s, Step(i, ch)) == SendStep(s, i, ch) {
      SendStepAccounts(s, i, ch, e);
    } else {
      OtherStepLeavesSending(s, i, ch);
      SameAccount(s, Next(s, Step(i, ch)).value, e);
    }
  }
}
