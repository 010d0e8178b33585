/** The sending half of an endpoint under any interleaving, whatever byte order is in force: what a
    write in flight carries, and what happens on a completely full ring. */
module EndpointSending {
  import opened ByteStrings
  import opened Wrappers
  import opened Framing
  import opened EndpointStates
  import opened EndpointProtocol
  import opened EndpointTokens

  ghost predicate EndsWith(s: Bytes, end: Bytes) {
    |end| <= |s| && s[|s| - |end|..] == end
  }

  /** What holds for an activity of the sending chain: in particular the bytes of a write in
      flight are still the bytes the send buffer shows, and what was last put on the wire is the
      part of them already written. */
  ghost predicate SendOk(s: Endpoint, pc: Pc) {
    match pc
    case SendCreating => s.core.sendData == []
    case SendClaimed => s.flushed == 0 && s.core.sendData != []
    case Writing(data, done) =>
      && data == Shown(s.core.sendSize, s.core.sendData)
      && done == s.flushed <= |data| && EndsWith(s.wire, data[..done])
    case WriteDone(ec, bytes) => bytes == s.flushed
    case SendMarking(bytes) => bytes == s.flushed
    case Refilling => s.flushed == 0
    case SendReleasing => s.flushed == 0
    case _ => true
  }

  /** What every step keeps of the sending half. */
  ghost predicate Steady(s: Endpoint) {
    && s.core.Valid()
    && |s.pending| <= s.core.SendSpace()
    && s.flushed <= |s.core.sendData|
    && (!s.core.sending ==> s.flushed == 0)
    && (|s.core.sendData| == s.core.sendSize ==> s.flushed == 0)
    && (s.core.order.Settled() || s.pending == [])
    && (s.pending == [] || exists i :: i in s.acts && Creating(s.acts[i]))
    && (forall i :: i in s.acts ==> SendOk(s, s.acts[i]))
  }

  // ---- steps of the sending chain ----

  /** Every other step: the sending half is untouched but for the order and the activity. */
  ghost predicate SendUntouched(s: Endpoint, s': Endpoint) {
    && s'.core.sendSize == s.core.sendSize && s'.core.sendData == s.core.sendData
    && s'.core.txq == s.core.txq && s'.pending == s.pending && s'.flushed == s.flushed
    && s'.accepted == s.accepted && s'.wire == s.wire
  }

  lemma UntouchedKeepsSteady(s: Endpoint, i: nat, s': Endpoint)
    requires Steady(s) && i in s.acts && SendUntouched(s, s')
    requires i in s'.acts && s'.acts == s.acts[i := s'.acts[i]] && !Creating(s.acts[i]) && SendOk(s', s'.acts[i])
    requires s'.core.Valid() && (s.core.order.Settled() ==> s'.core.order == s.core.order)
    requires s'.core.sending || s.flushed == 0
    ensures Steady(s')
  {
    if s.pending != [] {
      var j :| j in s.acts && Creating(s.acts[j]);
      assert j in s'.acts && Creating(s'.acts[j]);
    }
    forall j | j in s'.acts ensures SendOk(s', s'.acts[j]) {
      assert SendOk(s, s.acts[j]);
    }
  }

  /** The other activities have nothing at stake when the holder of the token, or the one that
      creates messages under the mutex, changes the send buffer. */
  lemma OthersHaveNothing(s: Endpoint, i: nat, j: nat, s': Endpoint)
    requires Exclusive(s.acts, FlagsOf(s)) && i in s.acts && j in s.acts && i != j
    requires HoldOf(s.acts[i]) == SendToken || s.acts[i].SendCreating?
    ensures SendOk(s', s.acts[j]) && !Creating(s.acts[j])
  {
    TokensAreExclusive(s, i, j);
    assert !Conflict(s.acts[i], s.acts[j]);
    assert Allowed(s.acts[i], FlagsOf(s)) && Allowed(s.acts[j], FlagsOf(s));
  }

  lemma CreateStepBounds(s: Endpoint, i: nat, locked: bool)
    requires Steady(s) && i in s.acts && (locked ==> !s.core.sending)
    requires s.acts[i] == if locked then SendCreating else Refilling
    ensures var s' := CreateStep(s, i, locked);
            && s'.core.Valid() && |s'.pending| <= s'.core.SendSpace()
            && s'.flushed == s.flushed == 0
            && s'.core.order == s.core.order && (s.core.order.Settled() || s'.pending == [])
            && i in s'.acts && s'.acts == s.acts[i := s'.acts[i]] && SendOk(s', s'.acts[i])
            && (s'.pending == [] || Creating(s'.acts[i]))
  {
    assert SendOk(s, s.acts[i]);
  }

  lemma CreateStepKeepsSteady(s: Endpoint, i: nat, locked: bool)
    requires Steady(s) && Exclusive(s.acts, FlagsOf(s))
    requires i in s.acts && s.acts[i] == if locked then SendCreating else Refilling
    ensures Steady(CreateStep(s, i, locked))
  {
    assert Allowed(s.acts[i], FlagsOf(s));
    CreateStepBounds(s, i, locked);
    hide CreateStep, SendOk, Allowed, Exclusive;
    var s' := CreateStep(s, i, locked);
    forall j | j in s'.acts && j != i ensures SendOk(s', s'.acts[j]) {
      OthersHaveNothing(s, i, j, s');
    }
  }

  ghost predicate MovesBytes(pc: Pc, ch: Choice) {
    Creating(pc) || (pc.Writing? && ch.count > 0) || pc.SendMarking?
  }

  lemma QuietSendStep(s: Endpoint, i: nat, ch: Choice)
    requires s.core.Valid() && i in s.acts && SendStep(s, i, ch).Some? && !MovesBytes(s.acts[i], ch)
    requires SendOk(s, s.acts[i]) && Allowed(s.acts[i], FlagsOf(s)) && (!s.core.sending ==> s.flushed == 0)
    ensures var s' := SendStep(s, i, ch).value;
            && SendUntouched(s, s') && s'.core.Valid() && s'.core.order == s.core.order
            && i in s'.acts && s'.acts == s.acts[i := s'.acts[i]] && SendOk(s', s'.acts[i])
            && (s'.core.sending || s.flushed == 0)
  {
    hide CreateStep;
  }

  lemma BytesLeaveBounds(s: Endpoint, i: nat, ch: Choice)
    requires Steady(s) && i in s.acts && SendStep(s, i, ch).Some? && Allowed(s.acts[i], FlagsOf(s))
    requires (s.acts[i].Writing? && ch.count > 0) || s.acts[i].SendMarking?
    ensures var s' := SendStep(s, i, ch).value;
            && s'.core.Valid() && s'.core.SendSpace() >= s.core.SendSpace() && s'.pending == s.pending
            && s'.core.sending && s'.core.order == s.core.order
            && s'.flushed <= |s'.core.sendData| && (|s'.core.sendData| == s'.core.sendSize ==> s'.flushed == 0)
            && i in s'.acts && s'.acts == s.acts[i := s'.acts[i]] && SendOk(s', s'.acts[i])
  {
    hide CreateStep;
    assert SendOk(s, s.acts[i]);
  }

  lemma BytesLeave(s: Endpoint, i: nat, ch: Choice)
    requires Steady(s) && Exclusive(s.acts, FlagsOf(s)) && i in s.acts && SendStep(s, i, ch).Some?
    requires (s.acts[i].Writing? && ch.count > 0) || s.acts[i].SendMarking?
    ensures Steady(SendStep(s, i, ch).value)
  {
    assert Allowed(s.acts[i], FlagsOf(s));
    BytesLeaveBounds(s, i, ch);
    hide SendStep, SendOk, Allowed, Exclusive;
    var s' := SendStep(s, i, ch).value;
    forall j | j in s'.acts && j != i ensures SendOk(s', s'.acts[j]) {
      OthersHaveNothing(s, i, j, s');
    }
    if s.pending != [] {
      var j :| j in s.acts && Creating(s.acts[j]);
      OthersHaveNothing(s, i, j, s');
    }
  }

  lemma SendStepKeepsSteady(s: Endpoint, i: nat, ch: Choice)
    requires Steady(s) && Exclusive(s.acts, FlagsOf(s)) && i in s.acts && SendStep(s, i, ch).Some?
    ensures Steady(SendStep(s, i, ch).value)
  {
    hide CreateStep;
    var pc, s' := s.acts[i], SendStep(s, i, ch).value;
    assert SendOk(s, pc) && Allowed(pc, FlagsOf(s));
    if Creating(pc) {
      CreateStepKeepsSteady(s, i, pc.SendCreating?);
      assert s' == CreateStep(s, i, pc.SendCreating?);
    } else if MovesBytes(pc, ch) {
      BytesLeave(s, i, ch);
    } else {
      QuietSendStep(s, i, ch);
      hide SendStep, SendOk;
      UntouchedKeepsSteady(s, i, s');
    }
  }

  // ---- all other steps ----

  ghost predicate LeavesSending(s: Endpoint, i: nat, s': Endpoint)
    requires i in s.acts
  {
    && SendUntouched(s, s') && s'.core.Valid() && s'.core.sending == s.core.sending
    && i in s'.acts && s'.acts == s.acts[i := s'.acts[i]] && !Creating(s.acts[i]) && SendOk(s', s'.acts[i])
  }

  lemma ReadStepLeavesSending(s: Endpoint, i: nat, ch: Choice, s': Endpoint)
    requires s.core.Valid() && i in s.acts && Allowed(s.acts[i], FlagsOf(s))
    requires ReadStep(s, i, ch) == Some(s')
    ensures LeavesSending(s, i, s')
  {
  }

  lemma ReceiveStepLeavesSending(s: Endpoint, i: nat, s': Endpoint)
    requires s.core.Valid() && i in s.acts && Allowed(s.acts[i], FlagsOf(s))
    requires ReceiveStep(s, i) == Some(s')
    ensures LeavesSending(s, i, s')
  {
    hide ReaderPass;
  }

  lemma EndStepLeavesSending(s: Endpoint, i: nat, s': Endpoint)
    requires s.core.Valid() && i in s.acts && Allowed(s.acts[i], FlagsOf(s))
    requires EndStep(s, i) == Some(s')
    ensures LeavesSending(s, i, s')
  {
    EndStepTouches(s, i);
    hide EndStep;
  }

  lemma GoStepLeavesSending(s: Endpoint, i: nat, ch: Choice, s': Endpoint)
    requires s.core.Valid() && i in s.acts && Allowed(s.acts[i], FlagsOf(s))
    requires GoStep(s, i, ch) == Some(s')
    ensures LeavesSending(s, i, s')
  {
    GoStepTouches(s, i, ch);
    hide GoStep;
  }

  lemma SendKeepsSteady(s: Endpoint, m: Message)
    requires Steady(s)
    ensures Steady(Next(s, Send(m)).value)
  {
    var s' := Next(s, Send(m)).value;
    if s' != s {
      forall j | j in s'.acts ensures SendOk(s', s'.acts[j]) {
        assert SendOk(s, s.acts[j]);
      }
    }
  }

  lemma StartKeepsSteady(s: Endpoint, i: nat, pc: Pc)
    requires Steady(s) && Next(s, Start(i, pc)).Some?
    ensures Steady(Next(s, Start(i, pc)).value)
  {
    var s' := Next(s, Start(i, pc)).value;
    if s.pending != [] {
      var j :| j in s.acts && Creating(s.acts[j]);
      assert j in s'.acts && Creating(s'.acts[j]);
    }
    forall j | j in s'.acts ensures SendOk(s', s'.acts[j]) {
      assert j != i ==> SendOk(s, s.acts[j]);
    }
  }

  /** Which steps are not the sending chain's, and what they leave. */
  lemma OtherStepLeavesSending(s: Endpoint, i: nat, ch: Choice)
    requires s.core.Valid() && Next(s, Step(i, ch)).Some? && i in s.acts && Allowed(s.acts[i], FlagsOf(s))
    requires Next(s, Step(i, ch)) != SendStep(s, i, ch)
    ensures LeavesSending(s, i, Next(s, Step(i, ch)).value)
  {
    hide SendStep, ReadStep, ReceiveStep, EndStep, GoStep, LeavesSending, Allowed;
    var s' := Next(s, Step(i, ch)).value;
    StepKinds(s, i, ch);
    if ReadStep(s, i, ch) == Some(s') {
      ReadStepLeavesSending(s, i, ch, s');
    } else if ReceiveStep(s, i) == Some(s') {
      ReceiveStepLeavesSending(s, i, s');
    } else if EndStep(s, i) == Some(s') {
      EndStepLeavesSending(s, i, s');
    } else {
      GoStepLeavesSending(s, i, ch, s');
    }
  }

  lemma NextKeepsSteady(s: Endpoint, a: Action)
    requires Steady(s) && Exclusive(s.acts, FlagsOf(s)) && Next(s, a).Some?
    ensures Steady(Next(s, a).value)
  {
    var s' := Next(s, a).value;
    match a {
      case Send(m) => SendKeepsSteady(s, m);
      case Start(i, pc) => StartKeepsSteady(s, i, pc);
      case Step(i, ch) =>
        hide SendStep, ReadStep, ReceiveStep, EndStep, GoStep;
        StepKinds(s, i, ch);
        assert Allowed(s.acts[i], FlagsOf(s)) && SendOk(s, s.acts[i]);
        if Next(s, a) == SendStep(s, i, ch) {
          SendStepKeepsSteady(s, i, ch);
        } else {
          OtherStepLeavesSending(s, i, ch);
          OrderAfterStep(s, i, ch);
          hide Next, Exclusive, SendOk;
          UntouchedKeepsSteady(s, i, s');
        }
    }
  }

  // ---- the full send ring ----

  /** A write carries no bytes exactly when the send ring is completely full. */
  lemma WriteIsEmptyIffFull(s: Endpoint, i: nat, ch: Choice)
    requires s.core.Valid() && i in s.acts && s.acts[i].SendClaimed? && SendOk(s, s.acts[i])
    ensures SendStep(s, i, ch).Some?
    ensures var pc := SendStep(s, i, ch).value.acts[i];
            pc.Writing? && (pc.data == [] <==> |s.core.sendData| == s.core.sendSize)
  {
  }

  /** The states of activity `i` left alone. */
  ghost predicate StepsAlone(states: seq<Endpoint>, i: nat, ch: Choice) {
    forall k :: 0 <= k < |states| - 1 ==>
      states[k].core.Valid() && i in states[k].acts && SendStep(states[k], i, ch) == Some(states[k + 1])
  }

  /** And then the sending chain, left alone on a live endpoint -- write, completion, marking,
      refilling, release and run_sending again -- comes back to the very same state, and
      no byte has moved. */
  lemma FullRingSpins(s: Endpoint, i: nat, ch: Choice) returns (states: seq<Endpoint>)
    requires s.core.Valid() && i in s.acts && s.acts[i].SendClaimed? && SendOk(s, s.acts[i])
    requires |s.core.sendData| == s.core.sendSize && s.core.sending && s.pending == [] && !s.locked
    requires s.core.bits.Value() == RUNNING_ENDPOINT && ch.ec.Success? && ch.count == 0
    ensures |states| == 8 && states[0] == states[7] == s && StepsAlone(states, i, ch)
  {
    var free := s.(core := s.core.(sending := false));
    var s1, s2, s3 := s.At(i, Writing([], 0)), s.At(i, WriteDone(Success, 0)), s.At(i, SendMarking(0));
    var s4, s5, s6 := s.At(i, Refilling), s.At(i, SendReleasing), free.At(i, SendEntry);
    states := [s, s1, s2, s3, s4, s5, s6, s];
    WritesNothing(s, s1, s2, s3, i, ch);
    MarksAndFillsNothing(s, s3, s4, s5, i, ch);
    ReleasesAndClaims(s, s5, s6, i, ch);
    hide SendStep;
    forall k | 0 <= k < |states| - 1
      ensures states[k].core.Valid() && i in states[k].acts && SendStep(states[k], i, ch) == Some(states[k + 1])
    {
      assert k == 0 || k == 1 || k == 2 || k == 3 || k == 4 || k == 5 || k == 6;
    }
  }

  lemma ReleasesAndClaims(s: Endpoint, s5: Endpoint, s6: Endpoint, i: nat, ch: Choice)
    requires s.core.Valid() && i in s.acts && s.acts[i].SendClaimed? && s.core.sendData != []
    requires s.core.sending && !s.locked && s.core.bits.Value() == RUNNING_ENDPOINT
    requires s5 == s.At(i, SendReleasing) && s6 == s.(core := s.core.(sending := false)).At(i, SendEntry)
    ensures SendStep(s5, i, ch) == Some(s6) && SendStep(s6, i, ch) == Some(s)
  {
    assert s.acts[i := SendReleasing][i := SendEntry] == s.acts[i := SendEntry];
    assert s.acts[i := SendEntry][i := SendClaimed] == s.acts;
  }

  lemma WritesNothing(s: Endpoint, s1: Endpoint, s2: Endpoint, s3: Endpoint, i: nat, ch: Choice)
    requires s.core.Valid() && i in s.acts && s.acts[i].SendClaimed? && |s.core.sendData| == s.core.sendSize
    requires s.core.bits.Value() == RUNNING_ENDPOINT && ch.ec.Success? && ch.count == 0
    requires s1 == s.At(i, Writing([], 0)) && s2 == s.At(i, WriteDone(Success, 0)) && s3 == s.At(i, SendMarking(0))
    ensures SendStep(s, i, ch) == Some(s1) && SendStep(s1, i, ch) == Some(s2) && SendStep(s2, i, ch) == Some(s3)
  {
    assert s.acts[i := Writing([], 0)][i := WriteDone(Success, 0)] == s.acts[i := WriteDone(Success, 0)];
    assert s.acts[i := WriteDone(Success, 0)][i := SendMarking(0)] == s.acts[i := SendMarking(0)];
  }

  lemma MarksAndFillsNothing(s: Endpoint, s3: Endpoint, s4: Endpoint, s5: Endpoint, i: nat, ch: Choice)
    requires s.core.Valid() && |s.core.sendData| == s.core.sendSize && s.pending == []
    requires s3 == s.At(i, SendMarking(0)) && s4 == s.At(i, Refilling) && s5 == s.At(i, SendReleasing)
    ensures SendStep(s3, i, ch) == Some(s4) && SendStep(s4, i, ch) == Some(s5)
  {
    var d := s.core.sendData;
    assert d[0..] == d && d + [] == d;
    assert s.acts[i := SendMarking(0)][i := Refilling] == s.acts[i := Refilling];
    assert s.acts[i := Refilling][i := SendReleasing] == s.acts[i := SendReleasing];
  }

  /** In any state every step of a completely full ring leaves its bytes, and the wire, alone. */
  lemma FullRingStays(s: Endpoint, a: Action)
    requires Steady(s) && Exclusive(s.acts, FlagsOf(s)) && Next(s, a).Some?
    requires |s.core.sendData| == s.core.sendSize
    ensures Next(s, a).value.core.sendData == s.core.sendData && Next(s, a).value.wire == s.wire
    ensures Next(s, a).value.core.sendSize == s.core.sendSize
  {
    if a.Step? {
      hide SendStep, ReadStep, ReceiveStep, EndStep, GoStep;
      StepKinds(s, a.i, a.ch);
      assert Allowed(s.acts[a.i], FlagsOf(s)) && SendOk(s, s.acts[a.i]);
      if Next(s, a) == SendStep(s, a.i, a.ch) {
        FullRingSendStep(s, a.i, a.ch);
      } else {
        OtherStepLeavesSending(s, a.i, a.ch);
      }
    }
  }

  lemma FullRingSendStep(s: Endpoint, i: nat, ch: Choice)
    requires Steady(s) && i in s.acts && SendStep(s, i, ch).Some? && |s.core.sendData| == s.core.sendSize
    ensures var s' := SendStep(s, i, ch).value;
            s'.core.sendData == s.core.sendData && s'.wire == s.wire && s'.core.sendSize == s.core.sendSize
  {
    assert SendOk(s, s.acts[i]);
    assert s.core.sendData[0..] == s.core.sendData && s.core.sendData + [] == s.core.sendData;
    assert s.pending == [];
  }
}
