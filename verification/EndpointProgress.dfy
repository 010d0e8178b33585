/** The read loop asks for what the parser needs and always has room for it, until a read fills the
    ring completely -- which is exactly when it stops, and stops for good. */
module EndpointProgress {
  import opened ByteStrings
  import opened Wrappers
  import opened Framing
  import opened ProtoMessageReaders
  import opened EndpointStates
  import opened EndpointProtocol
  import opened EndpointTokens

  const WHOLE_FRAME: nat := HEAD_SIZE + MAX_BODY

  // ---- one completed read ----

  /** With the ring full the reader sees nothing, and nothing moves. */
  lemma FullPass(c: Core)
    requires c.Valid() && |c.readData| == c.readSize
    ensures ReaderPass(c) == Outcome([], 0, HEAD_SIZE, c.order, None)
  {
    hide Check;
    ShortPass(c.order, Shown(c.readSize, c.readData));
  }

  /** What a pass leaves and asks for when the ring is not full. */
  lemma PartialFrameLeft(c: Core)
    requires c.Valid() && |c.readData| < c.readSize && ReaderPass(c).error.None?
    ensures var o := ReaderPass(c);
            1 <= o.needed && |c.readData| - o.consumed + o.needed <= WHOLE_FRAME + Slack(c.order, c.readData)
  {
    hide Check;
    PassLeaves(c.order, c.readData);
  }

  /** After a read of `chunk` that the reader accepts, the next run_reading stalls -- takes the
      token and asks for nothing -- if and only if the read filled the ring to the last byte. */
  lemma StallsExactlyWhenFull(c: Core, chunk: Bytes)
    requires c.Valid() && |chunk| <= c.ReadSpace()
    requires c.readSize >= WHOLE_FRAME + Slack(c.order, c.readData + chunk)
    requires c.bits.Value() == RUNNING_ENDPOINT && CompleteReading(c, chunk).1.None?
    ensures var (c', want) := RunReading(CompleteReading(c, chunk).0);
            && want.Some? && c'.reading
            && (want.value == 0 <==> |c.readData| + |chunk| == c.readSize)
            && (want.value > 0 ==> want.value == CompleteReading(c, chunk).0.readNeeded)
  {
    hide ReaderPass, Slack;
    var c1 := c.(readData := c.readData + chunk);
    if |c1.readData| == c1.readSize {
      FullPass(c1);
    } else {
      PartialFrameLeft(c1);
    }
  }

  // ---- the invariant ----

  /** No more may be needed, beyond what is held, than one frame, `slack` bytes for a missed
      detection, and one byte for every call of go, which adds one to read_needed. */
  function Bound(s: Endpoint, slack: nat): nat {
    WHOLE_FRAME + slack + s.goes
  }

  ghost predicate ProgressOk(s: Endpoint, pc: Pc, slack: nat) {
    var held := |s.core.readData|;
    match pc
    case ReadClaimed(want) => 1 <= want && held + want <= Bound(s, slack)
    case Reading(want) => 1 <= want && held + want <= Bound(s, slack)
    case ReadDone(ec, chunk) => ec.Success? ==> held + |chunk| <= s.core.readSize
    case ReadMarking(chunk) => held + |chunk| <= s.core.readSize
    case Parsing => held < s.core.readSize
    case Consuming(consumed, needed) =>
      consumed <= held && 1 <= needed && held - consumed + needed <= WHOLE_FRAME + slack
    case SettingNeeded(needed) => 1 <= needed && held + needed <= WHOLE_FRAME + slack
    case ReadReleasing => held + s.core.readNeeded <= Bound(s, slack)
    case _ => true
  }

  ghost predicate Progressing(s: Endpoint, slack: nat) {
    && |s.core.readData| < s.core.readSize
    && (!s.core.reading ==> |s.core.readData| + s.core.readNeeded <= Bound(s, slack))
    && (forall i :: i in s.acts ==> ProgressOk(s, s.acts[i], slack))
  }

  /** The ring is full, and nobody is on the way to reading more into it. */
  ghost predicate Drained(pc: Pc) {
    match pc
    case ReadClaimed(want) => want == 0
    case Reading(_) => false
    case ReadDone(_, _) => false
    case ReadMarking(_) => false
    case Consuming(consumed, _) => consumed == 0
    case _ => true
  }

  ghost predicate Stalled(s: Endpoint) {
    && |s.core.readData| == s.core.readSize
    && (forall i :: i in s.acts ==> Drained(s.acts[i]))
  }

  /** The slack covers what a missed detection could leave out now. */
  ghost predicate Covered(s: Endpoint, slack: nat) {
    Slack(s.core.order, s.core.readData) <= slack
  }

  lemma OthersHaveNothing(s: Endpoint, i: nat, j: nat, s': Endpoint, slack: nat)
    requires Exclusive(s.acts, FlagsOf(s)) && i in s.acts && j in s.acts && i != j
    requires HoldOf(s.acts[i]) == ReadToken || (s.acts[i].ReadEntry? && !s.core.reading)
    ensures ProgressOk(s', s.acts[j], slack) && Drained(s.acts[j])
  {
    assert !Conflict(s.acts[i], s.acts[j]) && Allowed(s.acts[j], FlagsOf(s));
  }

  lemma ReadStepProgress(s: Endpoint, i: nat, ch: Choice, slack: nat)
    requires s.core.Valid() && i in s.acts && ReadStep(s, i, ch).Some?
    requires ProgressOk(s, s.acts[i], slack) && Bound(s, slack) <= s.core.readSize
    requires !s.core.reading ==> |s.core.readData| + s.core.readNeeded <= Bound(s, slack)
    ensures var s' := ReadStep(s, i, ch).value;
            && i in s'.acts && s'.acts == s.acts[i := s'.acts[i]] && ProgressOk(s', s'.acts[i], slack)
            && s'.goes == s.goes
            && s'.core.readData == s.core.readData && s'.core.readSize == s.core.readSize
            && (s'.core == s.core || (s.acts[i].ReadEntry? && !s.core.reading && s'.core.reading))
  {
  }

  lemma ParsingStepProgress(s: Endpoint, i: nat, slack: nat)
    requires s.core.Valid() && i in s.acts && s.acts[i].Parsing? && ProgressOk(s, s.acts[i], slack)
    requires Covered(s, slack)
    ensures var s' := ReceiveStep(s, i).value;
            && i in s'.acts && ProgressOk(s', s'.acts[i], slack)
            && s'.core.readData == s.core.readData && s'.core.readNeeded == s.core.readNeeded
  {
    hide ReaderPass, Slack;
    if ReaderPass(s.core).error.None? {
      PartialFrameLeft(s.core);
    }
  }

  /** Every step of the reader but the marking that fills the ring. */
  lemma ReceiveStepProgress(s: Endpoint, i: nat, slack: nat)
    requires s.core.Valid() && i in s.acts && ReceiveStep(s, i).Some? && Covered(s, slack)
    requires ProgressOk(s, s.acts[i], slack) && Allowed(s.acts[i], FlagsOf(s))
    requires |s.core.readData| < s.core.readSize
    requires s.acts[i].ReadMarking? ==> |s.core.readData| + |s.acts[i].chunk| < s.core.readSize
    ensures var s' := ReceiveStep(s, i).value;
            && i in s'.acts && s'.acts == s.acts[i := s'.acts[i]] && ProgressOk(s', s'.acts[i], slack)
            && |s'.core.readData| < s'.core.readSize
            && (!s'.core.reading ==> |s'.core.readData| + s'.core.readNeeded <= Bound(s', slack))
  {
    hide ReaderPass, Covered;
    if s.acts[i].Parsing? {
      ParsingStepProgress(s, i, slack);
    }
  }

  lemma ReceiverHolds(s: Endpoint, i: nat)
    requires s.core.Valid() && i in s.acts && ReceiveStep(s, i).Some?
    ensures HoldOf(s.acts[i]) == ReadToken
  {
  }

  /** The marking that fills the ring. */
  lemma FillingStalls(s: Endpoint, i: nat)
    requires s.core.Valid() && Exclusive(s.acts, FlagsOf(s)) && i in s.acts && s.acts[i].ReadMarking?
    requires |s.core.readData| + |s.acts[i].chunk| == s.core.readSize
    ensures ReceiveStep(s, i).Some? && Stalled(ReceiveStep(s, i).value)
  {
    var s' := ReceiveStep(s, i).value;
    forall j | j in s'.acts ensures Drained(s'.acts[j]) {
      if j != i { OthersHaveNothing(s, i, j, s', 0); }
    }
  }

  /** Every step either leaves the loop progressing or fills the ring, and then it has stalled. */
  lemma NextProgressesOrStalls(s: Endpoint, a: Action, slack: nat)
    requires s.core.Valid() && |s.pending| <= s.core.SendSpace() && Exclusive(s.acts, FlagsOf(s)) && Next(s, a).Some?
    requires Covered(s, slack) && Bound(s, slack) <= s.core.readSize && Progressing(s, slack)
    ensures Progressing(Next(s, a).value, slack) || Stalled(Next(s, a).value)
  {
    hide SendStep, ReadStep, ReceiveStep, EndStep, GoStep, Covered;
    var s' := Next(s, a).value;
    match a {
      case Send(_) =>
        forall j | j in s'.acts ensures ProgressOk(s', s'.acts[j], slack) {
          assert ProgressOk(s, s.acts[j], slack);
        }
      case Start(i, pc) =>
        forall j | j in s'.acts ensures ProgressOk(s', s'.acts[j], slack) {
          assert j != i ==> ProgressOk(s, s.acts[j], slack);
        }
      case Step(i, ch) =>
        StepKinds(s, i, ch);
        if s.acts[i].ReadMarking? && |s.core.readData| + |s.acts[i].chunk| == s.core.readSize {
          FillingStalls(s, i);
          OneKind(s, i, ch);
        } else {
          StepKeepsProgressing(s, i, ch, slack);
        }
    }
  }

  lemma StepKeepsProgressing(s: Endpoint, i: nat, ch: Choice, slack: nat)
    requires s.core.Valid() && |s.pending| <= s.core.SendSpace() && Exclusive(s.acts, FlagsOf(s))
    requires Next(s, Step(i, ch)).Some? && i in s.acts
    requires Covered(s, slack) && Bound(s, slack) <= s.core.readSize && Progressing(s, slack)
    requires s.acts[i].ReadMarking? ==> |s.core.readData| + |s.acts[i].chunk| < s.core.readSize
    ensures Progressing(Next(s, Step(i, ch)).value, slack)
  {
    hide SendStep, ReadStep, ReceiveStep, EndStep, GoStep, Covered;
    var s' := Next(s, Step(i, ch)).value;
    StepKinds(s, i, ch);
    assert ProgressOk(s, s.acts[i], slack) && Allowed(s.acts[i], FlagsOf(s));
    if ReadStep(s, i, ch) == Some(s') {
      ReadStepProgress(s, i, ch, slack);
      ReadersKeepProgressing(s, i, s', slack);
    } else if ReceiveStep(s, i) == Some(s') {
      ReceiveStepProgress(s, i, slack);
      ReceiverHolds(s, i);
      ReadersKeepProgressing(s, i, s', slack);
    } else {
      if SendStep(s, i, ch) == Some(s') {
        SendStepTouches(s, i, ch);
      } else if EndStep(s, i) == Some(s') {
        EndStepTouches(s, i);
      } else {
        GoStepTouches(s, i, ch);
      }
      LeavingKeepsProgressing(s, i, s', slack);
    }
  }

  lemma ReadersKeepProgressing(s: Endpoint, i: nat, s': Endpoint, slack: nat)
    requires Progressing(s, slack) && Exclusive(s.acts, FlagsOf(s)) && i in s.acts
    requires i in s'.acts && s'.acts == s.acts[i := s'.acts[i]] && ProgressOk(s', s'.acts[i], slack)
    requires |s'.core.readData| < s'.core.readSize
    requires !s'.core.reading ==> |s'.core.readData| + s'.core.readNeeded <= Bound(s', slack)
    requires HoldOf(s.acts[i]) == ReadToken || (s.acts[i].ReadEntry? && !s.core.reading)
             || (s'.core == s.core && s'.goes == s.goes)
    ensures Progressing(s', slack)
  {
    forall j | j in s'.acts ensures ProgressOk(s', s'.acts[j], slack) {
      if j != i {
        if s'.core == s.core && s'.goes == s.goes {
          assert ProgressOk(s, s.acts[j], slack);
        } else {
          OthersHaveNothing(s, i, j, s', slack);
        }
      }
    }
  }

  lemma LeavingKeepsProgressing(s: Endpoint, i: nat, s': Endpoint, slack: nat)
    requires Progressing(s, slack) && i in s.acts
    requires i in s'.acts && s'.acts == s.acts[i := s'.acts[i]]
    requires HoldOf(s'.acts[i]) != ReadToken || Ending(s'.acts[i])
    requires s'.core.readData == s.core.readData && s'.core.readSize == s.core.readSize
    requires s'.core.reading == s.core.reading
    requires s.goes <= s'.goes && s'.core.readNeeded - s.core.readNeeded <= s'.goes - s.goes
    ensures Progressing(s', slack)
  {
    forall j | j in s'.acts ensures ProgressOk(s', s'.acts[j], slack) {
      assert ProgressOk(s, s.acts[j], slack);
    }
  }

  /** What progressing means for run_reading: it asks for exactly what is needed -- the "buffer
      full" branch is never taken -- and never for nothing. */
  lemma NeverStalls(s: Endpoint, i: nat, ch: Choice, slack: nat)
    requires s.core.Valid() && Progressing(s, slack) && Bound(s, slack) <= s.core.readSize && i in s.acts
    ensures s.acts[i].ReadClaimed? ==> 1 <= s.acts[i].want <= s.core.ReadSpace()
    ensures s.acts[i].ReadEntry? && !s.locked && s.core.CanRead() && s.core.readNeeded > 0 ==>
              ReadStep(s, i, ch).Some? && ReadStep(s, i, ch).value.acts[i] == ReadClaimed(s.core.readNeeded)
  {
    assert ProgressOk(s, s.acts[i], slack);
  }

  // ---- the full ring ----

  lemma StalledReadStep(s: Endpoint, i: nat, ch: Choice)
    requires s.core.Valid() && i in s.acts && ReadStep(s, i, ch).Some? && Drained(s.acts[i])
    requires |s.core.readData| == s.core.readSize
    ensures var s' := ReadStep(s, i, ch).value;
            && i in s'.acts && s'.acts == s.acts[i := s'.acts[i]] && Drained(s'.acts[i])
            && s'.core.readData == s.core.readData && s'.core.readSize == s.core.readSize
            && s'.arrived == s.arrived && s'.delivered == s.delivered
  {
  }

  lemma StalledReceiveStep(s: Endpoint, i: nat)
    requires s.core.Valid() && i in s.acts && ReceiveStep(s, i).Some? && Drained(s.acts[i])
    requires |s.core.readData| == s.core.readSize
    ensures var s' := ReceiveStep(s, i).value;
            && i in s'.acts && s'.acts == s.acts[i := s'.acts[i]] && Drained(s'.acts[i])
            && s'.core.readData == s.core.readData && s'.core.readSize == s.core.readSize
            && s'.arrived == s.arrived && s'.delivered == s.delivered
  {
    hide ReaderPass;
    FullPass(s.core);
    assert s.core.readData[0..] == s.core.readData;
    assert s.delivered + [] == s.delivered;
  }

  /** A stalled read loop stays stalled, whatever happens: nothing more arrives, and nothing more is
      delivered. */
  lemma NextStaysStalled(s: Endpoint, a: Action)
    requires s.core.Valid() && |s.pending| <= s.core.SendSpace() && Next(s, a).Some? && Stalled(s)
    ensures Stalled(Next(s, a).value)
    ensures Next(s, a).value.arrived == s.arrived && Next(s, a).value.delivered == s.delivered
  {
    hide SendStep, ReadStep, ReceiveStep, EndStep, GoStep;
    if a.Step? {
      var i, ch, s' := a.i, a.ch, Next(s, a).value;
      StepKinds(s, i, ch);
      if ReadStep(s, i, ch) == Some(s') {
        StalledReadStep(s, i, ch);
      } else if ReceiveStep(s, i) == Some(s') {
        StalledReceiveStep(s, i);
      } else if SendStep(s, i, ch) == Some(s') {
        SendStepTouches(s, i, ch);
      } else if EndStep(s, i) == Some(s') {
        EndStepTouches(s, i);
      } else {
        GoStepTouches(s, i, ch);
      }
    }
  }

  // ---- reads that leave room ----

  /** A successful read leaves at least `spare` bytes of the ring free. */
  ghost predicate LeavesFree(s: Endpoint, a: Action, spare: nat) {
    (a.Step? && a.i in s.acts && s.acts[a.i].Reading? && a.ch.ec.Success?) ==>
      |s.core.readData| + |a.ch.chunk| + spare <= s.core.readSize
  }

  ghost predicate RoomFor(s: Endpoint, pc: Pc, spare: nat) {
    match pc
    case ReadDone(ec, chunk) => ec.Success? ==> |s.core.readData| + |chunk| + spare <= s.core.readSize
    case ReadMarking(chunk) => |s.core.readData| + |chunk| + spare <= s.core.readSize
    case Consuming(consumed, _) => consumed <= |s.core.readData|
    case _ => true
  }

  ghost predicate Roomy(s: Endpoint, spare: nat) {
    && |s.core.readData| + spare <= s.core.readSize
    && (forall i :: i in s.acts ==> RoomFor(s, s.acts[i], spare))
  }

  lemma ReceiveStepRoom(s: Endpoint, i: nat, spare: nat)
    requires s.core.Valid() && i in s.acts && ReceiveStep(s, i).Some? && RoomFor(s, s.acts[i], spare)
    requires |s.core.readData| + spare <= s.core.readSize
    ensures var s' := ReceiveStep(s, i).value;
            && i in s'.acts && s'.acts == s.acts[i := s'.acts[i]] && RoomFor(s', s'.acts[i], spare)
            && |s'.core.readData| + spare <= s'.core.readSize
  {
    hide ReaderPass;
  }

  lemma ReadStepRoom(s: Endpoint, i: nat, ch: Choice, spare: nat)
    requires s.core.Valid() && i in s.acts && ReadStep(s, i, ch).Some? && LeavesFree(s, Step(i, ch), spare)
    ensures var s' := ReadStep(s, i, ch).value;
            && i in s'.acts && s'.acts == s.acts[i := s'.acts[i]] && RoomFor(s', s'.acts[i], spare)
            && s'.core.readData == s.core.readData && s'.core.readSize == s.core.readSize
  {
  }

  /** Reads that leave `spare` bytes free keep them free. */
  lemma NextKeepsRoomy(s: Endpoint, a: Action, spare: nat)
    requires s.core.Valid() && |s.pending| <= s.core.SendSpace() && Exclusive(s.acts, FlagsOf(s)) && Next(s, a).Some?
    requires Roomy(s, spare) && LeavesFree(s, a, spare)
    ensures Roomy(Next(s, a).value, spare)
  {
    hide SendStep, ReadStep, ReceiveStep, EndStep, GoStep;
    var s' := Next(s, a).value;
    match a {
      case Send(_) =>
        forall j | j in s'.acts ensures RoomFor(s', s'.acts[j], spare) { assert RoomFor(s, s.acts[j], spare); }
      case Start(i, pc) =>
        forall j | j in s'.acts ensures RoomFor(s', s'.acts[j], spare) { assert j != i ==> RoomFor(s, s.acts[j], spare); }
      case Step(i, ch) =>
        StepKinds(s, i, ch);
        assert RoomFor(s, s.acts[i], spare);
        if ReceiveStep(s, i) == Some(s') {
          ReceiveStepRoom(s, i, spare);
          ReceiverHolds(s, i);
          forall j | j in s'.acts ensures RoomFor(s', s'.acts[j], spare) {
            if j != i { assert !Conflict(s.acts[i], s.acts[j]); }
          }
        } else {
          if ReadStep(s, i, ch) == Some(s') {
            ReadStepRoom(s, i, ch, spare);
          } else if SendStep(s, i, ch) == Some(s') {
            SendStepTouches(s, i, ch);
          } else if EndStep(s, i) == Some(s') {
            EndStepTouches(s, i);
          } else {
            GoStepTouches(s, i, ch);
          }
          forall j | j in s'.acts ensures RoomFor(s', s'.acts[j], spare) { assert RoomFor(s, s.acts[j], spare); }
        }
    }
  }

  /** No read brings more than there is room for. */
  lemma ReadsFit(s: Endpoint, a: Action)
    requires s.core.Valid() && Next(s, a).Some?
    ensures LeavesFree(s, a, 0)
  {
  }

  /** A read brings fewer than `burst` bytes beyond those asked for (a socket read stops as soon
      as it has them, and takes at most `burst` bytes at a time). */
  ghost predicate Bursts(s: Endpoint, a: Action, burst: nat) {
    (a.Step? && a.i in s.acts && s.acts[a.i].Reading? && a.ch.ec.Success?) ==>
      |a.ch.chunk| < s.acts[a.i].want + burst
  }

  /** With a burst to spare beyond the bound, reads in bursts leave a byte free. */
  lemma BurstsLeaveAByte(s: Endpoint, a: Action, slack: nat, burst: nat)
    requires Progressing(s, slack) && Bursts(s, a, burst) && Bound(s, slack) + burst <= s.core.readSize
    ensures LeavesFree(s, a, 1)
  {
    if a.Step? && a.i in s.acts && s.acts[a.i].Reading? {
      assert ProgressOk(s, s.acts[a.i], slack);
    }
  }
}
