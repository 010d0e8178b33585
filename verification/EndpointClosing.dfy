/** Whoever ends, closes: in every run CLOSED is there before a terminal handler is called, and EOF or
    ERRORED without it only while the activity that is about to set it is under way. */
module EndpointClosing {
  import opened Wrappers
  import opened EndpointStates
  import opened EndpointProtocol
  import opened EndpointEndings
  import opened EndpointRuns

  /** After a failed read has set ERRORED, on the way to close(). */
  predicate AboutToClose(pc: Pc) {
    pc.Closing? || ((pc.EndCheck? || pc.EndLocked? || pc.Invoking?) && pc.thenClose)
  }

  ghost predicate SomebodyCloses(s: Endpoint) {
    exists i :: i in s.acts && AboutToClose(s.acts[i])
  }

  ghost predicate ClosesUp(s: Endpoint) {
    && (s.core.bits.eof ==> s.core.bits.closed)
    && (s.core.bits.errored ==> s.core.bits.closed || SomebodyCloses(s))
    && (s.invoked != [] ==> s.core.bits.closed)
    && (forall i :: i in s.acts && s.acts[i].Invoking? ==> s.core.bits.closed)
  }

  /** A step of an activity that is not ending anything. */
  ghost predicate EndsNothing(s: Endpoint, i: nat, s': Endpoint)
    requires i in s.acts
  {
    && !AboutToClose(s.acts[i])
    && i in s'.acts && s'.acts == s.acts[i := s'.acts[i]] && !s'.acts[i].Invoking?
    && s'.invoked == s.invoked
    && (s'.core.bits == s.core.bits || (s'.core.bits.closed && s.core.bits.Within(s'.core.bits))
        || s'.core.bits == s.core.bits.(running := true))
  }

  lemma EndingNothingClosesUp(s: Endpoint, i: nat, s': Endpoint)
    requires ClosesUp(s) && i in s.acts && EndsNothing(s, i, s')
    ensures ClosesUp(s')
  {
    if SomebodyCloses(s) {
      var j :| j in s.acts && AboutToClose(s.acts[j]);
      assert j in s'.acts && AboutToClose(s'.acts[j]);
    }
  }

  lemma CreateEndsNothing(s: Endpoint, i: nat, locked: bool)
    requires s.core.Valid() && i in s.acts && s.acts[i] == if locked then SendCreating else Refilling
    ensures EndsNothing(s, i, CreateStep(s, i, locked))
  {
    hide NextFrame;
    assert NextFrame(s.core, s.pending).Add? ==> s.acts == s.acts[i := s.acts[i]];
  }

  lemma SendEndsNothing(s: Endpoint, i: nat, ch: Choice)
    requires s.core.Valid() && i in s.acts && SendStep(s, i, ch).Some?
    ensures EndsNothing(s, i, SendStep(s, i, ch).value)
  {
    hide CreateStep, Shown;
    if Creating(s.acts[i]) {
      CreateEndsNothing(s, i, s.acts[i].SendCreating?);
    }
  }

  lemma ReadEndsNothing(s: Endpoint, i: nat, ch: Choice)
    requires s.core.Valid() && i in s.acts && ReadStep(s, i, ch).Some?
    ensures EndsNothing(s, i, ReadStep(s, i, ch).value)
  {
  }

  lemma ReceiveEndsNothing(s: Endpoint, i: nat)
    requires s.core.Valid() && i in s.acts && ReceiveStep(s, i).Some?
    ensures EndsNothing(s, i, ReceiveStep(s, i).value)
  {
    hide ReaderPass;
  }

  lemma GoEndsNothing(s: Endpoint, i: nat, ch: Choice)
    requires s.core.Valid() && i in s.acts && GoStep(s, i, ch).Some?
    ensures EndsNothing(s, i, GoStep(s, i, ch).value)
  {
  }

  /** A step of an activity that is ending something: unless it closes, nothing new needs closing but what
      it is about to close itself. */
  lemma EndStepMoves(s: Endpoint, i: nat)
    requires s.core.Valid() && i in s.acts && EndStep(s, i).Some? && i in EndStep(s, i).value.acts
    requires !s.acts[i].EndLocked? && !s.acts[i].Invoking?
    ensures var s' := EndStep(s, i).value;
            || s'.core.bits.closed
            || (&& s'.core.bits.eof == s.core.bits.eof && s'.invoked == s.invoked && !s'.acts[i].Invoking?
                && (AboutToClose(s.acts[i]) ==> AboutToClose(s'.acts[i]))
                && (s'.core.bits.errored ==> s.core.bits.errored || AboutToClose(s'.acts[i])))
  {
    hide EndpointStates.End, AlreadyEnded;
    if s.acts[i].EndCheck? {
      CheckMoves(s, i);
    }
  }

  lemma CheckMoves(s: Endpoint, i: nat)
    requires s.core.Valid() && i in s.acts && s.acts[i].EndCheck?
    ensures var s' := s.At(i, if AlreadyEnded(s.core, s.acts[i].kind) then AfterEnd(s.acts[i].hold, s.acts[i].thenClose)
                              else EndLocked(s.acts[i].kind, s.acts[i].hold, s.acts[i].thenClose));
            && EndStep(s, i) == Some(s') && !s'.acts[i].Invoking?
            && (AboutToClose(s.acts[i]) ==> AboutToClose(s'.acts[i]))
  {
    hide AlreadyEnded;
  }

  lemma LockedCloses(s: Endpoint, i: nat)
    requires s.core.Valid() && i in s.acts && s.acts[i].EndLocked? && EndStep(s, i).Some?
    ensures EndStep(s, i).value.core.bits.closed
  {
  }

  lemma EndStepClosesUp(s: Endpoint, i: nat)
    requires s.core.Valid() && i in s.acts && EndStep(s, i).Some? && ClosesUp(s)
    ensures ClosesUp(EndStep(s, i).value)
  {
    hide EndStep, AboutToClose;
    EndStepAddsBits(s, i);
    EndStepKeepsTokens(s, i);
    if s.acts[i].EndLocked? {
      LockedCloses(s, i);
    } else if !s.acts[i].Invoking? {
      EndStepMoves(s, i);
    }
    var s' := EndStep(s, i).value;
    if s'.core.bits.errored && !s'.core.bits.closed && !AboutToClose(s'.acts[i]) {
      var j :| j in s.acts && AboutToClose(s.acts[j]);
      assert j in s'.acts && AboutToClose(s'.acts[j]);
    }
  }

  lemma NextClosesUp(s: Endpoint, a: Action)
    requires s.core.Valid() && Next(s, a).Some? && ClosesUp(s)
    ensures ClosesUp(Next(s, a).value)
  {
    hide SendStep, ReadStep, ReceiveStep, EndStep, GoStep;
    var s' := Next(s, a).value;
    if a.Step? {
      hide ClosesUp;
      var i, ch := a.i, a.ch;
      StepKinds(s, i, ch);
      if EndStep(s, i) == Some(s') {
        EndStepClosesUp(s, i);
      } else {
        if SendStep(s, i, ch) == Some(s') {
          SendEndsNothing(s, i, ch);
        } else if ReadStep(s, i, ch) == Some(s') {
          ReadEndsNothing(s, i, ch);
        } else if ReceiveStep(s, i) == Some(s') {
          ReceiveEndsNothing(s, i);
        } else {
          GoEndsNothing(s, i, ch);
        }
        EndingNothingClosesUp(s, i, s');
      }
    } else {
      OutsideClosesUp(s, a);
    }
  }

  lemma OutsideClosesUp(s: Endpoint, a: Action)
    requires s.core.Valid() && Next(s, a).Some? && ClosesUp(s) && !a.Step?
    ensures ClosesUp(Next(s, a).value)
  {
    var s' := Next(s, a).value;
    if SomebodyCloses(s) {
      var j :| j in s.acts && AboutToClose(s.acts[j]);
      assert j in s'.acts && AboutToClose(s'.acts[j]);
    }
  }

  /** In every state of every run: whoever is calling a terminal handler, or has called one, sees CLOSED;
      and a dead endpoint is CLOSED, unless a failed read is on its way to close it. */
  lemma {:induction false} RunClosesUp(run: seq<Endpoint>, actions: seq<Action>, k: nat, i: nat)
    requires IsRun(run, actions) && k < |run|
    ensures i in run[k].acts && run[k].acts[i].Invoking? ==> run[k].core.bits.closed
    ensures run[k].invoked != [] || run[k].core.bits.eof ==> run[k].core.bits.closed
    ensures run[k].core.bits.IsDead() && !run[k].core.bits.closed ==>
              run[k].core.bits.errored && exists j :: j in run[k].acts && AboutToClose(run[k].acts[j])
  {
    RunIsClosing(run, actions, k);
  }

  lemma {:induction false} RunIsClosing(run: seq<Endpoint>, actions: seq<Action>, k: nat)
    requires IsRun(run, actions) && k < |run|
    ensures ClosesUp(run[k])
  {
    if k > 0 {
      var j := k - 1;
      RunIsClosing(run, actions, j);
      assert Next(run[j], actions[j]) == Some(run[j + 1]);
      NextClosesUp(run[j], actions[j]);
    }
  }
}
