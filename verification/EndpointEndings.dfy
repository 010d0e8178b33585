/** How an endpoint ends: the state bits only grow, a dead endpoint starts nothing new, and the
    terminal handlers are called at most once between them. */
module EndpointEndings {
  import opened Wrappers
  import opened EndpointStates
  import opened EndpointProtocol

  // ---- the state bits ----

  /** A step that starts nothing on a dead endpoint, apart from a run_sending that had passed
      its test before the endpoint died. */
  ghost predicate Quiet(s: Endpoint, s': Endpoint) {
    && s.core.bits.Within(s'.core.bits)
    && (s.core.bits.IsDead() ==>
          && (s'.core.reading ==> s.core.reading)
          && (forall i :: i in s'.acts && s'.acts[i].SendCreating? ==> i in s.acts && s.acts[i].SendCreating?)
          && (s'.core.sending && !s.core.sending ==> exists i :: i in s.acts && s.acts[i].SendCreating?))
  }

  lemma CreateStepQuiet(s: Endpoint, i: nat, locked: bool)
    requires s.core.Valid() && i in s.acts && s.acts[i] == if locked then SendCreating else Refilling
    ensures Quiet(s, CreateStep(s, i, locked))
  {
    hide NextFrame;
  }

  lemma NextQuiet(s: Endpoint, a: Action)
    requires s.core.Valid() && Next(s, a).Some?
    ensures Quiet(s, Next(s, a).value)
  {
    hide SendStep, ReadStep, ReceiveStep, EndStep, GoStep, Quiet;
    match a {
      case Send(_) => OtherQuiet(s, a);
      case Start(i, pc) => OtherQuiet(s, a);
      case Step(i, ch) =>
        StepKinds(s, i, ch);
        var s' := Next(s, a).value;
        if SendStep(s, i, ch) == Some(s') {
          SendStepQuiet(s, i, ch);
        } else if ReadStep(s, i, ch) == Some(s') {
          ReadStepQuiet(s, i, ch);
        } else if ReceiveStep(s, i) == Some(s') {
          ReceiveStepQuiet(s, i);
        } else if EndStep(s, i) == Some(s') {
          EndStepQuiet(s, i);
        } else {
          GoStepQuiet(s, i, ch);
        }
    }
  }

  lemma OtherQuiet(s: Endpoint, a: Action)
    requires s.core.Valid() && !a.Step? && Next(s, a).Some?
    ensures Quiet(s, Next(s, a).value)
  {
  }

  lemma SendStepQuiet(s: Endpoint, i: nat, ch: Choice)
    requires s.core.Valid() && i in s.acts && SendStep(s, i, ch).Some?
    ensures Quiet(s, SendStep(s, i, ch).value)
  {
    hide CreateStep;
    if Creating(s.acts[i]) {
      CreateStepQuiet(s, i, s.acts[i].SendCreating?);
    }
  }

  lemma ReadStepQuiet(s: Endpoint, i: nat, ch: Choice)
    requires s.core.Valid() && i in s.acts && ReadStep(s, i, ch).Some?
    ensures Quiet(s, ReadStep(s, i, ch).value)
  {
  }

  lemma ReceiveStepQuiet(s: Endpoint, i: nat)
    requires s.core.Valid() && i in s.acts && ReceiveStep(s, i).Some?
    ensures Quiet(s, ReceiveStep(s, i).value)
  {
    hide ReaderPass;
  }

  lemma EndStepQuiet(s: Endpoint, i: nat)
    requires s.core.Valid() && i in s.acts && EndStep(s, i).Some?
    ensures Quiet(s, EndStep(s, i).value)
  {
    hide EndStep;
    EndStepAddsBits(s, i);
    EndStepKeepsTokens(s, i);
  }

  lemma EndStepAddsBits(s: Endpoint, i: nat)
    requires s.core.Valid() && i in s.acts && EndStep(s, i).Some?
    ensures s.core.bits.Within(EndStep(s, i).value.core.bits)
  {
    hide EndpointStates.End;
  }

  lemma EndStepKeepsTokens(s: Endpoint, i: nat)
    requires s.core.Valid() && i in s.acts && EndStep(s, i).Some?
    ensures var s' := EndStep(s, i).value;
            && s'.core.sending == s.core.sending && s'.core.reading == s.core.reading
            && i in s'.acts && s'.acts == s.acts[i := s'.acts[i]] && !s'.acts[i].SendCreating?
  {
    hide EndpointStates.End;
  }

  lemma GoStepQuiet(s: Endpoint, i: nat, ch: Choice)
    requires s.core.Valid() && i in s.acts && GoStep(s, i, ch).Some?
    ensures Quiet(s, GoStep(s, i, ch).value)
  {
  }

  // ---- the terminal handlers ----

  /** Where an activity can be, given the state, for the handlers to be called at most once.
      A failed read finds ERRORED already set, so it never reaches onError. */
  ghost predicate EndingAllowed(s: Endpoint, pc: Pc) {
    && (pc.Invoking? ==> s.core.handlers.None() && s.invoked == [])
    && (pc.EndCheck? && pc.kind.Error? && pc.hold.ReadToken? ==> s.core.bits.errored)
    && ((pc.EndLocked? || pc.Invoking?) && pc.kind.Error? ==> !pc.hold.ReadToken?)
  }

  ghost predicate HandlersOnce(s: Endpoint) {
    && |s.invoked| <= 1
    && (s.invoked != [] ==> s.core.handlers.None())
    && (forall i :: i in s.acts ==> EndingAllowed(s, s.acts[i]))
    && (forall i, j :: i in s.acts && j in s.acts && i != j ==> !(s.acts[i].Invoking? && s.acts[j].Invoking?))
  }

  /** A step of activity `i` that leaves handlers and calls alone. */
  ghost predicate NoEnding(s: Endpoint, i: nat, s': Endpoint)
    requires i in s.acts
  {
    && s'.core.handlers == s.core.handlers && s'.invoked == s.invoked
    && s.core.bits.Within(s'.core.bits)
    && i in s'.acts && s'.acts == s.acts[i := s'.acts[i]]
    && !s'.acts[i].Invoking? && EndingAllowed(s', s'.acts[i])
  }

  lemma NoEndingKeepsHandlersOnce(s: Endpoint, i: nat, s': Endpoint)
    requires HandlersOnce(s) && i in s.acts && NoEnding(s, i, s')
    ensures HandlersOnce(s')
  {
    forall j | j in s'.acts ensures EndingAllowed(s', s'.acts[j]) {
      assert EndingAllowed(s, s.acts[j]);
    }
  }

  lemma CreateStepNoEnding(s: Endpoint, i: nat, locked: bool)
    requires s.core.Valid() && i in s.acts && s.acts[i] == if locked then SendCreating else Refilling
    ensures NoEnding(s, i, CreateStep(s, i, locked))
  {
    hide NextFrame;
    assert NextFrame(s.core, s.pending).Add? ==> s.acts == s.acts[i := s.acts[i]];
  }

  lemma SendStepNoEnding(s: Endpoint, i: nat, ch: Choice)
    requires s.core.Valid() && i in s.acts && SendStep(s, i, ch).Some?
    ensures NoEnding(s, i, SendStep(s, i, ch).value)
  {
    hide CreateStep, Shown;
    if Creating(s.acts[i]) {
      CreateStepNoEnding(s, i, s.acts[i].SendCreating?);
    }
  }

  lemma ReadStepNoEnding(s: Endpoint, i: nat, ch: Choice)
    requires s.core.Valid() && i in s.acts && ReadStep(s, i, ch).Some?
    ensures NoEnding(s, i, ReadStep(s, i, ch).value)
  {
  }

  lemma ReceiveStepNoEnding(s: Endpoint, i: nat)
    requires s.core.Valid() && i in s.acts && ReceiveStep(s, i).Some?
    ensures NoEnding(s, i, ReceiveStep(s, i).value)
  {
    hide ReaderPass;
  }

  lemma GoStepNoEnding(s: Endpoint, i: nat, ch: Choice)
    requires s.core.Valid() && i in s.acts && GoStep(s, i, ch).Some?
    ensures NoEnding(s, i, GoStep(s, i, ch).value)
  {
  }

  lemma EndStepKeepsHandlersOnce(s: Endpoint, i: nat)
    requires s.core.Valid() && i in s.acts && EndStep(s, i).Some? && HandlersOnce(s)
    ensures HandlersOnce(EndStep(s, i).value)
  {
    var s' := EndStep(s, i).value;
    assert EndingAllowed(s, s.acts[i]);
    if s.acts[i].EndLocked? || s.acts[i].Invoking? {
      forall j | j in s'.acts ensures EndingAllowed(s', s'.acts[j]) {
        assert EndingAllowed(s, s.acts[j]);
      }
      forall j, k | j in s'.acts && k in s'.acts && j != k
        ensures !(s'.acts[j].Invoking? && s'.acts[k].Invoking?)
      {
        assert EndingAllowed(s, s.acts[j]) && EndingAllowed(s, s.acts[k]);
      }
    } else {
      NoEndingKeepsHandlersOnce(s, i, s');
    }
  }

  lemma NextKeepsHandlersOnce(s: Endpoint, a: Action)
    requires s.core.Valid() && Next(s, a).Some? && HandlersOnce(s)
    ensures HandlersOnce(Next(s, a).value)
  {
    hide SendStep, ReadStep, ReceiveStep, EndStep, GoStep;
    var s' := Next(s, a).value;
    match a {
      case Send(_) =>
        forall j | j in s'.acts ensures EndingAllowed(s', s'.acts[j]) {
          assert EndingAllowed(s, s.acts[j]);
        }
      case Start(i, pc) =>
        forall j | j in s'.acts ensures EndingAllowed(s', s'.acts[j]) {
          assert j != i ==> EndingAllowed(s, s.acts[j]);
        }
      case Step(i, ch) =>
        StepKinds(s, i, ch);
        if EndStep(s, i) == Some(s') {
          EndStepKeepsHandlersOnce(s, i);
        } else {
          if SendStep(s, i, ch) == Some(s') {
            SendStepNoEnding(s, i, ch);
          } else if ReadStep(s, i, ch) == Some(s') {
            ReadStepNoEnding(s, i, ch);
          } else if ReceiveStep(s, i) == Some(s') {
            ReceiveStepNoEnding(s, i);
          } else {
            GoStepNoEnding(s, i, ch);
          }
          NoEndingKeepsHandlersOnce(s, i, s');
        }
    }
  }
}
