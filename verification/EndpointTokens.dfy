/** asio_sending and asio_reading are exclusive tokens, although the test and the release are
    single operations on plain flags and create_messages also runs without the mutex. */
module EndpointTokens {
  import opened Wrappers
  import opened EndpointStates
  import opened EndpointProtocol

  /** The flags as a thread sees them: sending, reading, mutex held across steps. */
  datatype Flags = Flags(sending: bool, reading: bool, locked: bool)

  function FlagsOf(s: Endpoint): Flags {
    Flags(s.core.sending, s.core.reading, s.locked)
  }

  ghost predicate Allowed(pc: Pc, f: Flags) {
    && (HoldOf(pc) == SendToken ==> f.sending)
    && (HoldOf(pc) == ReadToken ==> f.reading)
    && (pc.SendCreating? ==> f.locked && !f.sending)
  }

  /** Two activities that cannot be where they are at once. */
  ghost predicate Conflict(p: Pc, q: Pc) {
    || (HoldOf(p) != NoToken && HoldOf(p) == HoldOf(q))
    || (p.SendCreating? && q.SendCreating?)
  }

  ghost predicate Exclusive(acts: map<nat, Pc>, f: Flags) {
    && (forall i :: i in acts ==> Allowed(acts[i], f))
    && (forall i, j :: i in acts && j in acts && i != j ==> !Conflict(acts[i], acts[j]))
  }

  /** A legal move of one activity from `p` to `q` while the flags go from `f` to `g`: a token or
      the mutex is taken only when it was free, and given back only by its holder. */
  ghost predicate Move(p: Pc, f: Flags, q: Pc, g: Flags) {
    && Allowed(q, g)
    && (HoldOf(q) == SendToken ==> HoldOf(p) == SendToken || !f.sending)
    && (HoldOf(q) == ReadToken ==> HoldOf(p) == ReadToken || !f.reading)
    && (q.SendCreating? ==> p.SendCreating? || !f.locked)
    && (f.sending && !g.sending ==> HoldOf(p) == SendToken)
    && (f.reading && !g.reading ==> HoldOf(p) == ReadToken)
    && (f.locked && !g.locked ==> p.SendCreating?)
    && (!f.sending && g.sending ==> !f.locked || p.SendCreating?)
  }

  lemma MoveKeepsExclusive(acts: map<nat, Pc>, f: Flags, i: nat, q: Pc, g: Flags)
    requires Exclusive(acts, f) && i in acts && Move(acts[i], f, q, g)
    ensures Exclusive(acts[i := q], g)
  {
    var acts' := acts[i := q];
    forall j | j in acts' ensures Allowed(acts'[j], g) {
      if j != i {
        assert !Conflict(acts[i], acts[j]);
      }
    }
    forall j, k | j in acts' && k in acts' && j != k ensures !Conflict(acts'[j], acts'[k]) {
      if j == i {
        assert Allowed(acts[k], f) && !Conflict(acts[i], acts[k]);
      } else if k == i {
        assert Allowed(acts[j], f) && !Conflict(acts[j], acts[i]);
      }
    }
  }

  /** `s'` is `s` after a legal move of activity `i`. */
  ghost predicate Moved(s: Endpoint, i: nat, s': Endpoint)
    requires i in s.acts
  {
    && i in s'.acts && s'.acts == s.acts[i := s'.acts[i]]
    && Move(s.acts[i], FlagsOf(s), s'.acts[i], FlagsOf(s'))
  }

  lemma CreateStepMoves(s: Endpoint, i: nat, locked: bool)
    requires s.core.Valid() && i in s.acts && Allowed(s.acts[i], FlagsOf(s))
    requires s.acts[i] == if locked then SendCreating else Refilling
    ensures Moved(s, i, CreateStep(s, i, locked))
  {
    hide NextFrame;
    assert NextFrame(s.core, s.pending).Add? ==> s.acts == s.acts[i := s.acts[i]];
  }

  lemma SendStepMoves(s: Endpoint, i: nat, ch: Choice)
    requires s.core.Valid() && i in s.acts && SendStep(s, i, ch).Some?
    requires Allowed(s.acts[i], FlagsOf(s))
    ensures Moved(s, i, SendStep(s, i, ch).value)
  {
    if Creating(s.acts[i]) {
      hide CreateStep;
      CreateStepMoves(s, i, s.acts[i].SendCreating?);
    } else {
      hide CreateStep;
    }
  }

  lemma ReadStepMoves(s: Endpoint, i: nat, ch: Choice)
    requires s.core.Valid() && i in s.acts && ReadStep(s, i, ch).Some?
    requires Allowed(s.acts[i], FlagsOf(s))
    ensures Moved(s, i, ReadStep(s, i, ch).value)
  {
  }

  lemma ReceiveStepMoves(s: Endpoint, i: nat)
    requires s.core.Valid() && i in s.acts && ReceiveStep(s, i).Some?
    requires Allowed(s.acts[i], FlagsOf(s))
    ensures Moved(s, i, ReceiveStep(s, i).value)
  {
    hide ReaderPass;
  }

  lemma EndStepMoves(s: Endpoint, i: nat)
    requires s.core.Valid() && i in s.acts && EndStep(s, i).Some?
    requires Allowed(s.acts[i], FlagsOf(s))
    ensures Moved(s, i, EndStep(s, i).value)
  {
  }

  lemma GoStepMoves(s: Endpoint, i: nat, ch: Choice)
    requires s.core.Valid() && i in s.acts && GoStep(s, i, ch).Some?
    requires Allowed(s.acts[i], FlagsOf(s))
    ensures Moved(s, i, GoStep(s, i, ch).value)
  {
  }

  lemma NextKeepsExclusive(s: Endpoint, a: Action)
    requires s.core.Valid() && Next(s, a).Some?
    requires Exclusive(s.acts, FlagsOf(s))
    ensures var s' := Next(s, a).value; Exclusive(s'.acts, FlagsOf(s'))
  {
    hide SendStep, ReadStep, ReceiveStep, EndStep, GoStep;
    match a {
      case Send(_) =>
      case Start(i, pc) =>
        assert HoldOf(pc) == NoToken;
      case Step(i, ch) =>
        StepKinds(s, i, ch);
        var s' := Next(s, a).value;
        assert Allowed(s.acts[i], FlagsOf(s));
        if SendStep(s, i, ch) == Some(s') {
          SendStepMoves(s, i, ch);
        } else if ReadStep(s, i, ch) == Some(s') {
          ReadStepMoves(s, i, ch);
        } else if ReceiveStep(s, i) == Some(s') {
          ReceiveStepMoves(s, i);
        } else if EndStep(s, i) == Some(s') {
          EndStepMoves(s, i);
        } else {
          GoStepMoves(s, i, ch);
        }
        MoveKeepsExclusive(s.acts, FlagsOf(s), i, s'.acts[i], FlagsOf(s'));
    }
  }

  /** Under any interleaving: at most one write and one read are in flight, and create_messages
      is never run by two activities at once, with the mutex or without. */
  lemma TokensAreExclusive(s: Endpoint, i: nat, j: nat)
    requires Exclusive(s.acts, FlagsOf(s)) && i in s.acts && j in s.acts && i != j
    ensures !(s.acts[i].Writing? && s.acts[j].Writing?)
    ensures !(s.acts[i].Reading? && s.acts[j].Reading?)
    ensures !(Creating(s.acts[i]) && Creating(s.acts[j]))
    ensures !(s.acts[i].SendCreating? && HoldOf(s.acts[j]) == SendToken)
  {
    assert !Conflict(s.acts[i], s.acts[j]);
    assert Allowed(s.acts[i], FlagsOf(s)) && Allowed(s.acts[j], FlagsOf(s));
  }
}
