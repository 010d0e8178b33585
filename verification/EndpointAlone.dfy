/** What an activity does when nobody comes in between: run_sending, a completed write, a completed read,
    each ending and go, step by step, are the functions of EndpointStates. */
module EndpointAlone {
  import opened ByteStrings
  import opened Wrappers
  import opened EndpointStates
  import opened EndpointProtocol

  ghost predicate ByOne(actions: seq<Action>, i: nat) {
    forall k :: 0 <= k < |actions| ==> actions[k].Step? && actions[k].i == i
  }

  /** Activity `i`, left alone, comes from `s` to `t`. */
  ghost predicate Alone(s: Endpoint, i: nat, t: Endpoint) {
    exists actions :: ByOne(actions, i) && Leads(s, actions, t)
  }

  lemma Stays(s: Endpoint, i: nat)
    ensures Alone(s, i, s)
  {
    hide Next;
    var none: seq<Action> := [];
    assert ByOne(none, i) && Leads(s, none, s);
  }

  lemma Then(s: Endpoint, i: nat, t: Endpoint, u: Endpoint)
    requires Alone(s, i, t) && Alone(t, i, u)
    ensures Alone(s, i, u)
  {
    var first :| ByOne(first, i) && Leads(s, first, t);
    var more :| ByOne(more, i) && Leads(t, more, u);
    hide Leads, Next;
    LeadsFurther(s, first, t, more, u);
    assert ByOne(first + more, i);
  }

  lemma Steps(s: Endpoint, i: nat, ch: Choice, t: Endpoint)
    requires s.core.Valid() && Next(s, Step(i, ch)) == Some(t)
    ensures Alone(s, i, t)
  {
    hide Next;
    LeadsOne(s, Step(i, ch), t);
    assert ByOne([Step(i, ch)], i);
  }

  const NO_CHOICE := Choice(Success, 0, [], false)

  lemma Sends(s: Endpoint, i: nat, t: Endpoint)
    requires s.core.Valid() && i in s.acts && SendStep(s, i, NO_CHOICE) == Some(t)
    ensures Alone(s, i, t)
  {
    hide SendStep, ReadStep, ReceiveStep, EndStep, GoStep, Next;
    OneKind(s, i, NO_CHOICE);
    Steps(s, i, NO_CHOICE, t);
  }

  lemma Reads(s: Endpoint, i: nat, t: Endpoint)
    requires s.core.Valid() && i in s.acts && ReadStep(s, i, NO_CHOICE) == Some(t)
    ensures Alone(s, i, t)
  {
    hide SendStep, ReadStep, ReceiveStep, EndStep, GoStep, Next;
    OneKind(s, i, NO_CHOICE);
    Steps(s, i, NO_CHOICE, t);
  }

  lemma Receives(s: Endpoint, i: nat, t: Endpoint)
    requires s.core.Valid() && i in s.acts && ReceiveStep(s, i) == Some(t)
    ensures Alone(s, i, t)
  {
    hide SendStep, ReadStep, ReceiveStep, EndStep, GoStep, Next;
    OneKind(s, i, NO_CHOICE);
    Steps(s, i, NO_CHOICE, t);
  }

  lemma Ends(s: Endpoint, i: nat, t: Endpoint)
    requires s.core.Valid() && i in s.acts && EndStep(s, i) == Some(t)
    ensures Alone(s, i, t)
  {
    hide SendStep, ReadStep, ReceiveStep, EndStep, GoStep, Next;
    OneKind(s, i, NO_CHOICE);
    Steps(s, i, NO_CHOICE, t);
  }

  lemma Goes(s: Endpoint, i: nat, ch: Choice, t: Endpoint)
    requires s.core.Valid() && i in s.acts && GoStep(s, i, ch) == Some(t)
    ensures Alone(s, i, t)
  {
    hide SendStep, ReadStep, ReceiveStep, EndStep, GoStep, Next;
    OneKind(s, i, ch);
    Steps(s, i, ch, t);
  }

  lemma AtTwice(s: Endpoint, i: nat, p: Pc, q: Pc)
    ensures s.At(i, p).At(i, q) == s.At(i, q)
  {
    assert s.acts[i := p][i := q] == s.acts[i := q];
  }

  // ---- create_messages and run_sending ----

  /** Where create_messages leaves the activity, with the mutex or without. */
  function AfterCreating(s: Endpoint, i: nat, locked: bool, r: Created): Endpoint {
    match r
    case Refusing =>
      if locked then s.(pending := [], locked := false).At(i, Stopped(NoToken))
      else s.(pending := []).At(i, Closing(SendToken))
    case Created(c) =>
      if !locked then s.(core := c, pending := []).At(i, SendReleasing)
      else if c.sendData == [] then s.(core := c, pending := [], locked := false).At(i, Stopped(NoToken))
      else s.(core := c.(sending := true), pending := [], locked := false).At(i, SendClaimed)
  }

  lemma {:induction false} TurnsAlone(s: Endpoint, i: nat, locked: bool)
    requires s.core.Valid() && i in s.acts && s.acts[i] == (if locked then SendCreating else Refilling)
    requires |s.pending| <= s.core.SendSpace()
    ensures Alone(s, i, AfterCreating(s, i, locked, TakeTurns(s.core, s.pending)))
    decreases |s.core.txq|
  {
    var s' := CreateStep(s, i, locked);
    assert SendStep(s, i, NO_CHOICE) == Some(s');
    Sends(s, i, s');
    if NextFrame(s.core, s.pending).Add? {
      TurnsAlone(s', i, locked);
      SettledNeverRefuses(s'.core, s'.pending);
      hide Alone, TakeTurns;
      var t := AfterCreating(s', i, locked, TakeTurns(s'.core, s'.pending));
      Then(s, i, s', t);
    }
  }

  lemma {:induction false} SettledNeverRefuses(c: Core, pending: Bytes)
    requires c.order.Settled()
    ensures TakeTurns(c, pending).Created?
    decreases |c.txq|
  {
    if NextFrame(c, pending).Add? {
      SettledNeverRefuses(c.(txq := c.txq[1..]), pending + NextFrame(c, pending).frame);
    }
  }

  /** create_messages, frame by frame, is `CreateMessages`. */
  lemma CreatingAlone(s: Endpoint, i: nat, locked: bool)
    requires s.core.Valid() && i in s.acts && s.acts[i] == (if locked then SendCreating else Refilling)
    requires s.pending == []
    ensures Alone(s, i, AfterCreating(s, i, locked, CreateMessages(s.core)))
  {
    hide Alone, TakeTurns, CreateMessages, AfterCreating;
    TurnsAlone(s, i, locked);
    TurnsAreCreateMessages(s.core);
  }

  function AfterStart(start: SendStart): Pc {
    if start.Claimed? then SendClaimed else Stopped(NoToken)
  }

  lemma RunSendingAlone(s: Endpoint, i: nat)
    requires s.core.Valid() && i in s.acts && s.acts[i] == SendEntry && !s.locked && s.pending == []
    ensures var (c, start) := RunSending(s.core);
            Alone(s, i, s.(core := c).At(i, AfterStart(start)))
  {
    hide CreateMessages, CreateStep, Alone;
    if s.core.CanSend() && s.core.sendData == [] {
      var s1 := s.(locked := true).At(i, SendCreating);
      assert SendStep(s, i, NO_CHOICE) == Some(s1);
      Sends(s, i, s1);
      CreatingAlone(s1, i, true);
      var r := CreateMessages(s.core);
      var t := AfterCreating(s1, i, true, r);
      Then(s, i, s1, t);
      assert s.acts[i := SendCreating][i := SendClaimed] == s.acts[i := SendClaimed];
      assert s.acts[i := SendCreating][i := Stopped(NoToken)] == s.acts[i := Stopped(NoToken)];
    } else {
      Sends(s, i, SendStep(s, i, NO_CHOICE).value);
    }
  }

  // ---- the endings ----

  /** eof, error and proto_error, and the close that may follow. */
  lemma EndingAlone(s: Endpoint, i: nat, kind: Terminal, hold: Hold, thenClose: bool)
    requires s.core.Valid() && i in s.acts && s.acts[i] == EndCheck(kind, hold, thenClose) && !s.locked
    ensures var (c, called) := Ended(s.core, kind);
            Alone(s, i, s.(core := if thenClose then Close(c) else c, invoked := s.invoked + called).At(i, Stopped(hold)))
  {
    hide Alone;
    var (c, called) := Ended(s.core, kind);
    if AlreadyEnded(s.core, kind) {
      var s1 := s.At(i, AfterEnd(hold, thenClose));
      Ends(s, i, s1);
      assert s.invoked + [] == s.invoked;
      FinishAlone(s, i, s1, hold, thenClose);
      Then(s, i, s1, s.(core := if thenClose then Close(s.core) else s.core).At(i, Stopped(hold)));
    } else {
      var s1 := s.At(i, EndLocked(kind, hold, thenClose));
      Ends(s, i, s1);
      LockedEndAlone(s, i, s1, kind, hold, thenClose);
      var s2 := s.(core := c, invoked := s.invoked + called);
      var s3 := s2.At(i, AfterEnd(hold, thenClose));
      Then(s, i, s1, s3);
      FinishAlone(s2, i, s3, hold, thenClose);
      Then(s, i, s3, s2.(core := if thenClose then Close(c) else c).At(i, Stopped(hold)));
    }
  }

  /** The locked region and the call of the handler. */
  lemma LockedEndAlone(s: Endpoint, i: nat, s1: Endpoint, kind: Terminal, hold: Hold, thenClose: bool)
    requires s.core.Valid() && i in s.acts && !s.locked && !AlreadyEnded(s.core, kind)
    requires s1 == s.At(i, EndLocked(kind, hold, thenClose))
    ensures var (c, called) := Ended(s.core, kind);
            Alone(s1, i, s.(core := c, invoked := s.invoked + called).At(i, AfterEnd(hold, thenClose)))
  {
    hide Alone;
    var (c, installed) := End(s.core, kind);
    var after := AfterEnd(hold, thenClose);
    if installed {
      var s2 := s.(core := c).At(i, Invoking(kind, hold, thenClose));
      AtTwice(s.(core := c), i, s1.acts[i], s2.acts[i]);
      Ends(s1, i, s2);
      var s3 := s.(core := c, invoked := s.invoked + [kind]).At(i, after);
      AtTwice(s.(core := c, invoked := s.invoked + [kind]), i, s2.acts[i], after);
      Ends(s2, i, s3);
      Then(s1, i, s2, s3);
    } else {
      assert s.invoked + [] == s.invoked;
      AtTwice(s.(core := c), i, s1.acts[i], after);
      Ends(s1, i, s.(core := c).At(i, after));
    }
  }

  lemma FinishAlone(s: Endpoint, i: nat, s1: Endpoint, hold: Hold, thenClose: bool)
    requires s.core.Valid() && !s.locked && s1 == s.At(i, AfterEnd(hold, thenClose))
    ensures Alone(s1, i, s.(core := if thenClose then Close(s.core) else s.core).At(i, Stopped(hold)))
  {
    hide Alone;
    if thenClose {
      AtTwice(s.(core := Close(s.core)), i, Closing(hold), Stopped(hold));
      Ends(s1, i, s.(core := Close(s.core)).At(i, Stopped(hold)));
    } else {
      Stays(s1, i);
    }
  }

  // ---- a completed write ----

  /** A write that succeeded, from marking its bytes to the next write or to nothing left to do. */
  lemma TransmittedAlone(s: Endpoint, i: nat, n: nat) returns (t: Endpoint)
    requires s.core.Valid() && i in s.acts && s.acts[i] == SendMarking(n) && n == s.flushed <= |s.core.sendData|
    requires !s.locked && s.pending == []
    ensures Alone(s, i, t) && i in t.acts
    ensures t == s.(core := Transmitted(s.core, n), flushed := 0, acts := s.acts[i := t.acts[i]])
  {
    hide CreateMessages, CreateStep, Alone, EndpointStates.RunSending;
    var core := s.core.(sendData := s.core.sendData[n..]);
    var s0 := s.(core := core, flushed := 0);
    var s1 := s0.At(i, Refilling);
    Sends(s, i, s1);
    CreatingAlone(s1, i, false);
    match CreateMessages(core) {
      case Refusing =>
        AtTwice(s0, i, Refilling, Closing(SendToken));
        var s2 := s0.At(i, Closing(SendToken));
        Then(s, i, s1, s2);
        t := s0.(core := Close(core)).At(i, Stopped(SendToken));
        AtTwice(s0.(core := Close(core)), i, Closing(SendToken), Stopped(SendToken));
        Ends(s2, i, t);
        Then(s, i, s2, t);
      case Created(c) =>
        AtTwice(s0.(core := c), i, Refilling, SendReleasing);
        var s2 := s0.(core := c).At(i, SendReleasing);
        Then(s, i, s1, s2);
        var s3 := s0.(core := c.(sending := false)).At(i, SendEntry);
        AtTwice(s0.(core := c.(sending := false)), i, SendReleasing, SendEntry);
        Sends(s2, i, s3);
        Then(s, i, s2, s3);
        RunSendingAlone(s3, i);
        var (c', start) := EndpointStates.RunSending(s3.core);
        t := s3.(core := c').At(i, AfterStart(start));
        AtTwice(s0.(core := c'), i, SendEntry, AfterStart(start));
        Then(s, i, s3, t);
    }
  }

  /** complete_sending, for every error code. */
  lemma CompletedWriteAlone(s: Endpoint, i: nat, ec: Ec, n: nat) returns (t: Endpoint)
    requires s.core.Valid() && i in s.acts && s.acts[i] == WriteDone(ec, n) && n == s.flushed <= |s.core.sendData|
    requires !s.locked && s.pending == []
    ensures Alone(s, i, t) && i in t.acts
    ensures var (c, called) := CompletedWrite(s.core, ec, n);
            t == s.(core := c, invoked := s.invoked + called, flushed := t.flushed, acts := s.acts[i := t.acts[i]])
  {
    hide Alone, Transmitted, Ended;
    assert s.invoked + [] == s.invoked;
    var s1 := SendStep(s, i, NO_CHOICE).value;
    Sends(s, i, s1);
    if s.core.bits.Value() > RUNNING_ENDPOINT {
      t := s1;
    } else {
      match ec {
        case EofOrAborted =>
          var s2 := s.(core := Close(s.core)).At(i, EndCheck(Eof, SendToken, false));
          AtTwice(s.(core := Close(s.core)), i, FlagClosed(SendToken), s2.acts[i]);
          Ends(s1, i, s2);
          Then(s, i, s1, s2);
          t := EndedAs(s.(core := Close(s.core)), i, s2, Eof, SendToken);
          Then(s, i, s2, t);
        case Failed =>
          t := EndedAs(s, i, s1, Error, SendToken);
          Then(s, i, s1, t);
        case Success =>
          t := TransmittedAlone(s1, i, n);
          Then(s, i, s1, t);
          assert s.acts[i := SendMarking(n)][i := t.acts[i]] == s.acts[i := t.acts[i]];
      }
    }
  }

  lemma EndedAs(s: Endpoint, i: nat, s1: Endpoint, kind: Terminal, hold: Hold) returns (t: Endpoint)
    requires s.core.Valid() && !s.locked && s1 == s.At(i, EndCheck(kind, hold, false))
    ensures Alone(s1, i, t) && i in t.acts
    ensures var (c, called) := Ended(s.core, kind);
            t == s.(core := c, invoked := s.invoked + called).At(i, Stopped(hold))
  {
    hide Alone, Ended;
    EndingAlone(s1, i, kind, hold, false);
    var (c, called) := Ended(s.core, kind);
    t := s.(core := c, invoked := s.invoked + called).At(i, Stopped(hold));
    AtTwice(s.(core := c, invoked := s.invoked + called), i, s1.acts[i], Stopped(hold));
  }

  // ---- a completed read ----

  function AfterAsking(want: Option<nat>): Pc {
    if want.Some? then ReadClaimed(want.value) else Stopped(NoToken)
  }

  lemma RunReadingAlone(s: Endpoint, i: nat)
    requires s.core.Valid() && i in s.acts && s.acts[i] == ReadEntry && !s.locked
    ensures var (c, want) := RunReading(s.core);
            Alone(s, i, s.(core := c).At(i, AfterAsking(want)))
  {
    hide Alone, RunReading;
    var (c, want) := RunReading(s.core);
    Reads(s, i, s.(core := c).At(i, AfterAsking(want)));
  }

  /** What a pass of the reader over the bytes with `chunk` behind them leaves. */
  function Passed(s: Endpoint, chunk: Bytes): Endpoint
    requires s.core.Valid() && |chunk| <= s.core.ReadSpace()
  {
    var core := s.core.(readData := s.core.readData + chunk);
    var o := ReaderPass(core);
    s.(core := core.(order := o.e), arrived := s.arrived + chunk,
       delivered := s.delivered + o.bodies, decoded := s.decoded + o.consumed)
  }

  lemma PassAlone(s: Endpoint, i: nat, chunk: Bytes, pc: Pc)
    requires s.core.Valid() && i in s.acts && s.acts[i] == ReadMarking(chunk) && |chunk| <= s.core.ReadSpace()
    requires var o := ReaderPass(s.core.(readData := s.core.readData + chunk));
             pc == if o.error.Some? then EndCheck(ProtoError, ReadToken, false) else Consuming(o.consumed, o.needed)
    ensures Alone(s, i, Passed(s, chunk).At(i, pc))
  {
    hide Alone, ReaderPass;
    var marked := s.(core := s.core.(readData := s.core.readData + chunk), arrived := s.arrived + chunk);
    var s1 := marked.At(i, Parsing);
    Receives(s, i, s1);
    var s2 := Passed(s, chunk).At(i, pc);
    AtTwice(Passed(s, chunk), i, Parsing, pc);
    Receives(s1, i, s2);
    Then(s, i, s1, s2);
  }

  /** From dropping what was consumed to giving the token back. */
  lemma DroppedAlone(s: Endpoint, i: nat, consumed: nat, needed: nat)
    requires s.core.Valid() && i in s.acts && s.acts[i] == Consuming(consumed, needed) && !s.locked
    requires consumed <= |s.core.readData|
    ensures Alone(s, i, s.(core := s.core.(readData := s.core.readData[consumed..], readNeeded := needed, reading := false),
                           dropped := s.dropped + consumed).At(i, ReadEntry))
  {
    hide Alone;
    var s0 := s.(core := s.core.(readData := s.core.readData[consumed..]), dropped := s.dropped + consumed);
    var s1 := s0.At(i, SettingNeeded(needed));
    Receives(s, i, s1);
    var n0 := s0.(core := s0.core.(readNeeded := needed));
    var s2 := n0.At(i, ReadReleasing);
    AtTwice(n0, i, SettingNeeded(needed), ReadReleasing);
    Receives(s1, i, s2);
    var r0 := n0.(core := n0.core.(reading := false));
    var s3 := r0.At(i, ReadEntry);
    AtTwice(r0, i, ReadReleasing, ReadEntry);
    Receives(s2, i, s3);
    Then(s, i, s1, s2);
    Then(s, i, s2, s3);
  }

  /** An accepted read after the pass: dropped, the token given back, and read on. */
  lemma AcceptedAlone(s: Endpoint, i: nat, consumed: nat, needed: nat)
    requires s.core.Valid() && i in s.acts && s.acts[i] == Consuming(consumed, needed) && !s.locked
    requires consumed <= |s.core.readData|
    ensures var core := s.core.(readData := s.core.readData[consumed..], readNeeded := needed, reading := false);
            var (c, want) := RunReading(core);
            Alone(s, i, s.(core := c, dropped := s.dropped + consumed).At(i, AfterAsking(want)))
  {
    hide Alone, RunReading;
    var core := s.core.(readData := s.core.readData[consumed..], readNeeded := needed, reading := false);
    var d := s.(core := core, dropped := s.dropped + consumed);
    DroppedAlone(s, i, consumed, needed);
    RunReadingAlone(d.At(i, ReadEntry), i);
    var (c, want) := RunReading(core);
    AtTwice(d.(core := c), i, ReadEntry, AfterAsking(want));
    Then(s, i, d.At(i, ReadEntry), d.(core := c).At(i, AfterAsking(want)));
  }

  lemma RefusedAlone(s: Endpoint, i: nat, chunk: Bytes) returns (t: Endpoint)
    requires s.core.Valid() && i in s.acts && s.acts[i] == ReadMarking(chunk) && |chunk| <= s.core.ReadSpace()
    requires !s.locked && ReaderPass(s.core.(readData := s.core.readData + chunk)).error.Some?
    ensures var p := Passed(s, chunk);
            var (c, called) := Ended(p.core, ProtoError);
            Alone(s, i, t) && t == p.(core := c, invoked := s.invoked + called).At(i, Stopped(ReadToken))
  {
    hide Alone, Passed, ReaderPass, Ended;
    PassedIsBare(s, chunk);
    var p := Passed(s, chunk);
    var s1 := p.At(i, EndCheck(ProtoError, ReadToken, false));
    PassAlone(s, i, chunk, s1.acts[i]);
    t := EndedAs(p, i, s1, ProtoError, ReadToken);
    Then(s, i, s1, t);
  }

  lemma ParsedAlone(s: Endpoint, i: nat, chunk: Bytes) returns (t: Endpoint)
    requires s.core.Valid() && i in s.acts && s.acts[i] == ReadMarking(chunk) && |chunk| <= s.core.ReadSpace()
    requires !s.locked && ReaderPass(s.core.(readData := s.core.readData + chunk)).error.None?
    ensures var p, o := Passed(s, chunk), ReaderPass(s.core.(readData := s.core.readData + chunk));
            && o.consumed <= |p.core.readData|
            && var (c, want) := RunReading(p.core.(readData := p.core.readData[o.consumed..], readNeeded := o.needed,
                                                   reading := false));
               Alone(s, i, t) && t == p.(core := c, dropped := s.dropped + o.consumed).At(i, AfterAsking(want))
  {
    hide Alone, Passed, ReaderPass, RunReading;
    PassedIsBare(s, chunk);
    var p, o := Passed(s, chunk), ReaderPass(s.core.(readData := s.core.readData + chunk));
    var s1 := p.At(i, Consuming(o.consumed, o.needed));
    PassAlone(s, i, chunk, s1.acts[i]);
    AcceptedAlone(s1, i, o.consumed, o.needed);
    var (c, want) := RunReading(p.core.(readData := p.core.readData[o.consumed..], readNeeded := o.needed, reading := false));
    var q := p.(core := c, dropped := p.dropped + o.consumed);
    t := q.At(i, AfterAsking(want));
    AtTwice(q, i, s1.acts[i], AfterAsking(want));
    Then(s, i, s1, t);
  }

  lemma PassedIsBare(s: Endpoint, chunk: Bytes)
    requires s.core.Valid() && |chunk| <= s.core.ReadSpace()
    ensures var p := Passed(s, chunk);
            && p.core.Valid() && p.locked == s.locked && p.acts == s.acts && p.invoked == s.invoked
            && p.dropped == s.dropped && p.core.readData == s.core.readData + chunk
  {
    hide ReaderPass;
  }

  /** A read that succeeded: refused by the reader and ended, or parsed, dropped and read on. */
  lemma ReceivedAlone(s: Endpoint, i: nat, chunk: Bytes) returns (t: Endpoint)
    requires s.core.Valid() && i in s.acts && s.acts[i] == ReadMarking(chunk) && |chunk| <= s.core.ReadSpace()
    requires !s.locked && s.core.bits.Value() <= RUNNING_ENDPOINT
    ensures Alone(s, i, t) && i in t.acts
    ensures var (c, called) := CompletedRead(s.core, Success, chunk);
            t == s.(core := c, invoked := s.invoked + called, arrived := s.arrived + chunk,
                    delivered := s.delivered + ReadBodies(s.core, Success, chunk),
                    decoded := t.decoded, dropped := t.dropped, acts := s.acts[i := t.acts[i]])
  {
    hide Alone, ReaderPass, RunReading, Ended;
    if ReaderPass(s.core.(readData := s.core.readData + chunk)).error.Some? {
      t := RefusedAlone(s, i, chunk);
    } else {
      t := ParsedAlone(s, i, chunk);
      assert s.invoked + [] == s.invoked;
    }
  }

  /** complete_reading, for every error code. */
  lemma CompletedReadAlone(s: Endpoint, i: nat, ec: Ec, chunk: Bytes) returns (t: Endpoint)
    requires s.core.Valid() && i in s.acts && s.acts[i] == ReadDone(ec, chunk) && !s.locked
    requires ec.Success? ==> |chunk| <= s.core.ReadSpace()
    ensures Alone(s, i, t) && i in t.acts
    ensures var (c, called) := CompletedRead(s.core, ec, chunk);
            t == s.(core := c, invoked := s.invoked + called, arrived := t.arrived,
                    delivered := s.delivered + ReadBodies(s.core, ec, chunk),
                    decoded := t.decoded, dropped := t.dropped, acts := s.acts[i := t.acts[i]])
  {
    hide Alone, ReaderPass, RunReading, EndpointStates.CompleteReading, Ended;
    assert s.invoked + [] == s.invoked && s.delivered + [] == s.delivered;
    var s1 := ReceiveStep(s, i).value;
    Receives(s, i, s1);
    if s.core.bits.Value() > RUNNING_ENDPOINT {
      t := s1;
    } else {
      match ec {
        case EofOrAborted =>
          var closed := s.(core := Close(s.core));
          var s2 := closed.At(i, EndCheck(Eof, ReadToken, false));
          AtTwice(closed, i, FlagClosed(ReadToken), s2.acts[i]);
          Ends(s1, i, s2);
          Then(s, i, s1, s2);
          t := EndedAs(closed, i, s2, Eof, ReadToken);
          Then(s, i, s2, t);
        case Failed =>
          t := FailedAlone(s, i, s1);
          Then(s, i, s1, t);
        case Success =>
          t := ReceivedAlone(s1, i, chunk);
          Then(s, i, s1, t);
          assert s.acts[i := ReadMarking(chunk)][i := t.acts[i]] == s.acts[i := t.acts[i]];
      }
    }
  }

  /** A read that failed: the error bit is set first, so error() does nothing. */
  lemma FailedAlone(s: Endpoint, i: nat, s1: Endpoint) returns (t: Endpoint)
    requires s.core.Valid() && i in s.acts && !s.locked && s1 == s.At(i, FlagErrored(ReadToken))
    ensures Alone(s1, i, t) && i in t.acts
    ensures var (c, called) := Ended(s.core.(bits := s.core.bits.(errored := true)), Error);
            t == s.(core := Close(c), invoked := s.invoked + called).At(i, Stopped(ReadToken))
  {
    hide Alone, Ended;
    var flagged := s.(core := s.core.(bits := s.core.bits.(errored := true)));
    var s2 := flagged.At(i, EndCheck(Error, ReadToken, true));
    AtTwice(flagged, i, FlagErrored(ReadToken), s2.acts[i]);
    Ends(s1, i, s2);
    EndingAlone(s2, i, Error, ReadToken, true);
    var (c, called) := Ended(flagged.core, Error);
    t := s.(core := Close(c), invoked := s.invoked + called).At(i, Stopped(ReadToken));
    AtTwice(s.(core := Close(c), invoked := s.invoked + called), i, s2.acts[i], Stopped(ReadToken));
    Then(s1, i, s2, t);
  }

  // ---- go ----

  lemma GoAlone(s: Endpoint, i: nat, fails: bool)
    requires s.core.Valid() && i in s.acts && s.acts[i] == GoStart && !s.locked
    ensures var (c, want) := Go(s.core, fails);
            Alone(s, i, s.(core := c, goes := s.goes + 1).At(i, AfterAsking(want)))
  {
    hide Alone, RunReading;
    var bits := if fails then s.core.bits.(errored := true, closed := true) else s.core.bits;
    var b := s.(core := s.core.(bits := bits));
    StartAlone(s, i, fails);
    var s1 := b.At(i, GoRunning);
    var r := b.(core := b.core.(bits := bits.(running := true)));
    var s2 := r.At(i, GoNeed);
    AtTwice(r, i, GoRunning, GoNeed);
    Goes(s1, i, NO_CHOICE, s2);
    Then(s, i, s1, s2);
    var n := r.(core := r.core.(readNeeded := s.core.readNeeded + 1), goes := s.goes + 1);
    var s3 := n.At(i, ReadEntry);
    AtTwice(n, i, GoNeed, ReadEntry);
    Goes(s2, i, NO_CHOICE, s3);
    Then(s, i, s2, s3);
    RunReadingAlone(s3, i);
    var (c, want) := RunReading(n.core);
    AtTwice(n.(core := c), i, ReadEntry, AfterAsking(want));
    Then(s, i, s3, n.(core := c).At(i, AfterAsking(want)));
  }

  /** The onStart handler, which may throw. */
  lemma StartAlone(s: Endpoint, i: nat, fails: bool)
    requires s.core.Valid() && i in s.acts && s.acts[i] == GoStart && !s.locked
    ensures var bits := if fails then s.core.bits.(errored := true, closed := true) else s.core.bits;
            Alone(s, i, s.(core := s.core.(bits := bits)).At(i, GoRunning))
  {
    hide Alone;
    var ch := NO_CHOICE.(fails := fails);
    if fails {
      var s1 := s.At(i, GoFailed);
      Goes(s, i, ch, s1);
      var failed := s.(core := s.core.(bits := s.core.bits.(errored := true, closed := true)));
      AtTwice(failed, i, GoFailed, GoRunning);
      Goes(s1, i, ch, failed.At(i, GoRunning));
      Then(s, i, s1, failed.At(i, GoRunning));
    } else {
      Goes(s, i, ch, s.At(i, GoRunning));
    }
  }
}
