/** One endpoint under any interleaving of any number of activities.  An activity is a chain of
    calls run one after the other -- run_sending, the write it starts, the completion of that
    write, and so on -- and a step is one locked region, one atomic operation on the state, one
    push or pop of the transmit queue, or one move of the socket. */
module EndpointProtocol {
  import opened ByteStrings
  import opened Wrappers
  import opened Framing
  import opened ProtoMessageReaders
  import opened ProtoMessageSenders
  import opened EndpointStates

  /** The token an activity keeps while, and after, it ends the connection. */
  datatype Hold = NoToken | SendToken | ReadToken

  /** Where an activity is. */
  datatype Pc =
    // run_sending and complete_sending
    | SendEntry                                       // about to take the mutex in run_sending
    | SendCreating                                    // in create_messages, with the mutex held
    | SendClaimed                                     // token taken, about to call async_write
    | Writing(data: Bytes, done: nat)                 // the write is in flight
    | WriteDone(ec: Ec, bytes: nat)                   // complete_sending called
    | SendMarking(bytes: nat)                         // about to mark the data used
    | Refilling                                       // in create_messages, without the mutex
    | SendReleasing                                   // about to give the token back
    // run_reading and complete_reading
    | ReadEntry                                       // about to take the mutex in run_reading
    | ReadClaimed(want: nat)                          // token taken, about to call async_read
    | Reading(want: nat)                              // the read is in flight
    | ReadDone(ec: Ec, chunk: Bytes)                  // complete_reading called
    | ReadMarking(chunk: Bytes)                       // about to mark the space used
    | Parsing                                         // about to call checkForMessage
    | Consuming(consumed: nat, needed: nat)           // about to mark the data used
    | SettingNeeded(needed: nat)                      // about to set read_needed
    | ReadReleasing                                   // about to give the token back
    // eof, error, proto_error and close
    | FlagClosed(hold: Hold)                          // about to set CLOSED before eof()
    | FlagErrored(hold: Hold)                         // about to set ERRORED before error()
    | EndCheck(kind: Terminal, hold: Hold, thenClose: bool)
    | EndLocked(kind: Terminal, hold: Hold, thenClose: bool)
    | Invoking(kind: Terminal, hold: Hold, thenClose: bool)
    | Closing(hold: Hold)
    // go
    | GoStart | GoFailed | GoRunning | GoNeed
    // returned; the token, if any, is never given back
    | Stopped(hold: Hold)

  function HoldOf(pc: Pc): Hold {
    match pc
    case SendClaimed => SendToken
    case Writing(_, _) => SendToken
    case WriteDone(_, _) => SendToken
    case SendMarking(_) => SendToken
    case Refilling => SendToken
    case SendReleasing => SendToken
    case ReadClaimed(_) => ReadToken
    case Reading(_) => ReadToken
    case ReadDone(_, _) => ReadToken
    case ReadMarking(_) => ReadToken
    case Parsing => ReadToken
    case Consuming(_, _) => ReadToken
    case SettingNeeded(_) => ReadToken
    case ReadReleasing => ReadToken
    case FlagClosed(hold) => hold
    case FlagErrored(hold) => hold
    case EndCheck(_, hold, _) => hold
    case EndLocked(_, hold, _) => hold
    case Invoking(_, hold, _) => hold
    case Closing(hold) => hold
    case Stopped(hold) => hold
    case _ => NoToken
  }

  predicate Creating(pc: Pc) {
    pc.SendCreating? || pc.Refilling?
  }

  datatype Endpoint = Endpoint(
    core: Core,
    locked: bool,             // the endpoint's mutex is held across steps
    pending: Bytes,           // frames written to the send buffer and not yet announced
    flushed: nat,             // bytes at the front of the send buffer already on the wire
    acts: map<nat, Pc>,
    // what has happened so far
    accepted: seq<Message>,   // messages send() took
    wire: Bytes,              // bytes the socket has sent
    arrived: Bytes,           // bytes read from the socket and marked
    dropped: nat,             // of these, bytes removed from the read buffer
    decoded: nat,             // of these, bytes whose messages have been handed on
    delivered: seq<Message>,  // messages given to onComplete
    invoked: seq<Terminal>,   // terminal handlers called
    goes: nat)                // calls of go that have raised read_needed
  {
    /** This state with activity `i` moved to `pc`. */
    function At(i: nat, pc: Pc): Endpoint {
      this.(acts := acts[i := pc])
    }
  }

  /** The environment's part of a step. */
  datatype Choice = Choice(ec: Ec, count: nat, chunk: Bytes, fails: bool)

  function AfterEnd(hold: Hold, thenClose: bool): Pc {
    if thenClose then Closing(hold) else Stopped(hold)
  }

  // ---- the steps of one activity; None when the step cannot happen ----

  /** One turn of create_messages: the writer's next frame, or the end of its loop. */
  function CreateStep(s: Endpoint, i: nat, locked: bool): Endpoint
    requires s.core.Valid()
  {
    match NextFrame(s.core, s.pending)
    case Add(frame) =>
      s.(core := s.core.(txq := s.core.txq[1..]), pending := s.pending + frame)
    case Raise =>
      if locked then s.(pending := [], locked := false).At(i, Stopped(NoToken))
      else s.(pending := []).At(i, Closing(SendToken))
    case Stop =>
      var core := s.core.(sendData := s.core.sendData + s.pending);
      if !locked then s.(core := core, pending := []).At(i, SendReleasing)
      else if core.sendData == [] then s.(core := core, pending := [], locked := false).At(i, Stopped(NoToken))
      else s.(core := core.(sending := true), pending := [], locked := false).At(i, SendClaimed)
  }

  function SendStep(s: Endpoint, i: nat, ch: Choice): Option<Endpoint>
    requires s.core.Valid() && i in s.acts
  {
    match s.acts[i]
    case SendEntry =>
      if s.locked then None
      else if !s.core.CanSend() then Some(s.At(i, Stopped(NoToken)))
      else if s.core.sendData == [] then Some(s.(locked := true).At(i, SendCreating))
      else Some(s.(core := s.core.(sending := true)).At(i, SendClaimed))
    case SendCreating => Some(CreateStep(s, i, true))
    case SendClaimed => Some(s.At(i, Writing(Shown(s.core.sendSize, s.core.sendData), 0)))
    case Writing(data, done) =>
      if ch.count > 0 then
        if done + ch.count > |data| then None
        else Some(s.(wire := s.wire + data[done..done + ch.count], flushed := s.flushed + ch.count)
                   .At(i, Writing(data, done + ch.count)))
      else if ch.ec.Success? && done < |data| then None
      else Some(s.At(i, WriteDone(ch.ec, done)))
    case WriteDone(ec, bytes) =>
      Some(s.At(i,
        if s.core.bits.Value() > RUNNING_ENDPOINT then Stopped(SendToken)
        else match ec
             case EofOrAborted => FlagClosed(SendToken)
             case Failed => EndCheck(Error, SendToken, false)
             case Success => SendMarking(bytes)))
    case SendMarking(bytes) =>
      if bytes > |s.core.sendData| || bytes > s.flushed then None
      else Some(s.(core := s.core.(sendData := s.core.sendData[bytes..]), flushed := s.flushed - bytes)
                 .At(i, Refilling))
    case Refilling => Some(CreateStep(s, i, false))
    case SendReleasing =>
      if s.locked then None
      else Some(s.(core := s.core.(sending := false)).At(i, SendEntry))
    case _ => None
  }

  function ReadStep(s: Endpoint, i: nat, ch: Choice): Option<Endpoint>
    requires s.core.Valid() && i in s.acts
  {
    match s.acts[i]
    case ReadEntry =>
      if s.locked then None
      else
        var (core, want) := RunReading(s.core);
        Some(s.(core := core).At(i, if want.Some? then ReadClaimed(want.value) else Stopped(NoToken)))
    case ReadClaimed(want) =>
      Some(s.At(i, if want == 0 then Stopped(ReadToken) else Reading(want)))
    case Reading(want) =>
      if ch.ec.Success? && !(want <= |ch.chunk| <= s.core.ReadSpace()) then None
      else Some(s.At(i, ReadDone(ch.ec, ch.chunk)))
    case _ => None
  }

  function ReceiveStep(s: Endpoint, i: nat): Option<Endpoint>
    requires s.core.Valid() && i in s.acts
  {
    match s.acts[i]
    case ReadDone(ec, chunk) =>
      Some(s.At(i,
        if s.core.bits.Value() > RUNNING_ENDPOINT then Stopped(ReadToken)
        else match ec
             case EofOrAborted => FlagClosed(ReadToken)
             case Failed => FlagErrored(ReadToken)
             case Success => ReadMarking(chunk)))
    case ReadMarking(chunk) =>
      if |chunk| > s.core.ReadSpace() then None
      else Some(s.(core := s.core.(readData := s.core.readData + chunk), arrived := s.arrived + chunk).At(i, Parsing))
    case Parsing =>
      var o := ReaderPass(s.core);
      Some(s.(core := s.core.(order := o.e), delivered := s.delivered + o.bodies, decoded := s.decoded + o.consumed)
            .At(i, if o.error.Some? then EndCheck(ProtoError, ReadToken, false) else Consuming(o.consumed, o.needed)))
    case Consuming(consumed, needed) =>
      if consumed > |s.core.readData| then None
      else Some(s.(core := s.core.(readData := s.core.readData[consumed..]), dropped := s.dropped + consumed)
                 .At(i, SettingNeeded(needed)))
    case SettingNeeded(needed) =>
      if s.locked then None
      else Some(s.(core := s.core.(readNeeded := needed)).At(i, ReadReleasing))
    case ReadReleasing =>
      if s.locked then None
      else Some(s.(core := s.core.(reading := false)).At(i, ReadEntry))
    case _ => None
  }

  function EndStep(s: Endpoint, i: nat): Option<Endpoint>
    requires s.core.Valid() && i in s.acts
  {
    match s.acts[i]
    case FlagClosed(hold) =>
      Some(s.(core := Close(s.core)).At(i, EndCheck(Eof, hold, false)))
    case FlagErrored(hold) =>
      Some(s.(core := s.core.(bits := s.core.bits.(errored := true))).At(i, EndCheck(Error, hold, true)))
    case EndCheck(kind, hold, thenClose) =>
      Some(s.At(i, if AlreadyEnded(s.core, kind) then AfterEnd(hold, thenClose) else EndLocked(kind, hold, thenClose)))
    case EndLocked(kind, hold, thenClose) =>
      if s.locked then None
      else
        var (core, installed) := End(s.core, kind);
        Some(s.(core := core).At(i, if installed then Invoking(kind, hold, thenClose) else AfterEnd(hold, thenClose)))
    case Invoking(kind, hold, thenClose) =>
      Some(s.(invoked := s.invoked + [kind]).At(i, AfterEnd(hold, thenClose)))
    case Closing(hold) =>
      if s.locked then None
      else Some(s.(core := Close(s.core)).At(i, Stopped(hold)))
    case _ => None
  }

  function GoStep(s: Endpoint, i: nat, ch: Choice): Option<Endpoint>
    requires s.core.Valid() && i in s.acts
  {
    match s.acts[i]
    case GoStart =>
      Some(s.At(i, if ch.fails then GoFailed else GoRunning))
    case GoFailed =>
      if s.locked then None
      else Some(s.(core := s.core.(bits := s.core.bits.(errored := true, closed := true))).At(i, GoRunning))
    case GoRunning =>
      Some(s.(core := s.core.(bits := s.core.bits.(running := true))).At(i, GoNeed))
    case GoNeed =>
      if s.locked then None
      else Some(s.(core := s.core.(readNeeded := s.core.readNeeded + 1), goes := s.goes + 1).At(i, ReadEntry))
    case _ => None
  }

  /** An activity that anybody may start: the public calls, and the three endings. */
  predicate CanStart(pc: Pc) {
    || pc.SendEntry? || pc.ReadEntry? || pc.GoStart? || pc == Closing(NoToken)
    || (pc.EndCheck? && pc.hold.NoToken? && !pc.thenClose)
  }

  datatype Action =
    | Send(m: Message)
    | Start(i: nat, pc: Pc)
    | Step(i: nat, ch: Choice)

  function Next(s: Endpoint, a: Action): Option<Endpoint>
    requires s.core.Valid()
  {
    match a
    case Send(m) =>
      if |s.core.txq| >= BUFFER_SIZE_LIMIT then Some(s)
      else Some(s.(core := s.core.(txq := s.core.txq + [m]), accepted := s.accepted + [m]))
    case Start(i, pc) =>
      if i in s.acts || !CanStart(pc) then None else Some(s.At(i, pc))
    case Step(i, ch) =>
      if i !in s.acts then None
      else
        var r := SendStep(s, i, ch);
        if r.Some? then r
        else
          var r := ReadStep(s, i, ch);
          if r.Some? then r
          else
            var r := ReceiveStep(s, i);
            if r.Some? then r
            else
              var r := EndStep(s, i);
              if r.Some? then r else GoStep(s, i, ch)
  }

  predicate Initial(s: Endpoint) {
    && !s.core.sending && !s.core.reading && s.core.readNeeded == 0
    && s.core.txq == [] && s.core.sendData == [] && s.core.readData == []
    && !s.core.bits.IsDead()
    && 0 < s.core.sendSize && 0 < s.core.readSize
    && s == Endpoint(s.core, false, [], 0, map[], [], [], [], 0, 0, [], [], 0)
  }

  // ---- continuations ----

  /** `actions`, taken one after the other, lead from `s` to `t`. */
  ghost predicate Leads(s: Endpoint, actions: seq<Action>, t: Endpoint)
    decreases |actions|
  {
    if actions == [] then s == t
    else s.core.Valid() && Next(s, actions[0]).Some? && Leads(Next(s, actions[0]).value, actions[1..], t)
  }

  lemma LeadsOne(s: Endpoint, a: Action, t: Endpoint)
    requires s.core.Valid() && Next(s, a) == Some(t)
    ensures Leads(s, [a], t)
  {
    hide Next;
    var rest := [a][1..];
    assert Leads(t, rest, t);
  }

  lemma {:induction false} LeadsFurther(s: Endpoint, first: seq<Action>, t: Endpoint, more: seq<Action>, u: Endpoint)
    requires Leads(s, first, t) && Leads(t, more, u)
    ensures Leads(s, first + more, u)
    decreases |first|
  {
    hide Next;
    if first == [] {
      assert first + more == more;
    } else {
      LeadsFurther(Next(s, first[0]).value, first[1..], t, more, u);
      assert (first + more)[1..] == first[1..] + more;
    }
  }

  ghost predicate Reaches(s: Endpoint, t: Endpoint) {
    exists actions :: Leads(s, actions, t)
  }

  lemma ReachesByOne(s: Endpoint, a: Action, t: Endpoint)
    requires s.core.Valid() && Next(s, a) == Some(t)
    ensures Reaches(s, t)
  {
    hide Next, Leads;
    LeadsOne(s, a, t);
  }

  lemma ReachesFurther(s: Endpoint, t: Endpoint, u: Endpoint)
    requires Reaches(s, t) && Reaches(t, u)
    ensures Reaches(s, u)
  {
    hide Next, Leads;
    var first :| Leads(s, first, t);
    var more :| Leads(t, more, u);
    LeadsFurther(s, first, t, more, u);
  }

  /** Every step of an activity is one of the five kinds. */
  lemma StepKinds(s: Endpoint, i: nat, ch: Choice)
    requires s.core.Valid() && Next(s, Step(i, ch)).Some?
    ensures i in s.acts
    ensures var r := Next(s, Step(i, ch));
            || r == SendStep(s, i, ch) || r == ReadStep(s, i, ch) || r == ReceiveStep(s, i)
            || r == EndStep(s, i) || r == GoStep(s, i, ch)
  {
    hide SendStep, ReadStep, ReceiveStep, EndStep, GoStep;
  }

  /** And of no more than one: where one kind can step, that is the step. */
  lemma OneKind(s: Endpoint, i: nat, ch: Choice)
    requires s.core.Valid() && i in s.acts
    ensures SendStep(s, i, ch).Some? ==> Next(s, Step(i, ch)) == SendStep(s, i, ch)
    ensures ReadStep(s, i, ch).Some? ==> Next(s, Step(i, ch)) == ReadStep(s, i, ch)
    ensures ReceiveStep(s, i).Some? ==> Next(s, Step(i, ch)) == ReceiveStep(s, i)
    ensures EndStep(s, i).Some? ==> Next(s, Step(i, ch)) == EndStep(s, i)
    ensures GoStep(s, i, ch).Some? ==> Next(s, Step(i, ch)) == GoStep(s, i, ch)
  {
    hide CreateStep, ReaderPass;
  }

  predicate Ending(pc: Pc) {
    pc.FlagClosed? || pc.FlagErrored? || pc.EndCheck? || pc.EndLocked? || pc.Invoking? || pc.Closing? || pc.Stopped?
  }

  /** A step of an ending touches the state bits, the handlers and the activity itself, which
      keeps the token it had. */
  lemma EndStepTouches(s: Endpoint, i: nat)
    requires s.core.Valid() && i in s.acts && EndStep(s, i).Some?
    ensures var s' := EndStep(s, i).value;
            && i in s'.acts && Ending(s.acts[i]) && Ending(s'.acts[i]) && HoldOf(s'.acts[i]) == HoldOf(s.acts[i])
            && s' == s.(core := s.core.(bits := s'.core.bits, handlers := s'.core.handlers),
                        invoked := s'.invoked, acts := s.acts[i := s'.acts[i]])
  {
  }

  /** What a step of the sending chain touches. */
  ghost predicate TouchesSending(s: Endpoint, i: nat, s': Endpoint)
    requires i in s.acts
  {
    && s'.core.Valid() && |s'.pending| <= s'.core.SendSpace()
    && i in s'.acts && s'.acts == s.acts[i := s'.acts[i]]
    && (HoldOf(s'.acts[i]) != ReadToken && HoldOf(s.acts[i]) != ReadToken)
    && s' == s.(core := s.core.(sending := s'.core.sending, txq := s'.core.txq, sendData := s'.core.sendData),
                locked := s'.locked, pending := s'.pending, flushed := s'.flushed, wire := s'.wire, acts := s'.acts)
  }

  lemma CreateStepTouches(s: Endpoint, i: nat, locked: bool)
    requires s.core.Valid() && i in s.acts && s.acts[i] == if locked then SendCreating else Refilling
    requires |s.pending| <= s.core.SendSpace()
    ensures TouchesSending(s, i, CreateStep(s, i, locked))
  {
    hide NextFrame;
    assert NextFrame(s.core, s.pending).Add? ==> s.acts == s.acts[i := s.acts[i]];
  }

  lemma SendStepTouches(s: Endpoint, i: nat, ch: Choice)
    requires s.core.Valid() && i in s.acts && SendStep(s, i, ch).Some?
    requires |s.pending| <= s.core.SendSpace()
    ensures TouchesSending(s, i, SendStep(s, i, ch).value)
  {
    hide CreateStep, Shown;
    if Creating(s.acts[i]) {
      CreateStepTouches(s, i, s.acts[i].SendCreating?);
    }
  }

  /** A step of go touches the state bits, read_needed and the activity itself. */
  lemma GoStepTouches(s: Endpoint, i: nat, ch: Choice)
    requires s.core.Valid() && i in s.acts && GoStep(s, i, ch).Some?
    ensures var s' := GoStep(s, i, ch).value;
            && i in s'.acts && HoldOf(s.acts[i]) == HoldOf(s'.acts[i]) == NoToken
            && !Creating(s.acts[i]) && !Creating(s'.acts[i])
            && s' == s.(core := s.core.(bits := s'.core.bits, readNeeded := s'.core.readNeeded),
                        goes := s'.goes, acts := s.acts[i := s'.acts[i]])
            && s'.core.readNeeded - s.core.readNeeded == s'.goes - s.goes
            && s.goes <= s'.goes
  {
  }

  /** Only the reader's pass changes the byte order, and never once it is settled. */
  lemma OrderAfterStep(s: Endpoint, i: nat, ch: Choice)
    requires s.core.Valid() && Next(s, Step(i, ch)).Some?
    ensures var order := Next(s, Step(i, ch)).value.core.order;
            order == s.core.order || order == ReaderPass(s.core).e
    ensures s.core.order.Settled() ==> Next(s, Step(i, ch)).value.core.order == s.core.order
  {
    hide SendStep, ReadStep, ReceiveStep, EndStep, GoStep, Check;
    StepKinds(s, i, ch);
    var s' := Next(s, Step(i, ch)).value;
    if SendStep(s, i, ch) == Some(s') {
      SendStepOrder(s, i, ch);
    } else if ReadStep(s, i, ch) == Some(s') {
      ReadStepOrder(s, i, ch);
    } else if ReceiveStep(s, i) == Some(s') {
      ReceiveStepOrder(s, i);
    } else if EndStep(s, i) == Some(s') {
      EndStepTouches(s, i);
    } else {
      GoStepTouches(s, i, ch);
    }
  }

  lemma SendStepOrder(s: Endpoint, i: nat, ch: Choice)
    requires s.core.Valid() && i in s.acts && SendStep(s, i, ch).Some?
    ensures SendStep(s, i, ch).value.core.order == s.core.order
  {
    hide NextFrame, Shown;
  }

  lemma ReadStepOrder(s: Endpoint, i: nat, ch: Choice)
    requires s.core.Valid() && i in s.acts && ReadStep(s, i, ch).Some?
    ensures ReadStep(s, i, ch).value.core.order == s.core.order
  {
  }

  lemma ReceiveStepOrder(s: Endpoint, i: nat)
    requires s.core.Valid() && i in s.acts && ReceiveStep(s, i).Some?
    ensures var order := ReceiveStep(s, i).value.core.order;
            order == s.core.order || order == ReaderPass(s.core).e
  {
    hide ReaderPass;
  }
}
