/** The state of one endpoint and what each locked region or handler phase of EndpointBase does
    to it, as functions.  The class EndpointBase is proved against these functions, and the
    protocol over arbitrarily interleaved activities is built from them. */
module EndpointStates {
  import opened ByteStrings
  import opened Wrappers
  import opened Framing
  import opened CharArrayBuffers
  import opened ProtoMessageReaders
  import opened ProtoMessageSenders

  /** The state bitmask; bits are only ever added. */
  datatype Bits = Bits(running: bool, closed: bool, eof: bool, errored: bool) {
    function Value(): (v: nat)
      ensures v == 1 <==> running && !IsDead()
      ensures v > 1 <==> IsDead()
    {
      (if running then 1 else 0) + (if closed then 2 else 0) + (if eof then 4 else 0) + (if errored then 8 else 0)
    }

    predicate IsDead() {
      closed || eof || errored
    }

    ghost predicate Within(other: Bits) {
      && (running ==> other.running)
      && (closed ==> other.closed)
      && (eof ==> other.eof)
      && (errored ==> other.errored)
    }
  }

  const RUNNING_ENDPOINT: nat := 1

  /** The three terminal notifications. */
  datatype Terminal = Eof | Error | ProtoError

  /** Which terminal handlers are installed. */
  datatype Handlers = Handlers(onEof: bool, onError: bool, onProtoError: bool) {
    predicate Has(kind: Terminal) {
      match kind
      case Eof => onEof
      case Error => onError
      case ProtoError => onProtoError
    }

    predicate None() {
      !onEof && !onError && !onProtoError
    }
  }

  datatype Core = Core(
    bits: Bits,
    sending: bool,
    reading: bool,
    readNeeded: nat,
    order: Endianness,
    txq: seq<Message>,
    sendSize: nat,
    sendData: Bytes,
    readSize: nat,
    readData: Bytes,
    handlers: Handlers)
  {
    ghost predicate Valid() {
      && |sendData| <= sendSize
      && |readData| <= readSize
    }

    predicate CanSend() {
      !sending && bits.Value() == RUNNING_ENDPOINT
    }

    predicate CanRead() {
      !reading && bits.Value() == RUNNING_ENDPOINT
    }

    function SendSpace(): int {
      sendSize - |sendData|
    }

    function ReadSpace(): int {
      readSize - |readData|
    }
  }

  /** The bytes a ring of `size` shows of its contents: all of them, unless it is full. */
  function Shown(size: nat, data: Bytes): Bytes {
    if |data| == size then [] else data
  }

  // ---- sending ----

  datatype Created = Created(core: Core) | Refusing

  /** create_messages, left alone: as many whole frames as fit, in queue order. */
  function CreateMessages(c: Core): (r: Created)
    requires c.Valid()
    ensures r.Created? ==> r.core.Valid()
  {
    var k := Fits(c.SendSpace(), c.txq);
    if k == 0 then Created(c)
    else if !c.order.Settled() then Refusing
    else
      FitsIsMaximal(c.order, c.SendSpace(), c.txq);
      Created(c.(txq := c.txq[k..], sendData := c.sendData + Frames(c.order, c.txq[..k])))
  }

  /** A pass of the writer over the free bytes `g` of the send buffer, and the announcement of
      what it wrote, is `CreateMessages`. */
  lemma WriterPassCreates(c: Core, q': seq<Message>, g: Bytes, g': Bytes, n: nat)
    requires c.Valid() && |g| == |g'| == c.SendSpace()
    requires Moved(c.order, Fits(c.SendSpace(), c.txq), c.txq, g, q', g', n)
    ensures n <= |g'|
    ensures CreateMessages(c) == Created(c.(txq := q', sendData := c.sendData + g'[..n]))
  {
    var k := Fits(c.SendSpace(), c.txq);
    if k == 0 {
      assert c.txq[0..] == c.txq && c.sendData + [] == c.sendData;
    } else {
      var w := Frames(c.order, c.txq[..k]);
      assert Overlay(g, 0, w)[..n] == w;
    }
  }

  lemma UnsettledRefuses(c: Core, g: Bytes, q': seq<Message>, g': Bytes)
    requires c.Valid() && Fits(c.SendSpace(), c.txq) > 0 && !c.order.Settled()
    requires Moved(c.order, 0, c.txq, g, q', g', 0)
    ensures CreateMessages(c) == Refusing && q' == c.txq && g' == g
  {
  }

  datatype SendStart = Exit | Idle | Claimed | Raised

  /** The locked region of run_sending. */
  function RunSending(c: Core): (r: (Core, SendStart))
    requires c.Valid()
    ensures r.0.Valid()
  {
    if !c.CanSend() then (c, Exit)
    else
      var r := if c.sendData == [] then CreateMessages(c) else Created(c);
      if r.Refusing? then (c, Raised)
      else if r.core.sendData == [] then (r.core, Idle)
      else (r.core.(sending := true), Claimed)
  }

  /** complete_sending after a successful write of `n` bytes, up to the release of the token. */
  function CompleteSending(c: Core, n: nat): (r: Created)
    requires c.Valid() && n <= |c.sendData|
    ensures r.Created? ==> r.core.Valid()
  {
    match CreateMessages(c.(sendData := c.sendData[n..]))
    case Refusing => Refusing
    case Created(c') => Created(c'.(sending := false))
  }

  /** One turn of the writer's loop, `pending` bytes having been written but not yet announced:
      the frame it would add, if there is one to add. */
  datatype WriterTurn = Stop | Raise | Add(frame: Bytes)

  function NextFrame(c: Core, pending: Bytes): (turn: WriterTurn)
    ensures turn.Add? ==> c.txq != [] && |pending| + |turn.frame| <= c.SendSpace()
  {
    if c.txq == [] || c.SendSpace() - |pending| < |c.txq[0]| + HEAD_SIZE then Stop
    else if !c.order.Settled() then Raise
    else Add(Frame(c.order, c.txq[0]))
  }

  /** create_messages as the turns of its loop and the final announcement. */
  function TakeTurns(c: Core, pending: Bytes): Created
    decreases |c.txq|
  {
    match NextFrame(c, pending)
    case Stop => Created(c.(sendData := c.sendData + pending))
    case Raise => Refusing
    case Add(frame) => TakeTurns(c.(txq := c.txq[1..]), pending + frame)
  }

  lemma {:induction false} TakeTurnsRest(c: Core, pending: Bytes)
    requires c.Valid() && c.order.Settled() && |pending| <= c.SendSpace()
    ensures var k := Fits(c.SendSpace() - |pending|, c.txq);
            TakeTurns(c, pending) == Created(c.(txq := c.txq[k..],
              sendData := c.sendData + (pending + Frames(c.order, c.txq[..k]))))
    decreases |c.txq|
  {
    if NextFrame(c, pending).Add? {
      var q, f := c.txq, NextFrame(c, pending).frame;
      var k := Fits(c.SendSpace() - |pending|, q);
      TakeTurnsRest(c.(txq := q[1..]), pending + f);
      assert q[1..][k - 1..] == q[k..];
      assert q[..k] == [q[0]] + q[1..][..k - 1];
      FramesCons(c.order, q[0], q[1..][..k - 1]);
      assert (pending + f) + Frames(c.order, q[1..][..k - 1]) == pending + Frames(c.order, q[..k]);
    } else {
      assert c.txq[..0] == [] && c.txq[0..] == c.txq;
      assert pending + [] == pending;
    }
  }

  lemma CreatesInOrder(c: Core)
    requires c.Valid() && c.order.Settled()
    ensures var k := Fits(c.SendSpace(), c.txq);
            CreateMessages(c) == Created(c.(txq := c.txq[k..], sendData := c.sendData + Frames(c.order, c.txq[..k])))
  {
    hide Fits, Frames;
    var k := Fits(c.SendSpace(), c.txq);
    if k == 0 {
      assert c.txq[0..] == c.txq && c.txq[..0] == [];
      NoFrames(c.order);
      assert c.sendData + [] == c.sendData;
    }
  }

  lemma NoFrames(e: Endianness)
    requires e.Settled()
    ensures Frames(e, []) == []
  {
  }

  lemma UnsettledTurn(c: Core, pending: Bytes)
    requires c.Valid() && !c.order.Settled() && pending == []
    ensures TakeTurns(c, pending) == CreateMessages(c)
  {
    hide Frames;
    assert c.sendData + pending == c.sendData;
  }

  /** Taken one frame at a time with nobody in between, create_messages is `CreateMessages`. */
  lemma TurnsAreCreateMessages(c: Core)
    requires c.Valid()
    ensures TakeTurns(c, []) == CreateMessages(c)
  {
    hide CreateMessages, TakeTurns, Fits, Frames;
    if c.order.Settled() {
      TakeTurnsRest(c, []);
      CreatesInOrder(c);
      var k := Fits(c.SendSpace(), c.txq);
      assert [] + Frames(c.order, c.txq[..k]) == Frames(c.order, c.txq[..k]);
    } else {
      UnsettledTurn(c, []);
    }
  }

  // ---- reading ----

  /** The locked region of run_reading: the token, and how many bytes to ask for. */
  function RunReading(c: Core): (r: (Core, Option<nat>))
    requires c.Valid()
    ensures r.0.Valid()
    ensures r.1.Some? ==> r.1.value <= c.ReadSpace() && (r.1.value == 0 <==> c.ReadSpace() == 0)
  {
    if !c.CanRead() || c.readNeeded == 0 then (c, None)
    else
      var want := if c.readNeeded > c.ReadSpace() then c.ReadSpace() else c.readNeeded;
      (c.(readNeeded := 0, reading := true), Some(want))
  }

  /** What the reader makes of the bytes the read buffer shows. */
  function ReaderPass(c: Core): (o: Outcome)
    requires c.Valid()
    ensures o.consumed <= |c.readData|
  {
    Check(c.order, true, Shown(c.readSize, c.readData))
  }

  /** complete_reading after `chunk` has arrived, up to the release of the token; when the
      reader throws, its exception and the state at that point. */
  function CompleteReading(c: Core, chunk: Bytes): (r: (Core, Option<ReadError>))
    requires c.Valid() && |chunk| <= c.ReadSpace()
    ensures r.0.Valid()
  {
    var c1 := c.(readData := c.readData + chunk);
    var o := ReaderPass(c1);
    if o.error.Some? then (c1.(order := o.e), o.error)
    else (c1.(order := o.e, readData := c1.readData[o.consumed..], readNeeded := o.needed, reading := false), None)
  }

  // ---- termination ----

  /** The unlocked test before the locked region: has this kind of ending been seen? */
  predicate AlreadyEnded(c: Core, kind: Terminal) {
    if kind.Eof? then c.bits.eof else c.bits.errored
  }

  /** The locked region of eof, error and proto_error: the bits, and the handler taken out. */
  function End(c: Core, kind: Terminal): (r: (Core, bool))
    ensures c.bits.Within(r.0.bits) && AlreadyEnded(r.0, kind)
    ensures r.0.bits == Bits(c.bits.running, true, c.bits.eof || kind.Eof?, c.bits.errored || !kind.Eof?)
    ensures r.0.handlers.None() && r.0.sending == c.sending && r.0.reading == c.reading
  {
    var bits := if kind.Eof? then c.bits.(eof := true, closed := true)
                else c.bits.(errored := true, closed := true);
    (c.(bits := bits, handlers := Handlers(false, false, false)), c.handlers.Has(kind))
  }

  /** One call of eof, error or proto_error by a thread on its own: the new state and the
      handlers it invokes. */
  function Ended(c: Core, kind: Terminal): (r: (Core, seq<Terminal>))
    ensures c.Valid() ==> r.0.Valid()
  {
    if AlreadyEnded(c, kind) then (c, [])
    else
      var (c', installed) := End(c, kind);
      (c', if installed then [kind] else [])
  }

  function Close(c: Core): Core {
    c.(bits := c.bits.(closed := true))
  }

  // ---- whole completions, run by a thread on its own ----

  /** go, told whether the onStart handler throws: a dead endpoint asks for nothing, a fresh one
      for one byte. */
  function Go(c: Core, fails: bool): (r: (Core, Option<nat>))
    requires c.Valid()
    ensures r.0.Valid() && c.bits.Within(r.0.bits) && r.0.bits.running
    ensures c.bits.IsDead() || fails ==> r.1.None? && r.0.reading == c.reading
    ensures !c.bits.IsDead() && !fails && !c.reading && c.readNeeded == 0 && c.ReadSpace() > 0 ==> r.1 == Some(1)
  {
    var bits := if fails then c.bits.(errored := true, closed := true) else c.bits;
    RunReading(c.(bits := bits.(running := true), readNeeded := c.readNeeded + 1))
  }

  /** The error code of a completed operation. */
  datatype Ec = Success | EofOrAborted | Failed

  /** A write that succeeded: the token goes back unless the sender refuses, and sending goes on. */
  function Transmitted(c: Core, n: nat): (r: Core)
    requires c.Valid() && n <= |c.sendData|
    ensures r.Valid()
  {
    match CompleteSending(c, n)
    case Refusing => Close(c.(sendData := c.sendData[n..]))
    case Created(c') => RunSending(c').0
  }

  function CompletedWrite(c: Core, ec: Ec, n: nat): (r: (Core, seq<Terminal>))
    requires c.Valid() && (ec.Success? ==> n <= |c.sendData|)
    ensures r.0.Valid()
  {
    if c.bits.Value() > RUNNING_ENDPOINT then (c, [])
    else match ec
      case EofOrAborted => Ended(Close(c), Eof)
      case Failed => Ended(c, Error)
      case Success =>
        (Transmitted(c, n), [])
  }

  /** A failed read sets the error bit before it calls error(), which therefore does nothing. */
  function CompletedRead(c: Core, ec: Ec, chunk: Bytes): (r: (Core, seq<Terminal>))
    requires c.Valid() && (ec.Success? ==> |chunk| <= c.ReadSpace())
    ensures r.0.Valid()
  {
    if c.bits.Value() > RUNNING_ENDPOINT then (c, [])
    else match ec
      case EofOrAborted => Ended(Close(c), Eof)
      case Failed =>
        var (c', called) := Ended(c.(bits := c.bits.(errored := true)), Error);
        (Close(c'), called)
      case Success =>
        var (c', error) := CompleteReading(c, chunk);
        if error.Some? then Ended(c', ProtoError) else (RunReading(c').0, [])
  }

  /** Exactly when a completed write calls a terminal handler: on a live endpoint, with the handler for
      what happened installed. */
  lemma WriteCalls(c: Core, ec: Ec, n: nat)
    requires c.Valid() && (ec.Success? ==> n <= |c.sendData|)
    ensures CompletedWrite(c, ec, n).1 ==
            if c.bits.IsDead() then []
            else if ec.EofOrAborted? && c.handlers.onEof then [Eof]
            else if ec.Failed? && c.handlers.onError then [Error]
            else []
  {
    hide Transmitted;
  }

  /** Exactly when a completed read does: at the end of the stream, or when the reader refuses -- and
      never for an error, which is lost. */
  lemma ReadCalls(c: Core, ec: Ec, chunk: Bytes)
    requires c.Valid() && (ec.Success? ==> |chunk| <= c.ReadSpace())
    ensures CompletedRead(c, ec, chunk).1 ==
            if c.bits.IsDead() then []
            else if ec.EofOrAborted? && c.handlers.onEof then [Eof]
            else if ec.Success? && c.handlers.onProtoError && CompleteReading(c, chunk).1.Some? then [ProtoError]
            else []
  {
    hide ReaderPass, RunReading;
  }

  /** Whoever installed onError, and whatever the state, a failed read calls nothing. */
  lemma FailedReadIsSilent(c: Core, chunk: Bytes)
    requires c.Valid()
    ensures CompletedRead(c, Failed, chunk).1 == []
    ensures !c.bits.IsDead() ==> CompletedRead(c, Failed, chunk).0.bits == c.bits.(errored := true, closed := true)
  {
    ReadCalls(c, Failed, chunk);
    hide ReaderPass, RunReading;
  }

  /** The messages handed to onComplete by that completion. */
  function ReadBodies(c: Core, ec: Ec, chunk: Bytes): seq<Message>
    requires c.Valid() && (ec.Success? ==> |chunk| <= c.ReadSpace())
  {
    if c.bits.Value() > RUNNING_ENDPOINT || !ec.Success? then []
    else ReaderPass(c.(readData := c.readData + chunk)).bodies
  }
}
