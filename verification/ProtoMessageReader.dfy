/** The incremental frame parser, with the byte-order detection exactly as it is coded: the
    little-endian trial read is not undone before the network trial, and reads past the end of
    the data give 255. */
module ProtoMessageReaders {
  import opened ByteStrings
  import opened Wrappers
  import opened Framing
  import opened CharArrayBuffers

  const DETECT_LIMIT: nat := 65535

  datatype ReadError = BadEndianness | UnknownEndianness | Refused(size: nat)

  /** The outcome of reading one header: the order now in force, the body length and the bytes
      after what was read -- or the reason for throwing. */
  datatype Head = Head(e: Endianness, n: nat, rest: Bytes) | NoHead(e: Endianness, error: ReadError)

  function Detected(e: Endianness, alive: bool, found: Endianness): Endianness {
    if alive then found else e
  }

  function TakeHead(e: Endianness, alive: bool, s: Bytes): Head
    requires |s| >= HEAD_SIZE
  {
    var h, rest := s[..HEAD_SIZE], s[HEAD_SIZE..];
    match e
    case BAD => NoHead(e, BadEndianness)
    case LITTLE => Head(e, HeaderValue(e, h), rest)
    case NETWORK => Head(e, HeaderValue(e, h), rest)
    case DUNNO =>
      if HeaderValue(LITTLE, h) < DETECT_LIMIT then
        Head(Detected(e, alive, LITTLE), HeaderValue(LITTLE, h), rest)
      else if HeaderValue(NETWORK, Peek4(rest)) < DETECT_LIMIT then
        Head(Detected(e, alive, NETWORK), HeaderValue(NETWORK, Peek4(rest)),
             if |rest| < HEAD_SIZE then [] else rest[HEAD_SIZE..])
      else
        NoHead(e, UnknownEndianness)
  }

  /** One turn of the loop from order `e` and bytes `s`: wait for more bytes, throw, or take
      one message; and the order in force afterwards. */
  datatype Turn =
    | Wait(e: Endianness, needed: nat)
    | Throw(e: Endianness, error: ReadError)
    | Take(e: Endianness, body: Message, rest: Bytes)

  function NextTurn(e: Endianness, alive: bool, s: Bytes): (t: Turn)
    ensures t.Take? ==> |t.rest| + HEAD_SIZE + |t.body| <= |s|
  {
    if |s| < HEAD_SIZE then
      Wait(e, HEAD_SIZE - |s|)
    else
      match TakeHead(e, alive, s)
      case NoHead(e', error) => Throw(e', error)
      case Head(e', n, rest) =>
        if n > MAX_BODY then Throw(e', Refused(n))
        else if |rest| < n then Wait(e', n - |rest|)
        else Take(e', rest[..n], rest[n..])
  }

  /** What one call of checkForMessage does with the bytes `s`. */
  datatype Outcome =
    Outcome(bodies: seq<Message>, consumed: nat, needed: nat, e: Endianness, error: Option<ReadError>)
  {
    function After(before: seq<Message>, offset: nat): Outcome {
      Outcome(before + bodies, offset + consumed, needed, e, error)
    }
  }

  function Check(e: Endianness, alive: bool, s: Bytes): (o: Outcome)
    ensures o.consumed <= |s|
    ensures alive && e.Settled() ==> o.e == e
    decreases |s|
  {
    match NextTurn(e, alive, s)
    case Wait(e', n) => Outcome([], 0, n, e', None)
    case Throw(e', error) => Outcome([], 0, 1, e', Some(error))
    case Take(e', body, rest) =>
      Check(e', alive, rest).After([body], HEAD_SIZE + |body|)
  }

  function Lift(p: Parsed, e: Endianness): Outcome {
    Outcome(p.bodies, p.consumed, p.needed, e, if p.refused.Some? then Some(Refused(p.refused.value)) else None)
  }

  /** With the byte order settled, checkForMessage is the plain parser. */
  lemma {:induction false} CheckSettled(e: Endianness, alive: bool, s: Bytes)
    requires e.Settled()
    ensures Check(e, alive, s) == Lift(Parse(e, s), e)
    decreases |s|
  {
    if |s| >= HEAD_SIZE {
      var n, rest := HeaderValue(e, s[..HEAD_SIZE]), s[HEAD_SIZE..];
      if n <= MAX_BODY && n <= |rest| {
        CheckSettled(e, alive, rest[n..]);
        assert rest[n..] == s[HEAD_SIZE + n..] && rest[..n] == s[HEAD_SIZE..HEAD_SIZE + n];
      }
    }
  }

  /** A stream that does not begin with a header too large for a little-endian peer. */
  ghost predicate LittleStart(s: Bytes) {
    |s| >= HEAD_SIZE ==> HeaderValue(LITTLE, s[..HEAD_SIZE]) < DETECT_LIMIT
  }

  lemma FramesLittleStart(s: Bytes, ms: seq<Message>)
    requires s <= Frames(LITTLE, ms)
    requires ms != [] ==> |ms[0]| < DETECT_LIMIT
    ensures LittleStart(s)
  {
    if |s| >= HEAD_SIZE {
      assert s[..HEAD_SIZE] == Frames(LITTLE, ms)[..HEAD_SIZE] == Header(LITTLE, |ms[0]|);
      HeaderRoundTrip(LITTLE, |ms[0]|);
    }
  }

  /** The bytes of a little-endian peer are parsed, from an undetected start, as if the order
      had been known, and the order is settled as soon as a header has arrived. */
  lemma DetectsLittle(s: Bytes)
    requires LittleStart(s)
    ensures Check(DUNNO, true, s) == Lift(Parse(LITTLE, s), if |s| < HEAD_SIZE then DUNNO else LITTLE)
  {
    hide Check, Parse;
    if |s| >= HEAD_SIZE {
      CheckSettled(LITTLE, true, s);
      assert TakeHead(DUNNO, true, s) == TakeHead(LITTLE, true, s);
      SameTurn(DUNNO, LITTLE, true, s);
    } else {
      TooShort(DUNNO, LITTLE, true, s);
    }
  }

  /** The order matters only for the turn about to be taken. */
  lemma SameTurn(d: Endianness, e: Endianness, alive: bool, s: Bytes)
    requires NextTurn(d, alive, s) == NextTurn(e, alive, s)
    ensures Check(d, alive, s) == Check(e, alive, s)
  {
  }

  lemma TooShort(d: Endianness, e: Endianness, alive: bool, s: Bytes)
    requires |s| < HEAD_SIZE && e.Settled()
    ensures Check(d, alive, s) == Lift(Parse(e, s), d)
  {
  }

  /** With the endpoint gone a detected order is used for the message at hand and stored nowhere, so every
      message is detected anew; and in a bad order nothing is read. */
  lemma {:induction false} NothingIsStored(e: Endianness, alive: bool, s: Bytes)
    requires e.BAD? || (e.DUNNO? && !alive)
    ensures Check(e, alive, s).e == e
    ensures e.BAD? && |s| < 4 ==> Check(e, alive, s) == Outcome([], 0, 4 - |s|, BAD, None)
    ensures e.BAD? && |s| >= 4 ==> Check(e, alive, s) == Outcome([], 0, 1, BAD, Some(BadEndianness))
    decreases |s|
  {
    var t := NextTurn(e, alive, s);
    if t.Take? {
      NothingIsStored(e, alive, t.rest);
    }
  }

  /** Whether a network-order header passes the little-endian trial: its last two bytes are zero,
      and its first two are not both 255. */
  predicate PassesLittleTrial(n: nat) {
    n % 0x1_0000 == 0 && n != 0xffff_0000
  }

  /** Which order detection settles on, for every first header there is: a little-endian peer is
      recognised when its header passes the trial; a network-order peer only when its own header
      does not, and the four bytes after the header -- the body, not the header -- are below
      the limit as a network-order number. */
  lemma DetectionExact(e: Endianness, n: nat, s: Bytes)
    requires e.Settled() && n < UINT32
    requires |s| >= HEAD_SIZE && s[..HEAD_SIZE] == Header(e, n)
    ensures Check(DUNNO, true, s).e == e <==>
              if e.LITTLE? then n < 65535
              else !PassesLittleTrial(n) && HeaderValue(NETWORK, Peek4(s[4..])) < 65535
  {
    hide Header, HeaderValue, PassesLittleTrial, Check;
    HeaderRoundTrip(e, n);
    NetworkHeaderReadAsLittle(n);
    CheckKeepsDetection(s);
  }

  /** The mirror image of a number, and when it is below the limit. */
  lemma NetworkHeaderReadAsLittle(n: nat)
    requires n < UINT32
    ensures HeaderValue(LITTLE, Header(NETWORK, n)) ==
            0x100_0000 * (n % 0x100) + 0x1_0000 * (n / 0x100 % 0x100) + 0x100 * (n / 0x1_0000 % 0x100) + n / 0x100_0000
    ensures HeaderValue(LITTLE, Header(NETWORK, n)) < DETECT_LIMIT <==> PassesLittleTrial(n)
  {
    var a, b, c, d := n / 0x100_0000, n / 0x1_0000 % 0x100, n / 0x100 % 0x100, n % 0x100;
    FourDigits(n, a, b, c, d);
    hide HeaderValue, Header;
    MirrorBelowLimit(n, a, b, c, d);
    MirrorValue(n);
  }

  lemma MirrorValue(n: nat)
    requires n < UINT32
    ensures HeaderValue(LITTLE, Header(NETWORK, n)) ==
            0x100_0000 * (n % 0x100) + 0x1_0000 * (n / 0x100 % 0x100) + 0x100 * (n / 0x1_0000 % 0x100) + n / 0x100_0000
  {
  }

  lemma FourDigits(n: nat, a: nat, b: nat, c: nat, d: nat)
    requires n < UINT32 && a == n / 0x100_0000 && b == n / 0x1_0000 % 0x100 && c == n / 0x100 % 0x100 && d == n % 0x100
    ensures n == 0x100_0000 * a + 0x1_0000 * b + 0x100 * c + d
    ensures a < 0x100 && b < 0x100 && c < 0x100 && d < 0x100
  {
    assert n / 0x100 == 0x100 * (n / 0x1_0000) + c;
    assert n / 0x1_0000 == 0x100 * a + b;
  }

  lemma MirrorBelowLimit(n: nat, a: nat, b: nat, c: nat, d: nat)
    requires n == 0x100_0000 * a + 0x1_0000 * b + 0x100 * c + d
    requires a < 0x100 && b < 0x100 && c < 0x100 && d < 0x100
    ensures 0x100_0000 * d + 0x1_0000 * c + 0x100 * b + a < DETECT_LIMIT <==> PassesLittleTrial(n)
  {
    assert n == 0x1_0000 * (0x100 * a + b) + (0x100 * c + d);
    assert n % 0x1_0000 == 0x100 * c + d;
  }

  lemma CheckKeepsDetection(s: Bytes)
    requires |s| >= HEAD_SIZE
    ensures Check(DUNNO, true, s).e == TakeHead(DUNNO, true, s).e
  {
  }

  /** The bytes that a missed detection leaves out of the counts: four, when a header that fails the
      little-endian trial has been skipped over. */
  ghost function Slack(e: Endianness, s: Bytes): nat {
    if e.DUNNO? && !LittleStart(s) then HEAD_SIZE else 0
  }

  /** What a pass that does not throw leaves unconsumed and still needs: together no more than one
      frame, whatever the byte order, known, detected or missed. */
  lemma PassLeaves(e: Endianness, s: Bytes)
    requires Check(e, true, s).error.None?
    ensures var o := Check(e, true, s);
            1 <= o.needed && |s| - o.consumed + o.needed <= HEAD_SIZE + MAX_BODY + Slack(e, s)
  {
    if e.Settled() {
      SettledPassLeaves(e, s);
    } else if |s| < HEAD_SIZE {
      ShortPass(e, s);
    } else if e.DUNNO? && LittleStart(s) {
      DetectsLittle(s);
      hide Check, Parse;
      ParseLeavesPartialFrame(LITTLE, s);
    } else if e.DUNNO? {
      var t := NextTurn(e, true, s);
      if t.Take? {
        SettledPassLeaves(t.e, t.rest);
      }
    }
  }

  lemma SettledPassLeaves(e: Endianness, s: Bytes)
    requires e.Settled() && Check(e, true, s).error.None?
    ensures var o := Check(e, true, s);
            1 <= o.needed && |s| - o.consumed + o.needed <= HEAD_SIZE + MAX_BODY
  {
    CheckSettled(e, true, s);
    hide Check, Parse;
    ParseLeavesPartialFrame(e, s);
  }

  lemma ShortPass(e: Endianness, s: Bytes)
    requires |s| < HEAD_SIZE
    ensures Check(e, true, s) == Outcome([], 0, HEAD_SIZE - |s|, e, None)
  {
  }

  /** A network-order peer whose first message is the single byte 'A' is turned away. */
  lemma NetworkPeerTurnedAway(m: Message)
    requires m == [0x41]
    ensures Parse(NETWORK, Frame(NETWORK, m)).bodies == [m]
    ensures Check(DUNNO, true, Frame(NETWORK, m)) == Outcome([], 0, 1, DUNNO, Some(UnknownEndianness))
  {
    var s := Frame(NETWORK, m);
    ParseOneFrame(NETWORK, m);
    assert s == [0, 0, 0, 1, 0x41];
    assert s[..HEAD_SIZE] == [0, 0, 0, 1] && s[HEAD_SIZE..] == m;
    assert Peek4(m) == [0x41, 255, 255, 255];
  }

  /** And where network order is recognised, the first body has been read as a header: the
      four zero bytes sent are delivered as an empty message. */
  lemma NetworkPeerMisread(m: Message)
    requires m == [0, 0, 0, 0]
    ensures Parse(NETWORK, Frame(NETWORK, m)).bodies == [m]
    ensures Check(DUNNO, true, Frame(NETWORK, m)) == Outcome([[]], 4, 4, NETWORK, None)
  {
    hide Check, NextTurn, Parse;
    var s := Frame(NETWORK, m);
    ParseOneFrame(NETWORK, m);
    MisreadTurns(s, m);
    var first, o := Check(DUNNO, true, s), Check(NETWORK, true, []);
    LoopTakes(DUNNO, true, s, [], 0);
    LoopStops(NETWORK, true, [], [], 0);
    assert first.After([], 0) == first && o.After([], 0) == o by { NothingBefore(first); NothingBefore(o); }
  }

  /** The frame of an empty message, the shortest there is, settles a fresh reader on little-endian. */
  lemma EmptyFrameDetected(s: Bytes)
    requires s == [0, 0, 0, 0]
    ensures Check(DUNNO, true, s) == Outcome([[]], 4, 4, LITTLE, None)
  {
    hide Check, NextTurn;
    var none, bodies: seq<Message> := s[4..], [[]];
    EmptyFrameTurns(s, none);
    LoopTakes(DUNNO, true, s, [], 0);
    LoopStops(LITTLE, true, none, bodies, 4);
    NothingBefore(Check(DUNNO, true, s));
    assert [] + [[]] == bodies;
  }

  lemma EmptyFrameTurns(s: Bytes, none: Bytes)
    requires s == [0, 0, 0, 0] && none == []
    ensures NextTurn(DUNNO, true, s) == Take(LITTLE, [], none)
    ensures NextTurn(LITTLE, true, none) == Wait(LITTLE, HEAD_SIZE)
  {
    assert s[..HEAD_SIZE] == s && s[HEAD_SIZE..] == none;
  }

  lemma NothingBefore(o: Outcome)
    ensures o.After([], 0) == o
  {
    assert [] + o.bodies == o.bodies;
  }

  lemma MisreadTurns(s: Bytes, m: Message)
    requires m == [0, 0, 0, 0] && s == Frame(NETWORK, m)
    ensures NextTurn(DUNNO, true, s) == Take(NETWORK, [], [])
    ensures NextTurn(NETWORK, true, []) == Wait(NETWORK, HEAD_SIZE)
  {
    var none: Bytes := [];
    assert none[0..] == none && none[..0] == none;
    assert s == [0, 0, 0, 4, 0, 0, 0, 0];
    assert s[..HEAD_SIZE] == [0, 0, 0, 4] && s[HEAD_SIZE..] == m;
    assert Peek4(m) == m;
  }

  /** The outcome of the whole call, when the loop has delivered `bodies` from `consumed` bytes
      and its next turn takes a message. */
  lemma LoopTakes(e: Endianness, alive: bool, s: Bytes, bodies: seq<Message>, consumed: nat)
    requires NextTurn(e, alive, s).Take?
    ensures var t := NextTurn(e, alive, s);
            Check(e, alive, s).After(bodies, consumed) ==
            Check(t.e, alive, t.rest).After(bodies + [t.body], consumed + HEAD_SIZE + |t.body|)
  {
    var t := NextTurn(e, alive, s);
    var o := Check(t.e, alive, t.rest);
    assert bodies + ([t.body] + o.bodies) == (bodies + [t.body]) + o.bodies;
  }

  /** The same when its next turn stops. */
  lemma LoopStops(e: Endianness, alive: bool, s: Bytes, bodies: seq<Message>, consumed: nat)
    requires !NextTurn(e, alive, s).Take?
    ensures var t := NextTurn(e, alive, s);
            Check(e, alive, s).After(bodies, consumed) ==
            if t.Wait? then Outcome(bodies, consumed, t.needed, t.e, None)
            else Outcome(bodies, consumed, 1, t.e, Some(t.error))
  {
  }

  datatype CheckResult = Returned(consumed: nat, needed: nat) | Threw(error: ReadError)

  lemma PrefixOfRest(s: Bytes, i: nat, j: nat, k: nat)
    requires i <= j <= k <= |s|
    ensures s[i..k][..j - i] == s[i..j]
  {
  }

  class ProtoMessageReader {
    var endianness: Endianness
    /** Whether the owning endpoint still exists: a detected order is stored through it. */
    var endpointAlive: bool
    /** Whether an onComplete handler is installed, and the bodies it has been handed. */
    var hasHandler: bool
    var completed: seq<Message>

    constructor (endpointAlive: bool)
      ensures endianness == DUNNO && this.endpointAlive == endpointAlive
      ensures !hasHandler && completed == []
    {
      endianness := DUNNO;
      this.endpointAlive := endpointAlive;
      hasHandler := false;
      completed := [];
    }

    method SetEndianness(e: Endianness)
      modifies this`endianness
      ensures endianness == e
    {
      endianness := e;
    }

    method SetDetectedEndianness(e: Endianness)
      modifies this`endianness
      ensures endianness == Detected(old(endianness), endpointAlive, e)
    {
      if endpointAlive {
        SetEndianness(e);
      }
    }

    /** Reads one header from the stream, settling the byte order if it is still open. */
    method ReadHead(chars: ConstCharArrayBuffer) returns (n: nat, error: Option<ReadError>)
      requires chars.Valid() && chars.RemainingData() >= HEAD_SIZE
      modifies chars`current, this`endianness
      ensures chars.Valid() && chars.current <= chars.size
      ensures var head := TakeHead(old(endianness), endpointAlive, old(chars.Rest()));
              && endianness == head.e
              && error == (if head.NoHead? then Some(head.error) else None)
              && (head.Head? ==> n == head.n && chars.Rest() == head.rest)
    {
      error := None;
      n := 0;
      match endianness {
        case BAD =>
          error := Some(BadEndianness);
        case DUNNO =>
          n := chars.ReadLittleEndian();
          if n < DETECT_LIMIT {
            SetDetectedEndianness(LITTLE);
          } else {
            n := chars.Read();
            if n < DETECT_LIMIT {
              SetDetectedEndianness(NETWORK);
            } else {
              error := Some(UnknownEndianness);
            }
          }
        case LITTLE =>
          n := chars.ReadLittleEndian();
        case NETWORK =>
          n := chars.Read();
      }
    }

    /** What the handler reads from its view of the next `n` bytes. */
    method ReadView(chars: ConstCharArrayBuffer, n: nat) returns (body: Bytes)
      requires chars.Valid() && chars.current <= chars.size <= INT_MAX && n <= |chars.Rest()|
      ensures body == chars.Rest()[..n]
    {
      var view := new ConstCharArrayBuffer.Limited(chars, chars.current + n);
      PrefixOfRest(chars.content, chars.current, chars.current + n, chars.size);
      body := view.CopyOut();
    }

    /** Hands the handler a view of the next `n` bytes and moves past them. */
    method Complete(chars: ConstCharArrayBuffer, n: nat)
      requires chars.Valid() && chars.current <= chars.size <= INT_MAX && n <= chars.RemainingData() <= INT_MAX
      modifies chars`current, this`completed
      ensures chars.Valid() && chars.current <= chars.size && chars.Rest() == old(chars.Rest())[n..]
      ensures completed == old(completed) + if hasHandler then [old(chars.Rest())[..n]] else []
    {
      if hasHandler {
        var body := ReadView(chars, n);
        completed := completed + [body];
      }
      chars.Advance(n);
    }

    /** One turn of the loop: stop and wait, throw, or hand on one message. */
    method TakeMessage(chars: ConstCharArrayBuffer)
      returns (size: nat, needed: Option<nat>, error: Option<ReadError>)
      requires chars.Valid() && chars.current <= chars.size <= INT_MAX
      modifies chars`current, this`endianness, this`completed
      ensures chars.Valid() && chars.current <= chars.size
      ensures var t := NextTurn(old(endianness), endpointAlive, old(chars.Rest()));
              && endianness == t.e
              && needed == (if t.Wait? then Some(t.needed) else None)
              && error == (if t.Throw? then Some(t.error) else None)
              && (t.Take? ==> size == |t.body| && chars.Rest() == t.rest)
              && completed == old(completed) + (if t.Take? && hasHandler then [t.body] else [])
    {
      hide TakeHead, HeaderValue;
      size, needed, error := 0, None, None;
      if chars.RemainingData() < HEAD_SIZE {
        needed := Some(HEAD_SIZE - chars.RemainingData());
        return;
      }
      size, error := ReadHead(chars);
      if error.Some? {
        return;
      }
      if size > MAX_BODY {
        error := Some(Refused(size));
        return;
      }
      if chars.RemainingData() < size {
        needed := Some(size - chars.RemainingData());
        return;
      }
      Complete(chars, size);
    }

    /** The loop.  The handler is called for every complete message before the outcome -- the
        counts, or an exception -- is known. */
    method TakeMessages(chars: ConstCharArrayBuffer) returns (r: CheckResult)
      requires chars.Valid() && chars.current <= chars.size <= INT_MAX
      modifies chars`current, this`endianness, this`completed
      ensures Did(Check(old(endianness), endpointAlive, old(chars.Rest())), r, old(completed))
    {
      hide Check, NextTurn;
      var consumed: nat := 0;
      ghost var e, s, bodies := endianness, chars.Rest(), [];
      ghost var outcome := Check(e, endpointAlive, s);
      assert outcome.After([], 0) == outcome by { assert [] + outcome.bodies == outcome.bodies; }
      while true
        invariant chars.Valid() && chars.current <= chars.size
        invariant e == endianness && s == chars.Rest()
        invariant outcome == Check(e, endpointAlive, s).After(bodies, consumed)
        invariant completed == old(completed) + (if hasHandler then bodies else [])
        decreases |s|
      {
        ghost var t := NextTurn(e, endpointAlive, s);
        if t.Take? {
          LoopTakes(e, endpointAlive, s, bodies, consumed);
        } else {
          LoopStops(e, endpointAlive, s, bodies, consumed);
        }
        var size, needed, error := TakeMessage(chars);
        if error.Some? {
          return Threw(error.value);
        }
        if needed.Some? {
          return Returned(consumed, needed.value);
        }
        e, s, bodies := t.e, t.rest, bodies + [t.body];
        consumed := consumed + HEAD_SIZE;
        consumed := consumed + size;
      }
    }

    /** The reader has done what `o` says since its handler had been given `before`. */
    ghost predicate Did(o: Outcome, r: CheckResult, before: seq<Message>)
      reads this
    {
      && r == (if o.error.Some? then Threw(o.error.value) else Returned(o.consumed, o.needed))
      && endianness == o.e
      && completed == before + (if hasHandler then o.bodies else [])
    }

    /** One pass over the bytes of the regions. */
    method CheckForMessage(store: array<byte>, data: seq<Region>) returns (r: CheckResult)
      requires Within(data, store.Length) && Total(data) <= INT_MAX
      modifies this`endianness, this`completed
      ensures Did(Check(old(endianness), endpointAlive, Gather(store[..], data)), r, old(completed))
    {
      var chars := new ConstCharArrayBuffer(store, data);
      r := TakeMessages(chars);
    }
  }
}
