/** The wire format shared by ProtoMessageSender and ProtoMessageReader: a frame is a
    four-byte body length in one of two byte orders, followed by the body.  `Parse` is the
    reader's loop for a settled byte order, as a function of the bytes that have arrived. */
module Framing {
  import opened ByteStrings
  import opened Wrappers

  // ByteSize() of a protobuf message is a non-negative 32-bit int.
  type Message = b: Bytes | |b| <= 0x7fff_ffff

  datatype Endianness = DUNNO | LITTLE | NETWORK | BAD {
    predicate Settled() {
      LITTLE? || NETWORK?
    }
  }

  const HEAD_SIZE: nat := 4
  const MAX_BODY: nat := 10000
  const UINT32: nat := 0x1_0000_0000

  function BigEndian(n: nat): (h: Bytes)
    requires n < UINT32
    ensures |h| == HEAD_SIZE
  {
    [n / 0x100_0000, n / 0x1_0000 % 0x100, n / 0x100 % 0x100, n % 0x100]
  }

  function BigEndianValue(h: Bytes): (n: nat)
    requires |h| == HEAD_SIZE
    ensures n < UINT32
  {
    var a: int, b: int, c: int, d: int := h[0], h[1], h[2], h[3];
    0x100_0000 * a + 0x1_0000 * b + 0x100 * c + d
  }

  function Reverse4(h: Bytes): (r: Bytes)
    requires |h| == HEAD_SIZE
    ensures |r| == HEAD_SIZE
  {
    [h[3], h[2], h[1], h[0]]
  }

  /** The header a sender writes: network order, or its mirror image. */
  function Header(e: Endianness, n: nat): (h: Bytes)
    requires e.Settled() && n < UINT32
    ensures |h| == HEAD_SIZE
  {
    if e.LITTLE? then Reverse4(BigEndian(n)) else BigEndian(n)
  }

  /** The length a reader takes from a header. */
  function HeaderValue(e: Endianness, h: Bytes): (n: nat)
    requires e.Settled() && |h| == HEAD_SIZE
    ensures n < UINT32
  {
    BigEndianValue(if e.LITTLE? then Reverse4(h) else h)
  }

  lemma HeaderRoundTrip(e: Endianness, n: nat)
    requires e.Settled() && n < UINT32
    ensures HeaderValue(e, Header(e, n)) == n
  {
    assert n == 0x100 * (n / 0x100) + n % 0x100;
    assert n / 0x1_0000 == n / 0x100 / 0x100;
    assert n / 0x100_0000 == n / 0x1_0000 / 0x100;
    assert n / 0x100 == 0x100 * (n / 0x1_0000) + n / 0x100 % 0x100;
  }

  lemma BigEndianDigits(n: nat, a: nat, b: nat, c: nat, d: nat)
    requires a < 0x100 && b < 0x100 && c < 0x100 && d < 0x100
    requires n == 0x100_0000 * a + 0x1_0000 * b + 0x100 * c + d
    ensures n / 0x100_0000 == a && n / 0x1_0000 % 0x100 == b && n / 0x100 % 0x100 == c && n % 0x100 == d
  {
    assert n == 0x100 * (0x1_0000 * a + 0x100 * b + c) + d;
    assert n / 0x100 == 0x1_0000 * a + 0x100 * b + c;
    assert n / 0x1_0000 == 0x100 * a + b;
  }

  lemma BigEndianOfValue(g: Bytes)
    requires |g| == HEAD_SIZE
    ensures BigEndian(BigEndianValue(g)) == g
  {
    BigEndianDigits(BigEndianValue(g), g[0], g[1], g[2], g[3]);
  }

  /** The other direction: every four bytes are the header of the length they decode to. */
  lemma HeaderOfValue(e: Endianness, h: Bytes)
    requires e.Settled() && |h| == HEAD_SIZE
    ensures Header(e, HeaderValue(e, h)) == h
  {
    hide BigEndian, BigEndianValue;
    BigEndianOfValue(if e.LITTLE? then Reverse4(h) else h);
  }

  /** Which byte is which: in network order the first weighs most, in little-endian order least. */
  lemma HeaderValueWeighs(e: Endianness, h: Bytes)
    requires e.Settled() && |h| == 4
    ensures var a: int, b: int, c: int, d: int := h[0], h[1], h[2], h[3];
            HeaderValue(e, h) == if e.NETWORK? then 0x100_0000 * a + 0x1_0000 * b + 0x100 * c + d
                                 else a + 0x100 * b + 0x1_0000 * c + 0x100_0000 * d
  {
  }

  /** And so in the header that is written. */
  lemma HeaderWeighs(e: Endianness, n: nat)
    requires e.Settled() && n < 0x1_0000_0000
    ensures var h := Header(e, n);
            var a: int, b: int, c: int, d: int := h[0], h[1], h[2], h[3];
            n == if e.NETWORK? then 0x100_0000 * a + 0x1_0000 * b + 0x100 * c + d
                 else a + 0x100 * b + 0x1_0000 * c + 0x100_0000 * d
  {
    hide Header, HeaderValue;
    HeaderRoundTrip(e, n);
    HeaderValueWeighs(e, Header(e, n));
  }

  function Frame(e: Endianness, m: Message): (f: Bytes)
    requires e.Settled()
    ensures |f| == HEAD_SIZE + |m|
  {
    Header(e, |m|) + m
  }

  function Frames(e: Endianness, ms: seq<Message>): Bytes
    requires e.Settled()
  {
    if ms == [] then [] else Frame(e, ms[0]) + Frames(e, ms[1..])
  }

  lemma {:induction false} FramesAppend(e: Endianness, ms: seq<Message>, ns: seq<Message>)
    requires e.Settled()
    ensures Frames(e, ms + ns) == Frames(e, ms) + Frames(e, ns)
  {
    hide Frame;
    if ms == [] {
      assert ms + ns == ns;
    } else {
      FramesAppend(e, ms[1..], ns);
      assert (ms + ns)[1..] == ms[1..] + ns && (ms + ns)[0] == ms[0];
      assert Frame(e, ms[0]) + (Frames(e, ms[1..]) + Frames(e, ns))
          == (Frame(e, ms[0]) + Frames(e, ms[1..])) + Frames(e, ns);
    }
  }

  lemma FramesFirst(e: Endianness, ms: seq<Message>)
    requires e.Settled() && ms != []
    ensures Frames(e, ms) == Frame(e, ms[0]) + Frames(e, ms[1..])
  {
  }

  /** What one pass over the arrived bytes hands on, how many bytes it consumes, how many it
      still needs, and the length of the header it refuses, if it refuses one. */
  datatype Parsed = Parsed(bodies: seq<Message>, consumed: nat, needed: nat, refused: Option<nat>) {
    /** This pass preceded by one that delivered `before` from `offset` bytes. */
    function After(before: seq<Message>, offset: nat): Parsed {
      Parsed(before + bodies, offset + consumed, needed, refused)
    }
  }

  function Parse(e: Endianness, s: Bytes): (p: Parsed)
    requires e.Settled()
    ensures p.consumed <= |s|
  {
    if |s| < HEAD_SIZE then
      Parsed([], 0, HEAD_SIZE - |s|, None)
    else
      var n := HeaderValue(e, s[..HEAD_SIZE]);
      if n > MAX_BODY then
        Parsed([], 0, 1, Some(n))
      else if |s| - HEAD_SIZE < n then
        Parsed([], 0, n - (|s| - HEAD_SIZE), None)
      else
        Parse(e, s[HEAD_SIZE + n..]).After([s[HEAD_SIZE..HEAD_SIZE + n]], HEAD_SIZE + n)
  }

  /** A complete frame in front is handed on and the rest parsed as if it stood alone. */
  lemma ParseFrameThenRest(e: Endianness, h: Bytes, m: Message, t: Bytes)
    requires e.Settled() && |h| == HEAD_SIZE && HeaderValue(e, h) == |m| <= MAX_BODY
    ensures Parse(e, h + m + t) == Parse(e, t).After([m], HEAD_SIZE + |m|)
  {
    var s := h + m + t;
    assert s[..HEAD_SIZE] == h;
    assert s[HEAD_SIZE..HEAD_SIZE + |m|] == m;
    assert s[HEAD_SIZE + |m|..] == t;
  }

  /** Bytes that arrive later change nothing that was already decided: parsing `s + t` is
      parsing `s`, then parsing what `s` left over together with `t`. */
  lemma {:induction false} ParseAppend(e: Endianness, s: Bytes, t: Bytes)
    requires e.Settled()
    ensures var p := Parse(e, s);
            Parse(e, s + t) ==
            if p.refused.Some? then p
            else Parse(e, s[p.consumed..] + t).After(p.bodies, p.consumed)
    decreases |s|
  {
    hide Parse, HeaderValue;
    var p := Parse(e, s);
    if p.consumed == 0 {
      assert s[0..] == s;
      ParseNothing(e, s);
    } else {
      var h, m, r := ParseHead(e, s);
      var k := HEAD_SIZE + |m|;
      assert s + t == h + m + (r + t);
      ParseFrameThenRest(e, h, m, r + t);
      ParseAppend(e, r, t);
      assert r[p.consumed - k..] == s[p.consumed..];
      ParsedAfterAfter(Parse(e, s[p.consumed..] + t), [m], k, Parse(e, r));
    }
  }

  /** One turn of the parser's loop: a pass that consumes anything starts with a whole frame. */
  lemma ParseHead(e: Endianness, s: Bytes) returns (h: Bytes, m: Message, r: Bytes)
    requires e.Settled() && Parse(e, s).consumed != 0
    ensures s == h + m + r && |h| == HEAD_SIZE && HeaderValue(e, h) == |m| <= MAX_BODY
    ensures Parse(e, s) == Parse(e, r).After([m], HEAD_SIZE + |m|)
  {
    h := s[..HEAD_SIZE];
    var k := HEAD_SIZE + HeaderValue(e, h);
    m, r := s[HEAD_SIZE..k], s[k..];
  }

  lemma ParseNothing(e: Endianness, s: Bytes)
    requires e.Settled() && Parse(e, s).consumed == 0
    ensures Parse(e, s).bodies == []
    ensures Parse(e, s).refused.Some? ==> forall t :: Parse(e, s + t) == Parse(e, s)
  {
    if Parse(e, s).refused.Some? {
      forall t ensures Parse(e, s + t) == Parse(e, s) {
        assert (s + t)[..HEAD_SIZE] == s[..HEAD_SIZE];
      }
    }
  }

  lemma ParsedAfterAfter(q: Parsed, before: seq<Message>, offset: nat, p: Parsed)
    ensures q.After(p.bodies, p.consumed).After(before, offset)
         == q.After(p.After(before, offset).bodies, p.After(before, offset).consumed)
  {
    assert before + (p.bodies + q.bodies) == (before + p.bodies) + q.bodies;
  }

  /** After a pass that refuses nothing, no complete frame is left, and what is left plus what
      is asked for is one header or one whole frame. */
  lemma {:induction false} ParseLeavesPartialFrame(e: Endianness, s: Bytes)
    requires e.Settled() && Parse(e, s).refused.None?
    ensures var p := Parse(e, s);
            && 1 <= p.needed
            && |s| - p.consumed + p.needed <= HEAD_SIZE + MAX_BODY
            && Parse(e, s[p.consumed..]) == Parsed([], 0, p.needed, None)
    decreases |s|
  {
    var p := Parse(e, s);
    if p.consumed == 0 {
      assert s[0..] == s;
    } else {
      var k := HEAD_SIZE + HeaderValue(e, s[..HEAD_SIZE]);
      ParseLeavesPartialFrame(e, s[k..]);
      assert s[k..][p.consumed - k..] == s[p.consumed..];
    }
  }

  /** `p`, the outcome of a pass over `s`, delivers the first messages of `ms`, consumes
      exactly their frames, and refuses only a message with too long a body. */
  ghost predicate DeliversPrefix(e: Endianness, ms: seq<Message>, s: Bytes, p: Parsed)
    requires e.Settled()
  {
    var k := |p.bodies|;
    && p.bodies <= ms
    && p.consumed == |Frames(e, ms[..k])|
    && Frames(e, ms[..k]) <= s
    && Deliverable(ms[..k])
    && (p.refused.Some? ==> k < |ms| && p.refused.value == |ms[k]| > MAX_BODY)
  }

  /** Any prefix of a stream of frames parses to a prefix of the messages; a refusal happens
      only at a message whose body is longer than the reader's limit. */
  lemma {:induction false} ParsePrefixOfFrames(e: Endianness, ms: seq<Message>, s: Bytes)
    requires e.Settled() && s <= Frames(e, ms)
    ensures DeliversPrefix(e, ms, s, Parse(e, s))
    decreases |ms|
  {
    if ms != [] && |s| >= HEAD_SIZE {
      var h, m, rest := Header(e, |ms[0]|), ms[0], Frames(e, ms[1..]);
      assert Frames(e, ms) == h + m + rest;
      HeaderRoundTrip(e, |m|);
      PrefixOfThree(s, h, m, rest);
      if |m| <= MAX_BODY && |s| >= HEAD_SIZE + |m| {
        var r := s[HEAD_SIZE + |m|..];
        ParseFrameThenRest(e, h, m, r);
        ParsePrefixOfFrames(e, ms[1..], r);
        DeliversPrefixStep(e, ms, r, Parse(e, r));
      }
    }
  }

  /** The step of the lemma above: one more delivered frame in front. */
  lemma DeliversPrefixStep(e: Endianness, ms: seq<Message>, r: Bytes, p: Parsed)
    requires e.Settled() && ms != [] && |ms[0]| <= MAX_BODY
    requires DeliversPrefix(e, ms[1..], r, p)
    ensures DeliversPrefix(e, ms, Frame(e, ms[0]) + r, p.After([ms[0]], HEAD_SIZE + |ms[0]|))
  {
    var j := |p.bodies|;
    assert ms[..j + 1][0] == ms[0] && ms[..j + 1][1..] == ms[1..][..j];
    assert [ms[0]] + p.bodies == ms[..j + 1];
  }

  lemma PrefixOfThree(s: Bytes, h: Bytes, m: Bytes, t: Bytes)
    requires s <= h + m + t && |h| <= |s|
    ensures s[..|h|] == h
    ensures |h| + |m| <= |s| ==> s == h + m + s[|h| + |m|..] && s[|h| + |m|..] <= t
  {
    var u := h + m + t;
    assert s == u[..|s|];
    assert u[|h| + |m|..] == t;
    assert u[..|h|] == h;
    assert u[|h|..|h| + |m|] == m;
  }

  ghost predicate Deliverable(ms: seq<Message>) {
    forall m | m in ms :: |m| <= MAX_BODY
  }

  /** The reader undoes the sender on a whole stream, provided -- and only provided -- every
      body is within the reader's limit. */
  lemma {:induction false} ParseFrames(e: Endianness, ms: seq<Message>)
    requires e.Settled()
    ensures Deliverable(ms) <==> Parse(e, Frames(e, ms)) == Parsed(ms, |Frames(e, ms)|, HEAD_SIZE, None)
  {
    if Deliverable(ms) {
      ParseDeliverable(e, ms);
    } else if Parse(e, Frames(e, ms)).bodies == ms {
      ParsePrefixOfFrames(e, ms, Frames(e, ms));
    }
  }

  lemma {:induction false} ParseDeliverable(e: Endianness, ms: seq<Message>)
    requires e.Settled() && Deliverable(ms)
    ensures Parse(e, Frames(e, ms)) == Parsed(ms, |Frames(e, ms)|, HEAD_SIZE, None)
  {
    if ms != [] {
      var s, n := Frames(e, ms), |ms[0]|;
      assert s[..HEAD_SIZE] == Header(e, n);
      HeaderRoundTrip(e, n);
      assert s[HEAD_SIZE..HEAD_SIZE + n] == ms[0];
      assert s[HEAD_SIZE + n..] == Frames(e, ms[1..]);
      ParseDeliverable(e, ms[1..]);
      assert [ms[0]] + ms[1..] == ms;
    }
  }

  /** What a pass consumes is exactly the frames of what it delivers, byte for byte. */
  lemma {:induction false} ParseConsumesFrames(e: Endianness, s: Bytes)
    requires e.Settled()
    ensures var p := Parse(e, s);
            s[..p.consumed] == Frames(e, p.bodies) && Deliverable(p.bodies)
    decreases |s|
  {
    hide Parse, HeaderValue, Header;
    var p := Parse(e, s);
    if p.consumed == 0 {
      ParseNothing(e, s);
    } else {
      var h, m, r := ParseHead(e, s);
      HeaderOfValue(e, h);
      ParseConsumesFrames(e, r);
      FramesCons(e, m, Parse(e, r).bodies);
      hide Frames;
      assert s[..p.consumed] == (h + m) + r[..p.consumed - HEAD_SIZE - |m|];
    }
  }

  lemma FramesCons(e: Endianness, m: Message, ms: seq<Message>)
    requires e.Settled()
    ensures Frames(e, [m] + ms) == Frame(e, m) + Frames(e, ms)
  {
    assert ([m] + ms)[1..] == ms;
  }

  /** Frames are uniquely decodable, whatever the lengths of the bodies. */
  lemma {:induction false} FramesPrefix(e: Endianness, ms: seq<Message>, ns: seq<Message>)
    requires e.Settled() && Frames(e, ms) <= Frames(e, ns)
    ensures ms <= ns
  {
    if ms != [] {
      assert ns != [];
      var m, n := ms[0], ns[0];
      assert Frames(e, ms)[..HEAD_SIZE] == Header(e, |m|) && Frames(e, ns)[..HEAD_SIZE] == Header(e, |n|);
      HeaderRoundTrip(e, |m|);
      HeaderRoundTrip(e, |n|);
      assert |m| == |n|;
      var k := HEAD_SIZE + |m|;
      PrefixParts(Frame(e, m), Frames(e, ms[1..]), Frame(e, n), Frames(e, ns[1..]));
      assert m == Frame(e, m)[HEAD_SIZE..] && n == Frame(e, n)[HEAD_SIZE..];
      FramesPrefix(e, ms[1..], ns[1..]);
      assert ms == [m] + ms[1..] && ns == [n] + ns[1..];
    }
  }

  lemma PrefixParts(a: Bytes, s: Bytes, b: Bytes, t: Bytes)
    requires a + s <= b + t && |a| == |b|
    ensures a == b && s <= t
  {
    assert a == (a + s)[..|a|] && b == (b + t)[..|a|];
    assert s == (a + s)[|a|..] && t == (b + t)[|a|..];
  }

  lemma ParseOneFrame(e: Endianness, m: Message)
    requires e.Settled() && |m| <= MAX_BODY
    ensures Parse(e, Frame(e, m)).bodies == [m]
  {
    ParseDeliverable(e, [m]);
    assert Frames(e, [m][1..]) == [];
    assert Frames(e, [m]) == Frame(e, m) + [] == Frame(e, m);
  }

  /** What has arrived of a frame asks for the rest of its header, and then for the rest of the frame --
      all of which it has once it is whole -- unless the body is longer than 10000 bytes. */
  lemma FrameAsksForTheRest(e: Endianness, m: Message, k: nat)
    requires e.Settled() && k <= 4 + |m|
    ensures Parse(e, Frame(e, m)[..k]) ==
            if k < 4 then Parsed([], 0, 4 - k, None)
            else if |m| > 10000 then Parsed([], 0, 1, Some(|m|))
            else if k < 4 + |m| then Parsed([], 0, 4 + |m| - k, None)
            else Parsed([m], 4 + |m|, 4, None)
  {
    var f := Frame(e, m);
    var s := f[..k];
    if k >= 4 {
      HeaderRoundTrip(e, |m|);
      assert s[..HEAD_SIZE] == Header(e, |m|);
      if |m| <= MAX_BODY && k == 4 + |m| {
        assert s == Header(e, |m|) + m + [];
        ParseFrameThenRest(e, Header(e, |m|), m, []);
      }
    }
  }

  function Concat(chunks: seq<Bytes>): Bytes {
    if chunks == [] then [] else chunks[0] + Concat(chunks[1..])
  }

  /** The read loop over a series of reads: each chunk is appended to what the previous pass
      left over, one pass is made, and the consumed bytes are dropped; a refusal ends it. */
  function Feed(e: Endianness, leftover: Bytes, chunks: seq<Bytes>): Parsed
    requires e.Settled() && chunks != []
    decreases |chunks|
  {
    var s := leftover + chunks[0];
    var p := Parse(e, s);
    if p.refused.Some? || |chunks| == 1 then p
    else Feed(e, s[p.consumed..], chunks[1..]).After(p.bodies, p.consumed)
  }

  /** Chunk independence: however the bytes are split into reads, the messages delivered, the
      bytes consumed, the bytes still needed and the header refused are those of one pass over
      the whole stream. */
  lemma {:induction false} ChunkIndependence(e: Endianness, leftover: Bytes, chunks: seq<Bytes>)
    requires e.Settled() && chunks != []
    ensures Feed(e, leftover, chunks) == Parse(e, leftover + Concat(chunks))
    decreases |chunks|
  {
    var s := leftover + chunks[0];
    var rest := Concat(chunks[1..]);
    assert leftover + Concat(chunks) == s + rest;
    ParseAppend(e, s, rest);
    var p := Parse(e, s);
    if |chunks| == 1 {
      assert s + rest == s;
    } else if p.refused.None? {
      ChunkIndependence(e, s[p.consumed..], chunks[1..]);
    }
  }
}
