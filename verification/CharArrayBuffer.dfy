/** A list of memory regions seen as one linear stream of bytes: the reading stream
    (ConstCharArrayBuffer) and the writing stream (CharArrayBuffer). */
module CharArrayBuffers {
  import opened ByteStrings
  import opened Framing

  const INT_MAX: nat := 0x7fff_ffff
  const EOF: int := -1

  /** `len` bytes from `offset` of the store the stream is laid over. */
  datatype Region = Region(offset: nat, len: nat) {
    predicate Covers(i: int) {
      offset <= i < offset + len
    }
  }

  ghost predicate Within(bs: seq<Region>, length: nat) {
    forall k :: 0 <= k < |bs| ==> bs[k].offset + bs[k].len <= length
  }

  ghost predicate Covered(bs: seq<Region>, i: int) {
    exists k :: 0 <= k < |bs| && bs[k].Covers(i)
  }

  ghost predicate Disjoint(bs: seq<Region>) {
    forall i, k, l :: 0 <= k < l < |bs| && bs[k].Covers(i) ==> !bs[l].Covers(i)
  }

  function Total(bs: seq<Region>): nat {
    if bs == [] then 0 else bs[0].len + Total(bs[1..])
  }

  /** The stream: the regions' bytes one after the other. */
  ghost function Gather(st: Bytes, bs: seq<Region>): (g: Bytes)
    requires Within(bs, |st|)
    ensures |g| == Total(bs)
  {
    if bs == [] then [] else st[bs[0].offset..bs[0].offset + bs[0].len] + Gather(st, bs[1..])
  }

  /** The store index behind stream position `pos`. */
  function Locate(bs: seq<Region>, pos: nat): (i: nat)
    requires pos < Total(bs)
    ensures Covered(bs, i)
  {
    if pos < bs[0].len then
      assert bs[0].Covers(bs[0].offset + pos);
      bs[0].offset + pos
    else
      var i := Locate(bs[1..], pos - bs[0].len);
      assert forall k :: 0 <= k < |bs[1..]| ==> bs[1..][k] == bs[k + 1];
      i
  }

  lemma GatherFirst(st: Bytes, bs: seq<Region>)
    requires Within(bs, |st|) && bs != []
    ensures Within(bs[1..], |st|) && bs[0].offset + bs[0].len <= |st|
    ensures Gather(st, bs) == st[bs[0].offset..bs[0].offset + bs[0].len] + Gather(st, bs[1..])
    ensures Total(bs) == bs[0].len + Total(bs[1..])
  {
  }

  lemma {:induction false} GatherAt(st: Bytes, bs: seq<Region>, pos: nat)
    requires Within(bs, |st|) && pos < Total(bs)
    ensures Locate(bs, pos) < |st| && Gather(st, bs)[pos] == st[Locate(bs, pos)]
  {
    assert bs != [];
    hide Gather, Total;
    GatherFirst(st, bs);
    if pos >= bs[0].len {
      GatherAt(st, bs[1..], pos - bs[0].len);
    }
  }

  lemma {:induction false} LocateInjective(bs: seq<Region>, p: nat, q: nat)
    requires Disjoint(bs) && p < q < Total(bs)
    ensures Locate(bs, p) != Locate(bs, q)
  {
    if p >= bs[0].len {
      assert Disjoint(bs[1..]);
      LocateInjective(bs[1..], p - bs[0].len, q - bs[0].len);
    } else if q >= bs[0].len {
      var i := Locate(bs[1..], q - bs[0].len);
      var k :| 0 <= k < |bs[1..]| && bs[1..][k].Covers(i);
      assert bs[k + 1].Covers(i);
    }
  }

  /** Writing one cell of the store changes one position of the stream. */
  lemma GatherUpdate(st: Bytes, bs: seq<Region>, pos: nat, c: byte)
    requires Within(bs, |st|) && Disjoint(bs) && pos < Total(bs)
    ensures Locate(bs, pos) < |st|
    ensures Gather(st[Locate(bs, pos) := c], bs) == Gather(st, bs)[pos := c]
  {
    GatherAt(st, bs, pos);
    var st' := st[Locate(bs, pos) := c];
    forall q: nat | q < Total(bs) ensures Gather(st', bs)[q] == Gather(st, bs)[pos := c][q] {
      GatherAt(st, bs, q);
      GatherAt(st', bs, q);
      if q < pos { LocateInjective(bs, q, pos); }
      if pos < q { LocateInjective(bs, pos, q); }
    }
  }

  /** `g` with `s` laid over it from position `at`; what falls off the end is lost. */
  function Overlay(g: Bytes, at: nat, s: Bytes): (r: Bytes)
    ensures |r| == |g|
  {
    seq(|g|, i requires 0 <= i < |g| => if at <= i < at + |s| then s[i - at] else g[i])
  }

  lemma OverlayStep(g: Bytes, at: nat, s: Bytes, c: byte)
    ensures at + |s| < |g| ==> Overlay(g, at, s)[at + |s| := c] == Overlay(g, at, s + [c])
    ensures at + |s| >= |g| ==> Overlay(g, at, s) == Overlay(g, at, s + [c])
  {
  }

  /** Two writes in a row are one write of both; past the end neither does anything. */
  lemma OverlayChain(g: Bytes, at: nat, s: Bytes, next: nat, t: Bytes)
    requires next == at + |s| || (next >= |g| && at + |s| >= |g|)
    ensures Overlay(Overlay(g, at, s), next, t) == Overlay(g, at, s + t)
  {
  }

  /** The first four bytes of `s`, with the end-of-file value cast to a byte where there are
      fewer. */
  function Peek4(s: Bytes): (h: Bytes)
    ensures |h| == HEAD_SIZE
    ensures |s| >= HEAD_SIZE ==> h == s[..HEAD_SIZE]
  {
    seq(HEAD_SIZE, i requires 0 <= i < HEAD_SIZE => if i < |s| then s[i] else 255)
  }

  lemma MissingBytesAre255(s: Bytes, i: nat)
    requires i < 4
    ensures Peek4(s)[i] == if i < |s| then s[i] else 255
  {
  }

  lemma OneMore(s: Bytes, i: nat, j: nat)
    requires i <= j < |s|
    ensures s[i..j] + [s[j]] == s[i..j + 1]
  {
  }

  function FirstByte(s: Bytes): byte { if s == [] then 255 else s[0] }

  function Others(s: Bytes): Bytes { if s == [] then [] else s[1..] }

  lemma FourFirstBytes(s: Bytes, t: Bytes, u: Bytes, v: Bytes)
    requires t == Others(s) && u == Others(t) && v == Others(u)
    ensures [FirstByte(s), FirstByte(t), FirstByte(u), FirstByte(v)] == Peek4(s)
    ensures Others(v) == if |s| >= HEAD_SIZE then s[HEAD_SIZE..] else []
  {
  }

  class ConstCharArrayBuffer {
    const store: array<byte>
    const buffers: seq<Region>
    var current: nat
    var size: nat
    /** The bytes behind the regions; nothing writes to them while the stream is in use. */
    ghost const content: Bytes

    ghost predicate Valid()
      reads this, store
    {
      && Within(buffers, store.Length)
      && content == Gather(store[..], buffers)
      && size <= |content|
    }

    ghost function Stream(): Bytes
      reads this
      requires size <= |content|
    {
      content[..size]
    }

    /** The bytes not yet read. */
    ghost function Rest(): Bytes
      reads this
      requires size <= |content|
    {
      if current <= size then content[current..size] else []
    }

    constructor (store: array<byte>, buffers: seq<Region>)
      requires Within(buffers, store.Length) && Total(buffers) <= INT_MAX
      ensures Valid() && this.store == store && this.buffers == buffers && current == 0
      ensures size == |content| && Rest() == content == Gather(store[..], buffers)
    {
      this.store := store;
      this.buffers := buffers;
      content := Gather(store[..], buffers);
      current := 0;
      size := 0;
      new;
      assert buffers[0..] == buffers;
      for k := 0 to |buffers|
        invariant size + Total(buffers[k..]) == Total(buffers)
        invariant current == 0
      {
        size := size + buffers[k].len;
        assert buffers[k..][1..] == buffers[k + 1..];
      }
    }

    /** A view of the same regions from the same position that ends at `sizelimit`. */
    constructor Limited(other: ConstCharArrayBuffer, sizelimit: nat)
      requires other.Valid() && sizelimit <= other.size
      ensures Valid() && store == other.store && buffers == other.buffers
      ensures current == other.current && size == sizelimit
      ensures content == other.content
    {
      store := other.store;
      buffers := other.buffers;
      content := other.content;
      current := other.current;
      size := sizelimit;
    }

    method GetCharAt(at: nat) returns (c: byte)
      requires Valid()
      ensures c == if at < size then content[at] else 255
    {
      c := 255;
      if at >= size {
        return;
      }
      GatherAt(store[..], buffers, at);
      var pos: nat := at;
      assert buffers[0..] == buffers;
      for k := 0 to |buffers|
        invariant pos < Total(buffers[k..])
        invariant Locate(buffers, at) == Locate(buffers[k..], pos)
      {
        var b := buffers[k];
        assert buffers[k..][1..] == buffers[k + 1..];
        if pos >= b.len {
          pos := pos - b.len;
        } else {
          return store[b.offset + pos];
        }
      }
      assert false;
    }

    function RemainingData(): int
      reads this
    {
      size - current
    }

    method UFlow() returns (r: int)
      requires Valid()
      modifies this`current
      ensures Valid()
      ensures r == if old(Rest()) == [] then EOF else old(Rest())[0]
      ensures Rest() == if old(Rest()) == [] then [] else old(Rest())[1..]
      ensures current == if old(Rest()) == [] then old(current) else old(current) + 1
    {
      if current >= size {
        return EOF;
      }
      r := GetCharAt(current);
      current := current + 1;
    }

    method NextByte() returns (c: byte)
      requires Valid()
      modifies this`current
      ensures Valid()
      ensures c == FirstByte(old(Rest())) && Rest() == Others(old(Rest()))
      ensures current == if old(Rest()) == [] then old(current) else old(current) + 1
    {
      var r := UFlow();
      c := r % 0x100;
    }

    /** Four bytes in stream order; past the end each missing byte reads as 255. */
    method NextFour() returns (h: Bytes)
      requires Valid()
      modifies this`current
      ensures Valid()
      ensures h == Peek4(old(Rest()))
      ensures |old(Rest())| >= HEAD_SIZE ==>
                Rest() == old(Rest())[HEAD_SIZE..] && current == old(current) + HEAD_SIZE
      ensures |old(Rest())| < HEAD_SIZE ==> Rest() == []
      ensures old(current) <= size ==> current <= size
    {
      hide Peek4, FirstByte;
      ghost var s := Rest();
      FourFirstBytes(s, Others(s), Others(Others(s)), Others(Others(Others(s))));
      var a := NextByte();
      var b := NextByte();
      var c := NextByte();
      var d := NextByte();
      h := [a, b, c, d];
    }

    method Read() returns (n: nat)
      requires Valid()
      modifies this`current
      ensures Valid()
      ensures n == HeaderValue(NETWORK, Peek4(old(Rest())))
      ensures var h := Peek4(old(Rest()));
              var a: int, b: int, c: int, d: int := h[0], h[1], h[2], h[3];
              n == 0x100_0000 * a + 0x1_0000 * b + 0x100 * c + d
      ensures |old(Rest())| >= HEAD_SIZE ==>
                Rest() == old(Rest())[HEAD_SIZE..] && current == old(current) + HEAD_SIZE
      ensures |old(Rest())| < HEAD_SIZE ==> Rest() == []
      ensures old(current) <= size ==> current <= size
    {
      var h := NextFour();
      n := BigEndianValue(h);
      HeaderValueWeighs(NETWORK, h);
    }

    method ReadLittleEndian() returns (n: nat)
      requires Valid()
      modifies this`current
      ensures Valid()
      ensures n == HeaderValue(LITTLE, Peek4(old(Rest())))
      ensures var h := Peek4(old(Rest()));
              var a: int, b: int, c: int, d: int := h[0], h[1], h[2], h[3];
              n == a + 0x100 * b + 0x1_0000 * c + 0x100_0000 * d
      ensures |old(Rest())| >= HEAD_SIZE ==>
                Rest() == old(Rest())[HEAD_SIZE..] && current == old(current) + HEAD_SIZE
      ensures |old(Rest())| < HEAD_SIZE ==> Rest() == []
      ensures old(current) <= size ==> current <= size
    {
      var h := NextFour();
      n := BigEndianValue(Reverse4(h));
      HeaderValueWeighs(LITTLE, h);
    }

    method Advance(amount: nat)
      requires Valid() && current + amount <= INT_MAX
      modifies this`current
      ensures Valid() && current == old(current) + amount
      ensures Rest() == if amount <= |old(Rest())| then old(Rest())[amount..] else []
    {
      current := current + amount;
    }

    method CopyOut() returns (r: Bytes)
      requires Valid()
      modifies this`current
      ensures Valid() && r == old(Rest()) && Rest() == []
    {
      r := [];
      ghost var start := current;
      while current < size
        invariant Valid()
        invariant start <= current && (current <= size || current == start)
        invariant r == if start <= size then content[start..current] else []
      {
        var c := GetCharAt(current);
        OneMore(content, start, current);
        r := r + [c];
        current := current + 1;
      }
    }
  }

  class CharArrayBuffer {
    const store: array<byte>
    const buffers: seq<Region>
    var current: nat
    var size: nat

    ghost predicate Valid()
      reads this
    {
      && Within(buffers, store.Length)
      && Disjoint(buffers)
      && size == Total(buffers) <= INT_MAX
    }

    ghost function Stream(): Bytes
      reads this, store
      requires Valid()
    {
      Gather(store[..], buffers)
    }

    /** Nothing outside the regions has changed. */
    twostate predicate OnlyRegionsWritten()
      reads this, store
    {
      forall i :: 0 <= i < store.Length && !Covered(buffers, i) ==> store[i] == old(store[i])
    }

    constructor (store: array<byte>, buffers: seq<Region>)
      requires Within(buffers, store.Length) && Disjoint(buffers) && Total(buffers) <= INT_MAX
      ensures Valid() && this.store == store && this.buffers == buffers && current == 0
    {
      this.store := store;
      this.buffers := buffers;
      current := 0;
      size := 0;
      new;
      assert buffers[0..] == buffers;
      for k := 0 to |buffers|
        invariant size + Total(buffers[k..]) == Total(buffers)
        invariant current == 0
      {
        size := size + buffers[k].len;
        assert buffers[k..][1..] == buffers[k + 1..];
      }
    }

    method PutCharAt(at: nat, c: byte) returns (ok: bool)
      requires Valid()
      modifies store
      ensures ok == (at < size)
      ensures Stream() == if ok then old(Stream())[at := c] else old(Stream())
      ensures OnlyRegionsWritten()
    {
      ok := false;
      if at >= size {
        return;
      }
      var pos: nat := at;
      assert buffers[0..] == buffers;
      for k := 0 to |buffers|
        invariant pos < Total(buffers[k..])
        invariant Locate(buffers, at) == Locate(buffers[k..], pos)
        invariant store[..] == old(store[..])
      {
        var b := buffers[k];
        assert buffers[k..][1..] == buffers[k + 1..];
        if pos >= b.len {
          pos := pos - b.len;
        } else {
          GatherUpdate(store[..], buffers, at, c);
          store[b.offset + pos] := c;
          assert store[..] == old(store[..])[Locate(buffers, at) := c];
          return true;
        }
      }
      assert false;
    }

    function RemainingSpace(): int
      reads this
    {
      size - current
    }

    method OFlow(c: byte) returns (r: int)
      requires Valid()
      modifies this`current, store
      ensures Valid() && OnlyRegionsWritten()
      ensures if old(current) < size
              then r == c && current == old(current) + 1
              else r == EOF && current == old(current)
      ensures Stream() == Overlay(old(Stream()), old(current), [c])
    {
      if current >= size {
        return EOF;
      }
      var _ := PutCharAt(current, c);
      current := current + 1;
      return c;
    }

    /** Advances by all of `s` even where it runs past the end of the regions. */
    method XSPutN(s: Bytes) returns (n: nat)
      requires Valid() && current + |s| <= INT_MAX
      modifies this`current, store
      ensures Valid() && OnlyRegionsWritten()
      ensures n == |s| && current == old(current) + n
      ensures Stream() == Overlay(old(Stream()), old(current), s)
    {
      n := |s|;
      for i := 0 to |s|
        invariant Valid() && OnlyRegionsWritten()
        invariant current == old(current) + i
        invariant Stream() == Overlay(old(Stream()), old(current), s[..i])
      {
        OverlayStep(old(Stream()), old(current), s[..i], s[i]);
        assert s[..i + 1] == s[..i] + [s[i]];
        var _ := PutCharAt(current, s[i]);
        current := current + 1;
      }
      assert s[..|s|] == s;
    }

    /** Where four more bytes take the cursor: never past the end. */
    function AfterFour(): nat
      reads this
    {
      if current + HEAD_SIZE <= size then current + HEAD_SIZE
      else if current <= size then size
      else current
    }

    method PutFour(h: Bytes)
      requires Valid() && |h| == HEAD_SIZE
      modifies this`current, store
      ensures Valid() && OnlyRegionsWritten() && current == old(AfterFour())
      ensures Stream() == Overlay(old(Stream()), old(current), h)
    {
      ghost var g, at := Stream(), current;
      var _ := OFlow(h[0]);
      OverlayChain(g, at, h[..1], current, [h[1]]);
      var _ := OFlow(h[1]);
      OverlayChain(g, at, h[..2], current, [h[2]]);
      var _ := OFlow(h[2]);
      OverlayChain(g, at, h[..3], current, [h[3]]);
      var _ := OFlow(h[3]);
      assert h[..1] == [h[0]] && h[..2] == h[..1] + [h[1]] && h[..3] == h[..2] + [h[2]] && h == h[..3] + [h[3]];
    }

    method Write(n: nat)
      requires Valid() && n < UINT32
      modifies this`current, store
      ensures Valid() && OnlyRegionsWritten() && current == old(AfterFour())
      ensures Stream() == Overlay(old(Stream()), old(current), Header(NETWORK, n))
      ensures var at, g := old(current), Stream();
              at + 4 <= |g| ==>
                var a: int, b: int, c: int, d: int := g[at], g[at + 1], g[at + 2], g[at + 3];
                n == 0x100_0000 * a + 0x1_0000 * b + 0x100 * c + d
    {
      HeaderWeighs(NETWORK, n);
      PutFour(BigEndian(n));
    }

    method WriteLittleEndian(n: nat)
      requires Valid() && n < UINT32
      modifies this`current, store
      ensures Valid() && OnlyRegionsWritten() && current == old(AfterFour())
      ensures Stream() == Overlay(old(Stream()), old(current), Header(LITTLE, n))
      ensures var at, g := old(current), Stream();
              at + 4 <= |g| ==>
                var a: int, b: int, c: int, d: int := g[at], g[at + 1], g[at + 2], g[at + 3];
                n == a + 0x100 * b + 0x1_0000 * c + 0x100_0000 * d
    {
      HeaderWeighs(LITTLE, n);
      var c := BigEndian(n);
      PutFour([c[3], c[2], c[1], c[0]]);
    }
  }
}
