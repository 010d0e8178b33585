/** The ring buffer between the socket and the message framing: a fixed store used as a queue
    of bytes, handing out its free and its filled cells as at most two regions. */
module RingBuffers {
  import opened ByteStrings
  import opened CharArrayBuffers

  /** Cell `i` places after `p` in a ring of `size` cells. */
  function Cell(size: nat, p: nat, i: nat): (c: nat)
    requires p < size && i <= size
    ensures c < size
  {
    if p + i < size then p + i else p + i - size
  }

  lemma CellIsMod(size: nat, p: nat, i: nat)
    requires p < size && i <= size
    ensures (p + i) % size == Cell(size, p, i)
  {
    var x := p + i;
    if x < size {
      ModUnique(x, size, 0, x);
    } else {
      ModUnique(x, size, 1, x - size);
    }
  }

  lemma ModUnique(x: nat, m: nat, q: nat, r: nat)
    requires x == q * m + r && r < m
    ensures x % m == r
  {
    var d := x / m - q;
    assert d * m + x % m == r;
    assert d >= 1 ==> d * m >= m;
    assert d <= -1 ==> d * m <= 0 - m;
  }

  ghost predicate WindowFits(size: nat, p: nat, n: nat) {
    n <= size && (size > 0 ==> p < size)
  }

  /** `n` consecutive bytes of the ring from cell `p`. */
  ghost function Window(st: Bytes, p: nat, n: nat): (w: Bytes)
    requires WindowFits(|st|, p, n)
    ensures |w| == n
  {
    seq(n, i requires 0 <= i < n => st[Cell(|st|, p, i)])
  }

  ghost predicate InWindow(size: nat, p: nat, n: nat, c: int)
    requires WindowFits(size, p, n)
  {
    exists i :: 0 <= i < n && c == Cell(size, p, i)
  }

  /** The regions of a window: one up to the end of the store, one after the wrap if needed. */
  function WindowRegions(size: nat, p: nat, n: nat): seq<Region>
    requires p <= size && n <= size
  {
    if p + n <= size then [Region(p, n)] else [Region(p, size - p), Region(0, p + n - size)]
  }

  lemma GatherNone(st: Bytes, bs: seq<Region>)
    requires bs == []
    ensures Total(bs) == 0 && Gather(st, bs) == []
  {
  }

  lemma GatherOne(st: Bytes, r: Region, bs: seq<Region>)
    requires r.offset + r.len <= |st| && bs == [r]
    ensures Total(bs) == r.len && Gather(st, bs) == st[r.offset..r.offset + r.len]
  {
    hide Gather, Total;
    GatherFirst(st, bs);
    GatherNone(st, bs[1..]);
  }

  lemma GatherTwo(st: Bytes, r: Region, q: Region, bs: seq<Region>)
    requires r.offset + r.len <= |st| && q.offset + q.len <= |st| && bs == [r, q]
    ensures Total(bs) == r.len + q.len
    ensures Gather(st, bs) == st[r.offset..r.offset + r.len] + st[q.offset..q.offset + q.len]
  {
    hide Gather, Total;
    GatherFirst(st, bs);
    GatherOne(st, q, bs[1..]);
  }

  lemma RegionsAreDisjoint(size: nat, p: nat, n: nat)
    requires WindowFits(size, p, n) && p <= size
    ensures Within(WindowRegions(size, p, n), size) && Disjoint(WindowRegions(size, p, n))
  {
  }

  lemma WindowIsSlices(st: Bytes, p: nat, n: nat)
    requires WindowFits(|st|, p, n) && p <= |st|
    ensures Window(st, p, n) ==
            if p + n <= |st| then st[p..p + n] else st[p..p + (|st| - p)] + st[0..0 + (p + n - |st|)]
  {
  }

  lemma WindowRegionsGather(st: Bytes, p: nat, n: nat)
    requires WindowFits(|st|, p, n) && p <= |st|
    ensures var bs := WindowRegions(|st|, p, n);
            Within(bs, |st|) && Disjoint(bs) && Total(bs) == n && Gather(st, bs) == Window(st, p, n)
  {
    hide Gather, Total, Window, Disjoint;
    RegionsAreDisjoint(|st|, p, n);
    WindowIsSlices(st, p, n);
    if p + n <= |st| {
      GatherOne(st, Region(p, n), WindowRegions(|st|, p, n));
    } else {
      GatherTwo(st, Region(p, |st| - p), Region(0, p + n - |st|), WindowRegions(|st|, p, n));
    }
  }

  lemma WindowRegionsCover(size: nat, p: nat, n: nat, c: int)
    requires WindowFits(size, p, n) && p <= size
    ensures Covered(WindowRegions(size, p, n), c) <==> InWindow(size, p, n, c)
  {
    var bs := WindowRegions(size, p, n);
    if InWindow(size, p, n, c) {
      assert bs[0].Covers(c) || bs[1].Covers(c);
    }
    if Covered(bs, c) {
      if bs[0].Covers(c) {
        assert c == Cell(size, p, c - p);
      } else {
        assert c == Cell(size, p, size - p + c);
      }
    }
  }

  lemma WindowRegionsCoverAll(size: nat, p: nat, n: nat)
    requires WindowFits(size, p, n) && p <= size
    ensures forall c: nat :: c < size ==> (Covered(WindowRegions(size, p, n), c) <==> InWindow(size, p, n, c))
  {
    hide Covered, InWindow;
    forall c: nat | c < size ensures Covered(WindowRegions(size, p, n), c) <==> InWindow(size, p, n, c) {
      WindowRegionsCover(size, p, n, c);
    }
  }

  /** The two windows of a ring share no cell and between them use every cell. */
  lemma WindowsPartition(size: nat, p: nat, n: nat, c: nat)
    requires p < size && n <= size && c < size
    ensures InWindow(size, p, n, c) <==> !InWindow(size, Cell(size, p, n), size - n, c)
  {
    var i := if c >= p then c - p else c + size - p;
    assert c == Cell(size, p, i);
    if i >= n {
      assert c == Cell(size, Cell(size, p, n), i - n);
    }
  }

  lemma WindowSplit(st: Bytes, p: nat, n: nat, k: nat)
    requires p < |st| && k <= n <= |st|
    ensures Window(st, p, k) == Window(st, p, n)[..k]
    ensures Window(st, Cell(|st|, p, k), n - k) == Window(st, p, n)[k..]
  {
  }

  lemma WindowJoin(st: Bytes, p: nat, n: nat, k: nat)
    requires p < |st| && n + k <= |st|
    ensures Window(st, p, n) + Window(st, Cell(|st|, p, n), k) == Window(st, p, n + k)
  {
  }

  /** Writing cells outside a window leaves the window's bytes alone. */
  lemma WindowFrame(st: Bytes, st': Bytes, p: nat, n: nat)
    requires |st| == |st'| && WindowFits(|st|, p, n)
    requires forall c :: 0 <= c < |st| && InWindow(|st|, p, n, c) ==> st'[c] == st[c]
    ensures Window(st', p, n) == Window(st, p, n)
  {
    forall i | 0 <= i < n ensures Window(st', p, n)[i] == Window(st, p, n)[i] {
      assert InWindow(|st|, p, n, Cell(|st|, p, i));
    }
  }

  class RingBuffer {
    const size: nat
    const store: array<byte>
    var freeSpace: nat
    var readp: nat
    var writep: nat

    ghost predicate Valid()
      reads this
    {
      && store.Length == size
      && freeSpace <= size
      && (size == 0 ==> readp == writep == 0)
      && (size > 0 ==> readp < size && writep == (readp + (size - freeSpace)) % size)
    }

    lemma WritepIsCell()
      requires Valid() && size > 0
      ensures writep == Cell(size, readp, size - freeSpace)
      ensures readp == Cell(size, writep, freeSpace)
    {
      CellIsMod(size, readp, size - freeSpace);
    }

    /** The bytes queued, oldest first. */
    ghost function Contents(): (c: Bytes)
      reads this, store
      requires Valid()
      ensures |c| == size - freeSpace
    {
      Window(store[..], readp, size - freeSpace)
    }

    /** The bytes now in the free cells, in the order in which they will be used. */
    ghost function Space(): (s: Bytes)
      reads this, store
      requires Valid()
      ensures |s| == freeSpace
    {
      assert size > 0 ==> writep < size by { if size > 0 { WritepIsCell(); } }
      Window(store[..], writep, freeSpace)
    }

    constructor (n: nat)
      ensures Valid() && size == freeSpace == n && fresh(store)
      ensures Contents() == []
    {
      size := n;
      store := new byte[n];
      freeSpace := n;
      writep := 0;
      readp := 0;
      new;
      if n > 0 { CellIsMod(n, 0, 0); }
    }

    method Clear()
      requires Valid()
      modifies this
      ensures Valid() && freeSpace == size && Contents() == []
    {
      freeSpace := size;
      writep := 0;
      readp := 0;
      if size > 0 { CellIsMod(size, 0, 0); }
    }

    function GetFreeSpace(): nat
      reads this
    {
      freeSpace
    }

    function GetDataAvailable(): int
      reads this
    {
      size - freeSpace
    }

    function SpaceRegions(): seq<Region>
      reads this
      requires freeSpace > 0 ==> writep <= size && freeSpace <= size
    {
      if freeSpace > 0 then WindowRegions(size, writep, freeSpace) else []
    }

    /** The space regions are the free cells in order: none that holds a queued byte, and all
        of the others. */
    lemma SpaceRegionsAreFree()
      requires Valid()
      ensures freeSpace > 0 ==> writep <= size
      ensures var r := SpaceRegions();
              && Within(r, size) && Disjoint(r) && Total(r) == freeSpace
              && Gather(store[..], r) == Space()
              && forall c :: 0 <= c < size ==>
                   (Covered(r, c) <==> !InWindow(size, readp, size - freeSpace, c))
    {
      if freeSpace > 0 {
        WritepIsCell();
        WindowRegionsGather(store[..], writep, freeSpace);
      }
      var r := SpaceRegions();
      forall c | 0 <= c < size
        ensures Covered(r, c) <==> !InWindow(size, readp, size - freeSpace, c)
      {
        WritepIsCell();
        WindowsPartition(size, readp, size - freeSpace, c);
        if freeSpace > 0 {
          WindowRegionsCover(size, writep, freeSpace, c);
        }
      }
    }

    method GetSpaceBuffers() returns (r: seq<Region>)
      requires Valid()
      ensures freeSpace > 0 ==> writep <= size
      ensures r == SpaceRegions()
    {
      SpaceRegionsAreFree();
      r := [];
      if freeSpace > 0 {
        var first := (if writep + freeSpace < size then writep + freeSpace else size) - writep;
        var second := freeSpace - first;
        r := r + [Region(writep, first)];
        if second > 0 {
          r := r + [Region(0, second)];
        }
      }
    }

    /** Whatever is written to the free cells, the queue stays as it is. */
    twostate lemma WritingSpaceKeepsContents()
      requires old(Valid()) && unchanged(this)
      requires freeSpace > 0 ==> writep <= size
      requires forall c :: 0 <= c < size && !Covered(SpaceRegions(), c) ==> store[c] == old(store[c])
      ensures Valid() && Contents() == old(Contents())
    {
      SpaceRegionsAreFree();
      WindowFrame(old(store[..]), store[..], readp, size - freeSpace);
    }

    function DataRegions(): seq<Region>
      reads this
      requires freeSpace <= size && readp <= size
    {
      if size - freeSpace < size then WindowRegions(size, readp, size - freeSpace) else []
    }

    lemma DataRegionsAreQueued()
      requires Valid()
      ensures var r := DataRegions();
              && Within(r, size) && Disjoint(r)
              && Gather(store[..], r) == (if freeSpace == 0 then [] else Contents())
              && (freeSpace > 0 ==>
                    forall c: nat :: c < size ==> (Covered(r, c) <==> InWindow(size, readp, size - freeSpace, c)))
    {
      if freeSpace > 0 {
        hide Window, Gather, Covered, InWindow, Disjoint;
        WindowRegionsGather(store[..], readp, size - freeSpace);
        WindowRegionsCoverAll(size, readp, size - freeSpace);
      } else {
        GatherNone(store[..], DataRegions());
      }
    }

    /** The queued bytes in order -- except when the ring is completely full, when there are
        no regions at all. */
    method GetDataBuffers() returns (r: seq<Region>)
      requires Valid()
      ensures Within(r, size) && Disjoint(r)
      ensures Gather(store[..], r) == if freeSpace == 0 then [] else Contents()
      ensures Gather(store[..], r) == Contents() <==> freeSpace > 0 || size == 0
      ensures freeSpace > 0 ==>
                forall c: nat :: c < size ==> (Covered(r, c) <==> InWindow(size, readp, size - freeSpace, c))
    {
      hide Window, Gather, Covered, InWindow, Disjoint, Within;
      DataRegionsAreQueued();
      r := [];
      if size - freeSpace < size {
        var available := size - freeSpace;
        var first := (if readp + available < size then readp + available else size) - readp;
        var second := available - first;
        r := r + [Region(readp, first)];
        if second > 0 {
          r := r + [Region(0, second)];
        }
      }
      assert r == DataRegions();
    }

    /** Bytes already written to the first free cells join the queue. */
    method MarkSpaceUsed(amount: nat)
      requires Valid() && amount <= freeSpace && size > 0
      modifies this
      ensures Valid() && freeSpace == old(freeSpace) - amount
      ensures Contents() == old(Contents()) + old(Space())[..amount]
      ensures Space() == old(Space())[amount..]
    {
      WritepIsCell();
      CellIsMod(size, writep, amount);
      CellIsMod(size, readp, size - freeSpace + amount);
      WindowSplit(store[..], writep, freeSpace, amount);
      WindowJoin(store[..], readp, size - freeSpace, amount);
      writep := writep + amount;
      writep := writep % size;
      freeSpace := freeSpace - amount;
    }

    /** The oldest bytes leave the queue; their cells are the last to be used again. */
    method MarkDataUsed(amount: nat)
      requires Valid() && amount <= size - freeSpace && size > 0
      modifies this
      ensures Valid() && freeSpace == old(freeSpace) + amount
      ensures Contents() == old(Contents())[amount..]
      ensures Space() == old(Space()) + old(Contents())[..amount]
    {
      WritepIsCell();
      CellIsMod(size, readp, amount);
      CellIsMod(size, Cell(size, readp, amount), size - freeSpace - amount);
      WindowSplit(store[..], readp, size - freeSpace, amount);
      WindowJoin(store[..], writep, freeSpace, amount);
      readp := readp + amount;
      readp := readp % size;
      freeSpace := freeSpace + amount;
    }
  }
}
