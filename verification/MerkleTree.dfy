/** MerkleTree::CalculateRoot: padding to a power of two and condensing in place.  The hash is a
    parameter: any function from bytes to bytes. */
module MerkleTrees {
  import opened ByteStrings
  import opened Powers

  type Digest = Bytes

  // ---- powers of two, and the bit trick that recognises them ----

  ghost predicate IsPow2(n: nat) {
    exists k: nat :: n == Pow2(k)
  }

  /** Bitwise and of two unsigned integers. */
  function BitAnd(a: nat, b: nat): nat {
    if a == 0 || b == 0 then 0 else 2 * BitAnd(a / 2, b / 2) + (a % 2) * (b % 2)
  }

  /** platform::IsLog2. */
  predicate IsLog2(value: nat) {
    value != 0 && BitAnd(value, value - 1) == 0
  }

  lemma {:induction false} BitAndSelf(a: nat)
    ensures BitAnd(a, a) == a
  {
    if a != 0 {
      BitAndSelf(a / 2);
    }
  }

  lemma {:induction false} IsLog2Halves(n: nat)
    requires n > 0
    ensures IsLog2(2 * n) == IsLog2(n)
    ensures IsLog2(2 * n + 1) <==> n == 0
  {
    assert (2 * n) / 2 == n && (2 * n - 1) / 2 == n - 1 && (2 * n) % 2 == 0;
    assert (2 * n + 1) / 2 == n && (2 * n) / 2 == n && (2 * n + 1 - 1) % 2 == 0;
    BitAndSelf(n);
  }

  lemma IsPow2Halves(n: nat)
    requires n > 1
    ensures IsPow2(n) <==> n % 2 == 0 && IsPow2(n / 2)
  {
    hide Pow2;
    if n % 2 == 0 && IsPow2(n / 2) {
      var k: nat :| n / 2 == Pow2(k);
      Pow2Step(k);
    }
    if k: nat :| n == Pow2(k) {
      Pow2Step(k - 1);
      assert k > 0 && n / 2 == Pow2(k - 1);
    }
  }

  /** The bit trick is right: `value & (value - 1)` is zero for the powers of two only. */
  lemma {:induction false} IsLog2IsPow2(n: nat)
    ensures IsLog2(n) <==> IsPow2(n)
  {
    if n == 1 {
      assert n == Pow2(0);
    } else if n > 1 {
      IsPow2Halves(n);
      IsLog2Halves(n / 2);
      IsLog2IsPow2(n / 2);
    }
  }

  /** The least power of two that is at least `n`. */
  function CeilPow2(n: nat): (p: nat)
    requires n > 0
    ensures n <= p
  {
    if n == 1 then 1 else 2 * CeilPow2((n + 1) / 2)
  }

  lemma {:induction false} CeilPow2IsLeast(n: nat)
    requires n > 0
    ensures IsPow2(CeilPow2(n))
    ensures forall m: nat :: n <= m && IsPow2(m) ==> CeilPow2(n) <= m
  {
    if n == 1 {
      assert CeilPow2(1) == Pow2(0);
    } else {
      var h := (n + 1) / 2;
      CeilPow2IsLeast(h);
      var k: nat :| CeilPow2(h) == Pow2(k);
      assert CeilPow2(n) == Pow2(k + 1);
      forall m: nat | n <= m && IsPow2(m) ensures CeilPow2(n) <= m {
        var j: nat :| m == Pow2(j);
        assert j > 0 && m / 2 == Pow2(j - 1);
        assert IsPow2(m / 2) && h <= m / 2;
      }
    }
  }

  // ---- the tree ----

  /** The leaves with empty digests appended up to the next power of two. */
  function Padded(leaves: seq<Digest>): (p: seq<Digest>)
    requires leaves != []
    ensures |p| == CeilPow2(|leaves|) && leaves <= p
  {
    leaves + seq(CeilPow2(|leaves|) - |leaves|, i => [])
  }

  /** The hash of the balanced tree over `s`. */
  function TreeHash(hash: Bytes -> Digest, s: seq<Digest>): Digest
    requires s != []
    decreases |s|
  {
    if |s| == 1 then s[0]
    else hash(TreeHash(hash, s[..|s| / 2]) + TreeHash(hash, s[|s| / 2..]))
  }

  /** What CalculateRoot promises. */
  function MerkleRoot(hash: Bytes -> Digest, leaves: seq<Digest>): Digest {
    if leaves == [] then hash([]) else TreeHash(hash, Padded(leaves))
  }

  /** The parents of one level. */
  function Parents(hash: Bytes -> Digest, s: seq<Digest>): (p: seq<Digest>)
    ensures |p| == |s| / 2
  {
    seq(|s| / 2, k requires 0 <= k < |s| / 2 => hash(s[2 * k] + s[2 * k + 1]))
  }

  lemma ParentsOfHalves(hash: Bytes -> Digest, s: seq<Digest>)
    requires |s| % 4 == 0
    ensures Parents(hash, s)[..|s| / 4] == Parents(hash, s[..|s| / 2])
    ensures Parents(hash, s)[|s| / 4..] == Parents(hash, s[|s| / 2..])
  {
  }

  lemma TreeHashOfMore(hash: Bytes -> Digest, s: seq<Digest>)
    requires |s| > 1
    ensures TreeHash(hash, s) == hash(TreeHash(hash, s[..|s| / 2]) + TreeHash(hash, s[|s| / 2..]))
  {
  }

  lemma {:induction false} ParentsKeepTreeHash(hash: Bytes -> Digest, s: seq<Digest>, k: nat)
    requires |s| == Pow2(k) && k > 0
    ensures Parents(hash, s) != [] && TreeHash(hash, Parents(hash, s)) == TreeHash(hash, s)
    decreases k
  {
    hide TreeHash, Parents, Pow2;
    Pow2Step(k - 1);
    Pow2Step(k - 2);
    TreeHashOfMore(hash, s);
    var h := |s| / 2;
    if k == 1 {
      ParentsOfTwo(hash, s);
    } else {
      Pow2Step(k - 3);
      ParentsOfHalves(hash, s);
      ParentsKeepTreeHash(hash, s[..h], k - 1);
      ParentsKeepTreeHash(hash, s[h..], k - 1);
      TreeHashOfMore(hash, Parents(hash, s));
    }
  }

  lemma ParentsOfTwo(hash: Bytes -> Digest, s: seq<Digest>)
    requires |s| == 2
    ensures |Parents(hash, s)| == 1 && TreeHash(hash, Parents(hash, s)) == TreeHash(hash, s)
  {
    assert s[..1] == [s[0]] && s[1..] == [s[1]];
  }

  lemma TreeHashOfOne(hash: Bytes -> Digest, s: seq<Digest>)
    requires |s| == 1
    ensures TreeHash(hash, s) == s[0]
  {
  }

  /** The roots of the smallest trees: the hash of nothing, the leaf itself, the hash of both in order. */
  lemma SmallestRoots(hash: Bytes -> Digest, a: Digest, b: Digest)
    ensures MerkleRoot(hash, []) == hash([])
    ensures MerkleRoot(hash, [a]) == a
    ensures MerkleRoot(hash, [a, b]) == hash(a + b)
  {
    hide TreeHash;
    assert Padded([a]) == [a] && Padded([a, b]) == [a, b];
    TreeHashOfOne(hash, [a]);
    TreeHashOfOne(hash, [b]);
    TreeHashOfMore(hash, [a, b]);
    assert [a, b][..1] == [a] && [a, b][1..] == [b];
  }

  /** Two full trees of one height side by side have the hash of their roots, left before right. */
  lemma RootsJoin(hash: Bytes -> Digest, a: seq<Digest>, b: seq<Digest>, k: nat)
    requires |a| == |b| == Pow2(k)
    ensures MerkleRoot(hash, a + b) == hash(MerkleRoot(hash, a) + MerkleRoot(hash, b))
  {
    hide TreeHash, Padded;
    Pow2Step(k);
    FullLevel(a, k);
    FullLevel(b, k);
    FullLevel(a + b, k + 1);
    TreeHashOfMore(hash, a + b);
    assert (a + b)[..|a|] == a && (a + b)[|a|..] == b;
  }

  /** Every root is a digest: 32 bytes, for leaves of 32 bytes and for none. */
  lemma RootIsDigest(hash: Bytes -> Digest, leaves: seq<Digest>)
    requires (forall b :: |hash(b)| == 32) && forall i :: 0 <= i < |leaves| ==> |leaves[i]| == 32
    ensures |MerkleRoot(hash, leaves)| == 32
  {
    if leaves != [] {
      hide TreeHash;
      if |leaves| == 1 {
        assert Padded(leaves) == leaves;
        TreeHashOfOne(hash, leaves);
      } else {
        TreeHashOfMore(hash, Padded(leaves));
      }
    }
  }

  class MerkleTree {
    var leafNodes: seq<Digest>
    var root: Digest

    constructor (count: nat)
      ensures |leafNodes| == count && root == []
    {
      leafNodes := seq(count, i => []);
      root := [];
    }

    /** Overwrites the first half of `hashes` with the parents of its elements, reading each pair
        before either of its cells can have been overwritten, and drops the rest. */
    static method Condense(hash: Bytes -> Digest, hashes: seq<Digest>) returns (r: seq<Digest>)
      requires |hashes| % 2 == 0
      ensures r == Parents(hash, hashes)
    {
      r := hashes;
      var i, j := 0, 0;
      while i < |r|
        invariant i == 2 * j && 0 <= i <= |hashes| == |r|
        invariant forall k :: 0 <= k < j ==> r[k] == Parents(hash, hashes)[k]
        invariant forall k :: i <= k < |r| ==> r[k] == hashes[k]
      {
        var concatenated := r[i] + r[i + 1];
        concatenated := hash(concatenated);
        r := r[j := concatenated];
        i, j := i + 2, j + 1;
      }
      r := r[..|r| / 2];
    }

    /** Appends empty digests until the length is a power of two. */
    static method Pad(leaves: seq<Digest>) returns (hashes: seq<Digest>)
      requires leaves != []
      ensures hashes == Padded(leaves)
    {
      hide CeilPow2, BitAnd, IsLog2, Pow2;
      hashes := leaves;
      CeilPow2IsLeast(|leaves|);
      IsLog2IsPow2(|hashes|);
      while !IsLog2(|hashes|)
        invariant |leaves| <= |hashes| <= CeilPow2(|leaves|)
        invariant hashes == Padded(leaves)[..|hashes|]
        invariant IsLog2(|hashes|) <==> IsPow2(|hashes|)
        decreases CeilPow2(|leaves|) - |hashes|
      {
        hashes := hashes + [[]];
        IsLog2IsPow2(|hashes|);
      }
    }

    /** Condenses level by level until one digest is left. */
    static method CondenseAll(hash: Bytes -> Digest, leaves: seq<Digest>) returns (top: Digest)
      requires IsPow2(|leaves|)
      ensures top == TreeHash(hash, leaves)
    {
      hide TreeHash;
      var hashes := leaves;
      ghost var k: nat :| |hashes| == Pow2(k);
      while |hashes| > 1
        invariant |hashes| == Pow2(k)
        invariant TreeHash(hash, hashes) == TreeHash(hash, leaves)
        decreases |hashes|
      {
        ParentsKeepTreeHash(hash, hashes, k);
        hashes := Condense(hash, hashes);
        k := k - 1;
      }
      top := hashes[0];
      TreeHashOfOne(hash, hashes);
    }

    method CalculateRoot(hash: Bytes -> Digest)
      modifies this`root
      ensures root == MerkleRoot(hash, leafNodes)
    {
      hide IsPow2;
      if |leafNodes| == 0 {
        root := hash([]);
        return;
      } else if |leafNodes| == 1 {
        root := leafNodes[0];
        assert Padded(leafNodes) == leafNodes;
        return;
      }
      var hashes := Pad(leafNodes);
      CeilPow2IsLeast(|leafNodes|);
      root := CondenseAll(hash, hashes);
    }
  }

  // ---- binding ----

  /** Two different byte strings with the same hash. */
  ghost predicate Collision(hash: Bytes -> Digest, x: Bytes, y: Bytes) {
    x != y && hash(x) == hash(y)
  }

  ghost predicate Digests32(hash: Bytes -> Digest) {
    forall b :: |hash(b)| == 32
  }

  ghost predicate SameShape(s: seq<Digest>, t: seq<Digest>) {
    |s| == |t| && forall i :: 0 <= i < |s| ==> |s[i]| == |t[i]|
  }

  lemma TreeHashLength(hash: Bytes -> Digest, s: seq<Digest>, t: seq<Digest>)
    requires Digests32(hash) && s != [] && SameShape(s, t)
    ensures |TreeHash(hash, s)| == |TreeHash(hash, t)|
  {
  }

  /** From two different trees of the same shape with the same root, a collision. */
  lemma {:induction false} ExtractCollision(hash: Bytes -> Digest, s: seq<Digest>, t: seq<Digest>)
    returns (x: Bytes, y: Bytes)
    requires Digests32(hash) && s != [] && SameShape(s, t)
    requires TreeHash(hash, s) == TreeHash(hash, t) && s != t
    ensures Collision(hash, x, y)
    decreases |s|
  {
    hide TreeHash;
    if |s| == 1 {
      TreeHashOfOne(hash, s);
      TreeHashOfOne(hash, t);
      assert false;
    } else {
      TreeHashOfMore(hash, s);
      TreeHashOfMore(hash, t);
      var h := |s| / 2;
      var sl, sr, tl, tr := s[..h], s[h..], t[..h], t[h..];
      TreeHashLength(hash, sl, tl);
      TreeHashLength(hash, sr, tr);
      x := TreeHash(hash, sl) + TreeHash(hash, sr);
      y := TreeHash(hash, tl) + TreeHash(hash, tr);
      if x == y {
        assert x[..|TreeHash(hash, sl)|] == TreeHash(hash, sl) && y[..|TreeHash(hash, sl)|] == TreeHash(hash, tl);
        assert x[|TreeHash(hash, sl)|..] == TreeHash(hash, sr) && y[|TreeHash(hash, sl)|..] == TreeHash(hash, tr);
        if sl != tl {
          x, y := ExtractCollision(hash, sl, tl);
        } else {
          assert s == sl + sr && t == tl + tr;
          x, y := ExtractCollision(hash, sr, tr);
        }
      }
    }
  }

  /** Leaves of 32 bytes followed by nothing but empty digests: what padding makes. */
  ghost predicate WellPadded(s: seq<Digest>) {
    && (forall i :: 0 <= i < |s| ==> |s[i]| == 32 || s[i] == [])
    && (forall i, j :: 0 <= i < j < |s| && s[i] == [] ==> s[j] == [])
  }

  lemma WellPaddedHalves(s: seq<Digest>, h: nat)
    requires WellPadded(s) && h <= |s|
    ensures WellPadded(s[..h]) && WellPadded(s[h..])
  {
  }

  lemma PairIsBound(s: seq<Digest>, t: seq<Digest>)
    requires |s| == |t| == 2 && WellPadded(s) && WellPadded(t) && s[0] + s[1] == t[0] + t[1]
    ensures s == t
  {
    assert |s[0]| == |t[0]|;
    assert s[0] == (s[0] + s[1])[..|s[0]|] && t[0] == (t[0] + t[1])[..|s[0]|];
    assert s[1] == (s[0] + s[1])[|s[0]|..] && t[1] == (t[0] + t[1])[|s[0]|..];
  }

  lemma HashesSplit(a: Bytes, b: Bytes, c: Bytes, d: Bytes)
    requires |a| == |c| && a + b == c + d
    ensures a == c && b == d
  {
    assert a == (a + b)[..|a|] && c == (c + d)[..|a|];
    assert b == (a + b)[|a|..] && d == (c + d)[|a|..];
  }

  /** Two padded levels of one height with one root are equal, or there is a collision: a different
      number of leaves shows in the length of what is hashed. */
  lemma {:induction false} PaddedBinds(hash: Bytes -> Digest, s: seq<Digest>, t: seq<Digest>, k: nat)
    returns (x: Bytes, y: Bytes)
    requires Digests32(hash) && |s| == |t| == Pow2(k) && WellPadded(s) && WellPadded(t)
    requires TreeHash(hash, s) == TreeHash(hash, t)
    ensures s == t || Collision(hash, x, y)
    decreases k
  {
    hide TreeHash, Pow2, WellPadded;
    Pow2Step(k - 1);
    Pow2Step(k - 2);
    x, y := [], [];
    if k == 0 {
      TreeHashOfOne(hash, s);
      TreeHashOfOne(hash, t);
    } else {
      TreeHashOfMore(hash, s);
      TreeHashOfMore(hash, t);
      var h := |s| / 2;
      var sl, sr, tl, tr := s[..h], s[h..], t[..h], t[h..];
      x := TreeHash(hash, sl) + TreeHash(hash, sr);
      y := TreeHash(hash, tl) + TreeHash(hash, tr);
      if x == y {
        x, y := HalvesBind(hash, s, t, k);
      }
    }
  }

  lemma {:induction false} HalvesBind(hash: Bytes -> Digest, s: seq<Digest>, t: seq<Digest>, k: nat)
    returns (x: Bytes, y: Bytes)
    requires Digests32(hash) && k > 0 && |s| == |t| == Pow2(k) && WellPadded(s) && WellPadded(t)
    requires var h := Pow2(k - 1); h <= |s| && |s[..h]| == |s[h..]| == h
    requires var h := Pow2(k - 1); TreeHash(hash, s[..h]) + TreeHash(hash, s[h..]) == TreeHash(hash, t[..h]) + TreeHash(hash, t[h..])
    ensures s == t || Collision(hash, x, y)
    decreases k, 0
  {
    hide TreeHash, Pow2;
    Pow2Step(k - 1);
    var h := Pow2(k - 1);
    var sl, sr, tl, tr := s[..h], s[h..], t[..h], t[h..];
    x, y := [], [];
    assert s == sl + sr && t == tl + tr;
    if k == 1 {
      TreeHashOfOne(hash, sl);
      TreeHashOfOne(hash, sr);
      TreeHashOfOne(hash, tl);
      TreeHashOfOne(hash, tr);
      PairIsBound(s, t);
    } else {
      WellPaddedHalves(s, h);
      WellPaddedHalves(t, h);
      hide WellPadded;
      Pow2Step(k - 2);
      TreeHashOfMore(hash, sl);
      TreeHashOfMore(hash, tl);
      HashesSplit(TreeHash(hash, sl), TreeHash(hash, sr), TreeHash(hash, tl), TreeHash(hash, tr));
      x, y := PaddedBinds(hash, sl, tl, k - 1);
      if sl == tl {
        x, y := PaddedBinds(hash, sr, tr, k - 1);
      }
    }
  }

  lemma PaddingIsWellPadded(a: seq<Digest>)
    requires a != [] && forall i :: 0 <= i < |a| ==> |a[i]| == 32
    ensures WellPadded(Padded(a))
  {
    hide CeilPow2;
  }

  /** Padding loses no leaf and makes none up. */
  lemma PaddingIsInjective(a: seq<Digest>, b: seq<Digest>)
    requires a != [] && b != [] && Padded(a) == Padded(b)
    requires (forall i :: 0 <= i < |a| ==> |a[i]| == 32) && (forall i :: 0 <= i < |b| ==> |b[i]| == 32)
    ensures a == b
  {
    hide CeilPow2;
    NoLonger(a, b);
    NoLonger(b, a);
    assert a == Padded(a)[..|a|] && b == Padded(b)[..|b|];
  }

  lemma NoLonger(a: seq<Digest>, b: seq<Digest>)
    requires a != [] && b != [] && Padded(a) == Padded(b)
    requires forall i :: 0 <= i < |a| ==> |a[i]| == 32
    ensures |a| <= |b|
  {
    hide CeilPow2;
    var p := Padded(b);
    assert |b| < |p| ==> p[|b|] == [];
    assert forall i :: 0 <= i < |a| ==> Padded(a)[i] == a[i];
  }

  /** The root binds the leaves: of two trees of one height, all leaves 32 bytes, equal roots mean
      equal leaves, in number too -- or the proof hands over a collision. */
  lemma RootBinds(hash: Bytes -> Digest, a: seq<Digest>, b: seq<Digest>) returns (x: Bytes, y: Bytes)
    requires Digests32(hash) && a != [] && b != [] && CeilPow2(|a|) == CeilPow2(|b|)
    requires (forall i :: 0 <= i < |a| ==> |a[i]| == 32) && (forall i :: 0 <= i < |b| ==> |b[i]| == 32)
    requires MerkleRoot(hash, a) == MerkleRoot(hash, b)
    ensures a == b || Collision(hash, x, y)
  {
    CeilPow2IsLeast(|a|);
    var k: nat :| CeilPow2(|a|) == Pow2(k);
    PaddingIsWellPadded(a);
    PaddingIsWellPadded(b);
    hide WellPadded, CeilPow2, Padded, TreeHash;
    x, y := PaddedBinds(hash, Padded(a), Padded(b), k);
    if Padded(a) == Padded(b) {
      PaddingIsInjective(a, b);
    }
  }

  /** The height is not bound: the parents of a full level, taken for leaves, have the root of their
      children -- 32 bytes each, half as many. */
  lemma HeightIsNotBound(hash: Bytes -> Digest, a: seq<Digest>, k: nat)
    requires Digests32(hash) && |a| == Pow2(k) && k > 0
    ensures var p := Parents(hash, a);
            && p != [] && 2 * |p| == |a| && (forall i :: 0 <= i < |p| ==> |p[i]| == 32)
            && MerkleRoot(hash, p) == MerkleRoot(hash, a)
  {
    hide TreeHash;
    ParentsKeepTreeHash(hash, a, k);
    Pow2Step(k - 1);
    FullLevel(a, k);
    FullLevel(Parents(hash, a), k - 1);
  }

  lemma FullLevel(a: seq<Digest>, k: nat)
    requires |a| == Pow2(k)
    ensures a != [] && Padded(a) == a
  {
    CeilPow2IsLeast(|a|);
    assert IsPow2(|a|);
    hide CeilPow2, Pow2;
  }

  /** The number of leaves is not bound: a leaf that is an empty digest is what padding adds. */
  lemma LeafCountIsNotBound(hash: Bytes -> Digest, a: seq<Digest>)
    requires |a| > 0 && CeilPow2(|a|) > |a|
    ensures MerkleRoot(hash, a + [[]]) == MerkleRoot(hash, a)
  {
    hide TreeHash, Padded, CeilPow2;
    CeilPow2Stays(|a|);
    PaddedOneFurther(a);
  }

  lemma CeilPow2Stays(n: nat)
    requires n > 0 && CeilPow2(n) > n
    ensures CeilPow2(n + 1) == CeilPow2(n)
  {
    hide CeilPow2, IsPow2;
    CeilPow2IsLeast(n);
    CeilPow2IsLeast(n + 1);
  }

  lemma PaddedOneFurther(a: seq<Digest>)
    requires |a| > 0 && CeilPow2(|a| + 1) == CeilPow2(|a|) > |a|
    ensures Padded(a + [[]]) == Padded(a)
  {
    hide CeilPow2;
  }
}
