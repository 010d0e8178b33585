/** ToBase64 and ToHex, and the tables that undo them. */
module Encoders {
  import opened ByteStrings
  import opened Wrappers

  const PAD: byte := 61

  // ---- the tables, by their ranges ----

  /** base64chars. */
  function Base64Char(n: nat): byte
    requires n < 64
  {
    if n < 26 then 65 + n
    else if n < 52 then 71 + n
    else if n < 62 then n - 4
    else if n == 62 then 43
    else 47
  }

  /** base64decode: 64 marks white space, 65 the pad, 66 any other character. */
  function Base64Value(c: byte): nat {
    if 65 <= c <= 90 then c - 65
    else if 97 <= c <= 122 then c - 71
    else if 48 <= c <= 57 then c + 4
    else if c == 43 then 62
    else if c == 47 then 63
    else if c == PAD then 65
    else if c == 10 then 64
    else 66
  }

  /** The two tables undo each other, on the 64 values and on the 64 characters. */
  lemma TablesAgree(n: nat, c: byte)
    ensures n < 64 ==> Base64Value(Base64Char(n)) == n
    ensures Base64Value(c) < 64 ==> Base64Char(Base64Value(c)) == c
    ensures Base64Value(c) <= 66 && (Base64Value(c) == 65 <==> c == '=' as int) && (Base64Value(c) == 64 <==> c == '\n' as int)
  {
  }

  /** base64chars, character by character. */
  lemma Alphabet(n: nat)
    requires n < 64
    ensures n < 26 ==> Base64Char(n) == "ABCDEFGHIJKLMNOPQRSTUVWXYZ"[n] as int
    ensures 26 <= n < 52 ==> Base64Char(n) == "abcdefghijklmnopqrstuvwxyz"[n - 26] as int
    ensures 52 <= n ==> Base64Char(n) == "0123456789+/"[n - 52] as int
  {
  }

  // ---- the reference: section 4 of RFC 4648 ----

  /** The four values of a group of three bytes. */
  function Group(a: byte, b: byte, c: byte): (q: seq<nat>)
    ensures |q| == 4 && forall i :: 0 <= i < 4 ==> q[i] < 64
  {
    [a / 4, a % 4 * 16 + b / 16, b % 16 * 4 + c / 64, c % 64]
  }

  function Encode(s: Bytes): Bytes {
    if s == [] then []
    else if |s| == 1 then
      var q := Group(s[0], 0, 0);
      [Base64Char(q[0]), Base64Char(q[1]), PAD, PAD]
    else if |s| == 2 then
      var q := Group(s[0], s[1], 0);
      [Base64Char(q[0]), Base64Char(q[1]), Base64Char(q[2]), PAD]
    else
      var q := Group(s[0], s[1], s[2]);
      [Base64Char(q[0]), Base64Char(q[1]), Base64Char(q[2]), Base64Char(q[3])] + Encode(s[3..])
  }

  /** The bytes of four table values; only the last group may be padded. */
  function Ungroup(p: nat, q: nat, r: nat, s: nat, last: bool): Option<Bytes> {
    if p >= 64 || q >= 64 then None
    else if last && r == 65 && s == 65 then Some([p * 4 + q / 16])
    else if r >= 64 then None
    else if last && s == 65 then Some([p * 4 + q / 16, q % 16 * 16 + r / 4])
    else if s >= 64 then None
    else Some([p * 4 + q / 16, q % 16 * 16 + r / 4, r % 4 * 64 + s])
  }

  /** Decoding through the table, four characters at a time. */
  function Decode(t: Bytes): Option<Bytes> {
    if t == [] then Some([])
    else if |t| < 4 then None
    else
      match Ungroup(Base64Value(t[0]), Base64Value(t[1]), Base64Value(t[2]), Base64Value(t[3]), |t| == 4)
      case None => None
      case Some(bytes) =>
        match Decode(t[4..])
        case None => None
        case Some(rest) => Some(bytes + rest)
  }

  lemma GroupArithmetic(a: byte, b: byte, c: byte)
    ensures var q := Group(a, b, c);
            q[0] * 4 + q[1] / 16 == a && q[1] % 16 * 16 + q[2] / 4 == b && q[2] % 4 * 64 + q[3] == c
  {
  }

  /** A group of one, two or three bytes comes back from its values and its padding. */
  lemma GroupDecodes(a: byte, b: byte, c: byte, n: nat, last: bool)
    requires 1 <= n <= 3 && (n < 3 ==> last)
    ensures var q := Group(a, b, c);
            Ungroup(q[0], q[1], if n < 2 then 65 else q[2], if n < 3 then 65 else q[3], last) == Some([a, b, c][..n])
  {
    GroupArithmetic(a, b, c);
    hide Group;
    assert [a, b, c][..n] == if n == 1 then [a] else if n == 2 then [a, b] else [a, b, c];
  }

  lemma {:induction false} EncodeLength(s: Bytes)
    ensures |Encode(s)| == 4 * ((|s| + 2) / 3)
  {
    if |s| > 2 {
      EncodeLength(s[3..]);
      assert (|s| + 2) / 3 == (|s| - 3 + 2) / 3 + 1;
    }
  }

  /** The characters of the first group and the bytes they stand for. */
  lemma FirstGroup(s: Bytes) returns (head: Bytes)
    requires s != []
    ensures Encode(s) != [] && |Encode(s)| >= 4
    ensures head == if |s| <= 3 then s else s[..3]
    ensures Encode(s)[4..] == Encode(s[|head|..])
    ensures Ungroup(Base64Value(Encode(s)[0]), Base64Value(Encode(s)[1]), Base64Value(Encode(s)[2]),
                    Base64Value(Encode(s)[3]), |Encode(s)| == 4) == Some(head)
  {
    head := if |s| <= 3 then s else s[..3];
    var b := if |s| >= 2 then s[1] else 0;
    var c := if |s| >= 3 then s[2] else 0;
    var q := Group(s[0], b, c);
    EncodeLength(s);
    GroupDecodes(s[0], b, c, |head|, |Encode(s)| == 4);
    TablesAgree(q[0], 0);
    TablesAgree(q[1], 0);
    TablesAgree(q[2], 0);
    TablesAgree(q[3], 0);
    assert Base64Value(PAD) == 65;
    hide Base64Char, Base64Value, Group, Ungroup;
    assert head == [s[0], b, c][..|head|];
  }

  /** Decoding recovers the input, whatever its bytes and its length. */
  lemma {:induction false} Base64RoundTrip(s: Bytes)
    ensures Decode(Encode(s)) == Some(s)
  {
    hide Base64Value, Encode, Ungroup;
    if s == [] {
      EncodeEmpty(s);
    } else {
      var head := FirstGroup(s);
      Base64RoundTrip(s[|head|..]);
      assert s == head + s[|head|..];
    }
  }

  /** Character by character: which bits of which bytes each stands for, and where the padding is. */
  lemma {:induction false} EncodeAt(s: Bytes, j: nat)
    requires j < |Encode(s)|
    ensures 3 * (j / 4) < |s|
    ensures var i := 3 * (j / 4);
            var a: int := s[i];
            var b: int := if i + 1 < |s| then s[i + 1] else 0;
            var c: int := if i + 2 < |s| then s[i + 2] else 0;
            && (j % 4 == 0 ==> Encode(s)[j] == Base64Char(a / 4))
            && (j % 4 == 1 ==> Encode(s)[j] == Base64Char(a % 4 * 16 + b / 16))
            && (j % 4 == 2 ==> Encode(s)[j] == if i + 1 < |s| then Base64Char(b % 16 * 4 + c / 64) else '=' as int)
            && (j % 4 == 3 ==> Encode(s)[j] == if i + 2 < |s| then Base64Char(c % 64) else '=' as int)
    decreases |s|
  {
    hide Base64Char, Encode;
    if |s| > 2 {
      FirstFour(s);
      if j >= 4 {
        assert (j - 4) / 4 == j / 4 - 1 && (j - 4) % 4 == j % 4;
        EncodeAt(s[3..], j - 4);
      }
    } else if s == [] {
      EncodeEmpty(s);
    } else {
      LastFour(s);
    }
  }

  lemma FirstFour(s: Bytes)
    requires |s| > 2
    ensures |Encode(s)| == 4 + |Encode(s[3..])| && Encode(s)[4..] == Encode(s[3..])
    ensures var a: int, b: int, c: int := s[0], s[1], s[2];
            && Encode(s)[0] == Base64Char(a / 4) && Encode(s)[1] == Base64Char(a % 4 * 16 + b / 16)
            && Encode(s)[2] == Base64Char(b % 16 * 4 + c / 64) && Encode(s)[3] == Base64Char(c % 64)
  {
    hide Base64Char;
  }

  lemma LastFour(s: Bytes)
    requires 0 < |s| < 3
    ensures |Encode(s)| == 4 && Encode(s)[3] == '=' as int
    ensures var a: int := s[0];
            && Encode(s)[0] == Base64Char(a / 4)
            && (|s| == 1 ==> Encode(s)[1] == Base64Char(a % 4 * 16) && Encode(s)[2] == '=' as int)
    ensures |s| == 2 ==>
              var a: int, b: int := s[0], s[1];
              Encode(s)[1] == Base64Char(a % 4 * 16 + b / 16) && Encode(s)[2] == Base64Char(b % 16 * 4)
  {
    hide Base64Char;
    var a: int := s[0];
    assert Group(s[0], 0, 0)[0] == a / 4 && Group(s[0], 0, 0)[1] == a % 4 * 16;
    if |s| == 2 {
      assert Group(s[0], s[1], 0)[2] == s[1] % 16 * 4;
    }
  }

  lemma EncodeEmpty(s: Bytes)
    requires s == []
    ensures Encode(s) == []
  {
  }

  /** The bits of the last character before the padding that no byte is made of. */
  ghost predicate LeftoverIsZero(t: Bytes) {
    |t| >= 4 && t[|t| - 1] == '=' as int ==>
      if t[|t| - 2] == '=' as int then Base64Value(t[|t| - 3]) % 16 == 0 else Base64Value(t[|t| - 2]) % 4 == 0
  }

  lemma CharIsValue(c: byte, n: nat)
    requires n < 64
    ensures Base64Char(n) == c <==> Base64Value(c) == n
    ensures Base64Value(c) == 65 <==> c == '=' as int
  {
  }

  /** The values of the characters, from the bytes they were put together to. */
  lemma ValuesBack(p: nat, q: nat, r: nat, v: nat, a: byte, b: byte, c: byte)
    requires p < 64 && q < 64 && r < 64 && v < 64
    requires a == p * 4 + q / 16 && b == q % 16 * 16 + r / 4 && c == r % 4 * 64 + v
    ensures a / 4 == p && a % 4 * 16 + b / 16 == q && b % 16 * 4 + c / 64 == r && c % 64 == v
  {
    assert a % 4 == q / 16 && b / 16 == q % 16 && b % 16 == r / 4 && c / 64 == r % 4;
  }

  lemma TwoValuesBack(p: nat, q: nat, a: byte)
    requires p < 64 && q < 64 && a == p * 4 + q / 16
    ensures a / 4 == p && a % 4 * 16 == q / 16 * 16
    ensures q / 16 * 16 < 64 && (q / 16 * 16 == q <==> q % 16 == 0)
  {
  }

  lemma ThreeValuesBack(p: nat, q: nat, r: nat, a: byte, b: byte)
    requires p < 64 && q < 64 && r < 64 && a == p * 4 + q / 16 && b == q % 16 * 16 + r / 4
    ensures a / 4 == p && a % 4 * 16 + b / 16 == q && b % 16 * 4 == r / 4 * 4
    ensures r / 4 * 4 < 64 && (r / 4 * 4 == r <==> r % 4 == 0)
  {
    assert a % 4 == q / 16 && b / 16 == q % 16 && b % 16 == r / 4;
  }

  /** The first three bytes decoded have the four characters they came from. */
  lemma WholeGroupBack(t: Bytes, s: Bytes, p: nat, q: nat, r: nat, v: nat)
    requires |t| >= 4 && |s| > 2 && p < 64 && q < 64 && r < 64 && v < 64
    requires p == Base64Value(t[0]) && q == Base64Value(t[1]) && r == Base64Value(t[2]) && v == Base64Value(t[3])
    requires s[0] == p * 4 + q / 16 && s[1] == q % 16 * 16 + r / 4 && s[2] == r % 4 * 64 + v
    ensures |Encode(s)| >= 4 && Encode(s)[..4] == t[..4] && Encode(s)[4..] == Encode(s[3..])
  {
    hide Base64Value, Base64Char, Encode;
    FirstFour(s);
    ValuesBack(p, q, r, v, s[0], s[1], s[2]);
    CharIsValue(t[0], p);
    CharIsValue(t[1], q);
    CharIsValue(t[2], r);
    CharIsValue(t[3], v);
  }

  /** The last group, with one or two bytes in it. */
  lemma OneByteBack(t: Bytes, s: Bytes, p: nat, q: nat)
    requires |t| == 4 && |s| == 1 && p < 64 && q < 64
    requires p == Base64Value(t[0]) && q == Base64Value(t[1]) && Base64Value(t[2]) == 65 && Base64Value(t[3]) == 65
    requires s[0] == p * 4 + q / 16
    ensures Encode(s) == t <==> LeftoverIsZero(t)
  {
    hide Base64Value, Base64Char, Encode;
    LastFour(s);
    TwoValuesBack(p, q, s[0]);
    CharIsValue(t[0], p);
    CharIsValue(t[1], q / 16 * 16);
    CharIsValue(t[2], 0);
    CharIsValue(t[3], 0);
    FourAlike(Encode(s), t);
  }

  lemma TwoBytesBack(t: Bytes, s: Bytes, p: nat, q: nat, r: nat)
    requires |t| == 4 && |s| == 2 && p < 64 && q < 64 && r < 64
    requires p == Base64Value(t[0]) && q == Base64Value(t[1]) && r == Base64Value(t[2]) && Base64Value(t[3]) == 65
    requires s[0] == p * 4 + q / 16 && s[1] == q % 16 * 16 + r / 4
    ensures Encode(s) == t <==> LeftoverIsZero(t)
  {
    hide Base64Value, Base64Char, Encode;
    LastFour(s);
    ThreeValuesBack(p, q, r, s[0], s[1]);
    CharIsValue(t[0], p);
    CharIsValue(t[1], q);
    CharIsValue(t[2], r / 4 * 4);
    CharIsValue(t[3], 0);
    FourAlike(Encode(s), t);
  }

  lemma FourAlike(s: Bytes, t: Bytes)
    requires |s| == |t| == 4
    ensures s == t <==> s[0] == t[0] && s[1] == t[1] && s[2] == t[2] && s[3] == t[3]
  {
  }

  /** The other direction: what decodes is encoded again as it was, if and only if its leftover bits are
      zero. */
  lemma {:induction false} DecodedComesBack(t: Bytes)
    requires Decode(t).Some?
    ensures |t| % 4 == 0
    ensures Encode(Decode(t).value) == t <==> LeftoverIsZero(t)
    decreases |t|
  {
    hide Decode, Ungroup, Base64Value, Encode;
    if t == [] {
      NothingDecoded(t);
    } else {
      var head, rest := DecodedHead(t);
      var s := head + rest;
      DecodedComesBack(t[4..]);
      if |head| == 3 {
        WholeGroupBack(t, s, Base64Value(t[0]), Base64Value(t[1]), Base64Value(t[2]), Base64Value(t[3]));
        assert s[3..] == rest;
        assert Encode(s) == t[..4] + Encode(rest) && t == t[..4] + t[4..];
        SameLeftover(t);
      } else {
        assert s == head;
        if |head| == 1 {
          OneByteBack(t, s, Base64Value(t[0]), Base64Value(t[1]));
        } else {
          TwoBytesBack(t, s, Base64Value(t[0]), Base64Value(t[1]), Base64Value(t[2]));
        }
      }
    }
  }

  lemma NothingDecoded(t: Bytes)
    requires t == []
    ensures Decode(t) == Some([]) && Encode([]) == []
  {
  }

  /** The first group and what is left: three bytes from four values, or the end with one or two. */
  lemma DecodedHead(t: Bytes) returns (head: Bytes, rest: Bytes)
    requires t != [] && Decode(t).Some?
    ensures |t| >= 4 && Decode(t[4..]) == Some(rest) && Decode(t) == Some(head + rest)
    ensures var p, q, r, v := Base64Value(t[0]), Base64Value(t[1]), Base64Value(t[2]), Base64Value(t[3]);
            && p < 64 && q < 64 && 1 <= |head| <= 3 && head[0] == p * 4 + q / 16
            && (|head| >= 2 ==> r < 64 && head[1] == q % 16 * 16 + r / 4)
            && (|head| == 3 ==> v < 64 && head[2] == r % 4 * 64 + v)
            && (|head| <= 2 ==> v == 65 && |t| == 4 && rest == [])
            && (|head| == 1 ==> r == 65)
  {
    hide Base64Value;
    head := Ungroup(Base64Value(t[0]), Base64Value(t[1]), Base64Value(t[2]), Base64Value(t[3]), |t| == 4).value;
    rest := Decode(t[4..]).value;
  }

  lemma SameLeftover(t: Bytes)
    requires |t| >= 4 && |t| % 4 == 0 && Base64Value(t[3]) < 64
    ensures LeftoverIsZero(t) <==> LeftoverIsZero(t[4..])
  {
    CharIsValue(t[3], 0);
    hide Base64Value;
  }

  // ---- the encoders ----

  /** The characters of one turn of the loop, for the last `n` bytes or the next three. */
  function Head(q: seq<nat>, n: nat): Bytes
    requires |q| == 4 && forall i :: 0 <= i < 4 ==> q[i] < 64
  {
    [Base64Char(q[0]), Base64Char(q[1])]
    + (if n > 1 then [Base64Char(q[2])] else [])
    + (if n > 2 then [Base64Char(q[3])] else [])
  }

  /** Byte `i` of `s`, or nothing where `s` has ended. */
  function At(s: Bytes, i: nat): byte { if i < |s| then s[i] else 0 }

  function FirstValues(s: Bytes): (q: seq<nat>)
    ensures |q| == 4 && forall i :: 0 <= i < 4 ==> q[i] < 64
  {
    Group(At(s, 0), At(s, 1), At(s, 2))
  }

  function Others(s: Bytes): Bytes { if |s| > 3 then s[3..] else [] }

  /** All the characters the loop writes: no padding. */
  function Unpadded(s: Bytes): Bytes
    decreases |s|
  {
    if s == [] then [] else Head(FirstValues(s), |s|) + Unpadded(Others(s))
  }

  function Padding(n: nat): Bytes { if n % 3 == 0 then [] else if n % 3 == 1 then [PAD, PAD] else [PAD] }

  lemma HeadSpelledOut(q: seq<nat>, n: nat)
    requires |q| == 4 && (forall i :: 0 <= i < 4 ==> q[i] < 64) && n > 0
    ensures Head(q, n) ==
            if n == 1 then [Base64Char(q[0]), Base64Char(q[1])]
            else if n == 2 then [Base64Char(q[0]), Base64Char(q[1]), Base64Char(q[2])]
            else [Base64Char(q[0]), Base64Char(q[1]), Base64Char(q[2]), Base64Char(q[3])]
  {
    hide Base64Char;
  }

  lemma EncodeMore(s: Bytes)
    requires |s| > 2
    ensures Encode(s) == Head(FirstValues(s), |s|) + Encode(s[3..])
  {
    hide Group, Base64Char, Head;
    HeadSpelledOut(FirstValues(s), |s|);
  }

  lemma EncodeShort(s: Bytes)
    requires 0 < |s| < 3
    ensures var q := FirstValues(s);
            Encode(s) == if |s| == 1 then [Base64Char(q[0]), Base64Char(q[1]), PAD, PAD]
                         else [Base64Char(q[0]), Base64Char(q[1]), Base64Char(q[2]), PAD]
  {
    hide Group, Base64Char;
  }

  lemma PaddingSpelledOut(n: nat)
    requires n < 3
    ensures Padding(n) == if n == 0 then [] else if n == 1 then [PAD, PAD] else [PAD]
  {
  }

  lemma FourCharacters<T>(a: T, b: T, c: T, p: T)
    ensures [a, b] + [p, p] == [a, b, p, p] && [a, b, c] + [p] == [a, b, c, p]
  {
  }

  lemma EncodeLast(s: Bytes)
    requires 0 < |s| < 3
    ensures Encode(s) == Head(FirstValues(s), |s|) + Padding(|s|)
  {
    hide Encode, FirstValues, Base64Char, Head, Padding;
    var q := FirstValues(s);
    HeadSpelledOut(q, |s|);
    EncodeShort(s);
    PaddingSpelledOut(|s|);
    FourCharacters(Base64Char(q[0]), Base64Char(q[1]), Base64Char(q[2]), PAD);
  }

  lemma {:induction false} EncodeIsPadded(s: Bytes)
    ensures Encode(s) == Unpadded(s) + Padding(|s|)
  {
    hide Head, FirstValues, Encode, Unpadded;
    if s == [] {
      EncodeEmpty(s);
      UnpaddedEmpty(s);
    } else {
      var rest := Others(s);
      UnpaddedStep(s);
      if |s| < 3 {
        EncodeLast(s);
        UnpaddedEmpty(rest);
      } else {
        EncodeMore(s);
        assert rest == s[3..];
        EncodeIsPadded(rest);
        assert Padding(|s|) == Padding(|rest|);
      }
    }
  }

  lemma Slices(p: nat, q: nat, r: nat, s: nat)
    requires p < 64 && q < 64 && r < 64 && s < 64
    ensures var temp := p * 0x4_0000 + q * 0x1000 + r * 0x40 + s;
            && temp / 0x4_0000 % 64 == p && temp / 0x1000 % 64 == q && temp / 0x40 % 64 == r && temp % 64 == s
  {
    var temp := p * 0x4_0000 + q * 0x1000 + r * 0x40 + s;
    assert temp / 0x4_0000 == p;
    assert temp / 0x1000 == p * 64 + q;
    assert temp / 0x40 == (p * 64 + q) * 64 + r;
  }

  /** The four slices of the 24-bit register. */
  function RegisterSlices(temp: nat): (q: seq<nat>)
    ensures |q| == 4 && forall i :: 0 <= i < 4 ==> q[i] < 64
  {
    [temp / 0x4_0000 % 64, temp / 0x1000 % 64, temp / 0x40 % 64, temp % 64]
  }

  /** They are the group's values. */
  lemma RegisterIsGroup(a: byte, b: byte, c: byte)
    ensures var temp := a * 0x1_0000 + b * 0x100 + c;
            RegisterSlices(temp) == Group(a, b, c)
  {
    GroupArithmetic(a, b, c);
    hide Group;
    var q := Group(a, b, c);
    assert a * 0x1_0000 + b * 0x100 + c == q[0] * 0x4_0000 + q[1] * 0x1000 + q[2] * 0x40 + q[3];
    Slices(q[0], q[1], q[2], q[3]);
  }

  method WriteGroup(ret: array<byte>, idx: nat, temp: nat, n: nat) returns (next: nat)
    requires n > 0 && idx + |Head(RegisterSlices(temp), n)| <= ret.Length
    modifies ret
    ensures next <= ret.Length
    ensures ret[..next] == old(ret[..idx]) + Head(RegisterSlices(temp), n)
  {
    hide Base64Char;
    var n0, n1, n2, n3 := temp / 0x4_0000 % 64, temp / 0x1000 % 64, temp / 0x40 % 64, temp % 64;
    next := idx;
    ret[next] := Base64Char(n0);
    ret[next + 1] := Base64Char(n1);
    next := next + 2;
    if n > 1 {
      ret[next] := Base64Char(n2);
      next := next + 1;
    }
    if n > 2 {
      ret[next] := Base64Char(n3);
      next := next + 1;
    }
  }

  lemma Regroup<T>(a: seq<T>, b: seq<T>, c: seq<T>)
    ensures (a + b) + c == a + (b + c)
  {
  }

  /** One turn of the loop: the group at `x`. */
  method WriteNext(ret: array<byte>, idx: nat, str: Bytes, x: nat) returns (next: nat)
    requires x < |str| && idx + |Head(FirstValues(str[x..]), |str| - x)| <= ret.Length
    modifies ret
    ensures next <= ret.Length
    ensures ret[..next] == old(ret[..idx]) + Head(FirstValues(str[x..]), |str| - x)
  {
    hide Group, Head;
    ghost var rest := str[x..];
    RegisterIsGroup(At(rest, 0), At(rest, 1), At(rest, 2));
    var high: int := str[x];
    var temp := high * 0x1_0000;
    if x + 1 < |str| {
      var middle: int := str[x + 1];
      temp := temp + middle * 0x100;
    }
    if x + 2 < |str| {
      temp := temp + str[x + 2];
    }
    next := WriteGroup(ret, idx, temp, |str| - x);
  }

  method WriteGroups(ret: array<byte>, str: Bytes) returns (idx: nat)
    requires |Unpadded(str)| <= ret.Length
    modifies ret
    ensures idx <= ret.Length && ret[..idx] == Unpadded(str)
  {
    hide Unpadded, Head, FirstValues;
    var x: nat := 0;
    idx := 0;
    ghost var rest := str;
    while x < |str|
      invariant idx <= ret.Length && rest == if x <= |str| then str[x..] else []
      invariant ret[..idx] + Unpadded(rest) == Unpadded(str)
    {
      UnpaddedStep(rest);
      Regroup(ret[..idx], Head(FirstValues(rest), |rest|), Unpadded(Others(rest)));
      idx := WriteNext(ret, idx, str, x);
      x := x + 3;
      rest := Others(rest);
    }
    UnpaddedEmpty(rest);
  }

  lemma SizeIsWholeGroups(n: nat)
    ensures (if n % 3 == 0 then n * 4 / 3 else (n + (3 - n % 3)) * 4 / 3) == 4 * ((n + 2) / 3)
  {
    var q, r := n / 3, n % 3;
    assert n == 3 * q + r;
  }

  method WritePadding(ret: array<byte>, start: nat, n: nat)
    requires start + |Padding(n)| == ret.Length
    modifies ret
    ensures ret[..] == old(ret[..start]) + Padding(n)
  {
    ghost var was := ret[..start];
    var invPadCount := n % 3;
    var idx := start;
    if invPadCount > 0 {
      while invPadCount < 3
        invariant n % 3 <= invPadCount <= 3 && idx == start + invPadCount - n % 3
        invariant ret[..start] == was && forall k :: start <= k < idx ==> ret[k] == PAD
      {
        ret[idx] := PAD;
        idx := idx + 1;
        invPadCount := invPadCount + 1;
      }
    }
    assert ret[start..] == Padding(n);
    assert ret[..] == ret[..start] + ret[start..];
  }

  /** ToBase64, filling the result in place. */
  method ToBase64(str: Bytes) returns (ret: array<byte>)
    ensures fresh(ret) && ret[..] == Encode(str)
  {
    hide Encode, Unpadded, Padding;
    EncodeLength(str);
    EncodeIsPadded(str);
    var N := |str|;
    var invPadCount := N % 3;
    var size := if invPadCount == 0 then N * 4 / 3 else (N + (3 - invPadCount)) * 4 / 3;
    SizeIsWholeGroups(N);
    ret := new byte[size];
    var idx := WriteGroups(ret, str);
    WritePadding(ret, idx, N);
  }

  lemma UnpaddedStep(s: Bytes)
    requires s != []
    ensures Unpadded(s) == Head(FirstValues(s), |s|) + Unpadded(Others(s))
  {
  }

  lemma UnpaddedEmpty(s: Bytes)
    requires s == []
    ensures Unpadded(s) == []
  {
  }

  // ---- hexadecimal ----

  /** hexChars. */
  function HexChar(n: nat): byte
    requires n < 16
  {
    if n < 10 then 48 + n else 87 + n
  }

  /** DecodeHexChar; `None` where it throws. */
  function DecodeHexChar(c: byte): Option<nat> {
    if 48 <= c <= 57 then Some(c - 48)
    else if 65 <= c <= 70 then Some(c - 65 + 10)
    else if 97 <= c <= 102 then Some(c - 97 + 10)
    else None
  }

  /** hexChars: the digits and the small letters. */
  lemma HexAlphabet(n: nat)
    requires n < 16
    ensures HexChar(n) == "0123456789abcdef"[n] as int
  {
  }

  /** Two characters a byte, the high half first. */
  function HexOf(s: Bytes): (t: Bytes)
    ensures |t| == 2 * |s|
  {
    if s == [] then [] else [HexChar(s[0] / 16), HexChar(s[0] % 16)] + HexOf(s[1..])
  }

  lemma {:induction false} HexAt(s: Bytes, k: nat)
    requires k < |s|
    ensures HexOf(s)[2 * k] == "0123456789abcdef"[s[k] / 16] as int
    ensures HexOf(s)[2 * k + 1] == "0123456789abcdef"[s[k] % 16] as int
  {
    HexAlphabet(s[0] / 16);
    HexAlphabet(s[0] % 16);
    if k > 0 {
      HexAt(s[1..], k - 1);
    }
  }

  function FromHex(t: Bytes): Option<Bytes> {
    if t == [] then Some([])
    else if |t| == 1 then None
    else
      match (DecodeHexChar(t[0]), DecodeHexChar(t[1]), FromHex(t[2..]))
      case (Some(h), Some(l), Some(rest)) => Some([h * 16 + l] + rest)
      case _ => None
  }

  lemma {:induction false} HexRoundTrip(s: Bytes)
    ensures FromHex(HexOf(s)) == Some(s)
  {
    if s != [] {
      HexRoundTrip(s[1..]);
      assert HexOf(s)[2..] == HexOf(s[1..]);
      assert s == [s[0]] + s[1..];
    }
  }

  predicate SmallHex(c: byte) { '0' as int <= c <= '9' as int || 'a' as int <= c <= 'f' as int }

  predicate CapitalHex(c: byte) { 'A' as int <= c <= 'F' as int }

  /** What decodes: whole pairs of digits and letters of either case. */
  lemma {:induction false} HexDecodes(t: Bytes)
    ensures FromHex(t).Some? <==> |t| % 2 == 0 && forall i :: 0 <= i < |t| ==> SmallHex(t[i]) || CapitalHex(t[i])
    decreases |t|
  {
    if |t| >= 2 {
      HexDecodes(t[2..]);
      assert t == [t[0], t[1]] + t[2..];
    }
  }

  /** The other direction: text in small letters is encoded again as it was. */
  lemma {:induction false} HexComesBack(t: Bytes)
    requires FromHex(t).Some? && forall i :: 0 <= i < |t| ==> SmallHex(t[i])
    ensures HexOf(FromHex(t).value) == t
    decreases |t|
  {
    if t != [] {
      HexComesBack(t[2..]);
      var h, l := DecodeHexChar(t[0]).value, DecodeHexChar(t[1]).value;
      assert FromHex(t).value[1..] == FromHex(t[2..]).value;
      assert (h * 16 + l) / 16 == h && (h * 16 + l) % 16 == l;
      assert t == [t[0], t[1]] + t[2..];
    }
  }

  /** And capitals stand for what small letters do. */
  lemma CapitalsAreSmall(c: byte)
    requires CapitalHex(c)
    ensures DecodeHexChar(c) == DecodeHexChar(c + 32)
  {
  }

  lemma {:induction false} HexOfMore(s: Bytes, c: byte)
    ensures HexOf(s + [c]) == HexOf(s) + [HexChar(c / 16), HexChar(c % 16)]
  {
    if s == [] {
      assert [c][1..] == [];
    } else {
      HexOfMore(s[1..], c);
      assert (s + [c])[1..] == s[1..] + [c];
    }
  }

  method ToHex(str: Bytes) returns (ret: array<byte>)
    ensures fresh(ret) && ret[..] == HexOf(str)
  {
    hide HexOf, HexChar;
    ret := new byte[2 * |str|];
    var j := 0;
    HexOfNone(str[..0]);
    for i := 0 to |str|
      invariant j == 2 * i && ret[..j] == HexOf(str[..i])
    {
      var c := str[i];
      HexOfMore(str[..i], c);
      assert str[..i + 1] == str[..i] + [c];
      ret[j] := HexChar(c / 16);
      ret[j + 1] := HexChar(c % 16);
      j := j + 2;
    }
    assert str[..|str|] == str && ret[..] == ret[..j];
  }

  lemma HexOfNone(s: Bytes)
    requires s == []
    ensures HexOf(s) == []
  {
  }
}
