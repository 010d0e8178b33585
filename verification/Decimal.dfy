/** Decimal text: what the digits of a number are, how fmt counts them, writes them two at a time
    with or without thousands separators, and reads them back. */
module Decimals {
  import opened Powers

  const INT_MAX := 0x7FFF_FFFF

  // ---- the reference: base ten, most significant digit first ----

  function Digit(d: nat): char
    requires d < 10
  {
    '0' + d as char
  }

  predicate IsDigit(c: char) { '0' <= c <= '9' }

  function DigitValue(c: char): (d: nat)
    requires IsDigit(c)
    ensures d < 10
  {
    c as nat - '0' as nat
  }

  lemma TheDigits(d: nat, c: char)
    ensures d < 10 ==> Digit(d) == "0123456789"[d]
    ensures IsDigit(c) <==> c in "0123456789"
    ensures d < 10 && c == "0123456789"[d] ==> DigitValue(c) == d
  {
  }

  function Digits(n: nat): (s: string)
    ensures s != [] && AllDigits(s)
  {
    if n < 10 then [Digit(n)] else Digits(n / 10) + [Digit(n % 10)]
  }

  ghost predicate AllDigits(s: string) { forall i :: 0 <= i < |s| ==> IsDigit(s[i]) }

  ghost function ValueOf(s: string): nat
    requires AllDigits(s)
  {
    if s == [] then 0 else 10 * ValueOf(s[..|s| - 1]) + DigitValue(s[|s| - 1])
  }

  lemma {:induction false} ValueOfDigits(n: nat)
    ensures ValueOf(Digits(n)) == n
    ensures Digits(n)[0] == '0' <==> n == 0
  {
    if n >= 10 {
      ValueOfDigits(n / 10);
      var s := Digits(n);
      assert s[..|s| - 1] == Digits(n / 10);
    }
  }

  /** A digit string with no leading zero is the one way to write its value. */
  lemma {:induction false} DigitsOfValue(s: string)
    requires s != [] && AllDigits(s) && (s[0] == '0' ==> |s| == 1)
    ensures Digits(ValueOf(s)) == s
  {
    var init, c := s[..|s| - 1], s[|s| - 1];
    if |s| == 1 {
      assert s == [c] && init == [];
    } else {
      DigitsOfValue(init);
      var v := ValueOf(init);
      assert v > 0 by { ValueOfDigits(v); }
      assert (10 * v + DigitValue(c)) / 10 == v && (10 * v + DigitValue(c)) % 10 == DigitValue(c);
      assert s == init + [c];
    }
  }

  lemma DigitsAreInjective(m: nat, n: nat)
    requires Digits(m) == Digits(n)
    ensures m == n
  {
    ValueOfDigits(m);
    ValueOfDigits(n);
  }

  // ---- counting them ----

  function Pow10(k: nat): (p: nat)
    ensures p > 0
  {
    if k == 0 then 1 else 10 * Pow10(k - 1)
  }

  /** Sixty-four less the number of leading zeros. */
  function BitLength(n: nat): nat {
    if n == 0 then 0 else 1 + BitLength(n / 2)
  }

  const ZERO_OR_POWERS_OF_10: seq<nat> :=
    [0, 10, 100, 1000, 1_0000, 10_0000, 100_0000, 1000_0000, 1_0000_0000, 10_0000_0000,
     100_0000_0000, 1000_0000_0000, 1_0000_0000_0000, 10_0000_0000_0000, 100_0000_0000_0000,
     1000_0000_0000_0000, 1_0000_0000_0000_0000, 10_0000_0000_0000_0000, 100_0000_0000_0000_0000,
     1000_0000_0000_0000_0000]

  /** The product of the bit length with 1233 / 4096, an approximation of log10(2). */
  function Guess(bits: nat): nat { bits * 1233 / 4096 }

  function OrOne(n: nat): nat { if n % 2 == 0 then n + 1 else n }

  /** count_digits with count-leading-zeros. */
  function CountDigits(n: nat): (count: int)
    requires n < Pow2(64)
  {
    BitLengthBound(OrOne(n), 64);
    var t := Guess(BitLength(OrOne(n)));
    t - (if n < ZERO_OR_POWERS_OF_10[t] then 1 else 0) + 1
  }

  lemma {:induction false} BitLengthBound(n: nat, k: nat)
    ensures BitLength(n) <= k <==> n < Pow2(k)
  {
    if n != 0 && k != 0 {
      BitLengthBound(n / 2, k - 1);
    }
  }

  lemma {:induction false} DigitCount(n: nat, d: nat)
    requires d > 0 && n < Pow10(d) && (d > 1 ==> Pow10(d - 1) <= n)
    ensures |Digits(n)| == d
  {
    if d > 1 {
      DigitCount(n / 10, d - 1);
    }
  }

  lemma TableHolds(t: nat)
    requires 0 < t < 20
    ensures ZERO_OR_POWERS_OF_10[t] == Pow10(t)
  {
    assert Pow10(5) == 10_0000;
    assert Pow10(10) == 10_0000 * Pow10(5);
    assert Pow10(15) == 10_0000 * Pow10(10);
  }

  /** The greatest bit length with guess `t`. */
  function Longest(t: nat): nat { (4096 * (t + 1) - 1) / 1233 }

  /** What makes the guess good: the longest numbers with guess `t` reach ten to the `t`, not beyond
      ten to the `t + 1`.  Checked for every `t` from `from` to `to`, on the two powers themselves. */
  predicate Straddles(from: nat, to: nat, power2: nat, power10: nat)
    decreases to - from
  {
    && power10 <= power2 <= 10 * power10
    && (from < to ==>
          Straddles(from + 1, to, (if Longest(from + 1) == Longest(from) + 3 then 8 else 16) * power2, 10 * power10))
  }

  lemma {:induction false} StraddlesAt(t: nat, from: nat, to: nat, power2: nat, power10: nat)
    requires from <= t <= to && Straddles(from, to, power2, power10)
    requires power2 == Pow2(Longest(from)) && power10 == Pow10(from)
    ensures Pow10(t) <= Pow2(Longest(t)) <= Pow10(t + 1)
    decreases t - from
  {
    if from < t {
      Pow2Shift(Longest(from), 3);
      Pow2Shift(Longest(from), 4);
      assert Longest(from + 1) == Longest(from) + 3 || Longest(from + 1) == Longest(from) + 4;
      var factor := if Longest(from + 1) == Longest(from) + 3 then 8 else 16;
      assert Pow2(3) == 8 && Pow2(4) == 16;
      StraddlesAt(t, from + 1, to, factor * power2, 10 * power10);
    }
  }

  lemma StraddlesToTen()
    ensures Straddles(0, 10, 8, 1) && Longest(0) == 3 && Pow2(3) == 8 && Pow10(0) == 1
  {
  }

  lemma StraddlesFromTen()
    ensures Straddles(10, 19, 0x10_0000_0000, 100_0000_0000)
  {
  }

  lemma PowersAtTen()
    ensures Longest(10) == 36 && Pow2(36) == 0x10_0000_0000 && Pow10(10) == 100_0000_0000
  {
    assert Pow2(12) == 0x1000;
    Pow2Shift(12, 12);
    Pow2Shift(24, 12);
    TableHolds(10);
  }

  lemma StraddlesAll(t: nat)
    requires t <= 19
    ensures Pow10(t) <= Pow2(Longest(t)) <= Pow10(t + 1)
  {
    hide *;
    if t <= 10 {
      StraddlesToTen();
      StraddlesAt(t, 0, 10, 8, 1);
    } else {
      StraddlesFromTen();
      PowersAtTen();
      StraddlesAt(t, 10, 19, 0x10_0000_0000, 100_0000_0000);
    }
  }

  /** Numbers of `l` bits have `Guess(l)` digits or one more. */
  lemma Bracketed(l: nat, t: nat)
    requires 0 < l <= 64 && t == Guess(l)
    ensures t <= 19 && Pow2(l) <= Pow10(t + 1)
    ensures t > 0 ==> Pow10(t - 1) <= Pow2(l - 1)
  {
    StraddlesAll(t);
    Pow2Monotone(l, Longest(t));
    if t > 0 {
      StraddlesAll(t - 1);
      Pow2Monotone(Longest(t - 1), l - 1);
    }
  }

  lemma BitLengthOfOrOne(n: nat, l: nat)
    requires n < Pow2(64) && l == BitLength(OrOne(n))
    ensures 0 < l <= 64 && n < Pow2(l) && (l > 1 ==> Pow2(l - 1) <= n)
  {
    hide BitLength, Pow2;
    var m := OrOne(n);
    BitLengthBound(m, 64);
    BitLengthBound(m, l);
    BitLengthBound(m, 0);
    Pow2Step(63);
    Pow2Step(l - 1);
    if l > 1 {
      BitLengthBound(m, l - 1);
      Pow2Step(l - 2);
    }
  }

  /** The fast count is the number of digits, for every 64-bit number. */
  lemma CountIsLength(n: nat)
    requires n < Pow2(64)
    ensures CountDigits(n) == |Digits(n)|
  {
    hide BitLength, OrOne, Pow2, Digits;
    var l := BitLength(OrOne(n));
    var t := Guess(l);
    BitLengthOfOrOne(n, l);
    Bracketed(l, t);
    if t > 0 {
      TableHolds(t);
    }
    DigitCount(n, if n < ZERO_OR_POWERS_OF_10[t] then t else t + 1);
  }

  /** The 32-bit overload has the first ten entries of the table, and needs no more. */
  lemma ShortTableSuffices(n: nat)
    requires n < Pow2(32)
    ensures Guess(BitLength(OrOne(n))) <= 9
  {
    hide BitLength, Pow2;
    Pow2Step(31);
    BitLengthBound(OrOne(n), 32);
  }

  lemma NextDigit(n: nat)
    requires n >= 10
    ensures |Digits(n)| == |Digits(n / 10)| + 1
  {
  }

  lemma TensOfTens(n: nat)
    ensures n / 100 == n / 10 / 10 && n / 1000 == n / 100 / 10 && n / 10000 == n / 1000 / 10
  {
  }

  /** count_digits where no count-leading-zeros is to be had: four digits a turn. */
  method CountDigitsFallback(value: nat) returns (count: nat)
    ensures count == |Digits(value)|
  {
    hide Digits;
    var n := value;
    count := 1;
    while true
      invariant count + |Digits(n)| == 1 + |Digits(value)|
      decreases n
    {
      TensOfTens(n);
      if n < 10 {
        OneDigit(n);
        return;
      }
      NextDigit(n);
      if n < 100 {
        OneDigit(n / 10);
        return count + 1;
      }
      NextDigit(n / 10);
      if n < 1000 {
        OneDigit(n / 100);
        return count + 2;
      }
      NextDigit(n / 100);
      if n < 10000 {
        OneDigit(n / 1000);
        return count + 3;
      }
      NextDigit(n / 1000);
      n := n / 10000;
      count := count + 4;
    }
  }

  lemma OneDigit(n: nat)
    requires n < 10
    ensures |Digits(n)| == 1
  {
  }

  // ---- writing them ----

  /** The table of the digit pairs "00" to "99", character by character. */
  function TableChar(index: nat): char
    requires index < 200
  {
    Digit(if index % 2 == 0 then index / 20 else index / 2 % 10)
  }

  /** The reference: a separator before every group of three digits, counted from the right. */
  function Grouped(s: string, sep: string): string {
    if |s| <= 3 then s else Grouped(s[..|s| - 3], sep) + sep + s[|s| - 3..]
  }

  lemma {:induction false} GroupedLength(s: string, sep: string)
    requires s != []
    ensures |Grouped(s, sep)| == |s| + |sep| * ((|s| - 1) / 3)
  {
    if |s| > 3 {
      OneGroupMore(s, sep);
      hide Grouped;
      GroupedLength(s[..|s| - 3], sep);
      OneSeparatorMore(|s|, |sep|);
    }
  }

  lemma OneSeparatorMore(n: nat, w: nat)
    requires n > 3
    ensures w * ((n - 1) / 3) == w * ((n - 4) / 3) + w
  {
    var groups := (n - 4) / 3;
    assert (n - 1) / 3 == groups + 1;
    assert w * (groups + 1) == w * groups + w;
  }

  /** Counted from the right, every fourth character is the separator, and the three between are the next
      three digits. */
  lemma {:induction false} GroupedAt(s: string, sep: char, q: nat, r: nat)
    requires r < 4 && 4 * q + r < |Grouped(s, [sep])|
    ensures r < 3 ==> 3 * q + r < |s|
    ensures var g := Grouped(s, [sep]);
            g[|g| - 1 - (4 * q + r)] == if r == 3 then sep else s[|s| - 1 - (3 * q + r)]
    decreases q
  {
    if |s| > 3 {
      var init, last := s[..|s| - 3], s[|s| - 3..];
      var h := Grouped(init, [sep]);
      OneGroupMore(s, [sep]);
      hide Grouped;
      assert Grouped(s, [sep]) == h + [sep] + last;
      if q > 0 {
        GroupedAt(init, sep, q - 1, r);
      }
    }
  }

  lemma OneGroupMore(s: string, sep: string)
    requires |s| > 3
    ensures Grouped(s, sep) == Grouped(s[..|s| - 3], sep) + sep + s[|s| - 3..]
  {
  }

  /** What is still to be written, right to left, with `done` digits already down: a separator
      follows every third digit that is not the last. */
  function Remaining(s: string, done: nat, sep: string): string {
    if |s| <= 1 then s
    else Remaining(s[..|s| - 1], done + 1, sep) + SepAfter(done, sep) + [s[|s| - 1]]
  }

  /** add_thousands_sep, called after the digit with `done` digits to its right. */
  function SepAfter(done: nat, sep: string): string {
    if (done + 1) % 3 == 0 then sep else []
  }

  lemma RemainingLast(s: string, done: nat, sep: string)
    requires |s| > 1
    ensures Remaining(s, done, sep) == Remaining(s[..|s| - 1], done + 1, sep) + SepAfter(done, sep) + [s[|s| - 1]]
  {
  }

  lemma OneGroup(s: string, done: nat, sep: string)
    requires |s| > 2 && done % 3 == 0
    ensures Remaining(s, done, sep) ==
            (if |s| == 3 then [] else Remaining(s[..|s| - 3], done + 3, sep) + sep) + s[|s| - 3..]
  {
    hide Remaining;
    var s1 := s[..|s| - 1];
    var s2 := s1[..|s1| - 1];
    RemainingLast(s, done, sep);
    RemainingLast(s1, done + 1, sep);
    assert (done + 1) % 3 == 1 && (done + 2) % 3 == 2 && (done + 3) % 3 == 0;
    assert s[|s| - 3..] == [s[|s| - 3]] + [s[|s| - 2]] + [s[|s| - 1]];
    if |s| == 3 {
      RemainingOfOne(s2, done + 2, sep);
    } else {
      RemainingLast(s2, done + 2, sep);
      assert s2[..|s2| - 1] == s[..|s| - 3];
    }
  }

  lemma RemainingOfOne(s: string, done: nat, sep: string)
    requires |s| <= 1
    ensures Remaining(s, done, sep) == s
  {
  }

  lemma {:induction false} RemainingIsGrouped(s: string, done: nat, sep: string)
    requires done % 3 == 0
    ensures Remaining(s, done, sep) == Grouped(s, sep)
    decreases |s|
  {
    hide Remaining;
    if |s| <= 1 {
      RemainingOfOne(s, done, sep);
    } else if |s| == 2 {
      RemainingLast(s, done, sep);
      RemainingOfOne(s[..1], done + 1, sep);
    } else {
      OneGroup(s, done, sep);
      if |s| > 3 {
        RemainingIsGrouped(s[..|s| - 3], done + 3, sep);
      }
    }
  }

  lemma {:induction false} RemainingWithoutSep(s: string, done: nat)
    ensures Remaining(s, done, []) == s
    decreases |s|
  {
    if |s| > 1 {
      RemainingWithoutSep(s[..|s| - 1], done + 1);
      assert s == s[..|s| - 1] + [s[|s| - 1]];
    }
  }

  /** One digit of the loop. */
  lemma RemainingStep(n: nat, done: nat, sep: string)
    requires n >= 10
    ensures Remaining(Digits(n), done, sep) ==
            Remaining(Digits(n / 10), done + 1, sep) + SepAfter(done, sep) + [Digit(n % 10)]
  {
    assert Digits(n)[..|Digits(n)| - 1] == Digits(n / 10);
  }

  lemma LastPair(n: nat, done: nat, sep: string)
    requires n < 100
    ensures Remaining(Digits(n), done, sep) ==
            if n < 10 then [Digit(n)] else [Digit(n / 10)] + SepAfter(done, sep) + [Digit(n % 10)]
  {
    if n >= 10 {
      RemainingStep(n, done, sep);
    }
  }

  lemma PairOfIndex(i: nat)
    requires i < 100
    ensures TableChar(2 * i) == Digit(i / 10) && TableChar(2 * i + 1) == Digit(i % 10)
  {
  }

  lemma LowPair(n: nat)
    ensures n % 100 / 10 == n / 10 % 10 && n % 100 % 10 == n % 10
  {
    var q, r := n / 100, n % 100;
    assert n == 10 * (10 * q + r / 10) + r % 10;
  }

  lemma Regroup<T>(a: seq<T>, b: seq<T>, c: seq<T>, d: seq<T>, e: seq<T>, f: seq<T>)
    ensures ((a + b + c) + d + e) + f == a + (b + (c + (d + (e + f))))
  {
  }

  lemma PairInFront<T>(a: seq<T>, b: seq<T>, c: seq<T>, d: seq<T>)
    ensures (a + b + c) + d == a + (b + (c + d))
  {
  }

  /** The buffer being written backwards from `end`, and the separator functor's digit count. */
  class DecimalWriter {
    const buffer: array<char>
    const sep: string
    const end: nat
    var at: nat
    var digitIndex: nat

    ghost predicate Valid()
      reads this
    {
      at <= end <= buffer.Length
    }

    /** What has been written so far. */
    ghost function Written(): string
      requires Valid()
      reads this, buffer
    {
      buffer[at..end]
    }

    /** Nothing outside the text changes. */
    twostate predicate Untouched()
      reads this, buffer
    {
      forall i :: 0 <= i < buffer.Length && !(at <= i < end) ==> buffer[i] == old(buffer[i])
    }

    constructor (buffer: array<char>, sep: string, end: nat)
      requires end <= buffer.Length
      ensures Valid() && this.buffer == buffer && this.sep == sep && this.end == end == at && digitIndex == 0
    {
      this.buffer, this.sep, this.end, this.at, this.digitIndex := buffer, sep, end, end, 0;
    }

    method Put(c: char)
      requires Valid() && at > 0
      modifies this`at, buffer
      ensures Valid() && at == old(at) - 1 && Written() == [c] + old(Written())
      ensures Untouched()
    {
      at := at - 1;
      buffer[at] := c;
    }

    method PutAll(s: string)
      requires Valid() && at >= |s|
      modifies this`at, buffer
      ensures Valid() && at == old(at) - |s| && Written() == s + old(Written())
      ensures Untouched()
    {
      ghost var was, before := buffer[at..end], at;
      at := at - |s|;
      forall i | 0 <= i < |s| { buffer[at + i] := s[i]; }
      assert buffer[at..before] == s && buffer[before..end] == was;
      assert buffer[at..end] == buffer[at..before] + buffer[before..end];
    }

    method ThousandsSep()
      requires Valid() && at >= |SepAfter(digitIndex, sep)|
      modifies this`at, this`digitIndex, buffer
      ensures Valid() && digitIndex == old(digitIndex) + 1
      ensures Written() == SepAfter(old(digitIndex), sep) + old(Written())
      ensures at == old(at) - |SepAfter(old(digitIndex), sep)|
      ensures Untouched()
    {
      digitIndex := digitIndex + 1;
      if digitIndex % 3 != 0 {
        return;
      }
      PutAll(sep);
    }

    /** One turn of the loop: two digits off the table, a separator call after each. */
    method PutPair(index: nat, ghost value: nat)
      requires Valid() && index == value % 100 && value >= 100
      requires at >= |Remaining(Digits(value), digitIndex, sep)|
      modifies this`at, this`digitIndex, buffer
      ensures Valid() && digitIndex == old(digitIndex) + 2
      ensures at >= |Remaining(Digits(value / 100), digitIndex, sep)|
      ensures Remaining(Digits(value / 100), digitIndex, sep) + Written() ==
              Remaining(Digits(value), old(digitIndex), sep) + old(Written())
      ensures at <= old(at)
      ensures Untouched()
    {
      hide Remaining, Digits, SepAfter, TableChar, Digit;
      TensOfTens(value);
      RemainingStep(value, digitIndex, sep);
      RemainingStep(value / 10, digitIndex + 1, sep);
      PairOfIndex(index);
      LowPair(value);
      ghost var rest := Remaining(Digits(value / 100), digitIndex + 2, sep);
      ghost var was, done := Written(), digitIndex;
      var low, high := TableChar(2 * index + 1), TableChar(2 * index);
      Put(low);
      ThousandsSep();
      Put(high);
      ThousandsSep();
      Regroup(rest, SepAfter(done + 1, sep), [high], SepAfter(done, sep), [low], was);
    }

    /** What follows the loop: the last digit or pair, with nothing after it. */
    method Finish(value: nat)
      requires Valid() && value < 100 && at >= |Remaining(Digits(value), digitIndex, sep)|
      modifies this`at, this`digitIndex, buffer
      ensures Valid() && Written() == Remaining(Digits(value), old(digitIndex), sep) + old(Written())
      ensures at <= old(at)
      ensures Untouched()
    {
      hide Remaining, Digits, SepAfter, TableChar, Digit;
      LastPair(value, digitIndex, sep);
      ghost var was, done := Written(), digitIndex;
      if value < 10 {
        Put(Digit(value));
        return;
      }
      PairOfIndex(value);
      var low, high := TableChar(2 * value + 1), TableChar(2 * value);
      Put(low);
      ThousandsSep();
      Put(high);
      PairInFront([high], SepAfter(done, sep), [low], was);
    }
  }

  /** format_decimal: the text of `value` ends where `numDigits` cells from `start` end, and no other
      cell is touched.  Callers reserve the cells with SizeOf. */
  method FormatDecimal(buffer: array<char>, start: nat, value: nat, numDigits: nat, sep: string) returns (end: nat)
    requires start + numDigits <= buffer.Length && |Grouped(Digits(value), sep)| <= numDigits
    modifies buffer
    ensures end == start + numDigits
    ensures buffer[end - |Grouped(Digits(value), sep)|..end] == Grouped(Digits(value), sep)
    ensures forall i :: 0 <= i < buffer.Length && !(end - |Grouped(Digits(value), sep)| <= i < end) ==>
              buffer[i] == old(buffer[i])
  {
    hide Digits, Remaining, Grouped, TableChar, SepAfter, Digit;
    end := start + numDigits;
    var w := new DecimalWriter(buffer, sep, end);
    var v := value;
    RemainingIsGrouped(Digits(value), 0, sep);
    while v >= 100
      invariant w.Valid() && w.buffer == buffer && w.sep == sep && w.end == end
      invariant Remaining(Digits(v), w.digitIndex, sep) + w.Written() == Grouped(Digits(value), sep)
      invariant w.at >= |Remaining(Digits(v), w.digitIndex, sep)|
      invariant forall i :: 0 <= i < buffer.Length && !(w.at <= i < end) ==> buffer[i] == old(buffer[i])
    {
      w.PutPair(v % 100, v);
      v := v / 100;
    }
    w.Finish(v);
  }

  /** The cells on_dec and on_num reserve: the counted digits and one separator per full group. */
  function SizeOf(n: nat, sep: string): int
    requires n < Pow2(64)
  {
    CountDigits(n) + |sep| * ((CountDigits(n) - 1) / 3)
  }

  lemma SizeIsExact(n: nat, sep: string)
    requires n < Pow2(64)
    ensures SizeOf(n, sep) == |Grouped(Digits(n), sep)|
  {
    CountIsLength(n);
    GroupedLength(Digits(n), sep);
  }

  /** The local buffer of the iterator form of format_decimal, `maxDigits` cells and a third of that for
      separators, where `maxDigits` is the most digits the type can have. */
  function LocalBuffer(maxDigits: nat): nat { maxDigits + maxDigits / 3 }

  /** It always holds the text: digits and separators of one character, for every number of the type. */
  lemma LocalBufferHolds(n: nat, sep: string, maxDigits: nat)
    requires n < Pow2(64) && |Digits(n)| <= maxDigits && |sep| <= 1
    ensures SizeOf(n, sep) <= LocalBuffer(maxDigits)
  {
    CountIsLength(n);
    hide CountDigits, Digits;
    var d := |Digits(n)|;
    assert d - 1 <= maxDigits && (d - 1) / 3 <= maxDigits / 3;
    assert |sep| == 0 || |sep| == 1;
  }

  /** The most digits of the two unsigned types: one more than digits10 says. */
  lemma MostDigits(n: nat)
    ensures n < Pow2(64) ==> |Digits(n)| <= 20
    ensures n < Pow2(32) ==> |Digits(n)| <= 10
  {
    hide Digits;
    if n < Pow2(64) { DigitsBelow(n, 64); }
    if n < Pow2(32) { DigitsBelow(n, 32); }
  }

  /** Numbers of at most `bits` bits have at most one digit more than the guess for that length. */
  lemma DigitsBelow(n: nat, bits: nat)
    requires 0 < bits <= 64 && n < Pow2(bits)
    ensures |Digits(n)| <= Guess(bits) + 1
  {
    hide Digits, Pow2, Longest;
    Bracketed(bits, Guess(bits));
    AtMost(n, Guess(bits) + 1);
  }

  lemma {:induction false} AtMost(n: nat, d: nat)
    requires d > 0 && n < Pow10(d)
    ensures |Digits(n)| <= d
  {
    if n >= 10 {
      AtMost(n / 10, d - 1);
    }
  }

  /** Without a separator the text is the plain digits. */
  lemma PlainText(n: nat)
    ensures Grouped(Digits(n), []) == Digits(n)
  {
    RemainingIsGrouped(Digits(n), 0, []);
    RemainingWithoutSep(Digits(n), 0);
  }

  // ---- reading them ----

  /** The length of the run of digits at the start of `s`. */
  function DigitRun(s: string): (k: nat)
    ensures k <= |s| && (k < |s| ==> !IsDigit(s[k]))
    ensures forall i :: 0 <= i < k ==> IsDigit(s[i])
  {
    if s == [] || !IsDigit(s[0]) then 0 else 1 + DigitRun(s[1..])
  }

  datatype Parsed = Number(value: nat, consumed: nat) | TooBig

  /** What parse_nonnegative_int promises: a zero stands alone; any other run of digits is read to
      its end, unless its value is no int. */
  ghost function ParseInt(s: string): Parsed
    requires s != [] && IsDigit(s[0])
  {
    var k := DigitRun(s);
    if s[0] == '0' then Number(0, 1)
    else if ValueOf(s[..k]) <= INT_MAX then Number(ValueOf(s[..k]), k)
    else TooBig
  }

  lemma {:induction false} LongerIsMore(s: string, k: nat)
    requires AllDigits(s) && k <= |s|
    ensures ValueOf(s[..k]) <= ValueOf(s)
    decreases |s| - k
  {
    if k < |s| {
      assert s[..k + 1][..k] == s[..k];
      LongerIsMore(s, k + 1);
    } else {
      assert s[..k] == s;
    }
  }

  /** parse_nonnegative_int on 32-bit unsigned arithmetic; nothing in it ever wraps. */
  method ParseNonnegativeInt(s: string) returns (r: Parsed)
    requires s != [] && IsDigit(s[0])
    ensures r == ParseInt(s)
  {
    if s[0] == '0' {
      return Number(0, 1);
    }
    var value, begin := 0, 0;
    var big := INT_MAX / 10;
    ghost var k := DigitRun(s);
    while true
      invariant 0 <= begin < k
      invariant value == ValueOf(s[..begin]) && value < 0x1_0000_0000
      decreases k - begin
    {
      assert s[..begin + 1][..begin] == s[..begin];
      assert s[..k][..begin + 1] == s[..begin + 1];
      LongerIsMore(s[..k], begin + 1);
      if value > big {
        value := INT_MAX + 1;
        break;
      }
      assert value * 10 + 9 < 0x1_0000_0000;
      value := value * 10 + DigitValue(s[begin]);
      begin := begin + 1;
      if begin == |s| || !IsDigit(s[begin]) {
        DigitRunIsMaximal(s, begin);
        break;
      }
      DigitRunIsMaximal(s, begin);
    }
    return if value > INT_MAX then TooBig else Number(value, begin);
  }

  /** The run ends at the first position that is no digit. */
  lemma {:induction false} DigitRunIsMaximal(s: string, k: nat)
    requires k <= |s| && forall i :: 0 <= i < k ==> IsDigit(s[i])
    ensures k <= DigitRun(s)
    ensures k == DigitRun(s) <==> k == |s| || !IsDigit(s[k])
  {
    if k > 0 {
      DigitRunIsMaximal(s[1..], k - 1);
    }
  }

  /** A zero stands alone, whatever follows it, digits included. */
  lemma ZeroStandsAlone(s: string, rest: string)
    requires s == "0" + rest
    ensures ParseInt(s) == Number(0, 1)
  {
  }

  /** Reading what was written gives the number back, up to the largest int; anything larger is
      refused. */
  lemma WrittenIsReadBack(n: nat, rest: string)
    requires rest != [] ==> !IsDigit(rest[0])
    ensures ParseInt(Digits(n) + rest) == if n <= 0x7FFF_FFFF then Number(n, |Digits(n)|) else TooBig
  {
    var s := Digits(n) + rest;
    DigitRunIsMaximal(s, |Digits(n)|);
    assert s[..|Digits(n)|] == Digits(n);
    ValueOfDigits(n);
    if n == 0 {
      assert Digits(0) == [Digit(0)];
    }
  }
}
