/** spdlog's pattern compiler: a pattern becomes a list of formatters, each run in turn on every
    message; fields may be padded. */
module PatternFormatters {
  import opened Decimals

  const MAX_WIDTH := 128
  const SIZE_T := 0x1_0000_0000_0000_0000

  datatype Side = Left | Right | Center
  datatype PaddingInfo = PaddingInfo(width: nat, side: Side)

  /** User text, the percent sign, or a field of the message. */
  datatype Formatter = Text(s: string) | PercentSign | Field(flag: char, padding: PaddingInfo)

  const FLAGS := "+nlLtvaAbhBcCYDxmdHIMSefFEprRTXzP^$@s#!"

  /** Three flags are second names of others. */
  function FirstName(flag: char): char {
    match flag
    case 'h' => 'b'
    case 'x' => 'D'
    case 'X' => 'T'
    case _ => flag
  }

  /** handle_flag_: an unknown flag appears as it was written. */
  function HandleFlag(flag: char, padding: PaddingInfo): Formatter {
    if flag == '%' then PercentSign
    else if flag in FLAGS then Field(FirstName(flag), padding)
    else Text(['%', flag])
  }

  // ---- padding ----

  /** pad_it, whose assertion is its precondition. */
  function PadIt(count: nat): (s: string)
    requires count <= MAX_WIDTH
    ensures |s| == count
  {
    seq(count, i => ' ')
  }

  /** scoped_pad around a field that declared `size` characters and wrote `content`. */
  function ScopedPad(content: string, size: nat, padding: PaddingInfo): string
    requires padding.width <= MAX_WIDTH
  {
    if padding.width <= size then content
    else
      var total := padding.width - size;
      match padding.side
      case Left => PadIt(total) + content
      case Right => content + PadIt(total)
      case Center => PadIt(total / 2) + content + PadIt(total / 2 + total % 2)
  }

  /** A field whose declared size is right comes out as wide as asked for, or as wide as it is. */
  lemma PaddedWidth(content: string, padding: PaddingInfo)
    requires padding.width <= MAX_WIDTH
    ensures |ScopedPad(content, |content|, padding)| ==
            if padding.width > |content| then padding.width else |content|
  {
  }

  /** Where the spaces go: in front for Left, behind for Right, and for Center half of them in front, rounded
      down. */
  lemma PaddingIsPlaced(content: string, padding: PaddingInfo)
    requires |content| <= padding.width <= MAX_WIDTH
    ensures var r, spaces := ScopedPad(content, |content|, padding), padding.width - |content|;
            var front := match padding.side case Left => spaces case Right => 0 case Center => spaces / 2;
            && |r| == padding.width && r[front..front + |content|] == content
            && (forall k :: 0 <= k < front ==> r[k] == ' ')
            && (forall k :: front + |content| <= k < |r| ==> r[k] == ' ')
  {
    hide *;
    var spaces := padding.width - |content|;
    var front := match padding.side case Left => spaces case Right => 0 case Center => spaces / 2;
    PaddedParts(content, padding, front);
    SpacesAround(content, front, spaces - front);
  }

  lemma PaddedParts(content: string, padding: PaddingInfo, front: nat)
    requires |content| <= padding.width <= MAX_WIDTH
    requires var spaces := padding.width - |content|;
             front == match padding.side case Left => spaces case Right => 0 case Center => spaces / 2
    ensures ScopedPad(content, |content|, padding) ==
            (PadIt(front) + content) + PadIt(padding.width - |content| - front)
  {
    var spaces := padding.width - |content|;
    NoSpaces(content, PadIt(spaces));
    hide PadIt;
  }

  lemma NoSpaces(content: string, spaces: string)
    ensures PadIt(0) == [] && [] + content == content && content + [] == content
    ensures (spaces + content) + [] == spaces + content
  {
  }

  lemma SpacesAround(content: string, front: nat, back: nat)
    requires front <= MAX_WIDTH && back <= MAX_WIDTH
    ensures var r := (PadIt(front) + content) + PadIt(back);
            && |r| == front + |content| + back && r[front..front + |content|] == content
            && (forall k :: 0 <= k < front ==> r[k] == ' ')
            && (forall k :: front + |content| <= k < |r| ==> r[k] == ' ')
  {
  }

  function SideOf(s: string): Side {
    if s == [] then Left else if s[0] == '-' then Right else if s[0] == '=' then Center else Left
  }

  /** Where the digits of a padding specification start. */
  function SideLength(s: string): nat {
    if s != [] && (s[0] == '-' || s[0] == '=') then 1 else 0
  }

  lemma RunIsDigits(s: string)
    ensures AllDigits(s[..DigitRun(s)])
  {
  }

  /** The padding specification in front of `s`, and the characters it takes. */
  ghost function PadSpec(s: string): (r: (nat, PaddingInfo))
    ensures r.0 <= |s| && r.1.width <= MAX_WIDTH
  {
    var from := SideLength(s);
    var run := DigitRun(s[from..]);
    RunIsDigits(s[from..]);
    var width := ValueOf(s[from..][..run]) % SIZE_T;
    (from + run, PaddingInfo(if width < MAX_WIDTH then width else MAX_WIDTH, SideOf(s)))
  }

  /** Exactly when the width is the one written, up to the cap: short of 2^64, or where it wraps around to
      128 and more all the same. */
  lemma WidthIsExact(s: string)
    ensures AllDigits(s[SideLength(s)..][..DigitRun(s[SideLength(s)..])])
    ensures var v := ValueOf(s[SideLength(s)..][..DigitRun(s[SideLength(s)..])]);
            PadSpec(s).1.width == (if v < MAX_WIDTH then v else MAX_WIDTH) <==> v < SIZE_T || v % SIZE_T >= MAX_WIDTH
  {
    RunIsDigits(s[SideLength(s)..]);
    hide ValueOf, DigitRun;
  }

  lemma OneDigitMore(q: nat, r: nat)
    requires q > 0 && r < 10
    ensures Digits(10 * q + r) == Digits(q) + [Digit(r)]
  {
  }

  lemma FiveDigitsMore(q: nat, a: nat, b: nat, c: nat, d: nat, e: nat)
    requires q > 0 && a < 10 && b < 10 && c < 10 && d < 10 && e < 10
    ensures Digits(((((q * 10 + a) * 10 + b) * 10 + c) * 10 + d) * 10 + e) ==
            Digits(q) + [Digit(a), Digit(b), Digit(c), Digit(d), Digit(e)]
  {
    hide Digits, Digit;
    var q1 := q * 10 + a;
    var q2 := q1 * 10 + b;
    var q3 := q2 * 10 + c;
    var q4 := q3 * 10 + d;
    OneDigitMore(q, a);
    OneDigitMore(q1, b);
    OneDigitMore(q2, c);
    OneDigitMore(q3, d);
    OneDigitMore(q4, e);
  }

  lemma TenDigits(n: nat)
    requires n == 1844674407
    ensures Digits(n) == "18446" + "74407"
  {
    FirstDigits(18446);
    hide Digits;
    FiveDigitsMore(18446, 7, 4, 4, 0, 7);
  }

  lemma FifteenDigits(n: nat)
    requires n == 184467440737095
    ensures Digits(n) == "18446" + "74407" + "37095"
  {
    TenDigits(1844674407);
    hide Digits;
    FiveDigitsMore(1844674407, 3, 7, 0, 9, 5);
  }

  lemma WrittenOut(n: nat, s: string)
    requires n == SIZE_T + 1 && s == "18446" + "74407" + "37095" + "51617"
    ensures Digits(n) == s
  {
    FifteenDigits(184467440737095);
    hide Digits;
    FiveDigitsMore(184467440737095, 5, 1, 6, 1, 7);
  }

  lemma FirstDigits(n: nat)
    requires n == 18446
    ensures Digits(n) == "18446"
  {
    assert n / 10 == 1844 && n / 100 == 184 && n / 1000 == 18 && n / 10000 == 1;
  }

  /** A width that wraps: one more than 2^64 pads to a single character. */
  lemma WideWidthWraps(s: string)
    requires s == "18446" + "74407" + "37095" + "51617"
    ensures PadSpec(s) == (|s|, PaddingInfo(1, Left))
  {
    WrittenOut(SIZE_T + 1, s);
    ValueOfDigits(SIZE_T + 1);
    hide Digits;
    DigitRunIsMaximal(s, |s|);
    assert s[0] != '-' && s[0] != '=' by { assert IsDigit(s[0]); }
    assert s[0..] == s && s[..|s|] == s;
    hide ValueOf, DigitRun;
  }

  lemma WrapsAlong(v: nat, d: nat)
    ensures (v % SIZE_T * 10 + d) % SIZE_T == (10 * v + d) % SIZE_T
  {
    var q, r := v / SIZE_T, v % SIZE_T;
    assert 10 * v + d == 10 * q * SIZE_T + (10 * r + d);
    ModAdds(10 * q, 10 * r + d);
  }

  lemma {:induction false} ModAdds(q: nat, n: nat)
    ensures (q * SIZE_T + n) % SIZE_T == n % SIZE_T
  {
    if q > 0 {
      ModAdds(q - 1, n);
      assert q * SIZE_T + n == SIZE_T + ((q - 1) * SIZE_T + n);
    }
  }

  lemma ValueNext(run: string, k: nat)
    requires AllDigits(run) && k < |run|
    ensures ValueOf(run[..k + 1]) == 10 * ValueOf(run[..k]) + DigitValue(run[k])
  {
    assert run[..k + 1][..k] == run[..k];
  }

  /** The loop over the digits; the width is a size_t and wraps. */
  method ReadWidth(pattern: string, at: nat) returns (next: nat, width: nat)
    requires at <= |pattern|
    ensures next == at + DigitRun(pattern[at..])
    ensures AllDigits(pattern[at..next]) && width == ValueOf(pattern[at..next]) % SIZE_T
  {
    ghost var t := pattern[at..];
    ghost var run := t[..DigitRun(t)];
    RunIsDigits(t);
    hide DigitRun, ValueOf, AllDigits;
    next, width := at, 0;
    ValueOfNone(run[..0]);
    while next < |pattern| && IsDigit(pattern[next])
      invariant at <= next <= at + |run|
      invariant width == ValueOf(run[..next - at]) % SIZE_T
    {
      RunGoesOn(t, next - at);
      ValueNext(run, next - at);
      WrapsAlong(ValueOf(run[..next - at]), DigitValue(pattern[next]));
      width := (width * 10 + DigitValue(pattern[next])) % SIZE_T;
      next := next + 1;
    }
    assert next < |pattern| ==> t[next - at] == pattern[next];
    RunEnds(t, next - at);
    assert pattern[at..next] == run && run[..next - at] == run;
  }

  lemma ValueOfNone(s: string)
    requires s == []
    ensures AllDigits(s) && ValueOf(s) == 0
  {
  }

  lemma RunGoesOn(t: string, k: nat)
    requires k <= DigitRun(t) && k < |t| && IsDigit(t[k])
    ensures k < DigitRun(t)
  {
  }

  lemma SliceOfSlice(s: string, i: nat, j: nat)
    requires i <= j <= |s|
    ensures s[i..][j - i..] == s[j..]
  {
  }

  lemma PrefixOfSlice(s: string, i: nat, j: nat, k: nat)
    requires i <= j <= k <= |s|
    ensures s[i..][j - i..][..k - j] == s[j..k]
  {
    SliceOfSlice(s, i, j);
    assert s[j..][..k - j] == s[j..k];
  }

  lemma RunEnds(t: string, k: nat)
    requires k <= DigitRun(t) && (k == |t| || !IsDigit(t[k]))
    ensures k == DigitRun(t)
  {
  }

  /** handle_padspec_ from position `at`. */
  method HandlePadspec(pattern: string, at: nat) returns (next: nat, padding: PaddingInfo)
    requires at <= |pattern|
    ensures next == at + PadSpec(pattern[at..]).0 && padding == PadSpec(pattern[at..]).1
  {
    hide DigitRun, ValueOf, PadSpec, AllDigits;
    ghost var s := pattern[at..];
    var start := at;
    var side := Left;
    if start < |pattern| && pattern[start] == '-' {
      side := Right;
      start := start + 1;
    } else if start < |pattern| && pattern[start] == '=' {
      side := Center;
      start := start + 1;
    }
    assert at < |pattern| ==> s[0] == pattern[at];
    assert start == at + SideLength(s) && side == SideOf(s);
    SliceOfSlice(pattern, at, start);
    var width;
    next, width := ReadWidth(pattern, start);
    PrefixOfSlice(pattern, start, start, next);
    PadSpecIs(s, start - at, pattern[start..], pattern[start..next]);
    padding := PaddingInfo(if width < MAX_WIDTH then width else MAX_WIDTH, side);
  }

  // ---- compiling ----

  /** The user text collected so far, as a formatter if there is any. */
  function Flush(pending: string): seq<Formatter> {
    if pending == [] then [] else [Text(pending)]
  }

  /** What a pattern compiles to, `pending` being the user text just before it. */
  ghost function Compile(s: string, pending: string): seq<Formatter>
    decreases |s|
  {
    if s == [] then Flush(pending)
    else if s[0] != '%' then Compile(s[1..], pending + [s[0]])
    else
      var (k, padding) := PadSpec(s[1..]);
      var t := s[1 + k..];
      Flush(pending) + if t == [] then [] else [HandleFlag(t[0], padding)] + Compile(t[1..], [])
  }

  lemma CompileText(s: string, pending: string)
    requires s != [] && s[0] != '%'
    ensures Compile(s, pending) == Compile(s[1..], pending + [s[0]])
  {
  }

  lemma CompileFlag(s: string, pending: string)
    requires s != [] && s[0] == '%'
    ensures var t := s[1 + PadSpec(s[1..]).0..];
            Compile(s, pending) == Flush(pending) +
              if t == [] then [] else [HandleFlag(t[0], PadSpec(s[1..]).1)] + Compile(t[1..], [])
  {
  }

  lemma CompileEnd(s: string, pending: string)
    requires s == []
    ensures Compile(s, pending) == Flush(pending)
  {
  }

  method CompilePattern(pattern: string) returns (formatters: seq<Formatter>)
    ensures formatters == Compile(pattern, [])
  {
    hide Compile, Flush, HandleFlag, PadSpec;
    formatters := [];
    var userChars := "";
    var it := 0;
    while it < |pattern|
      invariant 0 <= it <= |pattern|
      invariant formatters + Compile(pattern[it..], userChars) == Compile(pattern, [])
    {
      ghost var s := pattern[it..];
      assert s[1..] == pattern[it + 1..];
      if pattern[it] == '%' {
        CompileFlag(s, userChars);
        ghost var from, was := it, formatters;
        var padding;
        formatters := formatters + Flush(userChars);
        userChars := "";
        it, padding := HandlePadspec(pattern, it + 1);
        assert s[it - from..] == pattern[it..];
        if it == |pattern| {
          return;
        }
        Regroup(was, formatters[|was|..], [HandleFlag(pattern[it], padding)], Compile(pattern[it + 1..], []));
        formatters := formatters + [HandleFlag(pattern[it], padding)];
        assert pattern[it..][1..] == pattern[it + 1..];
      } else {
        CompileText(s, userChars);
        userChars := userChars + [pattern[it]];
      }
      it := it + 1;
    }
    CompileEnd(pattern[it..], userChars);
    formatters := formatters + Flush(userChars);
  }

  lemma Regroup<T>(a: seq<T>, b: seq<T>, c: seq<T>, d: seq<T>)
    ensures a + (b + (c + d)) == ((a + b) + c) + d
  {
  }

  ghost predicate FitsSpaces(f: Formatter) { f.Field? ==> f.padding.width <= MAX_WIDTH }

  /** No pattern compiles to a field wider than the spaces there are to pad it with, so the
      assertion of PadIt never fails. */
  lemma {:induction false} CompiledWidths(s: string, pending: string)
    ensures forall f :: f in Compile(s, pending) ==> FitsSpaces(f)
    decreases |s|
  {
    hide Compile, PadSpec;
    if s == [] {
      CompileEnd(s, pending);
    } else if s[0] != '%' {
      CompileText(s, pending);
      CompiledWidths(s[1..], pending + [s[0]]);
    } else {
      CompileFlag(s, pending);
      var t := s[1 + PadSpec(s[1..]).0..];
      if t != [] {
        CompiledWidths(t[1..], []);
      }
    }
  }

  // ---- rendering ----

  /** Each formatter in turn; `show` stands for the fields of the message. */
  function Render(fs: seq<Formatter>, show: (char, PaddingInfo) -> string): string {
    if fs == [] then []
    else
      (match fs[0]
       case Text(s) => s
       case PercentSign => "%"
       case Field(flag, padding) => show(flag, padding))
      + Render(fs[1..], show)
  }

  function Format(fs: seq<Formatter>, show: (char, PaddingInfo) -> string, eol: string): string {
    Render(fs, show) + eol
  }

  /** Every percent sign doubled. */
  function Escape(text: string): string {
    if text == [] then [] else EscapeChar(text[0]) + Escape(text[1..])
  }

  lemma RenderFirst(f: Formatter, fs: seq<Formatter>, show: (char, PaddingInfo) -> string)
    ensures Render([f] + fs, show) == Render([f], show) + Render(fs, show)
  {
    assert ([f] + fs)[1..] == fs && [f][1..] == [];
  }

  lemma RenderFlush(pending: string, fs: seq<Formatter>, show: (char, PaddingInfo) -> string)
    ensures Render(Flush(pending) + fs, show) == pending + Render(fs, show)
  {
    if pending == [] {
      assert Flush(pending) + fs == fs;
    } else {
      RenderFirst(Text(pending), fs, show);
      assert [Text(pending)][1..] == [];
    }
  }

  /** User text renders as itself, wherever the pattern goes on. */
  lemma {:induction false} PendingIsRendered(s: string, pending: string, show: (char, PaddingInfo) -> string)
    ensures Render(Compile(s, pending), show) == pending + Render(Compile(s, []), show)
    decreases |s|
  {
    hide Compile, Render, PadSpec, HandleFlag;
    if s == [] {
      CompileEnd(s, pending);
      CompileEnd(s, []);
      RenderFlush(pending, [], show);
      RenderFlush([], [], show);
      assert Flush(pending) + [] == Flush(pending) && Flush([]) + [] == [];
    } else if s[0] != '%' {
      CompileText(s, pending);
      CompileText(s, []);
      PendingIsRendered(s[1..], pending + [s[0]], show);
      PendingIsRendered(s[1..], [] + [s[0]], show);
      assert pending + [s[0]] + Render(Compile(s[1..], []), show) == pending + ([] + [s[0]] + Render(Compile(s[1..], []), show));
    } else {
      CompileFlag(s, pending);
      CompileFlag(s, []);
      assert Compile(s, pending) == Flush(pending) + Compile(s, []);
      RenderFlush(pending, Compile(s, []), show);
    }
  }

  /** A doubled percent sign compiles to one, whatever follows. */
  lemma DoubledPercent(s: string, p: string, show: (char, PaddingInfo) -> string)
    requires p == ['%', '%'] + s
    ensures Render(Compile(p, []), show) == ['%'] + Render(Compile(s, []), show)
  {
    assert p[1..] == ['%'] + s;
    assert PadSpec(p[1..]).0 == 0;
    hide PadSpec, Compile, Render;
    CompileFlag(p, []);
    var t := p[1 + PadSpec(p[1..]).0..];
    assert t == p[1..] && t[1..] == s && HandleFlag(t[0], PadSpec(p[1..]).1) == PercentSign;
    assert [] + ([PercentSign] + Compile(s, [])) == [PercentSign] + Compile(s, []);
    RenderFirst(PercentSign, Compile(s, []), show);
    RenderPercent([PercentSign], show);
  }

  lemma RenderPercent(fs: seq<Formatter>, show: (char, PaddingInfo) -> string)
    requires fs == [PercentSign]
    ensures Render(fs, show) == ['%']
  {
    assert fs[1..] == [];
  }

  // ---- fields ----

  lemma RunIsRead(run: string, t: string)
    requires AllDigits(run) && (t != [] ==> !IsDigit(t[0]))
    ensures DigitRun(run + t) == |run| && (run + t)[..|run|] == run
    ensures run != [] ==> (run + t)[0] != '-' && (run + t)[0] != '='
  {
    DigitRunIsMaximal(run + t, |run|);
    hide DigitRun;
    assert run != [] ==> IsDigit((run + t)[0]);
  }

  lemma MarkIsRead(side: Side, mark: string, u: string, s: string)
    requires s == mark + u
    requires mark == match side case Left => "" case Right => "-" case Center => "="
    requires side.Left? && u != [] ==> u[0] != '-' && u[0] != '='
    ensures SideLength(s) == |mark| && SideOf(s) == side && s[|mark|..] == u
  {
  }

  /** The specification, from its parts. */
  lemma PadSpecIs(s: string, from: nat, u: string, run: string)
    requires from == SideLength(s) && u == s[from..] && |run| == DigitRun(u) && run == u[..|run|]
    ensures AllDigits(run) && PadSpec(s) == (from + |run|, PaddingInfo(WidthOf(ValueOf(run)), SideOf(s)))
  {
    RunIsDigits(u);
    hide ValueOf, DigitRun, AllDigits;
  }

  /** The width for a number read: it wraps at 2^64, and is 128 at most. */
  function WidthOf(v: nat): (w: nat)
    ensures w <= MAX_WIDTH
  {
    if v % SIZE_T < MAX_WIDTH then v % SIZE_T else MAX_WIDTH
  }

  /** What a percent sign, a specification and a flag render as, whatever follows: the flags there are show
      a field of the message, `%` one percent sign, and any other appears as written. */
  lemma FieldIsShown(side: Side, mark: string, run: string, flag: char, s: string, p: string,
                     show: (char, PaddingInfo) -> string)
    requires mark == match side case Left => "" case Right => "-" case Center => "="
    requires AllDigits(run) && !IsDigit(flag)
    requires side.Left? && run == [] ==> flag != '-' && flag != '='
    requires p == "%" + mark + run + [flag] + s
    ensures Render(Compile(p, []), show) ==
            (if flag == '%' then "%"
             else if flag == 'h' then show('b', PaddingInfo(WidthOf(ValueOf(run)), side))
             else if flag == 'x' then show('D', PaddingInfo(WidthOf(ValueOf(run)), side))
             else if flag == 'X' then show('T', PaddingInfo(WidthOf(ValueOf(run)), side))
             else if flag in "+nlLtvaAbBcCYDmdHIMSefFEprRTzP^$@s#!" then
               show(flag, PaddingInfo(WidthOf(ValueOf(run)), side))
             else ['%', flag])
            + Render(Compile(s, []), show)
  {
    var t := [flag] + s;
    assert p[1..] == mark + (run + t);
    RunIsRead(run, t);
    MarkIsRead(side, mark, run + t, p[1..]);
    PadSpecIs(p[1..], |mark|, run + t, run);
    var padding := PaddingInfo(WidthOf(ValueOf(run)), side);
    var k := |mark| + |run|;
    assert p[1 + k..] == t && t[1..] == s;
    FlagShown(flag, padding, show);
    hide Compile, Render, PadSpec, HandleFlag, FirstName, WidthOf, ValueOf, Flush;
    CompileFlag(p, []);
    FlushNothing();
    assert [] + ([HandleFlag(flag, padding)] + Compile(s, [])) == [HandleFlag(flag, padding)] + Compile(s, []);
    RenderFirst(HandleFlag(flag, padding), Compile(s, []), show);
  }

  lemma FlushNothing()
    ensures Flush([]) == []
  {
  }

  lemma FlagShown(flag: char, padding: PaddingInfo, show: (char, PaddingInfo) -> string)
    ensures Render([HandleFlag(flag, padding)], show) ==
            (if flag == '%' then "%"
             else if flag == 'h' then show('b', padding)
             else if flag == 'x' then show('D', padding)
             else if flag == 'X' then show('T', padding)
             else if flag in "+nlLtvaAbBcCYDmdHIMSefFEprRTzP^$@s#!" then show(flag, padding)
             else ['%', flag])
  {
    var f := [HandleFlag(flag, padding)];
    assert f[1..] == [];
    RenderOne(f, show);
    SameFlags(flag);
  }

  lemma SameFlags(flag: char)
    ensures flag in FLAGS <==>
              flag in "+nlLtvaAbBcCYDmdHIMSefFEprRTzP^$@s#!" || flag == 'h' || flag == 'x' || flag == 'X'
  {
  }

  lemma RenderOne(fs: seq<Formatter>, show: (char, PaddingInfo) -> string)
    requires |fs| == 1
    ensures Render(fs, show) ==
            match fs[0]
            case Text(s) => s
            case PercentSign => "%"
            case Field(flag, padding) => show(flag, padding)
  {
    assert fs[1..] == [];
  }

  /** A number below 2^64 is the width asked for, up to 128, and a larger one wraps first; with no number
      there is no padding. */
  lemma WidthAsWritten(w: nat)
    ensures WidthOf(ValueOf(Digits(w))) ==
            if w % 0x1_0000_0000_0000_0000 < 128 then w % 0x1_0000_0000_0000_0000 else 128
    ensures w < 0x1_0000_0000_0000_0000 ==> WidthOf(ValueOf(Digits(w))) == if w < 128 then w else 128
    ensures WidthOf(ValueOf("")) == 0
  {
    ValueOfDigits(w);
    hide ValueOf, Digits;
    ValueOfNone("");
  }

  /** A pattern that ends before the flag shows nothing for it. */
  lemma UnfinishedFieldIsDropped(side: Side, mark: string, run: string, p: string, show: (char, PaddingInfo) -> string)
    requires mark == match side case Left => "" case Right => "-" case Center => "="
    requires AllDigits(run) && p == "%" + mark + run
    ensures Render(Compile(p, []), show) == []
  {
    assert p[1..] == mark + (run + []);
    RunIsRead(run, []);
    MarkIsRead(side, mark, run + [], p[1..]);
    PadSpecIs(p[1..], |mark|, run + [], run);
    var k := |mark| + |run|;
    assert p[1 + k..] == [];
    hide Compile, PadSpec, ValueOf;
    CompileFlag(p, []);
  }

  function EscapeChar(c: char): string { if c == '%' then ['%', '%'] else [c] }

  /** One escaped character in front of a pattern. */
  lemma EscapedChar(c: char, rest: string, p: string, show: (char, PaddingInfo) -> string)
    requires p == EscapeChar(c) + rest
    ensures Render(Compile(p, []), show) == [c] + Render(Compile(rest, []), show)
  {
    hide Compile, Render;
    if c == '%' {
      DoubledPercent(rest, p, show);
    } else {
      assert p[1..] == rest;
      CompileText(p, []);
      PendingIsRendered(rest, [] + [c], show);
    }
  }

  lemma Associate<T>(a: seq<T>, b: seq<T>, c: seq<T>)
    ensures (a + b) + c == a + (b + c)
  {
  }

  /** Escaped text in front of any pattern renders verbatim and leaves the pattern's meaning alone. */
  lemma {:induction false} EscapedPrefix(text: string, s: string, show: (char, PaddingInfo) -> string)
    ensures Render(Compile(Escape(text) + s, []), show) == text + Render(Compile(s, []), show)
    decreases |text|
  {
    hide Compile, Render, EscapeChar;
    if text == [] {
      assert Escape(text) + s == s;
    } else {
      var c, rest := text[0], Escape(text[1..]) + s;
      EscapedPrefix(text[1..], s, show);
      Associate(EscapeChar(c), Escape(text[1..]), s);
      EscapedChar(c, rest, Escape(text) + s, show);
      Associate([c], text[1..], Render(Compile(s, []), show));
      assert text == [c] + text[1..];
    }
  }

  /** Text with its percent signs doubled, compiled and rendered, is the text and the end of line. */
  lemma EscapedTextIsVerbatim(text: string, show: (char, PaddingInfo) -> string, eol: string)
    ensures Format(Compile(Escape(text), []), show, eol) == text + eol
  {
    hide Compile, Render, Escape;
    var end := text[|text|..];
    EscapedPrefix(text, end, show);
    assert Escape(text) + end == Escape(text);
    CompileEnd(end, []);
    RenderNone(Compile(end, []), show);
  }

  lemma RenderNone(fs: seq<Formatter>, show: (char, PaddingInfo) -> string)
    requires fs == []
    ensures Render(fs, show) == []
  {
  }
}
