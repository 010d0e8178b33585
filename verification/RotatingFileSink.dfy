/** spdlog's rotating file sink: a chain of files, the live one first, shifted down by one whenever
    the next message would make the live file too long.  A rename is tried twice and may fail; opens
    and writes succeed here. */
module RotatingFileSinks {
  import opened ByteStrings
  import opened Wrappers
  import opened Decimals

  // ---- names ----

  const FOLDER_SEP := '/'

  /** The last position of `c` in `s`. */
  function RFind(s: string, c: char): (r: Option<nat>)
    ensures r.None? ==> c !in s
    ensures r.Some? ==> r.value < |s| && s[r.value] == c && c !in s[r.value + 1..]
  {
    if s == [] then None
    else if s[|s| - 1] == c then Some(|s| - 1)
    else RFind(s[..|s| - 1], c)
  }

  /** file_helper::split_by_extension. */
  function SplitByExtension(name: string): (r: (string, string))
    ensures r.0 + r.1 == name
    ensures r.1 != [] ==> |r.1| > 1 && r.1[0] == '.' && '.' !in r.1[1..] && '/' !in r.1
    ensures r.1 != [] ==> r.0 != [] && r.0[|r.0| - 1] != '/'
  {
    var dot := RFind(name, '.');
    if dot.None? || dot.value == 0 || dot.value == |name| - 1 then (name, [])
    else
      var folder := RFind(name, FOLDER_SEP);
      if folder.Some? && folder.value >= dot.value - 1 then (name, [])
      else (name[..dot.value], name[dot.value..])
  }

  lemma {:induction false} RFindIs(s: string, c: char, k: nat)
    requires k < |s| && s[k] == c && c !in s[k + 1..]
    ensures RFind(s, c) == Some(k)
  {
    if k < |s| - 1 {
      assert s[|s| - 1] == s[k + 1..][|s| - k - 2];
      var t := s[..|s| - 1];
      assert t[k + 1..] == s[k + 1..][..|s| - k - 2];
      RFindIs(t, c, k);
    }
  }

  /** Nothing else is cut off: a name that can be cut that way is, at that place. */
  lemma SplitIsComplete(name: string, base: string, ext: string)
    requires base + ext == name && base != [] && base[|base| - 1] != '/'
    requires |ext| > 1 && ext[0] == '.' && '.' !in ext[1..] && '/' !in ext
    ensures SplitByExtension(name) == (base, ext)
  {
    var n := |base|;
    assert name[..n] == base && name[n..] == ext && name[n + 1..] == ext[1..];
    assert name[n] == '.';
    RFindIs(name, '.', n);
    var folder := RFind(name, FOLDER_SEP);
    if folder.Some? {
      assert name[folder.value] == (base + ext)[folder.value];
      assert folder.value < n - 1;
    }
  }

  /** calc_filename. */
  function CalcFilename(name: string, index: nat): string {
    if index == 0 then name
    else SplitByExtension(name).0 + "." + Digits(index) + SplitByExtension(name).1
  }

  /** The number goes in front of the extension: log.txt, log.1.txt, log.2.txt, ... */
  lemma NumberBeforeExtension(name: string, base: string, ext: string, index: nat)
    requires base + ext == name && base != [] && base[|base| - 1] != '/'
    requires |ext| > 1 && ext[0] == '.' && '.' !in ext[1..] && '/' !in ext
    ensures CalcFilename(name, 0) == name
    ensures index > 0 ==>
              && CalcFilename(name, index) == base + "." + Digits(index) + ext
              && SplitByExtension(CalcFilename(name, index)) == (base + "." + Digits(index), ext)
  {
    hide Digits, SplitByExtension;
    SplitIsComplete(name, base, ext);
    if index > 0 {
      var d := Digits(index);
      var numbered := base + "." + d;
      assert numbered[|numbered| - 1] == d[|d| - 1] && IsDigit(d[|d| - 1]);
      SplitIsComplete(numbered + ext, numbered, ext);
    }
  }

  /** And at the end of a name that has none: no dot in its last part but in front or at the end. */
  lemma NumberAtTheEnd(name: string, index: nat)
    requires forall k :: 0 < k < |name| - 1 && name[k] == '.' && '.' !in name[k + 1..] ==>
               '/' in name[k + 1..] || name[k - 1] == '/'
    requires index > 0
    ensures CalcFilename(name, index) == name + "." + Digits(index)
  {
    hide Digits, SplitByExtension;
    ExtensionIsThere(name);
    assert name + "." + Digits(index) + [] == name + "." + Digits(index);
  }

  lemma ExtensionIsThere(name: string)
    ensures var (base, ext) := SplitByExtension(name);
            if ext == [] then base == name
            else
              && 0 < |base| < |name| - 1 && name[|base|] == '.' && '.' !in name[|base| + 1..]
              && '/' !in name[|base| + 1..] && name[|base| - 1] != '/'
  {
    var (base, ext) := SplitByExtension(name);
    if ext == [] {
      assert base + [] == base;
    } else {
      assert name[|base|] == ext[0] && name[|base| + 1..] == ext[1..];
    }
  }

  lemma NumberedExample(name: string)
    requires name == "logs/mylog.txt"
    ensures CalcFilename(name, 3) == "logs/mylog.3.txt"
  {
    hide CalcFilename, SplitByExtension, Digits;
    var base, ext := "logs/mylog", ".txt";
    assert base[|base| - 1] == 'g' && ext[1..] == "txt";
    NumberBeforeExtension(name, base, ext, 3);
    DigitsOfThree(3);
  }

  lemma DigitsOfThree(n: nat)
    requires n == 3
    ensures Digits(n) == "3"
  {
  }

  lemma NumberedNameIsLonger(name: string, i: nat)
    requires i != 0
    ensures |CalcFilename(name, i)| > |name|
  {
  }

  /** Distinct indices never share a name. */
  lemma NamesAreDistinct(name: string, i: nat, j: nat)
    ensures CalcFilename(name, i) == CalcFilename(name, j) <==> i == j
  {
    hide Digits, SplitByExtension;
    if i == 0 || j == 0 {
      if i != 0 { NumberedNameIsLonger(name, i); }
      if j != 0 { NumberedNameIsLonger(name, j); }
    } else if CalcFilename(name, i) == CalcFilename(name, j) {
      var (base, ext) := SplitByExtension(name);
      var d, f := Digits(i), Digits(j);
      var x, y := base + "." + d + ext, base + "." + f + ext;
      assert |d| == |f|;
      assert d == x[|base| + 1..|base| + 1 + |d|] && f == y[|base| + 1..|base| + 1 + |f|];
      DigitsAreInjective(i, j);
    }
  }

  // ---- the chain of files ----

  /** A file is the messages written to it, one after the other. */
  type File = seq<Bytes>

  function Size(f: File): nat {
    if f == [] then 0 else Size(f[..|f| - 1]) + |f[|f| - 1]|
  }

  /** The files by index -- the live file is 0, larger is older -- and the size counted. */
  datatype Log = Log(chain: seq<Option<File>>, currentSize: nat) {
    /** An open live file, whose size is the one counted. */
    ghost predicate Valid() {
      chain != [] && chain[0].Some? && currentSize == Size(chain[0].value)
    }
  }

  function Content(f: Option<File>): File {
    if f.Some? then f.value else []
  }

  /** Everything in the first `n` files, oldest first. */
  function Reading(chain: seq<Option<File>>, n: nat): File
    requires n <= |chain|
  {
    if n == 0 then [] else Content(chain[n - 1]) + Reading(chain, n - 1)
  }

  /** Where the file that ends up at index `k` comes from. */
  function ShiftedAt(chain: seq<Option<File>>, k: nat): Option<File>
    requires k < |chain|
  {
    if k == 0 then Some([])
    else if chain[k - 1].Some? then chain[k - 1]
    else if k == |chain| - 1 then chain[k]
    else None
  }

  function Shifted(chain: seq<Option<File>>): (c: seq<Option<File>>)
    ensures |c| == |chain|
  {
    seq(|chain|, k requires 0 <= k < |chain| => ShiftedAt(chain, k))
  }

  /** Every file moves on by one place, over no other: what comes after a gap is a gap, but for the last
      place, which nothing leaves. */
  lemma FilesMoveOn(chain: seq<Option<File>>, k: nat)
    requires k < |chain|
    ensures Shifted(chain)[0] == Some([])
    ensures k + 1 < |chain| && chain[k].Some? ==> Shifted(chain)[k + 1] == chain[k]
    ensures k + 2 < |chain| && chain[k].None? ==> Shifted(chain)[k + 1] == None
    ensures k + 2 == |chain| && chain[k].None? ==> Shifted(chain)[k + 1] == chain[k + 1]
  {
  }

  /** What a rotation deletes: the oldest file of a full chain, and nothing otherwise. */
  function Dropped(chain: seq<Option<File>>): File
    requires chain != []
  {
    var n := |chain|;
    if n == 1 || chain[n - 2].Some? then Content(chain[n - 1]) else []
  }

  lemma {:induction false} ShiftKeepsTail(chain: seq<Option<File>>, n: nat)
    requires 0 < n < |chain|
    ensures Reading(Shifted(chain), n) == Reading(chain, n - 1)
  {
    if n > 1 {
      ShiftKeepsTail(chain, n - 1);
    } else {
      assert Reading(Shifted(chain), 0) == [];
    }
  }

  lemma ReadOneMore(chain: seq<Option<File>>, n: nat)
    requires n < |chain|
    ensures Reading(chain, n + 1) == Content(chain[n]) + Reading(chain, n)
    ensures Reading(chain, 0) == []
  {
  }

  lemma Associate<T>(a: seq<T>, b: seq<T>, c: seq<T>)
    ensures a + (b + c) == (a + b) + c && [] + a == a
  {
  }

  lemma LastMoves(chain: seq<Option<File>>, r: File)
    requires |chain| > 1
    ensures var n := |chain|;
            Content(chain[n - 1]) + (Content(chain[n - 2]) + r) == Dropped(chain) + (Content(ShiftedAt(chain, n - 1)) + r)
  {
    if chain[|chain| - 2].None? {
      Associate(Content(chain[|chain| - 1]) + r, r, r);
      Associate(r, r, r);
    }
  }

  lemma OnlyLiveFile(chain: seq<Option<File>>)
    requires |chain| == 1
    ensures Reading(chain, 1) == Dropped(chain) + Reading(Shifted(chain), 1)
  {
    assert Reading(chain, 0) == [] && Reading(Shifted(chain), 0) == [];
  }

  lemma LastShifted(chain: seq<Option<File>>)
    requires chain != []
    ensures Shifted(chain)[|chain| - 1] == ShiftedAt(chain, |chain| - 1)
  {
  }

  /** A rotation loses the dropped file, if any, off the old end, and nothing else. */
  lemma RotationDropsOldest(chain: seq<Option<File>>)
    requires chain != []
    ensures Reading(chain, |chain|) == Dropped(chain) + Reading(Shifted(chain), |chain|)
  {
    hide Reading, Dropped, ShiftedAt, Content, Shifted;
    var last, s := |chain| - 1, Shifted(chain);
    if last == 0 {
      OnlyLiveFile(chain);
    } else {
      ReadOneMore(chain, last);
      ReadOneMore(s, last);
      ReadOneMore(chain, last - 1);
      ShiftKeepsTail(chain, last);
      LastShifted(chain);
      LastMoves(chain, Reading(s, last));
    }
  }

  /** Renames tried for each index: how many of the attempts at it fail. */
  type Luck = nat -> nat

  /** The index, from `i` down, whose rename fails for good; 0 when none does. */
  function StuckAt(chain: seq<Option<File>>, luck: Luck, i: nat): (k: nat)
    requires i < |chain|
    ensures k <= i
    ensures k > 0 ==> chain[k - 1].Some? && luck(k) >= 2
  {
    if i == 0 then 0
    else if chain[i - 1].Some? && luck(i) > 1 then i
    else StuckAt(chain, luck, i - 1)
  }

  /** It is the first, from the old end, whose rename fails twice. */
  lemma {:induction false} StuckAtTheFirst(chain: seq<Option<File>>, luck: Luck, i: nat, j: nat)
    requires i < |chain|
    ensures StuckAt(chain, luck, i) > 0 ==>
              chain[StuckAt(chain, luck, i) - 1].Some? && luck(StuckAt(chain, luck, i)) >= 2
    ensures StuckAt(chain, luck, i) < j <= i ==> chain[j - 1].None? || luck(j) <= 1
  {
    if i > 0 { StuckAtTheFirst(chain, luck, i - 1, j); }
  }

  /** What a rotation that fails at index `i` leaves: above, all is shifted; at `i`, nothing; below,
      all as it was, but for the live file, which is emptied. */
  function Jammed(chain: seq<Option<File>>, i: nat): (c: seq<Option<File>>)
    requires 0 < i < |chain|
    ensures |c| == |chain|
  {
    seq(|chain|, k requires 0 <= k < |chain| =>
      if k > i then ShiftedAt(chain, k) else if k == i then None else if k > 0 then chain[k] else Some([]))
  }

  lemma JammedAt(chain: seq<Option<File>>, i: nat, k: nat)
    requires 0 < i < |chain| && k < |chain|
    ensures k > i ==> Jammed(chain, i)[k] == ShiftedAt(chain, k)
    ensures k == i ==> Jammed(chain, i)[k] == None
    ensures 0 < k < i ==> Jammed(chain, i)[k] == chain[k]
    ensures k == 0 ==> Jammed(chain, i)[k] == Some([])
  {
  }

  /** Down to the jam every file has moved on, and below it none has. */
  lemma FilesMoveToTheJam(chain: seq<Option<File>>, i: nat, k: nat)
    requires 0 < i < |chain| && k < |chain|
    ensures k < |chain| - 1 && k >= i && chain[k].Some? ==> Jammed(chain, i)[k + 1] == chain[k]
    ensures k < |chain| - 2 && k >= i && chain[k].None? ==> Jammed(chain, i)[k + 1] == None
    ensures k == |chain| - 2 && k >= i && chain[k].None? ==> Jammed(chain, i)[k + 1] == chain[k + 1]
    ensures 0 < k < i ==> Jammed(chain, i)[k] == chain[k]
    ensures Jammed(chain, i)[i] == None && Jammed(chain, i)[0] == Some([])
  {
  }

  /** Below the jam only the live file has changed. */
  lemma {:induction false} BelowTheJam(chain: seq<Option<File>>, i: nat, n: nat)
    requires 0 < n <= i < |chain|
    ensures Reading(chain, n) == Reading(Jammed(chain, i), n) + Content(chain[0])
  {
    hide Reading, Jammed;
    var j := Jammed(chain, i);
    JammedAt(chain, i, n - 1);
    ReadOneMore(chain, n - 1);
    ReadOneMore(j, n - 1);
    if n > 1 {
      BelowTheJam(chain, i, n - 1);
      Associate(Content(chain[n - 1]), Reading(j, n - 1), Content(chain[0]));
    } else {
      assert Content(chain[0]) + [] == [] + Content(chain[0]);
    }
  }

  /** Above the jam every file has moved by one place. */
  lemma {:induction false} AboveTheJam(chain: seq<Option<File>>, i: nat, n: nat)
    requires 0 < i <= n < |chain| && (n < |chain| - 1 || n == i)
    ensures Reading(chain, n) == Reading(Jammed(chain, i), n + 1) + Content(chain[0])
    decreases n
  {
    hide Reading, Jammed;
    var j := Jammed(chain, i);
    JammedAt(chain, i, n);
    ReadOneMore(j, n);
    if n == i {
      BelowTheJam(chain, i, n);
      assert [] + Reading(j, n) == Reading(j, n);
    } else {
      AboveTheJam(chain, i, n - 1);
      ReadOneMore(chain, n - 1);
      Associate(Content(chain[n - 1]), Reading(j, n), Content(chain[0]));
    }
  }

  lemma LiveFileAside(chain: seq<Option<File>>, r: File)
    requires |chain| > 1
    ensures var n, live := |chain|, Content(chain[0]);
            Content(chain[n - 1]) + (Content(chain[n - 2]) + (r + live)) ==
              (Dropped(chain) + (Content(ShiftedAt(chain, n - 1)) + r)) + live
  {
    hide Content, Dropped, ShiftedAt;
    var n, live := |chain|, Content(chain[0]);
    var moved := Content(ShiftedAt(chain, n - 1));
    LastMoves(chain, r + live);
    Associate(moved, r, live);
    Associate(Dropped(chain), moved + r, live);
  }

  lemma JamAtLast(chain: seq<Option<File>>)
    requires |chain| > 1 && chain[|chain| - 2].Some?
    ensures var n := |chain|;
            Reading(chain, n) == (Dropped(chain) + Reading(Jammed(chain, n - 1), n)) + Content(chain[0])
  {
    hide Reading, Jammed;
    var last := |chain| - 1;
    ReadOneMore(chain, last);
    AboveTheJam(chain, last, last);
    Associate(Content(chain[last]), Reading(Jammed(chain, last), last + 1), Content(chain[0]));
  }

  /** A rotation that fails for good loses the live file too, besides what every rotation deletes. */
  lemma JamLosesLiveFile(chain: seq<Option<File>>, i: nat)
    requires 0 < i < |chain| && chain[i - 1].Some?
    ensures Reading(chain, |chain|) == (Dropped(chain) + Reading(Jammed(chain, i), |chain|)) + Content(chain[0])
  {
    hide Reading, Jammed, Dropped, ShiftedAt, Content;
    var last, j := |chain| - 1, Jammed(chain, i);
    if i == last {
      JamAtLast(chain);
    } else {
      ReadOneMore(chain, last);
      AboveTheJam(chain, i, last - 1);
      ReadOneMore(chain, last - 1);
      ReadOneMore(j, last);
      JammedAt(chain, i, last);
      LiveFileAside(chain, Reading(j, last));
    }
  }

  /** A formatted message with no rename in the way. */
  function Sunk(log: Log, maxSize: nat, m: Bytes): (r: Log)
    requires log.Valid()
    ensures |r.chain| == |log.chain|
  {
    var size := log.currentSize + |m|;
    if size > maxSize then Appended(Log(Shifted(log.chain), |m|), m)
    else Appended(Log(log.chain, size), m)
  }

  /** The message is written to the live file. */
  function Appended(log: Log, m: Bytes): (r: Log)
    requires log.chain != [] && log.chain[0].Some?
    ensures |r.chain| == |log.chain|
  {
    log.(chain := log.chain[0 := Some(log.chain[0].value + [m])])
  }

  /** A rotation is due and one of its renames fails for good. */
  predicate Jams(log: Log, maxSize: nat, m: Bytes, luck: Luck)
    requires log.chain != []
  {
    log.currentSize + |m| > maxSize && StuckAt(log.chain, luck, |log.chain| - 1) > 0
  }

  /** sink_it_ on a formatted message, which is not written when the rotation throws. */
  function Tried(log: Log, maxSize: nat, m: Bytes, luck: Luck): (r: Log)
    requires log.Valid()
    ensures |r.chain| == |log.chain|
  {
    if Jams(log, maxSize, m, luck) then Log(Jammed(log.chain, StuckAt(log.chain, luck, |log.chain| - 1)), 0)
    else Sunk(log, maxSize, m)
  }

  lemma {:induction false} AppendReads(chain: seq<Option<File>>, m: Bytes, n: nat)
    requires 0 < n <= |chain| && chain[0].Some?
    ensures Reading(chain[0 := Some(chain[0].value + [m])], n) == Reading(chain, n) + [m]
  {
    var c := chain[0 := Some(chain[0].value + [m])];
    if n > 1 {
      AppendReads(chain, m, n - 1);
    } else {
      assert Reading(chain, 0) == [] && Reading(c, 0) == [];
    }
  }

  lemma SizeOfAppend(f: File, m: Bytes)
    ensures Size(f + [m]) == Size(f) + |m|
  {
    assert (f + [m])[..|f|] == f;
  }

  lemma SinkStepAppends(log: Log, m: Bytes)
    requires log.Valid()
    ensures var t := Appended(Log(log.chain, log.currentSize + |m|), m);
            && t.Valid() && t.currentSize == log.currentSize + |m|
            && Reading(t.chain, |log.chain|) == Reading(log.chain, |log.chain|) + [m]
  {
    hide Reading, Size;
    SizeOfAppend(log.chain[0].value, m);
    AppendReads(log.chain, m, |log.chain|);
  }

  lemma SinkStepRotates(log: Log, m: Bytes)
    requires log.Valid()
    ensures var t := Appended(Log(Shifted(log.chain), |m|), m);
            && t.Valid() && t.chain[0].value == [m]
            && Reading(log.chain, |log.chain|) + [m] == Dropped(log.chain) + Reading(t.chain, |log.chain|)
  {
    SizeOfAppend([], m);
    assert Size([]) == 0 && [] + [m] == [m];
    hide Reading, Size, Dropped;
    AppendReads(Shifted(log.chain), m, |log.chain|);
    RotationDropsOldest(log.chain);
  }

  /** One message: at most the oldest file goes, the message comes last, and the live file is
      within bounds or holds that message alone. */
  lemma SinkStep(log: Log, maxSize: nat, m: Bytes)
    requires log.Valid()
    ensures var t, n := Sunk(log, maxSize, m), |log.chain|;
            && t.Valid()
            && (t.currentSize <= maxSize || t.chain[0].value == [m])
            && Reading(log.chain, n) + [m] ==
                 (if log.currentSize + |m| > maxSize then Dropped(log.chain) else []) + Reading(t.chain, n)
  {
    hide Reading, Size, Dropped, Shifted, Appended;
    if log.currentSize + |m| > maxSize {
      SinkStepRotates(log, m);
    } else {
      SinkStepAppends(log, m);
      var r := Reading(Sunk(log, maxSize, m).chain, |log.chain|);
      assert [] + r == r;
    }
  }

  /** A message whose rotation fails: it is lost with the live file, and nothing is reordered. */
  lemma JamStep(log: Log, maxSize: nat, m: Bytes, luck: Luck)
    requires log.Valid() && Jams(log, maxSize, m, luck)
    ensures var t, n := Tried(log, maxSize, m, luck), |log.chain|;
            && t.Valid() && t.currentSize == 0
            && Reading(log.chain, n) == (Dropped(log.chain) + Reading(t.chain, n)) + Content(log.chain[0])
  {
    hide Reading, Dropped, StuckAt;
    var i := StuckAt(log.chain, luck, |log.chain| - 1);
    JamLosesLiveFile(log.chain, i);
    JammedAt(log.chain, i, 0);
  }

  // ---- runs ----

  function TriedAll(log: Log, maxSize: nat, ms: seq<Bytes>, lucks: seq<Luck>): (r: Log)
    requires log.Valid() && |lucks| == |ms|
    ensures r.Valid() && |r.chain| == |log.chain|
    decreases |ms|
  {
    if ms == [] then log
    else
      TryStep(log, maxSize, ms[0], lucks[0]);
      TriedAll(Tried(log, maxSize, ms[0], lucks[0]), maxSize, ms[1..], lucks[1..])
  }

  /** Whatever fails, the size counted is the live file's, which is over the limit only with one
      message in it. */
  lemma TryStep(log: Log, maxSize: nat, m: Bytes, luck: Luck)
    requires log.Valid()
    ensures var t := Tried(log, maxSize, m, luck);
            t.Valid() && (t.currentSize <= maxSize || t.chain[0].value == [m])
  {
    hide Jams, Sunk, Dropped, Reading;
    if Jams(log, maxSize, m, luck) {
      JamStep(log, maxSize, m, luck);
    } else {
      SinkStep(log, maxSize, m);
    }
  }

  lemma LuckyNeverJams(log: Log, maxSize: nat, m: Bytes, luck: Luck)
    requires log.Valid() && forall i :: luck(i) <= 1
    ensures !Jams(log, maxSize, m, luck)
  {
  }

  lemma Reassociate<T>(r: seq<T>, m: seq<T>, ms: seq<T>, first: seq<T>, s: seq<T>, rest: seq<T>, t: seq<T>)
    requires r + m == first + s && s + ms == rest + t
    ensures r + (m + ms) == (first + rest) + t
  {
    assert r + (m + ms) == (r + m) + ms;
    assert (first + s) + ms == first + (s + ms);
  }

  /** After any number of messages the files, read oldest to newest, are the end of what was there
      to begin with followed by everything logged. */
  lemma {:induction false} FilesAreASuffix(log: Log, maxSize: nat, ms: seq<Bytes>, lucks: seq<Luck>)
    returns (gone: File)
    requires log.Valid() && |lucks| == |ms|
    requires forall k, i :: 0 <= k < |lucks| ==> lucks[k](i) <= 1
    ensures var t := TriedAll(log, maxSize, ms, lucks);
            Reading(log.chain, |log.chain|) + ms == gone + Reading(t.chain, |t.chain|)
    decreases |ms|
  {
    hide Reading, Sunk, Dropped, Jams;
    var n := |log.chain|;
    if ms == [] {
      gone := [];
      assert Reading(log.chain, n) + [] == [] + Reading(log.chain, n);
    } else {
      var m := ms[0];
      LuckyNeverJams(log, maxSize, m, lucks[0]);
      SinkStep(log, maxSize, m);
      var next := Sunk(log, maxSize, m);
      var rest := FilesAreASuffix(next, maxSize, ms[1..], lucks[1..]);
      var first := if log.currentSize + |m| > maxSize then Dropped(log.chain) else [];
      gone := first + rest;
      assert ms == [m] + ms[1..];
      Reassociate(Reading(log.chain, n), [m], ms[1..], first, Reading(next.chain, n), rest,
                  Reading(TriedAll(next, maxSize, ms[1..], lucks[1..]).chain, n));
    }
  }

  // ---- nothing reordered ----

  /** `a` is `b` with some items left out. */
  ghost predicate Subsequence<T>(a: seq<T>, b: seq<T>)
    decreases |b|
  {
    if b == [] then a == []
    else
      var n := |b| - 1;
      Subsequence(a, b[..n]) || (a != [] && a[|a| - 1] == b[n] && Subsequence(a[..|a| - 1], b[..n]))
  }

  lemma {:induction false} SubsequenceOfItself<T>(a: seq<T>)
    ensures Subsequence(a, a)
    decreases |a|
  {
    if a != [] { SubsequenceOfItself(a[..|a| - 1]); }
  }

  lemma MoreAtTheEnd<T>(a: seq<T>, b: seq<T>, m: T)
    requires Subsequence(a, b)
    ensures Subsequence(a + [m], b + [m]) && Subsequence(a, b + [m])
  {
    assert (b + [m])[..|b|] == b && (a + [m])[..|a|] == a;
  }

  lemma {:induction false} LessAtTheFront<T>(p: seq<T>, a: seq<T>, b: seq<T>)
    requires Subsequence(p + a, b)
    ensures Subsequence(a, b)
    decreases |b|
  {
    if a == [] {
      NothingIsSubsequence(b);
    } else {
      var n := |b| - 1;
      if Subsequence(p + a, b[..n]) {
        LessAtTheFront(p, a, b[..n]);
      } else {
        assert (p + a)[..|p + a| - 1] == p + a[..|a| - 1];
        LessAtTheFront(p, a[..|a| - 1], b[..n]);
      }
    }
  }

  lemma {:induction false} NothingIsSubsequence<T>(b: seq<T>)
    ensures Subsequence([], b)
    decreases |b|
  {
    if b != [] { NothingIsSubsequence(b[..|b| - 1]); }
  }

  lemma {:induction false} LessAtTheEnd<T>(a: seq<T>, q: seq<T>, b: seq<T>)
    requires Subsequence(a + q, b)
    ensures Subsequence(a, b)
    decreases |b|
  {
    if q == [] {
      assert a + q == a;
    } else {
      var n := |b| - 1;
      if Subsequence(a + q, b[..n]) {
        LessAtTheEnd(a, q, b[..n]);
      } else {
        assert (a + q)[..|a + q| - 1] == a + q[..|q| - 1];
        LessAtTheEnd(a, q[..|q| - 1], b[..n]);
      }
    }
  }

  lemma TryKeepsOrder(log: Log, maxSize: nat, m: Bytes, luck: Luck, all: File)
    requires log.Valid() && Subsequence(Reading(log.chain, |log.chain|), all)
    ensures var t := Tried(log, maxSize, m, luck);
            Subsequence(Reading(t.chain, |t.chain|), all + [m])
  {
    hide Subsequence, Reading, Dropped, Jams, Sunk;
    var t, n := Tried(log, maxSize, m, luck), |log.chain|;
    MoreAtTheEnd(Reading(log.chain, n), all, m);
    if Jams(log, maxSize, m, luck) {
      JamStep(log, maxSize, m, luck);
      LessAtTheEnd(Dropped(log.chain) + Reading(t.chain, n), Content(log.chain[0]), all + [m]);
      LessAtTheFront(Dropped(log.chain), Reading(t.chain, n), all + [m]);
    } else {
      SinkStep(log, maxSize, m);
      LessAtTheFront(if log.currentSize + |m| > maxSize then Dropped(log.chain) else [], Reading(t.chain, n), all + [m]);
    }
  }

  /** Whichever renames fail, the files never hold a message twice, out of order, or made up. */
  lemma {:induction false} FilesKeepOrder(log: Log, maxSize: nat, ms: seq<Bytes>, lucks: seq<Luck>, all: File)
    requires log.Valid() && |lucks| == |ms| && Subsequence(Reading(log.chain, |log.chain|), all)
    ensures var t := TriedAll(log, maxSize, ms, lucks);
            Subsequence(Reading(t.chain, |t.chain|), all + ms)
    decreases |ms|
  {
    hide Subsequence, Reading, Tried;
    if ms == [] {
      assert all + ms == all;
    } else {
      TryKeepsOrder(log, maxSize, ms[0], lucks[0], all);
      TryStep(log, maxSize, ms[0], lucks[0]);
      FilesKeepOrder(Tried(log, maxSize, ms[0], lucks[0]), maxSize, ms[1..], lucks[1..], all + [ms[0]]);
      assert (all + [ms[0]]) + ms[1..] == all + ms;
    }
  }

  /** From the files there are, then: what is left after any messages was there or logged, in order. */
  lemma FilesAreASubsequence(log: Log, maxSize: nat, ms: seq<Bytes>, lucks: seq<Luck>)
    requires log.Valid() && |lucks| == |ms|
    ensures var t := TriedAll(log, maxSize, ms, lucks);
            Subsequence(Reading(t.chain, |t.chain|), Reading(log.chain, |log.chain|) + ms)
  {
    hide Subsequence, Reading;
    SubsequenceOfItself(Reading(log.chain, |log.chain|));
    FilesKeepOrder(log, maxSize, ms, lucks, Reading(log.chain, |log.chain|));
  }

  /** The live file is longer than allowed only when it holds a single message, whichever renames
      fail. */
  lemma {:induction false} LiveFileIsBounded(log: Log, maxSize: nat, ms: seq<Bytes>, lucks: seq<Luck>)
    requires log.Valid() && |lucks| == |ms|
    requires log.currentSize <= maxSize || |log.chain[0].value| == 1
    ensures var t := TriedAll(log, maxSize, ms, lucks);
            Size(t.chain[0].value) <= maxSize || |t.chain[0].value| == 1
    decreases |ms|
  {
    hide Tried;
    if ms != [] {
      TryStep(log, maxSize, ms[0], lucks[0]);
      LiveFileIsBounded(Tried(log, maxSize, ms[0], lucks[0]), maxSize, ms[1..], lucks[1..]);
    }
  }

  // ---- the sink ----

  type Directory = map<string, File>

  function Lookup(files: Directory, name: string): Option<File> {
    if name in files then Some(files[name]) else None
  }

  /** The files of the chain as they stand in the directory. */
  ghost function Chain(files: Directory, name: string, maxFiles: nat): (c: seq<Option<File>>)
    ensures |c| == maxFiles + 1
    ensures forall k :: 0 <= k <= maxFiles ==> c[k] == Lookup(files, CalcFilename(name, k))
  {
    seq(maxFiles + 1, k requires 0 <= k => Lookup(files, CalcFilename(name, k)))
  }

  ghost predicate InChain(f: string, name: string, maxFiles: nat) {
    exists k :: 0 <= k <= maxFiles && f == CalcFilename(name, k)
  }

  /** The files of others are left alone. */
  ghost predicate SameOutside(files: Directory, files': Directory, name: string, maxFiles: nat) {
    forall f :: !InChain(f, name, maxFiles) ==> Lookup(files', f) == Lookup(files, f)
  }

  lemma SameThroughout(a: Directory, b: Directory, c: Directory, name: string, maxFiles: nat)
    requires SameOutside(a, b, name, maxFiles) && SameOutside(b, c, name, maxFiles)
    ensures SameOutside(a, c, name, maxFiles)
  {
    hide InChain;
  }

  lemma SameToBegin(a: Directory, name: string, maxFiles: nat)
    ensures SameOutside(a, a, name, maxFiles)
  {
  }

  /** Part of a rotation: indices above `i` have been shifted, index `i` has been moved away, and
      those below wait. */
  ghost predicate ShiftedDownTo(chain: seq<Option<File>>, now: seq<Option<File>>, i: nat)
    requires |now| == |chain| && i < |chain|
  {
    && (forall k :: i < k < |chain| ==> now[k] == ShiftedAt(chain, k))
    && now[i] == (if i == |chain| - 1 then chain[i] else None)
    && (forall k :: 0 <= k < i ==> now[k] == chain[k])
  }

  lemma ShiftOneMore(chain: seq<Option<File>>, now: seq<Option<File>>, next: seq<Option<File>>, i: nat)
    requires |next| == |now| == |chain| && 0 < i < |chain| && ShiftedDownTo(chain, now, i)
    requires next == if now[i - 1].None? then now else now[i := now[i - 1]][i - 1 := None]
    ensures ShiftedDownTo(chain, next, i - 1)
  {
  }

  lemma ShiftNotBegun(chain: seq<Option<File>>)
    requires chain != []
    ensures ShiftedDownTo(chain, chain, |chain| - 1)
  {
  }

  lemma ShiftIsDone(chain: seq<Option<File>>, now: seq<Option<File>>)
    requires |now| == |chain| > 0 && ShiftedDownTo(chain, now, 0)
    ensures now[0 := Some([])] == Shifted(chain)
  {
  }

  lemma JamIsDone(chain: seq<Option<File>>, now: seq<Option<File>>, i: nat)
    requires |now| == |chain| && 0 < i < |chain| && ShiftedDownTo(chain, now, i)
    ensures now[i := None][0 := Some([])] == Jammed(chain, i)
  {
  }

  lemma StuckFurtherDown(chain: seq<Option<File>>, now: seq<Option<File>>, luck: Luck, i: nat)
    requires |now| == |chain| && 0 < i < |chain| && ShiftedDownTo(chain, now, i)
    ensures now[i - 1].Some? && luck(i) > 1 ==> StuckAt(chain, luck, i) == i
    ensures now[i - 1].None? || luck(i) <= 1 ==> StuckAt(chain, luck, i) == StuckAt(chain, luck, i - 1)
  {
  }

  class RotatingFileSink {
    const baseFilename: string
    const maxSize: nat
    const maxFiles: nat
    var currentSize: nat
    var files: Directory

    ghost function View(): Log
      reads this
    {
      Log(Chain(files, baseFilename, maxFiles), currentSize)
    }

    /** Opens the live file to append to it, and asks for its size once. */
    constructor (baseFilename: string, maxSize: nat, maxFiles: nat, files: Directory)
      ensures View().Valid() && this.baseFilename == baseFilename
      ensures this.maxSize == maxSize && this.maxFiles == maxFiles
      ensures View().chain[0] == Some(Content(Lookup(files, baseFilename)))
      ensures forall k :: 0 < k <= maxFiles ==> View().chain[k] == Lookup(files, CalcFilename(baseFilename, k))
      ensures SameOutside(files, this.files, baseFilename, maxFiles)
    {
      var live := Content(Lookup(files, CalcFilename(baseFilename, 0)));
      this.baseFilename, this.maxSize, this.maxFiles := baseFilename, maxSize, maxFiles;
      this.files := files[CalcFilename(baseFilename, 0) := live];
      this.currentSize := Size(live);
      new;
      assert InChain(CalcFilename(baseFilename, 0), baseFilename, maxFiles);
      forall k | 0 < k <= maxFiles ensures CalcFilename(baseFilename, k) != CalcFilename(baseFilename, 0) {
        NamesAreDistinct(baseFilename, k, 0);
      }
    }

    /** The target is removed whether or not the rename then fails. */
    method RenameFile(src: string, target: string, fails: bool) returns (ok: bool)
      requires src in files && src != target
      modifies this`files
      ensures ok == !fails
      ensures files == if fails then old(files) - {target} else (old(files) - {src})[target := old(files)[src]]
    {
      files := files - {target};
      if fails { return false; }
      files := (files - {src})[target := files[src]];
      return true;
    }

    /** Shifts every file by one place, or throws at the first whose rename fails twice; the live
        file starts afresh either way. */
    method Rotate(luck: Luck) returns (ok: bool)
      modifies this`files, this`currentSize
      ensures var chain := old(View()).chain;
              var stuck := StuckAt(chain, luck, maxFiles);
              && ok == (stuck == 0)
              && Chain(files, baseFilename, maxFiles) == (if ok then Shifted(chain) else Jammed(chain, stuck))
      ensures currentSize == if ok then old(currentSize) else 0
      ensures SameOutside(old(files), files, baseFilename, maxFiles)
    {
      hide ShiftedDownTo, Shifted, Jammed, StuckAt, CalcFilename, Chain, SameOutside;
      SameToBegin(files, baseFilename, maxFiles);
      ghost var chain := Chain(files, baseFilename, maxFiles);
      ShiftNotBegun(chain);
      var i := maxFiles;
      while i > 0
        invariant 0 <= i <= maxFiles
        invariant ShiftedDownTo(chain, Chain(files, baseFilename, maxFiles), i)
        invariant StuckAt(chain, luck, maxFiles) == StuckAt(chain, luck, i)
        invariant SameOutside(old(files), files, baseFilename, maxFiles)
        invariant currentSize == old(currentSize)
      {
        ghost var was := files;
        var src := CalcFilename(baseFilename, i - 1);
        var target := CalcFilename(baseFilename, i);
        NamesAreDistinct(baseFilename, i - 1, i);
        StuckFurtherDown(chain, Chain(was, baseFilename, maxFiles), luck, i);
        if src in files {
          ok := RenameFile(src, target, luck(i) > 0);
          if !ok {
            ok := RenameFile(src, target, luck(i) > 1);
            if !ok {
              Removed(was, files, baseFilename, maxFiles, i);
              Written(files, baseFilename, maxFiles, []);
              JamIsDone(chain, Chain(was, baseFilename, maxFiles), i);
              SameThroughout(old(files), was, files, baseFilename, maxFiles);
              was := files;
              files := files[CalcFilename(baseFilename, 0) := []];
              SameThroughout(old(files), was, files, baseFilename, maxFiles);
              currentSize := 0;
              return false;
            }
          }
        }
        Moved(was, files, baseFilename, maxFiles, i);
        ShiftOneMore(chain, Chain(was, baseFilename, maxFiles), Chain(files, baseFilename, maxFiles), i);
        SameThroughout(old(files), was, files, baseFilename, maxFiles);
        i := i - 1;
      }
      Written(files, baseFilename, maxFiles, []);
      ShiftIsDone(chain, Chain(files, baseFilename, maxFiles));
      ghost var was := files;
      files := files[CalcFilename(baseFilename, 0) := []];
      SameThroughout(old(files), was, files, baseFilename, maxFiles);
      NotStuckAtZero(chain, luck);
      return true;
    }

    method SinkIt(formatted: Bytes, luck: Luck) returns (ok: bool)
      requires View().Valid()
      modifies this`files, this`currentSize
      ensures View() == Tried(old(View()), maxSize, formatted, luck)
      ensures ok == !Jams(old(View()), maxSize, formatted, luck)
      ensures SameOutside(old(files), files, baseFilename, maxFiles)
    {
      hide Jammed, StuckAt;
      currentSize := currentSize + |formatted|;
      if currentSize > maxSize {
        ok := Rotate(luck);
        if !ok { return; }
        currentSize := |formatted|;
      }
      var live := CalcFilename(baseFilename, 0);
      Written(files, baseFilename, maxFiles, files[live] + [formatted]);
      files := files[live := files[live] + [formatted]];
      return true;
    }
  }

  lemma NotStuckAtZero(chain: seq<Option<File>>, luck: Luck)
    requires chain != []
    ensures StuckAt(chain, luck, 0) == 0
  {
  }

  /** One file of the chain removed. */
  lemma Removed(was: Directory, files: Directory, name: string, maxFiles: nat, i: nat)
    requires 0 < i <= maxFiles && files == was - {CalcFilename(name, i)}
    ensures Chain(files, name, maxFiles) == Chain(was, name, maxFiles)[i := None]
    ensures SameOutside(was, files, name, maxFiles)
  {
    hide CalcFilename;
    assert InChain(CalcFilename(name, i), name, maxFiles);
    forall k | 0 <= k <= maxFiles ensures CalcFilename(name, k) == CalcFilename(name, i) <==> k == i {
      NamesAreDistinct(name, k, i);
    }
  }

  /** A rename one place down the chain, or no rename where there is no file. */
  lemma Moved(was: Directory, files: Directory, name: string, maxFiles: nat, i: nat)
    requires 0 < i <= maxFiles
    requires var src, target := CalcFilename(name, i - 1), CalcFilename(name, i);
             files == if src in was then (was - {src})[target := was[src]] else was
    ensures var now := Chain(was, name, maxFiles);
            Chain(files, name, maxFiles) == if now[i - 1].None? then now else now[i := now[i - 1]][i - 1 := None]
    ensures SameOutside(was, files, name, maxFiles)
  {
    hide CalcFilename;
    var src, target := CalcFilename(name, i - 1), CalcFilename(name, i);
    assert InChain(src, name, maxFiles) && InChain(target, name, maxFiles);
    forall k | 0 <= k <= maxFiles
      ensures (CalcFilename(name, k) == src <==> k == i - 1) && (CalcFilename(name, k) == target <==> k == i)
    {
      NamesAreDistinct(name, k, i - 1);
      NamesAreDistinct(name, k, i);
    }
  }

  /** Writing the live file changes nothing else. */
  lemma Written(files: Directory, name: string, maxFiles: nat, live: File)
    ensures var now := Chain(files, name, maxFiles);
            Chain(files[CalcFilename(name, 0) := live], name, maxFiles) == now[0 := Some(live)]
    ensures SameOutside(files, files[CalcFilename(name, 0) := live], name, maxFiles)
  {
    hide CalcFilename;
    assert InChain(CalcFilename(name, 0), name, maxFiles);
    forall k | 0 <= k <= maxFiles ensures CalcFilename(name, k) == CalcFilename(name, 0) <==> k == 0 {
      NamesAreDistinct(name, k, 0);
    }
  }
}
