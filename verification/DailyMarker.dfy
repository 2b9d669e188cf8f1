/** Once-a-day markers: a temp file is written, synced and renamed, then the
    folder is synced, then old markers of the same task are swept. */
module DailyMarker {
  import opened Wrappers
  import opened Decimal
  import opened FileSystem

  const MARKER_SUFFIX := ".marker"
  const MARKER_TMP_SUFFIX := ".marker.tmp"
  const MARKER_READ_CAP_BYTES: nat := 4096
  const DELIVERED := "delivered_date_ist="

  // ------------------------------------------------------------ names

  function MarkerName(task: string, date: string): string {
    task + "-" + date + MARKER_SUFFIX
  }

  function TempName(task: string, date: string): string {
    task + "-" + date + MARKER_TMP_SUFFIX
  }

  function StripPrefix(s: string, prefix: string): Option<string> {
    if prefix <= s then Some(s[|prefix|..]) else None
  }

  predicate EndsWith(s: string, suffix: string) {
    |suffix| <= |s| && s[|s| - |suffix|..] == suffix
  }

  function StripSuffix(s: string, suffix: string): Option<string> {
    if EndsWith(s, suffix) then Some(s[..|s| - |suffix|]) else None
  }

  /** `YYYY-MM-DD`, the way a date prints. */
  ghost predicate PlainDate(s: string) {
    && |s| == 10 && s[4] == '-' && s[7] == '-'
    && AllDigits(s[..4]) && AllDigits(s[5..7]) && AllDigits(s[8..])
  }

  /** A text the parser may accept as `%Y-%m-%d`: three numbers with dashes
      between them, whitespace in front of any of them, and a sign in front of
      the first. */
  ghost predicate DateShaped(s: string) {
    exists pad, sign, y, m, d ::
      && AllWhitespace(pad) && sign in {"", "+", "-"} && AllDigits(y) && PaddedDigits(m) && PaddedDigits(d)
      && s == pad + sign + y + "-" + m + "-" + d
  }

  ghost predicate PaddedDigits(s: string) {
    exists pad, n :: AllWhitespace(pad) && AllDigits(n) && s == pad + n
  }

  /** A date parser: day numbers, and none for a text of any other shape. */
  ghost predicate DateParser(parse: string -> Option<int>) {
    forall s :: parse(s).Some? ==> DateShaped(s)
  }

  /** Whether the sweep takes a name: same task prefix, one of the two
      suffixes, and a date before the cutoff between them. */
  predicate Sweepable(name: string, task: string, cutoff: int, parse: string -> Option<int>) {
    match StripPrefix(name, task + "-")
    case None => false
    case Some(rest) =>
      var stem := if EndsWith(rest, MARKER_TMP_SUFFIX) then StripSuffix(rest, MARKER_TMP_SUFFIX)
                  else StripSuffix(rest, MARKER_SUFFIX);
      stem.Some? && parse(stem.value).Some? && parse(stem.value).value < cutoff
  }

  lemma PaddingHasNoDash(pad: string, n: string)
    requires AllWhitespace(pad) && AllDigits(n)
    ensures NoDash(pad + n)
  {
    forall i | 0 <= i < |pad + n| ensures (pad + n)[i] != '-' {
      assert (pad + n)[i] == if i < |pad| then pad[i] else n[i - |pad|];
      assert i < |pad| ==> pad[i] in pad;
    }
  }

  lemma PaddedHasNoDash(s: string)
    requires PaddedDigits(s)
    ensures NoDash(s)
  {
    var pad, n :| AllWhitespace(pad) && AllDigits(n) && s == pad + n;
    PaddingHasNoDash(pad, n);
  }

  lemma NoDashBehind(a: string, x: string, k: int)
    requires NoDash(x) && |a| < k < |a| + 1 + |x|
    ensures (a + "-" + x)[k] != '-'
  {
    assert (a + "-" + x)[k] == x[k - |a| - 1];
  }

  /** The last dash of a text is in one place only. */
  lemma SameLastPart(a: string, b: string, x: string, y: string)
    requires a + "-" + x == b + "-" + y && NoDash(x) && NoDash(y)
    ensures a == b && x == y
  {
    var s, t := a + "-" + x, b + "-" + y;
    assert s[|a|] == '-' && t[|b|] == '-';
    if |a| < |b| {
      NoDashBehind(a, x, |b|);
    } else if |b| < |a| {
      NoDashBehind(b, y, |a|);
    } else {
      assert s[..|a|] == a && t[..|b|] == b && s[|a| + 1..] == x && t[|b| + 1..] == y;
    }
  }

  lemma Cancel(a: string, b: string, c: string)
    requires a + c == b + c
    ensures a == b
  {
    assert (a + c)[..|a|] == a && (b + c)[..|b|] == b;
  }

  /** A task named like this one with a dash, and perhaps whitespace, behind. */
  predicate DashPadded(task: string, other: string) {
    task + "-" <= other && AllWhitespace(other[|task| + 1..])
  }

  lemma YearBelongsToTask(task: string, pad: string, sign: string, y: string, other: string, y': string)
    requires AllWhitespace(pad) && sign in {"", "+", "-"} && AllDigits(y) && AllDigits(y')
    requires task + "-" + (pad + sign + y) == other + "-" + y'
    ensures other == task || other == task + "-" + pad
  {
    DigitsHaveNoDash(y);
    DigitsHaveNoDash(y');
    if sign == "" {
      PaddingHasNoDash(pad, y);
      assert pad + "" + y == pad + y;
      SameLastPart(task, other, pad + y, y');
    } else if sign == "-" {
      assert task + "-" + (pad + "-" + y) == (task + "-" + pad) + "-" + y;
      SameLastPart(task + "-" + pad, other, y, y');
    } else {
      assert task + "-" + (pad + "+" + y) == (task + "-" + pad) + "+" + y;
      PlusIsNoDigit(task + "-" + pad, y, other, y');
    }
  }

  lemma SplitsOnce(task: string, y: string, m: string, d: string)
    ensures task + "-" + (y + "-" + m + "-" + d) == task + "-" + y + "-" + m + "-" + d
  {
  }

  lemma SameFront(front: string, front': string, m: string, m': string, d: string, d': string)
    requires NoDash(m) && NoDash(m') && NoDash(d) && NoDash(d')
    requires front + "-" + m + "-" + d == front' + "-" + m' + "-" + d'
    ensures front == front'
  {
    SameLastPart(front + "-" + m, front' + "-" + m', d, d');
    SameLastPart(front, front', m, m');
  }

  /** When a task's prefix and a date-shaped stem spell another task's name,
      the other task is this one with a dash and whitespace behind it. */
  lemma StemBelongsToTask(task: string, other: string, stem: string, date: string)
    requires DateShaped(stem) && PlainDate(date)
    requires task + "-" + stem == other + "-" + date
    ensures other == task || DashPadded(task, other)
  {
    var pad, sign, y, m, d :| AllWhitespace(pad) && sign in {"", "+", "-"} && AllDigits(y) && PaddedDigits(m) && PaddedDigits(d)
                           && stem == pad + sign + y + "-" + m + "-" + d;
    var y', m', d' := date[..4], date[5..7], date[8..];
    assert date == y' + "-" + m' + "-" + d';
    SplitsOnce(task, pad + sign + y, m, d);
    SplitsOnce(other, y', m', d');
    PaddedHasNoDash(m); DigitsHaveNoDash(m'); PaddedHasNoDash(d); DigitsHaveNoDash(d');
    SameFront(task + "-" + (pad + sign + y), other + "-" + y', m, m', d, d');
    YearBelongsToTask(task, pad, sign, y, other, y');
    PaddedTask(task, pad);
  }

  lemma PaddedTask(task: string, pad: string)
    requires AllWhitespace(pad)
    ensures DashPadded(task, task + "-" + pad)
  {
    assert (task + "-" + pad)[|task| + 1..] == pad;
  }

  lemma OnlyDigitsBehind(a: string, mark: string, y: string, k: int)
    requires AllDigits(y) && |mark| == 1 && |a| < k < |a| + 1 + |y|
    ensures IsDigit((a + mark + y)[k])
  {
    assert (a + mark + y)[k] == y[k - |a| - 1];
  }

  lemma PlusIsNoDigit(a: string, y: string, b: string, y': string)
    requires AllDigits(y) && AllDigits(y')
    ensures a + "+" + y != b + "-" + y'
  {
    var s, t := a + "+" + y, b + "-" + y';
    assert s[|a|] == '+' && t[|b|] == '-';
    if s == t {
      if |a| < |b| {
        OnlyDigitsBehind(a, "+", y, |b|);
      } else if |b| < |a| {
        OnlyDigitsBehind(b, "-", y', |a|);
      }
    }
  }

  lemma OneSuffixOnly(name: string)
    ensures !(EndsWith(name, MARKER_SUFFIX) && EndsWith(name, MARKER_TMP_SUFFIX))
  {
    if EndsWith(name, MARKER_SUFFIX) {
      assert name[|name| - 1] == name[|name| - 7..][6] == 'r';
    }
    if EndsWith(name, MARKER_TMP_SUFFIX) {
      assert name[|name| - 1] == name[|name| - 11..][10];
    }
  }

  lemma StemBehind(prefix: string, rest: string, suffix: string, whole: string)
    requires EndsWith(rest, suffix) && prefix + rest == whole + suffix
    ensures prefix + rest[..|rest| - |suffix|] == whole
  {
    var stem := rest[..|rest| - |suffix|];
    assert rest == stem + suffix;
    assert prefix + rest == (prefix + stem) + suffix;
    Cancel(prefix + stem, whole, suffix);
  }

  lemma StemOfName(name: string, front: string, date: string, task: string)
    requires |date| == 10 && task + "-" <= name
    requires name == front + "-" + date + MARKER_SUFFIX || name == front + "-" + date + MARKER_TMP_SUFFIX
    ensures var rest := name[|task| + 1..];
            var stem := if EndsWith(rest, MARKER_TMP_SUFFIX) then StripSuffix(rest, MARKER_TMP_SUFFIX)
                        else StripSuffix(rest, MARKER_SUFFIX);
            stem.Some? ==> task + "-" + stem.value == front + "-" + date
  {
    var suffix := if name == front + "-" + date + MARKER_SUFFIX then MARKER_SUFFIX else MARKER_TMP_SUFFIX;
    var rest := name[|task| + 1..];
    assert name == task + "-" + rest;
    assert EndsWith(name, suffix);
    OneSuffixOnly(name);
    if EndsWith(rest, MARKER_TMP_SUFFIX) {
      assert EndsWith(name, MARKER_TMP_SUFFIX);
      StemBehind(task + "-", rest, MARKER_TMP_SUFFIX, front + "-" + date);
    } else if EndsWith(rest, MARKER_SUFFIX) {
      assert EndsWith(name, MARKER_SUFFIX);
      StemBehind(task + "-", rest, MARKER_SUFFIX, front + "-" + date);
    }
  }

  /** The sweep of one task never takes a file of another, unless that task is
      this one with a dash and whitespace at the end. */
  lemma SweepSparesOtherTasks(task: string, other: string, date: string, cutoff: int, parse: string -> Option<int>)
    requires DateParser(parse) && PlainDate(date)
    requires other != task && !DashPadded(task, other)
    ensures !Sweepable(MarkerName(other, date), task, cutoff, parse)
    ensures !Sweepable(TempName(other, date), task, cutoff, parse)
  {
    SparesName(task, other, date, MarkerName(other, date), cutoff, parse);
    SparesName(task, other, date, TempName(other, date), cutoff, parse);
  }

  lemma SparesName(task: string, other: string, date: string, name: string, cutoff: int, parse: string -> Option<int>)
    requires DateParser(parse) && PlainDate(date)
    requires other != task && !DashPadded(task, other)
    requires name == MarkerName(other, date) || name == TempName(other, date)
    ensures !Sweepable(name, task, cutoff, parse)
  {
    if Sweepable(name, task, cutoff, parse) {
      var stem := SweptStem(name, other, date, task, cutoff, parse);
      StemBelongsToTask(task, other, stem, date);
    }
  }

  /** What the sweep read as a date in a name it takes. */
  lemma SweptStem(name: string, front: string, date: string, task: string, cutoff: int, parse: string -> Option<int>)
    returns (stem: string)
    requires DateParser(parse) && |date| == 10 && Sweepable(name, task, cutoff, parse)
    requires name == MarkerName(front, date) || name == TempName(front, date)
    ensures DateShaped(stem) && task + "-" + stem == front + "-" + date
  {
    StemOfName(name, front, date, task);
    var rest := name[|task + "-"|..];
    stem := if EndsWith(rest, MARKER_TMP_SUFFIX) then StripSuffix(rest, MARKER_TMP_SUFFIX).value
            else StripSuffix(rest, MARKER_SUFFIX).value;
  }

  predicate IsOld(text: string, cutoff: int, parse: string -> Option<int>) {
    parse(text).Some? && parse(text).value < cutoff
  }

  /** A name of the task's own shape goes exactly when its stem reads as an old
      date. */
  lemma SweepReadsStem(task: string, stem: string, cutoff: int, parse: string -> Option<int>)
    ensures Sweepable(MarkerName(task, stem), task, cutoff, parse) <==> IsOld(stem, cutoff, parse)
    ensures Sweepable(TempName(task, stem), task, cutoff, parse) <==> IsOld(stem, cutoff, parse)
  {
    var name, temp := MarkerName(task, stem), TempName(task, stem);
    var rest, tail := stem + MARKER_SUFFIX, stem + MARKER_TMP_SUFFIX;
    assert name == (task + "-") + rest && temp == (task + "-") + tail;
    assert name[|task + "-"|..] == rest && temp[|task + "-"|..] == tail;
    assert !EndsWith(rest, MARKER_TMP_SUFFIX) by {
      assert rest[|rest| - 1] == 'r' && MARKER_TMP_SUFFIX[10] == 'p';
    }
    assert rest[|rest| - 7..] == MARKER_SUFFIX && rest[..|rest| - 7] == stem;
    assert tail[|tail| - 11..] == MARKER_TMP_SUFFIX && tail[..|tail| - 11] == stem;
  }

  /** Of its own task it takes exactly the dates before the cutoff. */
  lemma SweepTakesOldDates(task: string, date: string, cutoff: int, parse: string -> Option<int>)
    ensures Sweepable(MarkerName(task, date), task, cutoff, parse) <==> parse(date).Some? && parse(date).value < cutoff
    ensures Sweepable(TempName(task, date), task, cutoff, parse) <==> parse(date).Some? && parse(date).value < cutoff
  {
    SweepReadsStem(task, date, cutoff, parse);
  }

  /** Exactly when the sweep takes another task's file: that task is this one
      with a dash and whitespace behind it, and the parser reads what is left,
      `-YYYY-MM-DD` with that whitespace in front, as an old date. */
  lemma SweepTakesOthersExactly(task: string, other: string, date: string, cutoff: int, parse: string -> Option<int>)
    requires DateParser(parse) && PlainDate(date) && other != task
    ensures var taken := DashPadded(task, other) && IsOld(other[|task| + 1..] + "-" + date, cutoff, parse);
            && (Sweepable(MarkerName(other, date), task, cutoff, parse) <==> taken)
            && (Sweepable(TempName(other, date), task, cutoff, parse) <==> taken)
  {
    if DashPadded(task, other) {
      var pad := other[|task| + 1..];
      assert other == task + "-" + pad;
      assert MarkerName(other, date) == MarkerName(task, pad + "-" + date);
      assert TempName(other, date) == TempName(task, pad + "-" + date);
      SweepReadsStem(task, pad + "-" + date, cutoff, parse);
    } else {
      SweepSparesOtherTasks(task, other, date, cutoff, parse);
    }
  }

  /** A parser that knows one text, a day of the year -2026. */
  function NegativeYear(pad: string): string -> Option<int> {
    text => if text == pad + "-" + "2026-09-05" then Some(-740_000) else None
  }

  /** The failing family is real: the sweep of `x` takes the markers of `x-`,
      and of `x-` with whitespace behind it. */
  lemma DashedTasksAreSwept(pad: string, cutoff: nat)
    requires AllWhitespace(pad)
    ensures DateParser(NegativeYear(pad))
    ensures Sweepable(MarkerName("x" + "-" + pad, "2026-09-05"), "x", cutoff, NegativeYear(pad))
  {
    NegativeYearParses(pad);
    SweepReadsStem("x", pad + "-" + "2026-09-05", cutoff, NegativeYear(pad));
    SameMarker("x", pad, "2026-09-05");
  }

  lemma SameMarker(task: string, pad: string, date: string)
    ensures MarkerName(task + "-" + pad, date) == MarkerName(task, pad + "-" + date)
  {
    assert task + "-" + pad + "-" + date == task + "-" + (pad + "-" + date);
  }

  lemma NegativeYearParses(pad: string)
    requires AllWhitespace(pad)
    ensures DateParser(NegativeYear(pad))
  {
    NegativeYearIsShaped(pad);
  }

  lemma NegativeYearIsShaped(pad: string)
    requires AllWhitespace(pad)
    ensures DateShaped(pad + "-" + "2026-09-05")
  {
    assert "09" == "" + "09" && "05" == "" + "05";
    assert PaddedDigits("09") && PaddedDigits("05");
    assert pad + "-" + "2026-09-05" == pad + "-" + "2026" + "-" + "09" + "-" + "05";
  }

  // --------------------------------------------------------- contents

  function Contents(build: string, date: string): string {
    "build=" + build + "\n" + DELIVERED + date + "\n"
  }

  /** One line of a text, cut at newlines. */
  ghost predicate HasLine(text: string, line: string) {
    exists i, j :: 0 <= i <= j <= |text| && text[i..j] == line
                && (i == 0 || text[i - 1] == '\n') && (j == |text| || text[j] == '\n')
  }

  ghost predicate StandsBetween(text: string, before: string, line: string, after: string) {
    && text == before + line + after
    && (before == "" || before[|before| - 1] == '\n') && (after == "" || after[0] == '\n')
  }

  /** A line of a text has nothing or a newline on either side. */
  lemma HasLineExactly(text: string, line: string)
    ensures HasLine(text, line) <==> exists before, after :: StandsBetween(text, before, line, after)
  {
    if i, j :| 0 <= i <= j <= |text| && text[i..j] == line
               && (i == 0 || text[i - 1] == '\n') && (j == |text| || text[j] == '\n')
    {
      assert text == text[..i] + line + text[j..];
      assert StandsBetween(text, text[..i], line, text[j..]);
    }
    if before, after :| StandsBetween(text, before, line, after) {
      var i, j := |before|, |before| + |line|;
      assert text[i..j] == line;
      assert i > 0 ==> text[i - 1] == before[i - 1];
      assert j < |text| ==> text[j] == after[0];
    }
  }

  function Capped(data: string): string {
    if |data| <= MARKER_READ_CAP_BYTES then data else data[..MARKER_READ_CAP_BYTES]
  }

  /** A build id that leaves the date line within the reader's cap. */
  predicate ShortBuild(build: string) {
    |build| <= 4000
  }

  /** The strict reader: cut the capped text at its newlines and look for the
      exact line. */
  method NamesDay(data: string, date: string) returns (found: bool)
    requires forall i | 0 <= i < |date| :: date[i] != '\n'
    ensures found <==> HasLine(if |data| <= 4096 then data else data[..4096], "delivered_date_ist=" + date)
  {
    var text, want := Capped(data), DELIVERED + date;
    var start, at := 0, 0;
    found := false;
    while at <= |text|
      invariant 0 <= start <= at <= |text| + 1
      invariant start == 0 || (start <= |text| && text[start - 1] == '\n') || at == |text| + 1
      invariant at <= |text| ==> forall k | start <= k < at :: text[k] != '\n'
      invariant forall i, j | 0 <= i <= j < at && j <= |text| && (i == 0 || text[i - 1] == '\n') && (j == |text| || text[j] == '\n') :: text[i..j] != want
    {
      if at == |text| || text[at] == '\n' {
        if text[start..at] == want {
          found := true;
          return;
        }
        forall i | 0 <= i <= at && (i == 0 || text[i - 1] == '\n') ensures text[i..at] != want {
          if i < start {
            assert text[i..at][start - 1 - i] == '\n';
            WantHasNoNewline(date);
          }
        }
        start := at + 1;
      }
      at := at + 1;
    }
  }

  lemma WantHasNoNewline(date: string)
    requires forall i | 0 <= i < |date| :: date[i] != '\n'
    ensures forall i | 0 <= i < |DELIVERED + date| :: (DELIVERED + date)[i] != '\n'
  {
  }

  /** The reader accepts what the writer writes. */
  lemma ReaderAcceptsContents(build: string, date: string)
    requires ShortBuild(build) && |date| == 10
    ensures HasLine(Capped(Contents(build, date)), DELIVERED + date)
    ensures Contents(build, date) == "build=" + build + "\n" + "delivered_date_ist=" + date + "\n"
  {
    var text, first := Contents(build, date), "build=" + build + "\n";
    assert text == first + (DELIVERED + date) + "\n";
    assert text[|first|..|first| + 29] == DELIVERED + date;
    assert text[|first| - 1] == '\n' && text[|first| + 29] == '\n';
  }

  // --------------------------------------------------------- the protocol

  ghost function DateOf(name: string): string {
    if |name| >= 17 then name[|name| - 17..|name| - 7] else ""
  }

  ghost predicate CompleteMarker(name: string, data: string) {
    exists build :: ShortBuild(build) && data == Contents(build, DateOf(name))
  }

  ghost function Markers(): Protocol<string> {
    Protocol((n: string) => EndsWith(n, MARKER_SUFFIX), (n: string) => EndsWith(n, MARKER_TMP_SUFFIX),
             (n: string, data: string) => CompleteMarker(n, data))
  }

  lemma NamesAreTold(task: string, date: string)
    requires |date| == 10
    ensures EndsWith(MarkerName(task, date), MARKER_SUFFIX) && !EndsWith(MarkerName(task, date), MARKER_TMP_SUFFIX)
    ensures EndsWith(TempName(task, date), MARKER_TMP_SUFFIX) && !EndsWith(TempName(task, date), MARKER_SUFFIX)
    ensures DateOf(MarkerName(task, date)) == date
    ensures MarkerName(task, date) != TempName(task, date)
    ensures MarkerName(task, date) == task + "-" + date + ".marker"
    ensures TempName(task, date) == task + "-" + date + ".marker.tmp"
  {
    var n, t := MarkerName(task, date), TempName(task, date);
    assert n == (task + "-") + date + MARKER_SUFFIX;
    assert n[|n| - 1] == 'r' && t[|t| - 1] == 'p';
    assert MARKER_TMP_SUFFIX[10] == 'p' && MARKER_SUFFIX[6] == 'r';
  }

  lemma NamesDiffer(task: string, date: string, other: string, day: string)
    requires |date| == 10 && |day| == 10 && (other != task || day != date)
    ensures MarkerName(other, day) != MarkerName(task, date) && MarkerName(other, day) != TempName(task, date)
  {
    NamesAreTold(task, date);
    NamesAreTold(other, day);
    assert MarkerName(other, day)[..|other|] == other && MarkerName(task, date)[..|task|] == task;
    assert MarkerName(other, day)[|other| + 1..|other| + 11] == day && MarkerName(task, date)[|task| + 1..|task| + 11] == date;
    assert |MarkerName(other, day)| == |other| + 18 && |MarkerName(task, date)| == |task| + 18;
  }

  /** The strict reader on the disk as programs see it. */
  ghost predicate DayIsMarked(d: Disk<string>, task: string, date: string)
    requires Sound(d)
  {
    var name := MarkerName(task, date);
    name in Now(d) && HasLine(Capped(d.files[Now(d)[name]].data), DELIVERED + date)
  }

  /** On a safe disk, and after any crash of one, the reader says yes exactly
      when a complete, synced marker of that day was renamed into place. */
  lemma ReaderIsExact(d: Disk<string>, task: string, date: string)
    requires Safe(Markers(), d) && |date| == 10
    ensures DayIsMarked(d, task, date) <==> MarkerName(task, date) in Now(d)
    ensures DayIsMarked(d, task, date) ==>
            exists build :: ShortBuild(build) && Lookup(d, MarkerName(task, date)) == [File(Contents(build, date), true)]
  {
    NamesAreTold(task, date);
    var name := MarkerName(task, date);
    if name in Now(d) {
      assert Markers().isFinal(name);
      var file := d.files[d.dirs[|d.dirs| - 1][name]];
      assert Markers().complete(name, file.data);
      var build :| ShortBuild(build) && file.data == Contents(build, DateOf(name));
      ReaderAcceptsContents(build, date);
    }
  }

  /** After any run of steps and crashes from a safe disk the reader is still
      exact, and a durable marker is still read unless a step removed it. */
  lemma MarkerOutlivesRun(d: Disk<string>, events: seq<Event<string>>, d': Disk<string>, task: string, date: string)
    requires Safe(Markers(), d) && Reaches(Markers(), d, events, d', "") && |date| == 10
    requires Durable(d, MarkerName(task, date)) && Step(Remove(MarkerName(task, date))) !in events
    ensures Sound(d') && DayIsMarked(d', task, date)
  {
    NamesAreTold(task, date);
    RunIsSafe(Markers(), d, events, d', "");
    DurableThroughRun(Markers(), d, events, d', "", MarkerName(task, date));
    ReaderIsExact(d', task, date);
  }

  // --------------------------------------------------------- the writer

  datatype MarkerDurability = DurableMarker | RenamedNotDirSynced

  /** What a successful rename becomes, given the folder syncs; the parent is
      synced only when this write made the folder. */
  function DurabilityAfterRename(baseSync: bool, parentSync: Option<bool>): MarkerDurability {
    if baseSync && (parentSync.None? || parentSync.value) then DurableMarker else RenamedNotDirSynced
  }

  /** Which system calls succeed in one write, and what a failed write left
      behind in the temp file. */
  datatype Outcomes = Outcomes(makeFolder: bool, open: bool, write: bool, partial: string, sync: bool, rename: bool,
                               removeTemp: bool, baseSync: bool, parentSync: bool,
                               listing: Option<seq<string>>, removable: set<string>)

  lemma RemoveLeavesOthers(d: Disk<string>, name: string)
    requires Sound(d) && Sound(Apply(Markers(), d, Remove(name), ""))
    ensures var next := Apply(Markers(), d, Remove(name), "");
            && Lookup(next, name) == []
            && forall n | n != name :: Lookup(next, n) == Lookup(d, n) && (Durable(d, n) ==> Durable(next, n))
  {
    forall n | n != name && Durable(d, n) ensures Durable(Apply(Markers(), d, Remove(name), ""), n) {
      assert n in d.dirs[|d.dirs| - 1];
    }
  }

  lemma OpenLeavesOthers(d: Disk<string>, name: string)
    requires Sound(d) && Allowed(Markers(), d, OpenTemp(name))
    requires Sound(Apply(Markers(), d, OpenTemp(name), ""))
    ensures var next := Apply(Markers(), d, OpenTemp(name), "");
            Lookup(next, name) == [File("", false)] && forall n | n != name :: Lookup(next, n) == Lookup(d, n)
  {
    forall n | n != name ensures Lookup(Apply(Markers(), d, OpenTemp(name), ""), n) == Lookup(d, n) {
      OtherNamesKeepTheirData(Markers(), d, OpenTemp(name), "", n);
    }
  }

  lemma RenameLeavesOthers(d: Disk<string>, name: string, target: string)
    requires Sound(d) && Allowed(Markers(), d, Promote(name, target))
    requires Sound(Apply(Markers(), d, Promote(name, target), ""))
    ensures var next := Apply(Markers(), d, Promote(name, target), "");
            && Lookup(next, target) == Lookup(d, name) && Lookup(next, name) == []
            && forall n | n != name && n != target :: Lookup(next, n) == Lookup(d, n)
  {
    forall n | n != name && n != target ensures Lookup(Apply(Markers(), d, Promote(name, target), ""), n) == Lookup(d, n) {
      OtherNamesKeepTheirData(Markers(), d, Promote(name, target), "", n);
    }
  }

  /** Every name that is not listed, not removable or not taken keeps its file,
      durable if it was. */
  ghost predicate KeepsUntaken(before: Disk<string>, after: Disk<string>, entries: seq<string>, removable: set<string>, takes: string -> bool) {
    && Sound(before) && Sound(after)
    && after.present == before.present && after.anchored == before.anchored
    && forall n | n !in entries || n !in removable || !takes(n) ::
         Lookup(after, n) == Lookup(before, n) && (Durable(before, n) ==> Durable(after, n))
  }

  /** Every entry that is taken and can be removed is gone. */
  ghost predicate Gone(d: Disk<string>, entries: seq<string>, removable: set<string>, takes: string -> bool)
    requires Sound(d)
  {
    forall n | n in entries && n in removable && takes(n) :: Lookup(d, n) == []
  }

  lemma OneMoreGone(d: Disk<string>, after: Disk<string>, entries: seq<string>, removable: set<string>, takes: string -> bool, name: string)
    requires Sound(d) && Sound(after) && Gone(d, entries, removable, takes)
    requires if name in removable && takes(name) then Lookup(after, name) == [] && forall n | n != name :: Lookup(after, n) == Lookup(d, n)
             else after == d
    ensures Gone(after, entries + [name], removable, takes)
  {
  }

  ghost predicate RemovesOnlyTaken(events: seq<Event<string>>, takes: string -> bool) {
    forall e | e in events :: e.Step? && e.op.Remove? && takes(e.op.name)
  }

  lemma StillKept(before: Disk<string>, d: Disk<string>, after: Disk<string>, entries: seq<string>, removable: set<string>,
                  takes: string -> bool, name: string)
    requires KeepsUntaken(before, d, entries, removable, takes) && Sound(after)
    requires name in entries && name in removable && takes(name)
    requires after.present == d.present && after.anchored == d.anchored
    requires forall n | n != name :: Lookup(after, n) == Lookup(d, n) && (Durable(d, n) ==> Durable(after, n))
    ensures KeepsUntaken(before, after, entries, removable, takes)
  {
  }

  class Folder {
    var disk: Disk<string>
    ghost var events: seq<Event<string>>
    ghost var begun: Disk<string>

    ghost predicate Valid()
      reads this
    {
      && Safe(Markers(), begun) && Safe(Markers(), disk)
      && Reaches(Markers(), begun, events, disk, "")
    }

    constructor (d: Disk<string>)
      requires Safe(Markers(), d)
      ensures Valid() && disk == begun == d && events == []
    {
      disk, begun, events := d, d, [];
    }

    /** One step of the program, recorded. */
    ghost method Record(op: Op<string>)
      requires Valid() && Allowed(Markers(), disk, op)
      modifies this`events
      ensures events == old(events) + [Step(op)]
      ensures Safe(Markers(), Apply(Markers(), disk, op, ""))
      ensures Reaches(Markers(), begun, events, Apply(Markers(), disk, op, ""), "")
    {
      StepIsSafe(Markers(), disk, op, "");
      ReachesOneMore(Markers(), begun, events, disk, op, "");
      events := events + [Step(op)];
    }

    method CreateDirAll()
      requires Valid()
      modifies this
      ensures Valid() && begun == old(begun) && events == old(events) + [Step(MakeFolder)]
      ensures disk.present && disk.anchored == old(disk).anchored
      ensures forall n :: Lookup(disk, n) == Lookup(old(disk), n)
    {
      Record(MakeFolder);
      if !disk.present {
        disk := disk.(present := true, dirs := [map[]]);
      }
    }

    method OpenTruncated(name: string)
      requires Valid() && Allowed(Markers(), disk, OpenTemp(name))
      modifies this
      ensures Valid() && begun == old(begun) && events == old(events) + [Step(OpenTemp(name))]
      ensures Lookup(disk, name) == [File("", false)]
      ensures forall n | n != name :: Lookup(disk, n) == Lookup(old(disk), n)
      ensures disk.present == old(disk).present && disk.anchored == old(disk).anchored
    {
      ghost var before := disk;
      Record(OpenTemp(name));
      var dir := disk.dirs[|disk.dirs| - 1];
      if name in dir {
        disk := disk.(files := disk.files[dir[name] := File("", false)]);
      } else {
        disk := disk.(files := disk.files + [File("", false)], dirs := disk.dirs + [dir[name := |disk.files|]]);
      }
      OpenLeavesOthers(before, name);
    }

    method Write(name: string, data: string)
      requires Valid() && Allowed(Markers(), disk, WriteTemp(name, data))
      modifies this
      ensures Valid() && begun == old(begun) && events == old(events) + [Step(WriteTemp(name, data))]
      ensures Lookup(disk, name) == [File(data, false)]
      ensures forall n | n != name :: Lookup(disk, n) == Lookup(old(disk), n)
      ensures disk.present == old(disk).present && disk.anchored == old(disk).anchored
    {
      Record(WriteTemp(name, data));
      disk := disk.(files := disk.files[disk.dirs[|disk.dirs| - 1][name] := File(data, false)]);
    }

    method SyncAll(name: string)
      requires Valid() && Allowed(Markers(), disk, SyncTemp(name))
      modifies this
      ensures Valid() && begun == old(begun) && events == old(events) + [Step(SyncTemp(name))]
      ensures Lookup(disk, name) == [Lookup(old(disk), name)[0].(synced := true)]
      ensures forall n | n != name :: Lookup(disk, n) == Lookup(old(disk), n)
      ensures disk.present == old(disk).present && disk.anchored == old(disk).anchored
    {
      Record(SyncTemp(name));
      var inode := disk.dirs[|disk.dirs| - 1][name];
      disk := disk.(files := disk.files[inode := disk.files[inode].(synced := true)]);
    }

    method Rename(name: string, target: string)
      requires Valid() && Allowed(Markers(), disk, Promote(name, target))
      modifies this
      ensures Valid() && begun == old(begun) && events == old(events) + [Step(Promote(name, target))]
      ensures Lookup(disk, target) == Lookup(old(disk), name) && Lookup(disk, name) == []
      ensures forall n | n != name && n != target :: Lookup(disk, n) == Lookup(old(disk), n)
      ensures disk.present == old(disk).present && disk.anchored == old(disk).anchored
    {
      ghost var before := disk;
      Record(Promote(name, target));
      var dir := disk.dirs[|disk.dirs| - 1];
      disk := disk.(dirs := disk.dirs + [(dir - {name})[target := dir[name]]]);
      RenameLeavesOthers(before, name, target);
    }

    method RemoveFile(name: string)
      requires Valid()
      modifies this
      ensures Valid() && begun == old(begun) && events == old(events) + [Step(Remove(name))]
      ensures Lookup(disk, name) == []
      ensures forall n | n != name :: Lookup(disk, n) == Lookup(old(disk), n)
      ensures disk.present == old(disk).present && disk.anchored == old(disk).anchored
      ensures disk.files == old(disk).files
      ensures forall n | n != name && Durable(old(disk), n) :: Durable(disk, n)
    {
      ghost var before := disk;
      Record(Remove(name));
      RemoveLeavesOthers(before, name);
      var dir := disk.dirs[|disk.dirs| - 1];
      if name in dir {
        disk := disk.(dirs := disk.dirs + [dir - {name}]);
      }
    }

    method SyncDir()
      requires Valid() && disk.present
      modifies this
      ensures Valid() && begun == old(begun) && events == old(events) + [Step(SyncFolder)]
      ensures disk.dirs == [Now(old(disk))] && disk.files == old(disk).files
      ensures disk.present == old(disk).present && disk.anchored == old(disk).anchored
    {
      Record(SyncFolder);
      disk := disk.(dirs := [disk.dirs[|disk.dirs| - 1]]);
    }

    method SyncParentDir()
      requires Valid() && disk.present
      modifies this
      ensures Valid() && begun == old(begun) && events == old(events) + [Step(SyncParent)]
      ensures disk == old(disk).(anchored := true)
    {
      Record(SyncParent);
      disk := disk.(anchored := true);
    }

    /** Removes every listed name that is taken and can be removed, and nothing
        else; a removal that fails is left for the next write. */
    method RemoveListed(entries: seq<string>, removable: set<string>, takes: string -> bool)
      requires Valid()
      modifies this
      ensures Valid() && begun == old(begun) && old(events) <= events
      ensures RemovesOnlyTaken(events[|old(events)|..], takes)
      ensures Gone(disk, entries, removable, takes)
      ensures KeepsUntaken(old(disk), disk, entries, removable, takes)
    {
      for i := 0 to |entries|
        invariant Valid() && begun == old(begun) && old(events) <= events
        invariant RemovesOnlyTaken(events[|old(events)|..], takes)
        invariant Gone(disk, entries[..i], removable, takes)
        invariant KeepsUntaken(old(disk), disk, entries, removable, takes)
      {
        ghost var before, done := disk, events[|old(events)|..];
        if takes(entries[i]) && entries[i] in removable {
          RemoveFile(entries[i]);
          assert events[|old(events)|..] == done + [Step(Remove(entries[i]))];
          StillKept(old(disk), before, disk, entries, removable, takes, entries[i]);
        }
        OneMoreGone(before, disk, entries[..i], removable, takes, entries[i]);
        assert entries[..i + 1] == entries[..i] + [entries[i]];
      }
      assert entries[..|entries|] == entries;
    }

    /** Removes the old markers and temp files of one task. A listing that
        cannot be read sweeps nothing. */
    method SweepOldMarkers(task: string, cutoff: int, parse: string -> Option<int>, o: Outcomes)
      requires Valid()
      modifies this
      ensures Valid() && begun == old(begun) && old(events) <= events
      ensures forall i | |old(events)| <= i < |events| ::
                events[i].Step? && events[i].op.Remove? && Sweepable(events[i].op.name, task, cutoff, parse)
      ensures disk.present == old(disk).present && disk.anchored == old(disk).anchored
      ensures o.listing.Some? ==>
                forall n | n in o.listing.value && n in o.removable && Sweepable(n, task, cutoff, parse) :: Lookup(disk, n) == []
      ensures forall n | o.listing.None? || n !in o.listing.value || n !in o.removable || !Sweepable(n, task, cutoff, parse) ::
                Lookup(disk, n) == Lookup(old(disk), n) && (Durable(old(disk), n) ==> Durable(disk, n))
    {
      if o.listing.Some? {
        RemoveListed(o.listing.value, o.removable, n => Sweepable(n, task, cutoff, parse));
        assert forall i | |old(events)| <= i < |events| :: events[i] == events[|old(events)|..][i - |old(events)|];
      }
    }
  }

  ghost predicate OnlyTouches(events: seq<Event<string>>, from: nat, task: string, date: string) {
    forall i | from <= i < |events| :: events[i].Step? && (events[i].op.Remove? ==> events[i].op.name == TempName(task, date))
  }

  /** The temp file is created, filled and synced, or the write has failed. */
  method WriteTempFile(f: Folder, temp: string, contents: string, o: Outcomes) returns (ok: bool)
    requires f.Valid() && f.disk.present && EndsWith(temp, MARKER_TMP_SUFFIX) && !EndsWith(temp, MARKER_SUFFIX)
    modifies f
    ensures f.Valid() && f.begun == old(f.begun) && old(f.events) <= f.events
    ensures forall i | |old(f.events)| <= i < |f.events| :: f.events[i].Step? && !f.events[i].op.Remove?
    ensures f.disk.present && f.disk.anchored == old(f.disk).anchored
    ensures ok ==> Lookup(f.disk, temp) == [File(contents, true)]
    ensures forall n | n != temp :: Lookup(f.disk, n) == Lookup(old(f.disk), n)
    ensures ok <==> o.open && o.write && o.sync
  {
    if !o.open {
      return false;
    }
    f.OpenTruncated(temp);
    if !o.write {
      f.Write(temp, o.partial);
      return false;
    }
    f.Write(temp, contents);
    if !o.sync {
      return false;
    }
    f.SyncAll(temp);
    ok := true;
  }

  /** After a failure the temp file is removed, if that works. */
  method AbandonTempFile(f: Folder, temp: string, o: Outcomes)
    requires f.Valid()
    modifies f
    ensures f.Valid() && f.begun == old(f.begun) && old(f.events) <= f.events
    ensures forall i | |old(f.events)| <= i < |f.events| :: f.events[i] == Step(Remove(temp))
    ensures Lookup(f.disk, temp) == if o.removeTemp then [] else Lookup(old(f.disk), temp)
    ensures forall n | n != temp :: Lookup(f.disk, n) == Lookup(old(f.disk), n)
  {
    if o.removeTemp {
      f.RemoveFile(temp);
    }
  }

  /** The folder sync after the rename, and the parent's when this write made
      the folder. A failed sync never undoes the rename. */
  method SyncFolders(f: Folder, path: string, baseExisted: bool, o: Outcomes) returns (r: MarkerDurability)
    requires f.Valid() && f.disk.present && path in Now(f.disk)
    modifies f
    ensures f.Valid() && f.begun == old(f.begun) && old(f.events) <= f.events
    ensures forall i | |old(f.events)| <= i < |f.events| :: f.events[i].Step? && !f.events[i].op.Remove?
    ensures forall n :: Lookup(f.disk, n) == Lookup(old(f.disk), n)
    ensures f.disk.present && (f.disk.anchored <==> old(f.disk).anchored || (!baseExisted && o.parentSync))
    ensures r == DurableMarker <==> o.baseSync && (baseExisted || o.parentSync)
    ensures r == DurableMarker && f.disk.anchored ==> Durable(f.disk, path)
  {
    if o.baseSync {
      f.SyncDir();
    }
    var parentSync := None;
    if !baseExisted {
      if o.parentSync {
        f.SyncParentDir();
      }
      parentSync := Some(o.parentSync);
    }
    r := DurabilityAfterRename(o.baseSync, parentSync);
  }

  /** Only a complete, synced temp file is renamed onto the marker's name. */
  method PlaceMarker(f: Folder, task: string, date: string, build: string, baseExisted: bool, o: Outcomes)
    returns (r: MarkerDurability)
    requires f.Valid() && f.disk.present && |date| == 10 && ShortBuild(build)
    requires Lookup(f.disk, TempName(task, date)) == [File(Contents(build, date), true)]
    modifies f
    ensures f.Valid() && f.begun == old(f.begun) && old(f.events) <= f.events
    ensures forall i | |old(f.events)| <= i < |f.events| :: f.events[i].Step? && !f.events[i].op.Remove?
    ensures Lookup(f.disk, MarkerName(task, date)) == [File(Contents(build, date), true)] && Lookup(f.disk, TempName(task, date)) == []
    ensures forall n | n != MarkerName(task, date) && n != TempName(task, date) :: Lookup(f.disk, n) == Lookup(old(f.disk), n)
    ensures f.disk.present && (f.disk.anchored <==> old(f.disk).anchored || (!baseExisted && o.parentSync))
    ensures r == DurableMarker <==> o.baseSync && (baseExisted || o.parentSync)
    ensures r == DurableMarker && f.disk.anchored ==> Durable(f.disk, MarkerName(task, date))
  {
    NamesAreTold(task, date);
    MayPromote(f.disk, task, date, build);
    f.Rename(TempName(task, date), MarkerName(task, date));
    r := SyncFolders(f, MarkerName(task, date), baseExisted, o);
  }

  lemma MayPromote(d: Disk<string>, task: string, date: string, build: string)
    requires Sound(d) && |date| == 10 && ShortBuild(build)
    requires Lookup(d, TempName(task, date)) == [File(Contents(build, date), true)]
    ensures Allowed(Markers(), d, Promote(TempName(task, date), MarkerName(task, date)))
  {
    NamesAreTold(task, date);
    assert CompleteMarker(MarkerName(task, date), Contents(build, date));
  }

  /** The write once its folder is there. */
  method WriteInFolder(f: Folder, task: string, date: string, build: string, baseExisted: bool, o: Outcomes)
    returns (r: Option<MarkerDurability>)
    requires f.Valid() && f.disk.present && |date| == 10 && ShortBuild(build)
    modifies f
    ensures f.Valid() && f.begun == old(f.begun) && old(f.events) <= f.events
    ensures OnlyTouches(f.events, |old(f.events)|, task, date)
    ensures r.None? ==> Lookup(f.disk, MarkerName(task, date)) == Lookup(old(f.disk), MarkerName(task, date))
    ensures r.Some? ==> Lookup(f.disk, MarkerName(task, date)) == [File(Contents(build, date), true)]
    ensures r.Some? <==> o.open && o.write && o.sync && o.rename
    ensures r.Some? || o.removeTemp ==> Lookup(f.disk, TempName(task, date)) == []
    ensures r.Some? ==> f.disk.present && (f.disk.anchored <==> old(f.disk).anchored || (!baseExisted && o.parentSync))
    ensures r == Some(DurableMarker) <==> r.Some? && o.baseSync && (baseExisted || o.parentSync)
    ensures r == Some(DurableMarker) && f.disk.anchored ==> Durable(f.disk, MarkerName(task, date))
    ensures forall n | n != MarkerName(task, date) && n != TempName(task, date) :: Lookup(f.disk, n) == Lookup(old(f.disk), n)
  {
    NamesAreTold(task, date);
    var written := WriteTempFile(f, TempName(task, date), Contents(build, date), o);
    if !written || !o.rename {
      AbandonTempFile(f, TempName(task, date), o);
      return None;
    }
    var durability := PlaceMarker(f, task, date, build, baseExisted, o);
    r := Some(durability);
  }

  /** One marker write, with every system call that can fail. None is the
      error result. */
  method WriteMarker(f: Folder, task: string, date: string, build: string, o: Outcomes)
    returns (r: Option<MarkerDurability>)
    requires f.Valid() && |date| == 10 && ShortBuild(build)
    modifies f
    ensures f.Valid() && f.begun == old(f.begun) && old(f.events) <= f.events
    ensures OnlyTouches(f.events, |old(f.events)|, task, date)
    ensures r.None? ==> Lookup(f.disk, MarkerName(task, date)) == Lookup(old(f.disk), MarkerName(task, date))
    ensures r.Some? ==> Lookup(f.disk, MarkerName(task, date)) == [File(Contents(build, date), true)]
    ensures r.Some? <==> o.makeFolder && o.open && o.write && o.sync && o.rename
    ensures r.Some? || (o.makeFolder && o.removeTemp) ==> Lookup(f.disk, TempName(task, date)) == []
    ensures !o.makeFolder ==> f.disk == old(f.disk)
    ensures r.Some? ==> f.disk.present && (f.disk.anchored <==> old(f.disk).anchored || (!old(f.disk).present && o.parentSync))
    ensures r == Some(DurableMarker) <==> r.Some? && o.baseSync && (old(f.disk).present || o.parentSync)
    ensures r == Some(DurableMarker) ==>
              (Durable(f.disk, MarkerName(task, date)) <==> (old(f.disk).present ==> old(f.disk).anchored))
    ensures forall n | n != MarkerName(task, date) && n != TempName(task, date) :: Lookup(f.disk, n) == Lookup(old(f.disk), n)
  {
    var baseExisted := f.disk.present;
    if !o.makeFolder {
      return None;
    }
    f.CreateDirAll();
    r := WriteInFolder(f, task, date, build, baseExisted, o);
  }

  /** The steps of one write and its sweep: of all names they remove only the
      own temp file and what is sweepable. */
  ghost predicate RemovesOnlyOld(events: seq<Event<string>>, from: nat, task: string, date: string, cutoff: int, parse: string -> Option<int>) {
    forall i | from <= i < |events| ::
      events[i].Step? && (events[i].op.Remove? ==>
        events[i].op.name == TempName(task, date) || Sweepable(events[i].op.name, task, cutoff, parse))
  }

  /** So a marker is removed only by a write of its own task whose cutoff has
      passed its date. */
  lemma RemovedOnlyWhenCutoffPassed(events: seq<Event<string>>, from: nat, task: string, date: string, cutoff: int,
                                    parse: string -> Option<int>, other: string, day: string)
    requires RemovesOnlyOld(events, from, task, date, cutoff, parse) && DateParser(parse)
    requires |date| == 10 && PlainDate(day) && !DashPadded(task, other) && from <= |events|
    requires Step(Remove(MarkerName(other, day))) in events[from..]
    ensures other == task && IsOld(day, cutoff, parse)
  {
    var i :| 0 <= i < |events[from..]| && events[from..][i] == Step(Remove(MarkerName(other, day)));
    assert events[from + i] == Step(Remove(MarkerName(other, day)));
    NamesAreTold(task, date);
    NamesAreTold(other, day);
    OneSuffixOnly(MarkerName(other, day));
    assert MarkerName(other, day) != TempName(task, date);
    if other != task {
      SweepSparesOtherTasks(task, other, day, cutoff, parse);
    }
    SweepTakesOldDates(task, day, cutoff, parse);
  }

  /** The first day that is kept: so many days before the one written, and a
      negative number counts as none. */
  function Cutoff(today: int, keepDays: int): (cutoff: int)
    ensures cutoff <= today
  {
    today - if keepDays < 0 then 0 else keepDays
  }

  /** The whole write: the marker, and after a success the sweep, unless the
      horizon lies before the earliest date there is. The day just written keeps
      its file. After a success each older marker of the task that is listed and
      can be removed is gone; every name the sweep does not take keeps its file:
      later days of the task and, but for dash-padded ones, other tasks. */
  method WriteMarkerAndSweep(f: Folder, task: string, date: string, build: string, today: int, keepDays: int, earliest: int,
                             parse: string -> Option<int>, o: Outcomes)
    returns (r: Option<MarkerDurability>)
    requires f.Valid() && |date| == 10 && ShortBuild(build)
    requires parse(date) == Some(today)
    modifies f
    ensures f.Valid() && f.begun == old(f.begun) && old(f.events) <= f.events
    ensures RemovesOnlyOld(f.events, |old(f.events)|, task, date, Cutoff(today, keepDays), parse)
    ensures r.Some? <==> o.makeFolder && o.open && o.write && o.sync && o.rename
    ensures var keep := if keepDays < 0 then 0 else keepDays;
            r.Some? && o.listing.Some? && today - keep >= earliest ==>
              forall day | parse(day).Some? && parse(day).value < today - keep
                           && MarkerName(task, day) in o.listing.value && MarkerName(task, day) in o.removable ::
                Lookup(f.disk, MarkerName(task, day)) == []
    ensures r.Some? ==> Lookup(f.disk, MarkerName(task, date)) == [File(Contents(build, date), true)]
    ensures r == Some(DurableMarker) ==>
              (Durable(f.disk, MarkerName(task, date)) <==> (old(f.disk).present ==> old(f.disk).anchored))
    ensures forall other, day | |day| == 10 && (other != task || day != date)
                                && !(r.Some? && o.listing.Some? && MarkerName(other, day) in o.listing.value
                                     && MarkerName(other, day) in o.removable && Cutoff(today, keepDays) >= earliest
                                     && Sweepable(MarkerName(other, day), task, Cutoff(today, keepDays), parse)) ::
              Lookup(f.disk, MarkerName(other, day)) == Lookup(old(f.disk), MarkerName(other, day))
  {
    var cutoff := Cutoff(today, keepDays);
    r := WriteMarker(f, task, date, build, o);
    forall other, day | |day| == 10 && (other != task || day != date)
      ensures MarkerName(other, day) != MarkerName(task, date) && MarkerName(other, day) != TempName(task, date)
    {
      NamesDiffer(task, date, other, day);
    }
    if r.Some? && cutoff >= earliest {
      SweepTakesOldDates(task, date, cutoff, parse);
      f.SweepOldMarkers(task, cutoff, parse, o);
      forall day | parse(day).Some? && parse(day).value < cutoff ensures Sweepable(MarkerName(task, day), task, cutoff, parse) {
        SweepTakesOldDates(task, day, cutoff, parse);
      }
    }
  }

  // ------------------------------------------------- crashes and many writes

  /** A crash after any step of any writes: the part before it is itself a run,
      and whatever the crash leaves is safe, so the reader says yes there only
      for a complete, synced marker of that day. */
  lemma AnyCrashLeavesTheTruth(f: Folder, k: nat, task: string, date: string) returns (d: Disk<string>)
    requires f.Valid() && k <= |f.events| && |date| == 10
    ensures Reaches(Markers(), f.begun, f.events[..k], d, "") && Safe(Markers(), d)
    ensures forall left | CrashTo(d, left) ::
              && Safe(Markers(), left)
              && (DayIsMarked(left, task, date) <==> MarkerName(task, date) in Now(left))
              && (DayIsMarked(left, task, date) ==> IsComplete(left, task, date))
  {
    d := CutShort(Markers(), f.begun, f.events, f.disk, k, "");
    forall left | CrashTo(d, left)
      ensures Safe(Markers(), left)
      ensures DayIsMarked(left, task, date) <==> MarkerName(task, date) in Now(left)
      ensures DayIsMarked(left, task, date) ==> IsComplete(left, task, date)
    {
      CrashIsSafe(Markers(), d, left);
      ReaderIsExact(left, task, date);
    }
  }

  ghost predicate IsComplete(d: Disk<string>, task: string, date: string)
    requires Sound(d)
  {
    exists build :: ShortBuild(build) && Lookup(d, MarkerName(task, date)) == [File(Contents(build, date), true)]
  }

  /** What one write of one task did, up to its end or to a crash, and any
      crashes after it. */
  datatype Chapter = Chapter(task: string, date: string, cutoff: int, events: seq<Event<string>>)

  ghost predicate ByItsWrite(c: Chapter, parse: string -> Option<int>) {
    && |c.date| == 10
    && forall e | e in c.events && e.Step? && e.op.Remove? ::
         e.op.name == TempName(c.task, c.date) || Sweepable(e.op.name, c.task, c.cutoff, parse)
  }

  /** A write cut short after any step, and what a crash then left, is a chapter. */
  lemma WriteIsAChapter(events: seq<Event<string>>, from: nat, to: nat, task: string, date: string, cutoff: int,
                        parse: string -> Option<int>, crashes: seq<Event<string>>)
    requires RemovesOnlyOld(events, from, task, date, cutoff, parse) && from <= to <= |events| && |date| == 10
    requires forall e | e in crashes :: e.Crash?
    ensures ByItsWrite(Chapter(task, date, cutoff, events[from..to] + crashes), parse)
  {
    forall e | e in events[from..to] + crashes && e.Step? && e.op.Remove?
      ensures e.op.name == TempName(task, date) || Sweepable(e.op.name, task, cutoff, parse)
    {
      var i :| 0 <= i < to - from && events[from..to][i] == e;
      assert events[from + i] == e;
    }
  }

  ghost function AllEvents(chapters: seq<Chapter>): seq<Event<string>> {
    if chapters == [] then [] else chapters[0].events + AllEvents(chapters[1..])
  }

  lemma {:induction false} NeverRemoved(chapters: seq<Chapter>, name: string)
    requires forall c | c in chapters :: Step(Remove(name)) !in c.events
    ensures Step(Remove(name)) !in AllEvents(chapters)
  {
    if chapters != [] {
      NeverRemoved(chapters[1..], name);
    }
  }

  /** A durable marker is read after any sequence of writes of any tasks, each
      finished or cut short by a crash, until a write of its own task whose
      cutoff passes its date (or one of a task it is dash-padded for). */
  lemma MarkerLastsUntilSwept(d: Disk<string>, chapters: seq<Chapter>, d': Disk<string>, task: string, date: string,
                              parse: string -> Option<int>)
    requires Safe(Markers(), d) && Durable(d, MarkerName(task, date))
    requires DateParser(parse) && PlainDate(date)
    requires forall c | c in chapters :: ByItsWrite(c, parse)
    requires forall c | c in chapters :: if c.task == task then !IsOld(date, c.cutoff, parse) else !DashPadded(c.task, task)
    requires Reaches(Markers(), d, AllEvents(chapters), d', "")
    ensures Sound(d') && DayIsMarked(d', task, date)
  {
    forall c | c in chapters ensures Step(Remove(MarkerName(task, date))) !in c.events {
      NoChapterRemoves(c, task, date, parse);
    }
    NeverRemoved(chapters, MarkerName(task, date));
    MarkerOutlivesRun(d, AllEvents(chapters), d', task, date);
  }

  lemma NoChapterRemoves(c: Chapter, task: string, date: string, parse: string -> Option<int>)
    requires DateParser(parse) && PlainDate(date) && ByItsWrite(c, parse)
    requires if c.task == task then !IsOld(date, c.cutoff, parse) else !DashPadded(c.task, task)
    ensures Step(Remove(MarkerName(task, date))) !in c.events
  {
    NamesAreTold(c.task, c.date);
    NamesAreTold(task, date);
    if c.task == task {
      SweepTakesOldDates(task, date, c.cutoff, parse);
    } else {
      SweepSparesOtherTasks(c.task, task, date, c.cutoff, parse);
    }
  }

  /** The limit of the durability answer: after a write whose parent sync
      failed, the next write finds the folder, answers `Durable`, and a crash
      still takes everything. */
  method DurableCanOverclaim(date: string) returns (f: Folder, r: Option<MarkerDurability>, ghost left: Disk<string>)
    requires |date| == 10
    ensures r == Some(DurableMarker) && Sound(f.disk) && DayIsMarked(f.disk, "b", date)
    ensures CrashTo(f.disk, left) && !left.present && Sound(left) && !DayIsMarked(left, "b", date)
  {
    var fine := Outcomes(true, true, true, "", true, true, true, true, true, None, {});
    f := new Folder(Disk([], [map[]], false, false));
    r := WriteMarker(f, "a", date, "1", fine.(parentSync := false));
    r := WriteMarker(f, "b", date, "1", fine);
    assert f.disk.present by { assert MarkerName("b", date) in Now(f.disk); }
    ReaderIsExact(f.disk, "b", date);
    left := UnanchoredFolderCanVanish(f.disk);
  }
}
