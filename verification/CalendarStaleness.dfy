/** The holiday-calendar watchdog: when to page, the file that carries the ISO
    week last paged across restarts, and what a whole run of boots and checks
    can do. */
module CalendarStaleness {
  import opened Decimal
  import opened Integers
  import opened Wrappers

  const COVERAGE_WARN_THRESHOLD_DAYS: int := 60
  const WEEKLY_PAGE_ABOVE_DAYS: int := 14
  const WEEK_READ_CAP_BYTES: nat := 64
  const WEEK_PREFIX: string := "iso_week="

  // --------------------------------------------------- ISO weeks

  /** A day is its number in the proleptic Gregorian calendar; day 1 is Monday
      1 January of the year 1. A week is seven days from a Monday. */
  function WeekIndex(day: int): int {
    (day - 1) / 7
  }

  /** The day number of 1 January. */
  function YearStart(year: int): int {
    365 * (year - 1) + (year - 1) / 4 - (year - 1) / 100 + (year - 1) / 400 + 1
  }

  /** An ISO year begins with the week that holds 4 January (section 4.1.4 of
      ISO 8601:2004). */
  function FirstWeek(year: int): int {
    WeekIndex(YearStart(year) + 3)
  }

  lemma Every4(n: int)
    ensures (n + 1) / 4 - n / 4 == if (n + 1) % 4 == 0 then 1 else 0
  {
  }

  lemma Every100(n: int)
    ensures (n + 1) / 100 - n / 100 == if (n + 1) % 100 == 0 then 1 else 0
  {
  }

  lemma Every400(n: int)
    ensures (n + 1) / 400 - n / 400 == if (n + 1) % 400 == 0 then 1 else 0
  {
  }

  lemma CenturiesAreEvery4(m: int)
    ensures m % 100 == 0 ==> m % 4 == 0
    ensures m % 400 == 0 ==> m % 100 == 0
  {
  }

  /** Leap years are those divisible by four, except the centuries not
      divisible by 400; and day 1 begins the year 1. */
  lemma YearHasWholeDays(year: int)
    ensures YearStart(year + 1) - YearStart(year) == if year % 4 == 0 && (year % 100 != 0 || year % 400 == 0) then 366 else 365
    ensures YearStart(1) == 1
  {
    var n := year - 1;
    Every4(n);
    Every100(n);
    Every400(n);
    CenturiesAreEvery4(n + 1);
  }

  lemma WeeksApart(a: int, b: int)
    requires 364 <= b - a <= 370
    ensures 52 <= WeekIndex(b) - WeekIndex(a) <= 53
  {
  }

  lemma YearHasWholeWeeks(year: int)
    ensures 52 <= FirstWeek(year + 1) - FirstWeek(year) <= 53
  {
    YearHasWholeDays(year);
    WeeksApart(YearStart(year) + 3, YearStart(year + 1) + 3);
  }

  /** The year before `bound` whose weeks hold this one, sought downwards. */
  function YearBelow(week: int, bound: int): (year: int)
    requires week < FirstWeek(bound)
    ensures FirstWeek(year) <= week < FirstWeek(year + 1)
    decreases FirstWeek(bound) - week
  {
    YearHasWholeWeeks(bound - 1);
    if FirstWeek(bound - 1) <= week then bound - 1 else YearBelow(week, bound - 1)
  }

  /** The same, sought upwards from `from`. */
  function YearFrom(week: int, from: int): (year: int)
    requires FirstWeek(from) <= week
    ensures FirstWeek(year) <= week < FirstWeek(year + 1)
    decreases week - FirstWeek(from)
  {
    YearHasWholeWeeks(from);
    if week < FirstWeek(from + 1) then from else YearFrom(week, from + 1)
  }

  function IsoYear(week: int): (year: int)
    ensures FirstWeek(year) <= week < FirstWeek(year + 1)
  {
    if week < FirstWeek(1) then YearBelow(week, 1) else YearFrom(week, 1)
  }

  datatype IsoWeek = IsoWeek(year: int, week: nat)

  function IsoWeekOf(day: int): (w: IsoWeek)
    ensures 1 <= w.week <= 53
    ensures WeekIndex(day) == FirstWeek(w.year) + w.week - 1
  {
    var year := IsoYear(WeekIndex(day));
    YearHasWholeWeeks(year);
    IsoWeek(year, WeekIndex(day) - FirstWeek(year) + 1)
  }

  /** The rule of the standard (section 2.2.10 of ISO 8601:2004): a week belongs
      to the year that holds its Thursday, and is numbered by how many Thursdays
      of that year came before. */
  lemma ThursdayDecides(day: int)
    ensures var w := IsoWeekOf(day); var thursday := 7 * WeekIndex(day) + 4;
            && thursday - 3 <= day <= thursday + 3
            && YearStart(w.year) <= thursday < YearStart(w.year + 1)
            && w.week == (thursday - YearStart(w.year)) / 7 + 1
  {
    var w := IsoWeekOf(day);
    YearHasWholeDays(w.year);
    ThursdayOf(day, WeekIndex(day), w.year, YearStart(w.year), YearStart(w.year + 1));
    WeekCount(WeekIndex(day), YearStart(w.year));
  }

  lemma ThursdayOf(day: int, week: int, year: int, start: int, next: int)
    requires week == (day - 1) / 7 && start + 365 <= next
    requires (start + 2) / 7 <= week < (next + 2) / 7
    ensures 7 * week + 1 <= day <= 7 * week + 7
    ensures start <= 7 * week + 4 < next
  {
  }

  lemma WeekCount(week: int, start: int)
    ensures week - (start + 2) / 7 + 1 == (7 * week + 4 - start) / 7 + 1
  {
  }

  /** The days the date type can hold: their ISO year fits its 32-bit field. */
  predicate IsDate(day: int) {
    I32_MIN <= IsoWeekOf(day).year <= I32_MAX
  }

  lemma {:induction false} FirstWeekIsMonotone(a: int, b: int)
    requires a < b
    ensures FirstWeek(a + 1) <= FirstWeek(b)
    decreases b - a
  {
    if a + 1 < b {
      YearHasWholeWeeks(b - 1);
      FirstWeekIsMonotone(a, b - 1);
    }
  }

  /** The key names the week: two days share it exactly when no Monday lies
      between them. */
  lemma SameKeySameWeek(a: int, b: int)
    ensures IsoWeekOf(a) == IsoWeekOf(b) <==> WeekIndex(a) == WeekIndex(b)
  {
    var x, y := IsoWeekOf(a), IsoWeekOf(b);
    if WeekIndex(a) == WeekIndex(b) {
      IsoYearIsUnique(WeekIndex(a), x.year, y.year);
    }
  }

  lemma IsoYearIsUnique(week: int, a: int, b: int)
    requires FirstWeek(a) <= week < FirstWeek(a + 1)
    requires FirstWeek(b) <= week < FirstWeek(b + 1)
    ensures a == b
  {
    if a < b {
      FirstWeekIsMonotone(a, b);
    } else if b < a {
      FirstWeekIsMonotone(b, a);
    }
  }

  // --------------------------------------------------- the week file

  function FormatWeek(w: IsoWeek): string {
    WEEK_PREFIX + SignedDecimal(w.year) + "-W" + TwoDigits(w.week) + "\n"
  }

  function TrimNewlines(s: string): string {
    if s != [] && s[|s| - 1] == '\n' then TrimNewlines(s[..|s| - 1]) else s
  }

  /** Where the first `-W` stands, at or after `i`. */
  function FindDashW(s: string, i: nat): Option<nat>
    decreases |s| - i
  {
    if i + 2 > |s| then None
    else if s[i] == '-' && s[i + 1] == 'W' then Some(i)
    else FindDashW(s, i + 1)
  }

  function ParseWeek(value: string): Option<IsoWeek> {
    match FindDashW(value, 0)
    case None => None
    case Some(i) =>
      if i + 2 > |value| then None
      else
        match (ParseSigned(value[..i], I32_MIN, I32_MAX), ParseUnsigned(value[i + 2..], U32_MAX))
        case (Some(year), Some(week)) => if 1 <= week <= 53 then Some(IsoWeek(year, week)) else None
        case _ => None
  }

  /** The file as bytes, one per character; a byte outside ASCII cannot be part
      of a line this accepts. */
  function ReadWeek(content: string): Option<IsoWeek> {
    var text := if |content| > WEEK_READ_CAP_BYTES then content[..WEEK_READ_CAP_BYTES] else content;
    var line := TrimNewlines(text);
    if WEEK_PREFIX <= line then ParseWeek(line[|WEEK_PREFIX|..]) else None
  }

  lemma {:induction false} DashWIsFirst(front: string, back: string, i: nat)
    requires i <= |front| && 'W' !in front
    ensures FindDashW(front + "-W" + back, i) == Some(|front|)
    decreases |front| - i
  {
    var s := front + "-W" + back;
    if i < |front| {
      assert s[i + 1] == if i + 1 < |front| then front[i + 1] else '-';
      DashWIsFirst(front, back, i + 1);
    } else {
      assert s[i] == '-' && s[i + 1] == 'W';
    }
  }

  lemma DigitsAreDigits(s: string, c: char)
    requires AllDigits(s) && !IsDigit(c)
    ensures c !in s
  {
  }

  lemma YearText(year: int)
    requires I32_MIN <= year <= I32_MAX
    ensures |SignedDecimal(year)| <= 11 && 'W' !in SignedDecimal(year)
    ensures ParseSigned(SignedDecimal(year), I32_MIN, I32_MAX) == Some(year)
  {
    SignedDecimalRoundTrip(year);
    var n := if year < 0 then -year else year;
    TenDigits(n);
    DigitsAreDigits(ToDecimal(n), 'W');
  }

  lemma TenDigits(n: nat)
    requires n <= 0x8000_0000
    ensures |ToDecimal(n)| <= 10
  {
    assert Pow10(2) == 100 by { assert Pow10(1) == 10; }
    assert Pow10(4) == 10000 by { assert Pow10(3) == 1000; }
    assert Pow10(6) == 1000000 by { assert Pow10(5) == 100000; }
    assert Pow10(8) == 100000000 by { assert Pow10(7) == 10000000; }
    assert Pow10(10) == 10000000000 by { assert Pow10(9) == 1000000000; }
    ToDecimalWidth(n, 10);
  }

  lemma WeekText(week: nat)
    requires 1 <= week <= 53
    ensures |TwoDigits(week)| == 2 && IsDigit(TwoDigits(week)[1])
    ensures ParseUnsigned(TwoDigits(week), U32_MAX) == Some(week)
  {
    assert IsDigit(TwoDigits(week)[0]);
  }

  lemma ValueReadsBack(year: int, week: nat)
    requires I32_MIN <= year <= I32_MAX && 1 <= week <= 53
    ensures ParseWeek(SignedDecimal(year) + "-W" + TwoDigits(week)) == Some(IsoWeek(year, week))
  {
    var front, back := SignedDecimal(year), TwoDigits(week);
    YearText(year);
    WeekText(week);
    DashWIsFirst(front, back, 0);
    var value := front + "-W" + back;
    assert value[..|front|] == front;
    assert value[|front| + 2..] == back;
  }

  lemma OneNewlineGoes(line: string)
    requires line != [] && line[|line| - 1] != '\n'
    ensures TrimNewlines(line + "\n") == line
  {
    assert (line + "\n")[..|line|] == line;
  }

  /** Whatever week is written, the next start reads it back. */
  lemma ReadUndoesWrite(w: IsoWeek)
    requires I32_MIN <= w.year <= I32_MAX && 1 <= w.week <= 53
    ensures ReadWeek(FormatWeek(w)) == Some(w)
  {
    YearText(w.year);
    WeekText(w.week);
    var value := SignedDecimal(w.year) + "-W" + TwoDigits(w.week);
    var line := WEEK_PREFIX + value;
    assert FormatWeek(w) == line + "\n";
    assert line[|line| - 1] == TwoDigits(w.week)[1];
    OneNewlineGoes(line);
    assert line[|WEEK_PREFIX|..] == value;
    ValueReadsBack(w.year, w.week);
  }

  ghost predicate AllNewlines(s: string) {
    forall i | 0 <= i < |s| :: s[i] == '\n'
  }

  /** The year and week texts of a line. */
  ghost predicate IsWeekLine(text: string, w: IsoWeek, year: string, week: string, newlines: string) {
    && text == "iso_week=" + year + "-W" + week + newlines && AllNewlines(newlines)
    && ReadInteger(year) == Some(w.year) && I32_MIN <= w.year <= I32_MAX
    && ParseUnsigned(week, U32_MAX) == Some(w.week) && 1 <= w.week <= 53
  }

  lemma {:induction false} NewlinesGo(line: string, newlines: string)
    requires line != "" && line[|line| - 1] != '\n' && AllNewlines(newlines)
    ensures TrimNewlines(line + newlines) == line
  {
    if newlines == "" {
      assert line + newlines == line;
    } else {
      NewlinesGo(line, newlines[..|newlines| - 1]);
      assert (line + newlines)[..|line + newlines| - 1] == line + newlines[..|newlines| - 1];
    }
  }

  lemma {:induction false} TrimTakesNewlines(s: string) returns (newlines: string)
    ensures AllNewlines(newlines) && s == TrimNewlines(s) + newlines
  {
    if s != [] && s[|s| - 1] == '\n' {
      var fewer := TrimTakesNewlines(s[..|s| - 1]);
      newlines := fewer + "\n";
      assert s == s[..|s| - 1] + "\n";
    } else {
      newlines := "";
    }
  }

  lemma {:induction false} FoundDashW(s: string, i: nat)
    requires FindDashW(s, i).Some?
    ensures var at := FindDashW(s, i).value; i <= at && at + 2 <= |s| && s[at] == '-' && s[at + 1] == 'W'
    decreases |s| - i
  {
    if !(s[i] == '-' && s[i + 1] == 'W') {
      FoundDashW(s, i + 1);
    }
  }

  lemma IntegersHaveNoW(year: string, n: int)
    requires ReadInteger(year) == Some(n)
    ensures 'W' !in year
  {
    SplitSign(year, n);
  }

  /** What the reader accepts, and nothing else: within the first 64 bytes the
      prefix, a 32-bit year, `-W`, a week from 1 to 53, and newlines. */
  lemma ReadExactly(content: string, w: IsoWeek)
    ensures var text := if |content| > 64 then content[..64] else content;
            ReadWeek(content) == Some(w) <==> exists year, week, newlines :: IsWeekLine(text, w, year, week, newlines)
  {
    var text := if |content| > 64 then content[..64] else content;
    if ReadWeek(content) == Some(w) {
      var year, week, newlines := AcceptedIsALine(text, w);
    }
    if year, week, newlines :| IsWeekLine(text, w, year, week, newlines) {
      LineIsAccepted(text, w, year, week, newlines);
    }
  }

  lemma AcceptedIsALine(text: string, w: IsoWeek) returns (year: string, week: string, newlines: string)
    requires WEEK_PREFIX <= TrimNewlines(text) && ParseWeek(TrimNewlines(text)[|WEEK_PREFIX|..]) == Some(w)
    ensures IsWeekLine(text, w, year, week, newlines)
  {
    var line := TrimNewlines(text);
    newlines := TrimTakesNewlines(text);
    year, week := ValueSplits(line[|WEEK_PREFIX|..], w);
    assert line == WEEK_PREFIX + line[|WEEK_PREFIX|..];
    Flatten(WEEK_PREFIX, year, week, newlines);
  }

  lemma ValueSplits(value: string, w: IsoWeek) returns (year: string, week: string)
    requires ParseWeek(value) == Some(w)
    ensures value == year + "-W" + week
    ensures ReadInteger(year) == Some(w.year) && I32_MIN <= w.year <= I32_MAX
    ensures ParseUnsigned(week, U32_MAX) == Some(w.week) && 1 <= w.week <= 53
  {
    FoundDashW(value, 0);
    var at := FindDashW(value, 0).value;
    year, week := value[..at], value[at + 2..];
    AroundDashW(value, at);
  }

  lemma AroundDashW(value: string, at: nat)
    requires at + 2 <= |value| && value[at] == '-' && value[at + 1] == 'W'
    ensures value == value[..at] + "-W" + value[at + 2..]
  {
    assert value == value[..at] + [value[at], value[at + 1]] + value[at + 2..];
    assert [value[at], value[at + 1]] == "-W";
  }

  lemma Flatten(a: string, b: string, c: string, d: string)
    ensures a + (b + "-W" + c) + d == a + b + "-W" + c + d
  {
  }

  lemma LineIsAccepted(text: string, w: IsoWeek, year: string, week: string, newlines: string)
    requires IsWeekLine(text, w, year, week, newlines)
    ensures WEEK_PREFIX <= TrimNewlines(text) && ParseWeek(TrimNewlines(text)[|WEEK_PREFIX|..]) == Some(w)
  {
    var value := year + "-W" + week;
    var line := WEEK_PREFIX + value;
    Flatten(WEEK_PREFIX, year, week, newlines);
    assert line[|line| - 1] == week[|week| - 1];
    NewlinesGo(line, newlines);
    assert line[|WEEK_PREFIX|..] == value;
    ValueIsParsed(w, year, week);
  }

  lemma ValueIsParsed(w: IsoWeek, year: string, week: string)
    requires ReadInteger(year) == Some(w.year) && I32_MIN <= w.year <= I32_MAX
    requires ParseUnsigned(week, U32_MAX) == Some(w.week) && 1 <= w.week <= 53
    ensures ParseWeek(year + "-W" + week) == Some(w)
  {
    var value := year + "-W" + week;
    IntegersHaveNoW(year, w.year);
    DashWIsFirst(year, week, 0);
    assert value[..|year|] == year && value[|year| + 2..] == week;
  }

  // --------------------------------------------------- one check

  predicate IsCoverageStale(remaining: Option<int>) {
    match remaining
    case None => true
    case Some(days) => days < COVERAGE_WARN_THRESHOLD_DAYS
  }

  predicate InWeeklyBand(remaining: Option<int>) {
    remaining.Some? && WEEKLY_PAGE_ABOVE_DAYS < remaining.value
  }

  predicate ShouldPageNow(remaining: Option<int>, today: int, lastAlerted: Option<int>, lastPagedWeek: Option<IsoWeek>) {
    if !IsCoverageStale(remaining) || lastAlerted == Some(today) then false
    else !InWeeklyBand(remaining) || lastPagedWeek != Some(IsoWeekOf(today))
  }

  /** How the write of the week file ended: whole and synced; renamed but the
      folder not synced; or not renamed. */
  datatype WriteOutcome = Written | RenamedUnsynced | NotWritten

  /** A start of the process (after a power cut, the file is what was synced),
      or one check. */
  datatype Event =
    | Boot(readOk: bool, powerCut: bool)
    | Check(day: int, remaining: Option<int>, notifierUp: bool, write: WriteOutcome)

  datatype Act = Quiet | WarnedNoNotifier | Paged

  /** The week file as seen now and as it would be after a power cut, and the
      loop's three variables. */
  datatype World = World(file: Option<string>, synced: Option<string>, lastAlerted: Option<int>,
                         lastPagedWeek: Option<IsoWeek>, lastWarned: Option<int>)

  function ReadFile(file: Option<string>): Option<IsoWeek> {
    match file
    case None => None
    case Some(content) => ReadWeek(content)
  }

  ghost function ActOf(w: World, e: Event): Act {
    if e.Boot? || !ShouldPageNow(e.remaining, e.day, w.lastAlerted, w.lastPagedWeek) then Quiet
    else if e.notifierUp then Paged
    else if w.lastWarned != Some(e.day) then WarnedNoNotifier
    else Quiet
  }

  ghost function Next(w: World, e: Event): World {
    match e
    case Boot(readOk, powerCut) =>
      var file := if powerCut then w.synced else w.file;
      World(file, w.synced, None, if readOk then ReadFile(file) else None, None)
    case Check(day, remaining, notifierUp, write) =>
      match ActOf(w, e)
      case Quiet => w
      case WarnedNoNotifier => w.(lastWarned := Some(day))
      case Paged =>
        var line := Some(FormatWeek(IsoWeekOf(day)));
        World(if write == NotWritten then w.file else line, if write == Written then line else w.synced,
              Some(day), Some(IsoWeekOf(day)), w.lastWarned)
  }

  /** When a check acts, by the days that are left: with 60 or more never; with
      14 or fewer, or no calendar at all, once a day; and in between only when
      the week last paged is another one. It pages if the notifier is up, and
      otherwise warns once a day. */
  lemma CheckActsExactly(w: World, e: Event)
    requires e.Check?
    ensures var due := w.lastAlerted != Some(e.day)
                       && match e.remaining
                          case None => true
                          case Some(days) => days <= 14 || (days < 60 && w.lastPagedWeek != Some(IsoWeekOf(e.day)));
            && (ActOf(w, e) == Paged <==> due && e.notifierUp)
            && (ActOf(w, e) == WarnedNoNotifier <==> due && !e.notifierUp && w.lastWarned != Some(e.day))
  {
  }

  /** The folder that holds the week file. */
  class WeekFile {
    var content: Option<string>
    var synced: Option<string>

    method Write(week: IsoWeek, outcome: WriteOutcome)
      modifies this
      ensures content == if outcome == NotWritten then old(content) else Some(FormatWeek(week))
      ensures synced == if outcome == Written then Some(FormatWeek(week)) else old(synced)
    {
      if outcome != NotWritten {
        content := Some(FormatWeek(week));
        if outcome == Written {
          synced := content;
        }
      }
    }
  }

  class Watchdog {
    const file: WeekFile
    var lastAlerted: Option<int>
    var lastPagedWeek: Option<IsoWeek>
    var lastWarnedNoNotifier: Option<int>

    ghost function Value(): World
      reads this, file
    {
      World(file.content, file.synced, lastAlerted, lastPagedWeek, lastWarnedNoNotifier)
    }

    constructor (file: WeekFile, readOk: bool)
      ensures this.file == file
      ensures Value() == Next(World(file.content, file.synced, None, None, None), Boot(readOk, false))
    {
      this.file := file;
      lastAlerted := None;
      lastWarnedNoNotifier := None;
      lastPagedWeek := if readOk then ReadFile(file.content) else None;
    }

    /** One turn of the loop. */
    method OnCheck(today: int, remaining: Option<int>, notifierUp: bool, write: WriteOutcome) returns (act: Act)
      modifies this, file
      ensures act == ActOf(old(Value()), Check(today, remaining, notifierUp, write))
      ensures Value() == Next(old(Value()), Check(today, remaining, notifierUp, write))
    {
      act := Quiet;
      if ShouldPageNow(remaining, today, lastAlerted, lastPagedWeek) {
        if !notifierUp {
          if lastWarnedNoNotifier != Some(today) {
            act := WarnedNoNotifier;
            lastWarnedNoNotifier := Some(today);
          }
          return;
        }
        act := Paged;
        lastAlerted := Some(today);
        var week := IsoWeekOf(today);
        lastPagedWeek := Some(week);
        file.Write(week, write);
      }
    }
  }

  // --------------------------------------------------- whole runs

  /** The state after a run; the first event is the first boot, and the folder
      starts in any state. */
  ghost function After(start: Option<string>, run: seq<Event>): World {
    if run == [] then World(start, start, None, None, None)
    else Next(After(start, run[..|run| - 1]), run[|run| - 1])
  }

  ghost function ActAt(start: Option<string>, run: seq<Event>, i: nat): Act
    requires i < |run|
  {
    ActOf(After(start, run[..i]), run[i])
  }

  ghost predicate PagedAt(start: Option<string>, run: seq<Event>, i: int) {
    0 <= i < |run| && run[i].Check? && ActAt(start, run, i) == Paged
  }

  ghost predicate DaysAreDates(run: seq<Event>) {
    forall i | 0 <= i < |run| && run[i].Check? :: IsDate(run[i].day)
  }

  ghost predicate DaysInOrder(run: seq<Event>) {
    forall i, j | 0 <= i < j < |run| && run[i].Check? && run[j].Check? :: run[i].day <= run[j].day
  }

  ghost predicate AllFileWorkSucceeds(run: seq<Event>) {
    forall i | 0 <= i < |run| :: match run[i]
      case Boot(readOk, _) => readOk
      case Check(_, _, _, write) => write == Written
  }

  lemma PagedInPrefix(start: Option<string>, run: seq<Event>, n: nat, i: int)
    requires i < n <= |run|
    ensures PagedAt(start, run[..n], i) == PagedAt(start, run, i)
  {
    if 0 <= i {
      assert run[..n][..i] == run[..i];
    }
  }

  /** The last page of a run, if any. */
  ghost predicate LastPage(start: Option<string>, run: seq<Event>, i: nat) {
    PagedAt(start, run, i) && forall k | i < k < |run| :: !PagedAt(start, run, k)
  }

  ghost predicate Remembers(w: World, day: int) {
    && w.lastPagedWeek == Some(IsoWeekOf(day))
    && w.file == w.synced == Some(FormatWeek(IsoWeekOf(day)))
  }

  lemma StepRemembers(w: World, e: Event, day: int)
    requires Remembers(w, day) && IsDate(day)
    requires e.Boot? ==> e.readOk
    requires e.Check? ==> ActOf(w, e) != Paged
    ensures Remembers(Next(w, e), day)
  {
    ReadUndoesWrite(IsoWeekOf(day));
  }

  lemma PageRemembers(w: World, e: Event)
    requires e.Check? && ActOf(w, e) == Paged && e.write == Written
    ensures Remembers(Next(w, e), e.day)
  {
  }

  lemma LastPageInPrefix(start: Option<string>, run: seq<Event>, i: nat)
    requires LastPage(start, run, i) && i < |run| - 1
    ensures LastPage(start, run[..|run| - 1], i) && !PagedAt(start, run, |run| - 1)
  {
    var n := |run| - 1;
    PagedInPrefix(start, run, n, i);
    forall k | i < k < n ensures !PagedAt(start, run[..n], k) {
      PagedInPrefix(start, run, n, k);
    }
  }

  /** With every read and write successful, the week of the last page is held
      in memory and on disk, through any number of restarts and power cuts. */
  lemma {:induction false} LastPageIsRemembered(start: Option<string>, run: seq<Event>, i: nat)
    requires DaysAreDates(run) && AllFileWorkSucceeds(run) && LastPage(start, run, i)
    ensures Remembers(After(start, run), run[i].day)
  {
    var n := |run| - 1;
    var before := run[..n];
    if i == n {
      PageRemembers(After(start, before), run[n]);
    } else {
      LastPageInPrefix(start, run, i);
      LastPageIsRemembered(start, before, i);
      StepRemembers(After(start, before), run[n], run[i].day);
    }
  }

  lemma {:induction false} LastBelow(p: int -> bool, i: nat, n: nat) returns (last: nat)
    requires i < n && p(i)
    ensures i <= last < n && p(last) && forall k | last < k < n :: !p(k)
    decreases n
  {
    if p(n - 1) {
      last := n - 1;
    } else {
      last := LastBelow(p, i, n - 1);
    }
  }

  lemma LastPageExists(start: Option<string>, run: seq<Event>, i: nat) returns (last: nat)
    requires PagedAt(start, run, i)
    ensures i <= last && LastPage(start, run, last)
  {
    var p := k => PagedAt(start, run, k);
    last := LastBelow(p, i, |run|);
    forall k | last < k < |run| ensures !PagedAt(start, run, k) {
      assert !p(k);
    }
  }

  lemma WeekBetween(a: int, b: int, c: int)
    requires a <= b <= c && WeekIndex(a) == WeekIndex(c)
    ensures WeekIndex(b) == WeekIndex(a)
  {
  }

  /** Exactly when the weekly band, more than 14 days and fewer than 60, pages
      once a page has been made, for any clock: the notifier is up, this process
      has not paged on this day, and the latest page, of whatever boot, was in
      another week. */
  lemma WeeklyPageExactly(start: Option<string>, run: seq<Event>, last: nat, j: nat)
    requires DaysAreDates(run) && AllFileWorkSucceeds(run)
    requires last < j < |run| && LastPage(start, run[..j], last)
    requires run[j].Check? && run[j].remaining.Some? && 14 < run[j].remaining.value < 60
    ensures PagedAt(start, run, j) <==>
            && run[j].notifierUp && After(start, run[..j]).lastAlerted != Some(run[j].day)
            && IsoWeekOf(run[last].day) != IsoWeekOf(run[j].day)
  {
    LastPageIsRemembered(start, run[..j], last);
    CheckActsExactly(After(start, run[..j]), run[j]);
  }

  lemma PagedMeansStale(start: Option<string>, run: seq<Event>, j: nat)
    requires PagedAt(start, run, j)
    ensures run[j].remaining.None? || run[j].remaining.value < 60
  {
    CheckActsExactly(After(start, run[..j]), run[j]);
  }

  /** So, for any clock, two pages of one week of which the second is in the
      weekly band have a page of another week between them. */
  lemma SecondPageNeedsAnotherWeek(start: Option<string>, run: seq<Event>, i: nat, j: nat) returns (k: nat)
    requires DaysAreDates(run) && AllFileWorkSucceeds(run)
    requires i < j && PagedAt(start, run, i) && PagedAt(start, run, j) && InWeeklyBand(run[j].remaining)
    requires IsoWeekOf(run[i].day) == IsoWeekOf(run[j].day)
    ensures i < k < j && PagedAt(start, run, k) && IsoWeekOf(run[k].day) != IsoWeekOf(run[j].day)
  {
    PagedInPrefix(start, run, j, i);
    k := LastPageExists(start, run[..j], i);
    PagedInPrefix(start, run, j, k);
    PagedMeansStale(start, run, j);
    WeeklyPageExactly(start, run, k, j);
  }

  /** The weekly band pages at most once in an ISO week, over any number of
      boots: a page in that band means no page of any band came before it in
      the same week. */
  lemma OncePerWeek(start: Option<string>, run: seq<Event>, i: nat, j: nat)
    requires DaysAreDates(run) && DaysInOrder(run) && AllFileWorkSucceeds(run)
    requires i < j && PagedAt(start, run, i) && PagedAt(start, run, j) && InWeeklyBand(run[j].remaining)
    ensures IsoWeekOf(run[i].day) != IsoWeekOf(run[j].day)
  {
    if IsoWeekOf(run[i].day) == IsoWeekOf(run[j].day) {
      var k := SecondPageNeedsAnotherWeek(start, run, i, j);
      OrderedThree(run, i, k, j);
      SameKeySameWeek(run[i].day, run[j].day);
      SameKeySameWeek(run[k].day, run[j].day);
      WeekBetween(run[i].day, run[k].day, run[j].day);
    }
  }

  lemma OrderedThree(run: seq<Event>, i: nat, k: nat, j: nat)
    requires DaysInOrder(run) && i <= k < j < |run|
    requires run[i].Check? && run[k].Check? && run[j].Check?
    ensures run[i].day <= run[k].day <= run[j].day
  {
  }

  // --------------------------------------------------- no week is skipped

  /** Some page of the run fell in this week. */
  ghost predicate WeekPaged(start: Option<string>, run: seq<Event>, week: IsoWeek) {
    exists k :: PagedAt(start, run, k) && IsoWeekOf(run[k].day) == week
  }

  ghost predicate DayPaged(start: Option<string>, run: seq<Event>, day: int) {
    exists k :: PagedAt(start, run, k) && run[k].day == day
  }

  /** A week the file or the loop names was paged in this run, unless the file
      named it from the start. */
  ghost predicate Honest(start: Option<string>, run: seq<Event>, week: Option<IsoWeek>) {
    week.Some? ==> WeekPaged(start, run, week.value) || ReadFile(start) == week
  }

  lemma PagedStays(start: Option<string>, run: seq<Event>)
    requires run != []
    ensures forall week :: WeekPaged(start, run[..|run| - 1], week) ==> WeekPaged(start, run, week)
    ensures forall day :: DayPaged(start, run[..|run| - 1], day) ==> DayPaged(start, run, day)
  {
    var n := |run| - 1;
    forall week | WeekPaged(start, run[..n], week) ensures WeekPaged(start, run, week) {
      var k :| PagedAt(start, run[..n], k) && IsoWeekOf(run[..n][k].day) == week;
      PagedInPrefix(start, run, n, k);
    }
    forall day | DayPaged(start, run[..n], day) ensures DayPaged(start, run, day) {
      var k :| PagedAt(start, run[..n], k) && run[..n][k].day == day;
      PagedInPrefix(start, run, n, k);
    }
  }

  lemma LastIsPaged(start: Option<string>, run: seq<Event>)
    requires run != [] && PagedAt(start, run, |run| - 1)
    ensures WeekPaged(start, run, IsoWeekOf(run[|run| - 1].day)) && DayPaged(start, run, run[|run| - 1].day)
  {
  }

  ghost predicate HonestWorld(start: Option<string>, run: seq<Event>, w: World) {
    && Honest(start, run, ReadFile(w.file)) && Honest(start, run, ReadFile(w.synced))
    && Honest(start, run, w.lastPagedWeek)
    && (w.lastAlerted.Some? ==> DayPaged(start, run, w.lastAlerted.value))
  }

  lemma HonestLonger(start: Option<string>, run: seq<Event>, w: World)
    requires run != [] && HonestWorld(start, run[..|run| - 1], w)
    ensures HonestWorld(start, run, w)
  {
    PagedStays(start, run);
  }

  lemma QuietStepIsHonest(start: Option<string>, run: seq<Event>, w: World, e: Event)
    requires HonestWorld(start, run, w) && ActOf(w, e) != Paged
    ensures HonestWorld(start, run, Next(w, e))
  {
  }

  lemma PageIsHonest(start: Option<string>, run: seq<Event>, w: World, e: Event)
    requires HonestWorld(start, run, w) && e.Check? && IsDate(e.day) && ActOf(w, e) == Paged
    requires WeekPaged(start, run, IsoWeekOf(e.day)) && DayPaged(start, run, e.day)
    ensures HonestWorld(start, run, Next(w, e))
  {
    ReadUndoesWrite(IsoWeekOf(e.day));
  }

  /** Whatever fails and whatever the clock does, no week is ever named that
      was not paged. */
  lemma {:induction false} MemoryIsHonest(start: Option<string>, run: seq<Event>)
    requires DaysAreDates(run)
    ensures HonestWorld(start, run, After(start, run))
  {
    if run != [] {
      var n := |run| - 1;
      var w := After(start, run[..n]);
      MemoryIsHonest(start, run[..n]);
      HonestLonger(start, run, w);
      if PagedAt(start, run, n) {
        LastIsPaged(start, run);
        PageIsHonest(start, run, w, run[n]);
      } else {
        QuietStepIsHonest(start, run, w, run[n]);
      }
    }
  }

  /** A check with fewer than 60 days left, or no calendar, and the notifier up
      leaves its week paged: by this check or an earlier one (or the file named
      the week before the run began). With 14 days or fewer to go, or no
      calendar, it leaves the very day paged. This holds whatever
      reads and writes fail and however the clock moves. */
  lemma NoWeekIsSkipped(start: Option<string>, run: seq<Event>, i: nat)
    requires DaysAreDates(run)
    requires i < |run| && run[i].Check? && run[i].notifierUp
    requires run[i].remaining.None? || run[i].remaining.value < 60
    ensures Honest(start, run[..i + 1], Some(IsoWeekOf(run[i].day)))
    ensures run[i].remaining.None? || run[i].remaining.value <= 14 ==> DayPaged(start, run[..i + 1], run[i].day)
  {
    var upTo := run[..i + 1];
    assert upTo[..i] == run[..i];
    assert upTo[i] == run[i];
    LastStaleCheck(start, upTo);
  }

  lemma LastStaleCheck(start: Option<string>, run: seq<Event>)
    requires DaysAreDates(run) && run != []
    requires var e := run[|run| - 1]; e.Check? && e.notifierUp && IsCoverageStale(e.remaining)
    ensures var e := run[|run| - 1];
            && Honest(start, run, Some(IsoWeekOf(e.day)))
            && (!InWeeklyBand(e.remaining) ==> DayPaged(start, run, e.day))
  {
    var n := |run| - 1;
    if PagedAt(start, run, n) {
      LastIsPaged(start, run);
    } else {
      var w := After(start, run[..n]);
      MemoryIsHonest(start, run[..n]);
      HonestLonger(start, run, w);
      if w.lastAlerted == Some(run[n].day) {
        DayGivesWeek(start, run, run[n].day);
      }
    }
  }

  lemma DayGivesWeek(start: Option<string>, run: seq<Event>, day: int)
    requires DayPaged(start, run, day)
    ensures WeekPaged(start, run, IsoWeekOf(day))
  {
    var k :| PagedAt(start, run, k) && run[k].day == day;
    assert IsoWeekOf(run[k].day) == IsoWeekOf(day);
  }

  // --------------------------------------------------- once a day

  /** The day a check leaves in the latch. */
  lemma CheckAlerts(w: World, e: Event)
    requires e.Check?
    ensures Next(w, e).lastAlerted == if ActOf(w, e) == Paged then Some(e.day) else w.lastAlerted
    ensures w.lastAlerted == Some(e.day) ==> ActOf(w, e) == Quiet
  {
  }

  /** Until the next boot the latch holds the day of the latest page. */
  lemma {:induction false} AlertDayIsKept(start: Option<string>, run: seq<Event>, i: nat)
    requires LastPage(start, run, i) && forall k | i < k < |run| :: run[k].Check?
    ensures After(start, run).lastAlerted == Some(run[i].day)
  {
    var n := |run| - 1;
    CheckAlerts(After(start, run[..n]), run[n]);
    if i < n {
      LastPageInPrefix(start, run, i);
      AlertDayIsKept(start, run[..n], i);
    }
  }

  /** For any clock, two pages of one process on one day have a page of another
      day between them. */
  lemma SecondPageNeedsAnotherDay(start: Option<string>, run: seq<Event>, i: nat, j: nat) returns (k: nat)
    requires i < j && PagedAt(start, run, i) && PagedAt(start, run, j) && run[i].day == run[j].day
    requires forall m | i < m < j :: run[m].Check?
    ensures i < k < j && PagedAt(start, run, k) && run[k].day != run[j].day
  {
    PagedInPrefix(start, run, j, i);
    k := LastPageExists(start, run[..j], i);
    PagedInPrefix(start, run, j, k);
    AlertDayIsKept(start, run[..j], k);
    CheckAlerts(After(start, run[..j]), run[j]);
  }

  /** Every band pages at most once a day in one process: two pages on one day
      have a boot between them. */
  lemma OncePerDayPerProcess(start: Option<string>, run: seq<Event>, i: nat, j: nat)
    requires DaysInOrder(run) && i < j && PagedAt(start, run, i) && PagedAt(start, run, j)
    requires run[i].day == run[j].day
    ensures exists k :: i < k < j && run[k].Boot?
  {
    if forall k | i < k < j :: run[k].Check? {
      var k := SecondPageNeedsAnotherDay(start, run, i, j);
      OrderedThree(run, i, k, j);
    }
  }

  lemma AfterOne(start: Option<string>, run: seq<Event>, e: Event)
    ensures After(start, run + [e]) == Next(After(start, run), e)
  {
    assert (run + [e])[..|run|] == run;
  }

  lemma OtherWeekPages(w: World, day: int, other: int)
    requires WeekIndex(day) != WeekIndex(other) && w.lastPagedWeek == Some(IsoWeekOf(other)) && w.lastAlerted == Some(other)
    ensures ActOf(w, Check(day, Some(30), true, Written)) == Paged
  {
    SameKeySameWeek(day, other);
    assert day != other;
  }

  lemma FreshWorldPages(day: int)
    ensures ActOf(World(None, None, None, None, None), Check(day, Some(30), true, Written)) == Paged
  {
  }

  lemma PageIsRemembered(w: World, e: Event)
    requires e.Check? && ActOf(w, e) == Paged
    ensures Next(w, e).lastAlerted == Some(e.day) && Next(w, e).lastPagedWeek == Some(IsoWeekOf(e.day))
  {
  }

  /** Days in order are needed: after a step back across a Monday the earlier
      week is paged a second time, in the same process. */
  lemma ClockStepBackPagesAgain(day: int, later: int)
    requires WeekIndex(day) != WeekIndex(later)
    ensures var first, second := Check(day, Some(30), true, Written), Check(later, Some(30), true, Written);
            var before := After(None, [Boot(true, false)]);
            && ActOf(before, first) == Paged
            && ActOf(After(None, [Boot(true, false), first, second]), first) == Paged
  {
    var first, second := Check(day, Some(30), true, Written), Check(later, Some(30), true, Written);
    var boot := Boot(true, false);
    AfterOne(None, [], boot);
    AfterOne(None, [boot], first);
    AfterOne(None, [boot, first], second);
    assert [] + [boot] == [boot] && [boot] + [first] == [boot, first];
    assert [boot, first] + [second] == [boot, first, second];
    var w1, w2 := After(None, [boot]), After(None, [boot, first]);
    FreshWorldPages(day);
    PageIsRemembered(w1, first);
    OtherWeekPages(w2, later, day);
    PageIsRemembered(w2, second);
    OtherWeekPages(Next(w2, second), day, later);
  }
}
