/** The daily archive scheduler: a poll every few minutes, at most six spent
    attempts a day, attempts given back when another job stands in the way, and
    a latch once a pass has finished the day. */
module DailyArchive {
  import opened Integers
  import opened Wrappers

  const MAX_DAILY_ARCHIVE_ATTEMPTS: nat := 6

  // --------------------------------------------------- one pass, judged

  /** The counters of a pass that the verdict reads. */
  datatype Summary = Summary(contended: bool, passRan: bool, tablesWalSuspended: nat, tablesWalNotApplied: nat,
                             tablesListFailed: nat, failed: nat, partitionsConsidered: nat, heldDeferredDepth: nat)

  datatype Reason = Contended | DidNotRun | WalSuspended | WalNotApplied | TableListFailed | PartitionFailed
                  | BudgetExhausted | DeferredDepthPass

  datatype PassVerdict = Complete | Incomplete(reason: Reason)

  datatype PassOutcome = Ran(verdict: PassVerdict) | Skipped | Failed

  function VerdictOf(s: Summary, maxPartitionsPerRun: nat): PassVerdict {
    if s.contended then Incomplete(Contended)
    else if !s.passRan then Incomplete(DidNotRun)
    else if s.tablesWalSuspended > 0 then Incomplete(WalSuspended)
    else if s.tablesWalNotApplied > 0 then Incomplete(WalNotApplied)
    else if s.tablesListFailed > 0 then Incomplete(TableListFailed)
    else if s.failed > 0 then Incomplete(PartitionFailed)
    else if maxPartitionsPerRun > 0 && SaturatingSub(s.partitionsConsidered, s.heldDeferredDepth) >= maxPartitionsPerRun
      then Incomplete(BudgetExhausted)
    else if s.heldDeferredDepth > 0 then Incomplete(DeferredDepthPass)
    else Complete
  }

  predicate RefundsAttempt(o: PassOutcome) {
    o == Ran(Incomplete(Contended)) || o == Ran(Incomplete(DeferredDepthPass))
  }

  predicate LatchesTheDay(o: PassOutcome) {
    o == Ran(Complete)
  }

  /** Nothing went wrong in a pass and no work is left over, depth partitions
      aside that another job holds. */
  ghost predicate CleanBeside(s: Summary, max: nat) {
    && s.passRan && s.tablesWalSuspended == 0 && s.tablesWalNotApplied == 0 && s.tablesListFailed == 0 && s.failed == 0
    && (max == 0 || s.partitionsConsidered < max + s.heldDeferredDepth)
  }

  /** A day is latched exactly by an uncontended clean pass that held nothing
      back; an attempt is given back exactly when another pass held the lock or
      a clean pass held depth partitions; every real failure spends one. */
  lemma VerdictMeaning(s: Summary, max: nat)
    ensures LatchesTheDay(Ran(VerdictOf(s, max))) <==> !s.contended && CleanBeside(s, max) && s.heldDeferredDepth == 0
    ensures RefundsAttempt(Ran(VerdictOf(s, max))) <==> s.contended || (CleanBeside(s, max) && s.heldDeferredDepth > 0)
  {
    assert max > 0 ==> (SaturatingSub(s.partitionsConsidered, s.heldDeferredDepth) >= max
                        <==> s.partitionsConsidered >= max + s.heldDeferredDepth);
  }

  /** Nothing in the summary's first so many tests is amiss. */
  ghost predicate FineUpTo(s: Summary, tests: nat) {
    && (tests >= 1 ==> !s.contended) && (tests >= 2 ==> s.passRan) && (tests >= 3 ==> s.tablesWalSuspended == 0)
    && (tests >= 4 ==> s.tablesWalNotApplied == 0) && (tests >= 5 ==> s.tablesListFailed == 0) && (tests >= 6 ==> s.failed == 0)
  }

  /** The reason given is the first thing amiss. */
  lemma VerdictReasons(s: Summary, max: nat)
    ensures var v := VerdictOf(s, max);
            && (v == Incomplete(Contended) <==> s.contended)
            && (v == Incomplete(DidNotRun) <==> FineUpTo(s, 1) && !s.passRan)
            && (v == Incomplete(WalSuspended) <==> FineUpTo(s, 2) && s.tablesWalSuspended > 0)
            && (v == Incomplete(WalNotApplied) <==> FineUpTo(s, 3) && s.tablesWalNotApplied > 0)
            && (v == Incomplete(TableListFailed) <==> FineUpTo(s, 4) && s.tablesListFailed > 0)
            && (v == Incomplete(PartitionFailed) <==> FineUpTo(s, 5) && s.failed > 0)
            && (v == Incomplete(BudgetExhausted) <==> FineUpTo(s, 6) && max > 0 && s.partitionsConsidered >= max + s.heldDeferredDepth)
  {
    assert max > 0 ==> (SaturatingSub(s.partitionsConsidered, s.heldDeferredDepth) >= max
                        <==> s.partitionsConsidered >= max + s.heldDeferredDepth);
  }

  /** A pass that was skipped or failed spends its attempt and latches nothing. */
  lemma SkippedAndFailedSpend(o: PassOutcome)
    requires o in {Skipped, Failed}
    ensures !RefundsAttempt(o) && !LatchesTheDay(o)
  {
  }

  // --------------------------------------------------- the ledger

  datatype Ledger = Ledger(day: Option<int>, attempts: nat)

  function AttemptsOn(l: Ledger, day: int): nat {
    if l.day == Some(day) then l.attempts else 0
  }

  ghost function Recorded(l: Ledger, day: int): Ledger {
    Ledger(Some(day), AttemptsOn(l, day) + 1)
  }

  ghost function Refunded(l: Ledger, day: int): Ledger {
    if l.day == Some(day) then l.(attempts := SaturatingSub(l.attempts, 1)) else l
  }

  class AttemptLedger {
    var day: Option<int>
    var attempts: nat

    ghost function Value(): Ledger
      reads this
    {
      Ledger(day, attempts)
    }

    constructor ()
      ensures Value() == Ledger(None, 0)
    {
      day, attempts := None, 0;
    }

    function On(today: int): nat
      reads this
    {
      if day == Some(today) then attempts else 0
    }

    method Record(today: int)
      modifies this
      ensures Value() == Recorded(old(Value()), today)
    {
      if day == Some(today) {
        attempts := attempts + 1;
      } else {
        day := Some(today);
        attempts := 1;
      }
    }

    method Refund(today: int)
      modifies this
      ensures Value() == Refunded(old(Value()), today)
    {
      if day == Some(today) {
        attempts := SaturatingSub(attempts, 1);
      }
    }
  }

  // --------------------------------------------------- the loop

  datatype ArchiveTick = Run | BeforeWindow | AlreadyCompleted | AttemptsExhausted

  function TickDecision(nowSecs: nat, windowOpen: nat, completedToday: bool, attemptsToday: nat, maxAttempts: nat): ArchiveTick {
    if completedToday then AlreadyCompleted
    else if nowSecs < windowOpen then BeforeWindow
    else if attemptsToday >= maxAttempts then AttemptsExhausted
    else Run
  }

  /** What one tick meets: the day and time, whether the day's marker is there,
      and how a pass would end. */
  datatype Tick = Tick(day: int, secs: nat, marker: bool, outcome: PassOutcome)

  /** What one tick did. */
  datatype Act = NothingDue | ExhaustedLogged | ExhaustedQuietly | Passed(outcome: PassOutcome)

  /** The loop's memory: the ledger and the day it latched. */
  datatype Memory = Memory(ledger: Ledger, latchedDay: Option<int>)

  ghost function DecisionOf(m: Memory, windowOpen: nat, t: Tick): ArchiveTick {
    TickDecision(t.secs, windowOpen, t.marker || m.latchedDay == Some(t.day), AttemptsOn(m.ledger, t.day), MAX_DAILY_ARCHIVE_ATTEMPTS)
  }

  ghost function ActOf(m: Memory, windowOpen: nat, t: Tick): Act {
    match DecisionOf(m, windowOpen, t)
    case Run => Passed(t.outcome)
    case AttemptsExhausted =>
      if AttemptsOn(m.ledger, t.day) == MAX_DAILY_ARCHIVE_ATTEMPTS then ExhaustedLogged else ExhaustedQuietly
    case _ => NothingDue
  }

  ghost function NextMemory(m: Memory, windowOpen: nat, t: Tick): Memory {
    match ActOf(m, windowOpen, t)
    case ExhaustedLogged => m.(ledger := Recorded(m.ledger, t.day))
    case Passed(outcome) =>
      var ledger := Recorded(m.ledger, t.day);
      if RefundsAttempt(outcome) then m.(ledger := Refunded(ledger, t.day))
      else if LatchesTheDay(outcome) then Memory(ledger, Some(t.day))
      else m.(ledger := ledger)
    case _ => m
  }

  class ArchiveLoop {
    const windowOpen: nat
    const ledger: AttemptLedger
    var latchedDay: Option<int>

    ghost function Value(): Memory
      reads this, ledger
    {
      Memory(ledger.Value(), latchedDay)
    }

    constructor (windowOpen: nat)
      ensures this.windowOpen == windowOpen && Value() == Memory(Ledger(None, 0), None) && fresh(ledger)
    {
      this.windowOpen := windowOpen;
      ledger := new AttemptLedger();
      latchedDay := None;
    }

    /** One tick; the day is read once and used for all of it. */
    method OnTick(t: Tick) returns (act: Act)
      modifies this, ledger
      ensures act == ActOf(old(Value()), windowOpen, t)
      ensures Value() == NextMemory(old(Value()), windowOpen, t)
    {
      var completedToday := t.marker || latchedDay == Some(t.day);
      match TickDecision(t.secs, windowOpen, completedToday, ledger.On(t.day), MAX_DAILY_ARCHIVE_ATTEMPTS) {
        case BeforeWindow => return NothingDue;
        case AlreadyCompleted => return NothingDue;
        case AttemptsExhausted =>
          if ledger.On(t.day) == MAX_DAILY_ARCHIVE_ATTEMPTS {
            ledger.Record(t.day);
            return ExhaustedLogged;
          }
          return ExhaustedQuietly;
        case Run =>
      }
      ledger.Record(t.day);
      act := Passed(t.outcome);
      if RefundsAttempt(t.outcome) {
        ledger.Refund(t.day);
        return;
      }
      if LatchesTheDay(t.outcome) {
        latchedDay := Some(t.day);
      }
    }
  }

  // --------------------------------------------------- whole runs

  ghost function After(windowOpen: nat, ticks: seq<Tick>): Memory {
    if ticks == [] then Memory(Ledger(None, 0), None)
    else NextMemory(After(windowOpen, ticks[..|ticks| - 1]), windowOpen, ticks[|ticks| - 1])
  }

  /** What tick `i` of a run did. */
  ghost function ActAt(windowOpen: nat, ticks: seq<Tick>, i: nat): Act
    requires i < |ticks|
  {
    ActOf(After(windowOpen, ticks[..i]), windowOpen, ticks[i])
  }

  /** What one day saw. */
  datatype Tally = Tally(started: nat, refunds: nat, logged: nat, complete: nat)

  ghost function Counted(t: Tally, a: Act): Tally {
    match a
    case Passed(o) =>
      Tally(t.started + 1, t.refunds + (if RefundsAttempt(o) then 1 else 0), t.logged,
            t.complete + (if LatchesTheDay(o) then 1 else 0))
    case ExhaustedLogged => t.(logged := t.logged + 1)
    case _ => t
  }

  ghost function TallyOf(windowOpen: nat, ticks: seq<Tick>, day: int): Tally {
    if ticks == [] then Tally(0, 0, 0, 0)
    else
      var before, last := ticks[..|ticks| - 1], ticks[|ticks| - 1];
      if last.day == day then Counted(TallyOf(windowOpen, before, day), ActOf(After(windowOpen, before), windowOpen, last))
      else TallyOf(windowOpen, before, day)
  }

  /** The ticks of a day come one after the other: once the clock has left a
      day it does not come back to it. */
  ghost predicate DaysContiguous(ticks: seq<Tick>) {
    forall i, j, k | 0 <= i < j < k < |ticks| && ticks[i].day == ticks[k].day :: ticks[j].day == ticks[k].day
  }

  ghost predicate DaysInOrder(ticks: seq<Tick>) {
    forall i, j | 0 <= i < j < |ticks| :: ticks[i].day <= ticks[j].day
  }

  /** A clock that never goes back keeps days together. */
  lemma OrderKeepsDaysTogether(ticks: seq<Tick>)
    requires DaysInOrder(ticks)
    ensures DaysContiguous(ticks)
  {
    forall i, j, k | 0 <= i < j < k < |ticks| && ticks[i].day == ticks[k].day ensures ticks[j].day == ticks[k].day {
      assert ticks[i].day <= ticks[j].day <= ticks[k].day;
    }
  }

  /** What the ledger and the latch say about the run's last day. */
  ghost predicate Accounts(m: Memory, t: Tally, day: int) {
    && AttemptsOn(m.ledger, day) + t.refunds == t.started + t.logged
    && t.refunds <= t.started <= t.refunds + MAX_DAILY_ARCHIVE_ATTEMPTS
    && t.logged <= 1 && (t.logged == 1 ==> t.started == t.refunds + MAX_DAILY_ARCHIVE_ATTEMPTS)
    && (t.complete > 0 <==> m.latchedDay == Some(day))
  }

  lemma TickKeepsAccounts(m: Memory, t: Tally, windowOpen: nat, tick: Tick)
    requires Accounts(m, t, tick.day)
    ensures Accounts(NextMemory(m, windowOpen, tick), Counted(t, ActOf(m, windowOpen, tick)), tick.day)
  {
  }

  /** Memory of a run never speaks of a day that has not come yet. */
  lemma {:induction false} MemoryIsOfPastDays(windowOpen: nat, ticks: seq<Tick>, day: int)
    requires forall i | 0 <= i < |ticks| :: ticks[i].day != day
    ensures var m := After(windowOpen, ticks);
            m.ledger.day != Some(day) && m.latchedDay != Some(day) && TallyOf(windowOpen, ticks, day) == Tally(0, 0, 0, 0)
  {
    if ticks != [] {
      MemoryIsOfPastDays(windowOpen, ticks[..|ticks| - 1], day);
    }
  }

  /** Over any run whose days stay together: on its last day the ledger holds passes
      started minus refunds, plus one once exhaustion is logged; at most six
      passes are not refunded; exhaustion is logged at most once, and only when
      six passes were really spent; and the latch is set exactly by a complete
      pass. */
  lemma {:induction false} DayIsAccountedFor(windowOpen: nat, ticks: seq<Tick>)
    requires ticks != [] && DaysContiguous(ticks)
    ensures var day := ticks[|ticks| - 1].day;
            Accounts(After(windowOpen, ticks), TallyOf(windowOpen, ticks, day), day)
  {
    var before, last := ticks[..|ticks| - 1], ticks[|ticks| - 1];
    if before != [] && before[|before| - 1].day == last.day {
      DayIsAccountedFor(windowOpen, before);
    } else {
      MemoryIsOfPastDays(windowOpen, before, last.day);
    }
    TickKeepsAccounts(After(windowOpen, before), TallyOf(windowOpen, before, last.day), windowOpen, last);
  }

  /** Exactly when a tick runs a pass: the day has no marker, the window is open,
      no pass of the day was complete, and fewer than six of its passes were not
      refunded. With six it logs that once, and after that does nothing. */
  lemma PassRunsExactly(windowOpen: nat, ticks: seq<Tick>, t: Tick)
    requires DaysContiguous(ticks + [t])
    ensures var act := ActOf(After(windowOpen, ticks), windowOpen, t);
            var seen := TallyOf(windowOpen, ticks, t.day);
            var due := !t.marker && t.secs >= windowOpen && seen.complete == 0;
            && (act == Passed(t.outcome) <==> due && seen.started - seen.refunds < 6)
            && (act == ExhaustedLogged <==> due && seen.started - seen.refunds == 6 && seen.logged == 0)
            && (act == ExhaustedQuietly <==> due && seen.started - seen.refunds == 6 && seen.logged == 1)
            && (act == NothingDue <==> !due)
  {
    var run := ticks + [t];
    assert forall i | 0 <= i < |ticks| :: run[i] == ticks[i];
    if ticks != [] && ticks[|ticks| - 1].day == t.day {
      assert DaysContiguous(ticks) by {
        forall i, j, k | 0 <= i < j < k < |ticks| && ticks[i].day == ticks[k].day ensures ticks[j].day == ticks[k].day {
          assert run[i].day == run[k].day && run[j].day == run[k].day;
        }
      }
      DayIsAccountedFor(windowOpen, ticks);
    } else {
      var n := |ticks|;
      assert run[n] == t;
      assert n > 0 ==> run[n - 1].day != t.day;
      assert forall i | 0 <= i < n - 1 :: run[i].day == run[n].day ==> run[n - 1].day == run[n].day;
      MemoryIsOfPastDays(windowOpen, ticks, t.day);
    }
  }

  lemma {:induction false} TallyUntouched(windowOpen: nat, ticks: seq<Tick>, from: nat, day: int)
    requires from <= |ticks| && forall i | from <= i < |ticks| :: ticks[i].day != day
    ensures TallyOf(windowOpen, ticks, day) == TallyOf(windowOpen, ticks[..from], day)
  {
    if from < |ticks| {
      var before := ticks[..|ticks| - 1];
      assert before[..from] == ticks[..from];
      TallyUntouched(windowOpen, before, from, day);
    } else {
      assert ticks[..from] == ticks;
    }
  }

  /** The day's limits hold for every day of the run, not only its last. */
  lemma EveryDayIsBounded(windowOpen: nat, ticks: seq<Tick>, day: int)
    requires DaysContiguous(ticks)
    ensures var t := TallyOf(windowOpen, ticks, day);
            && t.refunds <= t.started <= t.refunds + MAX_DAILY_ARCHIVE_ATTEMPTS
            && t.logged <= 1 && (t.logged == 1 ==> t.started == t.refunds + MAX_DAILY_ARCHIVE_ATTEMPTS)
  {
    if i :| 0 <= i < |ticks| && ticks[i].day == day {
      var n := DayEnd(ticks, i);
      TallyUntouched(windowOpen, ticks, n, day);
      DayIsAccountedFor(windowOpen, ticks[..n]);
    } else {
      MemoryIsOfPastDays(windowOpen, ticks, day);
    }
  }

  /** One past the last tick of a day. */
  lemma DayEnd(ticks: seq<Tick>, i: nat) returns (n: nat)
    requires DaysContiguous(ticks) && i < |ticks|
    ensures i < n <= |ticks| && ticks[n - 1].day == ticks[i].day
    ensures DaysContiguous(ticks[..n]) && forall j | n <= j < |ticks| :: ticks[j].day != ticks[i].day
  {
    n := i + 1;
    while n < |ticks| && ticks[n].day == ticks[i].day
      invariant i < n <= |ticks| && ticks[n - 1].day == ticks[i].day
    {
      n := n + 1;
    }
    assert forall j | n < j < |ticks| :: ticks[j].day == ticks[i].day ==> ticks[n].day == ticks[i].day;
  }

  lemma {:induction false} CompleteIsCounted(windowOpen: nat, ticks: seq<Tick>, i: nat)
    requires i < |ticks| && ActAt(windowOpen, ticks, i) == Passed(Ran(Complete))
    ensures TallyOf(windowOpen, ticks, ticks[i].day).complete > 0
  {
    var before := ticks[..|ticks| - 1];
    if i < |before| {
      assert before[..i] == ticks[..i];
      CompleteIsCounted(windowOpen, before, i);
    }
  }

  /** After a complete pass no further pass runs that day, whether or not its
      marker could be written. */
  lemma NoPassAfterComplete(windowOpen: nat, ticks: seq<Tick>, i: nat, j: nat)
    requires DaysContiguous(ticks) && i < j < |ticks| && ticks[i].day == ticks[j].day
    requires ActAt(windowOpen, ticks, i) == Passed(Ran(Complete))
    ensures ActAt(windowOpen, ticks, j) == NothingDue
  {
    var run := ticks[..j];
    assert run[..i] == ticks[..i];
    CompleteIsCounted(windowOpen, run, i);
    assert run[|run| - 1].day == ticks[j].day;
    DayIsAccountedFor(windowOpen, run);
  }

  // --------------------------------------------------- any clock at all

  /** An act that writes its day into the ledger. */
  ghost predicate Records(a: Act) {
    a.Passed? || a == ExhaustedLogged
  }

  /** What a day saw since another day was last written into the ledger. */
  ghost function Since(windowOpen: nat, ticks: seq<Tick>, day: int): Tally {
    if ticks == [] then Tally(0, 0, 0, 0)
    else
      var before, last := ticks[..|ticks| - 1], ticks[|ticks| - 1];
      var act := ActOf(After(windowOpen, before), windowOpen, last);
      if last.day == day then Counted(Since(windowOpen, before, day), act)
      else if Records(act) then Tally(0, 0, 0, 0)
      else Since(windowOpen, before, day)
  }

  /** How often that cut off a day that had passes. */
  ghost function Interruptions(windowOpen: nat, ticks: seq<Tick>, day: int): nat {
    if ticks == [] then 0
    else
      var before, last := ticks[..|ticks| - 1], ticks[|ticks| - 1];
      var cut := last.day != day && Records(ActOf(After(windowOpen, before), windowOpen, last))
                 && Since(windowOpen, before, day).started > 0;
      Interruptions(windowOpen, before, day) + (if cut then 1 else 0)
  }

  ghost predicate StretchOk(attempts: nat, t: Tally) {
    && attempts + t.refunds == t.started + t.logged && t.refunds <= t.started <= t.refunds + MAX_DAILY_ARCHIVE_ATTEMPTS
    && t.logged <= 1 && (t.logged == 1 ==> t.started == t.refunds + MAX_DAILY_ARCHIVE_ATTEMPTS)
  }

  lemma TickKeepsStretch(m: Memory, t: Tally, windowOpen: nat, tick: Tick, day: int)
    requires StretchOk(AttemptsOn(m.ledger, day), t)
    ensures var act := ActOf(m, windowOpen, tick);
            var next := if tick.day == day then Counted(t, act) else if Records(act) then Tally(0, 0, 0, 0) else t;
            StretchOk(AttemptsOn(NextMemory(m, windowOpen, tick).ledger, day), next)
  {
  }

  /** For any clock and any day the ledger is exact about the stretch since
      another day was written into it, and that stretch keeps the limits. */
  lemma {:induction false} EveryStretchIsAccountedFor(windowOpen: nat, ticks: seq<Tick>, day: int)
    ensures StretchOk(AttemptsOn(After(windowOpen, ticks).ledger, day), Since(windowOpen, ticks, day))
  {
    if ticks != [] {
      var before := ticks[..|ticks| - 1];
      EveryStretchIsAccountedFor(windowOpen, before, day);
      TickKeepsStretch(After(windowOpen, before), Since(windowOpen, before, day), windowOpen, ticks[|ticks| - 1], day);
    }
  }

  lemma {:induction false} TotalIsInBudget(windowOpen: nat, ticks: seq<Tick>, day: int)
    ensures InBudget(TallyOf(windowOpen, ticks, day), Since(windowOpen, ticks, day), Interruptions(windowOpen, ticks, day))
  {
    if ticks != [] {
      var before, last := ticks[..|ticks| - 1], ticks[|ticks| - 1];
      EveryStretchIsAccountedFor(windowOpen, before, day);
      TotalIsInBudget(windowOpen, before, day);
      var act := ActOf(After(windowOpen, before), windowOpen, last);
      BudgetStep(TallyOf(windowOpen, before, day), Since(windowOpen, before, day), Interruptions(windowOpen, before, day),
                 act, last.day == day);
      OneTickOfADay(windowOpen, ticks, day, act);
    }
  }

  lemma OneTickOfADay(windowOpen: nat, ticks: seq<Tick>, day: int, act: Act)
    requires ticks != [] && act == ActOf(After(windowOpen, ticks[..|ticks| - 1]), windowOpen, ticks[|ticks| - 1])
    ensures var before, same := ticks[..|ticks| - 1], ticks[|ticks| - 1].day == day;
            var t, s, cuts := TallyOf(windowOpen, before, day), Since(windowOpen, before, day), Interruptions(windowOpen, before, day);
            && TallyOf(windowOpen, ticks, day) == (if same then Counted(t, act) else t)
            && Since(windowOpen, ticks, day) == (if same then Counted(s, act) else if Records(act) then Tally(0, 0, 0, 0) else s)
            && Interruptions(windowOpen, ticks, day) == cuts + (if !same && Records(act) && s.started > 0 then 1 else 0)
  {
  }

  /** So a day has at most six unrefunded passes for each stretch of it, that
      is, six more for each interruption. */
  lemma InterruptionsRenewTheBudget(windowOpen: nat, ticks: seq<Tick>, day: int)
    ensures var t := TallyOf(windowOpen, ticks, day);
            && t.refunds <= t.started
            && t.started - t.refunds <= MAX_DAILY_ARCHIVE_ATTEMPTS * (Interruptions(windowOpen, ticks, day) + 1)
  {
    EveryStretchIsAccountedFor(windowOpen, ticks, day);
    TotalIsInBudget(windowOpen, ticks, day);
  }

  /** A day's passes against those of its present stretch. */
  ghost predicate InBudget(t: Tally, s: Tally, cuts: nat) {
    && t.refunds <= t.started && s.refunds <= s.started
    && t.started - t.refunds <= MAX_DAILY_ARCHIVE_ATTEMPTS * cuts + s.started - s.refunds
  }

  lemma BudgetStep(t: Tally, s: Tally, cuts: nat, act: Act, sameDay: bool)
    requires InBudget(t, s, cuts) && s.started <= s.refunds + MAX_DAILY_ARCHIVE_ATTEMPTS
    ensures if sameDay then InBudget(Counted(t, act), Counted(s, act), cuts)
            else if Records(act) then InBudget(t, Tally(0, 0, 0, 0), cuts + (if s.started > 0 then 1 else 0))
            else InBudget(t, s, cuts)
  {
  }

  // --------------------------------------------------- the clock goes back

  ghost function Repeat(t: Tick, n: nat): seq<Tick> {
    seq(n, _ => t)
  }

  /** A due tick whose pass spends its attempt. */
  ghost predicate Spends(windowOpen: nat, t: Tick) {
    t.secs >= windowOpen && !t.marker && t.outcome == Skipped
  }

  ghost predicate Spent(m: Memory, t: Tally, day: int, attempts: nat, started: nat) {
    AttemptsOn(m.ledger, day) == attempts && m.latchedDay == None && t == Tally(started, 0, 0, 0)
  }

  lemma SpendOnce(windowOpen: nat, run: seq<Tick>, t: Tick, n: nat, started: nat)
    requires Spends(windowOpen, t) && n < MAX_DAILY_ARCHIVE_ATTEMPTS
    requires Spent(After(windowOpen, run), TallyOf(windowOpen, run, t.day), t.day, n, started)
    ensures Spent(After(windowOpen, run + [t]), TallyOf(windowOpen, run + [t], t.day), t.day, n + 1, started + 1)
  {
    assert (run + [t])[..|run|] == run;
  }

  lemma {:induction false} SpendingRuns(windowOpen: nat, front: seq<Tick>, t: Tick, n: nat, started: nat)
    requires Spends(windowOpen, t) && n <= MAX_DAILY_ARCHIVE_ATTEMPTS
    requires Spent(After(windowOpen, front), TallyOf(windowOpen, front, t.day), t.day, 0, started)
    ensures var run := front + Repeat(t, n);
            Spent(After(windowOpen, run), TallyOf(windowOpen, run, t.day), t.day, n, started + n)
  {
    var run := front + Repeat(t, n);
    if n == 0 {
      assert run == front;
    } else {
      assert run == (front + Repeat(t, n - 1)) + [t];
      SpendingRuns(windowOpen, front, t, n - 1, started);
      SpendOnce(windowOpen, front + Repeat(t, n - 1), t, n - 1, started + n - 1);
    }
  }

  /** A pass on another day makes the ledger forget this one. */
  lemma OtherDayForgets(windowOpen: nat, front: seq<Tick>, t: Tick, day: int, attempts: nat, started: nat)
    requires Spends(windowOpen, t) && t.day != day && AttemptsOn(After(windowOpen, front).ledger, t.day) == 0
    requires Spent(After(windowOpen, front), TallyOf(windowOpen, front, day), day, attempts, started)
    ensures Spent(After(windowOpen, front + [t]), TallyOf(windowOpen, front + [t], day), day, 0, started)
  {
    assert (front + [t])[..|front|] == front;
  }

  /** And that is reached: six spent passes, one on another day, and six more
      when the clock comes back. The day has twelve unrefunded passes. */
  lemma ClockStepBackBreaksBound(windowOpen: nat, t: Tick, other: Tick) returns (ticks: seq<Tick>)
    requires Spends(windowOpen, t) && Spends(windowOpen, other) && t.day != other.day
    ensures TallyOf(windowOpen, ticks, t.day) == Tally(2 * MAX_DAILY_ARCHIVE_ATTEMPTS, 0, 0, 0)
  {
    var first := [] + Repeat(t, MAX_DAILY_ARCHIVE_ATTEMPTS);
    SpendingRuns(windowOpen, [], t, MAX_DAILY_ARCHIVE_ATTEMPTS, 0);
    assert forall i | 0 <= i < |first| :: first[i].day == t.day;
    MemoryIsOfPastDays(windowOpen, first, other.day);
    OtherDayForgets(windowOpen, first, other, t.day, MAX_DAILY_ARCHIVE_ATTEMPTS, MAX_DAILY_ARCHIVE_ATTEMPTS);
    SpendingRuns(windowOpen, first + [other], t, MAX_DAILY_ARCHIVE_ATTEMPTS, MAX_DAILY_ARCHIVE_ATTEMPTS);
    ticks := first + [other] + Repeat(t, MAX_DAILY_ARCHIVE_ATTEMPTS);
  }
}
