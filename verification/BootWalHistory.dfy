/** The runs of the write-ahead log told by their events alone: what the history
    of a world records is what passes and folds of the run did, and a boot with
    no fault ends with every segment archived. */
module BootWalHistory {
  import opened Wrappers
  import opened BootWal
  import opened BootWalRuns

  // --------------------------------------------------- what one event does to a segment

  datatype Mark = WasRead | ReadPlain | RowsLanded | WasApplied | WasGivenUp | WasStranded

  ghost function WalkAt(w: World, e: Event): Walk
    requires e.ReadPass?
  {
    WalkOf(e.r, w.memory.attempts)
  }

  /** The event is a pass whose reading took effect, and it read the segment. */
  ghost predicate Reads(w: World, e: Event, s: Segment) {
    e.ReadPass? && e.end != DiedReading && s in WalkAt(w, e).read
  }

  ghost predicate FinishesReading(w: World, e: Event, s: Segment) {
    Reads(w, e, s) && e.end == Finished
  }

  /** The watermark covers the segment, a later one is listed, and the read got
      past everything kept before it. */
  ghost predicate AppliedAndPassed(r: Reading, s: Segment) {
    s in r.segments && s in r.applied && HasLater(r.segments, s) && PassedAllBefore(r, s)
  }

  ghost predicate Marks(k: Mark, w: World, e: Event, s: Segment) {
    match k
    case WasRead => Reads(w, e, s)
    case ReadPlain => FinishesReading(w, e, s) && !e.refold
    case RowsLanded => e == Fold(s) && w.memory.pass.Some? && s in w.memory.pass.value.read
    case WasApplied => e.ReadPass? && e.end != DiedReading && AppliedAndPassed(e.r, s)
    case WasGivenUp => e.ReadPass? && e.end != DiedReading && s in WalkAt(w, e).gaveUp
    case WasStranded =>
      && e.ReadPass? && e.end == Finished && s in e.r.segments && s !in e.ok
      && s in Recovered(w, e.recoverOk) && Recovered(w, e.recoverOk)[s] == Staged
      && s !in WalkAt(w, e).read && s !in WalkAt(w, e).gaveUp && !AppliedAndPassed(e.r, s)
  }

  ghost predicate Recorded(k: Mark, h: History, s: Segment) {
    match k
    case WasRead => s in h.read
    case ReadPlain => s in h.plain
    case RowsLanded => s in h.folded
    case WasApplied => s in h.applied
    case WasGivenUp => s in h.gaveUp
    case WasStranded => s in h.stranded
  }

  /** The event at a place of the run, with the world before it. */
  ghost predicate MarksAt(k: Mark, run: seq<Event>, i: nat, s: Segment)
    requires i < |run|
  {
    Marks(k, After(run[..i]), run[i], s)
  }

  ghost predicate FinishesAt(run: seq<Event>, i: nat, s: Segment)
    requires i < |run|
  {
    FinishesReading(After(run[..i]), run[i], s)
  }

  /** The mark was made by an event of the run, and no finished pass has read
      the segment since; having been read is never undone. */
  ghost predicate Marked(k: Mark, run: seq<Event>, s: Segment) {
    exists i :: 0 <= i < |run| && MarksAt(k, run, i, s) && (k == WasRead || NotReadSince(run, i + 1, s))
  }

  ghost predicate NotReadSince(run: seq<Event>, from: nat, s: Segment) {
    forall j | from <= j < |run| :: !FinishesAt(run, j, s)
  }

  // --------------------------------------------------- what a plan archives and strands

  lemma KeptMovesNeverArchive(r: Reading, failed: set<Segment>, m: Move)
    requires m in PassMoves(r, failed)
    ensures m in SkipMoves(Skips(r), Consumed(r), |Skips(r)|) || (m.to != Archived && m.seg in Kept(r))
  {
    RestoreNames(Kept(r), Consumed(r), failed, |Kept(r)|);
    StageNames(Kept(r), Consumed(r), failed, |Kept(r)|);
  }

  /** What a pass archives as applied, without its plan. */
  lemma AppliedByExactly(r: Reading, failed: set<Segment>, s: Segment)
    requires Ascending(r.segments)
    ensures s in AppliedBy(r, failed) <==> AppliedAndPassed(r, s)
  {
    KeptExactly(r, s);
    if s in AppliedBy(r, failed) {
      var m :| m in PassMoves(r, failed) && m.to == Archived && m.seg == s;
      KeptMovesNeverArchive(r, failed, m);
      var moves := SkipMoves(Skips(r), Consumed(r), |Skips(r)|);
      var j :| 0 <= j < |moves| && moves[j] == m;
      assert Skips(r)[j].seg == s;
      PassedMeansNextKept(r, j);
    }
    if AppliedAndPassed(r, s) {
      var j :| 0 <= j < |Skips(r)| && Skips(r)[j].seg == s;
      PassedMeansNextKept(r, j);
      SkipMoveIsPlanned(r, failed, j);
    }
  }

  /** Which staged segments a finished pass cannot send back, without its plan. */
  lemma StrandedByExactly(d: Disk, r: Reading, attempts: map<Segment, nat>, ok: set<Segment>, s: Segment)
    requires Ascending(r.segments) && (s in r.segments ==> s in d)
    ensures var w := WalkOf(r, attempts);
            s in StrandedBy(d, r, w.failed, ok)
            <==> s in r.segments && d[s] == Staged && s !in ok && s !in w.read && s !in w.gaveUp && !AppliedAndPassed(r, s)
  {
    var w := WalkOf(r, attempts);
    KeptExactly(r, s);
    KeptIsOrdered(r.segments, r.applied, |r.segments|);
    ReadsAreWalked(Kept(r), r.readable, attempts, Consumed(r));
    if s in StrandedBy(d, r, w.failed, ok) {
      var m :| m in PassMoves(r, w.failed) && m.to == Live && m.seg == s;
      MoveIsJustified(r, attempts, m);
      SentBackIsUnread(r, attempts, m);
    }
    if s in r.segments && s !in w.read && s !in w.gaveUp && !AppliedAndPassed(r, s) {
      UnreadIsSentBack(r, attempts, s);
    }
  }

  lemma SentBackIsUnread(r: Reading, attempts: map<Segment, nat>, m: Move)
    requires Ascending(r.segments) && m in PassMoves(r, WalkOf(r, attempts).failed) && m.to == Live
    ensures m.seg !in WalkOf(r, attempts).read && m.seg !in WalkOf(r, attempts).gaveUp && !AppliedAndPassed(r, m.seg)
  {
    var w := WalkOf(r, attempts);
    KeptExactly(r, m.seg);
    KeptIsOrdered(r.segments, r.applied, |r.segments|);
    ReadsAreWalked(Kept(r), r.readable, attempts, Consumed(r));
    var moves := SkipMoves(Skips(r), Consumed(r), |Skips(r)|);
    if m in moves {
      var j :| 0 <= j < |moves| && moves[j] == m;
      assert Skips(r)[j].seg == m.seg;
      PassedMeansNextKept(r, j);
    } else {
      RestoreNames(Kept(r), Consumed(r), w.failed, |Kept(r)|);
      StageNames(Kept(r), Consumed(r), w.failed, |Kept(r)|);
      var i :| 0 <= i < |Kept(r)| && m == Move(Kept(r)[i], {Staged}, Live) && IsUnread(Kept(r), Consumed(r), w.failed, i);
      KeptVerdict(Kept(r), r.readable, attempts, Consumed(r), i);
    }
  }

  lemma UnreadIsSentBack(r: Reading, attempts: map<Segment, nat>, s: Segment)
    requires Ascending(r.segments) && s in r.segments
    requires s !in WalkOf(r, attempts).read && s !in WalkOf(r, attempts).gaveUp && !AppliedAndPassed(r, s)
    ensures exists m :: m in PassMoves(r, WalkOf(r, attempts).failed) && m.to == Live && m.seg == s && m.from == {Staged}
  {
    var w := WalkOf(r, attempts);
    KeptExactly(r, s);
    KeptIsOrdered(r.segments, r.applied, |r.segments|);
    if s in Kept(r) {
      var i :| 0 <= i < |Kept(r)| && Kept(r)[i] == s;
      KeptVerdict(Kept(r), r.readable, attempts, Consumed(r), i);
      KeptMoveIsPlanned(r, w.failed, i);
      assert KeptMove(Kept(r), Consumed(r), w.failed, i) == Move(s, {Staged}, Live);
    } else {
      var j :| 0 <= j < |Skips(r)| && Skips(r)[j].seg == s;
      PassedMeansNextKept(r, j);
      SkipMoveIsPlanned(r, w.failed, j);
      assert SkipMove(Skips(r)[j], Consumed(r)) == Move(s, {Staged}, Live);
    }
  }

  // --------------------------------------------------- the history is the run's

  lemma PassRecords(k: Mark, w: World, e: Event, s: Segment)
    requires IsLegal(w, e) && e.ReadPass?
    ensures Recorded(k, AfterPass(w, e).history, s)
            <==> Marks(k, w, e, s) || (Recorded(k, w.history, s) && (k == WasRead || !FinishesReading(w, e, s)))
  {
    var d := Recovered(w, e.recoverOk);
    AppliedByExactly(e.r, WalkAt(w, e).failed, s);
    StrandedByExactly(d, e.r, w.memory.attempts, e.ok, s);
    HistoryRecords(k, w, e, d, s);
  }

  lemma HistoryRecords(k: Mark, w: World, e: Event, d: Disk, s: Segment)
    requires e.ReadPass? && d == Recovered(w, e.recoverOk) && (s in e.r.segments ==> s in d)
    requires s in AppliedBy(e.r, WalkAt(w, e).failed) <==> AppliedAndPassed(e.r, s)
    requires s in StrandedBy(d, e.r, WalkAt(w, e).failed, e.ok)
             <==> s in e.r.segments && d[s] == Staged && s !in e.ok
                  && s !in WalkAt(w, e).read && s !in WalkAt(w, e).gaveUp && !AppliedAndPassed(e.r, s)
    ensures Recorded(k, PassHistory(w.history, d, e, WalkAt(w, e)), s)
            <==> Marks(k, w, e, s) || (Recorded(k, w.history, s) && (k == WasRead || !FinishesReading(w, e, s)))
  {
  }

  lemma EventRecords(k: Mark, w: World, e: Event, s: Segment)
    requires IsLegal(w, e)
    ensures Recorded(k, Next(w, e).history, s)
            <==> Marks(k, w, e, s) || (Recorded(k, w.history, s) && (k == WasRead || !FinishesReading(w, e, s)))
  {
    if e.ReadPass? {
      PassRecords(k, w, e, s);
    }
  }

  lemma LongerRun(front: seq<Event>, e: Event, i: nat)
    requires i <= |front|
    ensures (front + [e])[..i] == front[..i]
    ensures i < |front| ==> (front + [e])[i] == front[i]
    ensures (front + [e])[|front|] == e && front[..|front|] == front
  {
  }

  lemma MarksInLonger(k: Mark, front: seq<Event>, e: Event, i: nat, s: Segment)
    requires i < |front|
    ensures MarksAt(k, front + [e], i, s) <==> MarksAt(k, front, i, s)
    ensures FinishesAt(front + [e], i, s) <==> FinishesAt(front, i, s)
  {
    LongerRun(front, e, i);
  }

  lemma NotReadInLonger(front: seq<Event>, e: Event, from: nat, s: Segment)
    requires from <= |front|
    ensures NotReadSince(front + [e], from, s) <==> NotReadSince(front, from, s) && !FinishesReading(After(front), e, s)
  {
    var run := front + [e];
    forall j | 0 <= j < |front| ensures FinishesAt(run, j, s) <==> FinishesAt(front, j, s) {
      MarksInLonger(WasRead, front, e, j, s);
    }
    LongerRun(front, e, |front|);
    assert FinishesAt(run, |front|, s) <==> FinishesReading(After(front), e, s);
    if NotReadSince(run, from, s) {
      forall j | from <= j < |front| ensures !FinishesAt(front, j, s) {
        assert !FinishesAt(run, j, s);
      }
    }
  }

  lemma MarkedByLast(k: Mark, run: seq<Event>, s: Segment)
    requires run != [] && MarksAt(k, run, |run| - 1, s)
    ensures Marked(k, run, s)
  {
  }

  lemma StaysMarked(k: Mark, front: seq<Event>, e: Event, s: Segment)
    requires Marked(k, front, s) && (k == WasRead || !FinishesReading(After(front), e, s))
    ensures Marked(k, front + [e], s)
  {
    var i :| 0 <= i < |front| && MarksAt(k, front, i, s) && (k == WasRead || NotReadSince(front, i + 1, s));
    MarksInLonger(k, front, e, i, s);
    NotReadInLonger(front, e, i + 1, s);
  }

  lemma WasMarked(k: Mark, front: seq<Event>, e: Event, s: Segment)
    requires Marked(k, front + [e], s) && !MarksAt(k, front + [e], |front|, s)
    ensures Marked(k, front, s) && (k == WasRead || !FinishesReading(After(front), e, s))
  {
    var run := front + [e];
    var i :| 0 <= i < |run| && MarksAt(k, run, i, s) && (k == WasRead || NotReadSince(run, i + 1, s));
    MarksInLonger(k, front, e, i, s);
    NotReadInLonger(front, e, i + 1, s);
  }

  lemma MarkedMore(k: Mark, front: seq<Event>, e: Event, s: Segment)
    ensures Marked(k, front + [e], s)
            <==> Marks(k, After(front), e, s)
                 || (Marked(k, front, s) && (k == WasRead || !FinishesReading(After(front), e, s)))
  {
    LongerRun(front, e, |front|);
    if MarksAt(k, front + [e], |front|, s) {
      MarkedByLast(k, front + [e], s);
    } else if Marked(k, front + [e], s) {
      WasMarked(k, front, e, s);
    } else if Marked(k, front, s) && (k == WasRead || !FinishesReading(After(front), e, s)) {
      StaysMarked(k, front, e, s);
    }
  }

  /** The history a world carries is exactly what the events of its run did. */
  lemma {:induction false} HistoryIsTheRuns(k: Mark, run: seq<Event>, s: Segment)
    requires LegalRun(run)
    ensures Recorded(k, After(run).history, s) <==> Marked(k, run, s)
  {
    if run != [] {
      var front, e := run[..|run| - 1], run[|run| - 1];
      assert run == front + [e];
      LegalFront(front, e);
      HistoryIsTheRuns(k, front, s);
      MarkedMore(k, front, e, s);
      EventRecords(k, After(front), e, s);
    }
  }

  lemma LegalFront(front: seq<Event>, e: Event)
    requires LegalRun(front + [e])
    ensures LegalRun(front) && IsLegal(After(front), e)
  {
    var run := front + [e];
    LongerRun(front, e, |front|);
    forall i | 0 <= i < |front| ensures IsLegal(After(front[..i]), front[i]) {
      LongerRun(front, e, i);
      assert IsLegal(After(run[..i]), run[i]);
    }
    assert IsLegal(After(run[..|front|]), run[|front|]);
  }

  // --------------------------------------------------- main results on the run itself

  /** Over any run, an archived segment was read by some pass of it; or some
      pass skipped it as applied, with a later segment listed; or gave up on it
      at the third failed read. */
  lemma ArchivedWasReadInTheRun(run: seq<Event>, s: Segment) returns (k: Mark)
    requires LegalRun(run) && s in After(run).place && After(run).place[s] == Archived
    ensures k in {WasRead, WasApplied, WasGivenUp} && Marked(k, run, s)
  {
    ArchivedWasRead(run, s);
    k := ReadOrExcused(After(run).history, s);
    HistoryIsTheRuns(k, run, s);
  }

  lemma ReadOrExcused(h: History, s: Segment) returns (k: Mark)
    requires s in h.read || s in h.applied || s in h.gaveUp
    ensures k in {WasRead, WasApplied, WasGivenUp} && Recorded(k, h, s)
  {
    k := if s in h.read then WasRead else if s in h.applied then WasApplied else WasGivenUp;
  }

  /** And since the last pass that read it: its rows landed; or that pass had no
      refold pending; or a pass skipped it as applied, gave up on it, or could
      not send it back. */
  lemma ArchivedWasReleasedInTheRun(run: seq<Event>, s: Segment) returns (k: Mark)
    requires LegalRun(run) && s in After(run).place && After(run).place[s] == Archived
    ensures k != WasRead && Marked(k, run, s)
  {
    ArchivedWasFoldedFirst(run, s);
    k := HowReleased(After(run).history, s);
    HistoryIsTheRuns(k, run, s);
  }

  lemma HowReleased(h: History, s: Segment) returns (k: Mark)
    requires Released(h, s)
    ensures k != WasRead && Recorded(k, h, s)
  {
    k := if s in h.folded then RowsLanded else if s in h.plain then ReadPlain
         else if s in h.applied then WasApplied else if s in h.gaveUp then WasGivenUp else WasStranded;
  }

  // --------------------------------------------------- crashes in a pass

  /** A crash may cut the plan of a pass after any of its renames; the process
      memory is gone, and what the read did is known to no one. */
  lemma AnyPrefixMayBeAll(w: World, e: Event, done: nat)
    requires e.ReadPass? && e.end == DiedMoving(done) && done <= |PassMoves(e.r, WalkAt(w, e).failed)|
    ensures var after := Next(w, e);
            && after.place == ApplyAll(Recovered(w, e.recoverOk), PassMoves(e.r, WalkAt(w, e).failed)[..done], e.ok)
            && after.memory.attempts == map[] && after.memory.pass == None && !after.memory.confirmed
  {
  }

  // --------------------------------------------------- boots without a fault

  /** A boot and its replay pass, where nothing stops, fails or crashes. */
  ghost predicate CleanPass(w: World, e: Event) {
    && e.ReadPass? && e.end == Finished && e.r.stopBefore == {}
    && IsLegal(Next(w, Boot), e)
    && forall s | s in w.place :: s in e.r.readable && s in e.ok && s in e.recoverOk
  }

  /** After it all is staged and reported as read, or archived. */
  lemma CleanPassStages(w: World, e: Event, s: Segment)
    requires CleanPass(w, e) && s in w.place
    ensures var after := Next(Next(w, Boot), e);
            && s in after.place && after.memory.pass.Some?
            && (after.place[s] == Archived || (after.place[s] == Staged && s in after.memory.pass.value.read))
            && after.memory.pass.value.pass == Read && after.memory.pass.value.refold == e.refold
            && !after.memory.confirmed
            && (s in after.memory.pass.value.read ==> after.place[s] == Staged)
  {
    var booted := Next(w, Boot);
    var d := Recovered(booted, e.recoverOk);
    var walk := WalkOf(e.r, booted.memory.attempts);
    if s in e.r.segments {
      CleanPassDrains(d, e.r, booted.memory.attempts, e.ok, s);
      if s in walk.read {
        ReadIsKept(d, e.r, booted.memory.attempts, e.ok, s);
      }
    } else {
      NotListedStays(d, e.r, booted.memory.attempts, PassMoves(e.r, walk.failed), e.ok, s);
      if s in walk.read {
        ReadIsListed(e.r, booted.memory.attempts, s);
      }
    }
  }

  lemma ReadIsKept(d: Disk, r: Reading, attempts: map<Segment, nat>, ok: set<Segment>, s: Segment)
    requires IsListing(d, r.segments) && s in WalkOf(r, attempts).read && s in ok
    ensures var after := ApplyAll(d, PassMoves(r, WalkOf(r, attempts).failed), ok); s in after && after[s] == Staged
  {
    var w := WalkOf(r, attempts);
    ReadsAreInOrder(r, attempts);
    assert s in Kept(r)[..Consumed(r)];
    var i :| 0 <= i < Consumed(r) && Kept(r)[i] == s;
    KeptExactly(r, s);
    KeptIsOrdered(r.segments, r.applied, |r.segments|);
    KeptVerdict(Kept(r), r.readable, attempts, Consumed(r), i);
    KeptEndsWhere(d, r, w.failed, ok, s);
  }

  /** With no refold pending the boot's confirm archives every segment there
      is. */
  lemma CleanBootArchives(w: World, e: Event, ok: set<Segment>, s: Segment)
    requires CleanPass(w, e) && !e.refold && s in w.place && s in ok
    ensures var after := Next(Next(Next(w, Boot), e), Confirm(ok));
            s in after.place && after.place[s] == Archived
  {
    CleanPassStages(w, e, s);
    ConfirmArchives(Next(Next(w, Boot), e), ok, s);
  }

  lemma ConfirmArchives(w: World, ok: set<Segment>, s: Segment)
    requires !w.memory.confirmed && w.memory.pass.Some?
    requires w.memory.pass.value.pass == Read && !w.memory.pass.value.refold
    requires s in w.place && s in ok && w.place[s] in {Staged, Archived}
    ensures s in Next(w, Confirm(ok)).place && Next(w, Confirm(ok)).place[s] == Archived
  {
  }

  ghost function Folds(w: World, landed: seq<Segment>): World {
    if landed == [] then w else Next(Folds(w, landed[..|landed| - 1]), Fold(landed[|landed| - 1]))
  }

  lemma {:induction false} FoldsLand(w: World, landed: seq<Segment>)
    requires w.memory.pass.Some?
    ensures var after := Folds(w, landed);
            && after.place == w.place && after.memory.pass.Some?
            && after.memory.pass.value.(folded := {}) == w.memory.pass.value.(folded := {})
            && forall s | s in landed && s in w.memory.pass.value.read :: s in after.memory.pass.value.folded
  {
    if landed != [] {
      FoldsLand(w, landed[..|landed| - 1]);
      assert landed == landed[..|landed| - 1] + [landed[|landed| - 1]];
    }
  }

  /** With a refold pending nothing is archived until the rows of every segment
      the pass read have landed; then settling and promoting archives every
      segment there is. */
  lemma CleanRefoldArchives(w: World, e: Event, landed: seq<Segment>, ok: set<Segment>, s: Segment)
    requires CleanPass(w, e) && e.refold && s in w.place && s in ok
    requires forall x | x in w.place :: x in landed
    ensures var passed := Next(Next(w, Boot), e); var folded := Folds(passed, landed);
            var after := Next(Next(folded, SettleAll(ok, true)), Promote(w.place.Keys, ok));
            && Next(passed, Confirm(ok)).place == passed.place
            && s in after.place && after.place[s] == Archived
  {
    CleanPassStages(w, e, s);
    ReportedAreKnown(w, e);
    LandedThenArchived(Next(Next(w, Boot), e), landed, w.place.Keys, ok, s);
  }

  lemma LandedThenArchived(w: World, landed: seq<Segment>, names: set<Segment>, ok: set<Segment>, s: Segment)
    requires w.memory.pass.Some? && w.memory.pass.value.pass == Read && w.memory.pass.value.refold
    requires forall x | x in w.memory.pass.value.read :: x in landed
    requires s in w.place && s in ok && s in names && w.place[s] in {Staged, Archived}
    ensures Next(w, Confirm(ok)).place == w.place
    ensures var after := Next(Next(Folds(w, landed), SettleAll(ok, true)), Promote(names, ok));
            s in after.place && after.place[s] == Archived
  {
    FoldsLand(w, landed);
    SettleThenPromote(Folds(w, landed), names, ok, s);
  }

  lemma ReportedAreKnown(w: World, e: Event)
    requires CleanPass(w, e)
    ensures var after := Next(Next(w, Boot), e);
            after.memory.pass.Some? && forall s | s in after.memory.pass.value.read :: s in w.place
  {
    var booted := Next(w, Boot);
    forall s | s in WalkOf(e.r, booted.memory.attempts).read ensures s in w.place {
      ReadIsListed(e.r, booted.memory.attempts, s);
    }
  }

  lemma SettleThenPromote(w: World, names: set<Segment>, ok: set<Segment>, s: Segment)
    requires MaySettleAll(w) && s in w.place && s in ok && s in names && w.place[s] in {Staged, Archived}
    ensures var after := Next(Next(w, SettleAll(ok, true)), Promote(names, ok));
            s in after.place && after.place[s] == Archived
  {
  }

  /** One segment at a time: once its own rows have landed it can be settled
      and promoted, whatever the others wait for. */
  lemma LandedSettlesAlone(w: World, ok: set<Segment>, s: Segment)
    requires w.memory.pass.Some? && s in w.memory.pass.value.read && s in w.place && w.place[s] == Staged && s in ok
    ensures var after := Next(Next(Next(w, Fold(s)), SettleOne(s, ok, true)), Promote({s}, ok));
            && s in after.place && after.place[s] == Archived
            && forall x | x in w.place && x != s && x !in w.memory.tracked :: x in after.place && after.place[x] == w.place[x]
  {
  }

  /** A pass that was refused or failed, or none at all, archives nothing and
      lets nothing be settled; a failed one has taken what an earlier process
      left in `settling/` back. */
  lemma NoReadNoRelease(w: World, e: Event, ok: set<Segment>, s: Segment, track: bool)
    requires e.RefusedPass? || e.FailedPass? || e.Boot?
    ensures Next(w, e).place.Keys == w.place.Keys
    ensures s in w.place ==>
              Next(w, e).place[s] == if e.FailedPass? && !w.memory.settledAny && w.place[s] == Settling && s in e.recoverOk
                                     then Staged else w.place[s]
    ensures var held := Next(w, e);
            && Next(held, Confirm(ok)) == held && Next(held, ConfirmRound(ok)) == held && Next(held, Fold(s)) == held
            && Next(held, SettleOne(s, ok, track)) == held
            && Next(held, SettleAll(ok, track)) == held
  {
  }
}
