/** Runs of the write-ahead log over any number of boots: replay passes, the
    confirm step, lane folds, settling and promotion, with a crash possible
    between any two renames. */
module BootWalRuns {
  import opened Wrappers
  import opened BootWal

  // --------------------------------------------------- one finished pass

  function ElementsOf(read: seq<Segment>): set<Segment> {
    set s | s in read
  }

  /** Segments a pass archives as applied without reading them. */
  ghost function AppliedBy(r: Reading, failed: set<Segment>): set<Segment> {
    set m | m in PassMoves(r, failed) && m.to == Archived :: m.seg
  }

  /** Staged segments whose way back to the live folder failed. */
  ghost function StrandedBy(d: Disk, r: Reading, failed: set<Segment>, ok: set<Segment>): set<Segment> {
    set m | m in PassMoves(r, failed) && m.to == Live && m.seg in d && d[m.seg] == Staged && m.seg !in ok :: m.seg
  }

  lemma SkipMoveIsPlanned(r: Reading, failed: set<Segment>, j: nat)
    requires j < |Skips(r)|
    ensures SkipMove(Skips(r)[j], Consumed(r)) in PassMoves(r, failed)
  {
    var moves := SkipMoves(Skips(r), Consumed(r), |Skips(r)|);
    assert moves[j] == SkipMove(Skips(r)[j], Consumed(r));
    assert moves[j] in moves;
  }

  lemma KeptMoveIsPlanned(r: Reading, failed: set<Segment>, i: nat)
    requires i < |Kept(r)|
    ensures KeptMove(Kept(r), Consumed(r), failed, i) in PassMoves(r, failed)
  {
    RestoreNames(Kept(r), Consumed(r), failed, |Kept(r)|);
    StageNames(Kept(r), Consumed(r), failed, |Kept(r)|);
  }

  lemma SkippedSegmentEnds(d: Disk, r: Reading, failed: set<Segment>, ok: set<Segment>, j: nat)
    requires Ascending(r.segments) && j < |Skips(r)| && Skips(r)[j].seg in d
    ensures var s := Skips(r)[j].seg; var after := ApplyAll(d, PassMoves(r, failed), ok);
            s in after && (after[s] == Staged ==> s in AppliedBy(r, failed) || s in StrandedBy(d, r, failed, ok))
  {
    SkippedFate(d, r, failed, ok, j);
    SkipMoveIsPlanned(r, failed, j);
  }

  lemma KeptSegmentEnds(d: Disk, r: Reading, attempts: map<Segment, nat>, ok: set<Segment>, i: nat)
    requires Ascending(r.segments) && i < |Kept(r)| && Kept(r)[i] in d
    ensures var w := WalkOf(r, attempts); var s := Kept(r)[i]; var after := ApplyAll(d, PassMoves(r, w.failed), ok);
            s in after && (after[s] == Staged ==> s in w.read || s in w.gaveUp || s in StrandedBy(d, r, w.failed, ok))
  {
    var w := WalkOf(r, attempts);
    KeptFate(d, r, w.failed, ok, i);
    KeptMoveIsPlanned(r, w.failed, i);
    if i < Consumed(r) {
      WalkCovers(Kept(r), r.readable, attempts, Consumed(r), i);
    }
  }

  lemma MoveIsJustified(r: Reading, attempts: map<Segment, nat>, m: Move)
    requires m in PassMoves(r, WalkOf(r, attempts).failed)
    ensures var w := WalkOf(r, attempts);
            && m.seg in r.segments && m.to != Settling
            && (m.to == Archived ==> m.seg in AppliedBy(r, w.failed))
            && (m.to == Staged ==> m.seg in w.read || m.seg in w.gaveUp)
  {
    var w := WalkOf(r, attempts);
    var skipMoves := SkipMoves(Skips(r), Consumed(r), |Skips(r)|);
    KeptAreListed(r.segments, r.applied, |r.segments|);
    assert r.segments[..|r.segments|] == r.segments;
    RestoreNames(Kept(r), Consumed(r), w.failed, |Kept(r)|);
    StageNames(Kept(r), Consumed(r), w.failed, |Kept(r)|);
    if m in skipMoves {
      var j :| 0 <= j < |skipMoves| && skipMoves[j] == m;
      var i := SkipsAreListed(r.segments, r.applied, |r.segments|, j);
    } else if m in StageMoves(Kept(r), Consumed(r), w.failed, |Kept(r)|) {
      var i :| 0 <= i < |Kept(r)| && m == Move(Kept(r)[i], {Live}, Staged) && !IsUnread(Kept(r), Consumed(r), w.failed, i);
      WalkCovers(Kept(r), r.readable, attempts, Consumed(r), i);
    }
  }

  /** After a finished pass `replaying/` holds only segments this very pass
      read, with three exceptions: a segment given up on at the retry cap, one
      whose restore rename failed, and one wholly applied whose archive rename
      failed. */
  lemma StagedWasRead(d: Disk, r: Reading, attempts: map<Segment, nat>, ok: set<Segment>, s: Segment)
    requires IsListing(d, r.segments) && s in d
    ensures var w := WalkOf(r, attempts); var after := ApplyAll(d, PassMoves(r, w.failed), ok);
            s in after && (after[s] == Staged ==>
              s in w.read || s in w.gaveUp || s in StrandedBy(d, r, w.failed, ok) || s in AppliedBy(r, w.failed))
  {
    var w := WalkOf(r, attempts);
    if s in r.segments {
      var i :| 0 <= i < |r.segments| && r.segments[i] == s;
      if IsSkipped(r.segments, r.applied, i) {
        var j := SkipIsListed(r.segments, r.applied, |r.segments|, i);
        SkippedSegmentEnds(d, r, w.failed, ok, j);
      } else {
        KeptIsListed(r.segments, r.applied, |r.segments|, i);
        var k :| 0 <= k < |Kept(r)| && Kept(r)[k] == s;
        KeptSegmentEnds(d, r, attempts, ok, k);
      }
    } else {
      NotListedStays(d, r, attempts, PassMoves(r, w.failed), ok, s);
    }
  }

  /** Exactly when a finished pass leaves a segment in `replaying/` that it did
      not read, where the confirm would archive it: it was given up on and is
      or gets staged; or it was staged before and its rename failed. */
  lemma StagedUnreadExactly(d: Disk, r: Reading, attempts: map<Segment, nat>, ok: set<Segment>, s: Segment)
    requires IsListing(d, r.segments) && s in r.segments
    ensures var w := WalkOf(r, attempts); var after := ApplyAll(d, PassMoves(r, w.failed), ok);
            s in after && (after[s] == Staged && s !in w.read <==>
              (s in w.gaveUp && (d[s] == Staged || s in ok)) || (d[s] == Staged && s !in ok && s !in w.read))
  {
    var w := WalkOf(r, attempts);
    var i :| 0 <= i < |r.segments| && r.segments[i] == s;
    ReadsAreWalked(Kept(r), r.readable, attempts, Consumed(r));
    if IsSkipped(r.segments, r.applied, i) {
      KeptIsNotSkipped(r, s, i);
      var j := SkipIsListed(r.segments, r.applied, |r.segments|, i);
      SkippedFate(d, r, w.failed, ok, j);
    } else {
      KeptIsListed(r.segments, r.applied, |r.segments|, i);
      var k :| 0 <= k < |Kept(r)| && Kept(r)[k] == s;
      KeptFate(d, r, w.failed, ok, k);
      KeptIsOrdered(r.segments, r.applied, |r.segments|);
      KeptVerdict(Kept(r), r.readable, attempts, Consumed(r), k);
    }
  }

  /** A kept segment is read or given up on exactly when it is not unread. */
  lemma KeptVerdict(kept: seq<Segment>, readable: set<Segment>, attempts: map<Segment, nat>, consumed: nat, k: nat)
    requires Ascending(kept) && k < |kept| && consumed <= |kept|
    ensures var w := WalkUpTo(kept, readable, attempts, consumed);
            kept[k] in w.read || kept[k] in w.gaveUp <==> !IsUnread(kept, consumed, w.failed, k)
  {
    ReadsAreWalked(kept, readable, attempts, consumed);
    FailedIsNotGivenUp(kept, readable, attempts, consumed);
    if k < consumed {
      WalkCovers(kept, readable, attempts, consumed, k);
    }
  }

  lemma NotListedStays(d: Disk, r: Reading, attempts: map<Segment, nat>, moves: seq<Move>, ok: set<Segment>, s: Segment)
    requires s in d && s !in r.segments && forall m | m in moves :: m in PassMoves(r, WalkOf(r, attempts).failed)
    ensures s in ApplyAll(d, moves, ok) && ApplyAll(d, moves, ok)[s] == d[s]
  {
    if Names(moves, s) {
      var m :| m in moves && m.seg == s;
      MoveIsJustified(r, attempts, m);
    }
    UnnamedStays(d, moves, ok, s);
  }

  /** However far a pass got before a crash, a segment newly staged was read
      (or given up on) and one newly archived was applied. */
  lemma ChangeIsJustified(d: Disk, r: Reading, attempts: map<Segment, nat>, moves: seq<Move>, ok: set<Segment>, s: Segment)
    requires s in d && forall m | m in moves :: m in PassMoves(r, WalkOf(r, attempts).failed)
    ensures var w := WalkOf(r, attempts); var after := ApplyAll(d, moves, ok);
            && s in after
            && (after[s] == Archived ==> d[s] == Archived || s in AppliedBy(r, w.failed))
            && (after[s] == Staged ==> d[s] == Staged || s in w.read || s in w.gaveUp)
            && (after[s] == Settling ==> d[s] == Settling)
  {
    ChangedByAMove(d, moves, ok, s);
    var after := ApplyAll(d, moves, ok);
    if after[s] != d[s] {
      var m :| m in moves && m.seg == s && m.to == after[s];
      MoveIsJustified(r, attempts, m);
    }
  }

  lemma ArchivedStays(d: Disk, r: Reading, attempts: map<Segment, nat>, moves: seq<Move>, ok: set<Segment>, s: Segment)
    requires IsListing(d, r.segments) && s in d && d[s] == Archived
    requires forall m | m in moves :: m in PassMoves(r, WalkOf(r, attempts).failed)
    ensures s in ApplyAll(d, moves, ok) && ApplyAll(d, moves, ok)[s] == Archived
  {
    NotListedStays(d, r, attempts, moves, ok, s);
  }

  /** A pass with no stop, no read error and no failed rename leaves nothing
      behind: every listed segment is read and staged, or archived as applied. */
  lemma CleanPassDrains(d: Disk, r: Reading, attempts: map<Segment, nat>, ok: set<Segment>, s: Segment)
    requires IsListing(d, r.segments) && s in r.segments
    requires r.stopBefore == {} && s in r.readable && s in ok
    ensures var w := WalkOf(r, attempts); var after := ApplyAll(d, PassMoves(r, w.failed), ok);
            s in after && ((after[s] == Staged && s in w.read) || (after[s] == Archived && s in r.applied))
  {
    var w := WalkOf(r, attempts);
    var i :| 0 <= i < |r.segments| && r.segments[i] == s;
    if IsSkipped(r.segments, r.applied, i) {
      var j := SkipIsListed(r.segments, r.applied, |r.segments|, i);
      SkippedFate(d, r, w.failed, ok, j);
      EverySkipIsPassed(r, j);
    } else {
      KeptIsListed(r.segments, r.applied, |r.segments|, i);
      var k :| 0 <= k < |Kept(r)| && Kept(r)[k] == s;
      KeptFate(d, r, w.failed, ok, k);
      WalkCovers(Kept(r), r.readable, attempts, Consumed(r), k);
      ReadsAreWalked(Kept(r), r.readable, attempts, Consumed(r));
    }
  }

  lemma EverySkipIsPassed(r: Reading, j: nat)
    requires r.stopBefore == {} && j < |Skips(r)|
    ensures Skips(r)[j].nextKept <= Consumed(r)
  {
    NextKeptIsBounded(r.segments, r.applied, |r.segments|, j);
  }

  // --------------------------------------------------- the world

  /** What the process holds about its last pass: `loose` are the segments it
      may have left staged without reading them. */
  datatype Report = Report(pass: BootReplayPass, refold: bool, read: set<Segment>, loose: set<Segment>, folded: set<Segment>)

  /** Process memory, lost in a crash. */
  datatype Memory = Memory(attempts: map<Segment, nat>, settledAny: bool, tracked: set<Segment>, confirmed: bool,
                           pass: Option<Report>)

  /** What has happened to segments: read by some pass; and, since the last
      finished pass that read them: read with no lane refold pending; folded,
      rows landed; covered by the applied watermark; given up on; stranded by a
      failed restore. */
  datatype History = History(read: set<Segment>, plain: set<Segment>, folded: set<Segment>, applied: set<Segment>,
                             gaveUp: set<Segment>, stranded: set<Segment>)

  datatype World = World(place: Disk, memory: Memory, history: History)

  const FRESH: Memory := Memory(map[], false, {}, false, None)
  const EMPTY: World := World(map[], FRESH, History({}, {}, {}, {}, {}, {}))

  /** How a pass ended: finished, or killed while reading or after some renames. */
  datatype PassEnd = Finished | DiedReading | DiedMoving(done: nat)

  datatype Event =
    | Boot
    | Capture(seg: Segment)
    | RefusedPass
    | FailedPass(recoverOk: set<Segment>)
    | ReadPass(recoverOk: set<Segment>, r: Reading, ok: set<Segment>, refold: bool, end: PassEnd)
    | Confirm(ok: set<Segment>)
    | ConfirmRound(ok: set<Segment>)
    | Fold(seg: Segment)
    | SettleAll(ok: set<Segment>, track: bool)
    | SettleOne(seg: Segment, ok: set<Segment>, track: bool)
    | Promote(names: set<Segment>, ok: set<Segment>)

  /** Leftovers in `settling/` go back to `replaying/` before the first pass of
      a process. */
  ghost function Recovered(w: World, ok: set<Segment>): Disk {
    if w.memory.settledAny then w.place else Emptied(w.place, Settling, Staged, ok)
  }

  ghost function MovesDone(r: Reading, failed: set<Segment>, end: PassEnd): seq<Move> {
    var moves := PassMoves(r, failed);
    match end
    case Finished => moves
    case DiedReading => []
    case DiedMoving(done) => if done <= |moves| then moves[..done] else moves
  }

  /** A finished pass makes what was known of the segments it read void. */
  ghost function PassHistory(h: History, d: Disk, e: Event, w: Walk): History
    requires e.ReadPass?
  {
    var read := ElementsOf(w.read);
    match e.end
    case DiedReading => h
    case DiedMoving(_) =>
      h.(read := h.read + read, applied := h.applied + AppliedBy(e.r, w.failed), gaveUp := h.gaveUp + w.gaveUp)
    case Finished =>
      History(h.read + read, if e.refold then h.plain - read else h.plain + read, h.folded - read,
              h.applied - read + AppliedBy(e.r, w.failed), h.gaveUp - read + w.gaveUp,
              h.stranded - read + StrandedBy(d, e.r, w.failed, e.ok))
  }

  ghost function AfterPass(w: World, e: Event): World
    requires e.ReadPass?
  {
    var d := Recovered(w, e.recoverOk);
    var walk := WalkOf(e.r, w.memory.attempts);
    var report := Report(Read, e.refold, ElementsOf(walk.read),
                         walk.gaveUp + StrandedBy(d, e.r, walk.failed, e.ok) + AppliedBy(e.r, walk.failed), {});
    World(ApplyAll(d, MovesDone(e.r, walk.failed, e.end), e.ok),
          if e.end == Finished then w.memory.(attempts := walk.attempts, pass := Some(report)) else FRESH,
          PassHistory(w.history, d, e, walk))
  }

  ghost function Settled(w: World, names: set<Segment>, ok: set<Segment>, track: bool): World {
    var moved := set s | s in w.place && w.place[s] == Staged && s in names && s in ok;
    w.(place := Emptied(w.place, Staged, Settling, names * ok),
       memory := w.memory.(settledAny := true, tracked := if track then w.memory.tracked + moved else w.memory.tracked))
  }

  ghost function Noted(w: World, place: Disk, pass: BootReplayPass): World {
    w.(place := place, memory := w.memory.(pass := Some(Report(pass, false, {}, {}, {}))))
  }

  ghost predicate MaySettleAll(w: World) {
    w.memory.pass.Some? && w.memory.pass.value.pass == Read && w.memory.pass.value.read <= w.memory.pass.value.folded
  }

  ghost predicate MayArchive(w: World) {
    w.memory.pass.Some? && StageCDecision(w.memory.pass.value.pass, w.memory.pass.value.refold) == ArchiveStaged
  }

  /** One event. The boot confirms once; a catch-up round that read frames, but
      none the lane folds, confirms too, and an empty round does not. The lane
      settles a batch only once the rows of every segment
      it read have landed, or segment by segment as each lands. */
  ghost function Next(w: World, e: Event): World {
    match e
    case Boot => w.(memory := FRESH)
    case Capture(s) => if s in w.place then w else w.(place := w.place[s := Live])
    case RefusedPass => Noted(w, w.place, Refused)
    case FailedPass(recoverOk) => Noted(w, Recovered(w, recoverOk), Failed)
    case ReadPass(_, _, _, _, _) => AfterPass(w, e)
    case Confirm(ok) =>
      if !w.memory.confirmed && MayArchive(w)
      then w.(place := Emptied(w.place, Staged, Archived, ok), memory := w.memory.(confirmed := true)) else w
    case ConfirmRound(ok) =>
      if MayArchive(w) && w.memory.pass.value.read != {}
      then w.(place := Emptied(w.place, Staged, Archived, ok)) else w
    case Fold(s) =>
      if w.memory.pass.Some? && s in w.memory.pass.value.read then
        var report := w.memory.pass.value;
        w.(memory := w.memory.(pass := Some(report.(folded := report.folded + {s}))),
           history := w.history.(folded := w.history.folded + {s}))
      else w
    case SettleAll(ok, track) =>
      if MaySettleAll(w) then Settled(w, w.place.Keys, ok, track) else w
    case SettleOne(s, ok, track) =>
      if w.memory.pass.Some? && s in w.memory.pass.value.folded then Settled(w, {s}, ok, track) else w
    case Promote(names, ok) =>
      w.(place := Emptied(w.place, Settling, Archived, names * w.memory.tracked * ok),
         memory := w.memory.(tracked := w.memory.tracked - names))
  }

  ghost predicate IsLegal(w: World, e: Event) {
    e.ReadPass? ==> IsListing(Recovered(w, e.recoverOk), e.r.segments)
  }

  ghost function After(run: seq<Event>): World {
    if run == [] then EMPTY else Next(After(run[..|run| - 1]), run[|run| - 1])
  }

  /** Every pass of the run lists the folders as they are. */
  ghost predicate LegalRun(run: seq<Event>) {
    forall i | 0 <= i < |run| :: IsLegal(After(run[..i]), run[i])
  }

  // --------------------------------------------------- the invariant

  /** May be archived: its rows landed, no refold was pending when it was read,
      or one of the three exceptions. */
  ghost predicate Released(h: History, s: Segment) {
    s in h.folded || s in h.plain || Excused(h, s)
  }

  ghost predicate Excused(h: History, s: Segment) {
    s in h.applied || s in h.gaveUp || s in h.stranded
  }

  ghost predicate Seen(h: History, s: Segment) {
    s in h.read || s in h.gaveUp
  }

  ghost predicate ReportOk(w: World, p: Report) {
    && p.folded <= w.history.folded && p.read <= w.history.read
    && (p.pass == Read && !p.refold ==> p.read <= w.history.plain)
    && (forall s | s in p.loose :: Excused(w.history, s))
    && (p.pass == Read ==> forall s | s in w.place && w.place[s] == Staged :: s in p.read || s in p.loose)
    && (p.pass != Read ==> p.read == {})
  }

  ghost predicate DiskOk(d: Disk, h: History) {
    && (forall s | s in d && d[s] in {Staged, Settling} :: Seen(h, s))
    && (forall s | s in d && d[s] == Archived :: Released(h, s) && (Seen(h, s) || s in h.applied))
  }

  ghost predicate HistoryOk(h: History) {
    h.folded <= h.read && h.plain <= h.read
  }

  /** What this process promotes lies in `settling/`, where no pass of it looks. */
  ghost predicate TrackedOk(w: World) {
    && (w.memory.tracked != {} ==> w.memory.settledAny)
    && forall s | s in w.memory.tracked ::
         && (s in w.history.folded || Excused(w.history, s))
         && s in w.place && w.place[s] == Settling
  }

  ghost predicate Inv(w: World) {
    && HistoryOk(w.history) && DiskOk(w.place, w.history)
    && TrackedOk(w)
    && (w.memory.pass.Some? ==> ReportOk(w, w.memory.pass.value))
  }

  lemma RecoveredIsOk(w: World, ok: set<Segment>)
    requires Inv(w)
    ensures DiskOk(Recovered(w, ok), w.history)
  {
  }

  ghost predicate SegmentOk(f: Folder, h: History, s: Segment) {
    && (f == Staged || f == Settling ==> Seen(h, s))
    && (f == Archived ==> Released(h, s) && (Seen(h, s) || s in h.applied))
  }

  lemma PassKeepsSegment(h: History, e: Event, d: Disk, walk: Walk, after: Folder, s: Segment)
    requires e.ReadPass? && e.end != DiedReading && s in d && SegmentOk(d[s], h, s)
    requires d[s] == Archived ==> s !in walk.read
    requires after == Archived ==> d[s] == Archived || s in AppliedBy(e.r, walk.failed)
    requires after == Staged ==> d[s] == Staged || s in walk.read || s in walk.gaveUp
    requires after == Settling ==> d[s] == Settling
    ensures SegmentOk(after, PassHistory(h, d, e, walk), s)
  {
  }

  lemma MovesDoneArePlanned(r: Reading, failed: set<Segment>, end: PassEnd)
    ensures forall m | m in MovesDone(r, failed, end) :: m in PassMoves(r, failed)
  {
  }

  lemma ReadIsListed(r: Reading, attempts: map<Segment, nat>, s: Segment)
    requires s in WalkOf(r, attempts).read
    ensures s in r.segments
  {
    ReadsAreWalked(Kept(r), r.readable, attempts, Consumed(r));
    KeptAreListed(r.segments, r.applied, |r.segments|);
    assert r.segments[..|r.segments|] == r.segments;
  }

  lemma PassKeepsDisk(w: World, e: Event)
    requires Inv(w) && e.ReadPass? && IsLegal(w, e) && e.end != DiedReading
    ensures DiskOk(AfterPass(w, e).place, AfterPass(w, e).history)
  {
    var d := Recovered(w, e.recoverOk);
    var walk := WalkOf(e.r, w.memory.attempts);
    var moves := MovesDone(e.r, walk.failed, e.end);
    RecoveredIsOk(w, e.recoverOk);
    MovesDoneArePlanned(e.r, walk.failed, e.end);
    ApplyAllKeepsKeys(d, moves, e.ok);
    var after := ApplyAll(d, moves, e.ok);
    var h := PassHistory(w.history, d, e, walk);
    forall s | s in after ensures SegmentOk(after[s], h, s) {
      ChangeIsJustified(d, e.r, w.memory.attempts, moves, e.ok, s);
      if s in walk.read {
        ReadIsListed(e.r, w.memory.attempts, s);
      }
      PassKeepsSegment(w.history, e, d, walk, after[s], s);
    }
    AllSegmentsOk(after, h);
  }

  lemma AllSegmentsOk(d: Disk, h: History)
    requires forall s | s in d :: SegmentOk(d[s], h, s)
    ensures DiskOk(d, h)
  {
  }

  lemma HistoryStaysOk(h: History, d: Disk, e: Event, walk: Walk)
    requires e.ReadPass? && HistoryOk(h)
    ensures HistoryOk(PassHistory(h, d, e, walk))
  {
  }

  lemma TrackedStays(w: World, e: Event)
    requires Inv(w) && e.ReadPass? && IsLegal(w, e) && e.end == Finished
    ensures TrackedOk(AfterPass(w, e))
  {
    var d := Recovered(w, e.recoverOk);
    var walk := WalkOf(e.r, w.memory.attempts);
    forall s | s in w.memory.tracked
      ensures s in AfterPass(w, e).place && AfterPass(w, e).place[s] == Settling && s !in walk.read
    {
      NotListedStays(d, e.r, w.memory.attempts, PassMoves(e.r, walk.failed), e.ok, s);
      if s in walk.read {
        ReadIsListed(e.r, w.memory.attempts, s);
      }
    }
  }

  lemma ReportIsOk(w: World, e: Event)
    requires Inv(w) && e.ReadPass? && e.end == Finished && IsLegal(w, e)
    ensures ReportOk(AfterPass(w, e), AfterPass(w, e).memory.pass.value)
  {
    var d := Recovered(w, e.recoverOk);
    var walk := WalkOf(e.r, w.memory.attempts);
    var after := ApplyAll(d, PassMoves(e.r, walk.failed), e.ok);
    ApplyAllKeepsKeys(d, PassMoves(e.r, walk.failed), e.ok);
    forall s | s in after && after[s] == Staged
      ensures s in walk.read || s in walk.gaveUp + StrandedBy(d, e.r, walk.failed, e.ok) + AppliedBy(e.r, walk.failed)
    {
      StagedWasRead(d, e.r, w.memory.attempts, e.ok, s);
    }
    LooseIsExcused(w.history, d, e, walk);
  }

  lemma LooseIsExcused(h: History, d: Disk, e: Event, walk: Walk)
    requires e.ReadPass? && e.end == Finished
    ensures forall s | s in walk.gaveUp + StrandedBy(d, e.r, walk.failed, e.ok) + AppliedBy(e.r, walk.failed) ::
              Excused(PassHistory(h, d, e, walk), s)
  {
  }

  lemma PassKeepsInv(w: World, e: Event)
    requires Inv(w) && e.ReadPass? && IsLegal(w, e)
    ensures Inv(Next(w, e))
  {
    var d := Recovered(w, e.recoverOk);
    var walk := WalkOf(e.r, w.memory.attempts);
    HistoryStaysOk(w.history, d, e, walk);
    if e.end == DiedReading {
      RecoveredIsOk(w, e.recoverOk);
    } else {
      PassKeepsDisk(w, e);
    }
    if e.end == Finished {
      ReportIsOk(w, e);
      TrackedStays(w, e);
    }
  }

  lemma StagedMayBeReleased(w: World, s: Segment)
    requires Inv(w) && w.memory.pass.Some? && w.memory.pass.value.pass == Read
    requires s in w.place && w.place[s] == Staged
    ensures Excused(w.history, s) || s in w.memory.pass.value.read
    ensures !w.memory.pass.value.refold ==> Released(w.history, s)
    ensures w.memory.pass.value.read <= w.memory.pass.value.folded ==> s in w.history.folded || Excused(w.history, s)
  {
  }

  lemma ConfirmKeepsInv(w: World, e: Event)
    requires Inv(w) && (e.Confirm? || e.ConfirmRound?)
    ensures Inv(Next(w, e))
  {
    if MayArchive(w) {
      forall s | s in w.place && w.place[s] == Staged ensures Released(w.history, s) {
        StagedMayBeReleased(w, s);
      }
    }
  }

  lemma SettledKeepsInv(w: World, names: set<Segment>, ok: set<Segment>, track: bool)
    requires Inv(w)
    requires forall s | s in w.place && w.place[s] == Staged && s in names :: s in w.history.folded || Excused(w.history, s)
    ensures Inv(Settled(w, names, ok, track))
  {
  }

  lemma SettleKeepsInv(w: World, e: Event)
    requires Inv(w) && (e.SettleAll? || e.SettleOne?)
    ensures Inv(Next(w, e))
  {
    if e.SettleAll? && w.memory.pass.Some? && w.memory.pass.value.pass == Read
       && w.memory.pass.value.read <= w.memory.pass.value.folded {
      forall s | s in w.place && w.place[s] == Staged ensures s in w.history.folded || Excused(w.history, s) {
        StagedMayBeReleased(w, s);
      }
      SettledKeepsInv(w, w.place.Keys, e.ok, e.track);
    } else if e.SettleOne? && w.memory.pass.Some? && e.seg in w.memory.pass.value.folded {
      SettledKeepsInv(w, {e.seg}, e.ok, e.track);
    }
  }

  lemma PromoteKeepsInv(w: World, e: Event)
    requires Inv(w) && e.Promote?
    ensures Inv(Next(w, e))
  {
  }

  lemma FoldKeepsInv(w: World, e: Event)
    requires Inv(w) && e.Fold?
    ensures Inv(Next(w, e))
  {
  }

  lemma NoReadKeepsInv(w: World, e: Event)
    requires Inv(w) && (e.Boot? || e.Capture? || e.RefusedPass? || e.FailedPass?)
    ensures Inv(Next(w, e))
  {
    if e.FailedPass? {
      RecoveredIsOk(w, e.recoverOk);
    }
  }

  lemma NextKeepsInv(w: World, e: Event)
    requires Inv(w) && IsLegal(w, e)
    ensures Inv(Next(w, e))
  {
    match e
    case ReadPass(_, _, _, _, _) => PassKeepsInv(w, e);
    case Confirm(_) => ConfirmKeepsInv(w, e);
    case ConfirmRound(_) => ConfirmKeepsInv(w, e);
    case Fold(_) => FoldKeepsInv(w, e);
    case SettleAll(_, _) => SettleKeepsInv(w, e);
    case SettleOne(_, _, _) => SettleKeepsInv(w, e);
    case Promote(_, _) => PromoteKeepsInv(w, e);
    case _ => NoReadKeepsInv(w, e);
  }

  lemma {:induction false} RunKeepsInv(run: seq<Event>)
    requires LegalRun(run)
    ensures Inv(After(run))
  {
    if run != [] {
      var n := |run| - 1;
      assert forall i | 0 <= i < n :: run[..n][..i] == run[..i] && run[..n][i] == run[i];
      RunKeepsInv(run[..n]);
      assert IsLegal(After(run[..n]), run[n]);
      NextKeepsInv(After(run[..n]), run[n]);
    }
  }

  // --------------------------------------------------- main results

  /** Over any sequence of boots, passes and crashes, every archived segment
      was read by some pass, unless the applied watermark covered it or it was
      given up on at the retry cap. */
  lemma ArchivedWasRead(run: seq<Event>, s: Segment)
    requires LegalRun(run)
    requires s in After(run).place && After(run).place[s] == Archived
    ensures s in After(run).history.read || s in After(run).history.applied || s in After(run).history.gaveUp
  {
    RunKeepsInv(run);
  }

  /** And since the last pass that read it, its rows landed, or no refold was
      pending for that very pass: an earlier reading counts for nothing. The
      further exceptions are a segment given up on or covered by the watermark,
      or stranded by a failed restore, since then. */
  lemma ArchivedWasFoldedFirst(run: seq<Event>, s: Segment)
    requires LegalRun(run)
    requires s in After(run).place && After(run).place[s] == Archived
    ensures Released(After(run).history, s)
  {
    RunKeepsInv(run);
  }

  ghost function Captured(run: seq<Event>): set<Segment> {
    set e | e in run && e.Capture? :: e.seg
  }

  lemma StepKeepsSegments(w: World, e: Event)
    ensures Next(w, e).place.Keys == w.place.Keys + (if e.Capture? then {e.seg} else {})
  {
    if e.ReadPass? {
      ApplyAllKeepsKeys(Recovered(w, e.recoverOk), MovesDone(e.r, WalkOf(e.r, w.memory.attempts).failed, e.end), e.ok);
    }
  }

  /** The segments a run knows are those it captured. */
  lemma {:induction false} SegmentsAreCaptured(run: seq<Event>)
    ensures After(run).place.Keys == Captured(run)
  {
    if run != [] {
      var n := |run| - 1;
      SegmentsAreCaptured(run[..n]);
      StepKeepsSegments(After(run[..n]), run[n]);
      assert run == run[..n] + [run[n]];
      assert Captured(run) == Captured(run[..n]) + (if run[n].Capture? then {run[n].seg} else {});
    }
  }

  /** An archived segment is never moved again. */
  lemma ArchivedIsFinal(w: World, e: Event, s: Segment)
    requires IsLegal(w, e) && s in w.place && w.place[s] == Archived
    ensures s in Next(w, e).place && Next(w, e).place[s] == Archived
  {
    if e.ReadPass? {
      var walk := WalkOf(e.r, w.memory.attempts);
      MovesDoneArePlanned(e.r, walk.failed, e.end);
      ArchivedStays(Recovered(w, e.recoverOk), e.r, w.memory.attempts, MovesDone(e.r, walk.failed, e.end), e.ok, s);
    }
  }

  // --------------------------------------------------- the exceptions are real

  /** A pass over one segment that cannot be read and a later one that can. */
  ghost function Pair(s: Segment, c: Segment): Reading {
    Reading([s, c], {}, {}, {c})
  }

  ghost function Tries(s: Segment, n: nat): map<Segment, nat> {
    if n == 0 then map[] else map[s := n]
  }

  lemma PairPlan(s: Segment, c: Segment)
    ensures Kept(Pair(s, c)) == [s, c] && Skips(Pair(s, c)) == [] && Consumed(Pair(s, c)) == 2
  {
    var r := Pair(s, c);
    assert !IsSkipped(r.segments, r.applied, 0) && !IsSkipped(r.segments, r.applied, 1);
    assert KeptUpTo(r.segments, r.applied, 0) == [] && SkipsUpTo(r.segments, r.applied, 0) == [];
    assert KeptUpTo(r.segments, r.applied, 1) == [s] && SkipsUpTo(r.segments, r.applied, 1) == [];
    assert StopFrom([s, c], {}, 1) == StopFrom([s, c], {}, 2);
  }

  lemma PairWalk(s: Segment, c: Segment, tries: nat)
    requires s < c && tries < WAL_REPLAY_IO_RETRY_CAP
    ensures WalkOf(Pair(s, c), Tries(s, tries))
         == Walk([c], if tries < 2 then {s} else {}, if tries < 2 then {} else {s}, Tries(s, tries + 1))
  {
    PairPlan(s, c);
    assert |Tries(s, 0)| == 0;
    var first := WalkUpTo([s, c], {c}, Tries(s, tries), 1);
    assert WalkUpTo([s, c], {c}, Tries(s, tries), 0) == Walk([], {}, {}, Tries(s, tries));
    assert first == Walk([], if tries < 2 then {s} else {}, if tries < 2 then {} else {s}, Tries(s, tries + 1));
    assert first.attempts - {c} == first.attempts;
  }

  lemma PairMoves(d: Disk, s: Segment, c: Segment, failed: set<Segment>)
    requires s < c && s in d && c in d && d[s] == Live && d[c] == Live && c !in failed
    ensures var after := ApplyAll(d, PassMoves(Pair(s, c), failed), {s, c});
            after.Keys == d.Keys && after[c] == Staged && after[s] == if s in failed then Live else Staged
  {
    PairPlan(s, c);
    KeptFate(d, Pair(s, c), failed, {s, c}, 0);
    KeptFate(d, Pair(s, c), failed, {s, c}, 1);
    ApplyAllKeepsKeys(d, PassMoves(Pair(s, c), failed), {s, c});
  }

  lemma OthersStay(d: Disk, s: Segment, c: Segment, attempts: map<Segment, nat>, x: Segment)
    requires x in d && x != s && x != c
    ensures var after := ApplyAll(d, PassMoves(Pair(s, c), WalkOf(Pair(s, c), attempts).failed), {s, c});
            x in after && after[x] == d[x]
  {
    NotListedStays(d, Pair(s, c), attempts, PassMoves(Pair(s, c), WalkOf(Pair(s, c), attempts).failed), {s, c}, x);
  }

  ghost function FailingPass(s: Segment, c: Segment): Event {
    ReadPass({}, Pair(s, c), {s, c}, false, Finished)
  }

  /** `s` waits in the live folder with so many failed reads; all else is
      archived, and this process settled nothing. */
  ghost predicate Waiting(w: World, s: Segment, tries: nat) {
    && s in w.place && w.place[s] == Live && (forall x | x in w.place && x != s :: w.place[x] == Archived)
    && w.memory.attempts == Tries(s, tries) && s !in w.history.read
    && (tries == 0 ==> !w.memory.confirmed) && forall x | x in w.place :: x <= s + tries
  }

  /** After the pass and before the confirm `c` is staged, and at the third try
      `s` too. */
  ghost predicate PairedPlace(d: Disk, s: Segment, c: Segment, tries: nat) {
    && s in d && c in d && d[c] == Staged && d[s] == (if tries < WAL_REPLAY_IO_RETRY_CAP then Live else Staged)
    && (forall x | x in d && x != s && x != c :: d[x] == Archived) && forall x | x in d :: x <= c
  }

  ghost predicate PairedMemory(m: Memory, s: Segment, c: Segment, tries: nat) {
    && m.attempts == Tries(s, tries) && (tries == 1 ==> !m.confirmed)
    && m.pass.Some? && m.pass.value.pass == Read && !m.pass.value.refold && m.pass.value.read == {c}
  }

  ghost predicate Paired(w: World, s: Segment, c: Segment, tries: nat) {
    PairedPlace(w.place, s, c, tries) && PairedMemory(w.memory, s, c, tries) && s !in w.history.read && s != c
  }

  ghost predicate PairWaits(d: Disk, s: Segment, c: Segment) {
    && s < c && c in d && d[c] == Live && s in d && d[s] == Live
    && (forall x | x in d && x != s && x != c :: d[x] == Archived) && forall x | x in d :: x <= c
  }

  lemma PassPlaces(d: Disk, s: Segment, c: Segment, tries: nat)
    requires PairWaits(d, s, c) && tries < WAL_REPLAY_IO_RETRY_CAP
    ensures var walk := WalkOf(Pair(s, c), Tries(s, tries));
            PairedPlace(ApplyAll(d, PassMoves(Pair(s, c), walk.failed), {s, c}), s, c, tries + 1)
  {
    PairWalk(s, c, tries);
    var walk := WalkOf(Pair(s, c), Tries(s, tries));
    PairMoves(d, s, c, walk.failed);
    forall x | x in d && x != s && x != c
      ensures ApplyAll(d, PassMoves(Pair(s, c), walk.failed), {s, c})[x] == Archived
    {
      OthersStay(d, s, c, Tries(s, tries), x);
    }
  }

  lemma PassRemembers(w: World, s: Segment, c: Segment, tries: nat)
    requires s < c && w.memory.attempts == Tries(s, tries) && tries < WAL_REPLAY_IO_RETRY_CAP && s !in w.history.read
    requires tries == 0 ==> !w.memory.confirmed
    ensures var next := AfterPass(w, FailingPass(s, c));
            PairedMemory(next.memory, s, c, tries + 1) && s !in next.history.read
  {
    PairWalk(s, c, tries);
    assert ElementsOf([c]) == {c};
  }

  lemma NothingToRecover(w: World, s: Segment, c: Segment)
    requires PairWaits(w.place, s, c)
    ensures Recovered(w, {}) == w.place && IsLegal(w, FailingPass(s, c))
  {
  }

  lemma PassPairs(w: World, s: Segment, c: Segment, tries: nat)
    requires PairWaits(w.place, s, c) && s !in w.history.read
    requires w.memory.attempts == Tries(s, tries) && tries < WAL_REPLAY_IO_RETRY_CAP
    requires tries == 0 ==> !w.memory.confirmed
    ensures Paired(AfterPass(w, FailingPass(s, c)), s, c, tries + 1)
  {
    NothingToRecover(w, s, c);
    PassPlaces(w.place, s, c, tries);
    PassRemembers(w, s, c, tries);
  }

  /** The boot's confirm follows its pass; a catch-up round has its own. */
  ghost function ConfirmOf(s: Segment, c: Segment, tries: nat): Event {
    if tries == 0 then Confirm({s, c}) else ConfirmRound({s, c})
  }

  ghost predicate ArchivedUnread(w: World, s: Segment) {
    s in w.place && w.place[s] == Archived && s !in w.history.read
  }

  ghost predicate AfterTries(w: World, s: Segment, n: nat) {
    if n < WAL_REPLAY_IO_RETRY_CAP then Waiting(w, s, n) else ArchivedUnread(w, s)
  }

  lemma ConfirmClears(w: World, s: Segment, c: Segment, tries: nat)
    requires Paired(w, s, c, tries + 1) && c == s + 1 + tries
    ensures AfterTries(Next(w, ConfirmOf(s, c, tries)), s, tries + 1)
  {
  }

  /** One round: a new segment, whose frames the lane does not fold, is closed;
      a pass reads it and fails on `s`; the confirm follows. */
  ghost function Round(w: World, s: Segment, tries: nat): World {
    PassAndConfirm(Next(w, Capture(s + 1 + tries)), s, s + 1 + tries, tries)
  }

  ghost function PassAndConfirm(w: World, s: Segment, c: Segment, tries: nat): World {
    Next(Next(w, FailingPass(s, c)), ConfirmOf(s, c, tries))
  }

  /** Every event of the round is legal, and its segment is new. */
  ghost predicate RoundIsLegal(w: World, s: Segment, tries: nat) {
    var c := s + 1 + tries;
    c !in w.place && IsLegal(Next(w, Capture(c)), FailingPass(s, c))
  }

  lemma CaptureJoins(w: World, s: Segment, c: Segment, tries: nat)
    requires Waiting(w, s, tries) && c == s + 1 + tries
    ensures c !in w.place && PairWaits(Next(w, Capture(c)).place, s, c)
    ensures Next(w, Capture(c)).memory == w.memory && Next(w, Capture(c)).history == w.history
  {
  }

  lemma OneMoreTry(w: World, s: Segment, tries: nat)
    requires Waiting(w, s, tries) && tries < WAL_REPLAY_IO_RETRY_CAP
    ensures AfterTries(Round(w, s, tries), s, tries + 1)
  {
    CaptureJoins(w, s, s + 1 + tries, tries);
    PassThenConfirm(Next(w, Capture(s + 1 + tries)), s, s + 1 + tries, tries);
  }

  lemma OneMoreIsLegal(w: World, s: Segment, tries: nat)
    requires Waiting(w, s, tries)
    ensures RoundIsLegal(w, s, tries)
  {
    CaptureJoins(w, s, s + 1 + tries, tries);
    NothingToRecover(Next(w, Capture(s + 1 + tries)), s, s + 1 + tries);
  }

  lemma PassThenConfirm(w: World, s: Segment, c: Segment, tries: nat)
    requires PairWaits(w.place, s, c) && s !in w.history.read && c == s + 1 + tries
    requires w.memory.attempts == Tries(s, tries) && tries < WAL_REPLAY_IO_RETRY_CAP
    requires tries == 0 ==> !w.memory.confirmed
    ensures IsLegal(w, FailingPass(s, c))
    ensures AfterTries(PassAndConfirm(w, s, c, tries), s, tries + 1)
  {
    NothingToRecover(w, s, c);
    PassPairs(w, s, c, tries);
    ConfirmClears(AfterPass(w, FailingPass(s, c)), s, c, tries);
  }

  ghost function Repeated(f: (World, nat) -> World, w: World, n: nat): World {
    if n == 0 then w else f(Repeated(f, w, n - 1), n - 1)
  }

  lemma {:induction false} RepeatedHolds(f: (World, nat) -> World, holds: (World, nat) -> bool, w: World, bound: nat, n: nat)
    requires n <= bound && holds(w, 0)
    requires forall x: World, k: nat | k < bound && holds(x, k) :: holds(f(x, k), k + 1)
    ensures holds(Repeated(f, w, n), n)
  {
    if n > 0 {
      RepeatedHolds(f, holds, w, bound, n - 1);
    }
  }

  /** `n` rounds of one process that begins with `s` alone. */
  ghost function Rounds(s: Segment, n: nat): World {
    Repeated((w: World, k: nat) => Round(w, s, k), Next(EMPTY, Capture(s)), n)
  }

  lemma RoundsReach(s: Segment, n: nat)
    requires n <= WAL_REPLAY_IO_RETRY_CAP
    ensures AfterTries(Rounds(s, n), s, n)
  {
    var f := (w: World, k: nat) => Round(w, s, k);
    var holds := (w: World, k: nat) => AfterTries(w, s, k);
    forall x: World, k: nat | k < WAL_REPLAY_IO_RETRY_CAP && holds(x, k) ensures holds(f(x, k), k + 1) {
      OneMoreTry(x, s, k);
    }
    RepeatedHolds(f, holds, Next(EMPTY, Capture(s)), WAL_REPLAY_IO_RETRY_CAP, n);
  }

  /** The retry cap can archive a segment nobody read: in three rounds of one
      process each pass fails to read it, reads another segment and goes on to
      confirm; the third confirm archives it. */
  lemma GivenUpIsArchivedUnread(s: Segment)
    ensures forall n: nat | n < WAL_REPLAY_IO_RETRY_CAP :: RoundIsLegal(Rounds(s, n), s, n)
    ensures ArchivedUnread(Rounds(s, WAL_REPLAY_IO_RETRY_CAP), s)
  {
    forall n: nat | n < WAL_REPLAY_IO_RETRY_CAP ensures RoundIsLegal(Rounds(s, n), s, n) {
      RoundsReach(s, n);
      OneMoreIsLegal(Rounds(s, n), s, n);
    }
    RoundsReach(s, WAL_REPLAY_IO_RETRY_CAP);
  }
}
