/** The write-ahead log's runs once more, on files: a rename replaces whatever
    file has the target name, and still no byte of a captured segment is lost. */
module BootWalFiles {
  import opened Bytes
  import opened Wrappers
  import opened BootWal
  import opened BootWalRuns

  ghost function FileMove(files: Files, m: Move, ok: set<Segment>): Files {
    if m.seg in ok && exists f :: f in m.from && Path(f, m.seg) in files then
      var f :| f in m.from && Path(f, m.seg) in files;
      RenamedFile(files, Path(f, m.seg), Path(m.to, m.seg))
    else files
  }

  ghost function FileMoves(files: Files, moves: seq<Move>, ok: set<Segment>): Files {
    if moves == [] then files
    else FileMove(FileMoves(files, moves[..|moves| - 1], ok), moves[|moves| - 1], ok)
  }

  lemma FileMoveMatches(files: Files, d: Disk, contents: map<Segment, seq<byte>>, m: Move, ok: set<Segment>)
    requires Matches(files, d, contents)
    ensures Matches(FileMove(files, m, ok), Apply(d, m, ok), contents)
  {
    if m.seg in d {
      assert forall f | Path(f, m.seg) in files :: d[m.seg] == Path(f, m.seg).folder;
      RenameMatches(files, d, contents, m.seg, m.to);
    }
  }

  lemma {:induction false} FileMovesMatch(files: Files, d: Disk, contents: map<Segment, seq<byte>>, moves: seq<Move>, ok: set<Segment>)
    requires Matches(files, d, contents)
    ensures Matches(FileMoves(files, moves, ok), ApplyAll(d, moves, ok), contents)
  {
    if moves != [] {
      var front := moves[..|moves| - 1];
      FileMovesMatch(files, d, contents, front, ok);
      FileMoveMatches(FileMoves(files, front, ok), ApplyAll(d, front, ok), contents, moves[|moves| - 1], ok);
    }
  }

  // --------------------------------------------------- one folder into another

  /** The listing of a folder, in some order. */
  ghost function Listing(names: set<Segment>): (s: seq<Segment>)
    ensures forall x :: x in s <==> x in names
  {
    if names == {} then []
    else
      var x :| x in names;
      assert names == names - {x} + {x};
      Listing(names - {x}) + [x]
  }

  ghost function InFolder(d: Disk, f: Folder): set<Segment> {
    set s | s in d && d[s] == f
  }

  ghost function Evacuation(names: seq<Segment>, from: Folder, to: Folder): seq<Move> {
    seq(|names|, i requires 0 <= i < |names| => Move(names[i], {from}, to))
  }

  lemma {:induction false} EvacuatedPlace(d: Disk, names: seq<Segment>, from: Folder, to: Folder, ok: set<Segment>, s: Segment)
    requires from != to && s in d
    ensures var after := ApplyAll(d, Evacuation(names, from, to), ok);
            s in after && after[s] == if d[s] == from && s in ok && s in names then to else d[s]
  {
    var moves := Evacuation(names, from, to);
    if d[s] == from && s in names {
      var i :| 0 <= i < |names| && names[i] == s;
      assert moves[i] == Move(s, {from}, to);
      NamedMoves(d, moves, ok, moves[i]);
    } else {
      ChangedByAMove(d, moves, ok, s);
      StaysPut(d, moves, from, to, ok, s);
    }
  }

  /** A move that does not start where the segment is leaves it. */
  lemma {:induction false} StaysPut(d: Disk, moves: seq<Move>, from: Folder, to: Folder, ok: set<Segment>, s: Segment)
    requires s in d && forall m | m in moves && m.seg == s :: d[s] !in m.from
    ensures s in ApplyAll(d, moves, ok) && ApplyAll(d, moves, ok)[s] == d[s]
  {
    if moves != [] {
      InFront(moves);
      StaysPut(d, moves[..|moves| - 1], from, to, ok, s);
    }
  }

  ghost function EmptyInto(files: Files, d: Disk, from: Folder, to: Folder, ok: set<Segment>): Files {
    FileMoves(files, Evacuation(Listing(InFolder(d, from)), from, to), ok)
  }

  lemma EvacuationEmpties(d: Disk, from: Folder, to: Folder, ok: set<Segment>)
    requires from != to
    ensures ApplyAll(d, Evacuation(Listing(InFolder(d, from)), from, to), ok) == Emptied(d, from, to, ok)
  {
    var names := Listing(InFolder(d, from));
    var after := ApplyAll(d, Evacuation(names, from, to), ok);
    ApplyAllKeepsKeys(d, Evacuation(names, from, to), ok);
    forall s | s in d ensures s in after && after[s] == if d[s] == from && s in ok then to else d[s] {
      EvacuatedPlace(d, names, from, to, ok, s);
    }
  }

  lemma EmptyIntoMatches(files: Files, d: Disk, contents: map<Segment, seq<byte>>, from: Folder, to: Folder, ok: set<Segment>)
    requires Matches(files, d, contents) && from != to
    ensures Matches(EmptyInto(files, d, from, to, ok), Emptied(d, from, to, ok), contents)
  {
    EvacuationEmpties(d, from, to, ok);
    FileMovesMatch(files, d, contents, Evacuation(Listing(InFolder(d, from)), from, to), ok);
  }

  // --------------------------------------------------- runs on files

  ghost function RecoverFiles(files: Files, w: World, ok: set<Segment>): Files {
    if w.memory.settledAny then files else EmptyInto(files, w.place, Settling, Staged, ok)
  }

  /** The renames of one event; a captured segment brings its bytes. */
  ghost function NextFiles(files: Files, w: World, e: Event, data: Segment -> seq<byte>): Files {
    match e
    case Capture(s) => if s in w.place then files else files[Path(Live, s) := data(s)]
    case FailedPass(recoverOk) => RecoverFiles(files, w, recoverOk)
    case ReadPass(recoverOk, r, ok, _, end) =>
      FileMoves(RecoverFiles(files, w, recoverOk), MovesDone(r, WalkOf(r, w.memory.attempts).failed, end), ok)
    case Confirm(ok) =>
      if !w.memory.confirmed && MayArchive(w) then EmptyInto(files, w.place, Staged, Archived, ok) else files
    case ConfirmRound(ok) =>
      if MayArchive(w) && w.memory.pass.value.read != {} then EmptyInto(files, w.place, Staged, Archived, ok) else files
    case SettleAll(ok, _) =>
      if MaySettleAll(w) then EmptyInto(files, w.place, Staged, Settling, w.place.Keys * ok) else files
    case SettleOne(s, ok, _) =>
      if w.memory.pass.Some? && s in w.memory.pass.value.folded
      then EmptyInto(files, w.place, Staged, Settling, {s} * ok) else files
    case Promote(names, ok) => EmptyInto(files, w.place, Settling, Archived, names * w.memory.tracked * ok)
    case _ => files
  }

  ghost function FilesAfter(run: seq<Event>, data: Segment -> seq<byte>): Files {
    if run == [] then map[]
    else NextFiles(FilesAfter(run[..|run| - 1], data), After(run[..|run| - 1]), run[|run| - 1], data)
  }

  ghost function DataOf(names: set<Segment>, data: Segment -> seq<byte>): map<Segment, seq<byte>> {
    map s | s in names :: data(s)
  }

  lemma RecoverMatches(files: Files, w: World, contents: map<Segment, seq<byte>>, ok: set<Segment>)
    requires Matches(files, w.place, contents)
    ensures Matches(RecoverFiles(files, w, ok), Recovered(w, ok), contents)
  {
    if !w.memory.settledAny {
      EmptyIntoMatches(files, w.place, contents, Settling, Staged, ok);
    }
  }

  lemma PassMatches(files: Files, w: World, contents: map<Segment, seq<byte>>, e: Event, data: Segment -> seq<byte>)
    requires Matches(files, w.place, contents) && e.ReadPass?
    ensures Matches(NextFiles(files, w, e, data), AfterPass(w, e).place, contents)
  {
    RecoverMatches(files, w, contents, e.recoverOk);
    FileMovesMatch(RecoverFiles(files, w, e.recoverOk), Recovered(w, e.recoverOk), contents,
                   MovesDone(e.r, WalkOf(e.r, w.memory.attempts).failed, e.end), e.ok);
  }

  /** A new segment has a name no folder holds. */
  lemma NewFileMatches(files: Files, d: Disk, contents: map<Segment, seq<byte>>, s: Segment, bytes: seq<byte>)
    requires Matches(files, d, contents) && s !in d
    ensures Matches(files[Path(Live, s) := bytes], d[s := Live], contents[s := bytes])
  {
  }

  lemma ConfirmMatches(files: Files, w: World, contents: map<Segment, seq<byte>>, e: Event, data: Segment -> seq<byte>)
    requires Matches(files, w.place, contents) && (e.Confirm? || e.ConfirmRound?)
    ensures Matches(NextFiles(files, w, e, data), Next(w, e).place, contents)
  {
    EmptyIntoMatches(files, w.place, contents, Staged, Archived, e.ok);
  }

  lemma SettleMatches(files: Files, w: World, contents: map<Segment, seq<byte>>, e: Event, data: Segment -> seq<byte>)
    requires Matches(files, w.place, contents) && (e.SettleAll? || e.SettleOne?)
    ensures Matches(NextFiles(files, w, e, data), Next(w, e).place, contents)
  {
    EmptyIntoMatches(files, w.place, contents, Staged, Settling, (if e.SettleAll? then w.place.Keys else {e.seg}) * e.ok);
  }

  lemma PromoteMatches(files: Files, w: World, contents: map<Segment, seq<byte>>, e: Event, data: Segment -> seq<byte>)
    requires Matches(files, w.place, contents) && e.Promote?
    ensures Matches(NextFiles(files, w, e, data), Next(w, e).place, contents)
  {
    EmptyIntoMatches(files, w.place, contents, Settling, Archived, e.names * w.memory.tracked * e.ok);
  }

  lemma FailedPassMatches(files: Files, w: World, contents: map<Segment, seq<byte>>, e: Event, data: Segment -> seq<byte>)
    requires Matches(files, w.place, contents) && e.FailedPass?
    ensures Matches(NextFiles(files, w, e, data), Next(w, e).place, contents)
  {
    RecoverMatches(files, w, contents, e.recoverOk);
  }

  lemma QuietMatches(files: Files, w: World, contents: map<Segment, seq<byte>>, e: Event, data: Segment -> seq<byte>)
    requires Matches(files, w.place, contents) && (e.Boot? || e.RefusedPass? || e.Fold? || (e.Capture? && e.seg in w.place))
    ensures Matches(NextFiles(files, w, e, data), Next(w, e).place, contents)
  {
  }

  lemma CaptureMatches(files: Files, w: World, names: set<Segment>, e: Event, data: Segment -> seq<byte>)
    requires Matches(files, w.place, DataOf(names, data)) && w.place.Keys == names && e.Capture?
    ensures Matches(NextFiles(files, w, e, data), Next(w, e).place, DataOf(names + {e.seg}, data))
  {
    if e.seg in w.place {
      QuietMatches(files, w, DataOf(names, data), e, data);
      assert names + {e.seg} == names;
    } else {
      NewFileMatches(files, w.place, DataOf(names, data), e.seg, data(e.seg));
      assert DataOf(names + {e.seg}, data) == DataOf(names, data)[e.seg := data(e.seg)];
    }
  }

  lemma OtherEventMatches(files: Files, w: World, contents: map<Segment, seq<byte>>, e: Event, data: Segment -> seq<byte>)
    requires Matches(files, w.place, contents) && !e.Capture?
    ensures Matches(NextFiles(files, w, e, data), Next(w, e).place, contents)
  {
    match e
    case FailedPass(_) => FailedPassMatches(files, w, contents, e, data);
    case ReadPass(_, _, _, _, _) => PassMatches(files, w, contents, e, data);
    case Confirm(_) => ConfirmMatches(files, w, contents, e, data);
    case ConfirmRound(_) => ConfirmMatches(files, w, contents, e, data);
    case SettleAll(_, _) => SettleMatches(files, w, contents, e, data);
    case SettleOne(_, _, _) => SettleMatches(files, w, contents, e, data);
    case Promote(_, _) => PromoteMatches(files, w, contents, e, data);
    case _ => QuietMatches(files, w, contents, e, data);
  }

  lemma CapturedMore(front: seq<Event>, e: Event)
    ensures Captured(front + [e]) == Captured(front) + (if e.Capture? then {e.seg} else {})
  {
  }

  /** No segment is ever lost: after any run of boots, passes and crashes, with
      renames that may fail and that overwrite what they hit, each captured
      segment is in exactly one folder, with the bytes it was captured with, and
      nothing else is there. */
  lemma {:induction false} NoSegmentIsLost(run: seq<Event>, data: Segment -> seq<byte>)
    ensures Matches(FilesAfter(run, data), After(run).place, DataOf(Captured(run), data))
    ensures After(run).place.Keys == Captured(run)
  {
    SegmentsAreCaptured(run);
    if run != [] {
      var front, e := run[..|run| - 1], run[|run| - 1];
      NoSegmentIsLost(front, data);
      assert run == front + [e];
      CapturedMore(front, e);
      if e.Capture? {
        CaptureMatches(FilesAfter(front, data), After(front), Captured(front), e, data);
      } else {
        OtherEventMatches(FilesAfter(front, data), After(front), DataOf(Captured(front), data), e, data);
      }
    }
  }
}
