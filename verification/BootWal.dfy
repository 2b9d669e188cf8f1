/** The write-ahead-log folders across boots: the replay pass, what it stages,
    and the confirm step that archives only what the pass read. */
module BootWal {
  import opened Bytes
  import opened Wrappers

  /** A segment is named by its capture time in nanoseconds. */
  type Segment = nat

  /** Where a segment's file is: a live `*.wal`, in `replaying/`, in `settling/`
      or in `archive/`. A rename moves it from one to another. */
  datatype Folder = Live | Staged | Settling | Archived

  type Disk = map<Segment, Folder>

  const WAL_REPLAY_IO_RETRY_CAP: nat := 3
  const SEGMENT_READ_FAILURES_MAX: nat := 1024

  // --------------------------------------------------- renames

  /** One planned rename: it takes effect if the file is where the plan saw it. */
  datatype Move = Move(seg: Segment, from: set<Folder>, to: Folder)

  function Apply(d: Disk, m: Move, ok: set<Segment>): Disk {
    if m.seg in d && d[m.seg] in m.from && m.seg in ok then d[m.seg := m.to] else d
  }

  /** `ok` holds the segments whose rename the file system carries out. */
  function ApplyAll(d: Disk, moves: seq<Move>, ok: set<Segment>): Disk {
    if moves == [] then d else Apply(ApplyAll(d, moves[..|moves| - 1], ok), moves[|moves| - 1], ok)
  }

  ghost predicate Names(moves: seq<Move>, s: Segment) {
    exists m :: m in moves && m.seg == s
  }

  lemma {:induction false} ApplyAllKeepsKeys(d: Disk, moves: seq<Move>, ok: set<Segment>)
    ensures ApplyAll(d, moves, ok).Keys == d.Keys
  {
    if moves != [] {
      ApplyAllKeepsKeys(d, moves[..|moves| - 1], ok);
    }
  }

  lemma InFront(moves: seq<Move>)
    requires moves != []
    ensures forall m :: m in moves <==> m in moves[..|moves| - 1] || m == moves[|moves| - 1]
  {
    assert moves == moves[..|moves| - 1] + [moves[|moves| - 1]];
  }

  lemma {:induction false} UnnamedStays(d: Disk, moves: seq<Move>, ok: set<Segment>, s: Segment)
    requires s in d && !Names(moves, s)
    ensures s in ApplyAll(d, moves, ok) && ApplyAll(d, moves, ok)[s] == d[s]
  {
    if moves != [] {
      InFront(moves);
      UnnamedStays(d, moves[..|moves| - 1], ok, s);
    }
  }

  /** A segment the plan names with one move ends where that move puts it. */
  lemma {:induction false} NamedMoves(d: Disk, moves: seq<Move>, ok: set<Segment>, m: Move)
    requires m in moves && m.seg in d && m.to !in m.from
    requires forall x | x in moves && x.seg == m.seg :: x == m
    ensures m.seg in ApplyAll(d, moves, ok) && ApplyAll(d, moves, ok)[m.seg] == Apply(d, m, ok)[m.seg]
  {
    var before := moves[..|moves| - 1];
    InFront(moves);
    if m in before {
      NamedMoves(d, before, ok, m);
    } else {
      UnnamedStays(d, before, ok, m.seg);
    }
  }

  /** Whatever a run of moves, finished or not, does to a segment, some move of
      it says so. */
  lemma {:induction false} ChangedByAMove(d: Disk, moves: seq<Move>, ok: set<Segment>, s: Segment)
    requires s in d
    ensures var after := ApplyAll(d, moves, ok);
            s in after && (after[s] == d[s] || exists m :: m in moves && m.seg == s && m.to == after[s])
  {
    if moves != [] {
      InFront(moves);
      ChangedByAMove(d, moves[..|moves| - 1], ok, s);
    }
  }

  // --------------------------------------------------- the plan of a pass

  /** The listing of live and staged segments, in capture order. */
  ghost predicate IsListing(d: Disk, segments: seq<Segment>) {
    && (forall i, j | 0 <= i < j < |segments| :: segments[i] < segments[j])
    && (forall s :: s in segments <==> s in d && d[s] in {Live, Staged})
  }

  /** The watermark covers the whole segment; the last one has no known end and
      is always read. */
  predicate IsSkipped(segments: seq<Segment>, applied: set<Segment>, i: nat) {
    i + 1 < |segments| && segments[i] in applied
  }

  function KeptUpTo(segments: seq<Segment>, applied: set<Segment>, n: nat): seq<Segment>
    requires n <= |segments|
  {
    if n == 0 then []
    else if IsSkipped(segments, applied, n - 1) then KeptUpTo(segments, applied, n - 1)
    else KeptUpTo(segments, applied, n - 1) + [segments[n - 1]]
  }

  /** A skipped segment, with the index of the kept segment that follows it. */
  datatype Skip = Skip(seg: Segment, nextKept: nat)

  function SkipsUpTo(segments: seq<Segment>, applied: set<Segment>, n: nat): seq<Skip>
    requires n <= |segments|
  {
    if n == 0 then []
    else if IsSkipped(segments, applied, n - 1) then
      SkipsUpTo(segments, applied, n - 1) + [Skip(segments[n - 1], |KeptUpTo(segments, applied, n - 1)|)]
    else SkipsUpTo(segments, applied, n - 1)
  }

  /** How far the read goes: a budget or memory stop is looked at before every
      kept segment but the first. */
  function StopFrom(kept: seq<Segment>, stopBefore: set<Segment>, i: nat): (n: nat)
    requires i <= |kept|
    ensures i <= n <= |kept|
    ensures forall k | i <= k < n && k > 0 :: kept[k] !in stopBefore
    ensures n < |kept| ==> n > 0 && kept[n] in stopBefore
    decreases |kept| - i
  {
    if i == |kept| || (i > 0 && kept[i] in stopBefore) then i else StopFrom(kept, stopBefore, i + 1)
  }

  /** Failed reads per segment in this process, and how many this one makes;
      with the list full a new failure counts as the last. */
  function NoteFailure(attempts: map<Segment, nat>, s: Segment): (map<Segment, nat>, nat) {
    if s in attempts then (attempts[s := attempts[s] + 1], attempts[s] + 1)
    else if |attempts| >= SEGMENT_READ_FAILURES_MAX then (attempts, WAL_REPLAY_IO_RETRY_CAP)
    else (attempts[s := 1], 1)
  }

  /** The read so far: segments read, segments that failed and are kept for the
      next pass, and segments given up on. */
  datatype Walk = Walk(read: seq<Segment>, failed: set<Segment>, gaveUp: set<Segment>, attempts: map<Segment, nat>)

  function WalkOne(w: Walk, s: Segment, readable: set<Segment>): Walk {
    if s in readable then w.(read := w.read + [s], attempts := w.attempts - {s})
    else
      var (attempts, n) := NoteFailure(w.attempts, s);
      if n < WAL_REPLAY_IO_RETRY_CAP then w.(failed := w.failed + {s}, attempts := attempts)
      else w.(gaveUp := w.gaveUp + {s}, attempts := attempts)
  }

  function WalkUpTo(kept: seq<Segment>, readable: set<Segment>, attempts: map<Segment, nat>, n: nat): Walk
    requires n <= |kept|
  {
    if n == 0 then Walk([], {}, {}, attempts)
    else WalkOne(WalkUpTo(kept, readable, attempts, n - 1), kept[n - 1], readable)
  }

  /** What a pass over a listing meets. */
  datatype Reading = Reading(segments: seq<Segment>, applied: set<Segment>, stopBefore: set<Segment>, readable: set<Segment>)

  function Kept(r: Reading): seq<Segment> {
    KeptUpTo(r.segments, r.applied, |r.segments|)
  }

  function Skips(r: Reading): seq<Skip> {
    SkipsUpTo(r.segments, r.applied, |r.segments|)
  }

  function Consumed(r: Reading): (n: nat)
    ensures n <= |Kept(r)|
  {
    StopFrom(Kept(r), r.stopBefore, 0)
  }

  function WalkOf(r: Reading, attempts: map<Segment, nat>): Walk {
    WalkUpTo(Kept(r), r.readable, attempts, Consumed(r))
  }

  /** A skipped segment the read got past is archived; one past the stop goes
      back to the live folder if it was staged. */
  function SkipMove(skip: Skip, consumed: nat): Move {
    if skip.nextKept > consumed then Move(skip.seg, {Staged}, Live) else Move(skip.seg, {Live, Staged}, Archived)
  }

  function SkipMoves(skips: seq<Skip>, consumed: nat, n: nat): seq<Move>
    requires n <= |skips|
  {
    seq(n, i requires 0 <= i < n => SkipMove(skips[i], consumed))
  }

  /** A kept segment that was not reached, or could not be read and has tries
      left. */
  predicate IsUnread(kept: seq<Segment>, consumed: nat, failed: set<Segment>, i: nat)
    requires i < |kept|
  {
    i >= consumed || kept[i] in failed
  }

  function RestoreMoves(kept: seq<Segment>, consumed: nat, failed: set<Segment>, n: nat): seq<Move>
    requires n <= |kept|
  {
    if n == 0 then []
    else if IsUnread(kept, consumed, failed, n - 1) then
      RestoreMoves(kept, consumed, failed, n - 1) + [Move(kept[n - 1], {Staged}, Live)]
    else RestoreMoves(kept, consumed, failed, n - 1)
  }

  function StageMoves(kept: seq<Segment>, consumed: nat, failed: set<Segment>, n: nat): seq<Move>
    requires n <= |kept|
  {
    if n == 0 then []
    else if IsUnread(kept, consumed, failed, n - 1) then StageMoves(kept, consumed, failed, n - 1)
    else StageMoves(kept, consumed, failed, n - 1) + [Move(kept[n - 1], {Live}, Staged)]
  }

  /** All renames of a pass, in order: skips, restores, staging. */
  function PassMoves(r: Reading, failed: set<Segment>): seq<Move> {
    SkipMoves(Skips(r), Consumed(r), |Skips(r)|)
    + RestoreMoves(Kept(r), Consumed(r), failed, |Kept(r)|)
    + StageMoves(Kept(r), Consumed(r), failed, |Kept(r)|)
  }

  // --------------------------------------------------- what a plan does to one segment

  lemma {:induction false} ApplyInTwo(d: Disk, a: seq<Move>, b: seq<Move>, ok: set<Segment>)
    ensures ApplyAll(d, a + b, ok) == ApplyAll(ApplyAll(d, a, ok), b, ok)
  {
    if b == [] {
      assert a + b == a;
    } else {
      var n := |b| - 1;
      assert (a + b)[..|a + b| - 1] == a + b[..n];
      ApplyInTwo(d, a, b[..n], ok);
    }
  }

  ghost predicate Ascending(kept: seq<Segment>) {
    forall i, j | 0 <= i < j < |kept| :: kept[i] < kept[j]
  }

  lemma AscendingAppend(kept: seq<Segment>, x: Segment)
    requires Ascending(kept) && forall s | s in kept :: s < x
    ensures Ascending(kept + [x])
  {
    var longer := kept + [x];
    forall i, j | 0 <= i < j < |longer| ensures longer[i] < longer[j] {
      if j == |kept| {
        assert longer[i] in kept;
      }
    }
  }

  lemma BelowNext(segments: seq<Segment>, n: nat, s: Segment)
    requires Ascending(segments) && n < |segments| && s in segments[..n]
    ensures s < segments[n]
  {
    var i :| 0 <= i < n && segments[..n][i] == s;
    assert segments[i] == s;
  }

  ghost predicate IsKept(segments: seq<Segment>, applied: set<Segment>, s: Segment) {
    exists i :: 0 <= i < |segments| && segments[i] == s && !IsSkipped(segments, applied, i)
  }

  lemma {:induction false} KeptAreListed(segments: seq<Segment>, applied: set<Segment>, n: nat)
    requires n <= |segments|
    ensures forall s | s in KeptUpTo(segments, applied, n) :: s in segments[..n] && IsKept(segments, applied, s)
  {
    if n > 0 {
      KeptAreListed(segments, applied, n - 1);
      assert segments[..n] == segments[..n - 1] + [segments[n - 1]];
    }
  }

  lemma {:induction false} KeptIsOrdered(segments: seq<Segment>, applied: set<Segment>, n: nat)
    requires Ascending(segments) && n <= |segments|
    ensures Ascending(KeptUpTo(segments, applied, n))
  {
    if n > 0 {
      var before := KeptUpTo(segments, applied, n - 1);
      KeptIsOrdered(segments, applied, n - 1);
      KeptAreListed(segments, applied, n - 1);
      forall s | s in before ensures s < segments[n - 1] {
        BelowNext(segments, n - 1, s);
      }
      AscendingAppend(before, segments[n - 1]);
    }
  }

  lemma {:induction false} KeptIsListed(segments: seq<Segment>, applied: set<Segment>, n: nat, i: nat)
    requires i < n <= |segments| && !IsSkipped(segments, applied, i)
    ensures segments[i] in KeptUpTo(segments, applied, n)
  {
    if i < n - 1 {
      KeptIsListed(segments, applied, n - 1, i);
    }
  }

  ghost predicate IsSkippedAt(segments: seq<Segment>, applied: set<Segment>, s: Segment, i: int) {
    0 <= i < |segments| && segments[i] == s && IsSkipped(segments, applied, i)
  }

  lemma {:induction false} SkipsAreListed(segments: seq<Segment>, applied: set<Segment>, n: nat, j: nat) returns (i: nat)
    requires n <= |segments| && j < |SkipsUpTo(segments, applied, n)|
    ensures i < n && IsSkippedAt(segments, applied, SkipsUpTo(segments, applied, n)[j].seg, i)
  {
    if IsSkipped(segments, applied, n - 1) && j == |SkipsUpTo(segments, applied, n)| - 1 {
      i := n - 1;
    } else {
      i := SkipsAreListed(segments, applied, n - 1, j);
    }
  }

  lemma {:induction false} SkipsAreOrdered(segments: seq<Segment>, applied: set<Segment>, n: nat, i: nat, j: nat)
    requires Ascending(segments) && n <= |segments| && i < j < |SkipsUpTo(segments, applied, n)|
    ensures SkipsUpTo(segments, applied, n)[i].seg < SkipsUpTo(segments, applied, n)[j].seg
  {
    if IsSkipped(segments, applied, n - 1) && j == |SkipsUpTo(segments, applied, n)| - 1 {
      var k := SkipsAreListed(segments, applied, n - 1, i);
    } else {
      SkipsAreOrdered(segments, applied, n - 1, i, j);
    }
  }

  lemma {:induction false} SkipIsListed(segments: seq<Segment>, applied: set<Segment>, n: nat, i: nat) returns (j: nat)
    requires i < n <= |segments| && IsSkipped(segments, applied, i)
    ensures j < |SkipsUpTo(segments, applied, n)| && SkipsUpTo(segments, applied, n)[j].seg == segments[i]
  {
    if i == n - 1 {
      j := |SkipsUpTo(segments, applied, n)| - 1;
    } else {
      j := SkipIsListed(segments, applied, n - 1, i);
    }
  }

  lemma {:induction false} RestoreNames(kept: seq<Segment>, consumed: nat, failed: set<Segment>, n: nat)
    requires n <= |kept|
    ensures forall m | m in RestoreMoves(kept, consumed, failed, n) ::
              exists i :: 0 <= i < n && m == Move(kept[i], {Staged}, Live) && IsUnread(kept, consumed, failed, i)
    ensures forall i | 0 <= i < n && IsUnread(kept, consumed, failed, i) ::
              Move(kept[i], {Staged}, Live) in RestoreMoves(kept, consumed, failed, n)
  {
    if n > 0 {
      RestoreNames(kept, consumed, failed, n - 1);
      var before, last := RestoreMoves(kept, consumed, failed, n - 1), Move(kept[n - 1], {Staged}, Live);
      forall m | m in RestoreMoves(kept, consumed, failed, n)
        ensures exists i :: 0 <= i < n && m == Move(kept[i], {Staged}, Live) && IsUnread(kept, consumed, failed, i)
      {
        if m in before {
          var i :| 0 <= i < n - 1 && m == Move(kept[i], {Staged}, Live) && IsUnread(kept, consumed, failed, i);
        } else {
          assert m == last;
        }
      }
    }
  }

  lemma {:induction false} StageNames(kept: seq<Segment>, consumed: nat, failed: set<Segment>, n: nat)
    requires n <= |kept|
    ensures forall m | m in StageMoves(kept, consumed, failed, n) ::
              exists i :: 0 <= i < n && m == Move(kept[i], {Live}, Staged) && !IsUnread(kept, consumed, failed, i)
    ensures forall i | 0 <= i < n && !IsUnread(kept, consumed, failed, i) ::
              Move(kept[i], {Live}, Staged) in StageMoves(kept, consumed, failed, n)
  {
    if n > 0 {
      StageNames(kept, consumed, failed, n - 1);
      var before, last := StageMoves(kept, consumed, failed, n - 1), Move(kept[n - 1], {Live}, Staged);
      forall m | m in StageMoves(kept, consumed, failed, n)
        ensures exists i :: 0 <= i < n && m == Move(kept[i], {Live}, Staged) && !IsUnread(kept, consumed, failed, i)
      {
        if m in before {
          var i :| 0 <= i < n - 1 && m == Move(kept[i], {Live}, Staged) && !IsUnread(kept, consumed, failed, i);
        } else {
          assert m == last;
        }
      }
    }
  }

  // --------------------------------------------------- the walk

  lemma {:induction false} WalkCovers(kept: seq<Segment>, readable: set<Segment>, attempts: map<Segment, nat>, n: nat, i: nat)
    requires i < n <= |kept|
    ensures var w := WalkUpTo(kept, readable, attempts, n);
            kept[i] in w.read || kept[i] in w.failed || kept[i] in w.gaveUp
  {
    if i < n - 1 {
      WalkCovers(kept, readable, attempts, n - 1, i);
    }
  }

  /** What was read or not, each segment from among those walked. */
  ghost predicate WalkedFrom(w: Walk, walked: seq<Segment>, readable: set<Segment>) {
    && (forall s | s in w.read :: s in walked && s in readable)
    && forall s | s in w.failed || s in w.gaveUp :: s in walked && s !in readable
  }

  lemma WalkOneIsWalked(w: Walk, walked: seq<Segment>, s: Segment, readable: set<Segment>)
    requires WalkedFrom(w, walked, readable)
    ensures WalkedFrom(WalkOne(w, s, readable), walked + [s], readable)
  {
  }

  lemma {:induction false} ReadsAreWalked(kept: seq<Segment>, readable: set<Segment>, attempts: map<Segment, nat>, n: nat)
    requires n <= |kept|
    ensures WalkedFrom(WalkUpTo(kept, readable, attempts, n), kept[..n], readable)
  {
    if n > 0 {
      ReadsAreWalked(kept, readable, attempts, n - 1);
      WalkOneIsWalked(WalkUpTo(kept, readable, attempts, n - 1), kept[..n - 1], kept[n - 1], readable);
      assert kept[..n] == kept[..n - 1] + [kept[n - 1]];
    }
  }

  /** In order so far, and all before the next one. */
  ghost predicate OrderedBelow(read: seq<Segment>, next: Segment) {
    Ascending(read) && forall s | s in read :: s < next
  }

  lemma WalkOneKeepsOrder(w: Walk, s: Segment, readable: set<Segment>, next: Segment)
    requires OrderedBelow(w.read, s) && s < next
    ensures OrderedBelow(WalkOne(w, s, readable).read, next)
  {
    AscendingAppend(w.read, s);
  }

  lemma {:induction false} ReadsAreOrdered(kept: seq<Segment>, readable: set<Segment>, attempts: map<Segment, nat>,
                                           n: nat, next: Segment)
    requires Ascending(kept) && n <= |kept| && (n > 0 ==> kept[n - 1] < next)
    ensures OrderedBelow(WalkUpTo(kept, readable, attempts, n).read, next)
  {
    if n > 0 {
      ReadsAreOrdered(kept, readable, attempts, n - 1, kept[n - 1]);
      WalkOneKeepsOrder(WalkUpTo(kept, readable, attempts, n - 1), kept[n - 1], readable, next);
    }
  }

  /** What a pass reads is in capture order, each segment once, and is exactly
      what it reached and could read. */
  lemma ReadsAreInOrder(r: Reading, attempts: map<Segment, nat>)
    requires Ascending(r.segments)
    ensures Ascending(WalkOf(r, attempts).read)
    ensures forall s :: s in WalkOf(r, attempts).read <==> s in Kept(r)[..Consumed(r)] && s in r.readable
  {
    var n := Consumed(r);
    KeptIsOrdered(r.segments, r.applied, |r.segments|);
    ReadsAreOrdered(Kept(r), r.readable, attempts, n, if n > 0 then Kept(r)[n - 1] + 1 else 0);
    ReadsAreWalked(Kept(r), r.readable, attempts, n);
    forall s | s in Kept(r)[..n] && s in r.readable ensures s in WalkOf(r, attempts).read {
      var i :| 0 <= i < n && Kept(r)[..n][i] == s;
      WalkCovers(Kept(r), r.readable, attempts, n, i);
    }
  }

  ghost predicate Apart(w: Walk) {
    w.failed !! w.gaveUp
  }

  /** The segments that failed so far, all below the next one. */
  ghost predicate FailuresBelow(w: Walk, next: Segment) {
    forall s | s in w.failed || s in w.gaveUp :: s < next
  }

  lemma WalkOneKeepsApart(w: Walk, s: Segment, readable: set<Segment>, next: Segment)
    requires Apart(w) && FailuresBelow(w, s) && s < next
    ensures Apart(WalkOne(w, s, readable)) && FailuresBelow(WalkOne(w, s, readable), next)
  {
  }

  lemma {:induction false} FailuresAreApart(kept: seq<Segment>, readable: set<Segment>, attempts: map<Segment, nat>,
                                            n: nat, next: Segment)
    requires Ascending(kept) && n <= |kept| && (n > 0 ==> kept[n - 1] < next)
    ensures Apart(WalkUpTo(kept, readable, attempts, n)) && FailuresBelow(WalkUpTo(kept, readable, attempts, n), next)
  {
    if n > 0 {
      FailuresAreApart(kept, readable, attempts, n - 1, kept[n - 1]);
      WalkOneKeepsApart(WalkUpTo(kept, readable, attempts, n - 1), kept[n - 1], readable, next);
    }
  }

  lemma FailedIsNotGivenUp(kept: seq<Segment>, readable: set<Segment>, attempts: map<Segment, nat>, n: nat)
    requires Ascending(kept) && n <= |kept|
    ensures WalkUpTo(kept, readable, attempts, n).failed !! WalkUpTo(kept, readable, attempts, n).gaveUp
  {
    FailuresAreApart(kept, readable, attempts, n, if n > 0 then kept[n - 1] + 1 else 0);
  }

  // --------------------------------------------------- the fate of each segment

  lemma PassInThree(d: Disk, r: Reading, failed: set<Segment>, ok: set<Segment>)
    ensures ApplyAll(d, PassMoves(r, failed), ok)
            == ApplyAll(ApplyAll(ApplyAll(d, SkipMoves(Skips(r), Consumed(r), |Skips(r)|), ok),
                                 RestoreMoves(Kept(r), Consumed(r), failed, |Kept(r)|), ok),
                        StageMoves(Kept(r), Consumed(r), failed, |Kept(r)|), ok)
  {
    var a := SkipMoves(Skips(r), Consumed(r), |Skips(r)|);
    var b := RestoreMoves(Kept(r), Consumed(r), failed, |Kept(r)|);
    var c := StageMoves(Kept(r), Consumed(r), failed, |Kept(r)|);
    ApplyInTwo(d, a + b, c, ok);
    ApplyInTwo(d, a, b, ok);
  }

  lemma RestoresNameKept(kept: seq<Segment>, consumed: nat, failed: set<Segment>, s: Segment)
    requires Names(RestoreMoves(kept, consumed, failed, |kept|), s) || Names(StageMoves(kept, consumed, failed, |kept|), s)
    ensures s in kept
  {
    RestoreNames(kept, consumed, failed, |kept|);
    StageNames(kept, consumed, failed, |kept|);
  }

  lemma SkipsNameSkipped(r: Reading, s: Segment) returns (i: nat)
    requires Names(SkipMoves(Skips(r), Consumed(r), |Skips(r)|), s)
    ensures IsSkippedAt(r.segments, r.applied, s, i)
  {
    var moves := SkipMoves(Skips(r), Consumed(r), |Skips(r)|);
    var m :| m in moves && m.seg == s;
    var j :| 0 <= j < |moves| && moves[j] == m;
    i := SkipsAreListed(r.segments, r.applied, |r.segments|, j);
  }

  lemma KeptIsNotSkipped(r: Reading, s: Segment, i: nat)
    requires Ascending(r.segments) && IsSkippedAt(r.segments, r.applied, s, i)
    ensures s !in Kept(r)
  {
    KeptAreListed(r.segments, r.applied, |r.segments|);
  }

  lemma SkipMovesAreOne(r: Reading, j: nat)
    requires Ascending(r.segments) && j < |Skips(r)|
    ensures var moves := SkipMoves(Skips(r), Consumed(r), |Skips(r)|);
            && SkipMove(Skips(r)[j], Consumed(r)) in moves
            && forall x | x in moves && x.seg == Skips(r)[j].seg :: x == SkipMove(Skips(r)[j], Consumed(r))
  {
    var moves := SkipMoves(Skips(r), Consumed(r), |Skips(r)|);
    assert moves[j] == SkipMove(Skips(r)[j], Consumed(r));
    forall x | x in moves && x.seg == Skips(r)[j].seg ensures x == moves[j] {
      var k :| 0 <= k < |moves| && moves[k] == x;
      assert x.seg == Skips(r)[k].seg;
      if k < j {
        SkipsAreOrdered(r.segments, r.applied, |r.segments|, k, j);
      } else if j < k {
        SkipsAreOrdered(r.segments, r.applied, |r.segments|, j, k);
      }
    }
  }

  /** A skipped segment is archived if the read got as far as the kept segment
      after it; otherwise it ends in the live folder, unless its restore fails. */
  lemma SkippedFate(d: Disk, r: Reading, failed: set<Segment>, ok: set<Segment>, j: nat)
    requires Ascending(r.segments) && j < |Skips(r)| && Skips(r)[j].seg in d
    ensures var s := Skips(r)[j].seg; var after := ApplyAll(d, PassMoves(r, failed), ok);
            s in after && after[s] == Apply(d, SkipMove(Skips(r)[j], Consumed(r)), ok)[s]
  {
    var s := Skips(r)[j].seg;
    PassInThree(d, r, failed, ok);
    SkipMovesAreOne(r, j);
    var i := SkipsAreListed(r.segments, r.applied, |r.segments|, j);
    KeptIsNotSkipped(r, s, i);
    if Names(RestoreMoves(Kept(r), Consumed(r), failed, |Kept(r)|), s)
       || Names(StageMoves(Kept(r), Consumed(r), failed, |Kept(r)|), s) {
      RestoresNameKept(Kept(r), Consumed(r), failed, s);
    }
    UntouchedAfterSkips(d, r, failed, ok, SkipMove(Skips(r)[j], Consumed(r)));
  }

  lemma UntouchedAfterSkips(d: Disk, r: Reading, failed: set<Segment>, ok: set<Segment>, m: Move)
    requires m.seg in d && m.to !in m.from
    requires var moves := SkipMoves(Skips(r), Consumed(r), |Skips(r)|);
             m in moves && forall x | x in moves && x.seg == m.seg :: x == m
    requires !Names(RestoreMoves(Kept(r), Consumed(r), failed, |Kept(r)|), m.seg)
    requires !Names(StageMoves(Kept(r), Consumed(r), failed, |Kept(r)|), m.seg)
    ensures var after := ApplyAll(d, PassMoves(r, failed), ok);
            m.seg in after && after[m.seg] == Apply(d, m, ok)[m.seg]
  {
    var d1 := ApplyAll(d, SkipMoves(Skips(r), Consumed(r), |Skips(r)|), ok);
    var d2 := ApplyAll(d1, RestoreMoves(Kept(r), Consumed(r), failed, |Kept(r)|), ok);
    PassInThree(d, r, failed, ok);
    NamedMoves(d, SkipMoves(Skips(r), Consumed(r), |Skips(r)|), ok, m);
    UnnamedStays(d1, RestoreMoves(Kept(r), Consumed(r), failed, |Kept(r)|), ok, m.seg);
    UnnamedStays(d2, StageMoves(Kept(r), Consumed(r), failed, |Kept(r)|), ok, m.seg);
  }

  function KeptMove(kept: seq<Segment>, consumed: nat, failed: set<Segment>, i: nat): Move
    requires i < |kept|
  {
    if IsUnread(kept, consumed, failed, i) then Move(kept[i], {Staged}, Live) else Move(kept[i], {Live}, Staged)
  }

  lemma KeptIsNotInSkips(r: Reading, i: nat)
    requires Ascending(r.segments) && i < |Kept(r)|
    ensures !Names(SkipMoves(Skips(r), Consumed(r), |Skips(r)|), Kept(r)[i])
  {
    if Names(SkipMoves(Skips(r), Consumed(r), |Skips(r)|), Kept(r)[i]) {
      var k := SkipsNameSkipped(r, Kept(r)[i]);
      KeptIsNotSkipped(r, Kept(r)[i], k);
    }
  }

  lemma UnreadNames(kept: seq<Segment>, consumed: nat, failed: set<Segment>, i: nat)
    requires Ascending(kept) && i < |kept|
    ensures IsUnread(kept, consumed, failed, i) ==> !Names(StageMoves(kept, consumed, failed, |kept|), kept[i])
    ensures !IsUnread(kept, consumed, failed, i) ==> !Names(RestoreMoves(kept, consumed, failed, |kept|), kept[i])
  {
    if IsUnread(kept, consumed, failed, i) && Names(StageMoves(kept, consumed, failed, |kept|), kept[i]) {
      StageNames(kept, consumed, failed, |kept|);
    }
    if !IsUnread(kept, consumed, failed, i) && Names(RestoreMoves(kept, consumed, failed, |kept|), kept[i]) {
      RestoreNames(kept, consumed, failed, |kept|);
    }
  }

  lemma KeptMovesOnce(d: Disk, kept: seq<Segment>, consumed: nat, failed: set<Segment>, ok: set<Segment>, i: nat)
    requires Ascending(kept) && i < |kept| && kept[i] in d
    ensures var after := ApplyAll(ApplyAll(d, RestoreMoves(kept, consumed, failed, |kept|), ok),
                                  StageMoves(kept, consumed, failed, |kept|), ok);
            kept[i] in after && after[kept[i]] == Apply(d, KeptMove(kept, consumed, failed, i), ok)[kept[i]]
  {
    var restores, stages := RestoreMoves(kept, consumed, failed, |kept|), StageMoves(kept, consumed, failed, |kept|);
    var d2 := ApplyAll(d, restores, ok);
    UnreadNames(kept, consumed, failed, i);
    if IsUnread(kept, consumed, failed, i) {
      RestoreNames(kept, consumed, failed, |kept|);
      NamedMoves(d, restores, ok, Move(kept[i], {Staged}, Live));
      UnnamedStays(d2, stages, ok, kept[i]);
    } else {
      StageNames(kept, consumed, failed, |kept|);
      UnnamedStays(d, restores, ok, kept[i]);
      NamedMoves(d2, stages, ok, Move(kept[i], {Live}, Staged));
    }
  }

  /** A kept segment is staged if it was reached and read (or given up on), and
      ends in the live folder otherwise, as far as renames succeed. */
  lemma KeptFate(d: Disk, r: Reading, failed: set<Segment>, ok: set<Segment>, i: nat)
    requires Ascending(r.segments) && i < |Kept(r)| && Kept(r)[i] in d
    ensures var s := Kept(r)[i]; var after := ApplyAll(d, PassMoves(r, failed), ok);
            s in after && after[s] == Apply(d, KeptMove(Kept(r), Consumed(r), failed, i), ok)[s]
  {
    PassInThree(d, r, failed, ok);
    KeptIsNotInSkips(r, i);
    KeptIsOrdered(r.segments, r.applied, |r.segments|);
    var moves := SkipMoves(Skips(r), Consumed(r), |Skips(r)|);
    UnnamedStays(d, moves, ok, Kept(r)[i]);
    KeptMovesOnce(ApplyAll(d, moves, ok), Kept(r), Consumed(r), failed, ok, i);
  }

  // --------------------------------------------------- the pass in plain terms

  /** A later segment is listed. */
  ghost predicate HasLater(segments: seq<Segment>, s: Segment) {
    exists t :: t in segments && s < t
  }

  lemma LaterIsBehind(segments: seq<Segment>, i: nat)
    requires Ascending(segments) && i < |segments|
    ensures HasLater(segments, segments[i]) <==> i + 1 < |segments|
  {
    if i + 1 < |segments| {
      assert segments[i + 1] in segments;
    }
  }

  /** A listed segment is kept unless the watermark covers it and a later one is
      listed; those set aside are exactly the others. */
  lemma KeptExactly(r: Reading, s: Segment)
    requires Ascending(r.segments)
    ensures s in Kept(r) <==> s in r.segments && !(s in r.applied && HasLater(r.segments, s))
    ensures (exists j :: 0 <= j < |Skips(r)| && Skips(r)[j].seg == s)
            <==> s in r.segments && s in r.applied && HasLater(r.segments, s)
  {
    KeptAreListed(r.segments, r.applied, |r.segments|);
    assert r.segments[..|r.segments|] == r.segments;
    if s in r.segments {
      var i :| 0 <= i < |r.segments| && r.segments[i] == s;
      LaterIsBehind(r.segments, i);
      ListedIsKeptOrSkipped(r, i);
    }
    if j :| 0 <= j < |Skips(r)| && Skips(r)[j].seg == s {
      var i := SkipsAreListed(r.segments, r.applied, |r.segments|, j);
      LaterIsBehind(r.segments, i);
    }
  }

  lemma ListedIsKeptOrSkipped(r: Reading, i: nat)
    requires Ascending(r.segments) && i < |r.segments|
    ensures !IsSkipped(r.segments, r.applied, i) ==> r.segments[i] in Kept(r)
    ensures IsSkipped(r.segments, r.applied, i) ==> r.segments[i] !in Kept(r)
    ensures IsSkipped(r.segments, r.applied, i) ==> exists j :: 0 <= j < |Skips(r)| && Skips(r)[j].seg == r.segments[i]
  {
    if IsSkipped(r.segments, r.applied, i) {
      var j := SkipIsListed(r.segments, r.applied, |r.segments|, i);
      KeptIsNotSkipped(r, r.segments[i], i);
      assert Skips(r)[j].seg == r.segments[i];
    } else {
      KeptIsListed(r.segments, r.applied, |r.segments|, i);
    }
  }

  /** The newest segment is always kept, and it is the last one kept. */
  lemma LastIsKept(r: Reading)
    requires Ascending(r.segments) && r.segments != []
    ensures Kept(r) != [] && Kept(r)[|Kept(r)| - 1] == r.segments[|r.segments| - 1]
  {
    var last := r.segments[|r.segments| - 1];
    LaterIsBehind(r.segments, |r.segments| - 1);
    KeptExactly(r, last);
    KeptIsOrdered(r.segments, r.applied, |r.segments|);
    var k :| 0 <= k < |Kept(r)| && Kept(r)[k] == last;
    var top := Kept(r)[|Kept(r)| - 1];
    KeptExactly(r, top);
    var i :| 0 <= i < |r.segments| && r.segments[i] == top;
  }

  /** The index a skip carries splits the kept segments into those before it
      and those after it. */
  lemma {:induction false} NextKeptSplits(segments: seq<Segment>, applied: set<Segment>, n: nat, j: nat, k: nat)
    requires Ascending(segments) && n <= |segments|
    requires j < |SkipsUpTo(segments, applied, n)| && k < |KeptUpTo(segments, applied, n)|
    ensures k < SkipsUpTo(segments, applied, n)[j].nextKept
            <==> KeptUpTo(segments, applied, n)[k] < SkipsUpTo(segments, applied, n)[j].seg
    ensures SkipsUpTo(segments, applied, n)[j].nextKept <= |KeptUpTo(segments, applied, n)|
  {
    var kept := KeptUpTo(segments, applied, n - 1);
    if IsSkipped(segments, applied, n - 1) {
      if j < |SkipsUpTo(segments, applied, n)| - 1 {
        NextKeptSplits(segments, applied, n - 1, j, k);
      } else {
        KeptAreListed(segments, applied, n - 1);
        BelowNext(segments, n - 1, kept[k]);
      }
    } else {
      if k < |kept| {
        NextKeptSplits(segments, applied, n - 1, j, k);
      } else {
        NextKeptIsBounded(segments, applied, n - 1, j);
        var i := SkipsAreListed(segments, applied, n - 1, j);
      }
    }
  }

  lemma {:induction false} NextKeptIsBounded(segments: seq<Segment>, applied: set<Segment>, n: nat, j: nat)
    requires n <= |segments| && j < |SkipsUpTo(segments, applied, n)|
    ensures SkipsUpTo(segments, applied, n)[j].nextKept <= |KeptUpTo(segments, applied, n)|
  {
    if j < |SkipsUpTo(segments, applied, n - 1)| {
      NextKeptIsBounded(segments, applied, n - 1, j);
    }
  }

  /** The read got past every kept segment before this one. */
  ghost predicate PassedAllBefore(r: Reading, s: Segment) {
    forall k | 0 <= k < |Kept(r)| && Kept(r)[k] < s :: k < Consumed(r)
  }

  /** Where a pass leaves a segment it sets aside: in the archive if the read
      got past every kept segment before it, else in the live folder; a rename
      that fails leaves it where it was. */
  lemma SkippedEndsWhere(d: Disk, r: Reading, failed: set<Segment>, ok: set<Segment>, s: Segment)
    requires IsListing(d, r.segments)
    requires s in r.segments && s in r.applied && HasLater(r.segments, s)
    ensures var after := ApplyAll(d, PassMoves(r, failed), ok);
            s in after && after[s] == if s !in ok then d[s] else if PassedAllBefore(r, s) then Archived else Live
  {
    KeptExactly(r, s);
    var j :| 0 <= j < |Skips(r)| && Skips(r)[j].seg == s;
    SkippedFate(d, r, failed, ok, j);
    PassedMeansNextKept(r, j);
  }

  lemma PassedMeansNextKept(r: Reading, j: nat)
    requires Ascending(r.segments) && j < |Skips(r)|
    ensures PassedAllBefore(r, Skips(r)[j].seg) <==> !(Skips(r)[j].nextKept > Consumed(r))
  {
    var n, next := Consumed(r), Skips(r)[j].nextKept;
    NextKeptIsBounded(r.segments, r.applied, |r.segments|, j);
    forall k | 0 <= k < |Kept(r)| ensures k < next <==> Kept(r)[k] < Skips(r)[j].seg {
      NextKeptSplits(r.segments, r.applied, |r.segments|, j, k);
    }
    if next > n {
      assert Kept(r)[n] < Skips(r)[j].seg;
    }
  }

  /** The kept segment that follows this one was reached. */
  ghost predicate FollowerReached(r: Reading, s: Segment) {
    exists k :: 0 <= k < Consumed(r) && s < Kept(r)[k]
  }

  /** A segment set aside is to be archived only when the kept segment behind it
      was reached. It is archived although that was not, exactly when the read
      stopped right behind it: it read all kept segments before it and no more. */
  lemma ArchivedBeforeItsFollower(d: Disk, r: Reading, failed: set<Segment>, ok: set<Segment>, s: Segment)
    requires IsListing(d, r.segments) && s in ok
    requires s in r.segments && s in r.applied && HasLater(r.segments, s)
    ensures var after := ApplyAll(d, PassMoves(r, failed), ok);
            && s in after
            && (after[s] == Archived && !FollowerReached(r, s)
                <==> forall k | 0 <= k < |Kept(r)| :: k < Consumed(r) <==> Kept(r)[k] < s)
  {
    SkippedEndsWhere(d, r, failed, ok, s);
    KeptExactly(r, s);
    assert forall k | 0 <= k < |Kept(r)| :: Kept(r)[k] in Kept(r);
  }

  /** Three segments, the middle one applied, and a stop before the last: the
      middle one is archived though the read never got to the last. */
  lemma StopBehindASkip(d: Disk)
    requires IsListing(d, [1, 2, 3])
    ensures var r := Reading([1, 2, 3], {2}, {3}, {1, 3}); var after := ApplyAll(d, PassMoves(r, {}), {1, 2, 3});
            Kept(r) == [1, 3] && Consumed(r) == 1 && 2 in after && after[2] == Archived && !FollowerReached(r, 2)
  {
    var r := Reading([1, 2, 3], {2}, {3}, {1, 3});
    assert KeptUpTo(r.segments, r.applied, 0) == [] && KeptUpTo(r.segments, r.applied, 1) == [1];
    assert KeptUpTo(r.segments, r.applied, 2) == [1] && KeptUpTo(r.segments, r.applied, 3) == [1, 3];
    assert StopFrom([1, 3], {3}, 1) == 1 && StopFrom([1, 3], {3}, 0) == 1;
    assert 3 in r.segments && 2 in r.segments;
    ArchivedBeforeItsFollower(d, r, {}, {1, 2, 3}, 2);
  }

  /** Where a pass leaves a segment it keeps: staged if the read reached it and
      it did not fail, else in the live folder; a rename that fails leaves it
      where it was. It is never archived. */
  lemma KeptEndsWhere(d: Disk, r: Reading, failed: set<Segment>, ok: set<Segment>, s: Segment)
    requires IsListing(d, r.segments)
    requires s in r.segments && !(s in r.applied && HasLater(r.segments, s))
    ensures var after := ApplyAll(d, PassMoves(r, failed), ok);
            s in after && after[s] == if s !in ok then d[s]
                                      else if s in Kept(r)[..Consumed(r)] && s !in failed then Staged else Live
  {
    KeptExactly(r, s);
    var i :| 0 <= i < |Kept(r)| && Kept(r)[i] == s;
    KeptFate(d, r, failed, ok, i);
    KeptIsOrdered(r.segments, r.applied, |r.segments|);
    InPrefix(Kept(r), Consumed(r), i);
  }

  lemma InPrefix(kept: seq<Segment>, n: nat, i: nat)
    requires Ascending(kept) && n <= |kept| && i < |kept|
    ensures kept[i] in kept[..n] <==> i < n
  {
    if i < n {
      assert kept[..n][i] == kept[i];
    }
  }

  /** A pass archives only what it may skip, so never the newest segment. */
  ghost predicate ArchivesOnlySkipped(segments: seq<Segment>, applied: set<Segment>, after: Disk) {
    && (forall s | s in segments :: s in after)
    && (forall s | s in segments && after[s] == Archived :: s in applied && HasLater(segments, s))
    && (segments != [] ==> after[segments[|segments| - 1]] in {Live, Staged})
  }

  lemma PassArchivesOnlySkipped(d: Disk, r: Reading, failed: set<Segment>, ok: set<Segment>)
    requires IsListing(d, r.segments)
    ensures ArchivesOnlySkipped(r.segments, r.applied, ApplyAll(d, PassMoves(r, failed), ok))
  {
    var after := ApplyAll(d, PassMoves(r, failed), ok);
    ApplyAllKeepsKeys(d, PassMoves(r, failed), ok);
    forall s | s in r.segments && !(s in r.applied && HasLater(r.segments, s)) ensures after[s] in {Live, Staged} {
      KeptEndsWhere(d, r, failed, ok, s);
    }
    if r.segments != [] {
      LaterIsBehind(r.segments, |r.segments| - 1);
    }
  }

  /** How the walk treats a segment it reaches: a read clears its count; a
      failed read adds one to it, and the third in a row gives up; a segment
      that no count is kept for is given up on at once when `full`. */
  ghost predicate Treated(w: Walk, attempts: map<Segment, nat>, s: Segment, readable: bool, full: bool) {
    if readable then s in w.read && s !in w.attempts && s !in w.failed && s !in w.gaveUp
    else if s in attempts then
      && s in w.attempts && w.attempts[s] == attempts[s] + 1
      && (s in w.failed <==> attempts[s] < 2) && (s in w.gaveUp <==> attempts[s] >= 2)
    else if full then s !in w.attempts && s !in w.failed && s in w.gaveUp
    else s in w.attempts && w.attempts[s] == 1 && s in w.failed && s !in w.gaveUp
  }

  ghost predicate Untouched(w: Walk, attempts: map<Segment, nat>, s: Segment) {
    && s !in w.read && s !in w.failed && s !in w.gaveUp
    && (s in w.attempts <==> s in attempts) && (s in attempts ==> w.attempts[s] == attempts[s])
  }

  lemma OneStepTreats(w: Walk, attempts: map<Segment, nat>, s: Segment, readable: set<Segment>)
    requires Untouched(w, attempts, s)
    ensures Treated(WalkOne(w, s, readable), attempts, s, s in readable, |w.attempts| >= 1024)
  {
  }

  lemma OtherStepTreats(w: Walk, next: Walk, attempts: map<Segment, nat>, s: Segment, other: Segment,
                        readable: set<Segment>, known: bool, full: bool)
    requires s != other && next == WalkOne(w, other, readable) && Treated(w, attempts, s, known, full)
    ensures Treated(next, attempts, s, known, full)
  {
  }

  lemma OtherStepLeaves(w: Walk, next: Walk, attempts: map<Segment, nat>, s: Segment, other: Segment, readable: set<Segment>)
    requires s != other && next == WalkOne(w, other, readable) && Untouched(w, attempts, s)
    ensures Untouched(next, attempts, s)
  {
  }

  lemma {:induction false} WalkLeaves(kept: seq<Segment>, readable: set<Segment>, attempts: map<Segment, nat>, n: nat, i: nat)
    requires Ascending(kept) && n <= i < |kept|
    ensures Untouched(WalkUpTo(kept, readable, attempts, n), attempts, kept[i])
  {
    if n > 0 {
      WalkLeaves(kept, readable, attempts, n - 1, i);
      OtherStepLeaves(WalkUpTo(kept, readable, attempts, n - 1), WalkUpTo(kept, readable, attempts, n), attempts,
                      kept[i], kept[n - 1], readable);
    }
  }

  lemma ReachedIsTreated(kept: seq<Segment>, readable: set<Segment>, attempts: map<Segment, nat>, i: nat)
    requires Ascending(kept) && i < |kept|
    ensures Treated(WalkUpTo(kept, readable, attempts, i + 1), attempts, kept[i], kept[i] in readable,
                    |WalkUpTo(kept, readable, attempts, i).attempts| >= 1024)
  {
    WalkLeaves(kept, readable, attempts, i, i);
    OneStepTreats(WalkUpTo(kept, readable, attempts, i), attempts, kept[i], readable);
  }

  lemma {:induction false} StaysTreated(kept: seq<Segment>, readable: set<Segment>, attempts: map<Segment, nat>,
                                        n: nat, i: nat, s: Segment, known: bool, full: bool)
    requires Ascending(kept) && i < n <= |kept| && s == kept[i]
    requires Treated(WalkUpTo(kept, readable, attempts, i + 1), attempts, s, known, full)
    ensures Treated(WalkUpTo(kept, readable, attempts, n), attempts, s, known, full)
  {
    if i < n - 1 {
      StaysTreated(kept, readable, attempts, n - 1, i, s, known, full);
      OtherStepTreats(WalkUpTo(kept, readable, attempts, n - 1), WalkUpTo(kept, readable, attempts, n), attempts,
                      s, kept[n - 1], readable, known, full);
    }
  }

  /** The read of a pass, segment by segment; the list of counts is full at
      1024 entries. */
  lemma PassTreatsEach(r: Reading, attempts: map<Segment, nat>, i: nat)
    requires Ascending(r.segments) && i < |Kept(r)|
    ensures var w := WalkOf(r, attempts);
            if i < Consumed(r) then
              Treated(w, attempts, Kept(r)[i], Kept(r)[i] in r.readable, |WalkUpTo(Kept(r), r.readable, attempts, i).attempts| >= 1024)
            else Untouched(w, attempts, Kept(r)[i])
  {
    KeptIsOrdered(r.segments, r.applied, |r.segments|);
    if i < Consumed(r) {
      ReachedIsTreated(Kept(r), r.readable, attempts, i);
      StaysTreated(Kept(r), r.readable, attempts, Consumed(r), i, Kept(r)[i], Kept(r)[i] in r.readable,
                   |WalkUpTo(Kept(r), r.readable, attempts, i).attempts| >= 1024);
    } else {
      WalkLeaves(Kept(r), r.readable, attempts, Consumed(r), i);
    }
  }

  // --------------------------------------------------- the STAGE-C decision

  /** How the replay call returned: an error, or a batch with its two refusal
      flags. */
  datatype ReplayResult = Error | Batch(stoppedForDisk: bool, stoppedForFrameCap: bool)

  datatype BootReplayPass = Read | Refused | Failed

  function PassOf(result: ReplayResult): BootReplayPass {
    match result
    case Error => Failed
    case Batch(disk, cap) => if disk || cap then Refused else Read
  }

  datatype StageCConfirm = HeldForLaneRefold | HeldRefused | HeldFailed | ArchiveStaged

  function StageCDecision(pass: BootReplayPass, laneRefolds: bool): StageCConfirm {
    match pass
    case Failed => HeldFailed
    case Refused => HeldRefused
    case Read => if laneRefolds then HeldForLaneRefold else ArchiveStaged
  }

  /** A folder emptied into another, as far as renames succeed. */
  function Emptied(d: Disk, from: Folder, to: Folder, ok: set<Segment>): Disk {
    map s | s in d :: if d[s] == from && s in ok then to else d[s]
  }

  // --------------------------------------------------- the program

  datatype Path = Path(folder: Folder, seg: Segment)

  /** The files of the four folders. A rename replaces whatever has the target
      name. */
  type Files = map<Path, seq<byte>>

  function RenamedFile(files: Files, from: Path, to: Path): Files
    requires from in files
  {
    (files - {from})[to := files[from]]
  }

  /** Every segment's one file stands where the disk says, with these contents,
      and there is no other file. */
  ghost predicate Matches(files: Files, d: Disk, contents: map<Segment, seq<byte>>) {
    && contents.Keys == d.Keys
    && (forall s | s in d :: Path(d[s], s) in files && files[Path(d[s], s)] == contents[s])
    && forall p | p in files :: p.seg in d && d[p.seg] == p.folder
  }

  /** While no two folders share a name a rename overwrites nothing: it moves
      one file, and no byte of any segment is lost. */
  lemma RenameMatches(files: Files, d: Disk, contents: map<Segment, seq<byte>>, s: Segment, to: Folder)
    requires Matches(files, d, contents) && s in d
    ensures Matches(RenamedFile(files, Path(d[s], s), Path(to, s)), d[s := to], contents)
  {
  }

  /** The segments a listing names whose rename succeeds. */
  function Listed(staged: seq<Segment>, ok: set<Segment>): set<Segment> {
    set s | s in staged && s in ok
  }

  lemma EmptiedMore(d: Disk, staged: seq<Segment>, ok: set<Segment>, i: nat)
    requires i < |staged|
    ensures Apply(Emptied(d, Staged, Archived, Listed(staged[..i], ok)), Move(staged[i], {Staged}, Archived), ok)
         == Emptied(d, Staged, Archived, Listed(staged[..i + 1], ok))
  {
    assert staged[..i + 1] == staged[..i] + [staged[i]];
    assert Listed(staged[..i + 1], ok) == Listed(staged[..i], ok) + (if staged[i] in ok then {staged[i]} else {});
  }

  class Wal {
    var files: Files
    var attempts: map<Segment, nat>

    /** Where each segment is, and its bytes. */
    ghost var place: Disk
    ghost var contents: map<Segment, seq<byte>>

    ghost predicate Valid()
      reads this
    {
      Matches(files, place, contents)
    }

    method Rename(m: Move, ok: set<Segment>)
      requires Valid()
      modifies this`files, this`place
      ensures Valid() && place == Apply(old(place), m, ok)
    {
      if m.seg in ok && exists f | f in m.from :: Path(f, m.seg) in files {
        var f :| f in m.from && Path(f, m.seg) in files;
        assert Path(f, m.seg).folder == place[m.seg];
        RenameMatches(files, place, contents, m.seg, m.to);
        files := RenamedFile(files, Path(f, m.seg), Path(m.to, m.seg));
        place := place[m.seg := m.to];
      }
    }

    /** Sets the applied segments aside, each with the index of the kept one
        that follows it. */
    method SplitApplied(segments: seq<Segment>, applied: set<Segment>) returns (kept: seq<Segment>, skips: seq<Skip>)
      ensures kept == KeptUpTo(segments, applied, |segments|)
      ensures skips == SkipsUpTo(segments, applied, |segments|)
      ensures |kept| + |skips| == |segments| && (forall s | s in segments && s !in applied :: s in kept)
      ensures segments != [] ==> kept != [] && kept[|kept| - 1] == segments[|segments| - 1]
    {
      kept, skips := [], [];
      for i := 0 to |segments|
        invariant kept == KeptUpTo(segments, applied, i)
        invariant skips == SkipsUpTo(segments, applied, i)
        invariant |kept| + |skips| == i && (forall s | s in segments[..i] && s !in applied :: s in kept)
        invariant i == |segments| > 0 ==> kept != [] && kept[|kept| - 1] == segments[i - 1]
      {
        assert segments[..i + 1] == segments[..i] + [segments[i]];
        if IsSkipped(segments, applied, i) {
          skips := skips + [Skip(segments[i], |kept|)];
        } else {
          kept := kept + [segments[i]];
        }
      }
    }

    method NoteReadFailure(s: Segment) returns (n: nat)
      modifies this`attempts
      ensures (attempts, n) == NoteFailure(old(attempts), s)
    {
      if s in attempts {
        attempts := attempts[s := attempts[s] + 1];
        return attempts[s];
      }
      if |attempts| >= SEGMENT_READ_FAILURES_MAX {
        return WAL_REPLAY_IO_RETRY_CAP;
      }
      attempts := attempts[s := 1];
      return 1;
    }

    /** Reads kept segments up to the first stop. */
    method ReadSegments(kept: seq<Segment>, stopBefore: set<Segment>, readable: set<Segment>)
      returns (consumed: nat, walk: Walk)
      modifies this`attempts
      ensures consumed == StopFrom(kept, stopBefore, 0)
      ensures walk == WalkUpTo(kept, readable, old(attempts), consumed) && attempts == walk.attempts
    {
      var read: seq<Segment>, failed: set<Segment>, gaveUp: set<Segment> := [], {}, {};
      consumed := 0;
      while consumed < |kept|
        invariant consumed <= |kept|
        invariant StopFrom(kept, stopBefore, 0) == StopFrom(kept, stopBefore, consumed)
        invariant Walk(read, failed, gaveUp, attempts) == WalkUpTo(kept, readable, old(attempts), consumed)
      {
        var s := kept[consumed];
        if consumed > 0 && s in stopBefore {
          break;
        }
        if s in readable {
          attempts := attempts - {s};
          read := read + [s];
        } else {
          var n := NoteReadFailure(s);
          if n < WAL_REPLAY_IO_RETRY_CAP {
            failed := failed + {s};
          } else {
            gaveUp := gaveUp + {s};
          }
        }
        consumed := consumed + 1;
      }
      walk := Walk(read, failed, gaveUp, attempts);
    }

    method MoveSkipped(skips: seq<Skip>, consumed: nat, ok: set<Segment>)
      requires Valid()
      modifies this`files, this`place
      ensures Valid() && place == ApplyAll(old(place), SkipMoves(skips, consumed, |skips|), ok)
    {
      for i := 0 to |skips|
        invariant Valid() && place == ApplyAll(old(place), SkipMoves(skips, consumed, i), ok)
      {
        assert SkipMoves(skips, consumed, i + 1)[..i] == SkipMoves(skips, consumed, i);
        if skips[i].nextKept > consumed {
          Rename(Move(skips[i].seg, {Staged}, Live), ok);
        } else {
          Rename(Move(skips[i].seg, {Live, Staged}, Archived), ok);
        }
      }
    }

    method RestoreUnread(kept: seq<Segment>, consumed: nat, failed: set<Segment>, ok: set<Segment>)
      requires Valid()
      modifies this`files, this`place
      ensures Valid() && place == ApplyAll(old(place), RestoreMoves(kept, consumed, failed, |kept|), ok)
    {
      for i := 0 to |kept|
        invariant Valid() && place == ApplyAll(old(place), RestoreMoves(kept, consumed, failed, i), ok)
      {
        if i >= consumed || kept[i] in failed {
          var m := Move(kept[i], {Staged}, Live);
          assert (RestoreMoves(kept, consumed, failed, i) + [m])[..|RestoreMoves(kept, consumed, failed, i)|]
              == RestoreMoves(kept, consumed, failed, i);
          Rename(m, ok);
        }
      }
    }

    method StageRead(kept: seq<Segment>, consumed: nat, failed: set<Segment>, ok: set<Segment>)
      requires Valid() && consumed <= |kept|
      modifies this`files, this`place
      ensures Valid() && place == ApplyAll(old(place), StageMoves(kept, consumed, failed, |kept|), ok)
    {
      for i := 0 to consumed
        invariant Valid() && place == ApplyAll(old(place), StageMoves(kept, consumed, failed, i), ok)
      {
        if kept[i] !in failed {
          var m := Move(kept[i], {Live}, Staged);
          assert (StageMoves(kept, consumed, failed, i) + [m])[..|StageMoves(kept, consumed, failed, i)|]
              == StageMoves(kept, consumed, failed, i);
          Rename(m, ok);
        }
      }
      StagingEnds(kept, consumed, failed, |kept|);
    }

    /** One replay pass over a listing. */
    method ReplayPass(r: Reading, ok: set<Segment>) returns (walk: Walk)
      requires Valid() && IsListing(place, r.segments)
      modifies this`files, this`place, this`attempts
      ensures walk == WalkOf(r, old(attempts)) && attempts == walk.attempts
      ensures Valid() && place == ApplyAll(old(place), PassMoves(r, walk.failed), ok)
      ensures ArchivesOnlySkipped(r.segments, r.applied, place)
    {
      var kept, skips := SplitApplied(r.segments, r.applied);
      var consumed;
      consumed, walk := ReadSegments(kept, r.stopBefore, r.readable);
      PassInThree(place, r, walk.failed, ok);
      PassArchivesOnlySkipped(place, r, walk.failed, ok);
      MoveSkipped(skips, consumed, ok);
      RestoreUnread(kept, consumed, walk.failed, ok);
      StageRead(kept, consumed, walk.failed, ok);
    }

    /** Archives everything listed in `replaying/`; a listing that fails lists
        nothing. */
    method ConfirmReplayed(staged: seq<Segment>, ok: set<Segment>)
      requires Valid()
      modifies this`files, this`place
      ensures Valid() && place == Emptied(old(place), Staged, Archived, Listed(staged, ok))
    {
      assert Emptied(place, Staged, Archived, Listed(staged[..0], ok)) == place;
      for i := 0 to |staged|
        invariant Valid() && place == Emptied(old(place), Staged, Archived, Listed(staged[..i], ok))
      {
        EmptiedMore(old(place), staged, ok, i);
        Rename(Move(staged[i], {Staged}, Archived), ok);
      }
      assert staged[..|staged|] == staged;
    }

    /** The step after the boot's replay call, whatever that call returned. */
    method SettleBootReplayStaging(result: ReplayResult, laneRefolds: bool, staged: seq<Segment>, ok: set<Segment>)
      returns (decision: StageCConfirm)
      requires Valid()
      modifies this`files, this`place
      ensures decision == StageCDecision(PassOf(result), laneRefolds)
      ensures decision == HeldFailed <==> result == Error
      ensures decision == HeldRefused <==> result.Batch? && (result.stoppedForDisk || result.stoppedForFrameCap)
      ensures decision == HeldForLaneRefold <==> result == Batch(false, false) && laneRefolds
      ensures Valid()
      ensures place == if result == Batch(false, false) && !laneRefolds then Emptied(old(place), Staged, Archived, Listed(staged, ok))
                         else old(place)
    {
      decision := StageCDecision(PassOf(result), laneRefolds);
      if decision == ArchiveStaged {
        ConfirmReplayed(staged, ok);
      }
    }
  }

  lemma {:induction false} StagingEnds(kept: seq<Segment>, consumed: nat, failed: set<Segment>, n: nat)
    requires consumed <= n <= |kept|
    ensures StageMoves(kept, consumed, failed, n) == StageMoves(kept, consumed, failed, consumed)
  {
    if n > consumed {
      StagingEnds(kept, consumed, failed, n - 1);
    }
  }
}
