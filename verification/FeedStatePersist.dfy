/** The feed toggle kept across restarts: any number of writers at once, each
    with a temp file of its own, and a rename that decides. */
module FeedStatePersist {
  import opened Wrappers
  import opened Decimal
  import opened FileSystem

  datatype PersistedFeedState = PersistedFeedState(dhanEnabled: bool, updatedAtIst: string)

  /** The bytes of a file, as far as the reader can tell: one whole snapshot,
      or anything else. */
  datatype FeedFile = Json(state: PersistedFeedState) | Torn

  const FEED_STATE_FILENAME := "feed-state.json"

  /** A name per write: process id and nanosecond clock. */
  function UniqueTmpName(pid: nat, nanos: nat): string {
    FEED_STATE_FILENAME + "." + ToDecimal(pid) + "." + ToDecimal(nanos) + ".tmp"
  }

  predicate IsTmpName(n: string) {
    |n| > |FEED_STATE_FILENAME| && n[..|FEED_STATE_FILENAME|] == FEED_STATE_FILENAME
  }

  lemma NoDotBefore(a: string, x: string, k: int)
    requires AllDigits(a) && 0 <= k < |a|
    ensures (a + "." + x)[k] != '.'
  {
  }

  lemma DotSplits(a: string, b: string, x: string, y: string)
    requires AllDigits(a) && AllDigits(b) && a + "." + x == b + "." + y
    ensures a == b && x == y
  {
    var s, t := a + "." + x, b + "." + y;
    assert s[|a|] == '.' && t[|b|] == '.';
    if |a| < |b| {
      NoDotBefore(b, y, |a|);
    } else if |b| < |a| {
      NoDotBefore(a, x, |b|);
    } else {
      assert s[..|a|] == a && t[..|b|] == b && s[|a| + 1..] == x && t[|b| + 1..] == y;
    }
  }

  /** Two writes that differ in process or in clock have different names. */
  lemma TmpNamesDiffer(pid: nat, nanos: nat, pid': nat, nanos': nat)
    ensures IsTmpName(UniqueTmpName(pid, nanos)) && UniqueTmpName(pid, nanos) != FEED_STATE_FILENAME
    ensures UniqueTmpName(pid, nanos) == UniqueTmpName(pid', nanos') ==> pid == pid' && nanos == nanos'
  {
    TmpNameParts(pid, nanos);
    TmpNameParts(pid', nanos');
    if UniqueTmpName(pid, nanos) == UniqueTmpName(pid', nanos') {
      var x, y := ToDecimal(nanos) + ".tmp", ToDecimal(nanos') + ".tmp";
      DotSplits(ToDecimal(pid), ToDecimal(pid'), x, y);
      assert x[..|x| - 4] == ToDecimal(nanos) && y[..|y| - 4] == ToDecimal(nanos');
    }
  }

  lemma TmpNameParts(pid: nat, nanos: nat)
    ensures var name, head := UniqueTmpName(pid, nanos), |FEED_STATE_FILENAME| + 1;
            IsTmpName(name) && |name| > head && name[head..] == ToDecimal(pid) + "." + (ToDecimal(nanos) + ".tmp")
  {
    assert UniqueTmpName(pid, nanos) == FEED_STATE_FILENAME + "." + (ToDecimal(pid) + "." + (ToDecimal(nanos) + ".tmp"));
    assert UniqueTmpName(pid, nanos)[..|FEED_STATE_FILENAME|] == FEED_STATE_FILENAME;
  }

  ghost function Feed(): Protocol<FeedFile> {
    Protocol((n: string) => n == FEED_STATE_FILENAME, (n: string) => IsTmpName(n), (n: string, data: FeedFile) => data.Json?)
  }

  // -------------------------------------------------- writers and steps

  /** Where a writer is in `persist_feed_state`. */
  datatype Pc = Start | FolderMade | Opened | Written | Synced | CleaningUp | Returned(ok: bool) | Died

  datatype Writer = Writer(temp: string, state: PersistedFeedState, pc: Pc)

  /** The disk, every writer so far, and for the statement alone: what was
      ever renamed into place, and the last of it since the last crash. */
  datatype System = System(disk: Disk<FeedFile>, writers: seq<Writer>, renamed: set<PersistedFeedState>, last: Option<PersistedFeedState>)

  /** One step of writer `i` and whether its system call succeeds, the arrival
      of a writer, or a crash of the machine. */
  datatype Label =
    | Proceed(i: nat, ok: bool)
    | Arrive(temp: string, state: PersistedFeedState)
    | PowerLoss(left: Disk<FeedFile>)

  ghost predicate Enabled(s: System, l: Label) {
    match l
    case Proceed(i, _) => i < |s.writers| && !s.writers[i].pc.Returned? && !s.writers[i].pc.Died?
    case Arrive(temp, _) => IsTmpName(temp) && forall j | 0 <= j < |s.writers| :: s.writers[j].temp != temp
    case PowerLoss(left) => CrashTo(s.disk, left)
  }

  /** The system call a writer makes next, and where it goes from there. */
  ghost function Call(w: Writer, ok: bool): (Op<FeedFile>, Pc) {
    match w.pc
    case Start => (MakeFolder, if ok then FolderMade else Returned(false))
    case FolderMade => (OpenTemp(w.temp), if ok then Opened else CleaningUp)
    case Opened => (WriteTemp(w.temp, if ok then Json(w.state) else Torn), if ok then Written else CleaningUp)
    case Written => (SyncTemp(w.temp), if ok then Synced else CleaningUp)
    case Synced => (Promote(w.temp, FEED_STATE_FILENAME), if ok then Returned(true) else CleaningUp)
    case _ => (Remove(w.temp), Returned(false))
  }

  /** Whether the call changes the disk: a failed one does not, except that a
      failed write may leave part of its data. */
  ghost predicate Acts(w: Writer, ok: bool) {
    ok || w.pc.Opened?
  }

  ghost function Next(s: System, l: Label): System
    requires Inv(s) && Enabled(s, l)
  {
    match l
    case Proceed(i, ok) =>
      var w := s.writers[i];
      var (op, pc) := Call(w, ok);
      AllowedStep(s, i, ok);
      var s := s.(writers := s.writers[i := w.(pc := pc)]);
      if !Acts(w, ok) then s
      else if op.Promote? then
        s.(disk := Apply(Feed(), s.disk, op, Torn), renamed := s.renamed + {w.state}, last := Some(w.state))
      else s.(disk := Apply(Feed(), s.disk, op, Torn))
    case Arrive(temp, state) => s.(writers := s.writers + [Writer(temp, state, Start)])
    case PowerLoss(left) =>
      s.(disk := left, last := None, writers := seq(|s.writers|, i requires 0 <= i < |s.writers| => Stopped(s.writers[i])))
  }

  ghost function Stopped(w: Writer): Writer {
    if w.pc.Returned? then w else w.(pc := Died)
  }

  // ---------------------------------------------------- what always holds

  /** What a writer can rely on at each point: its temp file is there, with
      its own snapshot once written, on the disk once synced. */
  ghost predicate Holds(d: Disk<FeedFile>, w: Writer)
    requires Sound(d)
  {
    match w.pc
    case FolderMade => d.present
    case Opened => d.present && |Lookup(d, w.temp)| == 1
    case Written => d.present && |Lookup(d, w.temp)| == 1 && Lookup(d, w.temp)[0].data == Json(w.state)
    case Synced => d.present && Lookup(d, w.temp) == [File(Json(w.state), true)]
    case _ => true
  }

  /** In every directory state a crash may bring back, the final name holds
      one renamed snapshot, whole and on the disk. */
  ghost predicate OnlyRenamed(d: Disk<FeedFile>, renamed: set<PersistedFeedState>)
    requires Sound(d)
  {
    forall i | 0 <= i < |d.dirs| && FEED_STATE_FILENAME in d.dirs[i] ::
      d.files[d.dirs[i][FEED_STATE_FILENAME]].data.Json? && d.files[d.dirs[i][FEED_STATE_FILENAME]].data.state in renamed
  }

  ghost predicate Inv(s: System) {
    && Safe(Feed(), s.disk)
    && (forall i | 0 <= i < |s.writers| :: IsTmpName(s.writers[i].temp) && Holds(s.disk, s.writers[i]))
    && (forall i, j | 0 <= i < j < |s.writers| :: s.writers[i].temp != s.writers[j].temp)
    && OnlyRenamed(s.disk, s.renamed)
    && (s.last.Some? ==> Lookup(s.disk, FEED_STATE_FILENAME) == [File(Json(s.last.value), true)])
  }

  /** A machine with no feed-state folder, and one whose file holds a synced
      snapshot, both start well. */
  lemma StartsWell(state: PersistedFeedState)
    ensures Inv(System(Disk([], [map[]], false, false), [], {}, None))
    ensures Inv(System(Disk([File(Json(state), true)], [map[FEED_STATE_FILENAME := 0]], true, true), [], {state}, Some(state)))
  {
    assert !IsTmpName(FEED_STATE_FILENAME);
  }

  lemma AllowedStep(s: System, i: nat, ok: bool)
    requires Inv(s) && Enabled(s, Proceed(i, ok))
    ensures Acts(s.writers[i], ok) ==> Allowed(Feed(), s.disk, Call(s.writers[i], ok).0)
  {
    var w := s.writers[i];
    assert Holds(s.disk, w) && IsTmpName(w.temp);
  }

  /** A step touches the writer's own temp name and, by its rename, the final
      name: no writer ever touches another's temp file. */
  lemma StepTouchesOwnNames(d: Disk<FeedFile>, w: Writer, ok: bool, n: string)
    requires Safe(Feed(), d) && IsTmpName(w.temp) && Allowed(Feed(), d, Call(w, ok).0)
    requires n != w.temp && (w.pc.Synced? ==> n != FEED_STATE_FILENAME)
    ensures Sound(Apply(Feed(), d, Call(w, ok).0, Torn))
    ensures Lookup(Apply(Feed(), d, Call(w, ok).0, Torn), n) == Lookup(d, n)
    ensures d.present ==> Apply(Feed(), d, Call(w, ok).0, Torn).present
  {
    StepIsSafe(Feed(), d, Call(w, ok).0, Torn);
    OtherNamesKeepTheirData(Feed(), d, Call(w, ok).0, Torn, n);
  }

  lemma OwnProgress(d: Disk<FeedFile>, w: Writer, ok: bool)
    requires Safe(Feed(), d) && IsTmpName(w.temp) && Acts(w, ok) && Allowed(Feed(), d, Call(w, ok).0) && Holds(d, w)
    ensures Safe(Feed(), Apply(Feed(), d, Call(w, ok).0, Torn))
    ensures Holds(Apply(Feed(), d, Call(w, ok).0, Torn), w.(pc := Call(w, ok).1))
    ensures w.pc.Synced? ==> Lookup(Apply(Feed(), d, Call(w, ok).0, Torn), FEED_STATE_FILENAME) == [File(Json(w.state), true)]
  {
    StepIsSafe(Feed(), d, Call(w, ok).0, Torn);
  }

  lemma OnlyRenamedAfterStep(d: Disk<FeedFile>, w: Writer, ok: bool, renamed: set<PersistedFeedState>)
    requires Safe(Feed(), d) && IsTmpName(w.temp) && Acts(w, ok) && Allowed(Feed(), d, Call(w, ok).0) && Holds(d, w)
    requires OnlyRenamed(d, renamed)
    ensures var d' := Apply(Feed(), d, Call(w, ok).0, Torn);
            Sound(d') && OnlyRenamed(d', if w.pc.Synced? then renamed + {w.state} else renamed)
  {
    StepIsSafe(Feed(), d, Call(w, ok).0, Torn);
    var op := Call(w, ok).0;
    if op.WriteTemp? || op.SyncTemp? || (op.OpenTemp? && w.temp in Now(d)) {
      forall i | 0 <= i < |d.dirs| && FEED_STATE_FILENAME in d.dirs[i]
        ensures d.dirs[i][FEED_STATE_FILENAME] != Now(d)[w.temp]
      {
        assert Feed().isFinal(FEED_STATE_FILENAME) && Feed().isTemp(w.temp);
      }
    }
  }

  lemma ProceedKeeps(s: System, i: nat, ok: bool)
    requires Inv(s) && Enabled(s, Proceed(i, ok))
    ensures Inv(Next(s, Proceed(i, ok)))
  {
    var w, s' := s.writers[i], Next(s, Proceed(i, ok));
    AllowedStep(s, i, ok);
    if Acts(w, ok) {
      OwnProgress(s.disk, w, ok);
      OnlyRenamedAfterStep(s.disk, w, ok, s.renamed);
      forall j | 0 <= j < |s.writers| && j != i ensures Holds(s'.disk, s.writers[j]) {
        assert IsTmpName(s.writers[j].temp) && s.writers[j].temp != w.temp;
        StepTouchesOwnNames(s.disk, w, ok, s.writers[j].temp);
      }
      if !w.pc.Synced? {
        StepTouchesOwnNames(s.disk, w, ok, FEED_STATE_FILENAME);
      }
    }
  }

  lemma PowerLossKeeps(s: System, left: Disk<FeedFile>)
    requires Inv(s) && CrashTo(s.disk, left)
    ensures Inv(Next(s, PowerLoss(left)))
  {
    CrashIsSafe(Feed(), s.disk, left);
    if left.present {
      var i :| 0 <= i < |s.disk.dirs| && left.dirs == [s.disk.dirs[i]];
      if FEED_STATE_FILENAME in left.dirs[0] {
        assert Feed().isFinal(FEED_STATE_FILENAME);
        assert s.disk.files[s.disk.dirs[i][FEED_STATE_FILENAME]].synced;
      }
    }
  }

  /** Every step, arrival and crash keeps all of it. */
  lemma NextKeepsInv(s: System, l: Label)
    requires Inv(s) && Enabled(s, l)
    ensures Inv(Next(s, l))
  {
    match l
    case Proceed(i, ok) => ProceedKeeps(s, i, ok);
    case Arrive(_, _) =>
    case PowerLoss(left) => PowerLossKeeps(s, left);
  }

  /** `s'` is reached from `s` by these labels, in this order. */
  ghost predicate Runs(s: System, labels: seq<Label>, s': System)
    decreases labels
  {
    if labels == [] then s == s'
    else Inv(s) && Enabled(s, labels[0]) && Runs(Next(s, labels[0]), labels[1..], s')
  }

  /** `load_feed_state`: a missing or torn file reads as nothing. */
  ghost function Load(d: Disk<FeedFile>): Option<PersistedFeedState>
    requires Sound(d)
  {
    if FEED_STATE_FILENAME in Now(d) && d.files[Now(d)[FEED_STATE_FILENAME]].data.Json?
    then Some(d.files[Now(d)[FEED_STATE_FILENAME]].data.state) else None
  }

  /** Under every interleaving, with failures and crashes anywhere, the final
      path is absent or holds one whole snapshot that some writer renamed;
      without a crash it is the last one renamed. */
  lemma {:induction false} FinalPathIsNeverTorn(s: System, labels: seq<Label>, s': System)
    requires Inv(s) && Runs(s, labels, s')
    ensures Inv(s')
    ensures FEED_STATE_FILENAME in Now(s'.disk) ==>
              exists state :: state in s'.renamed && Lookup(s'.disk, FEED_STATE_FILENAME) == [File(Json(state), true)]
                           && Load(s'.disk) == Some(state)
    ensures s'.last.Some? ==> Load(s'.disk) == s'.last
    decreases labels
  {
    if labels == [] {
      if FEED_STATE_FILENAME in Now(s'.disk) {
        assert Feed().isFinal(FEED_STATE_FILENAME);
        var file := s'.disk.files[s'.disk.dirs[|s'.disk.dirs| - 1][FEED_STATE_FILENAME]];
        assert file.synced && file.data.state in s'.renamed;
        assert Lookup(s'.disk, FEED_STATE_FILENAME) == [File(Json(file.data.state), true)];
      }
    } else {
      NextKeepsInv(s, labels[0]);
      FinalPathIsNeverTorn(Next(s, labels[0]), labels[1..], s');
    }
  }

  /** Only snapshots of writers that arrived are ever renamed. */
  ghost predicate FromWriters(s: System, initial: set<PersistedFeedState>) {
    forall state | state in s.renamed - initial :: exists i :: 0 <= i < |s.writers| && s.writers[i].state == state && s.writers[i].pc == Returned(true)
  }

  lemma {:induction false} RenamedComesFromWriters(s: System, labels: seq<Label>, s': System, initial: set<PersistedFeedState>)
    requires Inv(s) && Runs(s, labels, s') && FromWriters(s, initial)
    ensures FromWriters(s', initial)
    decreases labels
  {
    if labels != [] {
      var m := Next(s, labels[0]);
      NextKeepsInv(s, labels[0]);
      forall state | state in m.renamed - initial
        ensures exists i :: 0 <= i < |m.writers| && m.writers[i].state == state && m.writers[i].pc == Returned(true)
      {
        if state in s.renamed {
          assert state in s.renamed - initial;
          var i :| 0 <= i < |s.writers| && s.writers[i].state == state && s.writers[i].pc == Returned(true);
          assert m.writers[i] == s.writers[i];
        } else {
          assert m.writers[labels[0].i].pc == Returned(true);
        }
      }
      RenamedComesFromWriters(m, labels[1..], s', initial);
    }
  }

  /** A write that returned success is what a reader finds until another
      rename or a crash. */
  lemma SuccessIsVisible(s: System, i: nat)
    requires Inv(s) && Enabled(s, Proceed(i, true)) && s.writers[i].pc.Synced?
    ensures Next(s, Proceed(i, true)).writers[i].pc == Returned(true)
    ensures Sound(Next(s, Proceed(i, true)).disk) && Load(Next(s, Proceed(i, true)).disk) == Some(s.writers[i].state)
  {
    NextKeepsInv(s, Proceed(i, true));
  }

  // ---------------------------------------------------- a writer left alone

  /** The calls a writer has still to make. */
  ghost function CallsLeft(pc: Pc): nat {
    match pc
    case Start => 5
    case FolderMade => 4
    case Opened => 3
    case Written => 2
    case Synced => 1
    case _ => 0
  }

  lemma CallSucceeds(s: System, i: nat)
    requires Inv(s) && i < |s.writers| && CallsLeft(s.writers[i].pc) > 0
    ensures Enabled(s, Proceed(i, true)) && Inv(Next(s, Proceed(i, true)))
    ensures var next := Next(s, Proceed(i, true)); var w := s.writers[i];
            && |next.writers| == |s.writers| && next.writers[i].temp == w.temp && next.writers[i].state == w.state
            && (if w.pc.Synced? then next.writers[i].pc == Returned(true) && next.last == Some(w.state)
                else CallsLeft(next.writers[i].pc) == CallsLeft(w.pc) - 1)
            && (w.pc.Synced? ==> Lookup(next.disk, w.temp) == [])
  {
    NextKeepsInv(s, Proceed(i, true));
    AllowedStep(s, i, true);
  }

  /** Wherever a writer is, if its remaining calls succeed and nothing else
      happens it returns success, its snapshot is what a reader finds, and its
      temp file is gone. */
  lemma {:induction false} LoneWriterSucceeds(s: System, i: nat) returns (labels: seq<Label>, s': System)
    requires Inv(s) && i < |s.writers| && CallsLeft(s.writers[i].pc) > 0
    ensures Runs(s, labels, s') && |labels| == CallsLeft(s.writers[i].pc)
    ensures forall l | l in labels :: l == Proceed(i, true)
    ensures i < |s'.writers| && s'.writers[i].pc == Returned(true)
    ensures Sound(s'.disk) && Load(s'.disk) == Some(s.writers[i].state) && Lookup(s'.disk, s.writers[i].temp) == []
    decreases CallsLeft(s.writers[i].pc)
  {
    var next := Next(s, Proceed(i, true));
    CallSucceeds(s, i);
    if s.writers[i].pc.Synced? {
      labels, s' := [Proceed(i, true)], next;
      assert labels[1..] == [];
      FinalPathIsNeverTorn(next, [], next);
    } else {
      var rest;
      rest, s' := LoneWriterSucceeds(next, i);
      labels := [Proceed(i, true)] + rest;
      assert labels[1..] == rest;
    }
  }

  /** A call that fails after the folder is made sends the writer to clean up:
      it removes its temp file, returns an error, and the final path is as it
      was. */
  lemma FailedWriterCleansUp(s: System, i: nat)
    requires Inv(s) && i < |s.writers| && 1 <= CallsLeft(s.writers[i].pc) <= 4
    ensures Enabled(s, Proceed(i, false)) && Inv(Next(s, Proceed(i, false)))
    ensures Enabled(Next(s, Proceed(i, false)), Proceed(i, true))
    ensures var after := Next(Next(s, Proceed(i, false)), Proceed(i, true)); var w := s.writers[i];
            && Inv(after) && i < |after.writers| && after.writers[i].pc == Returned(false)
            && Lookup(after.disk, w.temp) == [] && Load(after.disk) == Load(s.disk) && after.renamed == s.renamed
  {
    FailureStartsCleanUp(s, i);
    CleanUpRemoves(Next(s, Proceed(i, false)), i);
  }

  lemma FailureStartsCleanUp(s: System, i: nat)
    requires Inv(s) && i < |s.writers| && 1 <= CallsLeft(s.writers[i].pc) <= 4
    ensures Enabled(s, Proceed(i, false)) && Inv(Next(s, Proceed(i, false)))
    ensures var next := Next(s, Proceed(i, false));
            && |next.writers| == |s.writers| && next.writers[i] == s.writers[i].(pc := CleaningUp)
            && Load(next.disk) == Load(s.disk) && next.renamed == s.renamed
  {
    NextKeepsInv(s, Proceed(i, false));
    AllowedStep(s, i, false);
    if s.writers[i].pc.Opened? {
      StepTouchesOwnNames(s.disk, s.writers[i], false, FEED_STATE_FILENAME);
    }
  }

  lemma CleanUpRemoves(s: System, i: nat)
    requires Inv(s) && i < |s.writers| && s.writers[i].pc == CleaningUp
    ensures Enabled(s, Proceed(i, true)) && Inv(Next(s, Proceed(i, true)))
    ensures var next := Next(s, Proceed(i, true)); var w := s.writers[i];
            && i < |next.writers| && next.writers[i].pc == Returned(false)
            && Lookup(next.disk, w.temp) == [] && Load(next.disk) == Load(s.disk) && next.renamed == s.renamed
  {
    NextKeepsInv(s, Proceed(i, true));
    AllowedStep(s, i, true);
    StepTouchesOwnNames(s.disk, s.writers[i], true, FEED_STATE_FILENAME);
  }
}
