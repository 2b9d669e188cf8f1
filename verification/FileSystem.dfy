/** One folder on a journaled disk, with what is durable and what a crash may
    still take back: the ground the repository's temp-file, fsync, rename and
    folder-fsync protocols stand on. */
module FileSystem {

  /** An inode. `synced` says that its data is on the disk; the data of a file
      that is not synced may be anything after a crash. */
  datatype File<D> = File(data: D, synced: bool)

  type Directory = map<string, nat>

  /** The folder's entries: `dirs[0]` is on the disk, the last one is what
      programs see, and those between are on their way. Metadata changes reach
      the disk in order, so a crash keeps one of them. `anchored` says that
      the folder's own entry in its parent is on the disk. */
  datatype Disk<D> = Disk(files: seq<File<D>>, dirs: seq<Directory>, present: bool, anchored: bool)

  ghost predicate Sound<D>(d: Disk<D>) {
    && |d.dirs| >= 1
    && (forall i, n | 0 <= i < |d.dirs| && n in d.dirs[i] :: d.dirs[i][n] < |d.files|)
    && (forall i, m, n | 0 <= i < |d.dirs| && m in d.dirs[i] && n in d.dirs[i] && m != n :: d.dirs[i][m] != d.dirs[i][n])
    && (!d.present ==> d.dirs == [map[]] && !d.anchored)
  }

  /** The folder as programs see it. */
  function Now<D>(d: Disk<D>): Directory
    requires |d.dirs| >= 1
  {
    d.dirs[|d.dirs| - 1]
  }

  ghost function Changed<D>(d: Disk<D>, dir: Directory): Disk<D> {
    d.(dirs := d.dirs + [dir])
  }

  /** What a crash may leave: synced data as it was, other data as anything,
      one of the directory states, and perhaps no folder at all when its own
      entry was not durable. */
  ghost predicate CrashTo<D>(d: Disk<D>, d': Disk<D>) {
    && |d'.files| == |d.files|
    && (forall i | 0 <= i < |d.files| && d.files[i].synced :: d'.files[i] == d.files[i])
    && (d.anchored ==> d'.anchored)
    && (if d'.present then d.present && exists i :: 0 <= i < |d.dirs| && d'.dirs == [d.dirs[i]]
        else !d.anchored && !d'.anchored && d'.dirs == [map[]])
  }

  /** Which names are temporary, which are final, and when the data of a final
      name counts as complete. */
  datatype Protocol<!D> = Protocol(isFinal: string -> bool, isTemp: string -> bool, complete: (string, D) -> bool)

  /** The steps of all the protocols. */
  datatype Op<D> =
    | MakeFolder
    | OpenTemp(name: string)
    | WriteTemp(name: string, data: D)
    | SyncTemp(name: string)
    | Promote(name: string, target: string)
    | Remove(name: string)
    | SyncFolder
    | SyncParent

  /** When a step may be taken. Only a synced file that is complete for the
      final name is promoted to it. */
  ghost predicate Allowed<D>(p: Protocol<D>, d: Disk<D>, op: Op<D>)
    requires Sound(d)
  {
    match op
    case MakeFolder => true
    case OpenTemp(name) => d.present && p.isTemp(name) && !p.isFinal(name)
    case WriteTemp(name, _) => p.isTemp(name) && name in Now(d)
    case SyncTemp(name) => p.isTemp(name) && name in Now(d)
    case Promote(name, target) =>
      && p.isTemp(name) && !p.isFinal(name) && p.isFinal(target) && !p.isTemp(target) && name in Now(d)
      && d.files[Now(d)[name]].synced && p.complete(target, d.files[Now(d)[name]].data)
    case Remove(_) => true
    case SyncFolder => d.present
    case SyncParent => d.present
  }

  /** The effect of a step. Opening truncates the file the name has, or makes
      a new one. */
  ghost function Apply<D>(p: Protocol<D>, d: Disk<D>, op: Op<D>, empty: D): Disk<D>
    requires Sound(d) && Allowed(p, d, op)
  {
    match op
    case MakeFolder => if d.present then d else d.(present := true, dirs := [map[]])
    case OpenTemp(name) =>
      if name in Now(d) then d.(files := d.files[Now(d)[name] := File(empty, false)])
      else Changed(d.(files := d.files + [File(empty, false)]), Now(d)[name := |d.files|])
    case WriteTemp(name, data) => d.(files := d.files[Now(d)[name] := File(data, false)])
    case SyncTemp(name) => d.(files := d.files[Now(d)[name] := d.files[Now(d)[name]].(synced := true)])
    case Promote(name, target) => Changed(d, (Now(d) - {name})[target := Now(d)[name]])
    case Remove(name) => if name in Now(d) then Changed(d, Now(d) - {name}) else d
    case SyncFolder => d.(dirs := [Now(d)])
    case SyncParent => d.(anchored := true)
  }

  /** Every final name, in every directory state a crash may bring back, has a
      synced and complete file, and no file that a temporary name may still
      overwrite is one of them. */
  ghost predicate Safe<D>(p: Protocol<D>, d: Disk<D>) {
    && Sound(d)
    && (forall i, n | 0 <= i < |d.dirs| && n in d.dirs[i] && p.isFinal(n) ::
          d.files[d.dirs[i][n]].synced && p.complete(n, d.files[d.dirs[i][n]].data))
    && (forall i, j, n, t | 0 <= i <= j < |d.dirs| && n in d.dirs[i] && p.isFinal(n) && t in d.dirs[j] && p.isTemp(t) ::
          d.dirs[i][n] != d.dirs[j][t])
  }

  lemma SafeAfterChange<D>(p: Protocol<D>, d: Disk<D>, dir: Directory)
    requires Safe(p, d) && d.present
    requires forall n | n in dir :: dir[n] < |d.files|
    requires forall m, n | m in dir && n in dir && m != n :: dir[m] != dir[n]
    requires forall n | n in dir && p.isFinal(n) :: d.files[dir[n]].synced && p.complete(n, d.files[dir[n]].data)
    requires forall i, n, t | 0 <= i < |d.dirs| && n in d.dirs[i] && p.isFinal(n) && t in dir && p.isTemp(t) :: d.dirs[i][n] != dir[t]
    requires forall n, t | n in dir && p.isFinal(n) && t in dir && p.isTemp(t) :: dir[n] != dir[t]
    ensures Safe(p, Changed(d, dir))
  {
  }

  lemma SafeAfterWrite<D>(p: Protocol<D>, d: Disk<D>, t: string, file: File<D>)
    requires Safe(p, d) && t in Now(d) && p.isTemp(t)
    ensures Safe(p, d.(files := d.files[Now(d)[t] := file]))
  {
  }

  lemma SafeAfterNewFile<D>(p: Protocol<D>, d: Disk<D>, file: File<D>)
    requires Safe(p, d)
    ensures Safe(p, d.(files := d.files + [file]))
  {
  }

  lemma SafeAfterCreate<D>(p: Protocol<D>, d: Disk<D>, name: string, empty: D)
    requires Safe(p, d) && Allowed(p, d, OpenTemp(name)) && name !in Now(d)
    ensures Safe(p, Apply(p, d, OpenTemp(name), empty))
  {
    SafeAfterNewFile(p, d, File(empty, false));
    SafeAfterChange(p, d.(files := d.files + [File(empty, false)]), Now(d)[name := |d.files|]);
  }

  lemma SafeAfterPromote<D>(p: Protocol<D>, d: Disk<D>, name: string, target: string)
    requires Safe(p, d) && Allowed(p, d, Promote(name, target))
    ensures Safe(p, Changed(d, (Now(d) - {name})[target := Now(d)[name]]))
  {
    SafeAfterChange(p, d, (Now(d) - {name})[target := Now(d)[name]]);
  }

  /** Every step keeps the disk safe. */
  lemma StepIsSafe<D>(p: Protocol<D>, d: Disk<D>, op: Op<D>, empty: D)
    requires Safe(p, d) && Allowed(p, d, op)
    ensures Safe(p, Apply(p, d, op, empty))
  {
    match op
    case MakeFolder =>
    case OpenTemp(name) =>
      if name in Now(d) {
        SafeAfterWrite(p, d, name, File(empty, false));
      } else {
        SafeAfterCreate(p, d, name, empty);
      }
    case WriteTemp(name, data) => SafeAfterWrite(p, d, name, File(data, false));
    case SyncTemp(name) => SafeAfterWrite(p, d, name, d.files[Now(d)[name]].(synced := true));
    case Promote(name, target) => SafeAfterPromote(p, d, name, target);
    case Remove(name) =>
      if name in Now(d) { SafeAfterChange(p, d, Now(d) - {name}); }
    case SyncFolder =>
    case SyncParent =>
  }

  /** A crash at any moment keeps the disk safe. */
  lemma CrashIsSafe<D>(p: Protocol<D>, d: Disk<D>, d': Disk<D>)
    requires Safe(p, d) && CrashTo(d, d')
    ensures Safe(p, d')
  {
    if d'.present {
      var i :| 0 <= i < |d.dirs| && d'.dirs == [d.dirs[i]];
      assert d'.dirs[0] == d.dirs[i];
    }
  }

  /** A name no crash can take away: it is in every directory state and the
      folder itself is durable. */
  ghost predicate Durable<D>(d: Disk<D>, n: string) {
    d.anchored && forall i | 0 <= i < |d.dirs| :: n in d.dirs[i]
  }

  lemma DurableSurvivesCrash<D>(d: Disk<D>, d': Disk<D>, n: string)
    requires Durable(d, n) && CrashTo(d, d')
    ensures d'.present && Durable(d', n)
  {
    var i :| 0 <= i < |d.dirs| && d'.dirs == [d.dirs[i]];
  }

  /** A crash really may keep any of the directory states, with anything in the
      files that are not synced. */
  lemma CrashMayKeepAnyState<D>(d: Disk<D>, k: nat, files: seq<File<D>>) returns (d': Disk<D>)
    requires d.present && k < |d.dirs| && |files| == |d.files|
    requires forall i | 0 <= i < |files| && d.files[i].synced :: files[i] == d.files[i]
    ensures CrashTo(d, d') && d' == Disk(files, [d.dirs[k]], true, d.anchored)
  {
    d' := Disk(files, [d.dirs[k]], true, d.anchored);
  }

  /** A name is durable exactly when every crash leaves it. */
  lemma DurableExactly<D>(d: Disk<D>, n: string)
    requires Sound(d)
    ensures Durable(d, n) <==> forall d' | CrashTo(d, d') :: |d'.dirs| >= 1 && n in Now(d')
  {
    if Durable(d, n) {
      forall d' | CrashTo(d, d') ensures |d'.dirs| >= 1 && n in Now(d') {
        DurableSurvivesCrash(d, d', n);
        assert n in d'.dirs[0];
      }
    } else if !d.anchored {
      var gone := UnanchoredFolderCanVanish(d);
    } else {
      var k :| 0 <= k < |d.dirs| && n !in d.dirs[k];
      var left := CrashMayKeepAnyState(d, k, d.files);
      assert n !in Now(left);
    }
  }

  /** A durable name is lost only by being removed: no other step and no
      crash takes it away. */
  lemma DurableUntilRemoved<D>(p: Protocol<D>, d: Disk<D>, op: Op<D>, empty: D, n: string)
    requires Sound(d) && Allowed(p, d, op) && Durable(d, n) && p.isFinal(n)
    requires op != Remove(n)
    ensures Durable(Apply(p, d, op, empty), n)
  {
    assert n in Now(d);
    assert d.present;
  }

  /** Without the folder's own entry on the disk nothing in it is safe from a
      crash. */
  lemma UnanchoredFolderCanVanish<D>(d: Disk<D>) returns (d': Disk<D>)
    requires Sound(d) && !d.anchored
    ensures CrashTo(d, d') && !d'.present && Now(d') == map[]
  {
    d' := Disk(d.files, [map[]], false, false);
  }

  // ------------------------------------------------------------- runs

  /** What happens to a disk: a step of some program, or a crash. */
  datatype Event<D> = Step(op: Op<D>) | Crash(left: Disk<D>)

  /** The disk `d'` is reached from `d` by these events, in this order. */
  ghost predicate Reaches<D>(p: Protocol<D>, d: Disk<D>, events: seq<Event<D>>, d': Disk<D>, empty: D)
    decreases events
  {
    if events == [] then d == d'
    else
      Sound(d) &&
      match events[0]
      case Step(op) => Allowed(p, d, op) && Reaches(p, Apply(p, d, op, empty), events[1..], d', empty)
      case Crash(left) => CrashTo(d, left) && Reaches(p, left, events[1..], d', empty)
  }

  /** Whatever steps and crashes happen, in any order, the disk stays safe. */
  lemma {:induction false} RunIsSafe<D>(p: Protocol<D>, d: Disk<D>, events: seq<Event<D>>, d': Disk<D>, empty: D)
    requires Safe(p, d) && Reaches(p, d, events, d', empty)
    ensures Safe(p, d')
    decreases events
  {
    if events != [] {
      match events[0]
      case Step(op) =>
        StepIsSafe(p, d, op, empty);
        RunIsSafe(p, Apply(p, d, op, empty), events[1..], d', empty);
      case Crash(left) =>
        CrashIsSafe(p, d, left);
        RunIsSafe(p, left, events[1..], d', empty);
    }
  }

  /** A durable final name survives every run that does not remove it. */
  lemma {:induction false} DurableThroughRun<D>(p: Protocol<D>, d: Disk<D>, events: seq<Event<D>>, d': Disk<D>, empty: D, n: string)
    requires Safe(p, d) && Reaches(p, d, events, d', empty) && Durable(d, n) && p.isFinal(n)
    requires Step(Remove(n)) !in events
    ensures Sound(d') && Durable(d', n) && n in Now(d')
    decreases events
  {
    if events != [] {
      match events[0]
      case Step(op) =>
        StepIsSafe(p, d, op, empty);
        DurableUntilRemoved(p, d, op, empty, n);
        DurableThroughRun(p, Apply(p, d, op, empty), events[1..], d', empty, n);
      case Crash(left) =>
        CrashIsSafe(p, d, left);
        DurableSurvivesCrash(d, left, n);
        DurableThroughRun(p, left, events[1..], d', empty, n);
    }
  }

  lemma {:induction false} ReachesOneMore<D>(p: Protocol<D>, d: Disk<D>, events: seq<Event<D>>, d': Disk<D>, op: Op<D>, empty: D)
    requires Reaches(p, d, events, d', empty) && Sound(d') && Allowed(p, d', op)
    ensures Reaches(p, d, events + [Step(op)], Apply(p, d', op, empty), empty)
    decreases events
  {
    var more := events + [Step(op)];
    if events == [] {
      assert more[1..] == [];
    } else {
      assert more[1..] == events[1..] + [Step(op)];
      match events[0]
      case Step(o) => ReachesOneMore(p, Apply(p, d, o, empty), events[1..], d', op, empty);
      case Crash(left) => ReachesOneMore(p, left, events[1..], d', op, empty);
    }
  }

  /** The data a name has now. */
  ghost function Lookup<D>(d: Disk<D>, n: string): (f: seq<File<D>>)
    requires Sound(d)
  {
    if n in Now(d) then [d.files[Now(d)[n]]] else []
  }

  /** A step leaves the names it does not mention alone. */
  lemma OtherNamesKeepTheirData<D>(p: Protocol<D>, d: Disk<D>, op: Op<D>, empty: D, n: string)
    requires Sound(d) && Allowed(p, d, op)
    requires !op.MakeFolder? && !op.SyncFolder? && !op.SyncParent? ==> n != op.name
    requires op.Promote? ==> n != op.target
    ensures Sound(Apply(p, d, op, empty)) ==> Lookup(Apply(p, d, op, empty), n) == Lookup(d, n)
    ensures d.present ==> Apply(p, d, op, empty).present
  {
    match op
    case OpenTemp(name) =>
      assert name in Now(d) && n in Now(d) ==> Now(d)[name] != Now(d)[n];
    case WriteTemp(name, _) =>
      assert n in Now(d) ==> Now(d)[name] != Now(d)[n];
    case SyncTemp(name) =>
      assert n in Now(d) ==> Now(d)[name] != Now(d)[n];
    case _ =>
  }

  /** A crash may cut a run short anywhere: the part before it is itself a run,
      and what the crash leaves is safe. */
  lemma {:induction false} CutShort<D>(p: Protocol<D>, d: Disk<D>, events: seq<Event<D>>, d': Disk<D>, k: nat, empty: D)
    returns (m: Disk<D>)
    requires Safe(p, d) && Reaches(p, d, events, d', empty) && k <= |events|
    ensures Reaches(p, d, events[..k], m, empty) && Safe(p, m)
    ensures forall left :: CrashTo(m, left) ==> Safe(p, left)
    decreases events
  {
    if k == 0 {
      m := d;
    } else {
      assert events[..k][1..] == events[1..][..k - 1];
      match events[0]
      case Step(op) =>
        StepIsSafe(p, d, op, empty);
        m := CutShort(p, Apply(p, d, op, empty), events[1..], d', k - 1, empty);
      case Crash(left) =>
        CrashIsSafe(p, d, left);
        m := CutShort(p, left, events[1..], d', k - 1, empty);
    }
    forall left | CrashTo(m, left) ensures Safe(p, left) {
      CrashIsSafe(p, m, left);
    }
  }
}
