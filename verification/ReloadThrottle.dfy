/** The floor under out-of-band token reloads: any number of requests read the
    clock, load the last stamp, and compete with one compare-exchange. The
    loads are relaxed, so a thread may see any stamp that was ever stored; the
    clocks may jump either way. */
module ReloadThrottle {
  import opened Integers

  const OOB_RELOAD_FLOOR_SECS: nat := 60

  /** `should_request_oob_reload`: zero means "never triggered", and a clock
      that reads zero is refused. */
  predicate ShouldRequestOobReload(now: nat, last: nat) {
    now != 0 && (last == 0 || SaturatingSub(now, last) >= OOB_RELOAD_FLOOR_SECS)
  }

  /** Where a request is between its clock read and its return. A request that
      won the exchange has yet to notify the reload loop. */
  datatype Pc = Idle | Clocked(now: nat) | Loaded(now: nat, last: nat) | Notifying(trigger: nat)

  /** `stored` is every value of the atomic in modification order, zero first;
      `permit` is the stored wake-up of the reload loop. For the statement
      alone: the triggers whose wake-up is outstanding, and those a reload has
      consumed. Trigger `k` is the one that stored `stored[k]`. */
  datatype State = State(requests: seq<Pc>, stored: seq<nat>, permit: bool, outstanding: set<nat>, consumed: set<nat>)

  datatype Label =
    | ReadClock(r: nat, now: nat)
    | Load(r: nat, seen: nat)
    | Decide(r: nat)
    | Notify(r: nat)
    | Reload

  ghost predicate Enabled(s: State, l: Label) {
    match l
    case ReadClock(r, _) => r < |s.requests| && s.requests[r].Idle?
    case Load(r, seen) => r < |s.requests| && s.requests[r].Clocked? && seen < |s.stored|
    case Decide(r) => r < |s.requests| && s.requests[r].Loaded? && s.stored != []
    case Notify(r) => r < |s.requests| && s.requests[r].Notifying?
    case Reload => s.permit
  }

  /** The check and the compare-exchange: it succeeds if and only if the
      atomic still holds the loaded value. */
  ghost predicate Accepted(s: State, r: nat)
    requires Enabled(s, Decide(r))
  {
    ShouldRequestOobReload(s.requests[r].now, s.requests[r].last) && s.stored[|s.stored| - 1] == s.requests[r].last
  }

  ghost function Next(s: State, l: Label): State
    requires Enabled(s, l)
  {
    match l
    case ReadClock(r, now) => s.(requests := s.requests[r := Clocked(now)])
    case Load(r, seen) => s.(requests := s.requests[r := Loaded(s.requests[r].now, s.stored[seen])])
    case Decide(r) =>
      if Accepted(s, r)
      then s.(requests := s.requests[r := Notifying(|s.stored|)], stored := s.stored + [s.requests[r].now])
      else s.(requests := s.requests[r := Idle])
    case Notify(r) =>
      s.(requests := s.requests[r := Idle], permit := true, outstanding := s.outstanding + {s.requests[r].trigger})
    case Reload => s.(permit := false, outstanding := {}, consumed := s.consumed + s.outstanding)
  }

  /** Stamps start above zero and keep the floor between neighbours. */
  ghost predicate Floored(stored: seq<nat>) {
    && |stored| >= 1 && stored[0] == 0
    && (|stored| > 1 ==> stored[1] > 0)
    && (forall i | 1 < i < |stored| :: stored[i] >= stored[i - 1] + OOB_RELOAD_FLOOR_SECS)
  }

  /** Every accepted trigger is on its way to notify, or its wake-up is stored,
      or a reload has consumed it. */
  ghost predicate NoneLost(s: State) {
    && (s.outstanding != {} ==> s.permit)
    && (forall k | 1 <= k < |s.stored| ::
          k in s.outstanding || k in s.consumed || exists r :: 0 <= r < |s.requests| && s.requests[r] == Notifying(k))
  }

  ghost predicate Inv(s: State) {
    Floored(s.stored) && NoneLost(s)
  }

  lemma {:induction false} StampsArePositive(stored: seq<nat>, i: nat)
    requires Floored(stored) && 1 <= i < |stored|
    ensures stored[i] > 0
  {
    if i > 1 {
      StampsArePositive(stored, i - 1);
    }
  }

  /** A successful exchange keeps the floor: the loaded value was the current
      one, however old the load, because no stamp comes twice. */
  lemma AcceptedKeepsFloor(s: State, r: nat)
    requires Inv(s) && Enabled(s, Decide(r)) && Accepted(s, r)
    ensures Floored(s.stored + [s.requests[r].now])
  {
    if |s.stored| > 1 {
      StampsArePositive(s.stored, |s.stored| - 1);
    }
  }

  lemma StillNotifying(s: State, l: Label, k: nat)
    requires Enabled(s, l)
    requires exists r :: 0 <= r < |s.requests| && s.requests[r] == Notifying(k)
    ensures k in Next(s, l).outstanding || exists r :: 0 <= r < |s.requests| && Next(s, l).requests[r] == Notifying(k)
  {
    var r :| 0 <= r < |s.requests| && s.requests[r] == Notifying(k);
    assert k in Next(s, l).outstanding || Next(s, l).requests[r] == Notifying(k);
  }

  lemma NextKeepsInv(s: State, l: Label)
    requires Inv(s) && Enabled(s, l)
    ensures Inv(Next(s, l))
  {
    var s' := Next(s, l);
    if l.Decide? && Accepted(s, l.r) {
      AcceptedKeepsFloor(s, l.r);
      assert s'.requests[l.r] == Notifying(|s.stored|);
    }
    forall k | 1 <= k < |s.stored|
      ensures k in s'.outstanding || k in s'.consumed || exists r :: 0 <= r < |s'.requests| && s'.requests[r] == Notifying(k)
    {
      if k !in s.outstanding && k !in s.consumed {
        StillNotifying(s, l, k);
      }
    }
  }

  ghost function Boot(requests: nat): State {
    State(seq(requests, _ => Idle), [0], false, {}, {})
  }

  ghost predicate Runs(s: State, labels: seq<Label>, s': State)
    decreases labels
  {
    if labels == [] then s == s' else Enabled(s, labels[0]) && Runs(Next(s, labels[0]), labels[1..], s')
  }

  lemma {:induction false} RunsKeepInv(s: State, labels: seq<Label>, s': State)
    requires Inv(s) && Runs(s, labels, s')
    ensures Inv(s') && |s.stored| <= |s'.stored| && s'.stored[..|s.stored|] == s.stored
    decreases labels
  {
    if labels != [] {
      NextKeepsInv(s, labels[0]);
      RunsKeepInv(Next(s, labels[0]), labels[1..], s');
    }
  }

  lemma {:induction false} FarApart(stored: seq<nat>, i: nat, j: nat)
    requires Floored(stored) && 1 <= i <= j < |stored|
    ensures stored[j] >= stored[i] + OOB_RELOAD_FLOOR_SECS * (j - i)
  {
    if i < j {
      FarApart(stored, i, j - 1);
    }
  }

  /** Under every interleaving and for every clock: accepted stamps strictly
      increase by at least the floor, so no value comes twice; and no accepted
      trigger is lost. */
  lemma TriggersKeepTheFloor(requests: nat, labels: seq<Label>, s: State)
    requires Runs(Boot(requests), labels, s)
    ensures forall i, j | 1 <= i < j < |s.stored| :: s.stored[j] >= s.stored[i] + OOB_RELOAD_FLOOR_SECS
    ensures forall i, j | 0 <= i < j < |s.stored| :: s.stored[i] != s.stored[j]
    ensures NoneLost(s)
  {
    RunsKeepInv(Boot(requests), labels, s);
    forall i, j | 1 <= i < j < |s.stored| ensures s.stored[j] >= s.stored[i] + OOB_RELOAD_FLOOR_SECS {
      FarApart(s.stored, i, j);
    }
    forall j | 1 <= j < |s.stored| ensures s.stored[j] > 0 {
      StampsArePositive(s.stored, j);
    }
  }

  /** When a check is accepted: the clock reads something, the value it loaded is
      still the current one, and that is zero or at least a minute old. Then the
      clock reading is the new stamp and the request goes on to notify; in every
      other case nothing is stored and the request is done. */
  lemma DecideExactly(s: State, r: nat)
    requires Enabled(s, Decide(r))
    ensures var now, last := s.requests[r].now, s.requests[r].last;
            var current := s.stored[|s.stored| - 1];
            Next(s, Decide(r)) ==
            if now != 0 && last == current && (last == 0 || now >= last + 60)
            then s.(stored := s.stored + [now], requests := s.requests[r := Notifying(|s.stored|)])
            else s.(requests := s.requests[r := Idle])
  {
  }

  /** A request that runs alone, from its clock read to its return. */
  ghost function Alone(s: State, r: nat, now: nat): State
    requires s.stored != [] && r < |s.requests| && s.requests[r].Idle?
  {
    var decided := Next(Next(Next(s, ReadClock(r, now)), Load(r, |s.stored| - 1)), Decide(r));
    if decided.requests[r].Notifying? then Next(decided, Notify(r)) else decided
  }

  lemma RunsAlone(s: State, r: nat, now: nat) returns (labels: seq<Label>)
    requires s.stored != [] && r < |s.requests| && s.requests[r].Idle?
    ensures Runs(s, labels, Alone(s, r, now))
  {
    var clocked := Next(s, ReadClock(r, now));
    var loaded := Next(clocked, Load(r, |s.stored| - 1));
    var decided := Next(loaded, Decide(r));
    var end := Alone(s, r, now);
    var last := if decided.requests[r].Notifying? then [Notify(r)] else [];
    if decided.requests[r].Notifying? {
      assert last[1..] == [] && Runs(end, [], end);
    }
    assert Runs(decided, last, end);
    OneMoreLabel(loaded, Decide(r), last, end);
    OneMoreLabel(clocked, Load(r, |s.stored| - 1), [Decide(r)] + last, end);
    OneMoreLabel(s, ReadClock(r, now), [Load(r, |s.stored| - 1)] + ([Decide(r)] + last), end);
    labels := [ReadClock(r, now)] + ([Load(r, |s.stored| - 1)] + ([Decide(r)] + last));
  }

  lemma OneMoreLabel(s: State, l: Label, rest: seq<Label>, end: State)
    requires Enabled(s, l) && Runs(Next(s, l), rest, end)
    ensures Runs(s, [l] + rest, end)
  {
    assert ([l] + rest)[1..] == rest;
  }

  /** Alone it triggers exactly when its clock reads something and the last
      stamp is zero or at least a minute back: then its stamp is stored and the
      reload loop's permit is set. Otherwise nothing has changed. */
  lemma LoneRequest(s: State, r: nat, now: nat)
    requires Inv(s) && r < |s.requests| && s.requests[r].Idle?
    ensures var last := s.stored[|s.stored| - 1];
            Alone(s, r, now) ==
            if now != 0 && (last == 0 || now >= last + 60)
            then s.(stored := s.stored + [now], permit := true, outstanding := s.outstanding + {|s.stored|})
            else s
  {
    var loaded := Next(Next(s, ReadClock(r, now)), Load(r, |s.stored| - 1));
    DecideExactly(loaded, r);
    assert s.requests[r := Idle] == s.requests;
    assert loaded.requests[r := Idle] == s.requests;
    assert loaded.requests[r := Notifying(|s.stored|)][r := Idle] == s.requests;
  }

  /** The first request after boot is accepted whatever its clock reads, as long
      as that is not zero; the reload loop then takes its permit and no trigger
      is outstanding. */
  lemma FirstRequestTriggers(requests: nat, r: nat, now: nat) returns (labels: seq<Label>, s: State)
    requires r < requests && now > 0
    ensures Runs(Boot(requests), labels, s) && s.stored == [0, now] && s.permit && s.outstanding == {1}
    ensures Enabled(s, Reload) && Next(s, Reload) == s.(permit := false, outstanding := {}, consumed := {1})
  {
    var boot := Boot(requests);
    labels := RunsAlone(boot, r, now);
    s := Alone(boot, r, now);
    LoneRequest(boot, r, now);
  }

  lemma {:induction false} RangeSize(lo: nat, n: nat, s: set<nat>)
    requires forall i | i in s :: lo <= i < lo + n
    ensures |s| <= n
  {
    if n > 0 {
      RangeSize(lo, n - 1, s - {lo + n - 1});
    } else {
      assert s == {};
    }
  }

  lemma {:induction false} LeastOf(s: set<nat>) returns (m: nat)
    requires s != {}
    ensures m in s && forall i | i in s :: m <= i
  {
    var x :| x in s;
    m := x;
    var rest := s - {x};
    assert forall i | i in s :: i == x || i in rest;
    if rest != {} {
      var k := LeastOf(rest);
      m := if k < x then k else x;
    }
  }

  /** At most one trigger per floor: a window of W seconds holds at most
      W/60 + 1 stamps, whatever the number of requests. */
  lemma WindowHoldsFewTriggers(requests: nat, labels: seq<Label>, s: State, from: nat, width: nat)
    requires Runs(Boot(requests), labels, s)
    ensures |set i | 1 <= i < |s.stored| && from <= s.stored[i] <= from + width| <= width / 60 + 1
  {
    RunsKeepInv(Boot(requests), labels, s);
    var hits := set i | 1 <= i < |s.stored| && from <= s.stored[i] <= from + width;
    if hits != {} {
      var first := LeastOf(hits);
      forall i | i in hits ensures first <= i < first + width / OOB_RELOAD_FLOOR_SECS + 1 {
        FarApart(s.stored, first, i);
      }
      RangeSize(first, width / OOB_RELOAD_FLOOR_SECS + 1, hits);
    }
  }
}
