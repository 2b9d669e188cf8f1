/** The bounded response cache of the quote endpoint: entries live for a fixed
    time, an expired entry is dropped when it is asked for or when the cache is
    full, a new key is not stored while the cache is full, and a memory-pressure
    signal empties it. It must answer like the history of what was put. */
module ResponseCache {
  import opened Integers
  import opened Wrappers

  /** A security id and the code of its segment. */
  datatype CacheKey = CacheKey(securityId: nat, segment: nat)

  datatype Stored = Stored(at: nat, body: string)

  /** Time to live (in nanoseconds) and the most entries. */
  datatype Limits = Limits(ttl: nat, maxEntries: nat)

  /** `Instant::elapsed`, which saturates at zero. */
  function Age(now: nat, at: nat): nat {
    SaturatingSub(now, at)
  }

  // ------------------------------------------------ what one call does

  datatype State = State(entries: map<CacheKey, Stored>, shedSeen: nat)

  function Shed(s: State, generation: nat): State {
    if s.shedSeen != generation then State(map[], generation) else s
  }

  function FreshHit(l: Limits, s: State, key: CacheKey, now: nat): Option<string> {
    if key in s.entries && Age(now, s.entries[key].at) < l.ttl then Some(s.entries[key].body) else None
  }

  ghost function AfterGet(l: Limits, s: State, key: CacheKey, generation: nat, now: nat): State {
    var s := Shed(s, generation);
    if key in s.entries && FreshHit(l, s, key, now).None? then s.(entries := s.entries - {key}) else s
  }

  /** The entries that a sweep keeps; the clock is read once for each. */
  function Swept(l: Limits, entries: map<CacheKey, Stored>, clock: CacheKey -> nat): map<CacheKey, Stored> {
    map k | k in entries && Age(clock(k), entries[k].at) < l.ttl :: entries[k]
  }

  ghost function AfterPut(l: Limits, s: State, key: CacheKey, body: string, generation: nat, clock: CacheKey -> nat, now: nat): State {
    var s := Shed(s, generation);
    if |s.entries| >= l.maxEntries && key !in s.entries then
      var kept := Swept(l, s.entries, clock);
      s.(entries := if |kept| >= l.maxEntries then kept else kept[key := Stored(now, body)])
    else s.(entries := s.entries[key := Stored(now, body)])
  }

  /** A put takes out nothing but expired entries, and those only when the cache
      is full and the key is new to it; every other entry stays as it was. */
  lemma PutDropsOnlyExpired(l: Limits, s: State, key: CacheKey, body: string, clock: CacheKey -> nat, now: nat, k: CacheKey)
    requires k in s.entries && k != key
    ensures var after := AfterPut(l, s, key, body, s.shedSeen, clock, now).entries;
            if k in after then after[k] == s.entries[k]
            else |s.entries| >= l.maxEntries && key !in s.entries && SaturatingSub(clock(k), s.entries[k].at) >= l.ttl
  {
  }

  /** The cache behind its lock. Every call is given what it reads from the
      outside: the shed generation and the clock. */
  class BoundedTtlCache {
    const limits: Limits
    var entries: map<CacheKey, Stored>
    var shedSeen: nat

    ghost function Contents(): State
      reads this
    {
      State(entries, shedSeen)
    }

    constructor (limits: Limits, generation: nat)
      ensures this.limits == limits && Contents() == State(map[], generation)
    {
      this.limits := limits;
      entries := map[];
      shedSeen := generation;
    }

    method ShedIfSignalled(generation: nat)
      modifies this
      ensures Contents() == Shed(old(Contents()), generation)
      ensures shedSeen == generation && entries == if old(shedSeen) == generation then old(entries) else map[]
    {
      if shedSeen != generation {
        shedSeen := generation;
        entries := map[];
      }
    }

    method Get(key: CacheKey, generation: nat, now: nat) returns (r: Option<string>)
      modifies this
      ensures r == FreshHit(limits, Shed(old(Contents()), generation), key, now)
      ensures Contents() == AfterGet(limits, old(Contents()), key, generation, now)
      ensures shedSeen == generation
      ensures if key in entries then r == Some(entries[key].body) && now < entries[key].at + limits.ttl else r == None
      ensures forall k | k != key ::
                && (k in entries <==> k in old(entries) && old(shedSeen) == generation)
                && (k in entries ==> entries[k] == old(entries)[k])
    {
      ShedIfSignalled(generation);
      if key in entries {
        if Age(now, entries[key].at) < limits.ttl {
          return Some(entries[key].body);
        }
        entries := entries - {key};
      }
      r := None;
    }

    method Put(key: CacheKey, body: string, generation: nat, clock: CacheKey -> nat, now: nat)
      modifies this
      ensures Contents() == AfterPut(limits, old(Contents()), key, body, generation, clock, now)
      ensures shedSeen == generation
      ensures if key in entries then entries[key] == Stored(now, body) else |entries| >= limits.maxEntries
    {
      ShedIfSignalled(generation);
      if |entries| >= limits.maxEntries && key !in entries {
        entries := Swept(limits, entries, clock);
        if |entries| >= limits.maxEntries {
          return;
        }
      }
      entries := entries[key := Stored(now, body)];
    }
  }

  // ------------------------------------------------- runs and their history

  /** One call and what it reads. A put reads the clock when it starts
      (`start`), once for each entry it sweeps, and when it stores (`now`). */
  datatype Event =
    | GetAt(key: CacheKey, generation: nat, now: nat)
    | PutAt(key: CacheKey, body: string, generation: nat, start: nat, clock: CacheKey -> nat, now: nat)

  /** The state after a run that began on an empty cache. */
  ghost function After(l: Limits, first: nat, events: seq<Event>): State {
    if events == [] then State(map[], first)
    else
      var s := After(l, first, events[..|events| - 1]);
      match events[|events| - 1]
      case GetAt(key, generation, now) => AfterGet(l, s, key, generation, now)
      case PutAt(key, body, generation, start, clock, now) => AfterPut(l, s, key, body, generation, clock, now)
  }

  ghost predicate InOrder(e: Event, t: nat) {
    match e
    case GetAt(_, _, now) => t <= now
    case PutAt(_, _, _, start, clock, now) => t <= start <= now && forall k :: start <= clock(k) <= now
  }

  /** The clock reading a run ends with. */
  ghost function LastTime(events: seq<Event>): nat {
    if events == [] then 0 else events[|events| - 1].now
  }

  /** A monotone clock: no reading is earlier than one before it. */
  ghost predicate Monotone(events: seq<Event>) {
    forall i | 0 <= i < |events| :: InOrder(events[i], LastTime(events[..i]))
  }

  /** What happened, as a client could tell: a put (and whether there was room
      for it), or the signal that emptied the cache. */
  datatype Entry = Put(key: CacheKey, stored: Stored, roomFor: bool) | Emptied

  ghost function GenerationOf(first: nat, events: seq<Event>): nat {
    if events == [] then first else events[|events| - 1].generation
  }

  /** The latest put of a key since the cache was last emptied. */
  ghost function Latest(history: seq<Entry>, key: CacheKey): Option<Entry> {
    if history == [] || history[|history| - 1].Emptied? then None
    else if history[|history| - 1].key == key then Some(history[|history| - 1])
    else Latest(history[..|history| - 1], key)
  }

  ghost predicate Fresh(l: Limits, e: Entry, now: nat) {
    e.Put? && e.roomFor && Age(now, e.stored.at) < l.ttl
  }

  ghost predicate IsFresh(l: Limits, history: seq<Entry>, key: CacheKey, now: nat) {
    Latest(history, key).Some? && Fresh(l, Latest(history, key).value, now)
  }

  /** The keys ever put whose latest put still counts when the clock is read
      for each. */
  ghost function FreshKeys(l: Limits, history: seq<Entry>, clock: CacheKey -> nat): set<CacheKey> {
    set e | e in history && e.Put? && IsFresh(l, history, e.key, clock(e.key)) :: e.key
  }

  /** There is room for a put when its own latest put still counts, or when
      fewer keys than the cap have one that does. */
  ghost predicate Room(l: Limits, history: seq<Entry>, key: CacheKey, clock: CacheKey -> nat) {
    key in FreshKeys(l, history, clock) || |FreshKeys(l, history, clock)| < l.maxEntries
  }

  /** A call that observes another generation finds the cache emptied. */
  ghost function WithSignal(history: seq<Entry>, moved: bool): seq<Entry> {
    history + (if moved then [Emptied] else [])
  }

  /** What the calls alone say: nothing here looks at the cache. */
  ghost function History(l: Limits, first: nat, events: seq<Event>): seq<Entry> {
    if events == [] then []
    else
      var before, e := events[..|events| - 1], events[|events| - 1];
      var past := WithSignal(History(l, first, before), GenerationOf(first, before) != e.generation);
      match e
      case GetAt(_, _, _) => past
      case PutAt(key, body, generation, start, clock, now) => past + [Put(key, Stored(now, body), Room(l, past, key, clock))]
  }

  /** The history up to a call, with the signal that call observes. */
  ghost function PastOf(l: Limits, first: nat, before: seq<Event>, generation: nat): seq<Entry> {
    WithSignal(History(l, first, before), GenerationOf(first, before) != generation)
  }

  /** The simple form: the latest put of the key, if it was stored and is
      still fresh. No sweep, no eviction, no cap. */
  ghost function Answer(l: Limits, history: seq<Entry>, key: CacheKey, now: nat): Option<string> {
    var latest := Latest(history, key);
    if latest.Some? && Fresh(l, latest.value, now) then Some(latest.value.stored.body) else None
  }

  /** What ties the map to the history at time `t`: an entry is its key's
      latest put; a key without an entry has none, or none that still counts. */
  ghost predicate Agrees(l: Limits, s: State, history: seq<Entry>, t: nat) {
    && |s.entries| <= l.maxEntries
    && (forall k | k in s.entries ::
          s.entries[k].at <= t && Latest(history, k) == Some(Put(k, s.entries[k], true)))
    && (forall k | k !in s.entries ::
          Latest(history, k).None? || !Fresh(l, Latest(history, k).value, t))
  }

  lemma LatestAppend(history: seq<Entry>, e: Entry, k: CacheKey)
    ensures Latest(history + [e], k) == (if e.Emptied? then None else if e.key == k then Some(e) else Latest(history, k))
  {
    assert (history + [e])[..|history|] == history;
  }

  lemma {:induction false} LatestIsPut(history: seq<Entry>, k: CacheKey)
    ensures Latest(history, k).Some? ==> Latest(history, k).value.Put? && Latest(history, k).value.key == k
  {
    if history != [] {
      LatestIsPut(history[..|history| - 1], k);
    }
  }

  lemma AgreesLater(l: Limits, s: State, history: seq<Entry>, t: nat, t': nat)
    requires Agrees(l, s, history, t) && t <= t'
    ensures Agrees(l, s, history, t')
  {
    forall k | k !in s.entries
      ensures Latest(history, k).None? || !Fresh(l, Latest(history, k).value, t')
    {
    }
  }

  lemma AgreesAfterShed(l: Limits, s: State, history: seq<Entry>, generation: nat, t: nat)
    requires Agrees(l, s, history, t)
    ensures Agrees(l, Shed(s, generation), history + (if s.shedSeen != generation then [Emptied] else []), t)
  {
    if s.shedSeen != generation {
      forall k: CacheKey ensures Latest(history + [Emptied], k).None? {
        LatestAppend(history, Emptied, k);
      }
    } else {
      assert history + [] == history;
    }
  }

  /** Dropping entries that have expired by now goes unnoticed. */
  lemma DroppingExpiredGoesUnnoticed(l: Limits, s: State, history: seq<Entry>, t: nat, kept: map<CacheKey, Stored>)
    requires Agrees(l, s, history, t)
    requires kept.Keys <= s.entries.Keys && forall k | k in kept :: kept[k] == s.entries[k]
    requires forall k | k in s.entries && k !in kept :: Age(t, s.entries[k].at) >= l.ttl
    ensures Agrees(l, s.(entries := kept), history, t)
  {
    assert |kept| <= |s.entries| by { SubsetSize(kept.Keys, s.entries.Keys); }
  }

  lemma {:induction false} SubsetSize<T>(a: set<T>, b: set<T>)
    requires a <= b
    ensures |a| <= |b|
  {
    assert b == a + (b - a);
  }

  lemma AgreesAfterStore(l: Limits, s: State, history: seq<Entry>, t: nat, key: CacheKey, body: string)
    requires Agrees(l, s, history, t)
    requires key in s.entries || |s.entries| < l.maxEntries
    ensures Agrees(l, s.(entries := s.entries[key := Stored(t, body)]), history + [Put(key, Stored(t, body), true)], t)
  {
    var e := Put(key, Stored(t, body), true);
    forall k: CacheKey ensures Latest(history + [e], k) == if k == key then Some(e) else Latest(history, k) {
      LatestAppend(history, e, k);
    }
    assert s.entries[key := Stored(t, body)].Keys == s.entries.Keys + {key};
  }

  lemma AgreesAfterSkip(l: Limits, s: State, history: seq<Entry>, t: nat, key: CacheKey, stored: Stored)
    requires Agrees(l, s, history, t) && key !in s.entries
    ensures Agrees(l, s, history + [Put(key, stored, false)], t)
  {
    var e := Put(key, stored, false);
    forall k: CacheKey ensures Latest(history + [e], k) == if k == key then Some(e) else Latest(history, k) {
      LatestAppend(history, e, k);
    }
  }

  lemma AgreesAfterGet(l: Limits, s: State, history: seq<Entry>, t: nat, key: CacheKey, generation: nat)
    requires Agrees(l, Shed(s, generation), history, t)
    ensures Agrees(l, AfterGet(l, s, key, generation, t), history, t)
    ensures FreshHit(l, Shed(s, generation), key, t) == Answer(l, history, key, t)
  {
    var s := Shed(s, generation);
    LatestIsPut(history, key);
    if key in s.entries && FreshHit(l, s, key, t).None? {
      DroppingExpiredGoesUnnoticed(l, s, history, t, s.entries - {key});
    }
  }

  lemma SweepSize(l: Limits, entries: map<CacheKey, Stored>, clock: CacheKey -> nat)
    ensures |Swept(l, entries, clock)| <= |entries|
  {
    SubsetSize(Swept(l, entries, clock).Keys, entries.Keys);
  }

  lemma {:induction false} LatestIsListed(history: seq<Entry>, k: CacheKey)
    requires Latest(history, k).Some?
    ensures Latest(history, k).value in history
  {
    var last := history[|history| - 1];
    if last.key != k {
      LatestIsListed(history[..|history| - 1], k);
    }
  }

  /** What a sweep keeps can be told from the history. */
  lemma SweptIsFresh(l: Limits, s: State, history: seq<Entry>, t: nat, clock: CacheKey -> nat)
    requires Agrees(l, s, history, t) && forall k :: t <= clock(k)
    ensures Swept(l, s.entries, clock).Keys == FreshKeys(l, history, clock)
  {
    var kept := Swept(l, s.entries, clock);
    forall k: CacheKey ensures k in kept <==> IsFresh(l, history, k, clock(k)) {
    }
    forall k | k in kept ensures k in FreshKeys(l, history, clock) {
      LatestIsListed(history, k);
      LatestIsPut(history, k);
      var e := Latest(history, k).value;
      assert e in history && e.key == k;
    }
  }

  /** So the cache has room exactly when the history says so. */
  lemma RoomIsTold(l: Limits, s: State, history: seq<Entry>, t: nat, key: CacheKey, clock: CacheKey -> nat)
    requires Agrees(l, s, history, t) && forall k :: t <= clock(k)
    ensures Room(l, history, key, clock) <==> key in s.entries || |Swept(l, s.entries, clock)| < l.maxEntries
  {
    var kept := Swept(l, s.entries, clock);
    SweptIsFresh(l, s, history, t, clock);
    assert |kept| == |kept.Keys| && |s.entries| == |s.entries.Keys|;
    if key in s.entries && key !in kept {
      SubsetSize(kept.Keys, s.entries.Keys - {key});
    }
  }

  /** A put made between `t` and its own last clock reading. */
  lemma AgreesAfterPut(l: Limits, s: State, history: seq<Entry>, t: nat, e: Event)
    requires e.PutAt? && t <= e.now && forall k :: t <= e.clock(k) <= e.now
    requires Agrees(l, Shed(s, e.generation), history, t)
    ensures Agrees(l, AfterPut(l, s, e.key, e.body, e.generation, e.clock, e.now),
                   history + [Put(e.key, Stored(e.now, e.body), Room(l, history, e.key, e.clock))], e.now)
  {
    var s := Shed(s, e.generation);
    var kept := Swept(l, s.entries, e.clock);
    SweepSize(l, s.entries, e.clock);
    RoomIsTold(l, s, history, t, e.key, e.clock);
    AgreesLater(l, s, history, t, e.now);
    if |s.entries| >= l.maxEntries && e.key !in s.entries {
      DroppingExpiredGoesUnnoticed(l, s, history, e.now, kept);
      if |kept| >= l.maxEntries {
        AgreesAfterSkip(l, s.(entries := kept), history, e.now, e.key, Stored(e.now, e.body));
      } else {
        AgreesAfterStore(l, s.(entries := kept), history, e.now, e.key, e.body);
      }
    } else {
      AgreesAfterStore(l, s, history, e.now, e.key, e.body);
    }
  }

  lemma MonotonePrefix(events: seq<Event>)
    requires Monotone(events) && events != []
    ensures Monotone(events[..|events| - 1])
    ensures InOrder(events[|events| - 1], LastTime(events[..|events| - 1]))
  {
    var before := events[..|events| - 1];
    forall i | 0 <= i < |before| ensures InOrder(before[i], LastTime(before[..i])) {
      assert InOrder(events[i], LastTime(events[..i])) && before[..i] == events[..i];
    }
    assert InOrder(events[|before|], LastTime(events[..|before|]));
  }

  lemma {:induction false} ShedSeenIsLast(l: Limits, first: nat, events: seq<Event>)
    ensures After(l, first, events).shedSeen == GenerationOf(first, events)
  {
    if events != [] {
      ShedSeenIsLast(l, first, events[..|events| - 1]);
    }
  }

  /** In every run the cache stays within its cap and agrees with its
      history. */
  lemma {:induction false} RunAgrees(l: Limits, first: nat, events: seq<Event>)
    requires Monotone(events)
    ensures Agrees(l, After(l, first, events), History(l, first, events), LastTime(events))
  {
    if events != [] {
      var before, e := events[..|events| - 1], events[|events| - 1];
      var s, h := After(l, first, before), History(l, first, before);
      MonotonePrefix(events);
      RunAgrees(l, first, before);
      ShedSeenIsLast(l, first, before);
      var t := LastTime(before);
      AgreesAfterShed(l, s, h, e.generation, t);
      var past := PastOf(l, first, before, e.generation);
      if e.GetAt? {
        AgreesLater(l, Shed(s, e.generation), past, t, e.now);
        AgreesAfterGet(l, s, past, e.now, e.key, e.generation);
      } else {
        AgreesAfterPut(l, s, past, t, e);
      }
    }
  }

  /** The refinement: whatever ran before, a get answers exactly what the
      simple form answers, so a hit is the latest put of that very key, younger
      than the time to live and not emptied since; sweeps and evictions are
      never seen; and the cap holds. */
  lemma GetAnswersLikeHistory(l: Limits, first: nat, events: seq<Event>, key: CacheKey, generation: nat, now: nat)
    requires Monotone(events) && LastTime(events) <= now
    ensures FreshHit(l, Shed(After(l, first, events), generation), key, now)
         == Answer(l, History(l, first, events + [GetAt(key, generation, now)]), key, now)
    ensures |After(l, first, events).entries| <= l.maxEntries
  {
    var s, h := After(l, first, events), History(l, first, events);
    var all := events + [GetAt(key, generation, now)];
    assert all[..|events|] == events;
    RunAgrees(l, first, events);
    ShedSeenIsLast(l, first, events);
    AgreesLater(l, s, h, LastTime(events), now);
    AgreesAfterShed(l, s, h, generation, now);
    assert History(l, first, all) == PastOf(l, first, events, generation);
    AgreesAfterGet(l, s, PastOf(l, first, events, generation), now, key, generation);
  }

  /** A put that found room is what the next get of its key returns, and a put
      that found none hides every older body of its key. */
  lemma GetAfterPut(l: Limits, first: nat, events: seq<Event>, e: Event, now: nat)
    requires Monotone(events + [e]) && e.PutAt? && e.now <= now
    ensures FreshHit(l, After(l, first, events + [e]), e.key, now)
         == (if Room(l, PastOf(l, first, events, e.generation), e.key, e.clock) && now - e.now < l.ttl
             then Some(e.body) else None)
  {
    var all := events + [e];
    assert all[..|events|] == events;
    RunAgrees(l, first, all);
    ShedSeenIsLast(l, first, all);
    ShedSeenIsLast(l, first, events);
    AgreesLater(l, After(l, first, all), History(l, first, all), e.now, now);
    AgreesAfterGet(l, After(l, first, all), History(l, first, all), now, e.key, e.generation);
    var past := PastOf(l, first, events, e.generation);
    LatestAppend(past, History(l, first, all)[|past|], e.key);
  }

  // --------------------------------------------------- shed signals

  /** How often the observed generation moved. */
  ghost function Moves(first: nat, events: seq<Event>): nat {
    if events == [] then 0
    else
      var before := events[..|events| - 1];
      Moves(first, before) + (if GenerationOf(first, before) != events[|events| - 1].generation then 1 else 0)
  }

  /** A call clears the cache: it starts on what the run left with another
      generation seen, and does its own work on an empty map. */
  ghost predicate Clears(s: State, e: Event) {
    s.shedSeen != e.generation && Shed(s, e.generation) == State(map[], e.generation)
  }

  /** A call leaves the cache to its own work as the run left it. */
  ghost predicate Spares(s: State, e: Event) {
    Shed(s, e.generation) == s
  }

  /** How often the cache was cleared in a run. */
  ghost function Clearings(l: Limits, first: nat, events: seq<Event>): nat {
    if events == [] then 0
    else
      var before, e := events[..|events| - 1], events[|events| - 1];
      Clearings(l, first, before) + (if Clears(After(l, first, before), e) then 1 else 0)
  }

  /** The cache is cleared exactly once for each observed move of the
      generation, and every other call finds it as the run left it. */
  lemma {:induction false} EachSignalEmptiesOnce(l: Limits, first: nat, events: seq<Event>)
    ensures Clearings(l, first, events) == Moves(first, events)
    ensures forall i | 0 <= i < |events| ::
              if GenerationOf(first, events[..i]) != events[i].generation
              then Clears(After(l, first, events[..i]), events[i]) else Spares(After(l, first, events[..i]), events[i])
  {
    forall i | 0 <= i < |events|
      ensures if GenerationOf(first, events[..i]) != events[i].generation
              then Clears(After(l, first, events[..i]), events[i]) else Spares(After(l, first, events[..i]), events[i])
    {
      ShedSeenIsLast(l, first, events[..i]);
    }
    if events != [] {
      EachSignalEmptiesOnce(l, first, events[..|events| - 1]);
      ShedSeenIsLast(l, first, events[..|events| - 1]);
    }
  }
}
