/** A map filled from a list of entries under a cap: a later entry for a key
    that is present overwrites it, a new key is refused once the map is full.
    Both daily tables of the contract map are filled this way. */
module CappedFold {

  datatype Entry<K, V> = Entry(key: K, value: V)

  /** The keys in the order in which they first appear. */
  ghost function Distinct<K(!new), V>(entries: seq<Entry<K, V>>): (keys: seq<K>)
    ensures forall i, j | 0 <= i < j < |keys| :: keys[i] != keys[j]
  {
    if entries == [] then []
    else
      var front, last := entries[..|entries| - 1], entries[|entries| - 1];
      var keys := Distinct(front);
      if last.key in keys then keys else keys + [last.key]
  }

  lemma {:induction false} DistinctMembers<K(!new), V>(entries: seq<Entry<K, V>>, k: K)
    ensures k in Distinct(entries) <==> exists e :: e in entries && e.key == k
  {
    if entries != [] {
      var front, last := entries[..|entries| - 1], entries[|entries| - 1];
      DistinctMembers(front, k);
      assert entries == front + [last];
    }
  }

  /** The uncapped table: the last entry of each key. */
  ghost function Fold<K(!new), V>(entries: seq<Entry<K, V>>): (m: map<K, V>)
    ensures m.Keys == set k | k in Distinct(entries)
  {
    if entries == [] then map[]
    else Fold(entries[..|entries| - 1])[entries[|entries| - 1].key := entries[|entries| - 1].value]
  }

  /** The keys that got in: the first `cap` distinct ones. */
  ghost function Admitted<K(!new), V>(entries: seq<Entry<K, V>>, cap: nat): (keys: seq<K>) {
    var keys := Distinct(entries);
    if |keys| <= cap then keys else keys[..cap]
  }

  /** The capped table: the admitted keys, each with its last entry. */
  ghost function Capped<K(!new), V>(entries: seq<Entry<K, V>>, cap: nat): (m: map<K, V>)
    ensures m.Keys == set k | k in Admitted(entries, cap)
  {
    map k | k in Admitted(entries, cap) :: Fold(entries)[k]
  }

  lemma {:induction false} SizeOfKeys<K(!new)>(keys: seq<K>)
    requires forall i, j | 0 <= i < j < |keys| :: keys[i] != keys[j]
    ensures |set k | k in keys| == |keys|
  {
    if keys == [] {
      assert (set k | k in keys) == {};
    } else {
      var front, last := keys[..|keys| - 1], keys[|keys| - 1];
      assert keys == front + [last];
      SizeOfKeys(front);
      assert (set k | k in keys) == (set k | k in front) + {last};
    }
  }

  lemma CappedSize<K(!new), V>(entries: seq<Entry<K, V>>, cap: nat)
    ensures |Capped(entries, cap)| == |Admitted(entries, cap)| <= cap
  {
    SizeOfKeys(Admitted(entries, cap));
    assert |Capped(entries, cap)| == |Capped(entries, cap).Keys|;
  }

  lemma AdmittedStep<K(!new), V>(entries: seq<Entry<K, V>>, e: Entry<K, V>, cap: nat)
    ensures var keys := Distinct(entries);
            Admitted(entries + [e], cap) == Admitted(entries, cap) + (if e.key in keys || |keys| >= cap then [] else [e.key])
    ensures Fold(entries + [e]) == Fold(entries)[e.key := e.value]
  {
    var longer := entries + [e];
    assert longer[..|longer| - 1] == entries;
  }

  lemma AdmittedWhen<K(!new), V>(entries: seq<Entry<K, V>>, k: K, cap: nat)
    ensures k in Admitted(entries, cap) ==> k in Distinct(entries)
    ensures k !in Admitted(entries, cap) && k in Distinct(entries) ==> |Admitted(entries, cap)| == cap
    ensures |Distinct(entries)| >= cap <==> |Admitted(entries, cap)| >= cap
  {
  }

  /** The step on the level of maps: `m` restricts `all` to `old'`, `more`
      restricts the updated `all` to `new'`. */
  lemma RestrictStep<K(!new), V>(m: map<K, V>, more: map<K, V>, all: map<K, V>, old': seq<K>, new': seq<K>, e: Entry<K, V>)
    requires (forall k | k in old' :: k in all) && m == map k | k in old' :: all[k]
    requires (forall k | k in new' :: k in all || k == e.key) && more == map k | k in new' :: all[e.key := e.value][k]
    ensures new' == old' && e.key !in old' ==> more == m
    ensures new' == old' && e.key in old' ==> more == m[e.key := e.value]
    ensures new' == old' + [e.key] ==> more == m[e.key := e.value]
  {
  }

  /** One more entry changes the capped table the way a loop step does. */
  lemma CappedStep<K(!new), V>(entries: seq<Entry<K, V>>, e: Entry<K, V>, cap: nat)
    ensures var m := Capped(entries, cap);
            Capped(entries + [e], cap) == if |m| >= cap && e.key !in m then m else m[e.key := e.value]
  {
    var old', new' := Admitted(entries, cap), Admitted(entries + [e], cap);
    CappedSize(entries, cap);
    AdmittedStep(entries, e, cap);
    AdmittedWhen(entries, e.key, cap);
    RestrictStep(Capped(entries, cap), Capped(entries + [e], cap), Fold(entries), old', new', e);
  }

  /** Whether a key is in is settled by the time its entry has been read. */
  lemma AdmittedSettled<K(!new), V>(entries: seq<Entry<K, V>>, e: Entry<K, V>, cap: nat, k: K)
    requires k in Distinct(entries)
    ensures k in Admitted(entries + [e], cap) <==> k in Admitted(entries, cap)
  {
    var longer := entries + [e];
    assert longer[..|longer| - 1] == entries;
    var keys, more := Distinct(entries), Distinct(longer);
    var at :| 0 <= at < |keys| && keys[at] == k;
    assert more[at] == k;
    if at < cap {
      assert Admitted(longer, cap)[at] == k && Admitted(entries, cap)[at] == k;
    }
  }

  /** What comes first is admitted first. */
  lemma {:induction false} DistinctPrefix<K(!new), V>(a: seq<Entry<K, V>>, b: seq<Entry<K, V>>)
    ensures Distinct(a) <= Distinct(a + b)
  {
    if b == [] {
      assert a + b == a;
    } else {
      DistinctPrefix(a, b[..|b| - 1]);
      assert (a + b)[..|a + b| - 1] == a + b[..|b| - 1];
    }
  }

  lemma FirstPartGetsIn<K(!new), V>(a: seq<Entry<K, V>>, b: seq<Entry<K, V>>, cap: nat, k: K)
    requires k in Distinct(a) && |Distinct(a)| <= cap
    ensures k in Capped(a + b, cap)
  {
    DistinctPrefix(a, b);
    var keys := Distinct(a);
    var at :| 0 <= at < |keys| && keys[at] == k;
    assert Admitted(a + b, cap)[at] == k;
  }

  lemma FirstPartOverflows<K(!new), V>(a: seq<Entry<K, V>>, b: seq<Entry<K, V>>, cap: nat)
    requires |Distinct(a)| > cap
    ensures Distinct(a)[cap] in Distinct(a) && Distinct(a)[cap] !in Capped(a + b, cap)
  {
    DistinctPrefix(a, b);
    var all := Distinct(a + b);
    assert all[cap] == Distinct(a)[cap];
  }

  /** All keys of the first part get in if and only if there is room for
      them. */
  lemma FirstPartFits<K(!new), V>(a: seq<Entry<K, V>>, b: seq<Entry<K, V>>, cap: nat)
    ensures (forall k | k in Distinct(a) :: k in Capped(a + b, cap)) <==> |Distinct(a)| <= cap
  {
    if |Distinct(a)| <= cap {
      forall k | k in Distinct(a) ensures k in Capped(a + b, cap) {
        FirstPartGetsIn(a, b, cap, k);
      }
    } else {
      FirstPartOverflows(a, b, cap);
    }
  }

  /** The entries of one key, in order. */
  ghost function Of<K(!new), V>(entries: seq<Entry<K, V>>, k: K): seq<Entry<K, V>> {
    if entries == [] then []
    else
      var front, last := entries[..|entries| - 1], entries[|entries| - 1];
      Of(front, k) + (if last.key == k then [last] else [])
  }

  /** A key's value is the last of its own entries, whatever lies between. */
  lemma {:induction false} FoldIsLocal<K(!new), V>(entries: seq<Entry<K, V>>, k: K)
    ensures k in Fold(entries) <==> Of(entries, k) != []
    ensures k in Fold(entries) ==> Fold(entries)[k] == Of(entries, k)[|Of(entries, k)| - 1].value
  {
    if entries != [] {
      var front, last := entries[..|entries| - 1], entries[|entries| - 1];
      FoldIsLocal(front, k);
      assert entries == front + [last];
    }
  }

  lemma SameOfSameFold<K(!new), V>(a: seq<Entry<K, V>>, b: seq<Entry<K, V>>, k: K)
    requires Of(a, k) == Of(b, k)
    ensures k in Fold(a) <==> k in Fold(b)
    ensures k in Fold(a) ==> Fold(a)[k] == Fold(b)[k]
  {
    FoldIsLocal(a, k);
    FoldIsLocal(b, k);
  }

  lemma {:induction false} OfConcat<K(!new), V>(a: seq<Entry<K, V>>, b: seq<Entry<K, V>>, k: K)
    ensures Of(a + b, k) == Of(a, k) + Of(b, k)
  {
    if b == [] {
      assert a + b == a;
    } else {
      var front, last := b[..|b| - 1], b[|b| - 1];
      OfConcat(a, front, k);
      assert (a + b)[..|a + b| - 1] == a + front;
    }
  }

  /** With room for every key the cap changes nothing. */
  lemma UncappedWhenItFits<K(!new), V>(entries: seq<Entry<K, V>>, cap: nat)
    requires |Distinct(entries)| <= cap
    ensures Capped(entries, cap) == Fold(entries)
  {
  }
}
