/** Which underlying a contract belongs to: the capped owner table built from
    the day's option legs, the order that puts subscribed legs first, and the
    publication that counts what was refused. */
module ContractMap {
  import opened Wrappers
  import opened Decimal
  import opened CappedFold

  const MAX_TRACKED_CONTRACTS: nat := 25_000

  datatype ExchangeSegment = IdxI | NseEquity | NseFno | NseCurrency | BseEquity | McxComm | BseCurrency | BseFno

  datatype OptionFamily = Index | Stock

  /** The bare security id is reused across segments; the pair is not. */
  datatype ContractKey = ContractKey(id: nat, segment: ExchangeSegment)

  datatype LegIds = LegIds(contractSecurityId: int, underlyingSecurityId: int, contractSegment: ExchangeSegment,
                           family: OptionFamily, lotSize: nat)

  datatype ContractOwner = ContractOwner(underlyingId: nat, family: OptionFamily, lotSize: nat)

  datatype LegRefusal =
    | ZeroOrNegativeContractId
    | ZeroOrNegativeUnderlyingId
    | UnresolvedUnderlyingSymbol
    | UnsupportedSegment
    | UnderlyingClassMismatch
    | MissingLotSize
    | AtCapacity

  datatype Refusal = Refusal(id: int, reason: LegRefusal)

  // ------------------------------------------------------ one leg

  /** What is wrong with a leg by itself, the first defect in source order. */
  function Defect(leg: LegIds): Option<LegRefusal> {
    if leg.contractSecurityId <= 0 then Some(ZeroOrNegativeContractId)
    else if leg.underlyingSecurityId <= 0 then Some(ZeroOrNegativeUnderlyingId)
    else if leg.lotSize == 0 then Some(MissingLotSize)
    else None
  }

  predicate Usable(leg: LegIds) {
    leg.contractSecurityId > 0 && leg.underlyingSecurityId > 0 && leg.lotSize > 0
  }

  function KeyOf(leg: LegIds): ContractKey
    requires leg.contractSecurityId >= 0
  {
    ContractKey(leg.contractSecurityId, leg.contractSegment)
  }

  function OwnerOf(leg: LegIds): ContractOwner
    requires Usable(leg)
  {
    ContractOwner(leg.underlyingSecurityId, leg.family, leg.lotSize)
  }

  // ------------------------------------------------------ the snapshot

  /** The usable legs as table entries, in leg order. */
  ghost function EntriesOf(legs: seq<LegIds>): seq<Entry<ContractKey, ContractOwner>> {
    if legs == [] then []
    else
      var leg := legs[|legs| - 1];
      EntriesOf(legs[..|legs| - 1]) + (if Usable(leg) then [Entry(KeyOf(leg), OwnerOf(leg))] else [])
  }

  /** The table the day's legs make: the first 25,000 distinct usable keys,
      each with the owner of its last usable leg. */
  ghost function Snapshot(legs: seq<LegIds>): map<ContractKey, ContractOwner> {
    Capped(EntriesOf(legs), MAX_TRACKED_CONTRACTS)
  }

  /** The table without a cap. */
  ghost function Uncapped(legs: seq<LegIds>): map<ContractKey, ContractOwner> {
    Fold(EntriesOf(legs))
  }

  ghost predicate Written(leg: LegIds, domain: set<ContractKey>) {
    Usable(leg) && KeyOf(leg) in domain
  }

  ghost function RefusalOf(leg: LegIds): Refusal {
    Refusal(leg.contractSecurityId, if Defect(leg).Some? then Defect(leg).value else AtCapacity)
  }

  /** The legs that are not in the finished table, in order, with the reason:
      their own defect, or the cap when they have none. */
  ghost function RefusalsGiven(legs: seq<LegIds>, domain: set<ContractKey>): seq<Refusal> {
    if legs == [] then []
    else
      var leg := legs[|legs| - 1];
      RefusalsGiven(legs[..|legs| - 1], domain) + (if Written(leg, domain) then [] else [RefusalOf(leg)])
  }

  ghost function WrittenLegs(legs: seq<LegIds>, domain: set<ContractKey>): seq<LegIds> {
    if legs == [] then []
    else
      var leg := legs[|legs| - 1];
      WrittenLegs(legs[..|legs| - 1], domain) + (if Written(leg, domain) then [leg] else [])
  }

  lemma {:induction false} RefusalsSettled(legs: seq<LegIds>, domain: set<ContractKey>, domain': set<ContractKey>)
    requires forall leg | leg in legs && Usable(leg) :: KeyOf(leg) in domain <==> KeyOf(leg) in domain'
    ensures RefusalsGiven(legs, domain) == RefusalsGiven(legs, domain')
  {
    if legs != [] {
      var front, leg := legs[..|legs| - 1], legs[|legs| - 1];
      assert legs == front + [leg];
      RefusalsSettled(front, domain, domain');
    }
  }

  lemma {:induction false} EntryOfLeg(legs: seq<LegIds>, leg: LegIds)
    requires leg in legs && Usable(leg)
    ensures Entry(KeyOf(leg), OwnerOf(leg)) in EntriesOf(legs)
  {
    var front, last := legs[..|legs| - 1], legs[|legs| - 1];
    assert legs == front + [last];
    if leg in front {
      EntryOfLeg(front, leg);
    }
  }

  lemma SnapshotStep(legs: seq<LegIds>, leg: LegIds)
    ensures var m := Snapshot(legs);
            Snapshot(legs + [leg]) ==
            if !Usable(leg) || (|m| >= MAX_TRACKED_CONTRACTS && KeyOf(leg) !in m) then m
            else m[KeyOf(leg) := OwnerOf(leg)]
  {
    assert (legs + [leg])[..|legs|] == legs;
    if Usable(leg) {
      CappedStep(EntriesOf(legs), Entry(KeyOf(leg), OwnerOf(leg)), MAX_TRACKED_CONTRACTS);
    } else {
      assert EntriesOf(legs + [leg]) == EntriesOf(legs);
    }
  }

  lemma RefusalsStep(legs: seq<LegIds>, leg: LegIds)
    ensures RefusalsGiven(legs + [leg], Snapshot(legs + [leg]).Keys)
         == RefusalsGiven(legs, Snapshot(legs).Keys)
            + (if Written(leg, Snapshot(legs + [leg]).Keys) then [] else [RefusalOf(leg)])
  {
    var longer := legs + [leg];
    assert longer[..|legs|] == legs;
    if !Usable(leg) {
      assert EntriesOf(longer) == EntriesOf(legs);
    }
    forall l | l in legs && Usable(l)
      ensures KeyOf(l) in Snapshot(longer) <==> KeyOf(l) in Snapshot(legs)
    {
      EntryOfLeg(legs, l);
      DistinctMembers(EntriesOf(legs), KeyOf(l));
      if Usable(leg) {
        AdmittedSettled(EntriesOf(legs), Entry(KeyOf(leg), OwnerOf(leg)), MAX_TRACKED_CONTRACTS, KeyOf(l));
      }
    }
    RefusalsSettled(legs, Snapshot(legs).Keys, Snapshot(longer).Keys);
  }

  /** Builds a snapshot in one pass over the legs. */
  method BuildSnapshot(legs: seq<LegIds>)
    returns (m: map<ContractKey, ContractOwner>, accepted: nat, refusals: seq<Refusal>)
    ensures m == Snapshot(legs)
    ensures accepted == |m| <= MAX_TRACKED_CONTRACTS
    ensures refusals == RefusalsGiven(legs, m.Keys)
  {
    m, refusals := map[], [];
    for i := 0 to |legs|
      invariant m == Snapshot(legs[..i])
      invariant refusals == RefusalsGiven(legs[..i], m.Keys)
    {
      var leg := legs[i];
      assert legs[..i + 1] == legs[..i] + [leg];
      SnapshotStep(legs[..i], leg);
      RefusalsStep(legs[..i], leg);
      if leg.contractSecurityId <= 0 {
        refusals := refusals + [Refusal(leg.contractSecurityId, ZeroOrNegativeContractId)];
      } else if leg.underlyingSecurityId <= 0 {
        refusals := refusals + [Refusal(leg.contractSecurityId, ZeroOrNegativeUnderlyingId)];
      } else if leg.lotSize == 0 {
        refusals := refusals + [Refusal(leg.contractSecurityId, MissingLotSize)];
      } else {
        var key := ContractKey(leg.contractSecurityId, leg.contractSegment);
        if |m| >= MAX_TRACKED_CONTRACTS && key !in m {
          refusals := refusals + [Refusal(leg.contractSecurityId, AtCapacity)];
        } else {
          m := m[key := ContractOwner(leg.underlyingSecurityId, leg.family, leg.lotSize)];
        }
      }
    }
    assert legs[..|legs|] == legs;
    CappedSize(EntriesOf(legs), MAX_TRACKED_CONTRACTS);
    accepted := |m|;
  }

  /** A key's owner comes from its last usable leg. */
  lemma {:induction false} OwnerIsLast(legs: seq<LegIds>, k: ContractKey) returns (i: nat)
    requires k in Uncapped(legs)
    ensures i < |legs| && Usable(legs[i]) && KeyOf(legs[i]) == k && Uncapped(legs)[k] == OwnerOf(legs[i])
    ensures forall j | i < j < |legs| && Usable(legs[j]) :: KeyOf(legs[j]) != k
  {
    var front, last := legs[..|legs| - 1], legs[|legs| - 1];
    if Usable(last) {
      assert EntriesOf(legs)[..|EntriesOf(legs)| - 1] == EntriesOf(front);
    } else {
      assert EntriesOf(legs) == EntriesOf(front);
    }
    if Usable(last) && KeyOf(last) == k {
      i := |legs| - 1;
    } else {
      i := OwnerIsLast(front, k);
      assert forall j | i < j < |front| && Usable(legs[j]) :: front[j] == legs[j];
    }
  }

  /** Every owner is that of the last usable leg of its key, field by field:
      the leg with this contract id and segment whose three numbers are all
      positive, and no later such leg. */
  lemma SnapshotOwner(legs: seq<LegIds>, k: ContractKey) returns (i: nat)
    requires k in Snapshot(legs)
    ensures i < |legs| && IsLegFor(legs[i], k) && (forall j | i < j < |legs| :: !IsLegFor(legs[j], k))
    ensures Snapshot(legs)[k].underlyingId == legs[i].underlyingSecurityId
    ensures Snapshot(legs)[k].lotSize == legs[i].lotSize
    ensures Snapshot(legs)[k].family == legs[i].family
  {
    i := OwnerIsLast(legs, k);
  }

  ghost predicate IsLegFor(leg: LegIds, k: ContractKey) {
    && leg.contractSecurityId == k.id && leg.contractSegment == k.segment
    && leg.contractSecurityId > 0 && leg.underlyingSecurityId > 0 && leg.lotSize > 0
  }

  /** The uncapped table has exactly the keys that some usable leg has. */
  lemma {:induction false} UncappedKeys(legs: seq<LegIds>, k: ContractKey)
    ensures k in Uncapped(legs) <==> exists leg :: leg in legs && IsLegFor(leg, k)
  {
    if legs != [] {
      var front, leg := legs[..|legs| - 1], legs[|legs| - 1];
      assert legs == front + [leg];
      UncappedKeys(front, k);
      EntriesAppend(front, leg);
      if Usable(leg) {
        assert IsLegFor(leg, KeyOf(leg));
        assert (EntriesOf(front) + [Entry(KeyOf(leg), OwnerOf(leg))])[..|EntriesOf(front)|] == EntriesOf(front);
      }
    }
  }

  /** The cap is 25,000 distinct contracts: below it nothing is left out. */
  lemma SnapshotSize(legs: seq<LegIds>)
    ensures Snapshot(legs).Keys <= Uncapped(legs).Keys
    ensures |Snapshot(legs)| == if |Uncapped(legs)| <= 25_000 then |Uncapped(legs)| else 25_000
    ensures |Uncapped(legs)| <= 25_000 ==> Snapshot(legs) == Uncapped(legs)
  {
    var entries := EntriesOf(legs);
    CappedSize(entries, MAX_TRACKED_CONTRACTS);
    SizeOfKeys(Distinct(entries));
    assert |Uncapped(legs)| == |Uncapped(legs).Keys|;
  }

  /** Which legs are refused and why, by their numbers: the first thing wrong
      in the order contract id, underlying id, lot size; and the cap only when
      nothing is wrong. */
  lemma RefusedExactly(legs: seq<LegIds>, domain: set<ContractKey>, r: Refusal)
    ensures r in RefusalsGiven(legs, domain) <==>
            exists leg :: leg in legs && r.id == leg.contractSecurityId && RefusedFor(leg, domain, r.reason)
  {
    RefusalsComeFromLegs(legs, domain, r);
    forall leg: LegIds
      ensures !Written(leg, domain) && r == RefusalOf(leg)
              <==> r.id == leg.contractSecurityId && RefusedFor(leg, domain, r.reason)
    {
    }
  }

  ghost predicate RefusedFor(leg: LegIds, domain: set<ContractKey>, reason: LegRefusal) {
    match reason
    case ZeroOrNegativeContractId => leg.contractSecurityId <= 0
    case ZeroOrNegativeUnderlyingId => leg.contractSecurityId > 0 && leg.underlyingSecurityId <= 0
    case MissingLotSize => leg.contractSecurityId > 0 && leg.underlyingSecurityId > 0 && leg.lotSize == 0
    case AtCapacity =>
      && leg.contractSecurityId > 0 && leg.underlyingSecurityId > 0 && leg.lotSize > 0
      && ContractKey(leg.contractSecurityId, leg.contractSegment) !in domain
    case _ => false
  }

  /** Every leg is either written or refused, never both. */
  lemma {:induction false} EveryLegIsAccountedFor(legs: seq<LegIds>, domain: set<ContractKey>)
    ensures |WrittenLegs(legs, domain)| + |RefusalsGiven(legs, domain)| == |legs|
  {
    if legs != [] {
      EveryLegIsAccountedFor(legs[..|legs| - 1], domain);
    }
  }

  /** With room for every key nothing usable is refused. */
  lemma {:induction false} CapacityRefusals(legs: seq<LegIds>, domain: set<ContractKey>)
    ensures (exists r | r in RefusalsGiven(legs, domain) :: r.reason == AtCapacity)
       <==> exists leg | leg in legs :: Usable(leg) && KeyOf(leg) !in domain
  {
    if legs != [] {
      var front, leg := legs[..|legs| - 1], legs[|legs| - 1];
      CapacityRefusals(front, domain);
      assert legs == front + [leg];
      var rs := RefusalsGiven(front, domain);
      if exists r | r in rs :: r.reason == AtCapacity {
        var r :| r in rs && r.reason == AtCapacity;
        assert r in RefusalsGiven(legs, domain);
      }
      if Usable(leg) && KeyOf(leg) !in domain {
        assert RefusalOf(leg) in RefusalsGiven(legs, domain);
      }
    }
  }

  // ------------------------------------------------ subscribed legs first

  /** One instrument of the subscription. */
  datatype SubscribeInstrument = SubscribeInstrument(securityId: nat, segment: ExchangeSegment)

  function PickedKeys(selected: seq<SubscribeInstrument>): set<ContractKey> {
    set s | s in selected :: ContractKey(s.securityId, s.segment)
  }

  predicate IsPicked(leg: LegIds, picked: set<ContractKey>) {
    leg.contractSecurityId >= 0 && KeyOf(leg) in picked
  }

  /** The legs that pass a test, in order. */
  function Filter<T>(p: T -> bool, xs: seq<T>): seq<T> {
    if xs == [] then []
    else Filter(p, xs[..|xs| - 1]) + (if p(xs[|xs| - 1]) then [xs[|xs| - 1]] else [])
  }

  function Selected(legs: seq<LegIds>, picked: set<ContractKey>): seq<LegIds> {
    Filter((leg: LegIds) => IsPicked(leg, picked), legs)
  }

  function Rest(legs: seq<LegIds>, picked: set<ContractKey>): seq<LegIds> {
    Filter((leg: LegIds) => !IsPicked(leg, picked), legs)
  }

  /** `order_selected_first`: the subscribed legs, then the others, and how
      many the subscribed ones are. */
  function OrderSelectedFirst(legs: seq<LegIds>, selected: seq<SubscribeInstrument>): (r: (seq<LegIds>, nat))
    ensures r.1 <= |r.0|
  {
    var picked := PickedKeys(selected);
    (Selected(legs, picked) + Rest(legs, picked), |Selected(legs, picked)|)
  }

  lemma {:induction false} FilterConcat<T>(p: T -> bool, a: seq<T>, b: seq<T>)
    ensures Filter(p, a + b) == Filter(p, a) + Filter(p, b)
  {
    if b == [] {
      assert a + b == a;
    } else {
      FilterConcat(p, a, b[..|b| - 1]);
      assert (a + b)[..|a + b| - 1] == a + b[..|b| - 1];
    }
  }

  lemma {:induction false} FilterFilter<T>(p: T -> bool, q: T -> bool, xs: seq<T>)
    requires forall x :: p(x) ==> q(x)
    ensures Filter(p, Filter(q, xs)) == Filter(p, xs)
  {
    if xs != [] {
      var front, last := xs[..|xs| - 1], xs[|xs| - 1];
      FilterFilter(p, q, front);
      FilterConcat(p, Filter(q, front), if q(last) then [last] else []);
      assert Filter(p, [last]) == Filter(p, []) + (if p(last) then [last] else []);
    }
  }

  lemma {:induction false} FilterNone<T>(p: T -> bool, q: T -> bool, xs: seq<T>)
    requires forall x :: p(x) ==> !q(x)
    ensures Filter(p, Filter(q, xs)) == []
  {
    if xs != [] {
      var front, last := xs[..|xs| - 1], xs[|xs| - 1];
      FilterNone(p, q, front);
      FilterConcat(p, Filter(q, front), if q(last) then [last] else []);
      assert Filter(p, [last]) == Filter(p, []) + (if p(last) then [last] else []);
    }
  }

  lemma {:induction false} FilterAll<T>(p: T -> bool, xs: seq<T>)
    ensures forall x | x in Filter(p, xs) :: p(x) && x in xs
    ensures forall x | x in xs && p(x) :: x in Filter(p, xs)
  {
    if xs != [] {
      FilterAll(p, xs[..|xs| - 1]);
      assert xs == xs[..|xs| - 1] + [xs[|xs| - 1]];
    }
  }

  lemma FilterLast<T>(p: T -> bool, xs: seq<T>)
    requires xs != []
    ensures var front, last := xs[..|xs| - 1], xs[|xs| - 1];
            Filter(p, xs) == if p(last) then Filter(p, front) + [last] else Filter(p, front)
  {
  }

  lemma OneMore<T>(a: seq<T>, b: seq<T>, x: T)
    ensures multiset((a + [x]) + b) == multiset(a + b) + multiset{x}
    ensures multiset(a + (b + [x])) == multiset(a + b) + multiset{x}
  {
    assert a + (b + [x]) == (a + b) + [x];
  }

  lemma {:induction false} FilterSplit<T>(p: T -> bool, q: T -> bool, xs: seq<T>)
    requires forall x :: p(x) <==> !q(x)
    ensures multiset(Filter(p, xs) + Filter(q, xs)) == multiset(xs)
  {
    if xs != [] {
      var front, last := xs[..|xs| - 1], xs[|xs| - 1];
      FilterSplit(p, q, front);
      FilterLast(p, xs);
      FilterLast(q, xs);
      OneMore(Filter(p, front), Filter(q, front), last);
      assert xs == front + [last];
    }
  }

  /** The reordered legs are the same legs, the subscribed ones in front. */
  lemma OrderIsPermutation(legs: seq<LegIds>, selected: seq<SubscribeInstrument>)
    ensures var (ordered, count) := OrderSelectedFirst(legs, selected);
            && multiset(ordered) == multiset(legs)
            && (forall i | 0 <= i < |ordered| :: i < count <==> IsPicked(ordered[i], PickedKeys(selected)))
            && (forall i | 0 <= i < |ordered| ::
                  i < count <==> exists s :: s in selected && s.securityId == ordered[i].contractSecurityId
                                             && s.segment == ordered[i].contractSegment)
  {
    var picked := PickedKeys(selected);
    var p, q := (leg: LegIds) => IsPicked(leg, picked), (leg: LegIds) => !IsPicked(leg, picked);
    FilterSplit(p, q, legs);
    FilterAll(p, legs);
    FilterAll(q, legs);
    var a, b := Filter(p, legs), Filter(q, legs);
    forall i | 0 <= i < |a + b| ensures i < |a| <==> IsPicked((a + b)[i], picked) {
      if i < |a| { assert (a + b)[i] in a; } else { assert (a + b)[i] in b; }
    }
    forall leg: LegIds
      ensures IsPicked(leg, picked)
              <==> exists s :: s in selected && s.securityId == leg.contractSecurityId && s.segment == leg.contractSegment
    {
    }
  }

  /** Stability: a test that never mixes subscribed and other legs sees the
      same legs in the same order before and after. */
  lemma OrderIsStable(legs: seq<LegIds>, selected: seq<SubscribeInstrument>, p: LegIds -> bool)
    requires var picked := PickedKeys(selected);
             (forall leg :: p(leg) ==> IsPicked(leg, picked)) || (forall leg :: p(leg) ==> !IsPicked(leg, picked))
    ensures Filter(p, OrderSelectedFirst(legs, selected).0) == Filter(p, legs)
  {
    var picked := PickedKeys(selected);
    var yes, no := (leg: LegIds) => IsPicked(leg, picked), (leg: LegIds) => !IsPicked(leg, picked);
    FilterConcat(p, Selected(legs, picked), Rest(legs, picked));
    if forall leg :: p(leg) ==> IsPicked(leg, picked) {
      FilterFilter(p, yes, legs);
      FilterNone(p, no, legs);
    } else {
      FilterNone(p, yes, legs);
      FilterFilter(p, no, legs);
    }
  }

  ghost function HasKey(k: ContractKey): LegIds -> bool {
    (leg: LegIds) => Usable(leg) && KeyOf(leg) == k
  }

  lemma OfAppend(entries: seq<Entry<ContractKey, ContractOwner>>, e: Entry<ContractKey, ContractOwner>, k: ContractKey)
    ensures Of(entries + [e], k) == Of(entries, k) + (if e.key == k then [e] else [])
  {
    assert (entries + [e])[..|entries|] == entries;
  }

  lemma EntriesAppend(legs: seq<LegIds>, leg: LegIds)
    ensures Usable(leg) ==> EntriesOf(legs + [leg]) == EntriesOf(legs) + [Entry(KeyOf(leg), OwnerOf(leg))]
    ensures !Usable(leg) ==> EntriesOf(legs + [leg]) == EntriesOf(legs)
  {
    assert (legs + [leg])[..|legs|] == legs;
  }

  /** The entries of one key come from the legs of that key. */
  lemma {:induction false} EntriesOfKey(legs: seq<LegIds>, k: ContractKey)
    ensures Of(EntriesOf(legs), k) == EntriesOf(Filter(HasKey(k), legs))
  {
    if legs != [] {
      var front, leg := legs[..|legs| - 1], legs[|legs| - 1];
      assert legs == front + [leg];
      EntriesOfKey(front, k);
      EntriesAppend(front, leg);
      if Usable(leg) {
        OfAppend(EntriesOf(front), Entry(KeyOf(leg), OwnerOf(leg)), k);
      }
      if Usable(leg) && KeyOf(leg) == k {
        assert Filter(HasKey(k), legs) == Filter(HasKey(k), front) + [leg];
        EntriesAppend(Filter(HasKey(k), front), leg);
      } else {
        assert Filter(HasKey(k), legs) == Filter(HasKey(k), front);
      }
    }
  }

  lemma {:induction false} EntriesConcat(a: seq<LegIds>, b: seq<LegIds>)
    ensures EntriesOf(a + b) == EntriesOf(a) + EntriesOf(b)
  {
    if b == [] {
      assert a + b == a;
    } else {
      EntriesConcat(a, b[..|b| - 1]);
      assert (a + b)[..|a + b| - 1] == a + b[..|b| - 1];
    }
  }

  /** Reordering changes no owner: the uncapped table is the same. */
  lemma OrderKeepsOwners(legs: seq<LegIds>, selected: seq<SubscribeInstrument>)
    ensures Uncapped(OrderSelectedFirst(legs, selected).0) == Uncapped(legs)
  {
    var ordered := OrderSelectedFirst(legs, selected).0;
    forall k: ContractKey
      ensures k in Uncapped(ordered) <==> k in Uncapped(legs)
      ensures k in Uncapped(legs) ==> Uncapped(ordered)[k] == Uncapped(legs)[k]
    {
      OrderIsStable(legs, selected, HasKey(k));
      EntriesOfKey(ordered, k);
      EntriesOfKey(legs, k);
      SameOfSameFold(EntriesOf(ordered), EntriesOf(legs), k);
    }
  }

  /** How many distinct contracts the subscription asks the table for. */
  ghost function SelectedDemand(legs: seq<LegIds>, selected: seq<SubscribeInstrument>): nat {
    |Distinct(EntriesOf(Selected(legs, PickedKeys(selected))))|
  }

  /** Selected-first ordering does what it is for, and exactly when it can:
      every subscribed contract is in the capped table, with the owner the
      uncapped table gives it, if and only if the subscribed contracts alone
      do not exceed the cap. */
  lemma SubscribedContractsAreMapped(legs: seq<LegIds>, selected: seq<SubscribeInstrument>)
    ensures (forall k | k in Uncapped(legs) && k in PickedKeys(selected) ::
               && k in Snapshot(OrderSelectedFirst(legs, selected).0)
               && Snapshot(OrderSelectedFirst(legs, selected).0)[k] == Uncapped(legs)[k])
       <==> SelectedDemand(legs, selected) <= MAX_TRACKED_CONTRACTS
  {
    var picked := PickedKeys(selected);
    var a, b := Selected(legs, picked), Rest(legs, picked);
    EntriesConcat(a, b);
    OrderKeepsOwners(legs, selected);
    FirstPartFits(EntriesOf(a), EntriesOf(b), MAX_TRACKED_CONTRACTS);
    forall k: ContractKey
      ensures k in Distinct(EntriesOf(a)) <==> k in Uncapped(legs) && k in picked
    {
      SelectedKeys(legs, picked, k);
    }
  }

  lemma SelectedKeys(legs: seq<LegIds>, picked: set<ContractKey>, k: ContractKey)
    ensures k in Distinct(EntriesOf(Selected(legs, picked))) <==> k in Uncapped(legs) && k in picked
  {
    var yes := (leg: LegIds) => IsPicked(leg, picked);
    var a := Selected(legs, picked);
    EntriesOfKey(a, k);
    EntriesOfKey(legs, k);
    FoldIsLocal(EntriesOf(a), k);
    FoldIsLocal(EntriesOf(legs), k);
    if k in picked {
      FilterFilter(HasKey(k), yes, legs);
    } else {
      FilterNone(HasKey(k), yes, legs);
    }
  }

  // ------------------------------------------------------- publication

  /** Whether a refused contract is one of the picked ones. A refusal carries
      the bare id, so both derivative segments are tried; an unusable id cannot
      be attributed and is kept. */
  predicate RefusalIsSubscribed(id: int, picked: set<ContractKey>) {
    id <= 0 || ContractKey(id, NseFno) in picked || ContractKey(id, BseFno) in picked
  }

  /** The keys of the first `selectedFirst` legs. */
  function PrefixKeys(legs: seq<LegIds>, selectedFirst: nat): set<ContractKey> {
    var prefix := legs[..if selectedFirst <= |legs| then selectedFirst else |legs|];
    set leg | leg in prefix && leg.contractSecurityId >= 0 :: KeyOf(leg)
  }

  ghost function Counted(refusals: seq<Refusal>, picked: set<ContractKey>): seq<Refusal> {
    Filter((r: Refusal) => RefusalIsSubscribed(r.id, picked), refusals)
  }

  lemma {:induction false} RefusalsConcat(a: seq<LegIds>, b: seq<LegIds>, domain: set<ContractKey>)
    ensures RefusalsGiven(a + b, domain) == RefusalsGiven(a, domain) + RefusalsGiven(b, domain)
  {
    if b == [] {
      assert a + b == a;
    } else {
      RefusalsConcat(a, b[..|b| - 1], domain);
      assert (a + b)[..|a + b| - 1] == a + b[..|b| - 1] && (a + b)[|a + b| - 1] == b[|b| - 1];
      LastRefusal(a + b, domain);
      LastRefusal(b, domain);
    }
  }

  lemma LastRefusal(legs: seq<LegIds>, domain: set<ContractKey>)
    requires legs != []
    ensures var front, leg := legs[..|legs| - 1], legs[|legs| - 1];
            RefusalsGiven(legs, domain)
            == RefusalsGiven(front, domain) + (if Written(leg, domain) then [] else [RefusalOf(leg)])
  {
  }

  lemma {:induction false} FilterIsAll<T>(p: T -> bool, xs: seq<T>)
    ensures |Filter(p, xs)| <= |xs|
    ensures Filter(p, xs) == xs <==> forall x | x in xs :: p(x)
  {
    if xs != [] {
      var front, last := xs[..|xs| - 1], xs[|xs| - 1];
      FilterIsAll(p, front);
      assert xs == front + [last];
    }
  }

  lemma {:induction false} RefusalsComeFromLegs(legs: seq<LegIds>, domain: set<ContractKey>, r: Refusal)
    ensures r in RefusalsGiven(legs, domain) <==> exists leg :: leg in legs && !Written(leg, domain) && r == RefusalOf(leg)
  {
    if legs != [] {
      var front, leg := legs[..|legs| - 1], legs[|legs| - 1];
      RefusalsComeFromLegs(front, domain, r);
      assert legs == front + [leg];
    }
  }

  /** Whether another picked leg stands in for a refused one: the count probes
      the derivative segments only. */
  ghost predicate Attributable(leg: LegIds, prefix: seq<LegIds>) {
    leg.contractSecurityId <= 0 ||
    exists other :: other in prefix && other.contractSecurityId == leg.contractSecurityId && other.contractSegment in {NseFno, BseFno}
  }

  /** Counting splits at the prefix. */
  lemma CountedSplits(a: seq<LegIds>, b: seq<LegIds>, domain: set<ContractKey>, picked: set<ContractKey>)
    ensures Counted(RefusalsGiven(a + b, domain), picked)
         == Counted(RefusalsGiven(a, domain), picked) + Counted(RefusalsGiven(b, domain), picked)
  {
    RefusalsConcat(a, b, domain);
    FilterConcat((r: Refusal) => RefusalIsSubscribed(r.id, picked), RefusalsGiven(a, domain), RefusalsGiven(b, domain));
  }

  /** All refusals are counted exactly when each refused leg's is. */
  lemma AllAreCounted(a: seq<LegIds>, domain: set<ContractKey>, picked: set<ContractKey>)
    ensures Counted(RefusalsGiven(a, domain), picked) == RefusalsGiven(a, domain) <==>
            forall leg | leg in a && !Written(leg, domain) :: RefusalIsSubscribed(leg.contractSecurityId, picked)
  {
    var p := (r: Refusal) => RefusalIsSubscribed(r.id, picked);
    var given := RefusalsGiven(a, domain);
    FilterIsAll(p, given);
    forall r: Refusal ensures r in given <==> exists leg :: leg in a && !Written(leg, domain) && r == RefusalOf(leg) {
      RefusalsComeFromLegs(a, domain, r);
    }
    forall leg | leg in a && !Written(leg, domain) ensures RefusalOf(leg) in given && RefusalOf(leg).id == leg.contractSecurityId {
    }
  }

  /** Every refused leg of the selected prefix is counted exactly when each of
      them is in a derivative segment or shares its id with one that is. The
      refusals of the other legs are counted only where they hit a picked id. */
  lemma SelectedRefusalsAreCounted(legs: seq<LegIds>, selectedFirst: nat)
    requires selectedFirst <= |legs|
    ensures var picked, domain := PrefixKeys(legs, selectedFirst), Snapshot(legs).Keys;
            var ofPrefix := RefusalsGiven(legs[..selectedFirst], domain);
            && Counted(RefusalsGiven(legs, domain), picked)
               == Counted(ofPrefix, picked) + Counted(RefusalsGiven(legs[selectedFirst..], domain), picked)
            && (Counted(ofPrefix, picked) == ofPrefix <==>
                forall leg | leg in legs[..selectedFirst] && !Written(leg, domain) :: Attributable(leg, legs[..selectedFirst]))
  {
    CountedForDomain(legs, selectedFirst, PrefixKeys(legs, selectedFirst), Snapshot(legs).Keys);
  }

  lemma CountedForDomain(legs: seq<LegIds>, n: nat, picked: set<ContractKey>, domain: set<ContractKey>)
    requires n <= |legs| && picked == PrefixKeys(legs, n)
    ensures Counted(RefusalsGiven(legs, domain), picked)
         == Counted(RefusalsGiven(legs[..n], domain), picked) + Counted(RefusalsGiven(legs[n..], domain), picked)
    ensures Counted(RefusalsGiven(legs[..n], domain), picked) == RefusalsGiven(legs[..n], domain) <==>
            forall leg | leg in legs[..n] && !Written(leg, domain) :: Attributable(leg, legs[..n])
  {
    assert legs == legs[..n] + legs[n..];
    CountedSplits(legs[..n], legs[n..], domain, picked);
    AllAreCounted(legs[..n], domain, picked);
    AllAreAttributable(legs, n, domain);
  }

  lemma AllAreAttributable(legs: seq<LegIds>, n: nat, domain: set<ContractKey>)
    requires n <= |legs|
    ensures (forall leg | leg in legs[..n] && !Written(leg, domain) ::
               RefusalIsSubscribed(leg.contractSecurityId, PrefixKeys(legs, n)))
       <==> forall leg | leg in legs[..n] && !Written(leg, domain) :: Attributable(leg, legs[..n])
  {
    forall leg | leg in legs[..n]
      ensures RefusalIsSubscribed(leg.contractSecurityId, PrefixKeys(legs, n)) <==> Attributable(leg, legs[..n])
    {
      ProbeFinds(leg, legs, n);
    }
  }

  lemma ProbeFinds(leg: LegIds, legs: seq<LegIds>, n: nat)
    requires n <= |legs|
    ensures RefusalIsSubscribed(leg.contractSecurityId, PrefixKeys(legs, n)) <==> Attributable(leg, legs[..n])
  {
    var picked, id := PrefixKeys(legs, n), leg.contractSecurityId;
    if id > 0 {
      forall segment: ExchangeSegment
        ensures ContractKey(id, segment) in picked
           <==> exists other :: other in legs[..n] && other.contractSecurityId == id && other.contractSegment == segment
      {
        if other :| other in legs[..n] && other.contractSecurityId == id && other.contractSegment == segment {
          assert KeyOf(other) == ContractKey(id, segment);
        }
      }
    }
  }

  lemma OneRefusal(leg: LegIds, picked: set<ContractKey>)
    requires !Usable(leg)
    ensures RefusalsGiven([leg], Snapshot([leg]).Keys) == [RefusalOf(leg)]
    ensures Counted([RefusalOf(leg)], picked) == if RefusalIsSubscribed(leg.contractSecurityId, picked) then [RefusalOf(leg)] else []
  {
    var p := (r: Refusal) => RefusalIsSubscribed(r.id, picked);
    assert [leg][..0] == [] && [RefusalOf(leg)][..0] == [];
    assert Filter(p, [RefusalOf(leg)]) == Filter(p, []) + (if p(RefusalOf(leg)) then [RefusalOf(leg)] else []);
  }

  /** The limit of the law: a refused subscribed leg of a cash segment is not
      counted. */
  lemma CashLegGoesUncounted()
    ensures var leg := LegIds(7, 0, NseEquity, Stock, 1);
            && RefusalsGiven([leg], Snapshot([leg]).Keys) == [Refusal(7, ZeroOrNegativeUnderlyingId)]
            && Counted([Refusal(7, ZeroOrNegativeUnderlyingId)], PrefixKeys([leg], 1)) == []
  {
    var leg := LegIds(7, 0, NseEquity, Stock, 1);
    OneRefusal(leg, PrefixKeys([leg], 1));
    assert forall k | k in PrefixKeys([leg], 1) :: k.segment == NseEquity;
  }

  /** The published table. Readers see the old table or the new one, never one
      half built. */
  class ContractUnderlyingMap {
    var inner: map<ContractKey, ContractOwner>

    constructor ()
      ensures inner == map[]
    {
      inner := map[];
    }

    method Publish(snapshot: map<ContractKey, ContractOwner>)
      modifies this
      ensures inner == snapshot
    {
      inner := snapshot;
    }

    /** Builds from all legs, publishes, and counts the refusals of the
        subscribed prefix. */
    method PublishFromLegsSelectedFirst(legs: seq<LegIds>, selectedFirst: nat)
      returns (accepted: nat, refusals: seq<Refusal>, counted: nat)
      modifies this
      ensures inner == Snapshot(legs) && accepted == |inner|
      ensures refusals == RefusalsGiven(legs, inner.Keys)
      ensures counted == |Counted(refusals, PrefixKeys(legs, selectedFirst))|
    {
      var picked := PrefixKeys(legs, selectedFirst);
      var m: map<ContractKey, ContractOwner>;
      m, accepted, refusals := BuildSnapshot(legs);
      counted := 0;
      for i := 0 to |refusals|
        invariant counted == |Counted(refusals[..i], picked)|
      {
        assert refusals[..i + 1][..i] == refusals[..i];
        if RefusalIsSubscribed(refusals[i].id, picked) {
          counted := counted + 1;
        }
      }
      assert refusals[..|refusals|] == refusals;
      Publish(m);
    }

    function OwnerOfContract(contractId: nat, segment: ExchangeSegment): Option<ContractOwner>
      reads this
    {
      var key := ContractKey(contractId, segment);
      if key in inner then Some(inner[key]) else None
    }
  }

  /** After a publish a contract is looked up to the underlying, lot size and
      family of its last usable leg. */
  lemma FoundOwnerIsLastLeg(m: ContractUnderlyingMap, legs: seq<LegIds>, id: nat, segment: ExchangeSegment) returns (i: nat)
    requires m.inner == Snapshot(legs) && m.OwnerOfContract(id, segment).Some?
    ensures i < |legs| && IsLegFor(legs[i], ContractKey(id, segment))
    ensures forall j | i < j < |legs| :: !IsLegFor(legs[j], ContractKey(id, segment))
    ensures var owner := m.OwnerOfContract(id, segment).value;
            && owner.underlyingId == legs[i].underlyingSecurityId && owner.lotSize == legs[i].lotSize
            && owner.family == legs[i].family
  {
    i := SnapshotOwner(legs, ContractKey(id, segment));
  }

  /** The demand counts the distinct contracts that have a usable leg and are
      subscribed. */
  lemma DemandIsCounted(legs: seq<LegIds>, selected: seq<SubscribeInstrument>)
    ensures SelectedDemand(legs, selected)
         == |set k: ContractKey | k in Uncapped(legs) && SubscribeInstrument(k.id, k.segment) in selected|
  {
    var picked := PickedKeys(selected);
    var keys := Distinct(EntriesOf(Selected(legs, picked)));
    SizeOfKeys(keys);
    forall k: ContractKey
      ensures k in keys <==> k in Uncapped(legs) && SubscribeInstrument(k.id, k.segment) in selected
    {
      SelectedKeys(legs, picked, k);
      PickedExactly(selected, k);
    }
    assert (set k | k in keys) == set k: ContractKey | k in Uncapped(legs) && SubscribeInstrument(k.id, k.segment) in selected;
  }

  lemma PickedExactly(selected: seq<SubscribeInstrument>, k: ContractKey)
    ensures k in PickedKeys(selected) <==> SubscribeInstrument(k.id, k.segment) in selected
  {
    if k in PickedKeys(selected) {
      var s :| s in selected && ContractKey(s.securityId, s.segment) == k;
      assert s == SubscribeInstrument(k.id, k.segment);
    }
  }

  /** After a publish in selected-first order every subscribed contract with a
      usable leg is looked up to the underlying, lot size and family of its last
      usable leg, whenever the subscribed contracts fit. */
  lemma SubscribedOwnersAreFound(m: ContractUnderlyingMap, legs: seq<LegIds>, selected: seq<SubscribeInstrument>, k: ContractKey)
    returns (i: nat)
    requires m.inner == Snapshot(OrderSelectedFirst(legs, selected).0)
    requires SelectedDemand(legs, selected) <= MAX_TRACKED_CONTRACTS
    requires SubscribeInstrument(k.id, k.segment) in selected && exists leg :: leg in legs && IsLegFor(leg, k)
    ensures i < |legs| && IsLegFor(legs[i], k) && (forall j | i < j < |legs| :: !IsLegFor(legs[j], k))
    ensures m.OwnerOfContract(k.id, k.segment).Some?
    ensures var owner := m.OwnerOfContract(k.id, k.segment).value;
            && owner.underlyingId == legs[i].underlyingSecurityId && owner.lotSize == legs[i].lotSize
            && owner.family == legs[i].family
  {
    PickedExactly(selected, k);
    UncappedKeys(legs, k);
    SubscribedContractsAreMapped(legs, selected);
    i := OwnerIsLast(legs, k);
  }
}
