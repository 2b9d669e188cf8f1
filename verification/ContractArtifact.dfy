/** The day's contract rows turned into option legs and into labels. */
module ContractArtifact {
  import opened Bytes
  import opened CappedFold
  import opened ContractLabel
  import opened ContractMap
  import opened Decimal
  import opened Integers
  import opened Utf8
  import opened Wrappers

  /** One derivative row, under the artifact's own short field names. */
  datatype ContractRow = ContractRow(i: nat, x: string, c: string, e: nat, s: int, l: string, u: string, z: nat)

  /** `ExchangeSegment::binary_code` of the two underlying segments. */
  const IDX_CODE: nat := 0
  const EQ_CODE: nat := 1

  /** NSE derivatives only; every other exchange is refused. */
  function DerivativeSegment(exchange: string): Option<ExchangeSegment> {
    if exchange == "NSE" then Some(NseFno) else None
  }

  predicate IsOption(row: ContractRow) {
    row.c == "OPTIDX" || row.c == "OPTSTK"
  }

  /** A symbol of the mapping artifact: its id and segment code. */
  datatype Symbol = Symbol(id: nat, segmentCode: nat)

  type Symbols = map<string, Symbol>

  // --------------------------------------------------------- legs

  ghost function RowFamily(row: ContractRow): OptionFamily {
    if row.c == "OPTIDX" then Index else Stock
  }

  /** Why an option row makes no leg, the first reason in source order. */
  ghost function RowRefusal(row: ContractRow, symbols: Symbols, upper: string -> string): Option<Refusal> {
    var name := upper(Trim(row.u));
    if row.i == 0 || row.i > I64_MAX then Some(Refusal(0, ZeroOrNegativeContractId))
    else if DerivativeSegment(row.x).None? then Some(Refusal(row.i, UnsupportedSegment))
    else if name !in symbols then Some(Refusal(row.i, UnresolvedUnderlyingSymbol))
    else if symbols[name].segmentCode != (if RowFamily(row).Index? then IDX_CODE else EQ_CODE)
      then Some(Refusal(row.i, UnderlyingClassMismatch))
    else if symbols[name].id == 0 || symbols[name].id > I64_MAX then Some(Refusal(row.i, ZeroOrNegativeUnderlyingId))
    else if row.z == 0 then Some(Refusal(row.i, MissingLotSize))
    else None
  }

  ghost function RowLeg(row: ContractRow, symbols: Symbols, upper: string -> string): LegIds
    requires RowRefusal(row, symbols, upper).None?
  {
    LegIds(row.i, symbols[upper(Trim(row.u))].id, NseFno, RowFamily(row), row.z)
  }

  ghost function LegsOf(rows: seq<ContractRow>, symbols: Symbols, upper: string -> string): seq<LegIds> {
    if rows == [] then []
    else
      var row := rows[|rows| - 1];
      LegsOf(rows[..|rows| - 1], symbols, upper)
      + (if IsOption(row) && RowRefusal(row, symbols, upper).None? then [RowLeg(row, symbols, upper)] else [])
  }

  ghost function RefusedRows(rows: seq<ContractRow>, symbols: Symbols, upper: string -> string): seq<Refusal> {
    if rows == [] then []
    else
      var row := rows[|rows| - 1];
      RefusedRows(rows[..|rows| - 1], symbols, upper)
      + (if IsOption(row) && RowRefusal(row, symbols, upper).Some? then [RowRefusal(row, symbols, upper).value] else [])
  }

  /** One pass over the rows. `upper` is Unicode upper-casing, which the
      mapping artifact applied to its own keys. */
  method LegsFromArtifact(rows: seq<ContractRow>, symbols: Symbols, upper: string -> string)
    returns (legs: seq<LegIds>, refusals: seq<Refusal>)
    ensures legs == LegsOf(rows, symbols, upper)
    ensures refusals == RefusedRows(rows, symbols, upper)
  {
    legs, refusals := [], [];
    for n := 0 to |rows|
      invariant legs == LegsOf(rows[..n], symbols, upper)
      invariant refusals == RefusedRows(rows[..n], symbols, upper)
    {
      var row := rows[n];
      assert rows[..n + 1][..n] == rows[..n];
      var family;
      if row.c == "OPTIDX" {
        family := Index;
      } else if row.c == "OPTSTK" {
        family := Stock;
      } else {
        continue;
      }
      if !(0 < row.i <= I64_MAX) {
        refusals := refusals + [Refusal(0, ZeroOrNegativeContractId)];
        continue;
      }
      var segment := DerivativeSegment(row.x);
      if segment.None? {
        refusals := refusals + [Refusal(row.i, UnsupportedSegment)];
        continue;
      }
      var name := upper(Trim(row.u));
      if name !in symbols {
        refusals := refusals + [Refusal(row.i, UnresolvedUnderlyingSymbol)];
        continue;
      }
      var underlying := symbols[name];
      var expected := match family case Index => IDX_CODE case Stock => EQ_CODE;
      if underlying.segmentCode != expected {
        refusals := refusals + [Refusal(row.i, UnderlyingClassMismatch)];
        continue;
      }
      if underlying.id > I64_MAX {
        refusals := refusals + [Refusal(row.i, ZeroOrNegativeUnderlyingId)];
        continue;
      }
      if underlying.id <= 0 {
        refusals := refusals + [Refusal(row.i, ZeroOrNegativeUnderlyingId)];
        continue;
      }
      if row.z == 0 {
        refusals := refusals + [Refusal(row.i, MissingLotSize)];
        continue;
      }
      legs := legs + [LegIds(row.i, underlying.id, segment.value, family, row.z)];
    }
    assert rows[..|rows|] == rows;
  }

  ghost function PerRow<T>(f: ContractRow -> seq<T>, rows: seq<ContractRow>): seq<T> {
    if rows == [] then [] else PerRow(f, rows[..|rows| - 1]) + f(rows[|rows| - 1])
  }

  lemma {:induction false} PerRowConcat<T>(f: ContractRow -> seq<T>, a: seq<ContractRow>, b: seq<ContractRow>)
    ensures PerRow(f, a + b) == PerRow(f, a) + PerRow(f, b)
  {
    if b == [] {
      assert a + b == a;
    } else {
      PerRowConcat(f, a, b[..|b| - 1]);
      assert (a + b)[..|a + b| - 1] == a + b[..|b| - 1];
    }
  }

  ghost function LegOfRow(symbols: Symbols, upper: string -> string): ContractRow -> seq<LegIds> {
    row => if IsOption(row) && RowRefusal(row, symbols, upper).None? then [RowLeg(row, symbols, upper)] else []
  }

  ghost function RefusalOfRow(symbols: Symbols, upper: string -> string): ContractRow -> seq<Refusal> {
    row => if IsOption(row) && RowRefusal(row, symbols, upper).Some? then [RowRefusal(row, symbols, upper).value] else []
  }

  lemma {:induction false} TakenPerRow(rows: seq<ContractRow>, symbols: Symbols, upper: string -> string)
    ensures LegsOf(rows, symbols, upper) == PerRow(LegOfRow(symbols, upper), rows)
    ensures RefusedRows(rows, symbols, upper) == PerRow(RefusalOfRow(symbols, upper), rows)
  {
    if rows != [] {
      TakenPerRow(rows[..|rows| - 1], symbols, upper);
    }
  }

  /** Rows are taken one by one, in file order: no row bears on another. */
  lemma RowsAreIndependent(a: seq<ContractRow>, b: seq<ContractRow>, symbols: Symbols, upper: string -> string)
    ensures LegsOf(a + b, symbols, upper) == LegsOf(a, symbols, upper) + LegsOf(b, symbols, upper)
    ensures RefusedRows(a + b, symbols, upper) == RefusedRows(a, symbols, upper) + RefusedRows(b, symbols, upper)
  {
    TakenPerRow(a + b, symbols, upper);
    TakenPerRow(a, symbols, upper);
    TakenPerRow(b, symbols, upper);
    PerRowConcat(LegOfRow(symbols, upper), a, b);
    PerRowConcat(RefusalOfRow(symbols, upper), a, b);
  }

  /** The symbol a row names, if the mapping artifact has one. */
  ghost function SymbolOf(row: ContractRow, symbols: Symbols, upper: string -> string): Option<Symbol> {
    if upper(Trim(row.u)) in symbols then Some(symbols[upper(Trim(row.u))]) else None
  }

  /** A row that makes a leg: an option row on NSE with an id and a lot size,
      whose symbol resolves to an id of the segment its class asks for, 0 for an
      index and 1 for a stock. */
  ghost predicate MakesLeg(row: ContractRow, symbol: Option<Symbol>) {
    && row.c in {"OPTIDX", "OPTSTK"} && 0 < row.i <= I64_MAX && row.x == "NSE" && row.z > 0
    && symbol.Some? && symbol.value.segmentCode == (if row.c == "OPTIDX" then 0 else 1) && 0 < symbol.value.id <= I64_MAX
  }

  /** What one row makes: its leg, with its own id and lot size, its symbol's
      id, and the family of its class; or a refusal; or nothing. */
  lemma OneRow(row: ContractRow, symbols: Symbols, upper: string -> string)
    ensures var symbol := SymbolOf(row, symbols, upper);
            LegsOf([row], symbols, upper) ==
            if MakesLeg(row, symbol)
            then [LegIds(row.i, symbol.value.id, NseFno, if row.c == "OPTIDX" then Index else Stock, row.z)] else []
    ensures RefusedRows([row], symbols, upper) == [] <==>
            row.c !in {"OPTIDX", "OPTSTK"} || MakesLeg(row, SymbolOf(row, symbols, upper))
  {
    assert [row][..0] == [];
  }

  /** The reason is the first thing wrong, in the order the scan looks. */
  lemma OneRowRefused(row: ContractRow, symbols: Symbols, upper: string -> string)
    requires row.c in {"OPTIDX", "OPTSTK"} && !MakesLeg(row, SymbolOf(row, symbols, upper))
    ensures var symbol := SymbolOf(row, symbols, upper);
            RefusedRows([row], symbols, upper) ==
            if row.i == 0 || row.i > I64_MAX then [Refusal(0, ZeroOrNegativeContractId)]
            else [Refusal(row.i,
                          if row.x != "NSE" then UnsupportedSegment
                          else if symbol.None? then UnresolvedUnderlyingSymbol
                          else if symbol.value.segmentCode != (if row.c == "OPTIDX" then 0 else 1) then UnderlyingClassMismatch
                          else if symbol.value.id == 0 || symbol.value.id > I64_MAX then ZeroOrNegativeUnderlyingId
                          else MissingLotSize)]
  {
    assert [row][..0] == [];
  }

  /** Every leg the artifact yields is usable and on NSE derivatives, and came
      from an option row of the right class: the leg's ids, lot size and family
      are those of the row and of the symbol it names. */
  lemma {:induction false} ArtifactLegsAreUsable(rows: seq<ContractRow>, symbols: Symbols, upper: string -> string, leg: LegIds)
    requires leg in LegsOf(rows, symbols, upper)
    ensures Usable(leg) && leg.contractSegment == NseFno
    ensures exists row :: row in rows && IsLegOf(row, SymbolOf(row, symbols, upper), leg)
  {
    var front, row := rows[..|rows| - 1], rows[|rows| - 1];
    assert rows == front + [row];
    RowsAreIndependent(front, [row], symbols, upper);
    OneRow(row, symbols, upper);
    if leg in LegsOf(front, symbols, upper) {
      ArtifactLegsAreUsable(front, symbols, upper, leg);
      var r :| r in front && IsLegOf(r, SymbolOf(r, symbols, upper), leg);
      assert r in rows;
    } else {
      assert row in rows && IsLegOf(row, SymbolOf(row, symbols, upper), leg);
    }
  }

  ghost predicate IsLegOf(row: ContractRow, symbol: Option<Symbol>, leg: LegIds) {
    && MakesLeg(row, symbol)
    && leg.contractSecurityId == row.i && leg.underlyingSecurityId == symbol.value.id && leg.lotSize == row.z
    && leg.contractSegment == NseFno && (leg.family == Index <==> row.c == "OPTIDX")
  }

  /** The table refuses nothing the artifact scan let through, except at the
      cap. */
  lemma ArtifactIsRefusedOnlyAtCapacity(rows: seq<ContractRow>, symbols: Symbols, upper: string -> string)
    ensures var legs := LegsOf(rows, symbols, upper);
            forall r | r in RefusalsGiven(legs, Snapshot(legs).Keys) :: r.reason == AtCapacity && r.id > 0
  {
    var legs := LegsOf(rows, symbols, upper);
    forall leg | leg in legs ensures Usable(leg) {
      ArtifactLegsAreUsable(rows, symbols, upper, leg);
    }
    UsableLegsAreRefusedAtCapacity(legs, Snapshot(legs).Keys);
  }

  lemma UsableLegsAreRefusedAtCapacity(legs: seq<LegIds>, domain: set<ContractKey>)
    requires forall leg | leg in legs :: Usable(leg)
    ensures forall r | r in RefusalsGiven(legs, domain) :: r.reason == AtCapacity && r.id > 0
  {
    forall r | r in RefusalsGiven(legs, domain) ensures r.reason == AtCapacity && r.id > 0 {
      RefusalsComeFromLegs(legs, domain, r);
    }
  }

  ghost function OptionRows(rows: seq<ContractRow>): nat {
    if rows == [] then 0
    else OptionRows(rows[..|rows| - 1]) + (if IsOption(rows[|rows| - 1]) then 1 else 0)
  }

  /** Every option row becomes a leg or a refusal; other rows become neither. */
  lemma {:induction false} OptionRowsAreAccountedFor(rows: seq<ContractRow>, symbols: Symbols, upper: string -> string)
    ensures |LegsOf(rows, symbols, upper)| + |RefusedRows(rows, symbols, upper)| == OptionRows(rows)
  {
    if rows != [] {
      OptionRowsAreAccountedFor(rows[..|rows| - 1], symbols, upper);
    }
  }

  // --------------------------------------------------------- labels

  predicate Eligible(row: ContractRow) {
    IsOption(row) && row.i != 0 && DerivativeSegment(row.x).Some?
  }

  function RowKey(row: ContractRow): ContractKey
    requires Eligible(row)
  {
    ContractKey(row.i, DerivativeSegment(row.x).value)
  }

  ghost function RowLabel(row: ContractRow): seq<byte> {
    Encode(CapText(RawLabel(row.u, row.e, row.s, row.l)))
  }

  type LabelEntry = Entry<ContractKey, seq<byte>>

  ghost function RowEntry(row: ContractRow): LabelEntry
    requires Eligible(row)
  {
    Entry(RowKey(row), RowLabel(row))
  }

  /** All rows that can be labelled, in file order. */
  ghost function FileOrder(rows: seq<ContractRow>): seq<LabelEntry> {
    if rows == [] then []
    else
      var row := rows[|rows| - 1];
      FileOrder(rows[..|rows| - 1]) + (if Eligible(row) then [RowEntry(row)] else [])
  }

  /** The rows one pass takes: the subscribed ones, or the others. */
  ghost function PassOrder(rows: seq<ContractRow>, picked: set<ContractKey>, wantSelected: bool): seq<LabelEntry> {
    if rows == [] then []
    else
      var row := rows[|rows| - 1];
      PassOrder(rows[..|rows| - 1], picked, wantSelected)
      + (if Eligible(row) && (RowKey(row) in picked) == wantSelected then [RowEntry(row)] else [])
  }

  ghost function TwoPasses(rows: seq<ContractRow>, picked: set<ContractKey>): seq<LabelEntry> {
    PassOrder(rows, picked, true) + PassOrder(rows, picked, false)
  }

  lemma {:induction false} NothingPicked(rows: seq<ContractRow>)
    ensures PassOrder(rows, {}, true) == []
  {
    if rows != [] {
      NothingPicked(rows[..|rows| - 1]);
    }
  }

  lemma PassMore(rows: seq<ContractRow>, picked: set<ContractKey>, wantSelected: bool)
    requires rows != []
    ensures var row := rows[|rows| - 1]; var front := PassOrder(rows[..|rows| - 1], picked, wantSelected);
            PassOrder(rows, picked, wantSelected) ==
            if Eligible(row) && (RowKey(row) in picked) == wantSelected then front + [RowEntry(row)] else front
  {
  }

  lemma AppendBehind<T>(a: seq<T>, b: seq<T>, x: T)
    ensures a + (b + [x]) == (a + b) + [x]
  {
  }

  lemma PassStep(done: seq<LabelEntry>, rows: seq<ContractRow>, n: nat, picked: set<ContractKey>, wantSelected: bool)
    requires n < |rows|
    ensures var row := rows[n];
            var before := done + PassOrder(rows[..n], picked, wantSelected);
            done + PassOrder(rows[..n + 1], picked, wantSelected) ==
            if Eligible(row) && (RowKey(row) in picked) == wantSelected then before + [RowEntry(row)] else before
  {
    assert rows[..n + 1][..n] == rows[..n];
    PassMore(rows[..n + 1], picked, wantSelected);
    if Eligible(rows[n]) && (RowKey(rows[n]) in picked) == wantSelected {
      AppendBehind(done, PassOrder(rows[..n], picked, wantSelected), RowEntry(rows[n]));
    }
  }

  /** One pass over the rows, on top of what earlier passes labelled. */
  method LabelPass(rows: seq<ContractRow>, picked: set<ContractKey>, wantSelected: bool,
                   before: map<ContractKey, seq<byte>>, ghost done: seq<LabelEntry>)
    returns (labels: map<ContractKey, seq<byte>>)
    requires before == Capped(done, MAX_TRACKED_CONTRACTS)
    ensures labels == Capped(done + PassOrder(rows, picked, wantSelected), MAX_TRACKED_CONTRACTS)
  {
    labels := before;
    assert done + PassOrder(rows[..0], picked, wantSelected) == done;
    for n := 0 to |rows|
      invariant labels == Capped(done + PassOrder(rows[..n], picked, wantSelected), MAX_TRACKED_CONTRACTS)
    {
      var row := rows[n];
      PassStep(done, rows, n, picked, wantSelected);
      if row.c != "OPTIDX" && row.c != "OPTSTK" {
        continue;
      }
      if row.i == 0 {
        continue;
      }
      var segment := DerivativeSegment(row.x);
      if segment.None? {
        continue;
      }
      var key := ContractKey(row.i, segment.value);
      if (key in picked) != wantSelected {
        continue;
      }
      CappedStep(done + PassOrder(rows[..n], picked, wantSelected), RowEntry(row), MAX_TRACKED_CONTRACTS);
      if |labels| >= MAX_TRACKED_CONTRACTS && key !in labels {
        continue;
      }
      var printed := Render(row.u, row.e, row.s, row.l);
      labels := labels[key := printed];
    }
    assert rows[..|rows|] == rows;
  }

  /** Two passes over the rows: subscribed contracts are labelled first, and
      the others take what room is left. */
  method LabelsSelectedFirst(rows: seq<ContractRow>, selected: seq<SubscribeInstrument>)
    returns (labels: map<ContractKey, seq<byte>>)
    ensures labels == Capped(TwoPasses(rows, PickedKeys(selected)), MAX_TRACKED_CONTRACTS)
    ensures |labels| <= MAX_TRACKED_CONTRACTS
  {
    var picked := PickedKeys(selected);
    labels := map[];
    ghost var done: seq<LabelEntry> := [];
    for pass := 0 to 2
      invariant labels == Capped(done, MAX_TRACKED_CONTRACTS)
      invariant done == (if pass == 0 then [] else if pass == 1 then PassOrder(rows, picked, true) else TwoPasses(rows, picked))
    {
      var wantSelected := pass == 0;
      if wantSelected && picked == {} {
        NothingPicked(rows);
        continue;
      }
      labels := LabelPass(rows, picked, wantSelected, labels, done);
      done := done + PassOrder(rows, picked, wantSelected);
    }
    CappedSize(done, MAX_TRACKED_CONTRACTS);
  }

  lemma OfRow(entries: seq<LabelEntry>, row: ContractRow, k: ContractKey)
    requires Eligible(row)
    ensures Of(entries + [RowEntry(row)], k) == Of(entries, k) + (if RowKey(row) == k then [RowEntry(row)] else [])
  {
    assert (entries + [RowEntry(row)])[..|entries|] == entries;
  }

  ghost function RowFor(row: ContractRow, k: ContractKey): seq<LabelEntry> {
    if Eligible(row) && RowKey(row) == k then [RowEntry(row)] else []
  }

  lemma OfFile(rows: seq<ContractRow>, k: ContractKey)
    requires rows != []
    ensures Of(FileOrder(rows), k) == Of(FileOrder(rows[..|rows| - 1]), k) + RowFor(rows[|rows| - 1], k)
  {
    var front, row := FileOrder(rows[..|rows| - 1]), rows[|rows| - 1];
    if Eligible(row) {
      OfRow(front, row, k);
    } else {
      assert FileOrder(rows) == front;
    }
  }

  lemma OfPass(rows: seq<ContractRow>, picked: set<ContractKey>, want: bool, k: ContractKey)
    requires rows != []
    ensures Of(PassOrder(rows, picked, want), k)
         == Of(PassOrder(rows[..|rows| - 1], picked, want), k) + (if (k in picked) == want then RowFor(rows[|rows| - 1], k) else [])
  {
    var front, row := PassOrder(rows[..|rows| - 1], picked, want), rows[|rows| - 1];
    PassMore(rows, picked, want);
    if Eligible(row) && (RowKey(row) in picked) == want {
      OfRow(front, row, k);
    }
  }

  /** Splitting the rows in two passes keeps the entries of every key. */
  lemma {:induction false} PassesKeepKey(rows: seq<ContractRow>, picked: set<ContractKey>, k: ContractKey)
    ensures Of(PassOrder(rows, picked, k in picked), k) == Of(FileOrder(rows), k)
    ensures Of(PassOrder(rows, picked, k !in picked), k) == []
  {
    if rows != [] {
      PassesKeepKey(rows[..|rows| - 1], picked, k);
      OfFile(rows, k);
      OfPass(rows, picked, k in picked, k);
      OfPass(rows, picked, k !in picked, k);
    }
  }

  lemma SameFold(rows: seq<ContractRow>, picked: set<ContractKey>)
    ensures Fold(TwoPasses(rows, picked)) == Fold(FileOrder(rows))
  {
    forall k: ContractKey
      ensures k in Fold(TwoPasses(rows, picked)) <==> k in Fold(FileOrder(rows))
      ensures k in Fold(FileOrder(rows)) ==> Fold(TwoPasses(rows, picked))[k] == Fold(FileOrder(rows))[k]
    {
      SameLabel(rows, picked, k);
    }
  }

  lemma SameLabel(rows: seq<ContractRow>, picked: set<ContractKey>, k: ContractKey)
    ensures k in Fold(TwoPasses(rows, picked)) <==> k in Fold(FileOrder(rows))
    ensures k in Fold(FileOrder(rows)) ==> Fold(TwoPasses(rows, picked))[k] == Fold(FileOrder(rows))[k]
  {
    PassesKeepKey(rows, picked, k);
    OfConcat(PassOrder(rows, picked, true), PassOrder(rows, picked, false), k);
    SameOfSameFold(TwoPasses(rows, picked), FileOrder(rows), k);
  }

  lemma FoldStep(entries: seq<LabelEntry>, e: LabelEntry)
    ensures Fold(entries + [e]) == Fold(entries)[e.key := e.value]
  {
    assert (entries + [e])[..|entries|] == entries;
  }

  lemma FileStep(front: seq<ContractRow>, row: ContractRow)
    ensures Fold(FileOrder(front + [row]))
         == if Eligible(row) then Fold(FileOrder(front))[RowKey(row) := RowLabel(row)] else Fold(FileOrder(front))
  {
    assert (front + [row])[..|front|] == front;
    if Eligible(row) {
      FoldStep(FileOrder(front), RowEntry(row));
    } else {
      assert FileOrder(front + [row]) == FileOrder(front);
    }
  }

  ghost predicate IsLastRow(rows: seq<ContractRow>, n: nat, k: ContractKey) {
    && n < |rows| && Eligible(rows[n]) && RowKey(rows[n]) == k
    && forall m | n < m < |rows| && Eligible(rows[m]) :: RowKey(rows[m]) != k
  }

  lemma StillLast(front: seq<ContractRow>, last: ContractRow, n: nat, k: ContractKey)
    requires IsLastRow(front, n, k) && !(Eligible(last) && RowKey(last) == k)
    ensures IsLastRow(front + [last], n, k)
  {
  }

  /** A label is that of its key's last eligible row, whatever was selected. */
  lemma {:induction false} LabelIsLastRow(rows: seq<ContractRow>, k: ContractKey) returns (n: nat)
    requires k in Fold(FileOrder(rows))
    ensures IsLastRow(rows, n, k) && Fold(FileOrder(rows))[k] == RowLabel(rows[n])
  {
    var front, last := rows[..|rows| - 1], rows[|rows| - 1];
    assert rows == front + [last];
    FileStep(front, last);
    if Eligible(last) && RowKey(last) == k {
      n := |rows| - 1;
    } else {
      n := LabelIsLastRow(front, k);
      StillLast(front, last, n, k);
    }
  }

  /** The row names this contract: an option on NSE with its id. */
  ghost predicate IsRowFor(row: ContractRow, k: ContractKey) {
    row.c in {"OPTIDX", "OPTSTK"} && row.i == k.id && row.i > 0 && row.x == "NSE" && k.segment == NseFno
  }

  /** A label is that of its contract's last option row, made of that row's
      underlying, expiry, strike and option leg. */
  lemma LabelsKeepLastRow(rows: seq<ContractRow>, selected: seq<SubscribeInstrument>, k: ContractKey) returns (n: nat)
    requires k in Capped(TwoPasses(rows, PickedKeys(selected)), MAX_TRACKED_CONTRACTS)
    ensures n < |rows| && IsRowFor(rows[n], k) && (forall m | n < m < |rows| :: !IsRowFor(rows[m], k))
    ensures Capped(TwoPasses(rows, PickedKeys(selected)), MAX_TRACKED_CONTRACTS)[k]
         == Encode(CapText(RawLabel(rows[n].u, rows[n].e, rows[n].s, rows[n].l)))
  {
    SameFold(rows, PickedKeys(selected));
    n := LabelIsLastRow(rows, k);
    forall m | n < m < |rows| ensures !IsRowFor(rows[m], k) {
      assert Eligible(rows[m]) ==> RowKey(rows[m]) != k;
    }
  }

  /** Every subscribed contract of the file is labelled if and only if the
      subscribed contracts alone fit. */
  lemma SubscribedContractsAreLabelled(rows: seq<ContractRow>, selected: seq<SubscribeInstrument>)
    ensures (forall row, k | row in rows && IsRowFor(row, k) && SubscribeInstrument(k.id, k.segment) in selected ::
               k in Capped(TwoPasses(rows, PickedKeys(selected)), MAX_TRACKED_CONTRACTS))
       <==> SubscribedRows(rows, selected) <= MAX_TRACKED_CONTRACTS
  {
    var labels, picked := Capped(TwoPasses(rows, PickedKeys(selected)), MAX_TRACKED_CONTRACTS), PickedKeys(selected);
    PickedRowsAreLabelled(rows, selected);
    SubscribedRowsAreCounted(rows, selected);
    forall row, k
      ensures IsRowFor(row, k) && SubscribeInstrument(k.id, k.segment) in selected
              <==> Eligible(row) && RowKey(row) == k && k in picked
    {
      PickedExactly(selected, k);
    }
    if forall row, k | row in rows && IsRowFor(row, k) && SubscribeInstrument(k.id, k.segment) in selected :: k in labels {
      forall row | row in rows && Eligible(row) && RowKey(row) in picked ensures RowKey(row) in labels {
        assert IsRowFor(row, RowKey(row));
      }
    }
  }

  /** How many distinct contracts of the file are subscribed. */
  ghost function SubscribedRows(rows: seq<ContractRow>, selected: seq<SubscribeInstrument>): nat {
    |set row | row in rows && row.c in {"OPTIDX", "OPTSTK"} && row.i > 0 && row.x == "NSE"
               && SubscribeInstrument(row.i, NseFno) in selected :: row.i|
  }

  lemma SubscribedRowsAreCounted(rows: seq<ContractRow>, selected: seq<SubscribeInstrument>)
    ensures SubscribedRows(rows, selected) == |Distinct(PassOrder(rows, PickedKeys(selected), true))|
  {
    var picked := PickedKeys(selected);
    var keys := Distinct(PassOrder(rows, picked, true));
    var ids := set row | row in rows && row.c in {"OPTIDX", "OPTSTK"} && row.i > 0 && row.x == "NSE"
                         && SubscribeInstrument(row.i, NseFno) in selected :: row.i;
    SizeOfKeys(keys);
    forall k: ContractKey ensures k in keys <==> k.segment == NseFno && k.id in ids {
      PassKeys(rows, picked, true, k);
      HasSubscribedRow(rows, selected, k);
    }
    var members := set k | k in keys;
    SameSize(members, ids);
  }

  lemma HasSubscribedRow(rows: seq<ContractRow>, selected: seq<SubscribeInstrument>, k: ContractKey)
    ensures HasRow(rows, PickedKeys(selected), true, k) <==>
            k.segment == NseFno && exists row :: row in rows && row.c in {"OPTIDX", "OPTSTK"} && row.i > 0 && row.x == "NSE"
                                                 && SubscribeInstrument(row.i, NseFno) in selected && row.i == k.id
  {
    var picked := PickedKeys(selected);
    PickedExactly(selected, k);
    if row :| row in rows && InPass(row, picked, true) && RowKey(row) == k {
      assert row.c in {"OPTIDX", "OPTSTK"} && row.i == k.id;
    }
    if row :| row in rows && row.c in {"OPTIDX", "OPTSTK"} && row.i > 0 && row.x == "NSE"
              && SubscribeInstrument(row.i, NseFno) in selected && row.i == k.id && k.segment == NseFno
    {
      assert InPass(row, picked, true) && RowKey(row) == k;
    }
  }

  lemma {:induction false} SameSize(keys: set<ContractKey>, ids: set<nat>)
    requires forall k: ContractKey :: k in keys <==> k.segment == NseFno && k.id in ids
    ensures |keys| == |ids|
  {
    if id :| id in ids {
      var k := ContractKey(id, NseFno);
      assert k in keys;
      SameSize(keys - {k}, ids - {id});
    } else {
      assert keys == {};
    }
  }

  lemma PickedRowsAreLabelled(rows: seq<ContractRow>, selected: seq<SubscribeInstrument>)
    ensures (forall row | row in rows && Eligible(row) && RowKey(row) in PickedKeys(selected) ::
               RowKey(row) in Capped(TwoPasses(rows, PickedKeys(selected)), MAX_TRACKED_CONTRACTS))
       <==> |Distinct(PassOrder(rows, PickedKeys(selected), true))| <= MAX_TRACKED_CONTRACTS
  {
    var picked := PickedKeys(selected);
    FirstPartFits(PassOrder(rows, picked, true), PassOrder(rows, picked, false), MAX_TRACKED_CONTRACTS);
    forall k: ContractKey
      ensures k in Distinct(PassOrder(rows, picked, true))
         <==> exists row :: row in rows && Eligible(row) && RowKey(row) in picked && RowKey(row) == k
    {
      PassKeys(rows, picked, true, k);
    }
  }

  ghost predicate InPass(row: ContractRow, picked: set<ContractKey>, want: bool) {
    Eligible(row) && (RowKey(row) in picked) == want
  }

  lemma DistinctStep(entries: seq<LabelEntry>, e: LabelEntry, k: ContractKey)
    ensures k in Distinct(entries + [e]) <==> k in Distinct(entries) || k == e.key
  {
    assert (entries + [e])[..|entries|] == entries;
  }

  lemma PassAppend(front: seq<ContractRow>, row: ContractRow, picked: set<ContractKey>, want: bool)
    ensures PassOrder(front + [row], picked, want)
         == if InPass(row, picked, want) then PassOrder(front, picked, want) + [RowEntry(row)] else PassOrder(front, picked, want)
  {
    assert (front + [row])[..|front|] == front;
  }

  ghost predicate HasRow(rows: seq<ContractRow>, picked: set<ContractKey>, want: bool, k: ContractKey) {
    exists row :: row in rows && InPass(row, picked, want) && RowKey(row) == k
  }

  lemma HasRowAppend(front: seq<ContractRow>, last: ContractRow, picked: set<ContractKey>, want: bool, k: ContractKey)
    ensures HasRow(front + [last], picked, want, k)
       <==> HasRow(front, picked, want, k) || (InPass(last, picked, want) && RowKey(last) == k)
  {
    var rows := front + [last];
    if row :| row in front && InPass(row, picked, want) && RowKey(row) == k {
      assert row in rows;
    }
    assert last in rows;
  }

  lemma {:induction false} PassKeys(rows: seq<ContractRow>, picked: set<ContractKey>, want: bool, k: ContractKey)
    ensures k in Distinct(PassOrder(rows, picked, want)) <==> HasRow(rows, picked, want, k)
  {
    if rows != [] {
      var front, row := rows[..|rows| - 1], rows[|rows| - 1];
      assert rows == front + [row];
      PassKeys(front, picked, want, k);
      PassAppend(front, row, picked, want);
      HasRowAppend(front, row, picked, want, k);
      if InPass(row, picked, want) {
        DistinctStep(PassOrder(front, picked, want), RowEntry(row), k);
      }
    }
  }

  /** With room for every key the selection changes nothing. */
  lemma SelectionDoesNotMatterWhenAllFit(rows: seq<ContractRow>, selected: seq<SubscribeInstrument>)
    requires |Distinct(FileOrder(rows))| <= MAX_TRACKED_CONTRACTS
    ensures Capped(TwoPasses(rows, PickedKeys(selected)), MAX_TRACKED_CONTRACTS) == Fold(FileOrder(rows))
  {
    var two := TwoPasses(rows, PickedKeys(selected));
    SameFold(rows, PickedKeys(selected));
    SizeOfKeys(Distinct(two));
    SizeOfKeys(Distinct(FileOrder(rows)));
    assert (set k | k in Distinct(two)) == Fold(two).Keys;
    UncappedWhenItFits(two, MAX_TRACKED_CONTRACTS);
  }

  /** With room for every key, each contract the owner table can hold has its
      label. */
  lemma MappedContractsAreLabelled(rows: seq<ContractRow>, symbols: Symbols, upper: string -> string,
                                   selected: seq<SubscribeInstrument>, k: ContractKey)
    requires |Distinct(FileOrder(rows))| <= MAX_TRACKED_CONTRACTS
    requires k in Snapshot(OrderSelectedFirst(LegsOf(rows, symbols, upper), selected).0)
    ensures k in Capped(TwoPasses(rows, PickedKeys(selected)), MAX_TRACKED_CONTRACTS)
  {
    var legs := LegsOf(rows, symbols, upper);
    OrderKeepsOwners(legs, selected);
    var i := OwnerIsLast(legs, k);
    ArtifactLegsAreUsable(rows, symbols, upper, legs[i]);
    var row :| row in rows && IsLegOf(row, SymbolOf(row, symbols, upper), legs[i]);
    assert RowKey(row) == k;
    SelectionDoesNotMatterWhenAllFit(rows, selected);
    EligibleRowIsInFile(rows, row);
  }

  lemma {:induction false} EligibleRowIsInFile(rows: seq<ContractRow>, row: ContractRow)
    requires row in rows && Eligible(row)
    ensures RowKey(row) in Fold(FileOrder(rows))
  {
    var front, last := rows[..|rows| - 1], rows[|rows| - 1];
    assert rows == front + [last];
    FileStep(front, last);
    if row in front {
      EligibleRowIsInFile(front, row);
    }
  }
}
