/** The human label of one option contract, `NIFTY-25Sep2026-24500-CE`, its
    64-byte cap, and how the contract is read back from the label. */
module ContractLabel {
  import opened Wrappers
  import opened Decimal
  import opened Bytes
  import opened Utf8

  const MAX_CONTRACT_LABEL_BYTES := 64
  const LABEL_TRUNCATION_MARKER := "~cut"

  // ------------------------------------------------------------- the cap

  /** How many whole characters fit in `room` bytes. */
  ghost function Kept(text: string, room: nat): (k: nat)
    ensures k <= |text|
  {
    if text == "" || |EncodeChar(text[0])| > room then 0
    else 1 + Kept(text[1..], room - |EncodeChar(text[0])|)
  }

  /** What the cap makes of a text: itself when it fits, and otherwise the
      longest run of whole characters that leaves room for the marker. */
  ghost function CapText(text: string): string {
    if |Encode(text)| <= MAX_CONTRACT_LABEL_BYTES then text
    else text[..Kept(text, MAX_CONTRACT_LABEL_BYTES - |LABEL_TRUNCATION_MARKER|)] + LABEL_TRUNCATION_MARKER
  }

  lemma {:induction false} KeptFits(text: string, room: nat)
    ensures |Encode(text[..Kept(text, room)])| <= room
    ensures Kept(text, room) < |text| ==> |Encode(text[..Kept(text, room) + 1])| > room
  {
    var k := Kept(text, room);
    if text == "" {
    } else if |EncodeChar(text[0])| > room {
      EncodeFirst(text, 1);
    } else {
      KeptFits(text[1..], room - |EncodeChar(text[0])|);
      EncodeFirst(text, k);
      if k < |text| {
        EncodeFirst(text, k + 1);
      }
    }
  }

  lemma PrefixLength(text: string, i: nat, j: nat)
    requires i <= j <= |text|
    ensures |Encode(text[..i])| <= |Encode(text[..j])|
    ensures i < j ==> |Encode(text[..i])| < |Encode(text[..j])|
  {
    assert text[..j] == text[..i] + text[i..j];
    EncodeConcat(text[..i], text[i..j]);
  }

  lemma CharsEndAtBoundaries(text: string, k: nat)
    requires k <= |text|
    ensures IsCharBoundary(Encode(text), |Encode(text[..k])|)
  {
    assert text == text[..k] + text[k..];
    EncodeConcat(text[..k], text[k..]);
    FirstByteLeads(text[k..]);
  }

  /** Walking back from `room` stops where the last character that fits ends. */
  lemma WalkStops(text: string, room: nat, cut: nat)
    requires cut <= room <= |Encode(text)| && IsCharBoundary(Encode(text), cut)
    requires forall b | cut < b <= room :: !IsCharBoundary(Encode(text), b)
    ensures Encode(text)[..cut] == Encode(text[..Kept(text, room)])
  {
    var k, j := Kept(text, room), CharsBefore(text, cut);
    BoundaryIsPrefix(text, cut);
    KeptFits(text, room);
    assert |Encode(text[..j])| == cut;
    CharsEndAtBoundaries(text, k);
    if j < k {
      PrefixLength(text, j, k);
    } else if j > k {
      PrefixLength(text, k + 1, j);
    }
  }

  /** The cap as the program computes it, over bytes: walk down to a character
      boundary, cut there, append the marker. */
  method CapLabel(printed: seq<byte>, ghost text: string) returns (capped: seq<byte>)
    requires printed == Encode(text)
    ensures capped == Encode(CapText(text))
    ensures |capped| <= MAX_CONTRACT_LABEL_BYTES
  {
    if |printed| <= MAX_CONTRACT_LABEL_BYTES {
      return printed;
    }
    var marker := Encode(LABEL_TRUNCATION_MARKER);
    EncodeAscii(LABEL_TRUNCATION_MARKER);
    var room := MAX_CONTRACT_LABEL_BYTES - |LABEL_TRUNCATION_MARKER|;
    var cut := room;
    while cut > 0 && !IsCharBoundary(printed, cut)
      invariant 0 <= cut <= room
      invariant forall b | cut < b <= room :: !IsCharBoundary(printed, b)
    {
      cut := cut - 1;
    }
    WalkStops(text, room, cut);
    EncodeConcat(text[..Kept(text, room)], LABEL_TRUNCATION_MARKER);
    capped := printed[..cut] + marker;
  }

  lemma OneCharMore(text: string, k: nat)
    requires k < |text|
    ensures |Encode(text[..k + 1])| <= |Encode(text[..k])| + 4
  {
    assert text[..k + 1] == text[..k] + [text[k]];
    EncodeConcat(text[..k], [text[k]]);
    assert Encode([text[k]]) == EncodeChar(text[k]) + Encode("");
  }

  /** The cap holds, is idempotent, and a cut label keeps at least one whole
      character: between 57 and 60 bytes of the original and the marker. */
  lemma CapIsTight(text: string)
    ensures |Encode(CapText(text))| <= MAX_CONTRACT_LABEL_BYTES
    ensures CapText(CapText(text)) == CapText(text)
    ensures |Encode(text)| > MAX_CONTRACT_LABEL_BYTES ==>
      exists k | 0 < k < |text| :: CapText(text) == text[..k] + LABEL_TRUNCATION_MARKER && 57 <= |Encode(text[..k])| <= 60
  {
    if |Encode(text)| > MAX_CONTRACT_LABEL_BYTES {
      var k := Kept(text, 60);
      KeptFits(text, 60);
      EncodeAscii(LABEL_TRUNCATION_MARKER);
      EncodeConcat(text[..k], LABEL_TRUNCATION_MARKER);
      assert text[..|text|] == text;
      OneCharMore(text, k);
      assert text[..0] == "";
    }
  }

  // --------------------------------------------------------- the raw label

  const MONTH_ABBREV: seq<string> :=
    ["???", "Jan", "Feb", "Mar", "Apr", "May", "Jun", "Jul", "Aug", "Sep", "Oct", "Nov", "Dec"]

  /** Whether a `YYYYMMDD` number looks like a date. */
  predicate PlausibleDate(ymd: nat) {
    1 <= ymd / 100 % 100 <= 12 && 1 <= ymd % 100 <= 31 && ymd / 10_000 >= 1970
  }

  function ExpiryText(ymd: nat): string {
    if PlausibleDate(ymd) then TwoDigits(ymd % 100) + MONTH_ABBREV[ymd / 100 % 100] + ToDecimal(ymd / 10_000)
    else ToDecimal(ymd)
  }

  function Abs(n: int): nat {
    if n < 0 then -n else n
  }

  /** Rust's `/` on signed integers truncates toward zero. */
  function TruncatedDiv(n: int, d: int): int
    requires d > 0
  {
    if n < 0 then -(-n / d) else n / d
  }

  /** Rupees, and the paise when they do not divide. */
  function StrikeText(paise: int): string {
    var rupees := SignedDecimal(TruncatedDiv(paise, 100));
    var rest := Abs(paise) % 100;
    if rest == 0 then rupees else rupees + "." + TwoDigits(rest)
  }

  function RawLabel(underlying: string, expiryYmd: nat, strikePaise: int, leg: string): string {
    Trim(underlying) + "-" + ExpiryText(expiryYmd) + "-" + StrikeText(strikePaise) + LegText(leg)
  }

  function LegText(leg: string): string {
    if Trim(leg) == "" then "" else "-" + Trim(leg)
  }

  lemma SplitDate(year: nat, month: nat, day: nat)
    requires month < 100 && day < 100
    ensures var ymd: nat := 10_000 * year + 100 * month + day;
            ymd / 10_000 == year && ymd / 100 % 100 == month && ymd % 100 == day
  {
    assert (10_000 * year + 100 * month + day) / 100 == 100 * year + month;
  }

  lemma PrintsParts(ymd: nat, year: nat, month: nat, day: nat)
    requires ymd / 10_000 == year && ymd / 100 % 100 == month && ymd % 100 == day
    ensures ExpiryText(ymd) ==
            if 1 <= month <= 12 && 1 <= day <= 31 && year >= 1970 then TwoDigits(day) + MONTH_ABBREV[month] + ToDecimal(year)
            else ToDecimal(ymd)
  {
  }

  /** A day of the calendar from 1970 on prints as day, month name and year;
      any other number prints as it is. */
  lemma ExpiryTextExactly(year: nat, month: nat, day: nat, ymd: nat)
    requires month < 100 && day < 100 && ymd == 10_000 * year + 100 * month + day
    ensures ExpiryText(ymd) ==
            if 1 <= month <= 12 && 1 <= day <= 31 && year >= 1970 then TwoDigits(day) + MONTH_ABBREV[month] + ToDecimal(year)
            else ToDecimal(ymd)
  {
    SplitDate(year, month, day);
    PrintsParts(ymd, year, month, day);
  }

  /** Rupees and paise: no point for whole rupees. */
  lemma StrikeTextExactly(rupees: nat, paise: nat, strike: nat)
    requires paise < 100 && strike == 100 * rupees + paise
    ensures StrikeText(strike) == ToDecimal(rupees) + (if paise == 0 then "" else "." + TwoDigits(paise))
  {
    assert strike / 100 == rupees && strike % 100 == paise;
    assert ToDecimal(rupees) + "" == ToDecimal(rupees);
    assert ToDecimal(rupees) + "." + TwoDigits(paise) == ToDecimal(rupees) + ("." + TwoDigits(paise));
  }

  /** A negative strike prints its minus sign only while there are whole rupees
      for it to stand before. */
  lemma NegativeStrikeText(strike: nat)
    requires strike > 0
    ensures StrikeText(0 - strike) == (if strike < 100 then "" else "-") + StrikeText(strike)
  {
    StrikeSign(0 - strike);
    EmptyInFront(StrikeText(strike));
  }

  lemma EmptyInFront(s: string)
    ensures "" + s == s
  {
  }

  /** One contract's label, rendered and capped. */
  method Render(underlying: string, expiryYmd: nat, strikePaise: int, leg: string) returns (printed: seq<byte>)
    ensures printed == Encode(CapText(RawLabel(underlying, expiryYmd, strikePaise, leg)))
    ensures |printed| <= MAX_CONTRACT_LABEL_BYTES
  {
    var year, month, day := expiryYmd / 10_000, expiryYmd / 100 % 100, expiryYmd % 100;
    var rupees, paise := TruncatedDiv(strikePaise, 100), Abs(strikePaise) % 100;
    var out := Trim(underlying) + "-";
    if 1 <= month <= 12 && 1 <= day <= 31 && year >= 1970 {
      out := out + (TwoDigits(day) + MONTH_ABBREV[month] + ToDecimal(year));
    } else {
      out := out + ToDecimal(expiryYmd);
    }
    out := out + "-";
    if paise == 0 {
      out := out + SignedDecimal(rupees);
    } else {
      out := out + (SignedDecimal(rupees) + "." + TwoDigits(paise));
    }
    var trimmed := Trim(leg);
    if trimmed != "" {
      out := out + ("-" + trimmed);
    }
    assert out == RawLabel(underlying, expiryYmd, strikePaise, leg);
    printed := CapLabel(Encode(out), out);
  }

  // ------------------------------------------------- reading a label back

  /** What a label tells about its contract. */
  datatype Contract = Contract(underlying: string, expiryYmd: nat, strikePaise: int, leg: string)

  /** The part of a text before its last dash, and the part behind it. */
  function LastDash(s: string): (at: int)
    ensures -1 <= at < |s|
    ensures at >= 0 ==> s[at] == '-'
    ensures forall i | at < i < |s| :: s[i] != '-'
  {
    if s == "" then -1 else if s[|s| - 1] == '-' then |s| - 1 else LastDash(s[..|s| - 1])
  }

  function Head(s: string): string {
    if LastDash(s) < 0 then "" else s[..LastDash(s)]
  }

  function Tail(s: string): string {
    s[LastDash(s) + 1..]
  }

  function MonthNumber(name: string): nat {
    if name == "Jan" then 1 else if name == "Feb" then 2 else if name == "Mar" then 3
    else if name == "Apr" then 4 else if name == "May" then 5 else if name == "Jun" then 6
    else if name == "Jul" then 7 else if name == "Aug" then 8 else if name == "Sep" then 9
    else if name == "Oct" then 10 else if name == "Nov" then 11 else if name == "Dec" then 12 else 0
  }

  function ReadExpiry(s: string): nat {
    if AllDigits(s) then Value(s)
    else if |s| > 5 && AllDigits(s[..2]) && AllDigits(s[5..])
      then 10_000 * Value(s[5..]) + 100 * MonthNumber(s[2..5]) + Value(s[..2])
    else 0
  }

  function ReadStrike(s: string): nat {
    if AllDigits(s) then 100 * Value(s)
    else if |s| > 3 && AllDigits(s[..|s| - 3]) && AllDigits(s[|s| - 2..])
      then 100 * Value(s[..|s| - 3]) + Value(s[|s| - 2..])
    else 0
  }

  predicate EndsInDash(s: string) {
    s != "" && s[|s| - 1] == '-'
  }

  /** Strike with its sign, expiry, and all the rest is the underlying. */
  function ReadBody(body: string, leg: string): Contract {
    var front := Head(body);
    var strike: int := ReadStrike(Tail(body));
    var named := if EndsInDash(front) then front[..|front| - 1] else front;
    Contract(Head(named), ReadExpiry(Tail(named)), if EndsInDash(front) then -strike else strike, leg)
  }

  /** Reads a label from its right end: the leg if there is one, then the
      body in front of it. */
  function ReadLabel(printed: string): Contract {
    var last := Tail(printed);
    if last == "CE" || last == "PE" then ReadBody(Head(printed), last) else ReadBody(printed, "")
  }

  /** Less than a rupee below zero prints without its sign. */
  function VisibleStrike(paise: int): int {
    if -100 < paise < 0 then -paise else paise
  }

  lemma SplitLast(a: string, b: string)
    requires forall i | 0 <= i < |b| :: b[i] != '-'
    ensures Head(a + "-" + b) == a && Tail(a + "-" + b) == b
  {
    var s := a + "-" + b;
    assert s[|a|] == '-';
    assert forall i | 0 <= i < |b| :: s[|a| + 1 + i] == b[i];
    assert LastDash(s) == |a| by {
      assert forall i | |a| < i < |s| :: s[i] == b[i - |a| - 1];
    }
    assert s[..|a|] == a && s[|a| + 1..] == b;
  }

  lemma MonthReads(month: nat)
    requires 1 <= month <= 12
    ensures |MONTH_ABBREV[month]| == 3 && NoDash(MONTH_ABBREV[month])
    ensures MonthNumber(MONTH_ABBREV[month]) == month && !IsDigit(MONTH_ABBREV[month][0])
  {
  }

  lemma DateParts(ymd: nat)
    ensures ymd == 10_000 * (ymd / 10_000) + 100 * (ymd / 100 % 100) + ymd % 100
  {
    assert ymd / 10_000 == ymd / 100 / 100;
  }

  lemma DateReads(day: string, month: nat, year: string)
    requires |day| == 2 && AllDigits(day) && 1 <= month <= 12 && year != "" && AllDigits(year)
    ensures var s := day + MONTH_ABBREV[month] + year;
            NoDash(s) && ReadExpiry(s) == 10_000 * Value(year) + 100 * month + Value(day)
  {
    var m := MONTH_ABBREV[month];
    var s := day + m + year;
    MonthReads(month);
    assert s[2] == m[0];
    assert s[..2] == day && s[2..5] == m && s[5..] == year;
  }

  lemma ExpiryReads(ymd: nat)
    ensures NoDash(ExpiryText(ymd)) && ExpiryText(ymd) != ""
    ensures ReadExpiry(ExpiryText(ymd)) == ymd
  {
    if PlausibleDate(ymd) {
      DateReads(TwoDigits(ymd % 100), ymd / 100 % 100, ToDecimal(ymd / 10_000));
      DateParts(ymd);
    }
  }

  lemma PaiseRead(rupees: string, paise: string)
    requires rupees != "" && AllDigits(rupees) && |paise| == 2 && AllDigits(paise)
    ensures var s := rupees + "." + paise;
            NoDash(s) && IsDigit(s[0]) && ReadStrike(s) == 100 * Value(rupees) + Value(paise)
  {
    var s := rupees + "." + paise;
    assert s[|rupees|] == '.';
    assert s[..|s| - 3] == rupees && s[|s| - 2..] == paise;
  }

  lemma StrikeReads(paise: nat)
    ensures NoDash(StrikeText(paise)) && |StrikeText(paise)| > 0 && IsDigit(StrikeText(paise)[0])
    ensures ReadStrike(StrikeText(paise)) == paise
  {
    if paise % 100 != 0 {
      PaiseRead(ToDecimal(paise / 100), TwoDigits(paise % 100));
    }
  }

  /** A strike prints as its visible value, with a dash in front of it when
      that value is negative. */
  lemma StrikeSign(paise: int)
    ensures VisibleStrike(paise) >= 0 ==> StrikeText(paise) == StrikeText(VisibleStrike(paise))
    ensures VisibleStrike(paise) < 0 ==> StrikeText(paise) == "-" + StrikeText(-paise)
  {
    if VisibleStrike(paise) < 0 {
      assert -paise / 100 >= 1;
      if Abs(paise) % 100 != 0 {
        var r := ToDecimal(-paise / 100);
        assert ("-" + r) + "." + TwoDigits(Abs(paise) % 100) == "-" + (r + "." + TwoDigits(Abs(paise) % 100));
      }
    }
  }

  /** A label without its leg, the sign of the strike moved to the front. */
  ghost function Body(u: string, ymd: nat, visible: int): string {
    u + "-" + ExpiryText(ymd) + (if visible < 0 then "-" else "") + "-" + StrikeText(Abs(visible))
  }

  lemma ReadAfterBody(u: string, ymd: nat, visible: int, leg: string)
    ensures ReadBody(Body(u, ymd, visible), leg) == Contract(u, ymd, visible, leg)
    ensures Tail(Body(u, ymd, visible)) == StrikeText(Abs(visible))
  {
    var named := u + "-" + ExpiryText(ymd);
    var front := named + (if visible < 0 then "-" else "");
    ExpiryReads(ymd);
    StrikeReads(Abs(visible));
    SplitLast(u, ExpiryText(ymd));
    SplitLast(front, StrikeText(Abs(visible)));
    assert named[|named| - 1] == ExpiryText(ymd)[|ExpiryText(ymd)| - 1];
    if visible < 0 {
      assert front[..|front| - 1] == named;
    } else {
      assert front == named;
    }
  }

  lemma RawLabelShape(underlying: string, expiryYmd: nat, strikePaise: int, leg: string)
    ensures RawLabel(underlying, expiryYmd, strikePaise, leg)
         == Body(Trim(underlying), expiryYmd, VisibleStrike(strikePaise)) + LegText(leg)
  {
    StrikeSign(strikePaise);
    var named := Trim(underlying) + "-" + ExpiryText(expiryYmd);
    if VisibleStrike(strikePaise) < 0 {
      assert named + "-" + ("-" + StrikeText(-strikePaise)) == named + "-" + "-" + StrikeText(-strikePaise);
    } else {
      assert named + "" == named;
    }
  }

  lemma ReadWithLeg(body: string, leg: string)
    requires leg in {"CE", "PE"}
    ensures ReadLabel(body + ("-" + leg)) == ReadBody(body, leg)
  {
    assert body + ("-" + leg) == body + "-" + leg;
    SplitLast(body, leg);
  }

  lemma ReadWithoutLeg(body: string, strike: nat)
    requires Tail(body) == StrikeText(strike)
    ensures ReadLabel(body) == ReadBody(body, "")
  {
    StrikeReads(strike);
  }

  lemma ReadWhole(u: string, ymd: nat, visible: int, leg: string)
    requires leg in {"", "CE", "PE"}
    ensures ReadLabel(Body(u, ymd, visible) + (if leg == "" then "" else "-" + leg)) == Contract(u, ymd, visible, leg)
  {
    var body := Body(u, ymd, visible);
    ReadAfterBody(u, ymd, visible, leg);
    if leg == "" {
      assert body + "" == body;
      ReadWithoutLeg(body, Abs(visible));
    } else {
      ReadWithLeg(body, leg);
    }
  }

  /** Reading from the right undoes rendering, for every underlying (dashes
      included), every expiry and every strike: only the sign of a strike
      within a rupee below zero is lost. */
  lemma ReadAfterRender(underlying: string, expiryYmd: nat, strikePaise: int, leg: string)
    requires Trim(leg) in {"", "CE", "PE"}
    ensures ReadLabel(RawLabel(underlying, expiryYmd, strikePaise, leg))
         == Contract(Trim(underlying), expiryYmd, VisibleStrike(strikePaise), Trim(leg))
  {
    RawLabelShape(underlying, expiryYmd, strikePaise, leg);
    ReadWhole(Trim(underlying), expiryYmd, VisibleStrike(strikePaise), Trim(leg));
  }

  // ----------------------------------------------------- equal labels

  /** Uncapped labels are equal exactly when the contracts are, the sign of a
      strike within a rupee below zero aside. */
  lemma RawLabelsEqual(u1: string, e1: nat, s1: int, l1: string, u2: string, e2: nat, s2: int, l2: string)
    requires Trim(l1) in {"", "CE", "PE"} && Trim(l2) in {"", "CE", "PE"}
    ensures RawLabel(u1, e1, s1, l1) == RawLabel(u2, e2, s2, l2) <==>
            Trim(u1) == Trim(u2) && e1 == e2 && Trim(l1) == Trim(l2) && VisibleStrike(s1) == VisibleStrike(s2)
  {
    ReadAfterRender(u1, e1, s1, l1);
    ReadAfterRender(u2, e2, s2, l2);
    if VisibleStrike(s1) == VisibleStrike(s2) {
      SameStrikeText(s1, s2);
    }
  }

  lemma SameStrikeText(s1: int, s2: int)
    requires VisibleStrike(s1) == VisibleStrike(s2)
    ensures StrikeText(s1) == StrikeText(s2)
  {
    StrikeSign(s1);
    StrikeSign(s2);
  }

  lemma RawEndsInDigitOrLeg(u: string, e: nat, s: int, l: string)
    requires Trim(l) in {"", "CE", "PE"}
    ensures var raw := RawLabel(u, e, s, l); raw != "" && raw[|raw| - 1] != 't'
  {
    var front := Trim(u) + "-" + ExpiryText(e) + "-";
    if Trim(l) == "" {
      StrikeEndsInDigit(s);
      assert front + StrikeText(s) + "" == front + StrikeText(s);
      LastOfConcat(front, StrikeText(s));
    } else {
      LastOfConcat("-", Trim(l));
      LastOfConcat(front + StrikeText(s), "-" + Trim(l));
    }
  }

  lemma LastOfConcat(a: string, b: string)
    requires b != ""
    ensures (a + b)[|a + b| - 1] == b[|b| - 1]
  {
  }

  lemma StrikeEndsInDigit(paise: int)
    ensures var t := StrikeText(paise); t != "" && IsDigit(t[|t| - 1])
  {
    StrikeSign(paise);
    LastStrikeChar(Abs(VisibleStrike(paise)));
    if VisibleStrike(paise) < 0 {
      LastOfConcat("-", StrikeText(-paise));
    }
  }

  lemma LastStrikeChar(paise: nat)
    ensures var t := StrikeText(paise); t != "" && IsDigit(t[|t| - 1])
  {
    var r, p := ToDecimal(paise / 100), paise % 100;
    if p != 0 {
      var t := r + "." + TwoDigits(p);
      assert t[|t| - 1] == TwoDigits(p)[|TwoDigits(p)| - 1];
    }
  }

  lemma CutEndsInMarker(text: string)
    requires |Encode(text)| > MAX_CONTRACT_LABEL_BYTES
    ensures CapText(text) != "" && CapText(text)[|CapText(text)| - 1] == 't'
  {
  }

  /** The labels the program prints, as bytes: once one of two labels was not
      cut, they are equal exactly when both contracts are (visibly) equal. */
  lemma LabelsEqual(u1: string, e1: nat, s1: int, l1: string, u2: string, e2: nat, s2: int, l2: string)
    requires Trim(l1) in {"", "CE", "PE"} && Trim(l2) in {"", "CE", "PE"}
    requires |Encode(RawLabel(u1, e1, s1, l1))| <= MAX_CONTRACT_LABEL_BYTES
    ensures Encode(CapText(RawLabel(u1, e1, s1, l1))) == Encode(CapText(RawLabel(u2, e2, s2, l2))) <==>
            Trim(u1) == Trim(u2) && e1 == e2 && Trim(l1) == Trim(l2) && VisibleStrike(s1) == VisibleStrike(s2)
  {
    var raw1, raw2 := RawLabel(u1, e1, s1, l1), RawLabel(u2, e2, s2, l2);
    RawLabelsEqual(u1, e1, s1, l1, u2, e2, s2, l2);
    if Encode(CapText(raw1)) == Encode(CapText(raw2)) {
      EncodeInjective(raw1, CapText(raw2));
      RawEndsInDigitOrLeg(u1, e1, s1, l1);
      if |Encode(raw2)| > MAX_CONTRACT_LABEL_BYTES {
        CutEndsInMarker(raw2);
      }
    }
  }

  ghost predicate HasLeg(l: string) {
    Trim(l) in {"", "CE", "PE"}
  }

  /** The same contract, as far as a label can show it. */
  ghost predicate LooksSame(u1: string, e1: nat, s1: int, l1: string, u2: string, e2: nat, s2: int, l2: string) {
    Trim(u1) == Trim(u2) && e1 == e2 && Trim(l1) == Trim(l2) && VisibleStrike(s1) == VisibleStrike(s2)
  }

  ghost function OtherLeg(l: string): string {
    if Trim(l) == "CE" then "PE" else "CE"
  }

  lemma LegBytes()
    ensures |Encode("CE")| == 2 && |Encode("PE")| == 2 && |Encode("-CE")| == 3
    ensures Trim("CE") == "CE" && Trim("PE") == "PE"
  {
    EncodeAscii("CE");
    EncodeAscii("PE");
    EncodeAscii("-CE");
  }

  /** A cut takes nothing from what lies behind the first 60 bytes. */
  lemma CutIgnoresTail(a: string, b: string)
    requires |Encode(a)| > 60 && |Encode(a)| + |Encode(b)| > MAX_CONTRACT_LABEL_BYTES
    ensures CapText(a + b) == a[..Kept(a, 60)] + LABEL_TRUNCATION_MARKER
  {
    EncodeConcat(a, b);
    KeptOfPrefix(a, b, 60);
    assert (a + b)[..Kept(a, 60)] == a[..Kept(a, 60)];
  }

  lemma SameFrontSameCut(a: string, b: string, c: string)
    requires |Encode(a)| > 60 && |Encode(a)| + |Encode(b)| > MAX_CONTRACT_LABEL_BYTES
    requires |Encode(a)| + |Encode(c)| > MAX_CONTRACT_LABEL_BYTES
    ensures CapText(a + b) == CapText(a + c)
  {
    CutIgnoresTail(a, b);
    CutIgnoresTail(a, c);
  }

  /** The leg as it is printed. */
  ghost function Suffix(leg: string): string {
    if leg == "" then "" else "-" + leg
  }

  lemma LegIsLast(u: string, e: nat, s: int, l: string)
    ensures RawLabel(u, e, s, l) == RawLabel(u, e, s, "") + Suffix(Trim(l))
  {
    LegBehind(Trim(u) + "-" + ExpiryText(e) + "-" + StrikeText(s), l);
  }

  lemma LegBehind(front: string, l: string)
    ensures front + LegText(l) == (front + LegText("")) + Suffix(Trim(l))
  {
    assert LegText("") == "" && front + "" == front;
    assert LegText(l) == Suffix(Trim(l));
  }

  /** Behind the same front a cut label does not show which leg it had. */
  lemma CutHidesLeg(front: string, leg: string, other: string)
    requires leg in {"", "CE", "PE"} && other in {"CE", "PE"}
    requires |Encode(front + Suffix(leg))| > MAX_CONTRACT_LABEL_BYTES
    ensures CapText(front + Suffix(leg)) == CapText(front + Suffix(other))
  {
    LegBytes();
    if leg == "" {
      EncodeConcat(front, "");
      NoLegCut(front, other);
    } else {
      assert front + ("-" + leg) == (front + "-") + leg;
      assert front + ("-" + other) == (front + "-") + other;
      EncodeConcat(front + "-", leg);
      SameFrontSameCut(front + "-", leg, other);
    }
  }

  lemma NoLegCut(front: string, other: string)
    requires other in {"CE", "PE"} && |Encode(front)| > MAX_CONTRACT_LABEL_BYTES
    ensures CapText(front + "") == CapText(front + ("-" + other))
  {
    SameFrontSameCut(front, "", "-" + other);
  }

  /** Every label that is cut is also the label of another contract: the same
      option with the other leg. */
  lemma CutLabelIsShared(u: string, e: nat, s: int, l: string)
    requires HasLeg(l) && |Encode(RawLabel(u, e, s, l))| > MAX_CONTRACT_LABEL_BYTES
    ensures HasLeg(OtherLeg(l)) && !LooksSame(u, e, s, l, u, e, s, OtherLeg(l))
    ensures CapText(RawLabel(u, e, s, l)) == CapText(RawLabel(u, e, s, OtherLeg(l)))
  {
    LegBytes();
    LegIsLast(u, e, s, l);
    LegIsLast(u, e, s, OtherLeg(l));
    CutHidesLeg(RawLabel(u, e, s, ""), Trim(l), OtherLeg(l));
  }

  /** Exactly when a printed label tells its contract from every other one:
      when the uncut text is at most 64 bytes. */
  lemma LabelIsUniqueExactly(u: string, e: nat, s: int, l: string)
    requires HasLeg(l)
    ensures (forall u', e': nat, s', l' | HasLeg(l') && Encode(CapText(RawLabel(u', e', s', l'))) == Encode(CapText(RawLabel(u, e, s, l))) ::
               LooksSame(u, e, s, l, u', e', s', l'))
       <==> |Encode(RawLabel(u, e, s, l))| <= MAX_CONTRACT_LABEL_BYTES
  {
    if |Encode(RawLabel(u, e, s, l))| <= MAX_CONTRACT_LABEL_BYTES {
      forall u', e': nat, s', l' | HasLeg(l') && Encode(CapText(RawLabel(u', e', s', l'))) == Encode(CapText(RawLabel(u, e, s, l)))
        ensures LooksSame(u, e, s, l, u', e', s', l')
      {
        LabelsEqual(u, e, s, l, u', e', s', l');
      }
    } else {
      CutLabelIsShared(u, e, s, l);
    }
  }

  /** An underlying of 64 bytes or more leaves nothing at all of the contract
      in its label. */
  lemma LongUnderlyingHidesContract(u: string, e1: nat, s1: int, l1: string, e2: nat, s2: int, l2: string)
    requires |Encode(Trim(u))| >= MAX_CONTRACT_LABEL_BYTES
    ensures CapText(RawLabel(u, e1, s1, l1)) == CapText(RawLabel(u, e2, s2, l2))
  {
    RawLabelTail(u, e1, s1, l1);
    RawLabelTail(u, e2, s2, l2);
    CutWithinPrefix(Trim(u), ContractTail(e1, s1, l1));
    CutWithinPrefix(Trim(u), ContractTail(e2, s2, l2));
  }

  ghost function ContractTail(e: nat, s: int, l: string): string {
    "-" + ExpiryText(e) + "-" + StrikeText(s) + LegText(l)
  }

  lemma RawLabelTail(u: string, e: nat, s: int, l: string)
    ensures RawLabel(u, e, s, l) == Trim(u) + ContractTail(e, s, l)
    ensures ContractTail(e, s, l) != ""
  {
    MoveParentheses(Trim(u), ExpiryText(e), StrikeText(s), LegText(l));
  }

  lemma MoveParentheses(a: string, b: string, c: string, d: string)
    ensures a + "-" + b + "-" + c + d == a + ("-" + b + "-" + c + d)
  {
  }

  lemma CutWithinPrefix(a: string, b: string)
    requires |Encode(a)| >= MAX_CONTRACT_LABEL_BYTES && b != ""
    ensures CapText(a + b) == a[..Kept(a, 60)] + LABEL_TRUNCATION_MARKER
  {
    EncodeConcat(a, b);
    assert b == [b[0]] + b[1..];
    CutIgnoresTail(a, b);
  }

  lemma {:induction false} KeptOfPrefix(a: string, b: string, room: nat)
    requires |Encode(a)| > room
    ensures Kept(a + b, room) == Kept(a, room)
  {
    assert (a + b)[0] == a[0] && (a + b)[1..] == a[1..] + b;
    if |EncodeChar(a[0])| <= room {
      KeptOfPrefix(a[1..], b, room - |EncodeChar(a[0])|);
    }
  }
}
