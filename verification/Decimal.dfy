/** Decimal numerals: the value of a digit string, the canonical numeral of a
    number, and the integer parsers of the Rust standard library that the
    repository calls. */
module Decimal {
  import opened Wrappers

  function Pow10(n: nat): (p: nat)
    ensures p >= 1
  {
    if n == 0 then 1 else 10 * Pow10(n - 1)
  }

  lemma {:induction false} Pow10Add(a: nat, b: nat)
    ensures Pow10(a + b) == Pow10(a) * Pow10(b)
  {
    if a == 0 {
    } else {
      Pow10Add(a - 1, b);
      assert Pow10(a + b) == 10 * Pow10(a - 1 + b);
    }
  }

  lemma {:induction false} Pow10Monotone(a: nat, b: nat)
    requires a <= b
    ensures Pow10(a) <= Pow10(b)
  {
    if a < b {
      Pow10Monotone(a, b - 1);
    }
  }

  predicate IsDigit(c: char) {
    '0' <= c <= '9'
  }

  predicate AllDigits(s: string) {
    forall i | 0 <= i < |s| :: IsDigit(s[i])
  }

  function DigitValue(c: char): (d: nat)
    requires IsDigit(c)
    ensures d <= 9
  {
    c as int - '0' as int
  }

  function DigitChar(d: nat): (c: char)
    requires d <= 9
    ensures IsDigit(c) && DigitValue(c) == d
  {
    (d + '0' as int) as char
  }

  /** The number a digit string writes, most significant digit first. */
  function Value(s: string): nat
    requires AllDigits(s)
  {
    if s == [] then 0 else 10 * Value(s[..|s| - 1]) + DigitValue(s[|s| - 1])
  }

  lemma TimesTen(x: nat, y: nat)
    ensures x * (10 * y) == 10 * (x * y)
  {
  }

  lemma {:induction false} ValueConcat(a: string, b: string)
    requires AllDigits(a) && AllDigits(b)
    ensures AllDigits(a + b)
    ensures Value(a + b) == Value(a) * Pow10(|b|) + Value(b)
  {
    if b == [] {
      assert a + b == a;
    } else {
      var c := b[..|b| - 1];
      ValueConcat(a, c);
      assert (a + b)[..|a + b| - 1] == a + c;
      assert Value(a + b) == 10 * Value(a + c) + DigitValue(b[|b| - 1]);
      TimesTen(Value(a), Pow10(|c|));
    }
  }

  lemma ValueOfSuffix(a: string, b: string)
    requires AllDigits(a) && AllDigits(b)
    ensures AllDigits(a + b) && Value(a + b) >= Value(b)
  {
    ValueConcat(a, b);
    assert Value(a) * Pow10(|b|) >= 0;
  }

  lemma {:induction false} ValueBelow(s: string)
    requires AllDigits(s)
    ensures Value(s) < Pow10(|s|)
  {
    if s != [] {
      ValueBelow(s[..|s| - 1]);
    }
  }

  lemma {:induction false} ValueAtLeast(s: string)
    requires AllDigits(s) && s != [] && s[0] != '0'
    ensures Value(s) >= Pow10(|s| - 1)
  {
    if |s| > 1 {
      ValueAtLeast(s[..|s| - 1]);
    }
  }

  predicate AllZeros(s: string) {
    forall i | 0 <= i < |s| :: s[i] == '0'
  }

  lemma {:induction false} ValueZero(s: string)
    requires AllDigits(s)
    ensures Value(s) == 0 <==> AllZeros(s)
  {
    if s != [] {
      var t := s[..|s| - 1];
      ValueZero(t);
      assert s == t + [s[|s| - 1]];
      if AllZeros(t) && s[|s| - 1] == '0' {
        assert forall i | 0 <= i < |s| :: if i < |t| then s[i] == t[i] else s[i] == s[|s| - 1];
      }
      if AllZeros(s) {
        assert forall i | 0 <= i < |t| :: t[i] == s[i];
      }
    }
  }

  /** The canonical numeral: no leading zero except for zero itself. */
  function ToDecimal(n: nat): (s: string)
    ensures s != [] && AllDigits(s) && Value(s) == n
    ensures s[0] == '0' ==> n == 0 && |s| == 1
  {
    if n < 10 then
      assert [DigitChar(n)][..0] == [];
      [DigitChar(n)]
    else
      var front := ToDecimal(n / 10);
      assert (front + [DigitChar(n % 10)])[..|front|] == front;
      front + [DigitChar(n % 10)]
  }

  lemma {:induction false} ToDecimalWidth(n: nat, width: nat)
    requires n < Pow10(width) && width > 0
    ensures |ToDecimal(n)| <= width
  {
    if |ToDecimal(n)| > width {
      ValueAtLeast(ToDecimal(n));
      Pow10Monotone(width, |ToDecimal(n)| - 1);
    }
  }

  /** `{n:02}`: at least two digits, padded with a zero. */
  function TwoDigits(n: nat): (s: string)
    ensures AllDigits(s) && Value(s) == n && |s| >= 2
    ensures n < 100 ==> |s| == 2
  {
    if n < 10 then
      var s := ['0'] + ToDecimal(n);
      assert Value(s) == n by { ValueConcat("0", ToDecimal(n)); assert "0"[..0] == []; }
      assert |s| == 2 by { ToDecimalWidth(n, 1) by { assert Pow10(1) == 10; } }
      s
    else
      var s := ToDecimal(n);
      assert n < 100 ==> |s| <= 2 by {
        if n < 100 { ToDecimalWidth(n, 2) by { assert Pow10(1) == 10; } }
      }
      s
  }

  /** The decimal numeral of a signed number (Rust's `Display`). */
  function SignedDecimal(n: int): string {
    if n < 0 then "-" + ToDecimal(-n) else ToDecimal(n)
  }

  /** A signed numeral with no bound on its size: an optional sign and at
      least one digit. */
  function ReadInteger(s: string): Option<int> {
    var signed := s != [] && (s[0] == '+' || s[0] == '-');
    var body := if signed then s[1..] else s;
    if body == [] || !AllDigits(body) then None
    else
      var v: int := Value(body);
      Some(if signed && s[0] == '-' then -v else v)
  }

  /** `str::parse` for a signed integer type of the given range. */
  function ParseSigned(s: string, min: int, max: int): Option<int> {
    match ReadInteger(s)
    case None => None
    case Some(n) => if min <= n <= max then Some(n) else None
  }

  /** `str::parse` for an unsigned integer type: a minus sign is refused. */
  function ParseUnsigned(s: string, max: int): Option<nat> {
    var body := if s != [] && s[0] == '+' then s[1..] else s;
    if body == [] || !AllDigits(body) || Value(body) > max then None else Some(Value(body))
  }

  /** What a signed numeral is: a sign that may be missing, and digits. */
  lemma ReadIntegerExactly(s: string, n: int)
    ensures ReadInteger(s) == Some(n) <==>
            exists sign, digits ::
              sign in {"", "+", "-"} && digits != "" && AllDigits(digits) && s == sign + digits
              && n == if sign == "-" then -(Value(digits) as int) else Value(digits)
  {
    if ReadInteger(s) == Some(n) {
      SplitSign(s, n);
    }
    if sign, digits :| sign in {"", "+", "-"} && digits != "" && AllDigits(digits) && s == sign + digits
                       && n == if sign == "-" then -(Value(digits) as int) else Value(digits)
    {
      JoinSign(sign, digits);
    }
  }

  lemma SplitSign(s: string, n: int)
    requires ReadInteger(s) == Some(n)
    ensures exists sign, digits ::
              sign in {"", "+", "-"} && digits != "" && AllDigits(digits) && s == sign + digits
              && n == if sign == "-" then -(Value(digits) as int) else Value(digits)
  {
    var sign := if s[0] == '+' then "+" else if s[0] == '-' then "-" else "";
    var digits := s[|sign|..];
    assert s == sign + digits && sign in {"", "+", "-"} && digits != "" && AllDigits(digits);
  }

  lemma JoinSign(sign: string, digits: string)
    requires sign in {"", "+", "-"} && digits != "" && AllDigits(digits)
    ensures ReadInteger(sign + digits) == Some(if sign == "-" then -(Value(digits) as int) else Value(digits))
    ensures sign != "-" ==> forall max :: ParseUnsigned(sign + digits, max) == if Value(digits) > max then None else Some(Value(digits))
    ensures sign == "-" ==> forall max :: ParseUnsigned(sign + digits, max) == None
  {
    var s := sign + digits;
    if sign == "" {
      assert s == digits && IsDigit(s[0]);
    } else {
      assert s[0] == sign[0] && s[1..] == digits;
    }
  }

  /** The ten digits stand for the ten numbers, in base ten. */
  lemma DigitsInOrder()
    ensures AllDigits("0123456789") && Value("0123456789") == 123_456_789
    ensures !IsDigit('0' - 1 as char) && !IsDigit('9' + 1 as char)
  {
    var s := "0123456789";
    assert s[..9] == "012345678" && s[..8] == "01234567" && s[..7] == "0123456" && s[..6] == "012345" && s[..5] == "01234";
    assert s[..4] == "0123" && s[..3] == "012" && s[..2] == "01" && s[..1] == "0" && s[..0] == "";
    assert Value("") == 0 && Value("0") == 0 by { assert "0"[..0] == ""; }
    assert Value("01") == 1 by { assert "01"[..1] == "0"; }
    assert Value("012") == 12 by { assert "012"[..2] == "01"; }
    assert Value("0123") == 123 by { assert "0123"[..3] == "012"; }
    assert Value("01234") == 1234 by { assert "01234"[..4] == "0123"; }
    assert Value("012345") == 12_345 by { assert "012345"[..5] == "01234"; }
    assert Value("0123456") == 123_456 by { assert "0123456"[..6] == "012345"; }
    assert Value("01234567") == 1_234_567 by { assert "01234567"[..7] == "0123456"; }
    assert Value("012345678") == 12_345_678 by { assert "012345678"[..8] == "01234567"; }
  }

  lemma SignedDecimalRoundTrip(n: int)
    ensures ReadInteger(SignedDecimal(n)) == Some(n)
  {
    if n < 0 {
      assert ("-" + ToDecimal(-n))[1..] == ToDecimal(-n);
    }
  }

  /** The Unicode `White_Space` property, which `str::trim` strips. */
  predicate IsWhitespace(c: char) {
    || '\U{0009}' <= c <= '\U{000D}'
    || c == '\U{0020}' || c == '\U{0085}' || c == '\U{00A0}' || c == '\U{1680}'
    || '\U{2000}' <= c <= '\U{200A}'
    || c == '\U{2028}' || c == '\U{2029}' || c == '\U{202F}' || c == '\U{205F}' || c == '\U{3000}'
  }

  /** The property holds of these 25 characters and of no other. */
  lemma WhitespaceSet(c: char)
    ensures IsWhitespace(c) <==>
            c in "\U{0009}\U{000A}\U{000B}\U{000C}\U{000D} \U{0085}\U{00A0}\U{1680}\U{2000}\U{2001}\U{2002}\U{2003}"
            || c in "\U{2004}\U{2005}\U{2006}\U{2007}\U{2008}\U{2009}\U{200A}\U{2028}\U{2029}\U{202F}\U{205F}\U{3000}"
  {
  }

  predicate AllWhitespace(s: string) {
    forall i | 0 <= i < |s| :: IsWhitespace(s[i])
  }

  /** `t` is `s` without the blanks around it: only blanks are taken away, and
      none is left at either end. */
  ghost predicate IsTrimmed(s: string, t: string) {
    && (exists before, after :: AllWhitespace(before) && AllWhitespace(after) && s == before + t + after)
    && BlankFree(t)
  }

  predicate BlankFree(t: string) {
    t != "" ==> !IsWhitespace(t[0]) && !IsWhitespace(t[|t| - 1])
  }

  /** `str::trim`. */
  function Trim(s: string): (t: string)
    ensures |t| <= |s|
    ensures t != [] ==> !IsWhitespace(t[0]) && !IsWhitespace(t[|t| - 1])
    ensures s != [] && !IsWhitespace(s[0]) && !IsWhitespace(s[|s| - 1]) ==> t == s
  {
    if s != [] && IsWhitespace(s[0]) then Trim(s[1..])
    else if s != [] && IsWhitespace(s[|s| - 1]) then Trim(s[..|s| - 1])
    else s
  }

  lemma BlankInFront(c: char, rest: string, t: string)
    requires IsWhitespace(c) && IsTrimmed(rest, t)
    ensures IsTrimmed([c] + rest, t)
  {
    var before, after :| AllWhitespace(before) && AllWhitespace(after) && rest == before + t + after;
    assert AllWhitespace([c] + before);
    assert [c] + (before + t + after) == ([c] + before) + t + after;
  }

  lemma BlankBehind(rest: string, c: char, t: string)
    requires IsWhitespace(c) && IsTrimmed(rest, t)
    ensures IsTrimmed(rest + [c], t)
  {
    var before, after :| AllWhitespace(before) && AllWhitespace(after) && rest == before + t + after;
    assert AllWhitespace(after + [c]);
    assert (before + t + after) + [c] == before + t + (after + [c]);
  }

  lemma NoBlankAround(s: string)
    requires BlankFree(s)
    ensures IsTrimmed(s, s)
  {
    assert AllWhitespace("") && s == "" + s + "";
  }

  lemma {:induction false} TrimIsTrimmed(s: string)
    ensures IsTrimmed(s, Trim(s))
  {
    if s != [] && IsWhitespace(s[0]) {
      TrimIsTrimmed(s[1..]);
      BlankInFront(s[0], s[1..], Trim(s));
      assert s == [s[0]] + s[1..];
    } else if s != [] && IsWhitespace(s[|s| - 1]) {
      TrimIsTrimmed(s[..|s| - 1]);
      BlankBehind(s[..|s| - 1], s[|s| - 1], Trim(s));
      assert s == s[..|s| - 1] + [s[|s| - 1]];
    } else {
      NoBlankAround(s);
    }
  }

  /** A text has one trimmed form, so `Trim` is the only such function. */
  lemma TrimIsUnique(s: string, t: string)
    ensures IsTrimmed(s, t) <==> t == Trim(s)
  {
    TrimIsTrimmed(s);
    if IsTrimmed(s, t) {
      var b1, a1 :| AllWhitespace(b1) && AllWhitespace(a1) && s == b1 + t + a1;
      var b2, a2 :| AllWhitespace(b2) && AllWhitespace(a2) && s == b2 + Trim(s) + a2;
      SameCore(b1, t, a1, b2, Trim(s), a2);
    }
  }

  lemma SameCore(b1: string, t1: string, a1: string, b2: string, t2: string, a2: string)
    requires AllWhitespace(b1) && AllWhitespace(a1) && AllWhitespace(b2) && AllWhitespace(a2)
    requires BlankFree(t1) && BlankFree(t2) && b1 + t1 + a1 == b2 + t2 + a2
    ensures t1 == t2
  {
    var s := b1 + t1 + a1;
    if t1 == "" || t2 == "" {
      CoreIsEmpty(b1, t1, a1, s);
      CoreIsEmpty(b2, t2, a2, s);
    } else {
      CoreEnds(b1, t1, a1, s);
      CoreEnds(b2, t2, a2, s);
      assert |b1| == |b2| && |a1| == |a2|;
      assert t1 == s[|b1|..|s| - |a1|] && t2 == s[|b2|..|s| - |a2|];
    }
  }

  lemma CoreIsEmpty(b: string, t: string, a: string, s: string)
    requires AllWhitespace(b) && AllWhitespace(a) && BlankFree(t) && s == b + t + a
    ensures t == "" <==> AllWhitespace(s)
  {
    if t != "" {
      assert s[|b|] == t[0];
    }
  }

  /** Where the first and the last character that is no blank stand. */
  lemma CoreEnds(b: string, t: string, a: string, s: string)
    requires AllWhitespace(b) && AllWhitespace(a) && BlankFree(t) && t != "" && s == b + t + a
    ensures forall i | 0 <= i < |b| :: IsWhitespace(s[i])
    ensures !IsWhitespace(s[|b|])
    ensures forall i | |s| - |a| <= i < |s| :: IsWhitespace(s[i])
    ensures !IsWhitespace(s[|s| - |a| - 1])
  {
    assert forall i | 0 <= i < |b| :: s[i] == b[i];
    assert s[|b|] == t[0];
    assert forall i | |s| - |a| <= i < |s| :: s[i] == a[i - (|s| - |a|)];
    assert s[|s| - |a| - 1] == t[|t| - 1];
  }

  predicate NoDash(s: string) {
    forall i | 0 <= i < |s| :: s[i] != '-'
  }

  lemma DigitsHaveNoDash(s: string)
    requires AllDigits(s)
    ensures NoDash(s)
  {
  }
}
