/** The lot-size column of the instrument master: what a decimal text with an
    exponent denotes exactly, the digit-shifting reference reader, and the
    production parser that goes through a floating-point number. */
module LotSize {
  import opened Decimal
  import opened Integers
  import opened Wrappers

  /** No text in memory is longer than half of what an `isize` can count. */
  const MAX_TEXT: int := 0x4000_0000_0000_0000

  /** The fuzz target's largest input. */
  const MAX_CELL: int := 256 * 1024

  // ---------------------------------------------------------------- grammar

  /** One way to write a decimal number, part by part. */
  datatype Spelling = Spelling(plus: bool, integer: string, point: bool, fraction: string, mark: string, power: string)

  ghost predicate WellFormed(w: Spelling) {
    && AllDigits(w.integer) && AllDigits(w.fraction)
    && w.integer + w.fraction != ""
    && (!w.point ==> w.fraction == "")
    && w.mark in {"", "e", "E"}
    && (if w.mark == "" then w.power == "" else ReadInteger(w.power).Some?)
  }

  ghost function Mantissa(w: Spelling): string {
    w.integer + (if w.point then "." else "") + w.fraction
  }

  ghost function Write(w: Spelling): string {
    (if w.plus then "+" else "") + Mantissa(w) + w.mark + w.power
  }

  /** What a well-formed text says: the digits on both sides of the point and
      a power of ten of any size. */
  datatype Reading = Reading(integer: string, fraction: string, exponent: int)

  ghost function Meaning(w: Spelling): Reading
    requires WellFormed(w)
  {
    Reading(w.integer, w.fraction, if w.mark == "" then 0 else ReadInteger(w.power).value)
  }

  /** The number `integer.fraction` times `10^exponent` is exactly `n`, in
      integers: no rounding anywhere. */
  ghost predicate Denotes(r: Reading, n: nat)
    requires AllDigits(r.integer + r.fraction)
  {
    Shifted(r.integer + r.fraction, |r.integer| + r.exponent, n)
  }

  /** The digits with the point after place `point` write exactly `n`. */
  ghost predicate Shifted(digits: string, point: int, n: nat)
    requires AllDigits(digits)
  {
    if point >= |digits| then Value(digits) * Pow10(point - |digits|) == n
    else Value(digits) == n * Pow10(|digits| - point)
  }

  /** Blanks aside, the text is a decimal number and that number is `n`. */
  ghost predicate TextIs(text: string, n: nat) {
    exists w :: WellFormed(w) && IsTrimmed(text, Write(w)) && Denotes(Meaning(w), n)
  }

  /** `lot` is the exact reading of the text as a lot size: the number itself
      when it is whole and in `1..=u32::MAX`, and 0 in every other case. */
  ghost predicate ExactLot(text: string, lot: nat) {
    if lot == 0 then forall n | 1 <= n <= U32_MAX :: !TextIs(text, n)
    else lot <= U32_MAX && TextIs(text, lot)
  }

  // ------------------------------------------------------ splitting the text

  predicate IsMark(c: char) { c == 'e' || c == 'E' }

  /** `str::find(['e', 'E'])`, as the length of the text when there is none. */
  function FindMark(s: string): (at: nat)
    ensures at <= |s|
    ensures at < |s| ==> IsMark(s[at])
    ensures forall i | 0 <= i < at :: !IsMark(s[i])
  {
    if s == "" || IsMark(s[0]) then 0 else 1 + FindMark(s[1..])
  }

  /** `split_once('.')`: the parts around the first point, if there is one. */
  function FindPoint(s: string): (at: nat)
    ensures at <= |s|
    ensures at < |s| ==> s[at] == '.'
    ensures forall i | 0 <= i < at :: s[i] != '.'
  {
    if s == "" || s[0] == '.' then 0 else 1 + FindPoint(s[1..])
  }

  function DropPlus(s: string): string {
    if s != "" && s[0] == '+' then s[1..] else s
  }

  function MantissaPart(unsigned: string): string {
    unsigned[..FindMark(unsigned)]
  }

  function ExponentPart(unsigned: string): string {
    var at := FindMark(unsigned);
    if at < |unsigned| then unsigned[at + 1..] else "0"
  }

  function IntegerPart(mantissa: string): string {
    mantissa[..FindPoint(mantissa)]
  }

  function FractionPart(mantissa: string): string {
    var at := FindPoint(mantissa);
    if at < |mantissa| then mantissa[at + 1..] else ""
  }

  function Digits(unsigned: string): string {
    IntegerPart(MantissaPart(unsigned)) + FractionPart(MantissaPart(unsigned))
  }

  /** The reading of an unsigned text, or None when it is not a number. */
  function ReadUnsigned(unsigned: string): Option<Reading> {
    var mantissa := MantissaPart(unsigned);
    var exponent := ReadInteger(ExponentPart(unsigned));
    if exponent.None? || Digits(unsigned) == "" || !AllDigits(Digits(unsigned)) then None
    else Some(Reading(IntegerPart(mantissa), FractionPart(mantissa), exponent.value))
  }

  function ReadText(text: string): (r: Option<Reading>)
    ensures r.Some? ==> AllDigits(r.value.integer + r.value.fraction)
  {
    ReadUnsigned(DropPlus(Trim(text)))
  }

  ghost function Unsigned(w: Spelling): string {
    Mantissa(w) + w.mark + w.power
  }

  lemma DropPlusOfWrite(w: Spelling)
    requires WellFormed(w)
    ensures DropPlus(Write(w)) == Unsigned(w)
  {
    var u := Unsigned(w);
    if w.plus {
      assert Write(w) == "+" + u;
    } else {
      assert Write(w) == u;
      if w.integer != "" {
        assert u[0] == w.integer[0];
      } else {
        assert u[0] == '.';
      }
    }
  }

  lemma MantissaHasNoMark(w: Spelling)
    requires WellFormed(w)
    ensures forall i | 0 <= i < |Mantissa(w)| :: !IsMark(Mantissa(w)[i])
    ensures FindPoint(Mantissa(w)) == |w.integer|
  {
    var m, n := Mantissa(w), |w.integer|;
    assert w.point ==> m == w.integer + "." + w.fraction;
    assert !w.point ==> m == w.integer;
    forall i | 0 <= i < |m| ensures !IsMark(m[i]) && (i < n ==> m[i] != '.') {
      if i < n {
        assert m[i] == w.integer[i];
      } else if i > n {
        assert m[i] == w.fraction[i - n - 1];
      }
    }
    assert w.point ==> m[n] == '.';
    PointIsFirst(m, n);
  }

  lemma PointIsFirst(m: string, n: nat)
    requires n <= |m| && (n < |m| ==> m[n] == '.')
    requires forall i | 0 <= i < n :: m[i] != '.'
    ensures FindPoint(m) == n
  {
  }

  lemma SplitsAtMark(m: string, mark: string, power: string)
    requires forall i | 0 <= i < |m| :: !IsMark(m[i])
    requires mark in {"", "e", "E"} && (mark == "" ==> power == "")
    ensures MantissaPart(m + mark + power) == m
    ensures ExponentPart(m + mark + power) == if mark == "" then "0" else power
  {
    var u := m + mark + power;
    assert forall i | 0 <= i < |m| :: u[i] == m[i];
    if mark == "" {
      assert u == m;
    } else {
      assert u[|m|] == mark[0];
      assert FindMark(u) == |m|;
      assert u[|m| + 1..] == power;
    }
  }

  lemma ZeroReads()
    ensures ReadInteger("0") == Some(0)
  {
    assert "0"[..0] == [];
  }

  /** Splitting undoes writing. */
  lemma ReadAfterWrite(w: Spelling)
    requires WellFormed(w)
    ensures ReadUnsigned(DropPlus(Write(w))) == Some(Meaning(w))
  {
    var m := Mantissa(w);
    DropPlusOfWrite(w);
    MantissaHasNoMark(w);
    SplitsAtMark(m, w.mark, w.power);
    ZeroReads();
    assert IntegerPart(m) == w.integer;
    assert FractionPart(m) == w.fraction by {
      if w.point {
        assert m[|w.integer| + 1..] == w.fraction;
      }
    }
    assert AllDigits(w.integer + w.fraction);
  }

  lemma Around(s: string, at: nat)
    requires at < |s|
    ensures s == s[..at] + [s[at]] + s[at + 1..]
  {
  }

  lemma JoinMantissa(m: string)
    ensures FindPoint(m) < |m| ==> m == IntegerPart(m) + "." + FractionPart(m)
    ensures FindPoint(m) == |m| ==> m == IntegerPart(m) && FractionPart(m) == ""
  {
    if FindPoint(m) < |m| {
      Around(m, FindPoint(m));
      assert [m[FindPoint(m)]] == ".";
    }
  }

  lemma JoinMark(u: string)
    ensures FindMark(u) < |u| ==> u == MantissaPart(u) + [u[FindMark(u)]] + ExponentPart(u)
    ensures FindMark(u) == |u| ==> u == MantissaPart(u)
  {
    if FindMark(u) < |u| {
      Around(u, FindMark(u));
    }
  }

  lemma JoinPlus(t: string)
    ensures t == (if DropPlus(t) != t then "+" else "") + DropPlus(t)
  {
    if t != "" && t[0] == '+' {
      assert t == "+" + t[1..];
    }
  }

  /** The spelling whose parts are the parts of an unsigned text. */
  ghost function SpellingOf(plus: bool, u: string): Spelling {
    var m := MantissaPart(u);
    var marked := FindMark(u) < |u|;
    Spelling(plus, IntegerPart(m), FindPoint(m) < |m|, FractionPart(m),
             if marked then [u[FindMark(u)]] else "", if marked then ExponentPart(u) else "")
  }

  lemma SpellingOfReads(plus: bool, u: string)
    requires ReadUnsigned(u).Some?
    ensures WellFormed(SpellingOf(plus, u))
  {
    var m := MantissaPart(u);
    DigitsSplit(IntegerPart(m), FractionPart(m));
    JoinMantissa(m);
    if FindMark(u) < |u| {
      assert [u[FindMark(u)]] == "e" || [u[FindMark(u)]] == "E";
    }
  }

  lemma SpellingOfWrites(plus: bool, u: string)
    ensures Unsigned(SpellingOf(plus, u)) == u
  {
    JoinMantissa(MantissaPart(u));
    JoinMark(u);
    assert Mantissa(SpellingOf(plus, u)) == MantissaPart(u);
  }

  /** Every text that reads was written in one of the well-formed ways. */
  lemma WriteAfterRead(t: string) returns (w: Spelling)
    requires ReadUnsigned(DropPlus(t)).Some?
    ensures WellFormed(w) && Write(w) == t
  {
    var u := DropPlus(t);
    w := SpellingOf(u != t, u);
    SpellingOfReads(u != t, u);
    SpellingOfWrites(u != t, u);
    JoinPlus(t);
    WriteUnsigned(w);
  }

  lemma WriteUnsigned(w: Spelling)
    ensures Write(w) == (if w.plus then "+" else "") + Unsigned(w)
  {
    assert Write(w) == (if w.plus then "+" else "") + (Mantissa(w) + w.mark + w.power);
  }

  lemma DigitsSplit(a: string, b: string)
    requires AllDigits(a + b)
    ensures AllDigits(a) && AllDigits(b)
  {
    assert forall k | 0 <= k < |a| :: a[k] == (a + b)[k];
    assert forall k | 0 <= k < |b| :: b[k] == (a + b)[|a| + k];
  }

  /** The declarative meaning of a text is what the splitter computes. */
  lemma TextIsReading(text: string, n: nat)
    ensures TextIs(text, n) <==> ReadText(text).Some? && Denotes(ReadText(text).value, n)
  {
    var t := Trim(text);
    if TextIs(text, n) {
      var w :| WellFormed(w) && IsTrimmed(text, Write(w)) && Denotes(Meaning(w), n);
      TrimIsUnique(text, Write(w));
      ReadAfterWrite(w);
    }
    if ReadText(text).Some? {
      var w := WriteAfterRead(t);
      TrimIsTrimmed(text);
      ReadAfterWrite(w);
    }
  }

  // ------------------------------------------------------- shifting the point

  function Zeros(n: nat): (s: string)
    ensures |s| == n && AllZeros(s) && AllDigits(s)
  {
    seq(n, _ => '0')
  }

  /** The point at or behind the last digit: pad with zeros. */
  lemma ShiftRight(digits: string, point: nat, n: nat)
    requires AllDigits(digits) && point >= |digits|
    ensures AllDigits(digits + Zeros(point - |digits|))
    ensures Shifted(digits, point, n) <==> n == Value(digits + Zeros(point - |digits|))
  {
    ValueConcat(digits, Zeros(point - |digits|));
    ValueZero(Zeros(point - |digits|));
  }

  /** The point inside the digits: whole if and only if only zeros follow. */
  lemma ShiftInside(digits: string, point: nat, n: nat)
    requires AllDigits(digits) && point < |digits|
    ensures Shifted(digits, point, n) <==> AllZeros(digits[point..]) && n == Value(digits[..point])
  {
    var head, tail := digits[..point], digits[point..];
    assert digits == head + tail;
    ValueConcat(head, tail);
    ValueBelow(tail);
    ValueZero(tail);
    QuotientIsUnique(Value(head), Value(tail), n, Pow10(|tail|));
  }

  lemma QuotientIsUnique(q: nat, r: nat, n: nat, d: nat)
    requires r < d
    ensures q * d + r == n * d <==> r == 0 && n == q
  {
    if q * d + r == n * d {
      if n > q {
        ProductsGrow(q + 1, n, d);
      } else if n < q {
        ProductsGrow(n + 1, q, d);
      }
    }
  }

  lemma ProductsGrow(a: nat, b: nat, d: nat)
    requires a <= b
    ensures a * d <= b * d
  {
    assert (b - a) * d >= 0;
  }

  /** The point in front of all digits: nothing but zero can be whole. */
  lemma ShiftBefore(digits: string, point: int, n: nat)
    requires AllDigits(digits) && point < 0 && !AllZeros(digits)
    ensures !Shifted(digits, point, n)
  {
    ValueZero(digits);
    ValueBelow(digits);
    Pow10Monotone(|digits|, |digits| - point);
    if n >= 1 {
      assert n * Pow10(|digits| - point) >= Pow10(|digits| - point);
    }
  }

  /** `trim_start_matches('0')`: how many zeros lead. */
  function LeadingZeros(s: string): (k: nat)
    ensures k <= |s|
    ensures AllZeros(s[..k])
    ensures k < |s| ==> s[k] != '0'
    ensures k == |s| <==> AllZeros(s)
  {
    if s == "" || s[0] != '0' then 0
    else
      var k := 1 + LeadingZeros(s[1..]);
      assert s[..k] == ['0'] + s[1..][..k - 1];
      assert k == |s| ==> s == s[..k];
      k
  }

  lemma Pow10OfEleven()
    ensures Pow10(11) == 100_000_000_000
  {
    assert Pow10(4) == 10_000;
    Pow10Add(4, 4);
    assert Pow10(3) == 1_000;
    Pow10Add(8, 3);
  }

  /** More than eleven places that count are beyond `u32`. */
  lemma TooLong(whole: string, zeros: nat)
    requires AllDigits(whole) && zeros < |whole| && whole[zeros] != '0'
    requires |whole| - zeros > 11
    ensures Value(whole) > U32_MAX
  {
    var head, tail := whole[..zeros], whole[zeros..];
    assert whole == head + tail;
    ValueOfSuffix(head, tail);
    ValueAtLeast(tail);
    Pow10Monotone(11, |tail| - 1);
    Pow10OfEleven();
  }

  /** The whole number a shifted digit string writes, if it writes one. */
  ghost function Whole(digits: string, point: int): Option<nat>
    requires AllDigits(digits)
  {
    if point >= |digits| then Some(Value(digits + Zeros(point - |digits|)))
    else if AllZeros(digits) then Some(0)
    else if point >= 0 && AllZeros(digits[point..]) then Some(Value(digits[..point]))
    else None
  }

  lemma WholeIsShifted(digits: string, point: int, n: nat)
    requires AllDigits(digits)
    ensures Shifted(digits, point, n) <==> Whole(digits, point) == Some(n)
  {
    if point >= |digits| {
      ShiftRight(digits, point, n);
    } else if AllZeros(digits) {
      ValueZero(digits);
      if n > 0 {
        ProductsGrow(1, n, Pow10(|digits| - point));
      }
    } else if point >= 0 {
      ShiftInside(digits, point, n);
    } else {
      ShiftBefore(digits, point, n);
    }
  }

  /** More than eleven places in front of the point, leading zeros aside. */
  lemma WholeTooFar(digits: string, point: int)
    requires AllDigits(digits) && !AllZeros(digits)
    requires point - LeadingZeros(digits) > 11 && Whole(digits, point).Some?
    ensures Whole(digits, point).value > U32_MAX
  {
    var zeros := LeadingZeros(digits);
    if point >= |digits| {
      TooLong(digits + Zeros(point - |digits|), zeros);
    } else {
      TooLong(digits[..point], zeros);
    }
  }

  lemma WholeOfZeros(digits: string, point: int)
    requires AllDigits(digits) && AllZeros(digits)
    ensures Whole(digits, point) == Some(0)
  {
    if point >= |digits| {
      ValueZero(digits + Zeros(point - |digits|));
    }
  }

  /** The whole number a reading stands for, if it stands for one. */
  ghost function ReadingWhole(r: Reading): Option<nat>
    requires AllDigits(r.integer + r.fraction)
  {
    Whole(r.integer + r.fraction, |r.integer| + r.exponent)
  }

  lemma ReadingIsWhole(r: Reading, n: nat)
    requires AllDigits(r.integer + r.fraction)
    ensures Denotes(r, n) <==> ReadingWhole(r) == Some(n)
  {
    WholeIsShifted(r.integer + r.fraction, |r.integer| + r.exponent, n);
  }

  lemma TextIsWhole(text: string, n: nat)
    ensures TextIs(text, n) <==> ReadText(text).Some? && ReadingWhole(ReadText(text).value) == Some(n)
  {
    TextIsReading(text, n);
    if ReadText(text).Some? {
      var r := ReadText(text).value;
      ReadingIsWhole(r, n);
    }
  }

  /** A whole number clipped to what a lot size may be. */
  ghost function Clip(n: Option<nat>): nat {
    if n.Some? && n.value <= U32_MAX then n.value else 0
  }

  ghost function LotOf(r: Option<Reading>): nat
    requires r.Some? ==> AllDigits(r.value.integer + r.value.fraction)
  {
    if r.None? then 0 else Clip(ReadingWhole(r.value))
  }

  lemma LotOfIsExact(text: string)
    ensures ExactLot(text, LotOf(ReadText(text)))
  {
    var lot := LotOf(ReadText(text));
    if lot == 0 {
      forall n | 1 <= n <= U32_MAX ensures !TextIs(text, n) {
        TextIsWhole(text, n);
      }
    } else {
      TextIsWhole(text, lot);
    }
  }

  /** An exponent outside `i64` cannot belong to a lot size. */
  lemma ExponentOutOfRange(r: Reading)
    requires |r.integer + r.fraction| <= MAX_TEXT && AllDigits(r.integer + r.fraction)
    requires !(I64_MIN <= r.exponent <= I64_MAX)
    ensures LotOf(Some(r)) == 0
  {
    var digits, point := r.integer + r.fraction, |r.integer| + r.exponent;
    if AllZeros(digits) {
      WholeOfZeros(digits, point);
    } else if r.exponent > I64_MAX {
      WholeTooFar(digits, point);
    }
  }

  /** A text has exactly one exact lot. */
  lemma ExactLotUnique(text: string, a: nat, b: nat)
    requires ExactLot(text, a) && ExactLot(text, b)
    ensures a == b
  {
    if a != 0 { TextIsWhole(text, a); }
    if b != 0 { TextIsWhole(text, b); }
  }

  // ------------------------------------------------- how a lot may be spelled

  lemma WrittenTextsAreBlankFree(w: Spelling)
    requires WellFormed(w)
    ensures BlankFree(Write(w))
  {
    var t := Write(w);
    JoinMarkAndPower(w);
    if t != "" {
      assert t[0] == '+' || IsDigit(t[0]) || t[0] == '.';
      assert t[|t| - 1] == '.' || IsDigit(t[|t| - 1]);
    }
  }

  lemma JoinMarkAndPower(w: Spelling)
    requires WellFormed(w)
    ensures Mantissa(w) != "" && (IsDigit(Mantissa(w)[0]) || Mantissa(w)[0] == '.')
    ensures var m := Mantissa(w); m[|m| - 1] == '.' || IsDigit(m[|m| - 1])
    ensures w.mark != "" ==> w.power != "" && IsDigit(w.power[|w.power| - 1])
  {
    if w.mark != "" {
      var n := ReadInteger(w.power).value;
      SplitSign(w.power, n);
    }
  }

  /** Blanks around a well-formed spelling of a lot size do not matter. */
  lemma SpelledLot(w: Spelling, before: string, after: string, n: nat)
    requires WellFormed(w) && AllWhitespace(before) && AllWhitespace(after)
    requires 1 <= n <= U32_MAX && Denotes(Meaning(w), n)
    ensures ExactLot(before + Write(w) + after, n)
  {
    WrittenTextsAreBlankFree(w);
    assert IsTrimmed(before + Write(w) + after, Write(w));
  }

  /** The plain numeral, the numeral with a point and zeros, and the numeral
      scaled up and down again are all the same lot. */
  lemma SpellingsOfALot(n: nat, zeros: nat, before: string, after: string)
    requires 1 <= n <= U32_MAX && AllWhitespace(before) && AllWhitespace(after)
    ensures ExactLot(before + ToDecimal(n) + after, n)
    ensures ExactLot(before + (ToDecimal(n) + "." + Zeros(zeros)) + after, n)
    ensures ExactLot(before + ("+" + (ToDecimal(n) + Zeros(zeros)) + "e" + ("-" + ToDecimal(zeros))) + after, n)
  {
    SpelledPlain(n, before, after);
    SpelledWithPoint(n, zeros, before, after);
    SpelledWithPower(n, zeros, before, after);
  }

  lemma SpelledPlain(n: nat, before: string, after: string)
    requires 1 <= n <= U32_MAX && AllWhitespace(before) && AllWhitespace(after)
    ensures ExactLot(before + ToDecimal(n) + after, n)
  {
    var w := Spelling(false, ToDecimal(n), false, "", "", "");
    assert ToDecimal(n) + "" == ToDecimal(n) && Write(w) == ToDecimal(n);
    SpelledLot(w, before, after, n);
  }

  lemma SpelledWithPoint(n: nat, zeros: nat, before: string, after: string)
    requires 1 <= n <= U32_MAX && AllWhitespace(before) && AllWhitespace(after)
    ensures ExactLot(before + (ToDecimal(n) + "." + Zeros(zeros)) + after, n)
  {
    var w := PointSpelling(ToDecimal(n), Zeros(zeros));
    ZerosBehindThePoint(n, zeros);
    SpelledLot(w, before, after, n);
  }

  lemma PointSpelling(integer: string, fraction: string) returns (w: Spelling)
    requires integer != "" && AllDigits(integer) && AllDigits(fraction)
    ensures w == Spelling(false, integer, true, fraction, "", "") && WellFormed(w)
    ensures Meaning(w) == Reading(integer, fraction, 0) && Write(w) == integer + "." + fraction
  {
    w := Spelling(false, integer, true, fraction, "", "");
    assert "" + (integer + "." + fraction) + "" + "" == integer + "." + fraction;
  }

  lemma ZerosBehindThePoint(n: nat, zeros: nat)
    ensures AllDigits(ToDecimal(n) + Zeros(zeros))
    ensures Denotes(Reading(ToDecimal(n), Zeros(zeros), 0), n)
  {
    ValueConcat(ToDecimal(n), Zeros(zeros));
    ValueZero(Zeros(zeros));
    assert zeros == 0 ==> ToDecimal(n) + Zeros(0) == ToDecimal(n);
  }

  lemma SpelledWithPower(n: nat, zeros: nat, before: string, after: string)
    requires 1 <= n <= U32_MAX && AllWhitespace(before) && AllWhitespace(after)
    ensures ExactLot(before + ("+" + (ToDecimal(n) + Zeros(zeros)) + "e" + ("-" + ToDecimal(zeros))) + after, n)
  {
    var power := "-" + ToDecimal(zeros);
    JoinSign("-", ToDecimal(zeros));
    ScaledUpAndDown(n, zeros);
    var w := ScaledSpelling(ToDecimal(n) + Zeros(zeros), power, 0 - zeros);
    SpelledLot(w, before, after, n);
  }

  lemma ScaledUpAndDown(n: nat, zeros: nat)
    ensures AllDigits(ToDecimal(n) + Zeros(zeros) + "")
    ensures Denotes(Reading(ToDecimal(n) + Zeros(zeros), "", 0 - zeros), n)
  {
    var digits := ToDecimal(n) + Zeros(zeros);
    ValueConcat(ToDecimal(n), Zeros(zeros));
    ValueZero(Zeros(zeros));
    assert digits + "" == digits;
    assert zeros == 0 ==> digits == ToDecimal(n);
  }

  lemma ScaledSpelling(digits: string, power: string, exponent: int) returns (w: Spelling)
    requires digits != "" && AllDigits(digits) && ReadInteger(power) == Some(exponent)
    ensures w == Spelling(true, digits, false, "", "e", power) && WellFormed(w)
    ensures Meaning(w) == Reading(digits, "", exponent) && Write(w) == "+" + digits + "e" + power
  {
    w := Spelling(true, digits, false, "", "e", power);
    assert digits + "" == digits && digits + "" + "" == digits;
  }

  // --------------------------------------------------- the exact reference

  /** `i64::saturating_add`. */
  function SaturatingAdd(a: int, b: int): (sum: int)
    ensures I64_MIN <= sum <= I64_MAX
    ensures I64_MIN <= a + b <= I64_MAX ==> sum == a + b
    ensures a + b > I64_MAX ==> sum == I64_MAX
    ensures a + b < I64_MIN ==> sum == I64_MIN
  {
    if a + b > I64_MAX then I64_MAX else if a + b < I64_MIN then I64_MIN else a + b
  }

  /** What the parts of an unsigned text come to. */
  ghost function LotFrom(unsigned: string, exponent: int): nat {
    var digits := Digits(unsigned);
    if digits == "" || !AllDigits(digits) then 0
    else Clip(Whole(digits, |IntegerPart(MantissaPart(unsigned))| + exponent))
  }

  lemma DigitsGiveTheLot(unsigned: string, exponent: int)
    requires ParseSigned(ExponentPart(unsigned), I64_MIN, I64_MAX) == Some(exponent)
    ensures LotOf(ReadUnsigned(unsigned)) == LotFrom(unsigned, exponent)
  {
  }

  lemma PartsFit(unsigned: string)
    ensures |IntegerPart(MantissaPart(unsigned))| <= |Digits(unsigned)| <= |unsigned|
  {
  }

  lemma UnsignedFits(text: string)
    ensures |DropPlus(Trim(text))| <= |text|
  {
  }

  lemma NoExponentNoLot(unsigned: string)
    requires |unsigned| <= MAX_TEXT
    requires ParseSigned(ExponentPart(unsigned), I64_MIN, I64_MAX).None?
    ensures LotOf(ReadUnsigned(unsigned)) == 0
  {
    PartsFit(unsigned);
    if ReadUnsigned(unsigned).Some? {
      ExponentOutOfRange(ReadUnsigned(unsigned).value);
    }
  }

  /** The reference reader shifts the point over the digit string and never
      leaves integers. */
  method RefExactLot(text: string) returns (lot: nat)
    requires |text| <= MAX_TEXT
    ensures ExactLot(text, lot)
  {
    LotOfIsExact(text);
    UnsignedFits(text);
    lot := RefUnsigned(DropPlus(Trim(text)));
  }

  /** The reader behind the trim and the sign. */
  method RefUnsigned(unsigned: string) returns (lot: nat)
    requires |unsigned| <= MAX_TEXT
    ensures lot == LotOf(ReadUnsigned(unsigned))
  {
    var exponent := ParseSigned(ExponentPart(unsigned), I64_MIN, I64_MAX);
    PartsFit(unsigned);
    if exponent.None? {
      NoExponentNoLot(unsigned);
      return 0;
    }
    var digits := Digits(unsigned);
    DigitsGiveTheLot(unsigned, exponent.value);
    if digits == "" || !AllDigits(digits) {
      return 0;
    }
    lot := ShiftPoint(digits, |IntegerPart(MantissaPart(unsigned))|, exponent.value);
  }

  lemma PlainParse(whole: string)
    requires whole != "" && AllDigits(whole)
    ensures ParseUnsigned(whole, U64_MAX) == if Value(whole) > U64_MAX then None else Some(Value(whole))
  {
    assert IsDigit(whole[0]);
  }

  /** The digit-shifting half of the reference reader. */
  method ShiftPoint(digits: string, places: nat, exponent: int) returns (lot: nat)
    requires digits != "" && AllDigits(digits)
    requires places <= |digits| <= MAX_TEXT && I64_MIN <= exponent <= I64_MAX
    ensures lot == Clip(Whole(digits, places + exponent))
  {
    ghost var exact := places + exponent;
    var zeros := LeadingZeros(digits);
    if zeros == |digits| {
      WholeOfZeros(digits, exact);
      return 0;
    }
    var point := SaturatingAdd(places, exponent);
    var len := |digits|;
    if point < len && exists i | 0 <= i < len :: i >= point && digits[i] != '0' {
      return 0;
    }
    assert point > zeros;
    if point - zeros > 11 {
      if Whole(digits, exact).Some? { WholeTooFar(digits, exact); }
      return 0;
    }
    lot := PadAndParse(digits, point);
  }

  /** Its last step: drop the zeros behind the point, or pad up to it. */
  method PadAndParse(digits: string, point: nat) returns (lot: nat)
    requires AllDigits(digits) && !AllZeros(digits) && point > 0
    requires point < |digits| ==> AllZeros(digits[point..])
    ensures lot == Clip(Whole(digits, point))
  {
    var len := |digits|;
    var kept := if point < len then point else len;
    var whole := digits[..kept];
    var padded := 0;
    while padded < point - len
      invariant 0 <= padded <= (if point < len then 0 else point - len)
      invariant whole == digits[..kept] + Zeros(padded)
    {
      whole := whole + "0";
      padded := padded + 1;
    }
    WholeIsKept(digits, point);
    PlainParse(whole);
    match ParseUnsigned(whole, U64_MAX)
    case Some(v) =>
      lot := if 1 <= v <= U32_MAX then v else 0;
    case None =>
      lot := 0;
  }

  lemma WholeIsKept(digits: string, point: nat)
    requires AllDigits(digits) && !AllZeros(digits)
    requires point < |digits| ==> AllZeros(digits[point..])
    ensures var kept := if point < |digits| then point else |digits|;
            var whole := digits[..kept] + Zeros(if point < |digits| then 0 else point - |digits|);
            AllDigits(whole) && Whole(digits, point) == Some(Value(whole))
  {
    if point < |digits| {
      assert digits[..point] + Zeros(0) == digits[..point];
    } else {
      assert digits[..|digits|] == digits;
    }
  }

  // ------------------------------------------------- the production parser

  /** A binary floating-point number, as far as the parser can tell one from
      another. */
  datatype Float = NotANumber | Infinite | Finite(value: real)

  /** Integers up to this one are exact in binary64 (IEEE 754-2019, section
      3.3: 53 significant bits). */
  const EXACT_INTEGERS: int := 0x20_0000_0000_0000

  function DropSign(s: string): string {
    if s != "" && (s[0] == '+' || s[0] == '-') then s[1..] else s
  }

  /** The standard library's floating-point parser stops taking exponent digits
      once what it has is this large. */
  const STD_EXPONENT_STOP: nat := 0x1_0000

  /** So an exponent of at least this size loses its last digits. */
  const DROPS_DIGITS: int := 655_360

  function StdExponent(digits: string): nat
    requires AllDigits(digits)
  {
    if digits == "" then 0
    else
      var e := StdExponent(digits[..|digits| - 1]);
      if e < STD_EXPONENT_STOP then 10 * e + DigitValue(digits[|digits| - 1]) else e
  }

  lemma {:induction false} StdExponentIsExact(digits: string)
    requires AllDigits(digits)
    ensures if Value(digits) < DROPS_DIGITS then StdExponent(digits) == Value(digits) else StdExponent(digits) >= STD_EXPONENT_STOP
  {
    if digits != "" {
      StdExponentIsExact(digits[..|digits| - 1]);
    }
  }

  /** `ReadInteger` with that stop. */
  function StdInteger(s: string): (e: int)
    requires ReadInteger(s).Some?
  {
    var signed := s != [] && (s[0] == '+' || s[0] == '-');
    var e: int := StdExponent(if signed then s[1..] else s);
    if signed && s[0] == '-' then -e else e
  }

  lemma StdIntegerIsExact(s: string)
    requires ReadInteger(s).Some?
    ensures var e := ReadInteger(s).value;
            && (-DROPS_DIGITS < e < DROPS_DIGITS ==> StdInteger(s) == e)
            && (e >= DROPS_DIGITS ==> StdInteger(s) >= STD_EXPONENT_STOP)
  {
    var signed := s != [] && (s[0] == '+' || s[0] == '-');
    StdExponentIsExact(if signed then s[1..] else s);
  }

  /** The reading the floating-point parser rounds. */
  ghost function StdReading(unsigned: string): Reading
    requires ReadUnsigned(unsigned).Some?
  {
    ReadUnsigned(unsigned).value.(exponent := StdInteger(ExponentPart(unsigned)))
  }

  /** All that is assumed of the conversion from decimal text: an integer up
      to 2^53 is read exactly, a larger one never ends up below 2^53, a minus
      sign negates, and text that is not a number is an error or one of the
      special values. What is not whole may round to anything of its sign. */
  ghost predicate FloatReads(text: string, parsed: Option<Float>) {
    var unsigned := DropSign(text);
    var sign := if text != "" && text[0] == '-' then -1.0 else 1.0;
    if ReadUnsigned(unsigned).None? then parsed.None? || !parsed.value.Finite?
    else parsed.Some? && Rounds(sign, ReadingWhole(StdReading(unsigned)), parsed.value)
  }

  ghost predicate Rounds(sign: real, whole: Option<nat>, float: Float) {
    && (float.Finite? ==> sign * float.value >= 0.0)
    && match whole
       case None => true
       case Some(n) =>
         if n <= EXACT_INTEGERS then float == Finite(sign * (n as real))
         else float.Infinite? || (float.Finite? && sign * float.value >= EXACT_INTEGERS as real)
  }

  /** Every text has such a conversion. */
  lemma EveryTextHasAFloat(text: string) returns (parsed: Option<Float>)
    ensures FloatReads(text, parsed)
  {
    var unsigned := DropSign(text);
    var sign := if text != "" && text[0] == '-' then -1.0 else 1.0;
    if ReadUnsigned(unsigned).None? {
      parsed := None;
    } else {
      var float := SomeFloat(sign, ReadingWhole(StdReading(unsigned)));
      parsed := Some(float);
    }
  }

  lemma SomeFloat(sign: real, whole: Option<nat>) returns (float: Float)
    requires sign == 1.0 || sign == -1.0
    ensures Rounds(sign, whole, float)
  {
    match whole
    case None => float := Infinite;
    case Some(n) => float := if n <= EXACT_INTEGERS then Finite(sign * (n as real)) else Infinite;
  }

  /** Whether every digit behind the shifted point is a zero. */
  predicate DecimalTextIsWhole(text: string) {
    var unsigned := DropSign(text);
    var exponent := ParseSigned(ExponentPart(unsigned), I64_MIN, I64_MAX);
    var digits := Digits(unsigned);
    && exponent.Some?
    && AllDigits(digits)
    && var point := SaturatingAdd(|IntegerPart(MantissaPart(unsigned))|, exponent.value);
       forall i | 0 <= i < |digits| :: i < point || digits[i] == '0'
  }

  lemma TailIsZeros(digits: string, point: int)
    requires AllDigits(digits)
    ensures (forall i | 0 <= i < |digits| :: i < point || digits[i] == '0') <==> Whole(digits, point).Some?
  {
    if 0 <= point < |digits| {
      var tail := digits[point..];
      assert forall i | 0 <= i < |tail| :: tail[i] == digits[point + i];
      assert forall i | point <= i < |digits| :: digits[i] == tail[i - point];
    }
  }

  /** The text check and the exact reading agree, except that the text check
      refuses an exponent beyond `i64`. */
  lemma WholeTextIsWhole(text: string)
    requires |text| <= MAX_TEXT && ReadUnsigned(DropSign(text)).Some?
    ensures var r := ReadUnsigned(DropSign(text)).value;
            DecimalTextIsWhole(text) <==> I64_MIN <= r.exponent <= I64_MAX && ReadingWhole(r).Some?
  {
    var r := ReadUnsigned(DropSign(text)).value;
    if I64_MIN <= r.exponent <= I64_MAX {
      TailIsZeros(r.integer + r.fraction, |r.integer| + r.exponent);
      TailIsZeros(r.integer + r.fraction, SaturatingAdd(|r.integer|, r.exponent));
    }
  }

  /** A plain run of digits reads as itself. */
  lemma PlainDigits(text: string, value: nat)
    requires ParseUnsigned(text, U32_MAX) == Some(value)
    ensures ReadUnsigned(DropPlus(text)).Some?
    ensures ReadingWhole(ReadUnsigned(DropPlus(text)).value) == Some(value)
    ensures ReadUnsigned(DropPlus(text)).value.exponent == 0
  {
    var u := DropPlus(text);
    assert forall i | 0 <= i < |u| :: IsDigit(u[i]);
    assert FindMark(u) == |u| && MantissaPart(u) == u;
    assert FindPoint(u) == |u| && IntegerPart(u) == u;
    assert u + "" == u;
    ZeroReads();
    assert u + Zeros(0) == u;
  }

  lemma MinusIsNotANumber(text: string)
    requires text != "" && text[0] == '-'
    ensures ReadUnsigned(DropPlus(text)).None?
  {
    var m := MantissaPart(text);
    if FindPoint(m) > 0 {
      assert m[0] == '-' && Digits(text)[0] == '-';
      assert !IsDigit(Digits(text)[0]);
    }
  }

  /** The parser's tests on the floating-point number. */
  predicate LooksLikeALot(parsed: Option<Float>) {
    parsed.Some? && parsed.value.Finite? && 0.0 < parsed.value.value <= U32_MAX as real
    && parsed.value.value.Floor as real == parsed.value.value
  }

  /** An exponent whose digits the floating-point parser takes to the end. */
  ghost predicate KeepsDigits(text: string) {
    ReadUnsigned(DropSign(text)).Some? ==> -DROPS_DIGITS < ReadUnsigned(DropSign(text)).value.exponent < DROPS_DIGITS
  }

  /** An exponent so large that it loses digits, where what is left reads as a
      lot size after all. */
  ghost predicate MisreadsExponent(text: string, parsed: Option<Float>) {
    && ReadUnsigned(DropPlus(text)).Some?
    && DROPS_DIGITS <= ReadUnsigned(DropPlus(text)).value.exponent <= I64_MAX
    && LooksLikeALot(parsed)
  }

  /** What the parser answers for a text that is no plain integer. */
  ghost function FloatLot(text: string, parsed: Option<Float>): nat {
    if LooksLikeALot(parsed) && DecimalTextIsWhole(text) then parsed.value.value.Floor else 0
  }

  lemma DigitsFit(unsigned: string)
    ensures |Digits(unsigned)| <= |unsigned|
  {
  }

  lemma MinusHasNoLot(text: string, parsed: Option<Float>)
    requires FloatReads(text, parsed) && text != "" && text[0] == '-'
    ensures FloatLot(text, parsed) == 0 && LotOf(ReadUnsigned(DropPlus(text))) == 0 && !MisreadsExponent(text, parsed)
  {
    MinusIsNotANumber(text);
  }

  lemma NoNumberNoLot(text: string, parsed: Option<Float>)
    requires FloatReads(text, parsed) && DropSign(text) == DropPlus(text) && ReadUnsigned(DropPlus(text)).None?
    ensures FloatLot(text, parsed) == 0 && !MisreadsExponent(text, parsed)
  {
  }

  /** While no digit is dropped a lot that counts comes back as itself, and
      nothing else gets past the parser's tests. */
  lemma KeptExponent(text: string, parsed: Option<Float>)
    requires |text| <= MAX_TEXT && FloatReads(text, parsed) && KeepsDigits(text)
    requires DropSign(text) == DropPlus(text) && ReadUnsigned(DropPlus(text)).Some? && (text == "" || text[0] != '-')
    ensures FloatLot(text, parsed) == LotOf(ReadUnsigned(DropPlus(text)))
  {
    StdIntegerIsExact(ExponentPart(DropPlus(text)));
    WholeTextIsWhole(text);
    ExactFloatIsTheLot(text, parsed, ReadUnsigned(DropPlus(text)).value);
  }

  lemma ExactFloatIsTheLot(text: string, parsed: Option<Float>, r: Reading)
    requires FloatReads(text, parsed) && (text == "" || text[0] != '-')
    requires ReadUnsigned(DropSign(text)) == Some(r) && StdReading(DropSign(text)) == r
    requires DecimalTextIsWhole(text) <==> I64_MIN <= r.exponent <= I64_MAX && ReadingWhole(r).Some?
    requires -DROPS_DIGITS < r.exponent < DROPS_DIGITS
    ensures FloatLot(text, parsed) == Clip(ReadingWhole(r))
  {
    match ReadingWhole(r)
    case None =>
    case Some(n) => WholeFloatIsTheLot(n, parsed);
  }

  lemma WholeFloatIsTheLot(n: nat, parsed: Option<Float>)
    requires parsed.Some?
    requires n <= EXACT_INTEGERS ==> parsed.value == Finite(n as real)
    requires n > EXACT_INTEGERS && parsed.value.Finite? ==> parsed.value.value >= EXACT_INTEGERS as real
    requires n > EXACT_INTEGERS ==> !parsed.value.NotANumber?
    ensures LooksLikeALot(parsed) <==> 1 <= n <= U32_MAX
    ensures LooksLikeALot(parsed) ==> parsed.value.value.Floor == n
  {
    if n <= EXACT_INTEGERS {
      assert (n as real).Floor == n;
    }
  }

  /** A dropped digit makes the exponent smaller, but in a cell of the fuzz
      target's size the number is still zero or beyond every lot size. */
  lemma DroppedExponentHasNoLot(text: string)
    requires |text| <= MAX_CELL && ReadUnsigned(DropPlus(text)).Some?
    requires DROPS_DIGITS <= ReadUnsigned(DropPlus(text)).value.exponent
    ensures LotOf(ReadUnsigned(DropPlus(text))) == 0
  {
    DigitsFit(DropPlus(text));
    FarExponentHasNoLot(ReadUnsigned(DropPlus(text)).value);
  }

  lemma FarExponentHasNoLot(r: Reading)
    requires AllDigits(r.integer + r.fraction) && r.exponent > |r.integer + r.fraction| + 11
    ensures Clip(ReadingWhole(r)) == 0
  {
    FarPointHasNoLot(r.integer + r.fraction, |r.integer| + r.exponent);
  }

  lemma FarPointHasNoLot(digits: string, point: int)
    requires AllDigits(digits) && point > |digits| + 11
    ensures Clip(Whole(digits, point)) == 0
  {
    if AllZeros(digits) {
      WholeOfZeros(digits, point);
    } else {
      WholeTooFar(digits, point);
    }
  }

  lemma DroppedExponent(text: string, parsed: Option<Float>)
    requires |text| <= MAX_CELL && FloatReads(text, parsed)
    requires DropSign(text) == DropPlus(text) && ReadUnsigned(DropPlus(text)).Some?
    requires DROPS_DIGITS <= ReadUnsigned(DropPlus(text)).value.exponent
    ensures FloatLot(text, parsed) == if MisreadsExponent(text, parsed) then parsed.value.value.Floor else 0
  {
    WholeTextIsWhole(text);
    DigitsFit(DropPlus(text));
  }

  lemma NegativeExponent(text: string, parsed: Option<Float>)
    requires |text| <= MAX_CELL && FloatReads(text, parsed)
    requires DropSign(text) == DropPlus(text) && ReadUnsigned(DropPlus(text)).Some?
    requires ReadUnsigned(DropPlus(text)).value.exponent <= -DROPS_DIGITS
    ensures FloatLot(text, parsed) == 0 && LotOf(ReadUnsigned(DropPlus(text))) == 0
  {
    var r := ReadUnsigned(DropPlus(text)).value;
    var digits := r.integer + r.fraction;
    DigitsFit(DropPlus(text));
    WholeTextIsWhole(text);
    if AllZeros(digits) {
      WholeOfZeros(digits, |r.integer| + r.exponent);
      WholeOfZeros(digits, |r.integer| + StdReading(DropPlus(text)).exponent);
    }
  }

  lemma ConfirmedFloat(text: string, parsed: Option<Float>)
    requires |text| <= MAX_TEXT && FloatReads(text, parsed)
    ensures KeepsDigits(text) ==> FloatLot(text, parsed) == LotOf(ReadUnsigned(DropPlus(text)))
    ensures |text| <= MAX_CELL ==>
              if MisreadsExponent(text, parsed) then FloatLot(text, parsed) > 0 && LotOf(ReadUnsigned(DropPlus(text))) == 0
              else FloatLot(text, parsed) == LotOf(ReadUnsigned(DropPlus(text)))
  {
    if text != "" && text[0] == '-' {
      MinusHasNoLot(text, parsed);
    } else {
      assert DropSign(text) == DropPlus(text);
      if ReadUnsigned(DropPlus(text)).None? {
        NoNumberNoLot(text, parsed);
      } else if KeepsDigits(text) {
        KeptExponent(text, parsed);
      } else if |text| <= MAX_CELL {
        if ReadUnsigned(DropPlus(text)).value.exponent > 0 {
          DroppedExponentHasNoLot(text);
          DroppedExponent(text, parsed);
        } else {
          NegativeExponent(text, parsed);
        }
      }
    }
  }

  /** The production parser: the integer form first, then a floating-point
      number that the text itself must confirm. It is exact whenever the
      exponent keeps its digits; and for a cell of the fuzz target's size,
      exactly when it does not misread one that does not. */
  method ParseLotSize(value: string, parsed: Option<Float>) returns (lot: nat)
    requires |value| <= MAX_TEXT
    requires FloatReads(Trim(value), parsed)
    ensures KeepsDigits(Trim(value)) ==> ExactLot(value, lot)
    ensures |value| <= MAX_CELL ==> (ExactLot(value, lot) <==> !MisreadsExponent(Trim(value), parsed))
  {
    LotOfIsExact(value);
    var trimmed := Trim(value);
    var whole := ParseUnsigned(trimmed, U32_MAX);
    if whole.Some? {
      PlainDigits(trimmed, whole.value);
      return whole.value;
    }
    ConfirmedFloat(trimmed, parsed);
    lot := FromFloat(trimmed, parsed);
    if ExactLot(value, lot) {
      ExactLotUnique(value, lot, LotOf(ReadText(value)));
    }
  }

  method FromFloat(trimmed: string, parsed: Option<Float>) returns (lot: nat)
    ensures lot == FloatLot(trimmed, parsed)
  {
    if parsed.None? || !parsed.value.Finite? || parsed.value.value <= 0.0 {
      return 0;
    }
    var units := parsed.value.value;
    if units.Floor as real != units || !DecimalTextIsWhole(trimmed) {
      return 0;
    }
    if units > U32_MAX as real {
      return 0;
    }
    lot := units.Floor;
  }

  /** The law the fuzz target asserts on every cell of its size: the production
      parser and the exact reference read the same lot. It holds exactly when
      no exponent is misread. */
  method CheckCell(cell: string, parsed: Option<Float>) returns (production: nat, reference: nat)
    requires |cell| <= 262_144
    requires FloatReads(Trim(cell), parsed)
    ensures ExactLot(cell, reference)
    ensures production == reference <==> !MisreadsExponent(Trim(cell), parsed)
  {
    production := ParseLotSize(cell, parsed);
    reference := RefExactLot(cell);
    if ExactLot(cell, production) {
      ExactLotUnique(cell, production, reference);
    }
  }

  /** A cell of up to 65,000 characters has no room for such an exponent. */
  lemma ShortCellsAreReadRight(text: string, parsed: Option<Float>)
    requires |text| <= 65_000 && FloatReads(text, parsed)
    ensures !MisreadsExponent(text, parsed)
  {
    if text != "" && text[0] == '-' {
      MinusIsNotANumber(text);
    } else if MisreadsExponent(text, parsed) {
      ShortMantissa(DropPlus(text));
      NoLotInRange(ReadingWhole(StdReading(DropPlus(text))), parsed);
    }
  }

  /** Zero and numbers beyond `u32` do not look like a lot after rounding. */
  lemma NoLotInRange(whole: Option<nat>, parsed: Option<Float>)
    requires parsed.Some? && Rounds(1.0, whole, parsed.value)
    requires whole.Some? && (whole.value == 0 || whole.value > U32_MAX)
    ensures !LooksLikeALot(parsed)
  {
  }

  lemma ShortMantissa(unsigned: string)
    requires |unsigned| <= 65_000 && ReadUnsigned(unsigned).Some? && ReadUnsigned(unsigned).value.exponent >= DROPS_DIGITS
    ensures ReadingWhole(StdReading(unsigned)).Some?
    ensures var n := ReadingWhole(StdReading(unsigned)).value; n == 0 || n > U32_MAX
  {
    var r := StdReading(unsigned);
    var digits, point := r.integer + r.fraction, |r.integer| + r.exponent;
    StdIntegerIsExact(ExponentPart(unsigned));
    DigitsFit(unsigned);
    if AllZeros(digits) {
      WholeOfZeros(digits, point);
    } else {
      WholeTooFar(digits, point);
    }
  }

  // ------------------------------------------------- a cell that is misread

  /** `0.`, so many zeros, `5e7000000`: a number of almost seven million digits,
      which the stopped exponent 70000 turns into 5. */
  ghost function LongCell(zeros: nat): Spelling {
    Spelling(false, "0", true, Zeros(zeros) + "5", "e", Seven(6))
  }

  lemma OneDigitMore(front: string, digit: char)
    requires AllDigits(front) && IsDigit(digit)
    ensures var s := front + [digit]; var e := StdExponent(front);
            && AllDigits(s) && Value(s) == 10 * Value(front) + DigitValue(digit)
            && StdExponent(s) == if e < STD_EXPONENT_STOP then 10 * e + DigitValue(digit) else e
  {
    assert (front + [digit])[..|front|] == front;
  }

  /** A seven and so many zeros. */
  ghost function Seven(zeros: nat): string {
    if zeros == 0 then "7" else Seven(zeros - 1) + "0"
  }

  lemma SevenSteps(zeros: nat, value: nat, std: nat)
    requires AllDigits(Seven(zeros)) && Value(Seven(zeros)) == value && StdExponent(Seven(zeros)) == std
    ensures AllDigits(Seven(zeros + 1)) && Value(Seven(zeros + 1)) == 10 * value
    ensures StdExponent(Seven(zeros + 1)) == if std < STD_EXPONENT_STOP then 10 * std else std
  {
    OneDigitMore(Seven(zeros), '0');
  }

  lemma SevenMillion()
    ensures ReadInteger(Seven(6)) == Some(7_000_000) && StdInteger(Seven(6)) == 70_000 && |Seven(6)| == 7
    ensures Seven(6)[|Seven(6)| - 1] == '0'
  {
    assert "7"[..0] == "" && Value("7") == 7 && StdExponent("7") == 7;
    SevenSteps(0, 7, 7);
    SevenSteps(1, 70, 70);
    SevenSteps(2, 700, 700);
    SevenSteps(3, 7_000, 7_000);
    SevenSteps(4, 70_000, 70_000);
    SevenSteps(5, 700_000, 70_000);
    SevenLength(6);
    assert Seven(6) == Seven(5) + "0";
    assert IsDigit(Seven(6)[0]);
  }

  lemma {:induction false} SevenLength(zeros: nat)
    ensures |Seven(zeros)| == zeros + 1
  {
    if zeros > 0 {
      SevenLength(zeros - 1);
    }
  }

  lemma LongCellIsSpelled(zeros: nat)
    ensures WellFormed(LongCell(zeros)) && |Write(LongCell(zeros))| == zeros + 11
    ensures Write(LongCell(zeros)) == Mantissa(LongCell(zeros)) + "e" + Seven(6)
    ensures Write(LongCell(zeros))[0] == '0' && Write(LongCell(zeros))[zeros + 10] == '0'
  {
    var w := LongCell(zeros);
    SevenMillion();
    assert AllDigits("5");
    SpelledEnds(Zeros(zeros) + "5", Seven(6));
    assert Write(w) == "" + ("0" + "." + (Zeros(zeros) + "5")) + "e" + Seven(6);
  }

  lemma SpelledEnds(fraction: string, power: string)
    requires |power| == 7 && power[6] == '0'
    ensures var m := "0" + "." + fraction; var t := "" + m + "e" + power;
            t == m + "e" + power && |t| == |fraction| + 10 && t[0] == '0' && t[|fraction| + 9] == '0'
  {
  }

  lemma LongCellReads(zeros: nat)
    ensures var text := Write(LongCell(zeros));
            && |text| == zeros + 11 && Trim(text) == text && DropPlus(text) == text && DropSign(text) == text
            && ReadUnsigned(text) == Some(Reading("0", Zeros(zeros) + "5", 7_000_000))
            && ExponentPart(text) == Seven(6)
  {
    var w := LongCell(zeros);
    SevenMillion();
    LongCellIsSpelled(zeros);
    ReadAfterWrite(w);
    MantissaHasNoMark(w);
    SplitsAtMark(Mantissa(w), "e", Seven(6));
  }

  lemma FiveBehindZeros(zeros: nat)
    ensures AllDigits("0" + (Zeros(zeros) + "5")) && Value("0" + (Zeros(zeros) + "5")) == 5
    ensures !AllZeros("0" + (Zeros(zeros) + "5"))
  {
    var front := "0" + Zeros(zeros);
    assert "0" + (Zeros(zeros) + "5") == front + "5";
    ValueZero(front);
    assert (front + "5")[..|front|] == front;
    assert (front + "5")[|front|] == '5';
  }

  /** What the floating-point parser makes of it. */
  lemma LongCellIsFive(zeros: nat)
    requires zeros == 69_999
    ensures ReadUnsigned(Write(LongCell(zeros))).Some? && ReadingWhole(StdReading(Write(LongCell(zeros)))) == Some(5)
  {
    LongCellReads(zeros);
    SevenMillion();
    FiveBehindZeros(zeros);
    var digits := "0" + (Zeros(zeros) + "5");
    assert digits + Zeros(0) == digits;
  }

  lemma FiveIsRead(zeros: nat)
    requires zeros == 69_999
    ensures FloatReads(Write(LongCell(zeros)), Some(Finite(5.0)))
  {
    LongCellReads(zeros);
    LongCellIsSpelled(zeros);
    LongCellIsFive(zeros);
  }

  /** The law fails on a cell well within the target's size: with 69,999 zeros
      the floating-point parser may read 5, so production answers 5, and the
      exact reading is no lot at all. */
  lemma LongExponentIsMisread(zeros: nat)
    requires zeros == 69_999
    ensures var cell, five := Write(LongCell(zeros)), Some(Finite(5.0));
            |cell| <= MAX_CELL && FloatReads(Trim(cell), five) && MisreadsExponent(Trim(cell), five)
            && FloatLot(cell, five) == 5 && ExactLot(cell, 0)
  {
    var cell, five := Write(LongCell(zeros)), Some(Finite(5.0));
    LongCellReads(zeros);
    FiveIsRead(zeros);
    ConfirmedFloat(cell, five);
    DroppedExponent(cell, five);
    LotOfIsExact(cell);
  }
}
