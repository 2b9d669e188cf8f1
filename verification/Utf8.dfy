/** UTF-8 as Rust strings hold it: the encoding of section 3 of RFC 3629, where
    one character's bytes end and the next one's start, and why a text can be
    cut there and nowhere else. */
module Utf8 {
  import opened Bytes

  function EncodeChar(c: char): (bytes: seq<byte>)
    ensures 1 <= |bytes| <= 4
    ensures !IsContinuation(bytes[0])
    ensures forall i | 1 <= i < |bytes| :: IsContinuation(bytes[i])
  {
    var u := c as int;
    if u < 0x80 then [u as byte]
    else if u < 0x800 then [(0xC0 + u / 64) as byte, (0x80 + u % 64) as byte]
    else if u < 0x1_0000 then
      [(0xE0 + u / 4096) as byte, (0x80 + u / 64 % 64) as byte, (0x80 + u % 64) as byte]
    else
      [(0xF0 + u / 262144) as byte, (0x80 + u / 4096 % 64) as byte,
       (0x80 + u / 64 % 64) as byte, (0x80 + u % 64) as byte]
  }

  /** The bytes of a Rust string. */
  function Encode(s: string): (bytes: seq<byte>)
    ensures |s| <= |bytes| <= 4 * |s|
  {
    if s == "" then [] else EncodeChar(s[0]) + Encode(s[1..])
  }

  /** The examples of section 7 of RFC 3629, and an ASCII letter. */
  lemma EncodeExamples()
    ensures EncodeChar('A') == [0x41] && EncodeChar('\U{0391}') == [0xCE, 0x91]
    ensures EncodeChar('\U{2262}') == [0xE2, 0x89, 0xA2] && EncodeChar('\U{233B4}') == [0xF0, 0xA3, 0x8E, 0xB4]
  {
  }

  predicate IsContinuation(b: byte) {
    0x80 <= b < 0xC0
  }

  /** `str::is_char_boundary`. */
  predicate IsCharBoundary(bytes: seq<byte>, at: nat) {
    at == 0 || at == |bytes| || (at < |bytes| && !IsContinuation(bytes[at]))
  }

  lemma {:induction false} EncodeConcat(a: string, b: string)
    ensures Encode(a + b) == Encode(a) + Encode(b)
  {
    if a == "" {
      assert a + b == b;
    } else {
      EncodeConcat(a[1..], b);
      assert (a + b)[1..] == a[1..] + b;
      Assoc(EncodeChar(a[0]), Encode(a[1..]), Encode(b));
      assert Encode(a + b) == EncodeChar(a[0]) + Encode(a[1..] + b);
    }
  }

  lemma Assoc<T>(x: seq<T>, y: seq<T>, z: seq<T>)
    ensures (x + y) + z == x + (y + z)
  {
  }

  /** Plain ASCII text has one byte a character. */
  lemma {:induction false} EncodeAscii(s: string)
    requires forall i | 0 <= i < |s| :: s[i] as int < 0x80
    ensures |Encode(s)| == |s|
    ensures forall i | 0 <= i < |s| :: Encode(s)[i] as int == s[i] as int
  {
    if s != "" {
      EncodeAscii(s[1..]);
    }
  }

  /** The code point that up to four bytes spell. */
  function CodePoint(bytes: seq<byte>): int
    requires 1 <= |bytes| <= 4
  {
    if |bytes| == 1 then bytes[0] as int
    else if |bytes| == 2 then 64 * (bytes[0] as int - 0xC0) + (bytes[1] as int - 0x80)
    else if |bytes| == 3 then
      64 * (64 * (bytes[0] as int - 0xE0) + (bytes[1] as int - 0x80)) + (bytes[2] as int - 0x80)
    else
      64 * (64 * (64 * (bytes[0] as int - 0xF0) + (bytes[1] as int - 0x80)) + (bytes[2] as int - 0x80))
      + (bytes[3] as int - 0x80)
  }

  lemma CodePointOfChar(c: char)
    ensures CodePoint(EncodeChar(c)) == c as int
  {
    var u := c as int;
    assert u / 4096 == u / 64 / 64 && u / 262144 == u / 64 / 64 / 64;
  }

  lemma LeadByteTellsLength(a: char, b: char)
    requires EncodeChar(a)[0] == EncodeChar(b)[0]
    ensures |EncodeChar(a)| == |EncodeChar(b)|
  {
  }

  /** Two texts with the same bytes are the same text. */
  lemma {:induction false} EncodeInjective(a: string, b: string)
    requires Encode(a) == Encode(b)
    ensures a == b
  {
    if a != "" && b != "" {
      var x, y := EncodeChar(a[0]), EncodeChar(b[0]);
      assert Encode(a)[0] == x[0] && Encode(b)[0] == y[0];
      LeadByteTellsLength(a[0], b[0]);
      assert x == Encode(a)[..|x|] && y == Encode(b)[..|y|];
      CodePointOfChar(a[0]);
      CodePointOfChar(b[0]);
      assert Encode(a[1..]) == Encode(a)[|x|..] && Encode(b[1..]) == Encode(b)[|y|..];
      EncodeInjective(a[1..], b[1..]);
    }
  }

  /** How many characters start before byte `at`. */
  function CharsBefore(s: string, at: nat): (k: nat)
    ensures k <= |s|
  {
    if s == "" || at == 0 then 0
    else if at < |EncodeChar(s[0])| then 1
    else 1 + CharsBefore(s[1..], at - |EncodeChar(s[0])|)
  }

  lemma BoundaryBehind(first: seq<byte>, tail: seq<byte>, at: nat)
    requires first != [] && at <= |tail|
    requires tail != [] ==> !IsContinuation(tail[0])
    ensures IsCharBoundary(first + tail, |first| + at) <==> IsCharBoundary(tail, at)
  {
  }

  lemma PrefixBehind(first: seq<byte>, tail: seq<byte>, at: nat, x: seq<byte>)
    requires at <= |tail|
    ensures first + x == (first + tail)[..|first| + at] <==> x == tail[..at]
  {
    assert (first + tail)[..|first| + at] == first + tail[..at];
    assert (first + x)[|first|..] == x;
    assert (first + tail[..at])[|first|..] == tail[..at];
  }

  lemma CutBehind(first: seq<byte>, tail: seq<byte>, x: seq<byte>, at: nat)
    requires first != [] && at <= |tail| && (tail != [] ==> !IsContinuation(tail[0]))
    requires IsCharBoundary(tail, at) <==> x == tail[..at]
    ensures IsCharBoundary(first + tail, |first| + at) <==> first + x == (first + tail)[..|first| + at]
  {
    BoundaryBehind(first, tail, at);
    PrefixBehind(first, tail, at, x);
  }

  lemma CutInside(c: char, tail: seq<byte>, x: seq<byte>, at: nat)
    requires 0 < at < |EncodeChar(c)|
    ensures !IsCharBoundary(EncodeChar(c) + tail, at)
    ensures EncodeChar(c) + x != (EncodeChar(c) + tail)[..at]
  {
  }

  lemma EncodeFirst(s: string, k: nat)
    requires 1 <= k <= |s|
    ensures Encode(s[..k]) == EncodeChar(s[0]) + Encode(s[1..][..k - 1])
  {
    assert s[..k][1..] == s[1..][..k - 1];
  }

  ghost predicate EndsCharacter(s: string, at: nat)
    requires at <= |Encode(s)|
  {
    Encode(s[..CharsBefore(s, at)]) == Encode(s)[..at]
  }

  lemma EndInFirst(s: string, at: nat)
    requires s != "" && 0 < at < |EncodeChar(s[0])|
    ensures at <= |Encode(s)| && !IsCharBoundary(Encode(s), at) && !EndsCharacter(s, at)
  {
    EncodeFirst(s, 1);
    CutInside(s[0], Encode(s[1..]), Encode(s[1..][..0]), at);
  }

  lemma CharsBehindFirst(s: string, at: nat)
    requires s != "" && |EncodeChar(s[0])| <= at
    ensures var k := CharsBefore(s[1..], at - |EncodeChar(s[0])|);
            CharsBefore(s, at) == 1 + k && Encode(s[..CharsBefore(s, at)]) == EncodeChar(s[0]) + Encode(s[1..][..k])
  {
    EncodeFirst(s, CharsBefore(s, at));
  }

  lemma EndBehindFirst(s: string, first: seq<byte>, at: nat)
    requires s != "" && first == EncodeChar(s[0]) && |first| <= at <= |first| + |Encode(s[1..])|
    requires IsCharBoundary(Encode(s[1..]), at - |first|) <==> EndsCharacter(s[1..], at - |first|)
    ensures IsCharBoundary(first + Encode(s[1..]), at) <==>
            first + Encode(s[1..][..CharsBefore(s[1..], at - |first|)]) == (first + Encode(s[1..]))[..at]
  {
    FirstByteLeads(s[1..]);
    CutBehind(first, Encode(s[1..]), Encode(s[1..][..CharsBefore(s[1..], at - |first|)]), at - |first|);
  }

  /** A byte position is a boundary if and only if a whole number of
      characters ends there. */
  lemma {:induction false} BoundaryIsPrefix(s: string, at: nat)
    requires at <= |Encode(s)|
    ensures IsCharBoundary(Encode(s), at) <==> Encode(s[..CharsBefore(s, at)]) == Encode(s)[..at]
  {
    if s != "" && at > 0 {
      if at < |EncodeChar(s[0])| {
        EndInFirst(s, at);
      } else {
        BoundaryIsPrefix(s[1..], at - |EncodeChar(s[0])|);
        EndBehindFirst(s, EncodeChar(s[0]), at);
        CharsBehindFirst(s, at);
      }
    }
  }

  lemma FirstByteLeads(s: string)
    ensures Encode(s) != [] ==> !IsContinuation(Encode(s)[0])
  {
  }

  /** At most three bytes of any four in a row continue a character. */
  lemma {:induction false} BoundaryNearby(s: string, at: nat) returns (back: nat)
    requires at <= |Encode(s)|
    ensures back <= at && at <= back + 3 && IsCharBoundary(Encode(s), back)
  {
    if s == "" || at == 0 {
      back := at;
    } else {
      var first := EncodeChar(s[0]);
      if at < |first| {
        back := 0;
      } else {
        var b := BoundaryNearby(s[1..], at - |first|);
        back := b + |first|;
        if back < |Encode(s)| {
          assert Encode(s)[back] == Encode(s[1..])[b];
          if b == 0 { FirstByteLeads(s[1..]); }
        }
      }
    }
  }
}
