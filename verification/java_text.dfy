/**
 * The parts of java.lang.String and java.lang.Integer that the record
 * manager relies on: trim, ASCII lower-casing, suffix and substring tests,
 * decimal rendering of an int and Integer.parseInt.
 */
module JavaText {
  import opened Wrappers

  /** String.trim strips every character at or below U+0020 from both ends. */
  predicate Trimmable(c: char) {
    c <= ' '
  }

  function TrimStart(s: string): (r: string)
    ensures |r| <= |s| && r == s[|s| - |r|..]
    ensures r != [] ==> !Trimmable(r[0])
    ensures forall i :: 0 <= i < |s| - |r| ==> Trimmable(s[i])
  {
    if s != [] && Trimmable(s[0]) then TrimStart(s[1..]) else s
  }

  function TrimEnd(s: string): (r: string)
    ensures |r| <= |s| && r == s[..|r|]
    ensures r != [] ==> !Trimmable(r[|r| - 1])
    ensures forall i :: |r| <= i < |s| ==> Trimmable(s[i])
  {
    if s != [] && Trimmable(s[|s| - 1]) then TrimEnd(s[..|s| - 1]) else s
  }

  /** String.trim(). */
  function Trim(s: string): (r: string)
    ensures |r| <= |s|
    ensures r != [] ==> !Trimmable(r[0]) && !Trimmable(r[|r| - 1])
    ensures r == [] <==> forall i :: 0 <= i < |s| ==> Trimmable(s[i])
  {
    var t := TrimStart(s);
    var r := TrimEnd(t);
    r
  }

  /** `s == null || s.trim().isEmpty()` for a non-null s. */
  predicate IsBlank(s: string) {
    Trim(s) == []
  }

  lemma {:induction false} TrimIdempotent(s: string)
    ensures Trim(Trim(s)) == Trim(s)
  {
    var r := Trim(s);
    if r != [] {
      assert TrimStart(r) == r;
      assert TrimEnd(r) == r;
    }
  }

  /** Character.toLowerCase restricted to ASCII. */
  function LowerChar(c: char): (r: char)
    ensures 'A' <= c <= 'Z' ==> r == (c as int - 'A' as int + 'a' as int) as char
    ensures !('A' <= c <= 'Z') ==> r == c
  {
    if 'A' <= c <= 'Z' then (c as int - 'A' as int + 'a' as int) as char else c
  }

  /** String.toLowerCase, for ASCII letters. */
  function ToLower(s: string): (r: string)
    ensures |r| == |s|
    ensures forall i :: 0 <= i < |s| ==> r[i] == LowerChar(s[i])
  {
    seq(|s|, i requires 0 <= i < |s| => LowerChar(s[i]))
  }

  /** Lower-casing commutes with dropping a prefix. */
  lemma LowerSuffix(s: string, i: int)
    requires 0 <= i <= |s|
    ensures ToLower(s[i..]) == ToLower(s)[i..]
  {
  }

  predicate HasNoUpper(s: string) {
    forall i :: 0 <= i < |s| ==> !('A' <= s[i] <= 'Z')
  }

  lemma LowerHasNoUpper(s: string)
    ensures HasNoUpper(ToLower(s))
    ensures ToLower(ToLower(s)) == ToLower(s)
  {
  }

  /** String.endsWith. */
  predicate EndsWith(s: string, suffix: string) {
    |suffix| <= |s| && s[|s| - |suffix|..] == suffix
  }

  /** Some suffix of the list ends the string. */
  predicate EndsWithAny(s: string, suffixes: seq<string>) {
    exists j :: 0 <= j < |suffixes| && EndsWith(s, suffixes[j])
  }

  /** Ending with one of a list of five suffixes is ending with the first, or the second, and so on. */
  lemma EndsWithOneOfFive(s: string, a: string, b: string, c: string, d: string, e: string)
    ensures EndsWithAny(s, [a, b, c, d, e]) <==>
      EndsWith(s, a) || EndsWith(s, b) || EndsWith(s, c) || EndsWith(s, d) || EndsWith(s, e)
  {
    var list := [a, b, c, d, e];
    assert list[0] == a && list[1] == b && list[2] == c && list[3] == d && list[4] == e;
  }

  /** String.contains: `needle` occurs at some offset of `hay`. */
  predicate Contains(hay: string, needle: string) {
    exists i :: 0 <= i <= |hay| - |needle| && OccursAt(hay, needle, i)
  }

  predicate OccursAt(hay: string, needle: string, i: int)
    requires 0 <= i <= |hay| - |needle|
  {
    hay[i..i + |needle|] == needle
  }

  /**
   * A case-insensitive match of a literal pattern (Pattern.CASE_INSENSITIVE
   * without UNICODE_CASE folds ASCII letters only).
   */
  predicate ContainsIgnoreCase(hay: string, needle: string) {
    Contains(ToLower(hay), ToLower(needle))
  }

  lemma LowerEndsWith(s: string, suffix: string)
    requires EndsWith(s, suffix)
    ensures EndsWith(ToLower(s), ToLower(suffix))
  {
    assert ToLower(s)[|s| - |suffix|..] == ToLower(suffix);
  }

  // ---- integers ---------------------------------------------------------

  const IntMin: int := -0x8000_0000
  const IntMax: int := 0x7fff_ffff

  /** A value of Java type int. */
  predicate IsInt32(n: int) {
    IntMin <= n <= IntMax
  }

  /** Two's-complement wrap-around of a Java int expression. */
  function Wrap32(x: int): (r: int)
    ensures IsInt32(r)
    ensures (r - x) % 0x1_0000_0000 == 0
    ensures IsInt32(x) ==> r == x
  {
    (x - IntMin) % 0x1_0000_0000 + IntMin
  }

  /** Java's `/` on int: the quotient is truncated toward zero. */
  function JavaDiv(a: int, b: int): (q: int)
    requires b != 0
    ensures 0 <= a && 0 < b ==> q == a / b
    ensures a < 0 && 0 < b ==> q == -((-a) / b)
  {
    var m := (if a < 0 then -a else a) / (if b < 0 then -b else b);
    if (a < 0) != (b < 0) then -m else m
  }

  predicate IsDigit(c: char) {
    '0' <= c <= '9'
  }

  function DigitChar(d: nat): (c: char)
    requires d < 10
    ensures IsDigit(c)
  {
    ('0' as int + d) as char
  }

  /** The decimal digits of n, most significant first, without leading zeros. */
  function NatToString(n: nat): (r: string)
    ensures |r| >= 1
    ensures forall i :: 0 <= i < |r| ==> IsDigit(r[i])
    ensures |r| > 1 ==> r[0] != '0'
  {
    if n < 10 then [DigitChar(n)] else NatToString(n / 10) + [DigitChar(n % 10)]
  }

  /** String.valueOf(int) and String.format("%d"). */
  function IntToString(n: int): (r: string)
    ensures |r| >= 1
    ensures n < 0 <==> r[0] == '-'
  {
    if n < 0 then "-" + NatToString(-n) else NatToString(n)
  }

  /** The value of a run of ASCII digits. */
  function DigitsValue(s: string): (v: nat)
    requires forall i :: 0 <= i < |s| ==> IsDigit(s[i])
  {
    if s == [] then 0 else DigitsValue(s[..|s| - 1]) * 10 + DigitValue(s[|s| - 1])
  }

  function DigitValue(c: char): (d: nat)
    requires IsDigit(c)
    ensures d < 10
  {
    c as int - '0' as int
  }

  predicate AllDigits(s: string) {
    forall i :: 0 <= i < |s| ==> IsDigit(s[i])
  }

  /**
   * Integer.parseInt(s): an optional '+' or '-', then one or more digits,
   * and a value that fits an int; anything else is a NumberFormatException
   * (None).
   */
  function ParseInt(s: string): (r: Option<int>)
    ensures r.Some? ==> IsInt32(r.value)
    ensures s == [] ==> r == None
  {
    if s == [] then None
    else
      var neg := s[0] == '-';
      var digits := if s[0] == '-' || s[0] == '+' then s[1..] else s;
      if digits == [] || !AllDigits(digits) then None
      else
        var v := if neg then -(DigitsValue(digits) as int) else DigitsValue(digits);
        if IsInt32(v) then Some(v) else None
  }

  lemma {:induction false} DigitsRoundTrip(n: nat)
    ensures AllDigits(NatToString(n)) && DigitsValue(NatToString(n)) == n
  {
    if n >= 10 {
      DigitsRoundTrip(n / 10);
      var s := NatToString(n);
      assert s[..|s| - 1] == NatToString(n / 10);
    }
  }

  /** Integer.parseInt reads back what String.valueOf wrote. */
  lemma {:induction false} ParseIntRoundTrip(n: int)
    requires IsInt32(n)
    ensures ParseInt(IntToString(n)) == Some(n)
  {
    if n < 0 {
      DigitsRoundTrip(-n);
      assert IntToString(n)[1..] == NatToString(-n);
    } else {
      DigitsRoundTrip(n);
    }
  }
}
