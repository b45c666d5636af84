/** The few `java.lang.String` / `Integer` operations the workflows rely on:
    blank tests, ASCII case folding, trimming, decimal text and
    lexicographic comparison. */
module Text {
  import opened Wrappers

  /** `Character.isWhitespace`: the Unicode space, line and paragraph
      separators other than the no-break spaces, plus the ASCII controls
      TAB, LF, VT, FF, CR and FS..US. */
  predicate IsJavaWhitespace(c: char) {
    || c == ' ' || c == '\t' || c == '\n' || c == '\U{000B}' || c == '\U{000C}' || c == '\r'
    || ('\U{001C}' <= c <= '\U{001F}')
    || c == '\U{1680}'
    || ('\U{2000}' <= c <= '\U{2006}') || ('\U{2008}' <= c <= '\U{200A}')
    || c == '\U{2028}' || c == '\U{2029}' || c == '\U{205F}' || c == '\U{3000}'
  }

  /** `String.isBlank`: empty or whitespace only. */
  predicate IsBlank(s: string) {
    forall i :: 0 <= i < |s| ==> IsJavaWhitespace(s[i])
  }

  /** `s == null || s.isBlank()`, with Java's null as `None`. */
  predicate NullOrBlank(s: Option<string>) {
    s.None? || IsBlank(s.value)
  }

  function LowerChar(c: char): char {
    if 'A' <= c <= 'Z' then (c as int - 'A' as int + 'a' as int) as char else c
  }

  /** `String.toLowerCase`, restricted to ASCII letters. */
  function Lower(s: string): (r: string)
    ensures |r| == |s|
  {
    seq(|s|, i requires 0 <= i < |s| => LowerChar(s[i]))
  }

  /** `String.equalsIgnoreCase`, restricted to ASCII letters. */
  predicate EqualsIgnoreCase(a: string, b: string) {
    Lower(a) == Lower(b)
  }

  predicate StartsWith(s: string, prefix: string) {
    |prefix| <= |s| && s[..|prefix|] == prefix
  }

  /** Lower-casing leaves whitespace alone, so it never changes whether a
      string is blank. */
  lemma LowerKeepsBlank(s: string)
    ensures IsBlank(Lower(s)) <==> IsBlank(s)
  {
    forall i | 0 <= i < |s| ensures IsJavaWhitespace(Lower(s)[i]) <==> IsJavaWhitespace(s[i]) {
      assert Lower(s)[i] == LowerChar(s[i]);
    }
  }

  lemma {:induction false} LowerIdempotent(s: string)
    ensures Lower(Lower(s)) == Lower(s)
  {
    forall i | 0 <= i < |s| ensures Lower(Lower(s))[i] == Lower(s)[i] {
      assert Lower(Lower(s))[i] == LowerChar(LowerChar(s[i]));
    }
  }

  // ---------------------------------------------------------------------
  // String.trim

  /** Characters `String.trim` removes: every char up to U+0020. */
  predicate IsTrimmed(c: char) {
    c <= ' '
  }

  function TrimStart(s: string): (r: string)
    ensures |r| <= |s| && r == s[|s| - |r|..]
    ensures r != [] ==> !IsTrimmed(r[0])
    ensures forall i :: 0 <= i < |s| - |r| ==> IsTrimmed(s[i])
  {
    if s != [] && IsTrimmed(s[0]) then TrimStart(s[1..]) else s
  }

  function TrimEnd(s: string): (r: string)
    ensures |r| <= |s| && r == s[..|r|]
    ensures r != [] ==> !IsTrimmed(r[|r| - 1])
    ensures forall i :: |r| <= i < |s| ==> IsTrimmed(s[i])
  {
    if s != [] && IsTrimmed(s[|s| - 1]) then TrimEnd(s[..|s| - 1]) else s
  }

  /** `r` is the slice `s[lo..hi]`, and everything cut off on either side
      is a character `trim` removes. */
  predicate TrimmedSlice(s: string, r: string, lo: int, hi: int) {
    && 0 <= lo <= hi <= |s| && r == s[lo..hi]
    && (forall i :: 0 <= i < lo ==> IsTrimmed(s[i]))
    && (forall i :: hi <= i < |s| ==> IsTrimmed(s[i]))
  }

  /** `String.trim`: the slice of `s` left after dropping leading and
      trailing characters up to U+0020. */
  function Trim(s: string): (r: string)
    ensures exists lo, hi :: TrimmedSlice(s, r, lo, hi)
    ensures r != [] ==> !IsTrimmed(r[0]) && !IsTrimmed(r[|r| - 1])
  {
    var t := TrimStart(s);
    var r := TrimEnd(t);
    var lo, hi := |s| - |t|, |s| - |t| + |r|;
    assert r == s[lo..hi];
    assert forall i :: hi <= i < |s| ==> IsTrimmed(s[i]) by {
      forall i | hi <= i < |s| ensures IsTrimmed(s[i]) {
        assert s[i] == t[i - lo] && |r| <= i - lo < |t|;
      }
    }
    assert TrimmedSlice(s, r, lo, hi);
    r
  }

  /** A slice with nothing trimmable at its ends, cut from a text by
      dropping only trimmable characters, is unique. */
  lemma TrimmedSliceUnique(s: string, r1: string, lo1: int, hi1: int, r2: string, lo2: int, hi2: int)
    requires TrimmedSlice(s, r1, lo1, hi1) && TrimmedSlice(s, r2, lo2, hi2)
    requires r1 != [] ==> !IsTrimmed(r1[0]) && !IsTrimmed(r1[|r1| - 1])
    requires r2 != [] ==> !IsTrimmed(r2[0]) && !IsTrimmed(r2[|r2| - 1])
    ensures r1 == r2
  {
    if r1 != [] && r2 != [] {
      assert s[lo1] == r1[0] && s[lo2] == r2[0];
      assert s[hi1 - 1] == r1[|r1| - 1] && s[hi2 - 1] == r2[|r2| - 1];
      assert lo1 == lo2 && hi1 == hi2;
    }
  }

  /** `Trim` is that slice: any slice with untrimmable ends that drops
      only trimmable characters is the trim of the text. */
  lemma TrimIsTheTrimmedSlice(s: string, r: string, lo: int, hi: int)
    requires TrimmedSlice(s, r, lo, hi)
    requires r != [] ==> !IsTrimmed(r[0]) && !IsTrimmed(r[|r| - 1])
    ensures r == Trim(s)
  {
    var t := Trim(s);
    var tlo, thi :| TrimmedSlice(s, t, tlo, thi);
    TrimmedSliceUnique(s, r, lo, hi, t, tlo, thi);
  }

  // ---------------------------------------------------------------------
  // Decimal text

  predicate IsDigit(c: char) {
    '0' <= c <= '9'
  }

  function DigitChar(d: nat): (c: char)
    requires d < 10
    ensures IsDigit(c)
  {
    ('0' as int + d) as char
  }

  function DigitVal(c: char): (d: nat)
    requires IsDigit(c)
    ensures d < 10 && DigitChar(d) == c
  {
    c as int - '0' as int
  }

  lemma DigitRoundTrip(d: nat)
    requires d < 10
    ensures DigitVal(DigitChar(d)) == d
  {
  }

  predicate AllDigits(s: string) {
    forall i :: 0 <= i < |s| ==> IsDigit(s[i])
  }

  /** The value of a run of decimal digits, most significant first. */
  function DigitsValue(s: string): nat
    requires AllDigits(s)
  {
    if s == [] then 0 else 10 * DigitsValue(s[..|s| - 1]) + DigitVal(s[|s| - 1])
  }

  /** The shortest decimal digits of `n` (no leading zeros, "0" for zero). */
  function DigitsOf(n: nat): (s: string)
    ensures |s| >= 1 && AllDigits(s)
    ensures |s| > 1 ==> s[0] != '0'
  {
    if n < 10 then [DigitChar(n)] else DigitsOf(n / 10) + [DigitChar(n % 10)]
  }

  lemma {:induction false} DigitsRoundTrip(n: nat)
    ensures DigitsValue(DigitsOf(n)) == n
  {
    if n >= 10 {
      var s := DigitsOf(n);
      assert s[..|s| - 1] == DigitsOf(n / 10);
      DigitsRoundTrip(n / 10);
    }
  }

  const INT_MIN: int := -0x8000_0000
  const INT_MAX: int := 0x7FFF_FFFF

  /** `Integer.toString` (decimal, with a leading '-' when negative). */
  function IntToString(n: int): string {
    if n < 0 then "-" + DigitsOf(-n) else DigitsOf(n)
  }

  /** `Integer.parseInt(s)`: an optional '+' or '-', one or more ASCII
      digits, and a value that fits a 32-bit `int`; anything else is a
      `NumberFormatException`, here `None`. */
  function ParseInt(s: string): (r: Option<int>)
    ensures r.Some? ==> INT_MIN <= r.value <= INT_MAX
    ensures s == [] ==> r.None?
  {
    if s == [] then None
    else
      var negative := s[0] == '-';
      var body := if s[0] == '-' || s[0] == '+' then s[1..] else s;
      if body == [] || !AllDigits(body) then None
      else
        var magnitude: int := DigitsValue(body);
        var v := if negative then -magnitude else magnitude;
        if INT_MIN <= v <= INT_MAX then Some(v) else None
  }

  /** Printing a 32-bit int and parsing it back gives the same int. */
  lemma ParseIntToString(n: int)
    requires INT_MIN <= n <= INT_MAX
    ensures ParseInt(IntToString(n)) == Some(n)
  {
    var s := IntToString(n);
    if n < 0 {
      var d := DigitsOf(-n);
      assert s == "-" + d && s[0] == '-' && s[1..] == d;
      DigitsRoundTrip(-n);
    } else {
      var d := DigitsOf(n);
      assert s == d && IsDigit(s[0]);
      DigitsRoundTrip(n);
    }
  }

  // ---------------------------------------------------------------------
  // String.compareTo

  /** `a.compareTo(b) <= 0`: the first differing character decides, and a
      proper prefix comes first. */
  predicate StrLe(a: string, b: string) {
    a == [] || (b != [] && (a[0] < b[0] || (a[0] == b[0] && StrLe(a[1..], b[1..]))))
  }

  lemma {:induction false} StrLeTotal(a: string, b: string)
    ensures StrLe(a, b) || StrLe(b, a)
  {
    if a != [] && b != [] && a[0] == b[0] {
      StrLeTotal(a[1..], b[1..]);
    }
  }

  lemma {:induction false} StrLeTransitive(a: string, b: string, c: string)
    requires StrLe(a, b) && StrLe(b, c)
    ensures StrLe(a, c)
  {
    if a != [] && b != [] && c != [] && a[0] == b[0] && b[0] == c[0] {
      StrLeTransitive(a[1..], b[1..], c[1..]);
    }
  }

  lemma {:induction false} StrLeAntisymmetric(a: string, b: string)
    requires StrLe(a, b) && StrLe(b, a)
    ensures a == b
  {
    if a != [] && b != [] {
      StrLeAntisymmetric(a[1..], b[1..]);
      assert a == [a[0]] + a[1..];
      assert b == [b[0]] + b[1..];
    }
  }
}
