/** The Python string primitives the scripts rely on: slicing with negative
    bounds, substring and affix tests, `str(int)`, `int(str)`, `hex`, and the
    ASCII part of `lower`/`upper`/`islower`. */
module Text {
  import opened Wrappers

  // ---------------------------------------------------------------------------
  // Slicing

  /** Python's normalisation of one slice bound against a length `n`. */
  function SliceBound(i: int, n: nat): (b: nat)
    ensures b <= n
    ensures 0 <= i <= n ==> b == i
    ensures -(n as int) <= i < 0 ==> b == n + i
  {
    if i < 0 then (if i + n < 0 then 0 else i + n)
    else if i > n then n
    else i
  }

  /** `s[lo:hi]` with Python's semantics: negative bounds count from the end,
      out-of-range bounds are clamped, and an empty range gives "". */
  function PySlice<T>(s: seq<T>, lo: int, hi: int): (r: seq<T>)
    ensures |r| <= |s|
  {
    var a := SliceBound(lo, |s|);
    var b := SliceBound(hi, |s|);
    if a < b then s[a..b] else []
  }

  /** `s[1:-1]`: drop the first and the last element. */
  function Inner<T>(s: seq<T>): (r: seq<T>)
    ensures |s| >= 2 ==> r == s[1..|s| - 1]
    ensures |s| < 2 ==> r == []
  {
    PySlice(s, 1, -1)
  }

  // ---------------------------------------------------------------------------
  // Substrings and affixes

  predicate StartsWith<T(==)>(s: seq<T>, p: seq<T>) {
    |p| <= |s| && s[..|p|] == p
  }

  predicate EndsWith<T(==)>(s: seq<T>, p: seq<T>) {
    |p| <= |s| && s[|s| - |p|..] == p
  }

  /** Python's `sub in s`. */
  predicate Contains<T(==)>(s: seq<T>, sub: seq<T>)
    decreases |s|
  {
    StartsWith(s, sub) || (|s| > 0 && Contains(s[1..], sub))
  }

  lemma {:induction false} ContainsAt<T>(s: seq<T>, sub: seq<T>, i: nat)
    requires i + |sub| <= |s| && s[i..i + |sub|] == sub
    ensures Contains(s, sub)
    decreases i
  {
    if i == 0 {
      assert s[..|sub|] == s[0..|sub|];
    } else {
      assert s[1..][i - 1..i - 1 + |sub|] == s[i..i + |sub|];
      ContainsAt(s[1..], sub, i - 1);
    }
  }

  /** A one-letter substring is a letter of the string. */
  lemma {:induction false} ContainsChar<T>(s: seq<T>, c: T)
    ensures Contains(s, [c]) <==> c in s
    decreases |s|
  {
    if |s| > 0 {
      ContainsChar(s[1..], c);
      assert StartsWith(s, [c]) <==> s[0] == c;
      assert c in s <==> s[0] == c || c in s[1..];
    }
  }

  /** Python's `s.rindex(c)`: the last position of `c`, or None where the
      Python method raises ValueError. */
  function RIndex<T(==)>(s: seq<T>, c: T): (r: Option<nat>)
    ensures r.Some? ==> r.value < |s| && s[r.value] == c
                        && forall j :: r.value < j < |s| ==> s[j] != c
    ensures r.None? <==> c !in s
  {
    if |s| == 0 then None
    else if s[|s| - 1] == c then Some(|s| - 1)
    else RIndex(s[..|s| - 1], c)
  }

  /** `sep.join(parts)`. */
  function Join(sep: string, parts: seq<string>): string {
    if |parts| == 0 then ""
    else if |parts| == 1 then parts[0]
    else parts[0] + sep + Join(sep, parts[1..])
  }

  lemma {:induction false} JoinSnoc(sep: string, parts: seq<string>, t: string)
    requires |parts| > 0
    ensures Join(sep, parts + [t]) == Join(sep, parts) + sep + t
    decreases |parts|
  {
    if |parts| > 1 {
      assert (parts + [t])[1..] == parts[1..] + [t];
      JoinSnoc(sep, parts[1..], t);
    } else {
      assert (parts + [t])[1..] == [t];
    }
  }

  /** A string contains whatever starts one of its middle pieces. */
  lemma ContainsMiddle<T>(a: seq<T>, b: seq<T>, c: seq<T>, sub: seq<T>)
    requires |sub| <= |b| && b[..|sub|] == sub
    ensures Contains(a + b + c, sub)
  {
    var s := a + b + c;
    assert s[|a|..|a| + |sub|] == b[..|sub|];
    ContainsAt(s, sub, |a|);
  }

  /** Every part stands whole somewhere inside the joined string. */
  lemma {:induction false} JoinSplit(sep: string, parts: seq<string>, i: nat) returns (before: string, after: string)
    requires i < |parts|
    ensures Join(sep, parts) == before + parts[i] + after
    decreases i
  {
    if |parts| == 1 {
      before, after := "", "";
    } else if i == 0 {
      before, after := "", sep + Join(sep, parts[1..]);
    } else {
      var b, a := JoinSplit(sep, parts[1..], i - 1);
      before, after := parts[0] + sep + b, a;
    }
  }

  // ---------------------------------------------------------------------------
  // Decimal numerals

  predicate IsDigit(c: char) { '0' <= c <= '9' }

  predicate AllDigits(s: string) {
    forall i :: 0 <= i < |s| ==> IsDigit(s[i])
  }

  function DigitChar(d: nat): (c: char)
    requires d < 10
    ensures IsDigit(c)
  {
    "0123456789"[d]
  }

  function DigitValue(c: char): (d: nat)
    requires IsDigit(c)
    ensures d < 10
  {
    (c as int - '0' as int) as nat
  }

  lemma DigitValueOfChar(d: nat)
    requires d < 10
    ensures DigitValue(DigitChar(d)) == d
  {
  }

  /** The value of a string of decimal digits, most significant first. */
  function DigitsValue(s: string): nat
    requires AllDigits(s)
  {
    if |s| == 0 then 0
    else DigitsValue(s[..|s| - 1]) * 10 + DigitValue(s[|s| - 1])
  }

  /** `str(n)` for a natural number. */
  function NatToString(n: nat): (s: string)
    ensures |s| > 0 && AllDigits(s)
    decreases n
  {
    if n < 10 then [DigitChar(n)]
    else NatToString(n / 10) + [DigitChar(n % 10)]
  }

  /** `str(i)`: a minus sign for negative numbers, never a leading zero. */
  function IntToString(i: int): string {
    if i < 0 then "-" + NatToString(-i) else NatToString(i)
  }

  /** `int(s)` on an optional sign followed by at least one ASCII decimal
      digit; None for every other string. Python's `int` also accepts
      surrounding whitespace, underscores between digits and non-ASCII
      decimal digits, which this model rejects. */
  function ParseInt(s: string): (r: Option<int>)
    ensures r.Some? ==> |s| > 0
  {
    if |s| > 0 && (s[0] == '-' || s[0] == '+') then
      var body := s[1..];
      if |body| > 0 && AllDigits(body) then
        Some(if s[0] == '-' then -(DigitsValue(body) as int) else DigitsValue(body))
      else None
    else if |s| > 0 && AllDigits(s) then Some(DigitsValue(s))
    else None
  }

  lemma {:induction false} NatToStringValue(n: nat)
    ensures DigitsValue(NatToString(n)) == n
    decreases n
  {
    var s := NatToString(n);
    if n < 10 {
      DigitValueOfChar(n);
    } else {
      NatToStringValue(n / 10);
      DigitValueOfChar(n % 10);
      assert s[..|s| - 1] == NatToString(n / 10);
    }
  }

  lemma ParseIntOfDigits(s: string)
    requires |s| > 0 && AllDigits(s)
    ensures ParseInt(s) == Some(DigitsValue(s))
  {
    assert IsDigit(s[0]);
  }

  lemma ParseIntOfNegative(s: string)
    requires |s| > 1 && s[0] == '-' && AllDigits(s[1..])
    ensures ParseInt(s) == Some(-(DigitsValue(s[1..]) as int))
  {
  }

  /** `int(str(i)) == i` for every integer. */
  lemma ParseIntOfIntToString(i: int)
    ensures ParseInt(IntToString(i)) == Some(i)
  {
    var s := IntToString(i);
    if i < 0 {
      assert s == "-" + NatToString(-i);
      ParseIntOfMinus(-i);
    } else {
      assert s == NatToString(i);
      ParseIntOfNat(i);
    }
  }

  lemma ParseIntOfNat(n: nat)
    ensures ParseInt(NatToString(n)) == Some(n)
  {
    NatToStringValue(n);
    ParseIntOfDigits(NatToString(n));
  }

  lemma ParseIntOfMinus(n: nat)
    requires n > 0
    ensures ParseInt("-" + NatToString(n)) == Some(-(n as int))
  {
    var body := NatToString(n);
    NatToStringValue(n);
    var s := "-" + body;
    assert s[1..] == body;
    ParseIntOfNegative(s);
  }

  // ---------------------------------------------------------------------------
  // Case

  predicate IsUpperAscii(c: char) { 'A' <= c <= 'Z' }
  predicate IsLowerAscii(c: char) { 'a' <= c <= 'z' }

  function LowerChar(c: char): char {
    if IsUpperAscii(c) then (c as int + 32) as char else c
  }

  function UpperChar(c: char): char {
    if IsLowerAscii(c) then (c as int - 32) as char else c
  }

  /** `s.lower()` on ASCII letters. */
  function Lower(s: string): (r: string)
    ensures |r| == |s|
    ensures forall i :: 0 <= i < |s| ==> r[i] == LowerChar(s[i])
  {
    seq(|s|, i requires 0 <= i < |s| => LowerChar(s[i]))
  }

  /** `s.upper()` on ASCII letters. */
  function Upper(s: string): (r: string)
    ensures |r| == |s|
    ensures forall i :: 0 <= i < |s| ==> r[i] == UpperChar(s[i])
  {
    seq(|s|, i requires 0 <= i < |s| => UpperChar(s[i]))
  }

  /** `s.islower()`: at least one cased character and no upper-case one. */
  predicate IsLowerString(s: string) {
    (exists i :: 0 <= i < |s| && IsLowerAscii(s[i]))
    && forall i :: 0 <= i < |s| ==> !IsUpperAscii(s[i])
  }

  // ---------------------------------------------------------------------------
  // Hexadecimal

  function HexDigitUpper(d: nat): char
    requires d < 16
  {
    "0123456789ABCDEF"[d]
  }

  /** Upper-case hexadecimal digits of `n`, no prefix. */
  function HexUpper(n: nat): (s: string)
    ensures |s| > 0
    decreases n
  {
    if n < 16 then [HexDigitUpper(n)]
    else HexUpper(n / 16) + [HexDigitUpper(n % 16)]
  }

  /** The value of one upper-case hexadecimal digit. */
  function HexDigitValue(c: char): (d: nat)
    ensures d < 16
  {
    if '0' <= c <= '9' then (c - '0') as nat
    else if 'A' <= c <= 'F' then (c - 'A') as nat + 10
    else 0
  }

  /** The number an upper-case hexadecimal text denotes. */
  function HexValue(s: string): nat {
    if |s| == 0 then 0 else 16 * HexValue(s[..|s| - 1]) + HexDigitValue(s[|s| - 1])
  }

  /** Each upper-case digit reads back as the number it was written for. */
  lemma HexDigitRoundTrip(d: nat)
    requires d < 16
    ensures HexDigitValue(HexDigitUpper(d)) == d
  {
    var c := HexDigitUpper(d);
    if d < 10 {
      assert c == "0123456789"[d];
    } else {
      assert c == "ABCDEF"[d - 10];
    }
  }

  /** Reading back the digits `HexUpper` writes gives the number. */
  lemma {:induction false} HexUpperValue(n: nat)
    ensures HexValue(HexUpper(n)) == n
    decreases n
  {
    var s := HexUpper(n);
    if n < 16 {
      HexDigitRoundTrip(n);
      assert s[..0] == [];
    } else {
      HexUpperValue(n / 16);
      HexDigitRoundTrip(n % 16);
      assert s[..|s| - 1] == HexUpper(n / 16);
    }
  }

  /** `hex(i).upper()[2:]`: for a negative number the slice removes "-0", so
      the result keeps the "X" of the prefix. */
  function HexCodeOf(i: int): string {
    if i >= 0 then HexUpper(i) else "X" + HexUpper(-i)
  }
}
