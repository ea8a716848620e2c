/**
 * The string handling the bot relies on: Python's `str.strip`, `str.lower`,
 * `str.replace`, `str.isdigit`, `str(n)` and `int(s)`, restricted to ASCII.
 */
module Text {
  import opened Wrappers

  /** Python's `str.isspace` on ASCII: TAB, LF, VT, FF, CR, the separators 0x1C-0x1F and space. */
  predicate IsSpace(c: char) {
    9 <= c as int <= 13 || 28 <= c as int <= 32
  }

  /** `s` has no white space at either end. */
  predicate Trimmed(s: string) {
    s == [] || (!IsSpace(s[0]) && !IsSpace(s[|s| - 1]))
  }

  /** `s.lstrip()`: the longest suffix of `s` that does not start with white space. */
  function TrimStart(s: string): (r: string)
    ensures |r| <= |s| && r == s[|s| - |r|..]
    ensures r == [] || !IsSpace(r[0])
    ensures forall k :: 0 <= k < |s| - |r| ==> IsSpace(s[k])
  {
    if s != [] && IsSpace(s[0]) then TrimStart(s[1..]) else s
  }

  /** `s.rstrip()`: the longest prefix of `s` that does not end with white space. */
  function TrimEnd(s: string): (r: string)
    ensures |r| <= |s| && r == s[..|r|]
    ensures r == [] || !IsSpace(r[|r| - 1])
    ensures forall k :: |r| <= k < |s| ==> IsSpace(s[k])
  {
    if s != [] && IsSpace(s[|s| - 1]) then TrimEnd(s[..|s| - 1]) else s
  }

  /** `s.strip()`: white space removed from both ends, nothing else touched; that the
      result is exactly this slice of `s` is `StripIsSlice`. */
  function Strip(s: string): (r: string)
    ensures Trimmed(r)
    ensures |r| <= |s|
  {
    var t := TrimStart(s);
    var r := TrimEnd(t);
    assert r != [] ==> r[0] == t[0];
    r
  }

  /** The number of white-space characters `s` starts with. */
  function LeadingSpaces(s: string): (n: nat)
    ensures n <= |s|
    ensures forall k :: 0 <= k < n ==> IsSpace(s[k])
    ensures n < |s| ==> !IsSpace(s[n])
  {
    if s != [] && IsSpace(s[0]) then 1 + LeadingSpaces(s[1..]) else 0
  }

  lemma {:induction false} LeadingSpacesTrimStart(s: string)
    ensures LeadingSpaces(s) == |s| - |TrimStart(s)|
  {
    if s != [] && IsSpace(s[0]) {
      LeadingSpacesTrimStart(s[1..]);
    }
  }

  /** The stripped text is the slice of `s` after its leading white space, and every
      character of `s` outside that slice is white space. */
  lemma StripIsSlice(s: string)
    ensures StrippedAt(s, Strip(s), LeadingSpaces(s))
  {
    LeadingSpacesTrimStart(s);
    var t := TrimStart(s);
    TrimmedSlice(s, t, TrimEnd(t), |s| - |t|);
  }

  /** A prefix `r` of the suffix `t` of `s` starting at `a`, with only white space in `s`
      before `a` and in `t` after `r`, is a slice of `s` with only white space around it. */
  lemma TrimmedSlice(s: string, t: string, r: string, a: int)
    requires 0 <= a <= |s| && t == s[a..]
    requires |r| <= |t| && r == t[..|r|]
    requires forall k :: 0 <= k < a ==> IsSpace(s[k])
    requires forall k :: |r| <= k < |t| ==> IsSpace(t[k])
    ensures StrippedAt(s, r, a)
  {
    forall k | a + |r| <= k < |s|
      ensures IsSpace(s[k])
    {
      assert s[k] == t[k - a];
    }
  }

  /** `r` is the slice of `s` starting at `a`, and every character of `s` outside that
      slice is white space. */
  predicate StrippedAt(s: string, r: string, a: int) {
    && 0 <= a && a + |r| <= |s|
    && r == s[a..a + |r|]
    && (forall k :: 0 <= k < a ==> IsSpace(s[k]))
    && (forall k :: a + |r| <= k < |s| ==> IsSpace(s[k]))
  }

  /** The stripped text is determined by these properties: any trimmed slice of `s`
      with only white space around it is `Strip(s)`. */
  lemma StripUnique(s: string, r: string, a: int)
    requires Trimmed(r) && StrippedAt(s, r, a)
    ensures r == Strip(s)
  {
    StripIsSlice(s);
    var t := Strip(s);
    var b := LeadingSpaces(s);
    if r != [] {
      // r starts at the first character that is not white space ...
      assert s[a] == r[0] && !IsSpace(s[a]);
      assert a == b;
      // ... so t is not empty, and both end at the last one.
      assert t != [] by {
        assert !(b + |t| <= a);
      }
      assert s[a + |r| - 1] == r[|r| - 1] && !IsSpace(s[a + |r| - 1]);
      assert s[b + |t| - 1] == t[|t| - 1] && !IsSpace(s[b + |t| - 1]);
      assert |r| == |t|;
    }
  }

  /** Stripping a string that is already trimmed leaves it as it is. */
  lemma StripTrimmed(s: string)
    requires Trimmed(s)
    ensures Strip(s) == s
  {
    assert TrimStart(s) == s;
    assert TrimEnd(s) == s;
  }

  /** `c.lower()` for ASCII letters. */
  function LowerChar(c: char): char {
    if 'A' <= c <= 'Z' then (c as int + 32) as char else c
  }

  /** `s.lower()`: every ASCII capital replaced by its small letter. */
  function Lower(s: string): (r: string)
    ensures |r| == |s|
    ensures forall i :: 0 <= i < |s| ==> r[i] == LowerChar(s[i])
  {
    if s == [] then [] else [LowerChar(s[0])] + Lower(s[1..])
  }

  /** `s.replace(" ", "")`: the spaces dropped, every other character kept in order. */
  function RemoveSpaces(s: string): (r: string)
    ensures |r| <= |s|
    ensures ' ' !in r
    ensures multiset(r) == multiset(s)[' ' := 0]
  {
    if s == [] then []
    else
      assert s == [s[0]] + s[1..];
      if s[0] == ' ' then RemoveSpaces(s[1..])
      else [s[0]] + RemoveSpaces(s[1..])
  }

  /** Removing spaces works piece by piece, so the kept characters stay in their order. */
  lemma {:induction false} RemoveSpacesAppend(a: string, b: string)
    ensures RemoveSpaces(a + b) == RemoveSpaces(a) + RemoveSpaces(b)
  {
    if a != [] {
      assert (a + b)[0] == a[0] && (a + b)[1..] == a[1..] + b;
      RemoveSpacesAppend(a[1..], b);
    } else {
      assert a + b == b;
    }
  }

  /** `s.replace("\n", " ").replace("\r", " ")`: line breaks become spaces. */
  function NewlinesToSpaces(s: string): (r: string)
    ensures |r| == |s|
    ensures '\n' !in r && '\r' !in r
    ensures forall i :: 0 <= i < |s| && s[i] != '\n' && s[i] != '\r' ==> r[i] == s[i]
    ensures forall i :: 0 <= i < |s| && (s[i] == '\n' || s[i] == '\r') ==> r[i] == ' '
  {
    if s == [] then []
    else [if s[0] == '\n' || s[0] == '\r' then ' ' else s[0]] + NewlinesToSpaces(s[1..])
  }

  /** Turning line breaks into spaces keeps a trimmed string trimmed: line breaks are
      white space, so a trimmed string has none at its ends. */
  lemma NewlinesToSpacesTrimmed(s: string)
    requires Trimmed(s)
    ensures Trimmed(NewlinesToSpaces(s))
  {
  }

  predicate IsDigit(c: char) {
    '0' <= c <= '9'
  }

  predicate AllDigits(s: string) {
    forall i :: 0 <= i < |s| ==> IsDigit(s[i])
  }

  /** `s.isdigit()` on ASCII: non-empty and made of decimal digits only. */
  predicate IsDigitString(s: string) {
    s != [] && AllDigits(s)
  }

  /** `int(s)` for a string of decimal digits. */
  function DigitsValue(s: string): (n: nat)
    requires AllDigits(s)
    decreases |s|
  {
    if s == [] then 0
    else 10 * DigitsValue(s[..|s| - 1]) + (s[|s| - 1] as int - '0' as int)
  }

  function DigitChar(d: nat): (c: char)
    requires d < 10
    ensures IsDigit(c) && c as int - '0' as int == d
  {
    ('0' as int + d) as char
  }

  /** `str(n)` for a natural number: its decimal digits, without leading zeros. */
  function NatToString(n: nat): (s: string)
    ensures IsDigitString(s)
    ensures s[0] == '0' ==> n == 0
    ensures n == 0 ==> s == "0"
    decreases n
  {
    if n < 10 then [DigitChar(n)] else NatToString(n / 10) + [DigitChar(n % 10)]
  }

  /** Reading back the decimal digits of `n` gives `n`. */
  lemma {:induction false} DigitsRoundTrip(n: nat)
    ensures DigitsValue(NatToString(n)) == n
    decreases n
  {
    if n >= 10 {
      var s := NatToString(n);
      assert s[..|s| - 1] == NatToString(n / 10);
      DigitsRoundTrip(n / 10);
    }
  }

  /** Python's `int(s)` on ASCII decimal text: surrounding white space ignored, an optional
      sign, then one or more digits; anything else raises `ValueError`, here `None`. */
  function ParseInt(s: string): (r: Option<int>)
    ensures r.Some? <==> IsIntLiteral(Strip(s))
  {
    var t := Strip(s);
    if t != [] && (t[0] == '+' || t[0] == '-') then
      if IsDigitString(t[1..]) then
        var v: int := DigitsValue(t[1..]);
        Some(if t[0] == '-' then -v else v)
      else None
    else if IsDigitString(t) then Some(DigitsValue(t))
    else None
  }

  /** Decimal text as `int` accepts it once stripped: digits, optionally after one sign. */
  predicate IsIntLiteral(t: string) {
    IsDigitString(t) || (t != [] && (t[0] == '+' || t[0] == '-') && IsDigitString(t[1..]))
  }

  /** The value `int` gives: that of the digits, negated after a minus sign. */
  lemma ParseIntValue(s: string)
    ensures IsDigitString(Strip(s)) ==> ParseInt(s) == Some(DigitsValue(Strip(s)))
    ensures var t := Strip(s);
      t != [] && t[0] == '-' && IsDigitString(t[1..]) ==> ParseInt(s) == Some(-(DigitsValue(t[1..]) as int))
    ensures var t := Strip(s);
      t != [] && t[0] == '+' && IsDigitString(t[1..]) ==> ParseInt(s) == Some(DigitsValue(t[1..]))
  {
    ParseIntSigned(s, '-');
    ParseIntSigned(s, '+');
  }

  lemma ParseIntSigned(s: string, sign: char)
    requires sign == '+' || sign == '-'
    ensures var t := Strip(s);
      t != [] && t[0] == sign && IsDigitString(t[1..]) ==>
        ParseInt(s) == Some(if sign == '-' then -(DigitsValue(t[1..]) as int) else DigitsValue(t[1..]))
  {
    var t := Strip(s);
    if t != [] && t[0] == sign {
      // A sign is not a digit, so the text is not a bare digit string.
      assert !IsDigit(t[0]);
    }
  }

  /** `int(str(n)) == n`: the decimal text of a natural number parses back to it. */
  lemma ParseIntRoundTrip(n: nat)
    ensures ParseInt(NatToString(n)) == Some(n)
  {
    var s := NatToString(n);
    StripTrimmed(s);
    DigitsRoundTrip(n);
  }

  /** `int(str(-n)) == -n`: a minus sign before the digits gives the negative value. */
  lemma NegativeParseIntRoundTrip(n: nat)
    ensures ParseInt("-" + NatToString(n)) == Some(-(n as int))
  {
    var d := NatToString(n);
    DigitsRoundTrip(n);
    assert DigitsValue(d) == n;
    NegatedDigitsParse(d);
  }

  /** A minus sign followed by digits parses to the negated value of the digits. */
  lemma NegatedDigitsParse(d: string)
    requires IsDigitString(d)
    ensures ParseInt("-" + d) == Some(-(DigitsValue(d) as int))
  {
    MinusDigitsStripped(d);
    ParseStrippedSigned("-" + d, '-');
  }

  /** A minus sign followed by digits has no white space to strip. */
  lemma MinusDigitsStripped(d: string)
    requires IsDigitString(d)
    ensures var s := "-" + d; s[0] == '-' && s[1..] == d && Strip(s) == s
  {
    MinusDigitsTrimmed(d);
    StripTrimmed("-" + d);
  }

  lemma MinusDigitsTrimmed(d: string)
    requires IsDigitString(d)
    ensures var s := "-" + d; Trimmed(s) && s[0] == '-' && s[1..] == d
  {
    var s := "-" + d;
    assert IsDigit(d[|d| - 1]);
    assert s[|s| - 1] == d[|d| - 1];
    assert s[1..] == d;
  }

  /** Text that is already stripped and is a sign followed by digits parses to the value
      of the digits, negated after a minus sign. */
  lemma ParseStrippedSigned(t: string, sign: char)
    requires sign == '+' || sign == '-'
    requires t != [] && t[0] == sign && IsDigitString(t[1..]) && Strip(t) == t
    ensures ParseInt(t) == Some(if sign == '-' then -(DigitsValue(t[1..]) as int) else DigitsValue(t[1..]))
  {
    // A sign is not a digit, so the text is not a bare digit string.
    assert !IsDigit(t[0]);
  }
}
