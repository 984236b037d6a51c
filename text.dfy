/**
 * The Python built-ins that the core leans on, written out: `str.strip`,
 * `str.replace`, `str(n)`, `int(s)`, `float(s)`, `int(x)` on a float and the
 * f-string rendering of an optional string.
 */
module Text {
  import opened Wrappers

  /** `c.isspace()` over ASCII: space, the controls 0x09..0x0d and the separators 0x1c..0x1f. */
  predicate IsSpace(c: char) {
    c == ' ' || (9 <= c as int <= 13) || (28 <= c as int <= 31)
  }

  predicate IsDigit(c: char) {
    '0' <= c <= '9'
  }

  predicate AllDigits(s: string) {
    forall i :: 0 <= i < |s| ==> IsDigit(s[i])
  }

  function DigitValue(c: char): (d: nat)
    requires IsDigit(c)
    ensures d < 10
  {
    c as int - '0' as int
  }

  function DigitChar(d: nat): (c: char)
    requires d < 10
    ensures IsDigit(c) && DigitValue(c) == d
  {
    ('0' as int + d) as char
  }

  // ---------------------------------------------------------------------------
  // str.strip

  /** `s.lstrip()`: what is left is a suffix of `s`, and everything dropped is white space. */
  function StripLeft(s: string): (r: string)
    ensures |r| <= |s| && r == s[|s| - |r|..]
    ensures forall i :: 0 <= i < |s| - |r| ==> IsSpace(s[i])
    ensures r == [] || !IsSpace(r[0])
  {
    if s != [] && IsSpace(s[0]) then StripLeft(s[1..]) else s
  }

  /** `s.rstrip()`: what is left is a prefix of `s`, and everything dropped is white space. */
  function StripRight(s: string): (r: string)
    ensures |r| <= |s| && r == s[..|r|]
    ensures forall i :: |r| <= i < |s| ==> IsSpace(s[i])
    ensures r == [] || !IsSpace(r[|r| - 1])
  {
    if s != [] && IsSpace(s[|s| - 1]) then StripRight(s[..|s| - 1]) else s
  }

  /** `s.strip()`: no white space at either end, and a string without any there is unchanged. */
  function Strip(s: string): (r: string)
    ensures r == [] || (!IsSpace(r[0]) && !IsSpace(r[|r| - 1]))
    ensures (s == [] || (!IsSpace(s[0]) && !IsSpace(s[|s| - 1]))) ==> r == s
  {
    StripRight(StripLeft(s))
  }

  /** What `strip` removes: the result is the slice of `s` that starts after the leading white
      space, and everything cut off on either side of it is white space. */
  lemma StripTrims(s: string)
    ensures |s| - |StripLeft(s)| + |Strip(s)| <= |s|
    ensures Strip(s) == s[|s| - |StripLeft(s)|..|s| - |StripLeft(s)| + |Strip(s)|]
    ensures forall i :: 0 <= i < |s| - |StripLeft(s)| ==> IsSpace(s[i])
    ensures forall i :: |s| - |StripLeft(s)| + |Strip(s)| <= i < |s| ==> IsSpace(s[i])
  {
    var left := StripLeft(s);
    var r := StripRight(left);
    assert Strip(s) == r;
    StripSlice(s, left, r);
  }

  lemma StripSlice(s: string, left: string, r: string)
    requires |left| <= |s| && left == s[|s| - |left|..]
    requires |r| <= |left| && r == left[..|r|]
    requires forall i :: |r| <= i < |left| ==> IsSpace(left[i])
    ensures |s| - |left| + |r| <= |s|
    ensures r == s[|s| - |left|..|s| - |left| + |r|]
    ensures forall i :: |s| - |left| + |r| <= i < |s| ==> IsSpace(s[i])
  {
    var a := |s| - |left|;
    forall i | a + |r| <= i < |s| ensures IsSpace(s[i]) {
      assert s[i] == left[i - a];
    }
  }

  // ---------------------------------------------------------------------------
  // str.replace

  /** `s.replace(pat, rep)`: each non-overlapping occurrence of `pat`, scanning from the left. */
  function Replace(s: string, pat: string, rep: string): string
    requires pat != []
    decreases |s|
  {
    if |s| < |pat| then s
    else if s[..|pat|] == pat then rep + Replace(s[|pat|..], pat, rep)
    else [s[0]] + Replace(s[1..], pat, rep)
  }

  /** Replacing never introduces a character that neither `s` nor `rep` holds. */
  lemma {:induction false} ReplaceKeepsAbsentChar(s: string, pat: string, rep: string, c: char)
    requires pat != [] && c !in s && c !in rep
    ensures c !in Replace(s, pat, rep)
    decreases |s|
  {
    if |s| < |pat| {
    } else if s[..|pat|] == pat {
      assert s[|pat|..] == s[|pat|..|s|];
      ReplaceKeepsAbsentChar(s[|pat|..], pat, rep, c);
    } else {
      ReplaceKeepsAbsentChar(s[1..], pat, rep, c);
    }
  }

  /** Deleting a one-character pattern deletes every copy of that character. */
  lemma {:induction false} RemoveCharRemovesAll(s: string, c: char)
    ensures c !in Replace(s, [c], "")
    decreases |s|
  {
    if |s| < 1 {
    } else if s[..1] == [c] {
      RemoveCharRemovesAll(s[1..], c);
    } else {
      assert s[0] != c by { assert s[..1] == [s[0]]; }
      RemoveCharRemovesAll(s[1..], c);
    }
  }

  /** A pattern whose first character does not occur in `t` is removed from the end of `t + pat`
      and `t` comes back untouched: `"50kg".replace("kg", "") == "50"`. */
  lemma {:induction false} RemoveTrailingPattern(t: string, pat: string)
    requires pat != [] && pat[0] !in t
    ensures Replace(t + pat, pat, "") == t
    decreases |t|
  {
    var s := t + pat;
    if t == [] {
      assert s[..|pat|] == pat;
      assert s[|pat|..] == [];
    } else {
      assert s[0] == t[0] != pat[0];
      assert s[..|pat|] != pat by { assert s[..|pat|][0] == s[0]; }
      assert s[1..] == t[1..] + pat;
      RemoveTrailingPattern(t[1..], pat);
    }
  }

  /** Nothing is replaced when the first character of the pattern never occurs. */
  lemma {:induction false} ReplaceWithoutFirstChar(s: string, pat: string, rep: string)
    requires pat != [] && pat[0] !in s
    ensures Replace(s, pat, rep) == s
    decreases |s|
  {
    if |s| >= |pat| {
      assert s[..|pat|] != pat by { assert s[..|pat|][0] == s[0]; }
      ReplaceWithoutFirstChar(s[1..], pat, rep);
      assert [s[0]] + s[1..] == s;
    }
  }

  /** A leading occurrence of the pattern is replaced, and the rest is replaced in turn. */
  lemma ReplaceLeading(pat: string, rest: string, rep: string)
    requires pat != []
    ensures Replace(pat + rest, pat, rep) == rep + Replace(rest, pat, rep)
  {
    var s := pat + rest;
    assert s[..|pat|] == pat && s[|pat|..] == rest;
  }

  /** The pattern alone becomes the replacement. */
  lemma ReplaceSelf(pat: string, rep: string)
    requires pat != []
    ensures Replace(pat, pat, rep) == rep
  {
    ReplaceLeading(pat, [], rep);
    assert pat + [] == pat && rep + [] == rep;
  }

  /** When `a` holds no character of the pattern, replacing in `a + b` only touches `b`. */
  lemma {:induction false} ReplaceSplit(a: string, b: string, pat: string, rep: string)
    requires pat != [] && pat[0] !in a
    ensures Replace(a + b, pat, rep) == a + Replace(b, pat, rep)
    decreases |a|
  {
    if a != [] {
      var s := a + b;
      if |s| >= |pat| {
        assert s[..|pat|] != pat by { assert s[..|pat|][0] == a[0]; }
        assert s[1..] == a[1..] + b;
        ReplaceSplit(a[1..], b, pat, rep);
        assert Replace(s, pat, rep) == [s[0]] + Replace(s[1..], pat, rep);
        assert [a[0]] + (a[1..] + Replace(b, pat, rep)) == a + Replace(b, pat, rep);
      } else {
        assert Replace(b, pat, rep) == b;
      }
    } else {
      assert a + b == b;
    }
  }

  // ---------------------------------------------------------------------------
  // Decimal digits, str(n) and int(s)

  function DigitsValue(s: string): nat
    requires AllDigits(s)
    decreases |s|
  {
    if s == [] then 0 else DigitsValue(s[..|s| - 1]) * 10 + DigitValue(s[|s| - 1])
  }

  /** `str(n)` for n >= 0: a non-empty run of digits, without leading zeros, that reads back as `n`. */
  function NatToString(n: nat): (r: string)
    ensures r != [] && AllDigits(r)
    ensures |r| > 1 ==> r[0] != '0'
    ensures DigitsValue(r) == n
    decreases n
  {
    if n < 10 then [DigitChar(n)]
    else
      var front := NatToString(n / 10);
      var r := front + [DigitChar(n % 10)];
      assert r[..|r| - 1] == front;
      r
  }

  /** `str(i)`: an optional minus sign and the digits of `|i|`; `int()` reads it back as `i`. */
  function IntToString(i: int): (r: string)
    ensures r != [] && (r[0] == '-' <==> i < 0)
    ensures ParseInt(r) == Some(i)
  {
    if i < 0 then
      var digits := NatToString(-i);
      var r := "-" + digits;
      assert Strip(r) == r;
      assert r[1..] == digits;
      r
    else
      var r := NatToString(i);
      assert Strip(r) == r;
      r
  }

  /** `int(s)` for a string: surrounding white space, an optional sign, one or more ASCII digits. */
  function ParseInt(s: string): Option<int> {
    var t := Strip(s);
    if t != [] && (t[0] == '-' || t[0] == '+') then
      if |t| > 1 && AllDigits(t[1..]) then
        var v: int := DigitsValue(t[1..]);
        Some(if t[0] == '-' then -v else v)
      else None
    else if t != [] && AllDigits(t) then Some(DigitsValue(t))
    else None
  }

  /** `int("abc")` raises: text that is not a number is rejected. */
  lemma ParseIntRejectsWord()
    ensures ParseInt("abc") == None
  {
    assert !IsDigit('a');
    assert Strip("abc") == "abc";
  }

  // ---------------------------------------------------------------------------
  // float(s) and int(x)

  function Pow10(n: nat): (p: nat)
    ensures p >= 1
  {
    if n == 0 then 1 else 10 * Pow10(n - 1)
  }

  /** The position of the first `c` in `s`, or `|s|` if there is none. */
  function FirstIndexOf(s: string, c: char): (r: nat)
    ensures r <= |s| && c !in s[..r]
    ensures r < |s| ==> s[r] == c
  {
    if s == [] then 0
    else if s[0] == c then 0
    else
      var r := 1 + FirstIndexOf(s[1..], c);
      assert s[..r] == [s[0]] + s[1..][..r - 1];
      r
  }

  /** An unsigned decimal literal: digits, optionally split by one point ("5", "5.", ".5", "10.25"). */
  function ParseUnsignedDecimal(t: string): Option<real> {
    var p := FirstIndexOf(t, '.');
    if p == |t| then
      if t != [] && AllDigits(t) then Some(DigitsValue(t) as real) else None
    else
      var whole, frac := t[..p], t[p + 1..];
      if (whole != [] || frac != []) && AllDigits(whole) && AllDigits(frac) then
        Some(DigitsValue(whole) as real + DigitsValue(frac) as real / Pow10(|frac|) as real)
      else None
  }

  /** `float(s)` for plain decimal literals with surrounding white space and an optional sign. */
  function ParseFloat(s: string): Option<real> {
    var t := Strip(s);
    if t != [] && (t[0] == '-' || t[0] == '+') then
      var v :- ParseUnsignedDecimal(t[1..]);
      Some(if t[0] == '-' then -v else v)
    else ParseUnsignedDecimal(t)
  }

  /** The digits of a natural number read back by `float()` as that number. */
  lemma ParseFloatOfNat(n: nat)
    ensures ParseFloat(NatToString(n)) == Some(n as real)
  {
    var r := NatToString(n);
    assert Strip(r) == r;
    forall i | 0 <= i < |r| ensures r[i] != '.' {
      assert IsDigit(r[i]);
    }
  }

  /** `int(x)` for a float: truncation toward zero. */
  function Trunc(x: real): (r: int)
    ensures 0.0 <= x ==> r as real <= x < r as real + 1.0
    ensures x < 0.0 ==> r as real - 1.0 < x <= r as real
  {
    if x >= 0.0 then x.Floor else -((-x).Floor)
  }

  /** An f-string rendering of a value that may be `None`. */
  function Format(o: Option<string>): string {
    match o
    case None => "None"
    case Some(s) => s
  }
}
