/**
 * The Python string operations the route handlers apply to form input:
 * `str.strip()`, `str.lower()`, `str.upper()`, `str.capitalize()`,
 * `str.isdigit()`, `int(s)` and `str(n)`, and the case-insensitive substring
 * test that `LOWER(col) LIKE '%k%'` performs in the database.
 * Letters are treated as ASCII; whitespace is Python's full `str.isspace()` set.
 */
module Text {
  import opened Wrappers

  /** Python's `str.isspace()`: the characters `str.strip()` and `int()` remove. */
  predicate IsSpace(c: char) {
    || c == ' '
    || ('\t' <= c <= '\r')
    || ('\U{1C}' <= c <= '\U{1F}')
    || c == '\U{85}' || c == '\U{A0}' || c == '\U{1680}'
    || ('\U{2000}' <= c <= '\U{200A}')
    || c == '\U{2028}' || c == '\U{2029}' || c == '\U{202F}' || c == '\U{205F}' || c == '\U{3000}'
  }

  predicate NoSpaceAtEnds(s: string) {
    s == [] || (!IsSpace(s[0]) && !IsSpace(s[|s| - 1]))
  }

  /** `s.strip()`: the longest middle part that neither starts nor ends with whitespace. */
  function Strip(s: string): (r: string)
    ensures |r| <= |s| && NoSpaceAtEnds(r)
    ensures NoSpaceAtEnds(s) ==> r == s
    decreases |s|
  {
    if s == [] then []
    else if IsSpace(s[0]) then Strip(s[1..])
    else if IsSpace(s[|s| - 1]) then Strip(s[..|s| - 1])
    else s
  }

  /** `s.strip()` is empty exactly when `s` is all whitespace. */
  lemma {:induction false} StripEmpty(s: string)
    ensures Strip(s) == [] <==> forall i :: 0 <= i < |s| ==> IsSpace(s[i])
    decreases |s|
  {
    if s != [] {
      if IsSpace(s[0]) {
        StripEmpty(s[1..]);
        assert forall i :: 1 <= i < |s| ==> s[i] == s[1..][i - 1];
      } else if IsSpace(s[|s| - 1]) {
        StripEmpty(s[..|s| - 1]);
        assert forall i :: 0 <= i < |s| - 1 ==> s[i] == s[..|s| - 1][i];
      }
    }
  }

  /** Everything in `s` before index `i` and from index `j` on is whitespace. */
  predicate BlankOutside(s: string, i: nat, j: nat)
    requires i <= j <= |s|
  {
    (forall k :: 0 <= k < i ==> IsSpace(s[k])) && (forall k :: j <= k < |s| ==> IsSpace(s[k]))
  }

  /** Where `s.strip()` cuts `s`. */
  lemma {:induction false} StripBounds(s: string) returns (i: nat, j: nat)
    ensures i <= j <= |s| && Strip(s) == s[i..j] && BlankOutside(s, i, j)
    decreases |s|
  {
    if s == [] {
      i, j := 0, 0;
    } else if IsSpace(s[0]) {
      var t := s[1..];
      var i', j' := StripBounds(t);
      i, j := i' + 1, j' + 1;
      assert t[i'..j'] == s[i..j];
      forall k | 0 <= k < i ensures IsSpace(s[k]) {
        if k > 0 { assert s[k] == t[k - 1]; }
      }
      forall k | j <= k < |s| ensures IsSpace(s[k]) {
        assert s[k] == t[k - 1];
      }
    } else if IsSpace(s[|s| - 1]) {
      var t := s[..|s| - 1];
      i, j := StripBounds(t);
      // `s` starts with a non-space, so nothing is stripped in front
      if i > 0 {
        assert false;
      }
      assert t[i..j] == s[i..j];
      forall k | j <= k < |s| ensures IsSpace(s[k]) {
        if k < |s| - 1 { assert s[k] == t[k]; }
      }
    } else {
      i, j := 0, |s|;
    }
  }

  /** `s.strip()` is a slice of `s`: what it removes before and after the slice is all whitespace. */
  lemma StripSlice(s: string)
    ensures exists i: nat, j: nat :: i <= j <= |s| && Strip(s) == s[i..j] && BlankOutside(s, i, j)
  {
    var i, j := StripBounds(s);
  }

  function LowerChar(c: char): char {
    if 'A' <= c <= 'Z' then (c as int + 32) as char else c
  }

  function UpperChar(c: char): char {
    if 'a' <= c <= 'z' then (c as int - 32) as char else c
  }

  /** `s.lower()`. */
  function Lower(s: string): (r: string)
    ensures |r| == |s| && forall i :: 0 <= i < |s| ==> r[i] == LowerChar(s[i])
  {
    if s == [] then [] else [LowerChar(s[0])] + Lower(s[1..])
  }

  /** `s.upper()`. */
  function Upper(s: string): (r: string)
    ensures |r| == |s| && forall i :: 0 <= i < |s| ==> r[i] == UpperChar(s[i])
  {
    if s == [] then [] else [UpperChar(s[0])] + Upper(s[1..])
  }

  /** `s.capitalize()`: first character upper-case, the rest lower-case. */
  function Capitalize(s: string): (r: string)
    ensures |r| == |s|
    ensures r != [] ==> r[0] == UpperChar(s[0]) && r[1..] == Lower(s[1..])
  {
    if s == [] then [] else [UpperChar(s[0])] + Lower(s[1..])
  }

  /** Lower-casing after capitalising is the same as lower-casing: capitalising never changes which letters there are. */
  lemma LowerCapitalize(s: string)
    ensures Lower(Capitalize(s)) == Lower(s)
  {
    var l, r := Lower(Capitalize(s)), Lower(s);
    forall i | 0 <= i < |s| ensures l[i] == r[i] {
      if i > 0 {
        assert Capitalize(s)[i] == Lower(s[1..])[i - 1];
      }
    }
  }

  /** Capitalising a capitalised string changes nothing. */
  lemma CapitalizeIdempotent(s: string)
    ensures Capitalize(Capitalize(s)) == Capitalize(s)
  {
    if s != [] {
      var c := Capitalize(s);
      assert Lower(c[1..]) == c[1..];
    }
  }

  /** `UPPER(x) = 'REMOTE'` and `x.lower() == "remote"` agree on every string. */
  lemma UpperRemoteIffLowerRemote(s: string)
    ensures Upper(s) == "REMOTE" <==> Lower(s) == "remote"
  {
    var upper, lower := "REMOTE", "remote";
    if |s| == 6 {
      forall i | 0 <= i < 6
        ensures Upper(s)[i] == upper[i] <==> Lower(s)[i] == lower[i]
      {
        CaseCharsAgree(s[i], upper[i], lower[i]);
      }
      if Upper(s) == upper {
        assert forall i :: 0 <= i < 6 ==> Lower(s)[i] == lower[i];
      }
      if Lower(s) == lower {
        assert forall i :: 0 <= i < 6 ==> Upper(s)[i] == upper[i];
      }
    }
  }

  lemma CaseCharsAgree(c: char, u: char, l: char)
    requires 'A' <= u <= 'Z' && l == LowerChar(u)
    ensures UpperChar(c) == u <==> LowerChar(c) == l
  {
  }

  lemma SpaceLowerChar(c: char)
    ensures IsSpace(LowerChar(c)) == IsSpace(c)
  {
  }

  lemma LowerKeepsEnds(s: string)
    requires NoSpaceAtEnds(s)
    ensures NoSpaceAtEnds(Lower(s))
  {
    if s != [] {
      SpaceLowerChar(s[0]);
      SpaceLowerChar(s[|s| - 1]);
    }
  }

  lemma DigitNotSpace(c: char)
    requires IsDigit(c) || c == '-' || c == '+'
    ensures !IsSpace(c)
  {
  }

  /** Stripping and lower-casing commute, so `s.strip().lower()` depends only on `s.lower()`. */
  lemma {:induction false} LowerStrip(s: string)
    ensures Lower(Strip(s)) == Strip(Lower(s))
    decreases |s|
  {
    if s != [] {
      var n := |s| - 1;
      assert Lower(s)[0] == LowerChar(s[0]) && Lower(s)[n] == LowerChar(s[n]);
      SpaceLowerChar(s[0]);
      SpaceLowerChar(s[n]);
      if IsSpace(s[0]) {
        assert Lower(s)[1..] == Lower(s[1..]);
        LowerStrip(s[1..]);
      } else if IsSpace(s[n]) {
        assert Lower(s)[..n] == Lower(s[..n]);
        LowerStrip(s[..n]);
      } else {
        LowerKeepsEnds(s);
      }
    }
  }

  predicate IsDigit(c: char) {
    '0' <= c <= '9'
  }

  /** `s.isdigit()`: non-empty and made of digits only. */
  predicate IsDigits(s: string) {
    |s| > 0 && forall i :: 0 <= i < |s| ==> IsDigit(s[i])
  }

  function DigitValue(c: char): (d: nat)
    requires IsDigit(c)
    ensures d < 10
  {
    c as int - '0' as int
  }

  function DigitChar(d: nat): (c: char)
    requires d < 10
    ensures IsDigit(c) && DigitValue(c) == d
  {
    ('0' as int + d) as char
  }

  /** The digits of a base-10 literal as Python's `int()` reads them: a single `_` may separate two digits. */
  predicate IsDigitRun(s: string) {
    && |s| > 0 && IsDigit(s[0]) && IsDigit(s[|s| - 1])
    && (forall i :: 0 <= i < |s| ==> IsDigit(s[i]) || s[i] == '_')
    && (forall i :: 0 <= i < |s| - 1 && s[i] == '_' ==> IsDigit(s[i + 1]))
  }

  function RunValue(s: string): nat
    requires forall i :: 0 <= i < |s| ==> IsDigit(s[i]) || s[i] == '_'
  {
    if s == [] then 0
    else if s[|s| - 1] == '_' then RunValue(s[..|s| - 1])
    else 10 * RunValue(s[..|s| - 1]) + DigitValue(s[|s| - 1])
  }

  /** `int(s)`: `None` where Python raises `ValueError`. */
  function ParseInt(s: string): Option<int> {
    var t := Strip(s);
    if |t| > 0 && (t[0] == '+' || t[0] == '-') then
      if IsDigitRun(t[1..]) then
        var v: int := RunValue(t[1..]);
        Some(if t[0] == '-' then -v else v)
      else None
    else if IsDigitRun(t) then Some(RunValue(t))
    else None
  }

  /** `str(n)` for a natural number. */
  function NatToString(n: nat): (r: string)
    ensures IsDigits(r)
    ensures |r| > 1 ==> r[0] != '0'
  {
    if n < 10 then [DigitChar(n)] else NatToString(n / 10) + [DigitChar(n % 10)]
  }

  /** `str(i)`. */
  function IntToString(i: int): string {
    if i < 0 then "-" + NatToString(-i) else NatToString(i)
  }

  lemma {:induction false} RunValueOfNatToString(n: nat)
    ensures RunValue(NatToString(n)) == n
  {
    if n >= 10 {
      var s := NatToString(n / 10);
      var r := NatToString(n);
      assert r == s + [DigitChar(n % 10)];
      assert r[..|r| - 1] == s;
      RunValueOfNatToString(n / 10);
    }
  }

  /** `int(str(i)) == i`: the decimal text of an integer reads back as that integer. */
  lemma ParseIntOfIntToString(i: int)
    ensures ParseInt(IntToString(i)) == Some(i)
  {
    var d := NatToString(if i < 0 then -i else i);
    RunValueOfNatToString(if i < 0 then -i else i);
    assert IsDigitRun(d);
    var t := IntToString(i);
    DigitNotSpace(t[0]);
    DigitNotSpace(t[|t| - 1]);
    assert Strip(t) == t;
    if i < 0 {
      assert t[1..] == d;
    }
  }

  /** Whenever `s.isdigit()` holds, `int(s)` succeeds with a natural number. */
  lemma ParseIntOfDigits(s: string)
    requires IsDigits(s)
    ensures ParseInt(s).Some? && ParseInt(s).value == RunValue(s) >= 0
  {
    DigitNotSpace(s[0]);
    DigitNotSpace(s[|s| - 1]);
    assert Strip(s) == s;
    assert IsDigitRun(s);
  }

  /** A text `int()` accepts is, once stripped, an optional sign followed by a run of digits. */
  lemma StrippedRun(s: string)
    requires ParseInt(s).Some?
    ensures var t := Strip(s); |t| > 0 && IsDigitRun(t[if t[0] == '+' || t[0] == '-' then 1 else 0..])
  {
  }

  /** `s` is blanks, an optional sign at `i` (when `d == 1`), a run of digits up to `j`, then blanks. */
  ghost predicate ParsedAt(s: string, i: nat, j: nat, d: nat) {
    && i + d <= j <= |s| && d <= 1
    && BlankOutside(s, i, j)
    && (d == 1 ==> s[i] == '+' || s[i] == '-')
    && IsDigitRun(s[i + d..j])
  }

  /** The parts of a text `int()` accepts. */
  lemma ParsedParts(s: string) returns (i: nat, j: nat, d: nat)
    requires var t := Strip(s); |t| > 0 && IsDigitRun(t[if t[0] == '+' || t[0] == '-' then 1 else 0..])
    ensures ParsedAt(s, i, j, d)
  {
    var t := Strip(s);
    i, j := StripBounds(s);
    d := if t[0] == '+' || t[0] == '-' then 1 else 0;
    assert t[d..] == s[i + d..j];
  }

  /** Between the sign and `j` there are only digits and `_`. */
  lemma ParsedRunChars(s: string, i: nat, j: nat, d: nat)
    requires ParsedAt(s, i, j, d)
    ensures forall k :: i + d <= k < j ==> IsDigit(s[k]) || s[k] == '_'
    ensures IsDigit(s[i + d]) && IsDigit(s[j - 1])
  {
    var run := s[i + d..j];
    forall k | i + d <= k < j ensures IsDigit(s[k]) || s[k] == '_' {
      assert s[k] == run[k - i - d];
    }
    assert s[i + d] == run[0] && s[j - 1] == run[|run| - 1];
  }

  /** The characters of an accepted text, and the neighbours of each `_`. */
  lemma ParsedChars(s: string, i: nat, j: nat, d: nat)
    requires ParsedAt(s, i, j, d)
    ensures forall k :: 0 <= k < |s| ==> IsDigit(s[k]) || IsSpace(s[k]) || s[k] == '+' || s[k] == '-' || s[k] == '_'
    ensures exists k :: 0 <= k < |s| && IsDigit(s[k])
    ensures forall k :: 0 <= k < |s| && s[k] == '_' ==> k + 1 < |s| && IsDigit(s[k + 1])
    ensures forall k :: 0 <= k < |s| && s[k] == '_' ==> k > 0 && IsDigit(s[k - 1])
  {
    ParsedRunChars(s, i, j, d);
    var run := s[i + d..j];
    forall k | 0 <= k < |s| && s[k] == '_' ensures k + 1 < |s| && IsDigit(s[k + 1]) && k > 0 && IsDigit(s[k - 1]) {
      assert i + d < k < j - 1;
      assert s[k] == run[k - i - d];
      assert s[k + 1] == run[k - i - d + 1];
      assert s[k - 1] == run[k - i - d - 1];
    }
  }

  /** A sign in an accepted text comes first and is followed by a digit. */
  lemma ParsedSigns(s: string, i: nat, j: nat, d: nat)
    requires ParsedAt(s, i, j, d)
    ensures forall k :: 0 <= k < |s| && (s[k] == '+' || s[k] == '-') ==> forall m :: 0 <= m < k ==> IsSpace(s[m])
    ensures forall k :: 0 <= k < |s| && (s[k] == '+' || s[k] == '-') ==> k + 1 < |s| && IsDigit(s[k + 1])
  {
    ParsedRunChars(s, i, j, d);
    forall k | 0 <= k < |s| && (s[k] == '+' || s[k] == '-')
      ensures (forall m :: 0 <= m < k ==> IsSpace(s[m])) && k + 1 < |s| && IsDigit(s[k + 1])
    {
      assert k == i && d == 1;
    }
  }

  /** An accepted text holds no blank between two non-blank characters. */
  lemma ParsedBlanks(s: string, i: nat, j: nat, d: nat)
    requires ParsedAt(s, i, j, d)
    ensures forall m, k, n :: 0 <= m < k < n < |s| && !IsSpace(s[m]) && IsSpace(s[k]) ==> IsSpace(s[n])
  {
    ParsedRunChars(s, i, j, d);
    forall k | i <= k < j ensures !IsSpace(s[k]) {
      if k >= i + d {
        assert IsDigit(s[k]) || s[k] == '_';
      }
    }
  }

  /**
   * What `int(s)` refuses: any character other than a digit, whitespace, a sign or `_`
   * ("1.5", "12a"), a text with no digit, a sign after the first non-blank character or
   * not followed by a digit ("1-2", "+ 1"), an `_` without a digit on each side ("_1",
   * "1__0", "10_"), and a blank between two non-blank characters ("1 2").
   */
  lemma ParseIntRejects(s: string)
    requires ParseInt(s).Some?
    ensures forall k :: 0 <= k < |s| ==> IsDigit(s[k]) || IsSpace(s[k]) || s[k] == '+' || s[k] == '-' || s[k] == '_'
    ensures exists k :: 0 <= k < |s| && IsDigit(s[k])
    ensures forall k :: 0 <= k < |s| && (s[k] == '+' || s[k] == '-') ==> forall m :: 0 <= m < k ==> IsSpace(s[m])
    ensures forall k :: 0 <= k < |s| && s[k] == '_' ==> k + 1 < |s| && IsDigit(s[k + 1])
    ensures forall k :: 0 <= k < |s| && s[k] == '_' ==> k > 0 && IsDigit(s[k - 1])
    ensures forall k :: 0 <= k < |s| && (s[k] == '+' || s[k] == '-') ==> k + 1 < |s| && IsDigit(s[k + 1])
    ensures forall m, k, n :: 0 <= m < k < n < |s| && !IsSpace(s[m]) && IsSpace(s[k]) ==> IsSpace(s[n])
  {
    StrippedRun(s);
    var i, j, d := ParsedParts(s);
    ParsedChars(s, i, j, d);
    ParsedSigns(s, i, j, d);
    ParsedBlanks(s, i, j, d);
  }

  /** `needle` occurs in `hay`: what `hay LIKE '%' || needle || '%'` tests when `needle` holds no wildcard of its own. */
  predicate Contains(hay: string, needle: string) {
    exists i :: 0 <= i <= |hay| - |needle| && needle <= hay[i..]
  }

  /** The bind value `f"%{keyword.lower()}%"` the handlers pass to `LIKE`. */
  function LikePattern(keyword: string): string {
    "%" + Lower(keyword) + "%"
  }
}
