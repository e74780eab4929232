/** Lexeme-level helpers shared by both evaluators: Python's `str.strip()` and
    the question "does `float(s)` (or `Decimal(s)`) accept `s`, and with which value". */
module Numerals {
  import opened Outcomes

  /** The characters `str.strip()` removes, those for which `str.isspace()`
      holds: the controls tab to carriage return and U+001C to U+001F, and the
      Unicode spaces and separators. */
  predicate IsWhitespace(c: char) {
    || c == ' '
    || '\t' <= c <= '\r'
    || '\U{001C}' <= c <= '\U{001F}'
    || c == '\U{0085}' || c == '\U{00A0}' || c == '\U{1680}'
    || '\U{2000}' <= c <= '\U{200A}'
    || c == '\U{2028}' || c == '\U{2029}' || c == '\U{202F}' || c == '\U{205F}' || c == '\U{3000}'
  }

  /** `not s.strip()`: the string is empty or made of whitespace only. */
  predicate IsBlank(s: string) {
    forall i :: 0 <= i < |s| ==> IsWhitespace(s[i])
  }

  function TrimLeft(s: string): (r: string)
    ensures |r| <= |s| && r == s[|s| - |r|..]
    ensures IsBlank(s[..|s| - |r|])
    ensures r == [] || !IsWhitespace(r[0])
    ensures r == [] <==> IsBlank(s)
  {
    if s != [] && IsWhitespace(s[0]) then
      var r := TrimLeft(s[1..]);
      LeadingBlank(s, r);
      r
    else
      NotBlankAt(s, 0);
      s
  }

  /** Dropping one leading whitespace character before trimming the rest. */
  lemma LeadingBlank(s: string, r: string)
    requires s != [] && IsWhitespace(s[0])
    requires |r| <= |s| - 1 && r == s[1..][|s| - 1 - |r|..] && IsBlank(s[1..][..|s| - 1 - |r|])
    requires r == [] <==> IsBlank(s[1..])
    ensures r == s[|s| - |r|..] && IsBlank(s[..|s| - |r|])
    ensures r == [] <==> IsBlank(s)
  {
    assert s[1..][|s| - 1 - |r|..] == s[|s| - |r|..];
    assert forall i :: 0 < i < |s| - |r| ==> s[i] == s[1..][..|s| - 1 - |r|][i - 1];
    assert forall i :: 0 < i < |s| ==> s[i] == s[1..][i - 1];
  }

  /** A string with a non-whitespace character at `i` is not blank. */
  lemma NotBlankAt(s: string, i: int)
    requires s == [] || (0 <= i < |s| && !IsWhitespace(s[i]))
    ensures s != [] ==> !IsBlank(s)
    ensures s[..0] == [] && s[|s|..] == []
  {
  }

  function TrimRight(s: string): (r: string)
    ensures |r| <= |s| && r == s[..|r|]
    ensures IsBlank(s[|r|..])
    ensures r == [] || !IsWhitespace(r[|r| - 1])
    ensures r == [] <==> IsBlank(s)
  {
    if s != [] && IsWhitespace(s[|s| - 1]) then
      var r := TrimRight(s[..|s| - 1]);
      TrailingBlank(s, r);
      r
    else
      NotBlankAt(s, |s| - 1);
      s
  }

  /** Dropping one trailing whitespace character before trimming the rest. */
  lemma TrailingBlank(s: string, r: string)
    requires s != [] && IsWhitespace(s[|s| - 1])
    requires |r| <= |s| - 1 && r == s[..|s| - 1][..|r|] && IsBlank(s[..|s| - 1][|r|..])
    requires r == [] <==> IsBlank(s[..|s| - 1])
    ensures r == s[..|r|] && IsBlank(s[|r|..])
    ensures r == [] <==> IsBlank(s)
  {
    assert s[..|s| - 1][..|r|] == s[..|r|];
    assert forall i :: |r| <= i < |s| - 1 ==> s[i] == s[..|s| - 1][|r|..][i - |r|];
    assert forall i :: 0 <= i < |s| - 1 ==> s[i] == s[..|s| - 1][i];
  }

  /** `s.strip()`: the slice of `s` left once leading and trailing whitespace is removed. */
  function Strip(s: string): (r: string)
    ensures exists i, j :: 0 <= i <= j <= |s| && r == s[i..j] && IsBlank(s[..i]) && IsBlank(s[j..])
    ensures r == [] <==> IsBlank(s)
    ensures r != [] ==> !IsWhitespace(r[0]) && !IsWhitespace(r[|r| - 1])
  {
    var left := TrimLeft(s);
    var r := TrimRight(left);
    StripSlice(s, left, r, |s| - |left|);
    r
  }

  /** Trimming `left = s[i..]` to its prefix `r` leaves the slice `s[i..i + |r|]`
      with blank ends on both sides, and blank exactly when `s` is. */
  lemma StripSlice(s: string, left: string, r: string, i: nat)
    requires i <= |s| && left == s[i..] && IsBlank(s[..i])
    requires |r| <= |left| && r == left[..|r|] && IsBlank(left[|r|..])
    requires r == [] <==> IsBlank(left)
    ensures exists i, j :: 0 <= i <= j <= |s| && r == s[i..j] && IsBlank(s[..i]) && IsBlank(s[j..])
    ensures r == [] <==> IsBlank(s)
  {
    assert s[i + |r|..] == left[|r|..];
    assert r == s[i..i + |r|];
    assert forall k :: i <= k < |s| ==> s[k] == left[k - i];
    assert forall k :: 0 <= k < i ==> s[k] == s[..i][k];
  }

  predicate IsDigit(c: char) { '0' <= c <= '9' }

  predicate AllDigits(s: string) {
    forall i :: 0 <= i < |s| ==> IsDigit(s[i])
  }

  /** The natural number a string of decimal digits denotes. */
  function DigitsValue(s: string): nat
    requires AllDigits(s)
  {
    if s == [] then 0 else 10 * DigitsValue(s[..|s| - 1]) + (s[|s| - 1] as int - '0' as int)
  }

  function Pow10(n: nat): (r: nat)
    ensures 0 < r
  {
    if n == 0 then 1 else 10 * Pow10(n - 1)
  }

  /** Index of the first '.' in `s`, or `|s|` when there is none. */
  function DotIndex(s: string): (d: nat)
    ensures d <= |s|
    ensures d < |s| ==> s[d] == '.'
    ensures forall i :: 0 <= i < d ==> s[i] != '.'
  {
    if s == [] || s[0] == '.' then 0 else 1 + DotIndex(s[1..])
  }

  /** `float(s)` succeeds, for the numerals the lexer produces: digits with at
      most one decimal point and at least one digit ("12", "1.5", "5.", ".5"). */
  predicate IsNumeric(s: string) {
    NumeralFrom(s, false, false)
  }

  /** The rest `s` of a numeral, when a point (`dot`) or a digit (`digit`) has
      already been read. */
  predicate NumeralFrom(s: string, dot: bool, digit: bool)
    decreases |s|
  {
    if s == [] then digit
    else if IsDigit(s[0]) then NumeralFrom(s[1..], dot, true)
    else if s[0] == '.' && !dot then NumeralFrom(s[1..], true, digit)
    else false
  }

  /** The value `float(s)` and `Decimal(s)` give: the digits before the point
      make the whole part and those after it the fraction. Any string that is
      not a numeral is refused. */
  function ParseNumber(s: string): (r: Option<real>)
    ensures r.Some? <==> IsNumeric(s)
    ensures r.Some? ==> 0.0 <= r.value
  {
    var d := DotIndex(s);
    var whole := s[..d];
    var fraction := if d < |s| then s[d + 1..] else [];
    NumeralParts(s, false);
    if AllDigits(whole) && AllDigits(fraction) && 0 < |whole| + |fraction| then
      var scale := Pow10(|fraction|) as real;
      assert 0.0 <= DigitsValue(fraction) as real / scale;
      Some(DigitsValue(whole) as real + DigitsValue(fraction) as real / scale)
    else
      None
  }

  /** After the point, only digits may follow. */
  lemma {:induction false} FractionDigits(s: string, digit: bool)
    ensures NumeralFrom(s, true, digit) <==> AllDigits(s) && (digit || s != [])
    decreases |s|
  {
    if s != [] {
      FractionDigits(s[1..], digit || IsDigit(s[0]));
      if AllDigits(s[1..]) && IsDigit(s[0]) {
        assert AllDigits(s) by {
          forall i | 0 <= i < |s| ensures IsDigit(s[i]) {
            if 0 < i {
              assert s[i] == s[1..][i - 1];
            }
          }
        }
      }
      if AllDigits(s) {
        assert AllDigits(s[1..]) by {
          forall i | 0 <= i < |s| - 1 ensures IsDigit(s[1..][i]) {
            assert s[1..][i] == s[i + 1];
          }
        }
      }
    }
  }

  /** A numeral is a run of digits, then optionally a point and another run of
      digits, with at least one digit in all. */
  lemma {:induction false} NumeralParts(s: string, digit: bool)
    ensures var d := DotIndex(s);
      var whole := s[..d];
      var fraction := if d < |s| then s[d + 1..] else [];
      NumeralFrom(s, false, digit) <==> AllDigits(whole) && AllDigits(fraction) && (digit || 0 < |whole| + |fraction|)
    decreases |s|
  {
    if s != [] {
      var d := DotIndex(s);
      if s[0] == '.' {
        assert d == 0;
        FractionDigits(s[1..], digit);
      } else {
        var t := s[1..];
        NumeralParts(t, digit || IsDigit(s[0]));
        var e := DotIndex(t);
        assert d == e + 1;
        assert s[..d] == [s[0]] + t[..e];
        if d < |s| {
          assert s[d + 1..] == t[e + 1..];
        }
        if AllDigits(s[..d]) {
          assert IsDigit(s[..d][0]);
          assert AllDigits(t[..e]) by {
            forall i | 0 <= i < e ensures IsDigit(t[..e][i]) {
              assert t[..e][i] == s[..d][i + 1];
            }
          }
        }
        if IsDigit(s[0]) && AllDigits(t[..e]) {
          assert AllDigits(s[..d]) by {
            forall i | 0 <= i < d ensures IsDigit(s[..d][i]) {
              if 0 < i {
                assert s[..d][i] == t[..e][i - 1];
              }
            }
          }
        }
      }
    }
  }

  /** A string with a character that is neither a digit nor '.' is never a numeral;
      in particular no operator symbol, parenthesis or "neg" is. */
  lemma NotNumeric(s: string, i: nat)
    requires i < |s| && !IsDigit(s[i]) && s[i] != '.'
    ensures !IsNumeric(s)
  {
    NotNumeralFrom(s, i, false, false);
  }

  lemma {:induction false} NotNumeralFrom(s: string, i: nat, dot: bool, digit: bool)
    requires i < |s| && !IsDigit(s[i]) && s[i] != '.'
    ensures !NumeralFrom(s, dot, digit)
    decreases i
  {
    if 0 < i && (IsDigit(s[0]) || s[0] == '.') {
      assert s[1..][i - 1] == s[i];
      NotNumeralFrom(s[1..], i - 1, dot || s[0] == '.', digit || IsDigit(s[0]));
    }
  }

  /** A single digit is a numeral, worth its digit value. */
  lemma DigitNumeral(c: char)
    requires IsDigit(c)
    ensures ParseNumber([c]) == Some((c as int - '0' as int) as real)
  {
    var s := [c];
    assert DotIndex(s) == 1 by {
      assert DotIndex(s[1..]) == 0;
    }
    assert s[..1] == s;
    assert DigitsValue(s) == c as int - '0' as int by {
      assert s[..0] == [];
    }
  }
  /** The value of a decimal digit character. */
  function DigitValue(c: char): (v: nat)
    requires IsDigit(c)
    ensures v < 10
  {
    c as int - '0' as int
  }

  /** Appending a digit to a numeral without a point shifts it one place left:
      the value becomes ten times the old one plus the digit. */
  lemma AppendWholeDigit(w: string, c: char)
    requires IsNumeric(w) && '.' !in w && IsDigit(c)
    ensures IsNumeric(w + [c])
    ensures ParseNumber(w + [c]) == Some(10.0 * ParseNumber(w).value + DigitValue(c) as real)
  {
    var s := w + [c];
    assert '.' !in s;
    assert DotIndex(w) == |w| && DotIndex(s) == |s|;
    assert w[..|w|] == w && s[..|s|] == s && s[..|s| - 1] == w;
    NumeralParts(w, false);
    assert AllDigits(s) by {
      forall i | 0 <= i < |s| ensures IsDigit(s[i]) {
        if i < |w| {
          assert s[i] == w[i];
        }
      }
    }
    NumeralParts(s, false);
    assert DigitsValue(s) == 10 * DigitsValue(w) + DigitValue(c);
  }

  /** A point after a numeral without one ("5.") leaves its value unchanged. */
  lemma AppendPoint(w: string)
    requires IsNumeric(w) && '.' !in w
    ensures IsNumeric(w + ".")
    ensures ParseNumber(w + ".") == ParseNumber(w)
  {
    var s := w + ".";
    assert DotIndex(w) == |w|;
    assert s[|w|] == '.';
    DotIndexAt(s, |w|);
    assert s[..|w|] == w[..|w|] == w && s[|w| + 1..] == [];
    NumeralParts(w, false);
    NumeralParts(s, false);
  }

  /** A point followed by one digit (".5") is worth that digit in tenths. */
  lemma PointDigit(c: char)
    requires IsDigit(c)
    ensures ParseNumber(['.', c]) == Some(DigitValue(c) as real / 10.0)
  {
    var s := ['.', c];
    assert DotIndex(s) == 0;
    assert s[..0] == [] && s[1..] == [c] && [c][..0] == [];
    assert DigitsValue([c]) == DigitValue(c);
    assert AllDigits(s[..0]) && AllDigits(s[1..]);
    assert Pow10(|s[1..]|) == 10;
    assert ParseNumber(s) ==
      Some(DigitsValue(s[..0]) as real + DigitsValue(s[1..]) as real / Pow10(|s[1..]|) as real);
  }

  /** Appending a digit after the point adds it at the next decimal place: with
      `k` digits already after the point, the digit is worth `d / 10^(k + 1)`. */
  lemma AppendFractionDigit(w: string, c: char)
    requires IsNumeric(w) && '.' in w && IsDigit(c)
    ensures DotIndex(w) < |w|
    ensures IsNumeric(w + [c])
    ensures ParseNumber(w + [c]).Some?
    ensures ParseNumber(w + [c]).value ==
      ParseNumber(w).value + DigitValue(c) as real / Pow10(|w| - DotIndex(w)) as real
  {
    var d := DotIndex(w);
    PointFound(w);
    var x, y := FractionSum(w, c, d);
  }

  lemma FractionSum(w: string, c: char, d: nat) returns (x: real, y: real)
    requires IsNumeric(w) && d == DotIndex(w) && d < |w| && IsDigit(c)
    ensures IsNumeric(w + [c])
    ensures ParseNumber(w) == Some(x) && ParseNumber(w + [c]) == Some(y)
    ensures y == x + DigitValue(c) as real / Pow10(|w| - DotIndex(w)) as real
  {
    FractionSlices(w, c);
    x := FractionPrefixValue(w, d);
    y := FractionExtendedValue(w, c, d);
    var fraction := w[d + 1..];
    FractionValue(DigitsValue(w[..d]), fraction, c);
    assert |fraction| + 1 == |w| - d;
  }

  lemma FractionPrefixValue(w: string, d: nat) returns (x: real)
    requires IsNumeric(w) && d == DotIndex(w) && d < |w|
    ensures AllDigits(w[..d]) && AllDigits(w[d + 1..])
    ensures x == DigitsValue(w[..d]) as real + DigitsValue(w[d + 1..]) as real / Pow10(|w[d + 1..]|) as real
    ensures ParseNumber(w) == Some(x)
  {
    ValueAt(w, d);
    x := ParseNumber(w).value;
  }

  lemma FractionExtendedValue(w: string, c: char, d: nat) returns (y: real)
    requires IsNumeric(w) && d == DotIndex(w) && d < |w| && IsDigit(c)
    requires DotIndex(w + [c]) == d && (w + [c])[..d] == w[..d] && (w + [c])[d + 1..] == w[d + 1..] + [c]
    ensures IsNumeric(w + [c]) && AllDigits(w[..d]) && AllDigits(w[d + 1..] + [c])
    ensures y == DigitsValue(w[..d]) as real + DigitsValue(w[d + 1..] + [c]) as real / Pow10(|w[d + 1..]| + 1) as real
    ensures ParseNumber(w + [c]) == Some(y)
  {
    var s := w + [c];
    ValueAt(w, d);
    FractionValue(0, w[d + 1..], c);
    DigitsNumeral(s, d);
    ValueAt(s, d);
    y := ParseNumber(s).value;
  }

  /** The value of a numeral with a point at `d`, read off its two runs of digits. */
  lemma ValueAt(s: string, d: nat)
    requires IsNumeric(s) && d == DotIndex(s) && d < |s|
    ensures AllDigits(s[..d]) && AllDigits(s[d + 1..])
    ensures ParseNumber(s) ==
      Some(DigitsValue(s[..d]) as real + DigitsValue(s[d + 1..]) as real / Pow10(|s| - d - 1) as real)
  {
    NumeralParts(s, false);
  }

  /** Two runs of digits around the first point, with a digit after it, make a numeral. */
  lemma DigitsNumeral(s: string, d: nat)
    requires d < |s| - 1 && DotIndex(s) == d && AllDigits(s[..d]) && AllDigits(s[d + 1..])
    ensures IsNumeric(s)
  {
    NumeralParts(s, false);
  }

  /** Where the point sits in `w + [c]`, and the slices around it. */
  lemma FractionSlices(w: string, c: char)
    requires '.' in w
    ensures DotIndex(w) < |w|
    ensures DotIndex(w + [c]) == DotIndex(w)
    ensures (w + [c])[..DotIndex(w)] == w[..DotIndex(w)]
    ensures (w + [c])[DotIndex(w) + 1..] == w[DotIndex(w) + 1..] + [c]
  {
    PointFound(w);
    PointKept(w, c, DotIndex(w));
  }

  lemma PointFound(w: string)
    requires '.' in w
    ensures DotIndex(w) < |w|
  {
  }

  lemma PointKept(w: string, c: char, d: nat)
    requires d == DotIndex(w) && d < |w|
    ensures DotIndex(w + [c]) == d
    ensures (w + [c])[..d] == w[..d]
    ensures (w + [c])[d + 1..] == w[d + 1..] + [c]
  {
    var s := w + [c];
    assert forall i :: 0 <= i < d ==> s[i] == w[i];
    DotIndexAt(s, d);
  }

  /** The first point of `s` is at `d`. */
  lemma {:induction false} DotIndexAt(s: string, d: nat)
    requires d < |s| && s[d] == '.'
    requires forall i :: 0 <= i < d ==> s[i] != '.'
    ensures DotIndex(s) == d
    decreases d
  {
    if d > 0 {
      assert s[0] != '.';
      assert forall i :: 0 <= i < d - 1 ==> s[1..][i] == s[i + 1];
      DotIndexAt(s[1..], d - 1);
    }
  }

  /** One more fraction digit, as `ParseNumber` adds it up. */
  lemma FractionValue(whole: nat, fraction: string, c: char)
    requires AllDigits(fraction) && IsDigit(c)
    ensures AllDigits(fraction + [c])
    ensures whole as real + DigitsValue(fraction + [c]) as real / Pow10(|fraction| + 1) as real ==
      whole as real + DigitsValue(fraction) as real / Pow10(|fraction|) as real + DigitValue(c) as real / Pow10(|fraction| + 1) as real
  {
    assert (fraction + [c])[..|fraction|] == fraction;
    var p := Pow10(|fraction|) as real;
    assert Pow10(|fraction| + 1) as real == 10.0 * p;
    assert DigitsValue(fraction + [c]) == 10 * DigitsValue(fraction) + DigitValue(c);
    ShiftFraction(DigitsValue(fraction) as real, DigitValue(c) as real, p);
  }

  lemma ShiftFraction(x: real, y: real, p: real)
    requires 0.0 < p
    ensures (10.0 * x + y) / (10.0 * p) == x / p + y / (10.0 * p)
  {
  }
}
