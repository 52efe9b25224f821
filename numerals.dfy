/**
 * The two number readers the pipeline relies on, as small grammars over exact reals:
 * the `numeral` library's reading of a formatted amount (thousands commas allowed)
 * and JavaScript's `Number(string)` (no commas). Both take decimal digits and an
 * optional `.` followed by digits; `numeral` is modelled with an optional leading
 * `-`, `Number` with an optional leading `-` or `+`.
 */
module Numerals {
  import opened Wrappers

  predicate IsDigit(c: char) { '0' <= c <= '9' }

  predicate AllDigits(s: string) { forall i :: 0 <= i < |s| ==> IsDigit(s[i]) }

  function DigitValue(c: char): (d: nat)
    requires IsDigit(c)
    ensures d < 10
  {
    c as int - '0' as int
  }

  function Digit(d: nat): (c: char)
    requires d < 10
    ensures IsDigit(c) && DigitValue(c) == d
  {
    ('0' as int + d) as char
  }

  function Pow10(n: nat): (p: nat)
    ensures p >= 1
  {
    if n == 0 then 1 else 10 * Pow10(n - 1)
  }

  /** The natural number a string of decimal digits denotes. */
  function NatValue(s: string): nat
    requires AllDigits(s)
  {
    if s == [] then 0 else NatValue(s[..|s| - 1]) * 10 + DigitValue(s[|s| - 1])
  }

  /** `s.replaceAll(c, '')`. */
  function Strip(s: string, c: char): (r: string)
    ensures c !in r
  {
    if s == [] then []
    else if s[0] == c then Strip(s[1..], c)
    else
      assert s == [s[0]] + s[1..];
      [s[0]] + Strip(s[1..], c)
  }

  /** Removing a character adds none, and removing an absent one changes nothing. */
  lemma {:induction false} StripFacts(s: string, c: char)
    ensures forall x :: x in Strip(s, c) ==> x in s
    ensures c !in s ==> Strip(s, c) == s
  {
    if s != [] {
      StripFacts(s[1..], c);
      assert s == [s[0]] + s[1..];
    }
  }

  /** Removing one character keeps every other. */
  lemma {:induction false} StripKeeps(s: string, c: char, x: char)
    requires x in s && x != c
    ensures x in Strip(s, c)
  {
    if s[0] != x {
      assert x in s[1..];
      StripKeeps(s[1..], c, x);
    }
  }

  /** The position of the first `c` in `s`, or `|s|` when there is none. */
  function Find(s: string, c: char): (k: nat)
    ensures k <= |s|
    ensures k < |s| ==> s[k] == c
    ensures forall j :: 0 <= j < k ==> s[j] != c
  {
    if s == [] || s[0] == c then 0 else 1 + Find(s[1..], c)
  }

  /** The digits before the decimal point, separators removed when `commas` holds. */
  function WholePart(s: string, commas: bool): (w: string)
    ensures !commas ==> w == s[..Find(s, '.')]
  {
    var k := Find(s, '.');
    if commas then Strip(s[..k], ',') else s[..k]
  }

  /** What follows the first decimal point; empty when there is none. */
  function FracPart(s: string): (f: string)
    ensures Find(s, '.') < |s| ==> f == s[Find(s, '.') + 1..]
    ensures Find(s, '.') == |s| ==> f == ""
  {
    var k := Find(s, '.');
    if k < |s| then s[k + 1..] else ""
  }

  /** The value of the digits after a decimal point: `5` is 0.5, `25` is 0.25. */
  function Fraction(f: string): (x: real)
    requires AllDigits(f)
    ensures 0.0 <= x < 1.0
  {
    if f == [] then 0.0 else (DigitValue(f[0]) as real + Fraction(f[1..])) / 10.0
  }

  /**
   * An unsigned decimal: an integer part, then optionally `.` and a fraction of
   * digits, with at least one digit in all. When `commas` holds, the integer part
   * may also hold `,` separators, which are ignored.
   */
  function ParseUnsigned(s: string, commas: bool): (r: Option<real>)
    ensures r.Some? ==> r.value >= 0.0
  {
    var whole, frac := WholePart(s, commas), FracPart(s);
    if AllDigits(whole) && AllDigits(frac) && |whole| + |frac| > 0 then
      Some(NatValue(whole) as real + Fraction(frac))
    else None
  }

  /** `numeral(s).value()` on a string, `None` where the library yields null or NaN. */
  function NumeralValue(s: string): (r: Option<real>)
    ensures s == "" ==> r == None
  {
    if |s| > 0 && s[0] == '-' then
      match ParseUnsigned(s[1..], true)
      case Some(m) => Some(-m)
      case None => None
    else ParseUnsigned(s, true)
  }

  /** `Number(s)` on a string, `None` standing for NaN; the empty string reads as 0. */
  function NumberValue(s: string): (r: Option<real>)
    ensures s == "" ==> r == Some(0.0)
  {
    if s == "" then Some(0.0)
    else if s[0] == '-' then
      match ParseUnsigned(s[1..], false)
      case Some(m) => Some(-m)
      case None => None
    else if s[0] == '+' then ParseUnsigned(s[1..], false)
    else ParseUnsigned(s, false)
  }

  /** The decimal digits of `n`, without leading zeros. */
  function FormatNat(n: nat): (s: string)
    ensures |s| > 0 && AllDigits(s)
  {
    if n < 10 then [Digit(n)] else FormatNat(n / 10) + [Digit(n % 10)]
  }

  /** `n` written with a `,` between groups of three digits, as in `1,234,567`. */
  function FormatThousands(n: nat): (s: string)
    ensures |s| > 0 && IsDigit(s[0])
  {
    if n < 1000 then FormatNat(n)
    else FormatThousands(n / 1000) + "," + Pad3(n % 1000)
  }

  /** A grouped numeral holds digits and commas only. */
  lemma {:induction false} GroupedChars(n: nat)
    ensures forall i :: 0 <= i < |FormatThousands(n)| ==> IsDigit(FormatThousands(n)[i]) || FormatThousands(n)[i] == ','
  {
    if n >= 1000 {
      GroupedChars(n / 1000);
      var hi, lo := FormatThousands(n / 1000), Pad3(n % 1000);
      var s := hi + "," + lo;
      forall i | 0 <= i < |s| ensures IsDigit(s[i]) || s[i] == ',' {
        if i < |hi| {
          assert s[i] == hi[i];
        } else if i > |hi| {
          assert s[i] == lo[i - |hi| - 1];
        }
      }
    }
  }

  /** `m` as exactly three digits. */
  function Pad3(m: nat): (s: string)
    requires m < 1000
    ensures |s| == 3 && AllDigits(s)
  {
    [Digit(m / 100), Digit(m / 10 % 10), Digit(m % 10)]
  }

  lemma {:induction false} NatValueOfFormat(n: nat)
    ensures NatValue(FormatNat(n)) == n
  {
    if n >= 10 {
      NatValueOfFormat(n / 10);
      var s := FormatNat(n);
      assert s[..|s| - 1] == FormatNat(n / 10);
    }
  }

  lemma {:induction false} NatValueAppend(a: string, b: string)
    requires AllDigits(a) && AllDigits(b)
    ensures NatValue(a + b) == NatValue(a) * Pow10(|b|) + NatValue(b)
  {
    if b == [] {
      assert a + b == a;
    } else {
      var b' := b[..|b| - 1];
      var d := DigitValue(b[|b| - 1]);
      NatValueAppend(a, b');
      assert (a + b)[..|a + b| - 1] == a + b';
      assert NatValue(a + b) == NatValue(a + b') * 10 + d;
      ShiftDigit(NatValue(a), Pow10(|b'|), NatValue(b'), d);
    }
  }

  lemma ShiftDigit(x: nat, p: nat, y: nat, d: nat)
    ensures (x * p + y) * 10 + d == x * (10 * p) + (y * 10 + d)
  {
  }

  lemma NatValuePad3(m: nat)
    requires m < 1000
    ensures NatValue(Pad3(m)) == m
  {
    NatValueThree(Pad3(m));
    ThreeDigits(m);
  }

  lemma NatValueThree(s: string)
    requires |s| == 3 && AllDigits(s)
    ensures NatValue(s) == (DigitValue(s[0]) * 10 + DigitValue(s[1])) * 10 + DigitValue(s[2])
  {
    var t := s[..2];
    assert s[..|s| - 1] == t && s[|s| - 1] == s[2];
    assert NatValue(s) == NatValue(t) * 10 + DigitValue(s[2]);
    assert t[..1] == [s[0]] && t[1] == s[1];
    assert NatValue(t) == NatValue([s[0]]) * 10 + DigitValue(s[1]);
    assert [s[0]][..0] == [];
    assert NatValue([s[0]]) == DigitValue(s[0]);
  }

  lemma ThreeDigits(m: nat)
    requires m < 1000
    ensures (m / 100 * 10 + m / 10 % 10) * 10 + m % 10 == m
  {
  }

  lemma {:induction false} StripAppend(a: string, b: string, c: char)
    ensures Strip(a + b, c) == Strip(a, c) + Strip(b, c)
  {
    if a != [] {
      StripAppend(a[1..], b, c);
      assert (a + b)[1..] == a[1..] + b;
    } else {
      assert a + b == b;
    }
  }

  /** Removing the separators of a grouped numeral leaves the digits of the number. */
  lemma {:induction false} UngroupThousands(n: nat)
    ensures AllDigits(Strip(FormatThousands(n), ','))
    ensures NatValue(Strip(FormatThousands(n), ',')) == n
  {
    if n < 1000 {
      NatValueOfFormat(n);
      StripFacts(FormatNat(n), ',');
    } else {
      var q, m := n / 1000, n % 1000;
      UngroupThousands(q);
      var hi, lo := Strip(FormatThousands(q), ','), Pad3(m);
      UngroupStep(n);
      assert AllDigits(hi + lo) by {
        assert forall i :: 0 <= i < |hi + lo| ==> (hi + lo)[i] == if i < |hi| then hi[i] else lo[i - |hi|];
      }
      NatValueAppend(hi, lo);
      NatValuePad3(m);
      assert Pow10(|lo|) == 1000;
      assert NatValue(hi + lo) == q * 1000 + m;
    }
  }

  /** A grouped numeral loses its last separator. */
  lemma UngroupStep(n: nat)
    requires n >= 1000
    ensures Strip(FormatThousands(n), ',') == Strip(FormatThousands(n / 1000), ',') + Pad3(n % 1000)
  {
    StripAppend(FormatThousands(n / 1000) + ",", Pad3(n % 1000), ',');
    StripAppend(FormatThousands(n / 1000), ",", ',');
    assert Strip(",", ',') == [];
    StripFacts(Pad3(n % 1000), ',');
  }

  /** Without a decimal point the whole string is the integer part and the fraction is empty. */
  lemma SplitWithoutPoint(s: string, commas: bool)
    requires '.' !in s
    ensures WholePart(s, commas) == if commas then Strip(s, ',') else s
    ensures FracPart(s) == ""
  {
    assert Find(s, '.') == |s|;
    assert s[..|s|] == s;
  }

  /** Without a decimal point, an unsigned decimal is the number its digits denote. */
  lemma ReadWhole(s: string, commas: bool)
    requires '.' !in s
    requires AllDigits(WholePart(s, commas)) && |WholePart(s, commas)| > 0
    ensures ParseUnsigned(s, commas) == Some(NatValue(WholePart(s, commas)) as real)
  {
    SplitWithoutPoint(s, commas);
  }

  /** A grouped numeral reads back as the number it was written from. */
  lemma ReadGroupedNumeral(n: nat)
    ensures NumeralValue(FormatThousands(n)) == Some(n as real)
  {
    GroupedShape(n);
    SplitWithoutPoint(FormatThousands(n), true);
    ReadWhole(FormatThousands(n), true);
  }

  /** The first `c` of `a + [c] + b` is the one after `a`, when `a` holds none. */
  lemma {:induction false} FindAfter(a: string, c: char, b: string)
    requires c !in a
    ensures Find(a + [c] + b, c) == |a|
  {
    if a != [] {
      assert (a + [c] + b)[1..] == a[1..] + [c] + b;
      FindAfter(a[1..], c, b);
    } else {
      assert (a + [c] + b)[0] == c;
    }
  }

  /** A grouped natural with a fraction reads back as its amount: `1,234.5` is 1234.5. */
  lemma ReadGroupedDecimal(n: nat, f: string)
    requires AllDigits(f)
    ensures NumeralValue(FormatThousands(n) + "." + f) == Some(n as real + Fraction(f))
  {
    var g := FormatThousands(n);
    GroupedShape(n);
    ReadSplit(g, Strip(g, ','), f, n);
  }

  /**
   * A grouped numeral opens with a digit and holds no point; ungrouped, it is a
   * non-empty digit string denoting the number.
   */
  lemma GroupedShape(n: nat)
    ensures var g := FormatThousands(n);
      && '.' !in g && g[0] != '-' && |Strip(g, ',')| > 0
      && AllDigits(Strip(g, ',')) && NatValue(Strip(g, ',')) == n
  {
    var g := FormatThousands(n);
    UngroupThousands(n);
    GroupedChars(n);
    StripKeeps(g, ',', g[0]);
  }

  /** An unsigned text with a point reads as its integer part `m` plus its fraction. */
  lemma ReadSplit(g: string, w: string, f: string, m: nat)
    requires '.' !in g && |g| > 0 && g[0] != '-' && Strip(g, ',') == w
    requires AllDigits(w) && |w| > 0 && NatValue(w) == m && AllDigits(f)
    ensures NumeralValue(g + "." + f) == Some(m as real + Fraction(f))
  {
    SplitAtPoint(g, f);
    ReadParts(g + "." + f, w, f, m);
  }

  lemma ReadParts(s: string, w: string, f: string, m: nat)
    requires |s| > 0 && s[0] != '-'
    requires WholePart(s, true) == w && FracPart(s) == f
    requires AllDigits(w) && |w| > 0 && NatValue(w) == m && AllDigits(f)
    ensures NumeralValue(s) == Some(m as real + Fraction(f))
  {
  }

  /** Before the first point lies the integer part, after it the fraction. */
  lemma SplitAtPoint(g: string, f: string)
    requires '.' !in g
    ensures WholePart(g + "." + f, true) == Strip(g, ',')
    ensures FracPart(g + "." + f) == f
    ensures |g| > 0 ==> (g + "." + f)[0] == g[0]
  {
    var s := g + "." + f;
    FindAfter(g, '.', f);
    assert s[..|g|] == g;
    assert s[|g| + 1..] == f;
  }

  /** A plain digit string reads back as its number, both through `numeral` and through `Number`. */
  lemma ReadPlainNumeral(n: nat)
    ensures NumeralValue(FormatNat(n)) == Some(n as real)
    ensures NumberValue(FormatNat(n)) == Some(n as real)
  {
    NatValueOfFormat(n);
    StripFacts(FormatNat(n), ',');
    SplitWithoutPoint(FormatNat(n), true);
    SplitWithoutPoint(FormatNat(n), false);
    ReadWhole(FormatNat(n), true);
    ReadWhole(FormatNat(n), false);
  }

  /** Where there is no comma, the two readers do not disagree: a value `numeral` reads, `Number` reads the same. */
  lemma NumberAgreesWithNumeral(s: string)
    requires ',' !in s
    requires NumeralValue(s).Some?
    ensures NumberValue(s) == NumeralValue(s)
  {
    NumeralRejectsPlus(s);
    if s[0] == '-' {
      assert ',' !in s[1..];
      CommasIrrelevant(s[1..]);
    } else {
      CommasIrrelevant(s);
    }
  }

  /** On a comma-free string the separator allowance changes nothing. */
  lemma CommasIrrelevant(t: string)
    requires ',' !in t
    ensures ParseUnsigned(t, true) == ParseUnsigned(t, false)
  {
    var k := Find(t, '.');
    assert ',' !in t[..k];
    StripFacts(t[..k], ',');
    assert WholePart(t, true) == WholePart(t, false);
  }

  /** `numeral` reads a negative amount only from text that opens with `-`, and never a positive one from such text. */
  lemma NumeralSign(s: string)
    ensures NumeralValue(s).Some? && NumeralValue(s).value < 0.0 ==> |s| > 0 && s[0] == '-'
    ensures NumeralValue(s).Some? && |s| > 0 && s[0] == '-' ==> NumeralValue(s).value <= 0.0
  {
  }

  /** So does `Number`; a leading `+` gives a reading that is not negative. */
  lemma NumberSign(s: string)
    ensures NumberValue(s).Some? && NumberValue(s).value < 0.0 ==> |s| > 0 && s[0] == '-'
    ensures NumberValue(s).Some? && |s| > 0 && s[0] == '-' ==> NumberValue(s).value <= 0.0
    ensures NumberValue(s).Some? && |s| > 0 && s[0] == '+' ==> NumberValue(s).value >= 0.0
  {
  }

  /** Unlike `Number`, the model of `numeral` takes no leading `+` (the library itself reads `+5` as 5). */
  lemma NumeralRejectsPlus(s: string)
    ensures |s| > 0 && s[0] == '+' ==> NumeralValue(s).None?
  {
    if |s| > 0 && s[0] == '+' {
      var k := Find(s, '.');
      assert k > 0;
      assert s[..k][0] == '+';
      StripKeeps(s[..k], ',', '+');
      assert !AllDigits(WholePart(s, true));
    }
  }

  /**
   * A character that is neither a digit, a sign nor the decimal point stops
   * `Number`: `Number("1,234")` and `Number("(5)")` are NaN.
   */
  lemma NumberRejectsStray(s: string, c: char)
    requires c in s && !IsDigit(c) && c !in ".-+"
    ensures NumberValue(s) == None
  {
    var t := if s[0] == '-' || s[0] == '+' then s[1..] else s;
    assert c in t;
    var i :| 0 <= i < |t| && t[i] == c;
    var k := Find(t, '.');
    if i < k {
      assert WholePart(t, false)[i] == c;
    } else {
      assert i > k;
      assert FracPart(t)[i - k - 1] == c;
    }
  }

  /** The bare sentinel `-` is not a number either: `Number("-")` is NaN. */
  lemma NumberRejectsDash()
    ensures NumberValue("-") == None
  {
    assert "-"[1..] == "";
    assert WholePart("", false) == "" && FracPart("") == "";
  }

  /** The figure of a typical table cell, `1,234.5`. */
  lemma ReadDecimalExample()
    ensures NumeralValue("1,234.5") == Some(1234.5)
  {
    DecimalExampleParts();
    FourDigitsExample();
    assert Fraction("5") == 0.5 by { assert "5"[1..] == ""; }
  }

  lemma DecimalExampleParts()
    ensures WholePart("1,234.5", true) == "1234"
    ensures FracPart("1,234.5") == "5"
  {
    var s := "1,234.5";
    assert Find(s, '.') == 5;
    assert s[..5] == "1,234";
    assert Strip("1,234", ',') == "1234";
  }

  lemma FourDigitsExample()
    ensures NatValue("1234") == 1234
  {
    assert "1234"[..3] == "123";
    assert "123"[..2] == "12";
    assert "12"[..1] == "1";
    assert "1"[..0] == "";
  }

  /** A figure with a fraction, `1.5`. */
  lemma ReadSmallDecimalExample()
    ensures NumeralValue("1.5") == Some(1.5)
  {
    var t := "1.5";
    assert Find(t, '.') == 1;
    assert WholePart(t, true) == "1" by {
      assert t[..1] == "1";
    }
    assert FracPart(t) == "5";
    assert NatValue("1") == 1 by { assert "1"[..0] == ""; }
    assert Fraction("5") == 0.5 by { assert "5"[1..] == ""; }
  }
}
