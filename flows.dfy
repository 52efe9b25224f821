/**
 * The two coercions of a flow figure: the cell parser the normaliser applies to a
 * registered ticker's value (src/app/seed.ts, lines 30-34), and `cleanFlow`, the
 * storage-side coercion that turns anything non-numeric into 0 (line 57).
 */
module Flows {
  import opened Wrappers
  import opened Cells
  import opened Numerals

  /** The table's "no flow reported" marker. */
  const Sentinel := "-"

  /** The table writes outflows in parentheses; either parenthesis marks one. */
  predicate HasParen(s: string): (b: bool)
    ensures b ==> |s| > 0 && s != Sentinel
  {
    '(' in s || ')' in s
  }

  function StripParens(s: string): (t: string)
    ensures '(' !in t && ')' !in t
  {
    StripFacts(Strip(s, '('), ')');
    Strip(Strip(s, '('), ')')
  }

  /** A text without parentheses loses nothing. */
  lemma StripParensNoop(s: string)
    ensures !HasParen(s) ==> StripParens(s) == s
  {
    StripFacts(s, '(');
    StripFacts(s, ')');
  }

  /**
   * The cell parser: the sentinel reads as 0; a text with a parenthesis reads as
   * the negation of its parenthesis-free numeral; other text reads as a positive
   * numeral; a number is itself (its `String` form read back by `numeral`).
   * `None` is a parse failure (`numeral` yielded null or NaN).
   */
  function ParseFlow(c: Cell): (r: Option<real>)
    ensures c.Num? ==> r == Some(c.n)
    ensures c == Str(Sentinel) ==> r == Some(0.0)
    ensures c.Str? && c.s != Sentinel && !HasParen(c.s) ==> r == NumeralValue(c.s)
  {
    match c
    case Num(n) => Some(n)
    case Str(s) =>
      if s == Sentinel then Some(0.0)
      else
        StripParensNoop(s);
        Scale(if HasParen(s) then -1.0 else 1.0, NumeralValue(StripParens(s)))
  }

  /** `numeral(...).multiply(sign).value()`: a failed read stays failed. */
  function Scale(sign: real, r: Option<real>): (q: Option<real>)
    ensures q.None? <==> r.None?
  {
    match r
    case Some(m) => Some(sign * m)
    case None => None
  }

  /** The sign `1` leaves a reading as it is; the sign `-1` negates it. */
  lemma ScaleBySign(r: Option<real>)
    ensures Scale(1.0, r) == r
    ensures r.Some? ==> Scale(-1.0, r) == Some(-r.value)
  {
  }

  /** `Number(v)` for a property value; `None` stands for NaN (an absent property is `undefined`, hence NaN). */
  function JsNumber(v: Option<Cell>): (r: Option<real>)
    ensures v.None? ==> r.None?
    ensures v.Some? && v.value.Num? ==> r == Some(v.value.n)
    ensures v == Some(Str("")) ==> r == Some(0.0)
  {
    match v
    case None => None
    case Some(Num(n)) => Some(n)
    case Some(Str(s)) => NumberValue(s)
  }

  /** `cleanFlow`: the value `Number` gives, or 0 where that is NaN. */
  function CleanFlow(raw: Option<Cell>): (x: real)
    ensures JsNumber(raw) == Some(x) || (JsNumber(raw).None? && x == 0.0)
  {
    match JsNumber(raw)
    case Some(x) => x
    case None => 0.0
  }

  /** The sentinel is a successful read of no flow. */
  lemma ReadSentinel()
    ensures ParseFlow(Str(Sentinel)) == Some(0.0)
  {
  }

  /** A grouped figure without parentheses reads as the positive amount it was written from. */
  lemma ReadInflow(n: nat)
    ensures ParseFlow(Str(FormatThousands(n))) == Some(n as real)
  {
    GroupedParenFree(n);
    ReadGroupedNumeral(n);
  }

  /** A grouped figure in parentheses, the table's outflow notation, reads as the negated amount. */
  lemma ReadOutflow(n: nat)
    ensures ParseFlow(Str("(" + FormatThousands(n) + ")")) == Some(-(n as real))
  {
    GroupedParenFree(n);
    ReadGroupedNumeral(n);
    ReadNegated(FormatThousands(n), n as real);
  }

  /** A grouped figure with a fraction, such as `1,234.5`, reads as its positive amount. */
  lemma ReadInflowDecimal(n: nat, f: string)
    requires AllDigits(f)
    ensures ParseFlow(Str(FormatThousands(n) + "." + f)) == Some(n as real + Fraction(f))
  {
    var s := FormatThousands(n) + "." + f;
    DecimalParenFree(n, f);
    assert s != Sentinel by { assert |s| >= 2; }
    ReadGroupedDecimal(n, f);
  }

  /** The same figure in parentheses, such as `(1,234.5)`, reads as the negated amount. */
  lemma ReadOutflowDecimal(n: nat, f: string, amount: real)
    requires AllDigits(f) && amount == n as real + Fraction(f)
    ensures ParseFlow(Str("(" + (FormatThousands(n) + "." + f) + ")")) == Some(-amount)
  {
    NegatedDecimal(FormatThousands(n) + "." + f, n, f, amount);
  }

  lemma NegatedDecimal(body: string, n: nat, f: string, amount: real)
    requires AllDigits(f) && body == FormatThousands(n) + "." + f && amount == n as real + Fraction(f)
    ensures ParseFlow(Str("(" + body + ")")) == Some(-amount)
  {
    PlainDecimal(n, f);
    ReadNegated(body, amount);
  }

  /** A grouped figure with a fraction holds no parenthesis and reads as its amount. */
  lemma PlainDecimal(n: nat, f: string)
    requires AllDigits(f)
    ensures !HasParen(FormatThousands(n) + "." + f)
    ensures NumeralValue(FormatThousands(n) + "." + f) == Some(n as real + Fraction(f))
  {
    DecimalParenFree(n, f);
    ReadGroupedDecimal(n, f);
  }

  /** A parenthesis-free numeral of value `v`, once wrapped in parentheses, reads as `-v`. */
  lemma ReadNegated(body: string, v: real)
    requires !HasParen(body) && NumeralValue(body) == Some(v)
    ensures ParseFlow(Str("(" + body + ")")) == Some(-v)
  {
    Unwrap(body);
    ReadWrappedValue("(" + body + ")", v);
  }

  lemma ReadWrappedValue(s: string, v: real)
    requires |s| > 0 && s[0] == '(' && NumeralValue(StripParens(s)) == Some(v)
    ensures ParseFlow(Str(s)) == Some(-v)
  {
    OpensWithParen(s);
    ReadWrapped(s);
  }

  /** A grouped figure with a fraction holds no parenthesis. */
  lemma DecimalParenFree(n: nat, f: string)
    requires AllDigits(f)
    ensures !HasParen(FormatThousands(n) + "." + f)
  {
    var g := FormatThousands(n);
    var s := g + "." + f;
    GroupedParenFree(n);
    forall i | 0 <= i < |s| ensures s[i] != '(' && s[i] != ')' {
      if i < |g| {
        assert s[i] == g[i];
      } else if i > |g| {
        assert s[i] == f[i - |g| - 1];
      }
    }
  }

  /** A grouped figure holds digits and commas only, so no parenthesis. */
  lemma GroupedParenFree(n: nat)
    ensures !HasParen(FormatThousands(n))
  {
    var g := FormatThousands(n);
    GroupedChars(n);
    forall i | 0 <= i < |g| ensures g[i] != '(' && g[i] != ')' {
      assert IsDigit(g[i]) || g[i] == ',';
    }
  }

  /** The example of an outflow cell, `(1.5)`. */
  lemma ReadOutflowExample()
    ensures ParseFlow(Str("(1.5)")) == Some(-1.5)
  {
    assert "(1.5)" == "(" + "1.5" + ")";
    Unwrap("1.5");
    ReadSmallDecimalExample();
    ReadWrapped("(1.5)");
  }

  /** A single closing parenthesis, as in `50)`, is enough to mark an outflow. */
  lemma ReadTrailingParenExample()
    ensures ParseFlow(Str("50)")) == Some(-50.0)
  {
    assert StripParens("50)") == "50";
    assert FormatNat(50) == "50";
    ReadPlainNumeral(50);
    ReadWrapped("50)");
  }

  /** Removing the parentheses around a parenthesis-free text gives the text back. */
  lemma Unwrap(body: string)
    requires '(' !in body && ')' !in body
    ensures StripParens("(" + body + ")") == body
  {
    var s := "(" + body + ")";
    StripAppend("(", body + ")", '(');
    assert s == "(" + (body + ")");
    assert Strip("(", '(') == "";
    StripAppend(body, ")", '(');
    StripFacts(body, '(');
    StripFacts(body, ')');
    assert Strip(")", '(') == ")";
    assert Strip(s, '(') == body + ")";
    StripAppend(body, ")", ')');
    assert Strip(")", ')') == "";
  }

  /** A text holding either parenthesis anywhere reads as the negation of what `numeral` reads once every parenthesis is gone. */
  lemma ReadWrapped(s: string)
    requires HasParen(s)
    ensures ParseFlow(Str(s)) == Scale(-1.0, NumeralValue(StripParens(s)))
  {
  }

  lemma OpensWithParen(s: string)
    requires |s| > 0 && s[0] == '('
    ensures HasParen(s)
  {
  }

  /** A cell that already holds a number is stored as that number. */
  lemma CleanFlowOfNumber(x: real)
    ensures CleanFlow(Some(Num(x))) == x
  {
  }

  /** `cleanFlow` is idempotent: coercing the number it returned gives that number back. */
  lemma CleanFlowIdempotent(raw: Option<Cell>)
    ensures CleanFlow(Some(Num(CleanFlow(raw)))) == CleanFlow(raw)
  {
  }

  /**
   * On a plain figure (no comma, no parenthesis, not the sentinel) the two boundaries
   * agree: whatever the cell parser reads, `cleanFlow` stores. So a value the
   * normaliser left unparsed (a ticker's first appearance) is still stored as its amount.
   */
  lemma CleanFlowAgreesOnPlainFigures(s: string)
    requires ',' !in s && !HasParen(s) && s != Sentinel
    requires ParseFlow(Str(s)).Some?
    ensures CleanFlow(Some(Str(s))) == ParseFlow(Str(s)).value
  {
    StripParensNoop(s);
    NumberAgreesWithNumeral(s);
  }

  /**
   * The cases the two boundaries treat differently: a comma-grouped figure, an
   * outflow in parentheses and the sentinel are numbers to the cell parser but NaN
   * to `Number`, so `cleanFlow` stores 0 for them if they reach it unparsed; so it
   * does for an absent property.
   */
  lemma CleanFlowZeroes(s: string)
    requires ',' in s || HasParen(s) || s == Sentinel
    ensures CleanFlow(Some(Str(s))) == 0.0
    ensures CleanFlow(None) == 0.0
  {
    if s == Sentinel {
      NumberRejectsDash();
    } else if ',' in s {
      NumberRejectsStray(s, ',');
    } else if '(' in s {
      NumberRejectsStray(s, '(');
    } else {
      NumberRejectsStray(s, ')');
    }
  }
}
