/** Decimal text of integers, as `std::ostream << int` writes it in the
    classic locale: an optional '-' followed by the digits, without leading
    zeros and without grouping. */
module Text {

  predicate IsDigit(ch: char) {
    '0' <= ch <= '9'
  }

  function DigitChar(d: int): (ch: char)
    requires 0 <= d < 10
    ensures IsDigit(ch) && ch as int - '0' as int == d
  {
    ('0' as int + d) as char
  }

  function DigitValue(ch: char): int
    requires IsDigit(ch)
  {
    ch as int - '0' as int
  }

  predicate AllDigits(s: string) {
    forall i | 0 <= i < |s| :: IsDigit(s[i])
  }

  /** The decimal digits of a natural number. */
  function NatToString(n: nat): (s: string)
    ensures |s| > 0 && AllDigits(s)
    ensures s[0] == '0' ==> n == 0
    decreases n
  {
    if n < 10 then [DigitChar(n)] else NatToString(n / 10) + [DigitChar(n % 10)]
  }

  /** The number a string of decimal digits denotes. */
  function DecimalValue(s: string): nat
    requires AllDigits(s)
  {
    if s == [] then 0 else DecimalValue(s[..|s| - 1]) * 10 + DigitValue(s[|s| - 1])
  }

  /** Reading the digits back gives the number. */
  lemma {:induction false} NatToStringRoundTrip(n: nat)
    ensures DecimalValue(NatToString(n)) == n
    decreases n
  {
    if n >= 10 {
      var s := NatToString(n);
      assert s[..|s| - 1] == NatToString(n / 10);
      NatToStringRoundTrip(n / 10);
    }
  }

  /** `std::ostream << int`. */
  function IntToString(i: int): string {
    if i < 0 then "-" + NatToString(-i) else NatToString(i)
  }

  /** The text is a '-' exactly for negative numbers, followed by digits
      without a leading zero (except for 0 itself). */
  lemma IntToStringShape(i: int)
    ensures var s := IntToString(i);
      |s| > 0 && ((s[0] == '-') <==> i < 0) &&
      AllDigits(if i < 0 then s[1..] else s) &&
      (var digits := if i < 0 then s[1..] else s; |digits| > 0 && (digits[0] == '0' ==> i == 0))
  {
  }

  /** Text in the shape `IntToString` produces. */
  predicate IsIntegerText(s: string) {
    |s| > 0 && if s[0] == '-' then |s| > 1 && AllDigits(s[1..]) else AllDigits(s)
  }

  function ParseInt(s: string): int
    requires IsIntegerText(s)
  {
    if s[0] == '-' then -(DecimalValue(s[1..]) as int) else DecimalValue(s)
  }

  /** The text of an integer reads back as that integer, so distinct
      integers get distinct texts. */
  lemma IntToStringRoundTrip(i: int)
    ensures IsIntegerText(IntToString(i))
    ensures ParseInt(IntToString(i)) == i
  {
    if i < 0 {
      assert IntToString(i)[1..] == NatToString(-i);
      NatToStringRoundTrip(-i);
    } else {
      NatToStringRoundTrip(i);
    }
  }

  lemma IntToStringInjective(i: int, j: int)
    requires IntToString(i) == IntToString(j)
    ensures i == j
  {
    IntToStringRoundTrip(i);
    IntToStringRoundTrip(j);
  }

  /** The texts of the elements, one after the other, in order; `ctx` is
      what every element's text depends on besides the element. */
  function Join<T, C>(xs: seq<T>, ctx: C, text: (T, C) -> string): string {
    if xs == [] then "" else Join(xs[..|xs| - 1], ctx, text) + text(xs[|xs| - 1], ctx)
  }

  /** Joining a concatenation joins the parts one after the other. */
  lemma {:induction false} JoinConcat<T, C>(xs: seq<T>, ys: seq<T>, ctx: C, text: (T, C) -> string)
    ensures Join(xs + ys, ctx, text) == Join(xs, ctx, text) + Join(ys, ctx, text)
    decreases |ys|
  {
    if ys == [] {
      assert xs + ys == xs;
    } else {
      var ys' := ys[..|ys| - 1];
      assert (xs + ys)[..|xs + ys| - 1] == xs + ys';
      assert (xs + ys)[|xs + ys| - 1] == ys[|ys| - 1];
      JoinConcat(xs, ys', ctx, text);
    }
  }

  lemma AppendAssoc(a: string, b: string, c: string)
    ensures (a + b) + c == a + (b + c)
  {
  }
}
