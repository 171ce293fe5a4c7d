/**
 * Money fields: `DecimalField(max_digits=10, decimal_places=2)`, held as a
 * whole number of cents. Covers how a value prints, the field's digit
 * validator, and the `MinValueValidator(0.01)` of the payment tables.
 */
module Money {
  import opened Wrappers
  import opened Text

  /** A two-place decimal amount, in hundredths. */
  type Cents = int

  const MaxDigits: nat := 10
  const DecimalPlaces: nat := 2

  function Abs(c: int): nat {
    if c < 0 then -c else c
  }

  /** `str()` of the stored two-place Decimal: optional '-', the whole part, '.', two fraction digits. */
  function FormatMoney(c: Cents): string {
    (if c < 0 then "-" else "") + UnsignedText(Abs(c))
  }

  /** A non-negative amount: the whole part, '.', and exactly two fraction digits. */
  function UnsignedText(a: nat): string {
    DigitString(a / 100) + "." + [DigitChar(a % 100 / 10), DigitChar(a % 10)]
  }

  /** Reads back a string of the shape FormatMoney prints. */
  function ParseMoney(s: string): Option<Cents> {
    if |s| > 0 && s[0] == '-' then
      match ParseUnsigned(s[1..])
      case Some(v) => var n: int := v; Some(-n)
      case None => None
    else ParseUnsigned(s)
  }

  function ParseUnsigned(s: string): Option<nat> {
    if |s| >= 4 && s[|s| - 3] == '.' && IsDigits(s[..|s| - 3]) && IsDigits(s[|s| - 2..]) then
      Some(100 * ParseDigits(s[..|s| - 3]) + ParseDigits(s[|s| - 2..]))
    else None
  }

  lemma TwoDigits(d1: nat, d2: nat)
    requires d1 < 10 && d2 < 10
    ensures IsDigits([DigitChar(d1), DigitChar(d2)])
    ensures ParseDigits([DigitChar(d1), DigitChar(d2)]) == 10 * d1 + d2
  {
    var t := [DigitChar(d1), DigitChar(d2)];
    assert t[..1] == [DigitChar(d1)];
    assert t[..1][..0] == [];
    assert ParseDigits(t[..1]) == d1;
  }

  lemma UnsignedRoundTrip(a: nat)
    ensures ParseUnsigned(UnsignedText(a)) == Some(a)
  {
    var u := UnsignedText(a);
    var frac := [DigitChar(a % 100 / 10), DigitChar(a % 10)];
    assert u[..|u| - 3] == DigitString(a / 100);
    assert u[|u| - 2..] == frac;
    TwoDigits(a % 100 / 10, a % 10);
    DigitStringRoundTrip(a / 100);
  }

  /** Printing an amount and reading it back gives the amount. */
  lemma MoneyRoundTrip(c: Cents)
    ensures ParseMoney(FormatMoney(c)) == Some(c)
  {
    var u := UnsignedText(Abs(c));
    UnsignedRoundTrip(Abs(c));
    if c < 0 {
      assert FormatMoney(c) == "-" + u;
      assert ("-" + u)[1..] == u;
    } else {
      assert FormatMoney(c) == u;
      assert u[0] != '-';
    }
  }

  predicate IsMoneyChar(ch: char) {
    ch == '-' || ch == '.' || IsDigit(ch)
  }

  lemma FormattedMoneyChars(c: Cents)
    ensures |FormatMoney(c)| >= 4
    ensures forall i | 0 <= i < |FormatMoney(c)| :: IsMoneyChar(FormatMoney(c)[i])
  {
  }

  datatype DecimalError = MaxDigitsExceeded | MaxDecimalPlacesExceeded | MaxWholeDigitsExceeded

  /**
   * Django's DecimalValidator(max_digits, decimal_places) applied to an amount
   * held with exactly two decimal places: the digit tuple of the Decimal is the
   * digits of |c|, its exponent is -2, so it has max(len, 2) digits, two of
   * them decimals. The checks run in the validator's order.
   */
  function DecimalCheck(c: Cents, maxDigits: nat, decimalPlaces: nat): Option<DecimalError> {
    var len := NumDigits(Abs(c));
    var digits := if len < 2 then 2 else len;
    var decimals := 2;
    var wholeDigits := digits - decimals;
    if digits > maxDigits then Some(MaxDigitsExceeded)
    else if decimals > decimalPlaces then Some(MaxDecimalPlacesExceeded)
    else if wholeDigits > maxDigits - decimalPlaces then Some(MaxWholeDigitsExceeded)
    else None
  }

  /** A money field accepts exactly the amounts strictly between -10^8 and 10^8 units. */
  lemma MoneyFieldBounds(c: Cents)
    ensures DecimalCheck(c, MaxDigits, DecimalPlaces).None? <==> -(Pow10(10) as int) < c < Pow10(10)
  {
    NumDigitsBound(Abs(c), 10);
  }

  /*
   * MinValueValidator(0.01): the limit is the Python float literal 0.01, the
   * binary64 value 5764607523034235 / 2^59, which is slightly above 1/100.
   * Python compares a Decimal with a float exactly, and the validator rejects
   * when value < limit.
   */
  const FloatHundredthNumerator: nat := 5764607523034235
  const FloatHundredthDenominator: nat := 576460752303423488

  /** The validator as written rejects c cents when c/100 < 5764607523034235 / 2^59. */
  predicate BelowFloatLimit(c: Cents) {
    c * FloatHundredthDenominator < 100 * FloatHundredthNumerator
  }

  /** As written, the lowest amount the field is meant to accept, 0.01, is refused. */
  lemma OneCentBelowFloatLimit()
    ensures BelowFloatLimit(1)
    ensures !BelowFloatLimit(2)
  {
  }

  /** As written, the accepted amounts start at 0.02. */
  lemma {:induction false} FloatLimitAcceptsFromTwoCents(c: Cents)
    ensures !BelowFloatLimit(c) <==> c >= 2
  {
    if c <= 1 {
      assert c * FloatHundredthDenominator <= FloatHundredthDenominator;
    } else {
      assert c * FloatHundredthDenominator >= 2 * FloatHundredthDenominator;
    }
  }

  /** The evidently intended minimum: value >= 0.01, compared in decimal. */
  predicate MeetsMinimum(c: Cents) {
    c >= 1
  }
}
