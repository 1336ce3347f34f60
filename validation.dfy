/** The server's format checks (acctNumberIsValid, acctPinIsValid, amountIsValid,
    as_numeric) and the text Python prints for a balance. Amounts are exact decimals;
    balances are integer cents. */
module Validation {
  import opened Wrappers
  import opened Text

  /** `acctNumberIsValid`: length 8, '-' at index 2, `[:2]` alphabetic, `[3:8]` digits. */
  predicate AcctNumberIsValid(s: string)
  {
    |s| == 8 && s[2] == '-' && IsAlpha(s[..2]) && IsDigits(s[3..8])
  }

  /** `acctPinIsValid`: a four-character string of digits. */
  predicate AcctPinIsValid(pin: string)
  {
    |pin| == 4 && IsDigits(pin)
  }

  /** The shape AA-NNNNN, character by character. */
  lemma AcctNumberShape(s: string)
    ensures AcctNumberIsValid(s) <==>
      |s| == 8 && IsLetter(s[0]) && IsLetter(s[1]) && s[2] == '-' &&
      forall i | 3 <= i < 8 :: IsDigit(s[i])
  {
    if |s| == 8 {
      assert forall i | 0 <= i < 2 :: s[..2][i] == s[i];
      assert forall i | 0 <= i < 5 :: s[3..8][i] == s[i + 3];
    }
  }

  /** An exact decimal number: units / 10^places. This is the value `float()` is given;
      the binary rounding of a Python float is not modelled. */
  datatype Decimal = Decimal(units: int, places: nat)

  /** `round(x, 2) == x`: the value is a whole number of cents, that is, every digit
      past the second decimal place is zero. */
  predicate HasCents(d: Decimal)
    decreases d.places
  {
    d.places <= 2 || (d.units % 10 == 0 && HasCents(Decimal(d.units / 10, d.places - 1)))
  }

  /** The value in cents of a decimal that is a whole number of cents. */
  function Cents(d: Decimal): int
    requires HasCents(d)
    decreases d.places
  {
    if d.places == 0 then d.units * 100
    else if d.places == 1 then d.units * 10
    else if d.places == 2 then d.units
    else Cents(Decimal(d.units / 10, d.places - 1))
  }

  /** `amountIsValid` on a number: at most two decimal places and not negative.
      (Passing it None, which `as_numeric` returns for a non-number, raises TypeError;
      the callers model that as a crash.) */
  predicate AmountIsValid(d: Decimal)
  {
    HasCents(d) && d.units >= 0
  }

  function Pow10(n: nat): (p: nat)
    ensures p >= 1
  {
    if n == 0 then 1 else 10 * Pow10(n - 1)
  }

  /** A decimal with cents is worth exactly Cents(d) hundredths: Cents(d) / 100 equals
      units / 10^places. */
  lemma {:induction false} CentsValue(d: Decimal)
    requires HasCents(d)
    ensures Cents(d) * Pow10(d.places) == d.units * 100
    decreases d.places
  {
    if d.places == 1 {
      assert Pow10(1) == 10;
    } else if d.places == 2 {
      assert Pow10(2) == 100;
    } else if d.places > 2 {
      var e := Decimal(d.units / 10, d.places - 1);
      CentsValue(e);
      assert d.units == d.units / 10 * 10;
      calc {
        Cents(d) * Pow10(d.places);
        Cents(e) * (10 * Pow10(d.places - 1));
        { assert Cents(e) * (10 * Pow10(d.places - 1)) == 10 * (Cents(e) * Pow10(d.places - 1)); }
        10 * (d.units / 10 * 100);
        d.units * 100;
      }
    }
  }

  /** A valid amount is a non-negative whole number of cents, worth exactly its value. */
  lemma {:induction false} ValidAmountCents(d: Decimal)
    requires AmountIsValid(d)
    ensures Cents(d) >= 0
    ensures Cents(d) * Pow10(d.places) == d.units * 100
    decreases d.places
  {
    CentsValue(d);
    if d.places > 2 {
      ValidAmountCents(Decimal(d.units / 10, d.places - 1));
    }
  }

  /** `as_numeric` (that is, `float(s)`) for decimal literals: surrounding whitespace,
      an optional sign, digits with at most one decimal point and at least one digit.
      None stands for the ValueError that `as_numeric` turns into None. */
  function AsNumeric(s: string): Option<Decimal>
  {
    ParseSigned(Strip(s))
  }

  /** An optional leading sign, then an unsigned literal. */
  function ParseSigned(t: string): Option<Decimal>
  {
    if t != [] && t[0] == '-' then
      match ParseUnsigned(t[1..])
      case Some(d) => Some(Decimal(-d.units, d.places))
      case None => None
    else if t != [] && t[0] == '+' then ParseUnsigned(t[1..])
    else ParseUnsigned(t)
  }

  /** Digits with at most one decimal point, and at least one digit in all. */
  function ParseUnsigned(body: string): Option<Decimal>
  {
    var parts := Split(body, '.');
    var whole := parts[0];
    var frac := if |parts| >= 2 then parts[1] else "";
    if |parts| <= 2 && AllDigits(whole) && AllDigits(frac) && |whole| + |frac| > 0 then
      Some(Decimal(DigitsValue(whole + frac), |frac|))
    else
      None
  }

  /** What `str()` prints for a non-negative float that holds c cents exactly:
      the whole part, a point, and one or two fraction digits ("150.0", "0.05", "12.5"). */
  function CentsText(c: nat): string
  {
    var f := c % 100;
    NatText(c / 100) + "." +
      (if f == 0 then "0"
       else if f % 10 == 0 then [DigitChar(f / 10)]
       else [DigitChar(f / 10), DigitChar(f % 10)])
  }

  /** `str(balance)` for a balance of c cents. */
  function FloatText(c: int): string
  {
    if c < 0 then "-" + CentsText(-c) else CentsText(c)
  }

  lemma DigitsAppend(x: string, c: char)
    requires AllDigits(x) && IsDigit(c)
    ensures AllDigits(x + [c])
    ensures DigitsValue(x + [c]) == DigitsValue(x) * 10 + DigitValue(c)
  {
    assert (x + [c])[..|x|] == x;
  }

  /** A literal "digits.digits" with a non-empty whole part parses to its exact value. */
  lemma ParsePointLiteral(whole: string, frac: string)
    requires IsDigits(whole) && AllDigits(frac)
    ensures AsNumeric(whole + "." + frac) == Some(Decimal(DigitsValue(whole + frac), |frac|))
  {
    var t := whole + "." + frac;
    PointLiteralUnstripped(whole, frac);
    assert AsNumeric(t) == ParseSigned(t);
    assert t[0] == whole[0];
    assert ParseSigned(t) == ParseUnsigned(t) by { assert IsDigit(t[0]); }
    PointLiteralUnsigned(whole, frac);
  }

  lemma PointLiteralUnsigned(whole: string, frac: string)
    requires IsDigits(whole) && AllDigits(frac)
    ensures ParseUnsigned(whole + "." + frac) == Some(Decimal(DigitsValue(whole + frac), |frac|))
  {
    PointLiteralSplit(whole, frac);
    DigitsConcat(whole, frac);
  }

  lemma DigitsConcat(x: string, y: string)
    requires AllDigits(x) && AllDigits(y)
    ensures AllDigits(x + y)
  {
    forall i | 0 <= i < |x + y| ensures IsDigit((x + y)[i]) {
      if i >= |x| { assert (x + y)[i] == y[i - |x|]; }
    }
  }

  lemma PointLiteralUnstripped(whole: string, frac: string)
    requires IsDigits(whole) && AllDigits(frac)
    ensures Strip(whole + "." + frac) == whole + "." + frac
  {
    var t := whole + "." + frac;
    forall i | 0 <= i < |t| ensures !IsSpace(t[i]) {
      if i < |whole| { assert t[i] == whole[i]; }
      else if i > |whole| { assert t[i] == frac[i - |whole| - 1]; }
    }
    StripNoSpace(t);
  }

  lemma PointLiteralSplit(whole: string, frac: string)
    requires IsDigits(whole) && AllDigits(frac)
    ensures Split(whole + "." + frac, '.') == [whole, frac]
  {
    assert '.' !in whole by {
      forall i | 0 <= i < |whole| ensures whole[i] != '.' { assert IsDigit(whole[i]); }
    }
    assert '.' !in frac by {
      forall i | 0 <= i < |frac| ensures frac[i] != '.' { assert IsDigit(frac[i]); }
    }
    SplitAfter(whole, frac, '.');
    SplitNoSep(frac, '.');
  }

  /** A literal of digits alone parses to that whole number. */
  lemma ParseWholeLiteral(whole: string)
    requires IsDigits(whole)
    ensures AsNumeric(whole) == Some(Decimal(DigitsValue(whole), 0))
  {
    forall i | 0 <= i < |whole| ensures !IsSpace(whole[i]) && whole[i] != '.' {
      assert IsDigit(whole[i]);
    }
    StripNoSpace(whole);
    SplitNoSep(whole, '.');
    assert ParseSigned(whole) == ParseUnsigned(whole) by { assert IsDigit(whole[0]); }
    assert whole + "" == whole;
  }

  /** The text printed for a balance parses back, with `as_numeric`, to a valid amount
      of exactly that many cents. */
  lemma CentsTextParses(c: nat)
    ensures AsNumeric(CentsText(c)).Some?
    ensures AmountIsValid(AsNumeric(CentsText(c)).value)
    ensures Cents(AsNumeric(CentsText(c)).value) == c
  {
    var f := c % 100;
    var whole := NatText(c / 100);
    NatTextValue(c / 100);
    if f == 0 {
      assert CentsText(c) == whole + "." + "0";
      ParseWholeCents(whole, c);
    } else if f % 10 == 0 {
      assert CentsText(c) == whole + "." + [DigitChar(f / 10)];
      ParseTenCents(whole, c);
    } else {
      assert CentsText(c) == whole + "." + [DigitChar(f / 10), DigitChar(f % 10)];
      ParseCents(whole, c);
    }
  }

  lemma ParseWholeCents(whole: string, c: nat)
    requires IsDigits(whole) && DigitsValue(whole) == c / 100 && c % 100 == 0
    ensures var r := AsNumeric(whole + "." + "0");
      r.Some? && AmountIsValid(r.value) && Cents(r.value) == c
  {
    ParsePointLiteral(whole, "0");
    DigitsAppend(whole, '0');
    CentsOfTenths(DigitsValue(whole) * 10, c);
  }

  lemma ParseTenCents(whole: string, c: nat)
    requires IsDigits(whole) && DigitsValue(whole) == c / 100 && c % 10 == 0
    ensures var r := AsNumeric(whole + "." + [DigitChar(c % 100 / 10)]);
      r.Some? && AmountIsValid(r.value) && Cents(r.value) == c
  {
    var d := DigitChar(c % 100 / 10);
    ParsePointLiteral(whole, [d]);
    DigitsAppend(whole, d);
    CentsOfTenths(DigitsValue(whole) * 10 + c % 100 / 10, c);
  }

  lemma ParseCents(whole: string, c: nat)
    requires IsDigits(whole) && DigitsValue(whole) == c / 100
    ensures var r := AsNumeric(whole + "." + [DigitChar(c % 100 / 10), DigitChar(c % 100 % 10)]);
      r.Some? && AmountIsValid(r.value) && Cents(r.value) == c
  {
    var f := c % 100;
    var d1, d2 := DigitChar(f / 10), DigitChar(f % 10);
    ParsePointLiteral(whole, [d1, d2]);
    DigitsAppend(whole, d1);
    DigitsAppend(whole + [d1], d2);
    assert whole + [d1, d2] == whole + [d1] + [d2];
    assert f == f / 10 * 10 + f % 10;
    assert c == c / 100 * 100 + f;
    assert DigitsValue(whole + [d1, d2]) == (c / 100 * 10 + f / 10) * 10 + f % 10;
    assert DigitsValue(whole + [d1, d2]) == c;
    CentsOfHundredths(c);
  }

  lemma CentsOfHundredths(c: nat)
    ensures AmountIsValid(Decimal(c, 2)) && Cents(Decimal(c, 2)) == c
  {
  }

  lemma CentsOfTenths(v: nat, c: nat)
    requires v * 10 == c
    ensures AmountIsValid(Decimal(v, 1)) && Cents(Decimal(v, 1)) == c
  {
  }
}
