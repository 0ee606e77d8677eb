/**
 USDC amounts as base units and as text (backend/affiliates/usdc_conversion.py). A Decimal
 is a real number here; one USDC is a million base units.
 */
module UsdcText {
  import opened Wrappers
  import opened Numerals

  const UNIT: nat := 1_000_000
  const USDC_DECIMALS: nat := 6

  function Pow10(n: nat): (p: nat)
    ensures p > 0
  {
    if n == 0 then 1 else 10 * Pow10(n - 1)
  }

  /** Base units of an amount: negative amounts count as zero, fractions of a unit are dropped. */
  function Micros(amount: real): nat {
    if amount < 0.0 then 0 else (amount * UNIT as real).Floor
  }

  /** The base units of a non-negative amount are as many as fit in it. */
  lemma MicrosRoundsDown(amount: real)
    requires amount >= 0.0
    ensures Usdc(Micros(amount)) <= amount < Usdc(Micros(amount) + 1)
  {
    var scaled := amount * UNIT as real;
    assert scaled.Floor as real <= scaled < (scaled.Floor + 1) as real;
  }

  /** The amount that so many base units stand for. */
  function Usdc(units: nat): real {
    units as real / UNIT as real
  }

  // ----- printing --------------------------------------------------------------------------

  /** n in exactly `width` digits. */
  function Padded(n: nat, width: nat): string {
    if width == 0 then "" else Padded(n / 10, width - 1) + [DigitChar(n % 10)]
  }

  /** The amount with six fractional digits and `more` zeros after them. */
  function Fixed(units: nat, more: nat): string {
    Digits(units / UNIT) + ("." + (Padded(units % UNIT, USDC_DECIMALS) + Padded(0, more)))
  }

  /** `convert_usd_to_usdc`: 18 digits, 6 digits, base units */
  function ConvertUsdToUsdc(amount: real): (string, string, nat) {
    var units := Micros(amount);
    (Fixed(units, 12), Fixed(units, 0), units)
  }

  // ----- reading ---------------------------------------------------------------------------

  /** The value of a whole and a fractional part. */
  function Value(whole: string, frac: string): real
    requires AllDigits(whole) && AllDigits(frac)
  {
    ValueOf(whole + frac) as real / Pow10(|frac|) as real
  }

  /** `Decimal(text)` for digits with an optional point and no sign. */
  function ReadUnsigned(text: string): Option<real> {
    var d := DigitSpan(text);
    if d == |text| then
      if text == "" then None else Some(Value(text, ""))
    else if text[d] == '.' && AllDigits(text[d + 1..]) && |text| > 1 then Some(Value(text[..d], text[d + 1..]))
    else None
  }

  /** The same with an optional sign. */
  function ReadPlain(text: string): Option<real> {
    if text != "" && text[0] == '-' then
      match ReadUnsigned(text[1..])
      case Some(x) => Some(-x)
      case None => None
    else if text != "" && text[0] == '+' then ReadUnsigned(text[1..])
    else ReadUnsigned(text)
  }

  /** `Decimal(text)`, where `other` reads whatever is not a plain decimal: exponents, infinities, rubbish. */
  function ReadDecimal(text: string, other: string -> Option<real>): Option<real> {
    var plain := ReadPlain(text);
    if plain.Some? then plain else other(text)
  }

  // ----- printing and reading ---------------------------------------------------------------

  lemma {:induction false} PaddedDigits(n: nat, width: nat)
    requires n < Pow10(width)
    ensures |Padded(n, width)| == width && AllDigits(Padded(n, width)) && ValueOf(Padded(n, width)) == n
  {
    if width > 0 {
      var front := Padded(n / 10, width - 1);
      PaddedDigits(n / 10, width - 1);
      assert (front + [DigitChar(n % 10)])[..|front|] == front;
    }
  }

  lemma {:induction false} ValueOfAppend(a: string, b: string)
    requires AllDigits(a) && AllDigits(b)
    ensures AllDigits(a + b) && ValueOf(a + b) == ValueOf(a) * Pow10(|b|) + ValueOf(b)
  {
    if b == "" {
      assert a + b == a;
    } else {
      var front, last := b[..|b| - 1], b[|b| - 1];
      ValueOfAppend(a, front);
      assert b == front + [last] && a + b == (a + front) + [last];
      ValueOfLast(front, last);
      ValueOfLast(a + front, last);
      TimesTen(ValueOf(a), Pow10(|front|));
    }
  }

  lemma ValueOfLast(front: string, last: char)
    requires AllDigits(front) && IsDigit(last)
    ensures ValueOf(front + [last]) == ValueOf(front) * 10 + DigitValue(last)
  {
    assert (front + [last])[..|front|] == front;
  }

  lemma TimesTen(x: nat, p: nat)
    ensures x * p * 10 == x * (10 * p)
  {
  }

  lemma Pow10Six()
    ensures Pow10(USDC_DECIMALS) == UNIT
  {
    assert Pow10(3) == 1000;
  }

  lemma {:induction false} Pow10Add(m: nat, n: nat)
    ensures Pow10(m + n) == Pow10(m) * Pow10(n)
  {
    if m > 0 {
      Pow10Add(m - 1, n);
    }
  }

  /** The fractional digits of the printed amount. */
  lemma FractionValue(units: nat, more: nat)
    ensures var frac := Padded(units % UNIT, USDC_DECIMALS) + Padded(0, more);
      && AllDigits(frac) && |frac| == USDC_DECIMALS + more
      && ValueOf(frac) == (units % UNIT) * Pow10(more)
  {
    Pow10Six();
    PaddedDigits(units % UNIT, USDC_DECIMALS);
    PaddedDigits(0, more);
    ValueOfAppend(Padded(units % UNIT, USDC_DECIMALS), Padded(0, more));
  }

  lemma FixedValue(units: nat, more: nat)
    ensures var whole, frac := Digits(units / UNIT), Padded(units % UNIT, USDC_DECIMALS) + Padded(0, more);
      AllDigits(whole) && AllDigits(frac) && Value(whole, frac) == Usdc(units)
  {
    var whole, frac := Digits(units / UNIT), Padded(units % UNIT, USDC_DECIMALS) + Padded(0, more);
    DigitsRoundTrip(units / UNIT);
    FractionValue(units, more);
    ValueOfAppend(whole, frac);
    Pow10Six();
    Pow10Add(USDC_DECIMALS, more);
    Scaled(units, Pow10(more));
  }

  lemma Scaled(units: nat, p: nat)
    requires p > 0
    ensures (units / UNIT * (UNIT * p) + units % UNIT * p) as real / (UNIT * p) as real == Usdc(units)
  {
    assert units / UNIT * (UNIT * p) + units % UNIT * p == units * p by {
      assert units == units / UNIT * UNIT + units % UNIT;
    }
    Cancel(units as real, UNIT as real, p as real);
    assert (units * p) as real == units as real * p as real;
    assert (UNIT * p) as real == UNIT as real * p as real;
  }

  lemma Cancel(x: real, u: real, p: real)
    requires u > 0.0 && p > 0.0
    ensures u * p > 0.0 && (x * p) / (u * p) == x / u
  {
    assert x / u * (u * p) == x * p;
  }

  lemma ReadParts(whole: string, frac: string)
    requires whole != "" && AllDigits(whole) && AllDigits(frac)
    ensures ReadPlain(whole + ("." + frac)) == Some(Value(whole, frac))
  {
    var rest := "." + frac;
    SpanOfDigits(whole, rest);
    assert rest[1..] == frac;
    assert (whole + rest)[..|whole|] == whole && (whole + rest)[|whole|..] == rest;
    assert (whole + rest)[|whole| + 1..] == rest[1..];
    assert (whole + rest)[0] == whole[0];
  }

  /** A printed amount reads back as exactly the amount printed, with six digits or with eighteen. */
  lemma ReadFixed(units: nat, more: nat, other: string -> Option<real>)
    ensures ReadDecimal(Fixed(units, more), other) == Some(Usdc(units))
  {
    FixedValue(units, more);
    DigitsRoundTrip(units / UNIT);
    ReadParts(Digits(units / UNIT), Padded(units % UNIT, USDC_DECIMALS) + Padded(0, more));
  }

  /** No base unit is lost or gained between the ledger's amount and what the stored text reads as. */
  lemma MicrosOfText(amount: real, more: nat, other: string -> Option<real>)
    ensures ReadDecimal(Fixed(Micros(amount), more), other) == Some(Usdc(Micros(amount)))
    ensures Micros(Usdc(Micros(amount))) == Micros(amount)
  {
    ReadFixed(Micros(amount), more, other);
    MicrosOfUsdc(Micros(amount));
  }

  lemma MicrosOfUsdc(units: nat)
    ensures Usdc(units) >= 0.0 && Usdc(units) * UNIT as real == units as real && Micros(Usdc(units)) == units
  {
  }

  // ----- both forms, and what else reads ----------------------------------------------------

  /** So many digits behind the point. */
  predicate HasFraction(text: string, n: nat) {
    |text| > n + 1 && text[|text| - n - 1] == '.' && AllDigits(text[..|text| - n - 1]) && AllDigits(text[|text| - n..])
  }

  lemma FixedHasFraction(units: nat, more: nat)
    ensures HasFraction(Fixed(units, more), USDC_DECIMALS + more)
  {
    var whole, frac := Digits(units / UNIT), Padded(units % UNIT, USDC_DECIMALS) + Padded(0, more);
    DigitsRoundTrip(units / UNIT);
    FractionValue(units, more);
    var text := Fixed(units, more);
    assert text == whole + ("." + frac);
    assert text[..|whole|] == whole && text[|whole| + 1..] == frac;
  }

  /** An amount with eighteen digits and with six behind the point, both worth its base units. */
  lemma ConvertMeans(amount: real, other: string -> Option<real>)
    ensures var r := ConvertUsdToUsdc(amount);
      && HasFraction(r.0, 18) && HasFraction(r.1, 6) && r.2 == Micros(amount)
      && ReadDecimal(r.0, other) == ReadDecimal(r.1, other) == Some(Usdc(r.2))
  {
    FixedHasFraction(Micros(amount), 12);
    FixedHasFraction(Micros(amount), 0);
    ReadFixed(Micros(amount), 12, other);
    ReadFixed(Micros(amount), 0, other);
  }

  lemma SpanIs(text: string, d: nat)
    requires d <= |text| && AllDigits(text[..d]) && (d < |text| ==> !IsDigit(text[d]))
    ensures DigitSpan(text) == d
  {
    var span := DigitSpan(text);
    assert forall k | 0 <= k < d :: text[k] == text[..d][k];
    assert forall k | 0 <= k < span :: text[k] == text[..span][k];
  }

  /** Digits read as their value. */
  lemma WholeReads(text: string)
    requires text != "" && AllDigits(text)
    ensures ReadUnsigned(text) == Some(ValueOf(text) as real)
  {
    assert text[..|text|] == text && text + "" == text;
    SpanIs(text, |text|);
  }

  /** Digits, a point and digits read as their value, but for the point alone. */
  lemma PointReads(whole: string, frac: string)
    requires AllDigits(whole) && AllDigits(frac)
    ensures ReadUnsigned(whole + ("." + frac)) == if whole + frac == "" then None else Some(Value(whole, frac))
  {
    var text, d := whole + ("." + frac), |whole|;
    assert text[..d] == whole && text[d] == '.' && text[d + 1..] == frac;
    SpanIs(text, d);
  }

  /** Nothing else reads without a sign. */
  lemma NothingElseReads(text: string) returns (d: nat)
    requires ReadUnsigned(text).Some?
    ensures text != "" && text != "." && d <= |text| && AllDigits(text[..d])
    ensures d < |text| ==> text[d] == '.' && AllDigits(text[d + 1..])
  {
    d := DigitSpan(text);
  }

  /** A sign in front turns the value round or leaves it. */
  lemma SignReads(text: string)
    ensures ReadPlain("+" + text) == ReadUnsigned(text)
    ensures ReadPlain("-" + text) == if ReadUnsigned(text).Some? then Some(-ReadUnsigned(text).value) else None
    ensures text == "" || (text[0] != '+' && text[0] != '-') ==> ReadPlain(text) == ReadUnsigned(text)
  {
    assert ("+" + text)[1..] == text && ("-" + text)[1..] == text;
  }

  /** Only what does not read is left to the rest of `Decimal`. */
  lemma PlainComesFirst(text: string, other: string -> Option<real>)
    ensures ReadPlain(text).Some? ==> ReadDecimal(text, other) == ReadPlain(text)
    ensures ReadPlain(text).None? ==> ReadDecimal(text, other) == other(text)
  {
  }
}
