/**
 * The textual renderings the controller relies on from the Java runtime:
 * decimal rendering of integers (string concatenation with a `long`) and
 * `java.time.LocalDate.toString`, each with a decoder and a round-trip lemma.
 */
module Text {
  import opened Wrappers

  predicate IsDigit(c: char) { '0' <= c <= '9' }

  predicate AllDigits(s: string) { forall i :: 0 <= i < |s| ==> IsDigit(s[i]) }

  function DigitChar(d: int): (c: char)
    requires 0 <= d < 10
    ensures IsDigit(c)
  {
    ('0' as int + d) as char
  }

  function DigitValue(c: char): (d: int)
    requires IsDigit(c)
    ensures 0 <= d < 10 && DigitChar(d) == c
  {
    c as int - '0' as int
  }

  /** The decimal digits of `n`, most significant first, without leading zeros. */
  function NatToDecimal(n: nat): (s: string)
    ensures |s| >= 1 && AllDigits(s)
    ensures s[0] == '0' ==> n == 0
  {
    if n < 10 then [DigitChar(n)] else NatToDecimal(n / 10) + [DigitChar(n % 10)]
  }

  /** The value of a string of decimal digits. */
  function DecimalValue(s: string): (n: nat)
    requires AllDigits(s)
  {
    if s == [] then 0 else 10 * DecimalValue(s[..|s| - 1]) + DigitValue(s[|s| - 1])
  }

  /** Java's rendering of an `int` or `long`: a minus sign for negatives, then the digits. */
  function IntToDecimal(i: int): (s: string)
    ensures |s| >= 1
    ensures forall k :: 0 <= k < |s| ==> IsDigit(s[k]) || s[k] == '-'
  {
    if i < 0 then "-" + NatToDecimal(-i) else NatToDecimal(i)
  }

  /** Reads back an optionally signed decimal integer. */
  function ParseInt(s: string): Option<int>
  {
    if |s| >= 2 && s[0] == '-' && AllDigits(s[1..]) then Some(0 - DecimalValue(s[1..]) as int)
    else if |s| >= 1 && AllDigits(s) then Some(DecimalValue(s))
    else None
  }

  /** Digits without a leading zero, except the single digit "0". */
  predicate CanonicalDigits(t: string)
  {
    |t| >= 1 && AllDigits(t) && (t[0] == '0' ==> |t| == 1)
  }

  /** The strings Java renders integers as: canonical digits, or '-' and canonical digits of a non-zero value. */
  predicate CanonicalInt(s: string)
  {
    || CanonicalDigits(s)
    || (|s| >= 2 && s[0] == '-' && s[1] != '0' && CanonicalDigits(s[1..]))
  }

  lemma {:induction false} DecimalRoundTrip(n: nat)
    ensures DecimalValue(NatToDecimal(n)) == n
  {
    if n >= 10 {
      DecimalRoundTrip(n / 10);
      var s := NatToDecimal(n);
      assert s[..|s| - 1] == NatToDecimal(n / 10);
    }
  }

  /** The rendering is also injective on canonical digit strings: decoding then rendering is the identity. */
  lemma {:induction false} CanonicalDecimalRoundTrip(s: string)
    requires |s| >= 1 && AllDigits(s) && (s[0] == '0' ==> |s| == 1)
    ensures NatToDecimal(DecimalValue(s)) == s
  {
    if |s| > 1 {
      var p := s[..|s| - 1];
      CanonicalDecimalRoundTrip(p);
      PositiveLeading(p);
      assert DecimalValue(s) / 10 == DecimalValue(p);
      assert DecimalValue(s) % 10 == DigitValue(s[|s| - 1]);
    }
  }

  lemma {:induction false} PositiveLeading(s: string)
    requires |s| >= 1 && AllDigits(s) && s[0] != '0'
    ensures DecimalValue(s) >= 1
  {
    if |s| > 1 {
      PositiveLeading(s[..|s| - 1]);
    }
  }

  lemma IntRoundTrip(i: int)
    ensures ParseInt(IntToDecimal(i)) == Some(i)
  {
    if i < 0 {
      var t := NatToDecimal(-i);
      assert IntToDecimal(i)[1..] == t;
      DecimalRoundTrip(-i);
    } else {
      DecimalRoundTrip(i);
    }
  }

  /** Every rendering of an integer is canonical. */
  lemma IntToDecimalCanonical(i: int)
    ensures CanonicalInt(IntToDecimal(i))
  {
    if i < 0 {
      assert IntToDecimal(i)[1..] == NatToDecimal(-i);
    }
  }

  /** A canonical string is exactly the rendering of the integer it reads as. */
  lemma ParseIntCanonical(s: string)
    requires CanonicalInt(s)
    ensures ParseInt(s).Some? && IntToDecimal(ParseInt(s).value) == s
  {
    if s[0] == '-' {
      var t := s[1..];
      CanonicalDecimalRoundTrip(t);
      PositiveLeading(t);
      assert s == "-" + t;
    } else {
      CanonicalDecimalRoundTrip(s);
    }
  }

  /** The number of decimal digits of a value between 10^(k-1) and 10^k. */
  lemma {:induction false} DecimalLength(n: nat, k: nat)
    requires k >= 1 && Pow10(k - 1) <= n < Pow10(k)
    ensures |NatToDecimal(n)| == k
  {
    if k > 1 {
      DecimalLength(n / 10, k - 1);
    }
  }

  function Pow10(k: nat): (p: nat)
    ensures p >= 1
  {
    if k == 0 then 1 else 10 * Pow10(k - 1)
  }

  /** A calendar date as `java.time.LocalDate` holds it. */
  datatype Date = Date(year: int, month: int, day: int)

  /**
   * The year part of `LocalDate.toString`: four digits, zero-padded, when the
   * absolute year is below 1000; otherwise the digits, with a leading '+' for
   * years after 9999 and a '-' for negative years.
   */
  function YearText(y: int): string
  {
    if -1000 < y < 1000 then
      if y < 0 then "-" + NatToDecimal(10000 - y)[1..] else NatToDecimal(y + 10000)[1..]
    else if y > 9999 then "+" + NatToDecimal(y)
    else IntToDecimal(y)
  }

  /** A month or day field of `LocalDate.toString`: '-' and the value, zero-padded below 10. */
  function FieldText(v: int): string
  {
    (if v < 10 then "-0" else "-") + IntToDecimal(v)
  }

  /** `LocalDate.toString`: ISO-8601 extended local date, "yyyy-MM-dd" for ordinary years. */
  function DateToString(d: Date): string
  {
    YearText(d.year) + FieldText(d.month) + FieldText(d.day)
  }

  lemma TwoDigitField(v: int)
    requires 0 <= v < 100
    ensures var t := FieldText(v);
      |t| == 3 && t[0] == '-' && AllDigits(t[1..]) && DecimalValue(t[1..]) == v
  {
    var t := FieldText(v);
    DecimalRoundTrip(v);
    if v < 10 {
      assert t[1..] == "0" + NatToDecimal(v);
      assert t[1..][..1] == "0";
    } else {
      assert Pow10(1) == 10 && Pow10(2) == 100;
      DecimalLength(v, 2);
      assert t[1..] == NatToDecimal(v);
    }
  }

  /**
   * For four-digit years and two-digit fields the rendering is exactly
   * "yyyy-MM-dd", and each field reads back as the date's component.
   */
  lemma DateTextFields(d: Date)
    requires 1000 <= d.year <= 9999 && 0 <= d.month < 100 && 0 <= d.day < 100
    ensures var s := DateToString(d);
      && |s| == 10 && s[4] == '-' && s[7] == '-'
      && AllDigits(s[..4]) && AllDigits(s[5..7]) && AllDigits(s[8..])
      && DecimalValue(s[..4]) == d.year
      && DecimalValue(s[5..7]) == d.month
      && DecimalValue(s[8..]) == d.day
  {
    var y, m, dd := YearText(d.year), FieldText(d.month), FieldText(d.day);
    assert Pow10(3) == 1000 && Pow10(4) == 10000;
    DecimalLength(d.year, 4);
    DecimalRoundTrip(d.year);
    TwoDigitField(d.month);
    TwoDigitField(d.day);
    var s := DateToString(d);
    assert s == y + m + dd;
    assert s[..4] == y;
    assert s[5..7] == m[1..];
    assert s[8..] == dd[1..];
  }

  /**
   * Reads the fixed-width "yyyy-MM-dd" form back: four digits, '-', two
   * digits, '-', two digits. Anything else is None.
   */
  function ParseDateText(s: string): Option<Date>
  {
    if |s| == 10 && s[4] == '-' && s[7] == '-'
       && AllDigits(s[..4]) && AllDigits(s[5..7]) && AllDigits(s[8..])
    then Some(Date(DecimalValue(s[..4]), DecimalValue(s[5..7]), DecimalValue(s[8..])))
    else None
  }

  /** For four-digit years and two-digit fields, the rendered date reads back as itself. */
  lemma DateRoundTrip(d: Date)
    requires 1000 <= d.year <= 9999 && 0 <= d.month < 100 && 0 <= d.day < 100
    ensures ParseDateText(DateToString(d)) == Some(d)
  {
    DateTextFields(d);
  }

  /** So two such dates with the same rendering are the same date. */
  lemma DateToStringInjective(a: Date, b: Date)
    requires 1000 <= a.year <= 9999 && 0 <= a.month < 100 && 0 <= a.day < 100
    requires 1000 <= b.year <= 9999 && 0 <= b.month < 100 && 0 <= b.day < 100
    requires DateToString(a) == DateToString(b)
    ensures a == b
  {
    DateRoundTrip(a);
    DateRoundTrip(b);
  }
}
