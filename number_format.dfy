/**
 * `formatNumber`: `${number.toFixed(2)}%`.  A chance is modelled as a whole
 * number of hundredths of a percent, so `toFixed(2)` is exact: the integer
 * part in decimal, a point, and exactly two digits.
 */
module NumberFormat {
  import opened Wrappers
  import Ascii

  function DigitChar(d: nat): (c: char)
    requires d < 10
    ensures Ascii.IsDigit(c)
  {
    (48 + d) as char
  }

  function DigitValue(c: char): (d: nat)
    requires Ascii.IsDigit(c)
    ensures d < 10
  {
    c as int - 48
  }

  predicate AllDigits(s: string)
  {
    forall i :: 0 <= i < |s| ==> Ascii.IsDigit(s[i])
  }

  /** `n` in decimal, without leading zeros. */
  function Decimal(n: nat): (r: string)
    ensures |r| >= 1 && AllDigits(r)
    ensures |r| > 1 ==> r[0] != '0'
  {
    if n < 10 then [DigitChar(n)] else Decimal(n / 10) + [DigitChar(n % 10)]
  }

  /** The number a string of decimal digits denotes. */
  function DigitsValue(s: string): nat
    requires AllDigits(s)
  {
    if s == [] then 0 else DigitsValue(s[..|s| - 1]) * 10 + DigitValue(s[|s| - 1])
  }

  /** Reading back the decimal digits of `n` gives `n`. */
  lemma {:induction false} DecimalValue(n: nat)
    ensures DigitsValue(Decimal(n)) == n
  {
    if n >= 10 {
      DecimalValue(n / 10);
      var r := Decimal(n);
      assert r[..|r| - 1] == Decimal(n / 10);
    }
  }

  /** The two digits after the point. */
  function Cents(m: nat): string
  {
    [DigitChar(m % 100 / 10), DigitChar(m % 10)]
  }

  /** `formatNumber(h / 100)` for a chance of `h` hundredths of a percent. */
  function FormatChance(h: int): string
  {
    var m := if h < 0 then -h else h;
    (if h < 0 then "-" else "") + Decimal(m / 100) + "." + Cents(m) + "%"
  }

  /** Reads a formatted percentage back; the inverse of `FormatChance`. */
  function ParseChance(s: string): Option<int>
  {
    if |s| < 5 || s[|s| - 1] != '%' || s[|s| - 4] != '.' then None
    else
      var negative := s[0] == '-';
      var whole := if negative then s[1..|s| - 4] else s[..|s| - 4];
      var cents := s[|s| - 3..|s| - 1];
      if whole == [] || !AllDigits(whole) || !AllDigits(cents) then None
      else
        var m := DigitsValue(whole) * 100 + DigitsValue(cents);
        Some(if negative then -m else m)
  }

  lemma CentsValue(m: nat)
    ensures AllDigits(Cents(m)) && DigitsValue(Cents(m)) == m % 100
  {
    var c := Cents(m);
    assert c[..1] == [DigitChar(m % 100 / 10)];
    assert c[..1][..0] == [];
    assert DigitsValue(c[..1]) == m % 100 / 10;
    assert m % 10 == m % 100 % 10;
  }

  /** Where the parts of a formatted chance sit. */
  lemma Layout(sign: string, whole: string, cents: string)
    requires |cents| == 2
    ensures var s := sign + whole + "." + cents + "%";
      |s| == |sign| + |whole| + 4 && s[|s| - 1] == '%' && s[|s| - 4] == '.' &&
      s[|s| - 3..|s| - 1] == cents && s[|sign|..|s| - 4] == whole &&
      (|sign| > 0 ==> s[0] == sign[0]) && (|sign| == 0 && |whole| > 0 ==> s[0] == whole[0])
  {
    var s := sign + whole + "." + cents + "%";
    assert s[|sign|..|s| - 4] == whole;
  }

  lemma ParseFormatted(sign: string, m: nat)
    requires sign == "" || sign == "-"
    ensures ParseChance(sign + Decimal(m / 100) + "." + Cents(m) + "%") ==
      Some(if sign == "-" then -(m as int) else m as int)
  {
    var whole := Decimal(m / 100);
    Layout(sign, whole, Cents(m));
    DecimalValue(m / 100);
    CentsValue(m);
  }

  /** `FormatChance` loses nothing: parsing its output gives the chance back. */
  lemma ParseFormat(h: int)
    ensures ParseChance(FormatChance(h)) == Some(h)
  {
    if h < 0 {
      ParseFormatted("-", -h);
    } else {
      ParseFormatted("", h);
      assert "" + Decimal(h / 100) == Decimal(h / 100);
    }
  }

  /** A formatted chance is a percentage with two decimals and no markup. */
  lemma FormatChanceShape(h: int)
    ensures var r := FormatChance(h);
      |r| >= 5 && r[|r| - 1] == '%' && r[|r| - 4] == '.' && '?' !in r && '<' !in r && '&' !in r
  {
    var m := if h < 0 then -h else h;
    var r := FormatChance(h);
    var whole := Decimal(m / 100);
    assert r == (if h < 0 then "-" else "") + whole + "." + Cents(m) + "%";
    forall i | 0 <= i < |r|
      ensures r[i] != '?' && r[i] != '<' && r[i] != '&'
    {
      var k := |r| - |whole| - 4;
      if k <= i < k + |whole| {
        assert r[i] == whole[i - k];
      }
    }
  }

  /** The examples of `formatNumber`: 42, 0 and 99.5. */
  lemma FormatExamples()
    ensures FormatChance(4200) == "42.00%"
    ensures FormatChance(0) == "0.00%"
    ensures FormatChance(9950) == "99.50%"
  {
    assert Decimal(42) == "42" by { assert Decimal(4) == "4"; }
    assert Decimal(99) == "99" by { assert Decimal(9) == "9"; }
    assert Decimal(0) == "0";
    assert Cents(4200) == "00" && Cents(0) == "00" && Cents(9950) == "50";
  }
}
