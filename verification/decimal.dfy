/**
  Decimal text and Rust's `str::parse::<u64>`, which the poll loop applies to the
  token's `expires_in` string every cycle.
 */
module DecimalParse {
  import opened Wrappers

  /** One past the largest value of a Rust `u64`. */
  const U64Limit: nat := 0x1_0000_0000_0000_0000

  predicate IsDigit(c: char) {
    '0' <= c <= '9'
  }

  predicate AllDigits(s: string) {
    forall i :: 0 <= i < |s| ==> IsDigit(s[i])
  }

  function DigitValue(c: char): nat
    requires IsDigit(c)
  {
    c as int - '0' as int
  }

  function DigitChar(d: nat): (c: char)
    requires d < 10
    ensures IsDigit(c) && DigitValue(c) == d
  {
    ('0' as int + d) as char
  }

  /** The number written by a run of decimal digits, most significant first. */
  function DigitsValue(s: string): nat
    requires AllDigits(s)
    decreases |s|
  {
    if |s| == 0 then 0 else DigitsValue(s[..|s| - 1]) * 10 + DigitValue(s[|s| - 1])
  }

  /** The shortest decimal rendering of `n`. */
  function DecimalString(n: nat): (s: string)
    ensures |s| > 0 && AllDigits(s)
    decreases n
  {
    if n < 10 then [DigitChar(n)] else DecimalString(n / 10) + [DigitChar(n % 10)]
  }

  /** What the unsigned parser reads as digits: everything after an optional leading '+'. */
  function UnsignedBody(s: string): string {
    if |s| > 0 && s[0] == '+' then s[1..] else s
  }

  /**
    Rust's `u64::from_str`: the empty string, a lone sign, any non-digit (a '-' included,
    since the type is unsigned) and any value that does not fit in 64 bits are errors.
   */
  function ParseU64(s: string): (r: Option<nat>)
    ensures r.Some? <==>
              |UnsignedBody(s)| > 0 && AllDigits(UnsignedBody(s)) && DigitsValue(UnsignedBody(s)) < U64Limit
    ensures r.Some? ==> r.value == DigitsValue(UnsignedBody(s)) && r.value < U64Limit
  {
    if |s| == 0 then None
    else if (s[0] == '+' || s[0] == '-') && |s| == 1 then None
    else
      var body := UnsignedBody(s);
      if AllDigits(body) && DigitsValue(body) < U64Limit then Some(DigitsValue(body)) else None
  }

  /** Reading back the decimal rendering of a number gives the number. */
  lemma {:induction false} DigitsValueOfDecimal(n: nat)
    ensures DigitsValue(DecimalString(n)) == n
    decreases n
  {
    var s := DecimalString(n);
    if n >= 10 {
      DigitsValueOfDecimal(n / 10);
      assert s[..|s| - 1] == DecimalString(n / 10);
    }
  }

  /** Every `u64`, rendered in decimal with or without a leading '+', parses back to itself. */
  lemma ParseDecimalRoundTrip(n: nat)
    requires n < U64Limit
    ensures ParseU64(DecimalString(n)) == Some(n)
    ensures ParseU64("+" + DecimalString(n)) == Some(n)
  {
    DigitsValueOfDecimal(n);
    assert UnsignedBody("+" + DecimalString(n)) == DecimalString(n);
  }

  /** A number too wide for 64 bits is refused, not wrapped. */
  lemma OverflowRejected(n: nat)
    requires n >= U64Limit
    ensures ParseU64(DecimalString(n)) == None
  {
    DigitsValueOfDecimal(n);
  }

  /** Whatever follows it, a leading '-' makes the unsigned parse fail. */
  lemma NegativeRejected(s: string)
    requires |s| > 0 && s[0] == '-'
    ensures ParseU64(s) == None
  {
    assert !IsDigit(UnsignedBody(s)[0]);
  }

  /** Concrete readings of the strings the loop meets: the initial "0", a typical lifetime, and bad input. */
  lemma ParseExamples()
    ensures ParseU64("0") == Some(0)
    ensures ParseU64("3600") == Some(3600)
    ensures ParseU64("") == None
    ensures ParseU64("+") == None
    ensures ParseU64("36s") == None
  {
    assert DigitsValue("36") == 36 by {
      assert "36"[..1] == "3";
    }
    assert DigitsValue("3600") == 3600 by {
      assert "3600"[..3] == "360";
      assert "360"[..2] == "36";
      assert "36"[..1] == "3";
    }
    assert !IsDigit("36s"[2]);
  }
}
