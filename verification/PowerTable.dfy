/** The subtractive digit loops driven by the table of powers of ten. */
module PowerTable {
  import opened Numerals

  const IPOW10: seq<nat> := [
    1,
    10,
    100,
    1000,
    10000,
    100000,
    1000000,
    10000000,
    100000000,
    1000000000,
    10000000000,
    100000000000,
    1000000000000,
    10000000000000,
    100000000000000,
    1000000000000000,
    10000000000000000,
    100000000000000000,
    1000000000000000000,
    10000000000000000000
  ]

  lemma {:induction false} TableIsPowers(i: nat)
    requires i < |IPOW10|
    ensures IPOW10[i] == Pow(10, i)
  {
    if i == 0 {
    } else {
      TableIsPowers(i - 1);
      assert IPOW10[i] == 10 * IPOW10[i - 1];
    }
  }

  /** The len low decimal digits of u, leading zeros included. */
  function Fixed(u: nat, len: nat): (s: string)
    ensures |s| == len
  {
    if len == 0 then "" else Fixed(u / 10, len - 1) + [DigitChar(u % 10, false)]
  }

  /** Splitting off the most significant digit. */
  lemma {:induction false} FixedHead(q: nat, r: nat, len: nat)
    requires q < 10 && r < Pow(10, len)
    ensures Fixed(q * Pow(10, len) + r, len + 1) == [DigitChar(q, false)] + Fixed(r, len)
  {
    var u := q * Pow(10, len) + r;
    if len == 0 {
      assert u == q;
      assert Fixed(u / 10, 0) == "";
    } else {
      var p := Pow(10, len - 1);
      assert q * Pow(10, len) == 10 * (q * p);
      assert u / 10 == q * p + r / 10 && u % 10 == r % 10;
      FixedHead(q, r / 10, len - 1);
      assert Fixed(r, len) == Fixed(r / 10, len - 1) + [DigitChar(r % 10, false)];
    }
  }

  /** Without leading zeros this is the ordinary numeral. */
  lemma {:induction false} FixedIsNumeral(u: nat, len: nat)
    requires |Numeral(u, 10, false)| == len
    ensures Fixed(u, len) == Numeral(u, 10, false)
  {
    if u == 0 {
    } else {
      DivFacts(u, 10);
      FixedIsNumeral(u / 10, len - 1);
    }
  }

  /** Decimal text as the conversion prints it: one digit for zero. */
  function DecimalNumber(u: nat): string
  {
    if u == 0 then "0" else Numeral(u, 10, false)
  }

  lemma LeastLength(u: nat, len: nat)
    requires 1 <= len && u < Pow(10, len) && (len == 1 || Pow(10, len - 1) <= u)
    ensures Fixed(u, len) == DecimalNumber(u)
    ensures forall k: nat {:trigger Pow(10, k)} :: 1 <= k && u < Pow(10, k) ==> len <= k
  {
    forall k: nat | 1 <= k && u < Pow(10, k)
      ensures len <= k
    {
      if k < len {
        PowMonotone(10, k, len - 1);
      }
    }
    PowPositive(10, len - 1);
    if u == 0 {
      assert Fixed(0, 1) == Fixed(0, 0) + ['0'];
    } else {
      NumeralLength(u, 10, false, len);
      NumeralLength(u, 10, false, len - 1);
      FixedIsNumeral(u, len);
    }
  }

  /** The search loop: the least len with value < 10^len, unless it runs off the table. */
  method FindLength(value: nat) returns (len: nat)
    ensures 1 <= len <= |IPOW10|
    ensures len == |IPOW10| <==> value >= 10_000_000_000_000_000_000
    ensures len < |IPOW10| ==> value < Pow(10, len) && (len == 1 || Pow(10, len - 1) <= value)
  {
    len := 1;
    while len < |IPOW10| && value >= IPOW10[len]
      invariant 1 <= len <= |IPOW10|
      invariant len == 1 || IPOW10[len - 1] <= value
    {
      len := len + 1;
    }
    TableIsPowers(len - 1);
    if len < |IPOW10| {
      TableIsPowers(len);
      assert IPOW10[len] <= IPOW10[19] by {
        TableIsPowers(19);
        PowMonotone(10, len, 19);
      }
    }
  }

  lemma LeadingDigit(q: nat, r: nat, n: nat)
    ensures q >= 10 ==> q * Pow(10, n) + r >= Pow(10, n + 1)
  {
    if q >= 10 {
      MulMonotone(Pow(10, n), 10, q);
    }
  }

  /** One digit by repeated subtraction. */
  method SubtractPower(value: nat, n: nat) returns (digit: nat, rest: nat)
    requires n < |IPOW10| && value < Pow(10, n + 1)
    ensures digit < 10 && rest < Pow(10, n)
    ensures value == digit * Pow(10, n) + rest
  {
    TableIsPowers(n);
    digit, rest := 0, value;
    while rest >= IPOW10[n]
      invariant value == digit * Pow(10, n) + rest
    {
      digit := digit + 1;
      rest := rest - IPOW10[n];
    }
    LeadingDigit(digit, rest, n);
  }

  lemma EmitDigit(text: string, digit: nat, rest: nat, n: nat, goal: string)
    requires digit < 10 && rest < Pow(10, n)
    requires text + Fixed(digit * Pow(10, n) + rest, n + 1) == goal
    ensures text + [DigitChar(digit, false)] + Fixed(rest, n) == goal
  {
    FixedHead(digit, rest, n);
  }

  /**
   * The digits before the decimal point. The search may run off the table, which is
   * undefined in C and reported here; otherwise the text is the decimal numeral of value,
   * it has the least possible length, and nothing is left of the value.
   */
  method LeadingDigits(value: nat) returns (text: string, rest: nat, overrun: bool)
    ensures overrun <==> value >= 10_000_000_000_000_000_000
    ensures !overrun ==> text == DecimalNumber(value) && rest == 0
    ensures !overrun ==> value < Pow(10, |text|)
    ensures !overrun ==> forall k: nat {:trigger Pow(10, k)} :: 1 <= k && value < Pow(10, k) ==> |text| <= k
  {
    text, rest := "", value;
    var len := FindLength(value);
    overrun := len == |IPOW10|;
    if overrun {
      return;
    }
    LeastLength(value, len);
    ghost var goal := Fixed(value, len);
    var n := len;
    while n > 0
      invariant n <= len
      invariant rest < Pow(10, n)
      invariant text + Fixed(rest, n) == goal
    {
      n := n - 1;
      var digit;
      digit, rest := SubtractPower(rest, n);
      EmitDigit(text, digit, rest, n, goal);
      text := text + [DigitChar(digit, false)];
    }
  }
}
