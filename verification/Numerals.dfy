/** Characters, digits and positional numerals shared by the printer and the scanner. */
module Numerals {
  // What a read returns at the end of the input; characters are their own codes.
  const EOF: int := -1

  // The code printed for a NUL, and what a format string holds at its end.
  const NUL: char := '\0'

  const INT_MAX: int := 0x7fff_ffff

  const TWO_TO_64: nat := 0x1_0000_0000_0000_0000

  predicate IsSpace(ch: int) {
    ch == ' ' as int || 9 <= ch <= 13
  }

  predicate IsDigit(ch: int) {
    '0' as int <= ch <= '9' as int
  }

  /** The value of ch as a digit in the radix, or a negative number when it is none. */
  function Digit(ch: int, radix: nat): (d: int)
    ensures d < radix
    ensures 0 <= d ==> ch != EOF && !IsSpace(ch)
  {
    var d :=
      if '0' as int <= ch <= '9' as int then ch - '0' as int
      else if 'a' as int <= ch <= 'z' as int then ch - 'a' as int + 10
      else if 'A' as int <= ch <= 'Z' as int then ch - 'A' as int + 10
      else -1;
    if d < radix then d else -1
  }

  /** The tables __RAL_hex_lc and __RAL_hex_uc. */
  function DigitChar(d: nat, capitals: bool): (c: char)
    requires d < 16
    ensures Digit(c as int, 16) == d
    ensures d < 10 ==> IsDigit(c as int)
    ensures c != 'x' && c != 'X' && c != ','
  {
    if d < 10 then ('0' as int + d) as char
    else if capitals then ('A' as int + d - 10) as char
    else ('a' as int + d - 10) as char
  }

  lemma DigitCharInRadix(d: nat, capitals: bool, radix: nat)
    requires d < radix <= 16
    ensures Digit(DigitChar(d, capitals) as int, radix) == d
  {
  }

  function Max(a: int, b: int): int { if a >= b then a else b }

  /** n copies of c; none when n is not positive. */
  function Repeat(c: char, n: int): (s: string)
    ensures |s| == Max(0, n)
    ensures forall k :: 0 <= k < |s| ==> s[k] == c
  {
    if n <= 0 then "" else seq(n, i => c)
  }

  lemma RepeatLength(c: char, n: nat)
    ensures |Repeat(c, n)| == n
  {
  }

  function Pow(b: nat, k: nat): nat
  {
    if k == 0 then 1 else b * Pow(b, k - 1)
  }

  lemma {:induction false} PowPositive(b: nat, k: nat)
    requires 1 <= b
    ensures 1 <= Pow(b, k)
  {
    if k == 0 {
    } else {
      PowPositive(b, k - 1);
    }
  }

  lemma {:induction false} PowMonotone(b: nat, j: nat, k: nat)
    requires 1 <= b && j <= k
    ensures Pow(b, j) <= Pow(b, k)
    decreases k
  {
    if k <= j {
    } else {
      PowMonotone(b, j, k - 1);
      PowPositive(b, k - 1);
    }
  }

  lemma PowersOfTen()
    ensures Pow(10, 8) == 1_0000_0000
    ensures Pow(10, 16) == 1_0000_0000_0000_0000
    ensures Pow(10, 17) == 10_0000_0000_0000_0000
    ensures Pow(10, 19) == 1000_0000_0000_0000_0000
    ensures Pow(10, 20) == 1_0000_0000_0000_0000_0000
  {
    assert Pow(10, 4) == 1_0000;
    assert Pow(10, 8) == 1_0000_0000;
    assert Pow(10, 12) == 1_0000_0000_0000;
    assert Pow(10, 16) == 1_0000_0000_0000_0000;
    assert Pow(10, 20) == 1_0000_0000_0000_0000_0000;
  }

  // ---------------------------------------------------------------- numerals

  predicate AllDigits(s: string, radix: nat) {
    forall k :: 0 <= k < |s| ==> 0 <= Digit(s[k] as int, radix)
  }

  /** The number a digit string denotes, read left to right. */
  function Horner(s: string, radix: nat): nat
    requires AllDigits(s, radix)
  {
    if s == "" then 0
    else Horner(s[..|s| - 1], radix) * radix + Digit(s[|s| - 1] as int, radix)
  }

  lemma MulMonotone(d: nat, a: int, b: int)
    requires a <= b
    ensures d * a <= d * b
  {
  }

  lemma SmallMultiple(m: int, k: int)
    requires -m < m * k < m
    ensures k == 0
  {
    if k >= 1 {
      MulMonotone(m, 1, k);
    } else if k <= -1 {
      MulMonotone(m, k, -1);
    }
  }

  lemma DivFacts(n: nat, d: nat)
    requires 2 <= d
    ensures n == n / d * d + n % d && n % d < d
    ensures n / d == 0 <==> n < d
    ensures n < d ==> n % d == n
    ensures 0 < n ==> n / d < n
  {
    var q := n / d;
    assert n == d * q + n % d;
    if q >= 1 {
      MulMonotone(d, 1, q);
      MulMonotone(q, 2, d);
    }
    if n < d {
      SmallMultiple(d, q);
    }
  }

  /** The digits of n, most significant first; no digit at all for zero. */
  function Numeral(n: nat, radix: nat, capitals: bool): (s: string)
    requires 2 <= radix <= 16
  {
    if n == 0 then ""
    else
      DivFacts(n, radix);
      Numeral(n / radix, radix, capitals) + [DigitChar(n % radix, capitals)]
  }

  /** One more digit at the right. */
  lemma HornerSnoc(s: string, c: char, radix: nat)
    requires AllDigits(s, radix) && 0 <= Digit(c as int, radix)
    ensures AllDigits(s + [c], radix)
    ensures Horner(s + [c], radix) == Horner(s, radix) * radix + Digit(c as int, radix)
  {
    var t := s + [c];
    assert t[..|t| - 1] == s;
  }

  /** Printing a number and reading its digits gives the number back. */
  lemma {:induction false} HornerOfNumeral(n: nat, radix: nat, capitals: bool)
    requires 2 <= radix <= 16
    ensures AllDigits(Numeral(n, radix, capitals), radix)
    ensures Horner(Numeral(n, radix, capitals), radix) == n
  {
    if n == 0 {
    } else {
      DivFacts(n, radix);
      var front, c := Numeral(n / radix, radix, capitals), DigitChar(n % radix, capitals);
      HornerOfNumeral(n / radix, radix, capitals);
      DigitCharInRadix(n % radix, capitals, radix);
      HornerSnoc(front, c, radix);
    }
  }

  /** A numeral has no leading zero and is empty for zero alone. */
  lemma {:induction false} NumeralLeads(n: nat, radix: nat, capitals: bool)
    requires 2 <= radix <= 16
    ensures (Numeral(n, radix, capitals) == "") == (n == 0)
    ensures n > 0 ==> Numeral(n, radix, capitals)[0] != '0'
  {
    if n == 0 {
    } else {
      DivFacts(n, radix);
      NumeralLeads(n / radix, radix, capitals);
      DigitCharInRadix(n % radix, capitals, radix);
      if n < radix {
        assert Numeral(n, radix, capitals) == [DigitChar(n % radix, capitals)];
        assert Digit('0' as int, radix) == 0;
      }
    }
  }

  lemma DivBelow(n: nat, d: nat, m: nat)
    requires 0 < d
    ensures n / d < m <==> n < d * m
  {
    var q := n / d;
    assert n == d * q + n % d;
    if q < m {
      assert d * (q + 1) <= d * m by { MulMonotone(d, q + 1, m); }
      assert d * (q + 1) == d * q + d;
    } else {
      MulMonotone(d, m, q);
    }
  }

  /** The least length: n has at most k digits exactly when n < radix^k. */
  lemma {:induction false} NumeralLength(n: nat, radix: nat, capitals: bool, k: nat)
    requires 2 <= radix <= 16
    ensures |Numeral(n, radix, capitals)| <= k <==> n < Pow(radix, k)
  {
    if n > 0 && k > 0 {
      DivFacts(n, radix);
      NumeralLength(n / radix, radix, capitals, k - 1);
      DivBelow(n, radix, Pow(radix, k - 1));
    } else if n == 0 {
      PowPositive(radix, k);
    }
  }

  /** Leading zeros do not change what a digit string denotes. */
  lemma {:induction false} HornerLeadingZeros(n: nat, s: string, radix: nat)
    requires 2 <= radix && AllDigits(s, radix)
    ensures AllDigits(Repeat('0', n) + s, radix)
    ensures Horner(Repeat('0', n) + s, radix) == Horner(s, radix)
    decreases |s|, n
  {
    var t := Repeat('0', n) + s;
    if s != "" {
      var front := s[..|s| - 1];
      assert t[..|t| - 1] == Repeat('0', n) + front;
      HornerLeadingZeros(n, front, radix);
    } else if n > 0 {
      assert t[..|t| - 1] == Repeat('0', n - 1) + s;
      HornerLeadingZeros(n - 1, s, radix);
    }
  }

  lemma Extend(s: string, i: nat, j: nat)
    requires i <= j < |s|
    ensures s[i..j + 1] == s[i..j] + [s[j]]
  {
  }

  lemma {:induction false} HornerPositive(s: string, radix: nat)
    requires 1 <= radix && AllDigits(s, radix) && s != "" && Digit(s[0] as int, radix) > 0
    ensures Horner(s, radix) > 0
    decreases |s|
  {
    if |s| <= 1 {
    } else {
      HornerPositive(s[..|s| - 1], radix);
      MulMonotone(Horner(s[..|s| - 1], radix), 1, radix);
    }
  }

  /** A proper prefix of a number without leading zeros denotes less. */
  lemma {:induction false} HornerPrefixLess(s: string, k: nat, radix: nat)
    requires 2 <= radix && AllDigits(s, radix) && 1 <= k < |s| && Digit(s[0] as int, radix) > 0
    ensures AllDigits(s[..k], radix) && 0 < Horner(s[..k], radix) < Horner(s, radix)
    decreases |s|
  {
    var front := s[..|s| - 1];
    if k == |front| {
      HornerPositive(front, radix);
    } else {
      HornerPrefixLess(front, k, radix);
      assert front[..k] == s[..k];
    }
    MulMonotone(Horner(front, radix), 2, radix);
  }

  // ---------------------------------------------------------------- machine integers

  /** Two numbers closer than m are congruent modulo m only if they are equal. */
  lemma CongruentEqual(a: int, b: int, m: nat)
    requires 0 < m && a % m == b % m && a - b < m && b - a < m
    ensures a == b
  {
    var q := a / m - b / m;
    assert a == m * (a / m) + a % m && b == m * (b / m) + b % m;
    assert m * q == m * (a / m) - m * (b / m);
    SmallMultiple(m, q);
  }

  function Pow2(bits: nat): (p: nat)
    ensures 1 <= p
  {
    if bits == 0 then 1 else 2 * Pow2(bits - 1)
  }

  /** What a signed target of the given width holds after n is stored in it. */
  function Signed(n: int, bits: nat): (v: int)
  {
    var u := n % Pow2(bits);
    if 2 * u >= Pow2(bits) then u - Pow2(bits) else u
  }

  lemma ModUnique(x: int, m: nat, q: int, r: int)
    requires 0 <= r < m && x == m * q + r
    ensures x % m == r && x / m == q
  {
    var q', r' := x / m, x % m;
    assert x == m * q' + r';
    var k := q' - q;
    assert m * k == m * q' - m * q;
    SmallMultiple(m, k);
  }

  lemma ModShift(u: int, m: nat)
    requires 0 < m
    ensures (u - m) % m == u % m && (u % m) % m == u % m
  {
    var q, r := u / m, u % m;
    assert m * (q - 1) == m * q - m;
    ModUnique(u - m, m, q - 1, r);
    ModUnique(r, m, 0, r);
  }

  lemma SignedCongruent(n: int, bits: nat)
    ensures Signed(n, bits) % Pow2(bits) == n % Pow2(bits)
    ensures 0 <= 2 * Signed(n, bits) + Pow2(bits) < 2 * Pow2(bits)
  {
    ModShift(n, Pow2(bits));
    ModShift(n % Pow2(bits), Pow2(bits));
  }

  lemma PowersOfTwo()
    ensures Pow2(8) == 0x100 && Pow2(16) == 0x1_0000
    ensures Pow2(32) == 0x1_0000_0000 && Pow2(64) == TWO_TO_64
  {
    assert Pow2(8) == 0x100;
    assert Pow2(16) == 0x1_0000;
    assert Pow2(24) == 0x100_0000;
    assert Pow2(32) == 0x1_0000_0000;
    assert Pow2(40) == 0x100_0000_0000;
    assert Pow2(48) == 0x1_0000_0000_0000;
    assert Pow2(56) == 0x100_0000_0000_0000;
    assert Pow2(64) == TWO_TO_64;
  }

  lemma CongruentIfMultiple(a: int, b: int, m: nat)
    requires 0 < m && (a - b) % m == 0
    ensures a % m == b % m
  {
    var e, q := (a - b) / m, b / m;
    assert b == m * q + b % m && a - b == m * e;
    assert m * (e + q) == m * e + m * q;
    ModUnique(a, m, e + q, b % m);
  }

  lemma MultipleIfCongruent(a: int, b: int, m: nat)
    requires 0 < m && a % m == b % m
    ensures (a - b) % m == 0
  {
    var p, q := a / m, b / m;
    assert a == m * p + a % m && b == m * q + b % m;
    assert m * (p - q) == m * p - m * q;
    ModUnique(a - b, m, p - q, 0);
  }

  /** Two numbers are congruent modulo m exactly if m divides their difference. */
  lemma CongruentExactly(a: int, b: int, m: nat)
    requires 0 < m
    ensures (a - b) % m == 0 <==> a % m == b % m
  {
    if (a - b) % m == 0 {
      CongruentIfMultiple(a, b, m);
    }
    if a % m == b % m {
      MultipleIfCongruent(a, b, m);
    }
  }

  /** Reducing the accumulator first does not change a Horner step modulo m. */
  lemma HornerStepModulo(x: int, radix: nat, d: int, m: nat)
    requires 0 < m
    ensures ((x % m) * radix + d) % m == (x * radix + d) % m
  {
    var q := x / m;
    var y := (x % m) * radix + d;
    assert x == m * q + x % m;
    assert x * radix + d == m * (q * radix) + y by {
      assert (m * q + x % m) * radix == m * q * radix + (x % m) * radix;
      assert m * q * radix == m * (q * radix);
    }
    assert y == m * (y / m) + y % m;
    assert x * radix + d == m * (q * radix + y / m) + y % m by {
      assert m * (q * radix + y / m) == m * (q * radix) + m * (y / m);
    }
    ModUnique(x * radix + d, m, q * radix + y / m, y % m);
  }

  /** Negation can be done after reduction. */
  lemma NegateModulo(n: int, m: nat)
    requires 0 < m
    ensures (-(n % m)) % m == (-n) % m
  {
    var r := (-(n % m)) % m;
    var q := (-(n % m)) / m;
    assert n == m * (n / m) + n % m;
    assert -n == m * (q - n / m) + r by {
      assert m * (q - n / m) == m * q - m * (n / m);
    }
    ModUnique(-n, m, q - n / m, r);
  }

  lemma Double(a: nat, b: nat)
    ensures 2 * (a * b) == a * (2 * b)
  {
  }

  lemma {:induction false} Pow2Factor(small: nat, big: nat)
    requires small <= big
    ensures Pow2(big) == Pow2(small) * Pow2(big - small)
  {
    if big <= small {
    } else {
      Pow2Factor(small, big - 1);
      Double(Pow2(small), Pow2(big - 1 - small));
    }
  }

  lemma ModOfMod(n: int, m: nat, f: nat)
    requires 0 < m && 0 < f && 0 < m * f
    ensures (n % (m * f)) % m == n % m
  {
    var b := m * f;
    var q, r := n / b, n % b;
    assert n == b * q + r;
    assert r == m * (r / m) + r % m;
    assert b * q == m * (f * q);
    assert m * (f * q + r / m) == m * (f * q) + m * (r / m);
    ModUnique(n, m, f * q + r / m, r % m);
  }

  /** Truncating to a narrower target after reducing to a wider one loses nothing. */
  lemma TruncateModulo(n: int, small: nat, big: nat)
    requires small <= big
    ensures (n % Pow2(big)) % Pow2(small) == n % Pow2(small)
  {
    Pow2Factor(small, big);
    ModOfMod(n, Pow2(small), Pow2(big - small));
  }
}
