/** What becomes of digits that are read in a radix other than the one they were written in. */
module LowerRadix {
  import opened Numerals
  import opened ScanFormat

  // ---------------------------------------------------------------- a smaller radix

  lemma SmallerStep(s: nat, l: nat, d: nat, small: nat, large: nat)
    requires 2 <= small < large && d < small && s <= l && (l < small ==> s == l)
    ensures l * large + d < small ==> s * small + d == l * large + d
    ensures l * large + d >= small ==> s * small + d < l * large + d
  {
    if l == 0 {
      assert s * small == 0 && l * large == 0;
    } else {
      MulMonotone(small, s, l);
      assert l * large == l * small + l * (large - small);
      MulMonotone(large - small, 1, l);
      MulMonotone(small, 1, l);
    }
  }

  /** Digits denote less in a smaller radix, unless they are zeros with one digit behind them. */
  lemma {:induction false} SmallerRadix(t: string, small: nat, large: nat)
    requires 2 <= small < large <= 16 && AllDigits(t, small)
    ensures AllDigits(t, large)
    ensures Horner(t, large) < small ==> Horner(t, small) == Horner(t, large)
    ensures Horner(t, large) >= small ==> Horner(t, small) < Horner(t, large)
  {
    assert AllDigits(t, large) by {
      assert forall k :: 0 <= k < |t| ==> Digit(t[k] as int, small) == Digit(t[k] as int, large);
    }
    if t == "" {
    } else {
      var front := t[..|t| - 1];
      SmallerRadix(front, small, large);
      SmallerStep(Horner(front, small), Horner(front, large), Digit(t[|t| - 1] as int, small), small, large);
    }
  }

  /** A digit that is not zero makes the whole denote more than what stands in front of it. */
  lemma {:induction false} HornerBeyond(t: string, k: nat, radix: nat)
    requires 2 <= radix && AllDigits(t, radix) && k < |t| && Digit(t[k] as int, radix) > 0
    ensures Horner(t[..k], radix) < Horner(t, radix) && Digit(t[k] as int, radix) <= Horner(t, radix)
    decreases |t|
  {
    var front := t[..|t| - 1];
    MulMonotone(Horner(front, radix), 1, radix);
    if k == |front| {
      assert t[..k] == front;
    } else {
      HornerBeyond(front, k, radix);
      assert front[..k] == t[..k];
    }
  }

  /** The digits that a reader in a smaller radix takes from the front. */
  function Front(t: string, small: nat): string {
    t[..RunEnd(t, 0, small, |t|)]
  }

  /** They denote the number itself if it is a single digit of that radix, and less otherwise. */
  lemma FrontDenotes(t: string, small: nat, large: nat)
    requires 2 <= small < large <= 16 && AllDigits(t, large)
    ensures AllDigits(Front(t, small), small)
    ensures |Front(t, small)| < |t| ==> Digit(t[|Front(t, small)|] as int, small) < 0
    ensures Horner(t, large) < small ==> Front(t, small) == t && Horner(t, small) == Horner(t, large)
    ensures Horner(t, large) >= small ==> Horner(Front(t, small), small) < Horner(t, large)
  {
    hide Horner, RunEnd;
    var k := RunEnd(t, 0, small, |t|);
    RunEndIsMaximal(t, 0, small, |t|);
    assert t[0..k] == t[..k];
    SmallerRadix(t[..k], small, large);
    if k < |t| {
      assert 0 <= Digit(t[k] as int, large);
      HornerBeyond(t, k, large);
    } else {
      assert t[..k] == t;
    }
  }

  // ---------------------------------------------------------------- octal digits read in decimal

  /** The number that the octal digits of m denote in decimal. */
  function DecimalReading(m: nat): nat {
    if m == 0 then 0 else 10 * DecimalReading(m / 8) + m % 8
  }

  lemma {:induction false} ReadsInDecimal(m: nat)
    ensures AllDigits(Numeral(m, 8, false), 10)
    ensures Horner(Numeral(m, 8, false), 10) == DecimalReading(m)
  {
    if m == 0 {
    } else {
      var front, c := Numeral(m / 8, 8, false), DigitChar(m % 8, false);
      ReadsInDecimal(m / 8);
      DigitCharInRadix(m % 8, false, 10);
      HornerSnoc(front, c, 10);
    }
  }

  /** How much the decimal reading exceeds the number. */
  function Excess(m: nat): int {
    DecimalReading(m) - m
  }

  lemma ExcessStep(m: nat)
    ensures Excess(m) == 10 * Excess(m / 8) + 2 * (m / 8)
  {
  }

  /** The larger the number, the larger the excess. */
  lemma {:induction false} ExcessGrows(a: nat, b: nat)
    requires a <= b
    ensures 0 <= Excess(a) <= Excess(b)
    decreases b
  {
    if b == 0 {
    } else {
      ExcessStep(a);
      ExcessStep(b);
      ExcessGrows(a / 8, b / 8);
    }
  }

  /** No multiple of p lies between the excesses of two numbers that enclose m. */
  predicate Skips(low: nat, high: nat, t: nat, p: nat) {
    t * p < Excess(low) && Excess(high) < (t + 1) * p
  }

  lemma Skipped(m: nat, low: nat, high: nat, t: nat, p: nat)
    requires low <= m <= high && 0 < p && Skips(low, high, t, p)
    ensures Excess(m) % p != 0
  {
    ExcessGrows(low, m);
    ExcessGrows(m, high);
    var r := Excess(m) - t * p;
    assert (t + 1) * p == t * p + p && p * t == t * p;
    ModUnique(Excess(m), p, t, r);
  }

  lemma ReadingOfZero()
    ensures DecimalReading(0) == 0
  {
  }

  lemma NonZeroPart(q: nat, p: nat)
    requires 1 <= p
    ensures q <= q * p
  {
    MulMonotone(q, 1, p);
  }

  lemma FactorOut(a: nat, f: nat, p: nat)
    ensures a * (f * p) == f * (a * p)
  {
  }

  /** Taking off the last digit of the two parts together. */
  lemma LastDigit(q: nat, r: nat, p: nat)
    ensures (q * (8 * p) + r) / 8 == q * p + r / 8 && (q * (8 * p) + r) % 8 == r % 8
  {
    FactorOut(q, 8, p);
  }

  lemma JoinedStep(q: nat, r: nat, p: nat, m: nat)
    requires m % 8 == r % 8 && (m == 0 ==> r == 0 && DecimalReading(q) * p == 0)
    requires DecimalReading(m / 8) == DecimalReading(q) * p + DecimalReading(r / 8)
    ensures DecimalReading(m) == DecimalReading(q) * (10 * p) + DecimalReading(r)
  {
    FactorOut(DecimalReading(q), 10, p);
  }

  /** Octal digits in two parts. */
  lemma {:induction false} Joined(q: nat, r: nat, k: nat)
    requires r < Pow(8, k)
    ensures DecimalReading(q * Pow(8, k) + r) == DecimalReading(q) * Pow(10, k) + DecimalReading(r)
    decreases k
  {
    hide DecimalReading;
    if k == 0 {
      ReadingOfZero();
      assert Pow(8, 0) == 1 == Pow(10, 0) && r == 0;
    } else {
      assert Pow(8, k) == 8 * Pow(8, k - 1) && Pow(10, k) == 10 * Pow(10, k - 1);
      LastDigit(q, r, Pow(8, k - 1));
      Joined(q, r / 8, k - 1);
      ReadingOfZero();
      PowPositive(8, k);
      NonZeroPart(q, Pow(8, k));
      JoinedStep(q, r, Pow(10, k - 1), q * Pow(8, k) + r);
    }
  }

  /** Eight more octal digits. */
  lemma EightMore(q: nat, r: nat)
    requires r < 0x100_0000
    ensures DecimalReading(q * 0x100_0000 + r) == DecimalReading(q) * 1_0000_0000 + DecimalReading(r)
  {
    PowersOfTen();
    assert Pow(8, 4) == 0x1000;
    assert Pow(8, 8) == 0x100_0000;
    Joined(q, r, 8);
  }

  lemma SevenSevens()
    ensures DecimalReading(0xff_ffff) == 7777_7777 && DecimalReading(8) == 10 && DecimalReading(0) == 0
  {
    assert DecimalReading(0xfff) == 7777;
  }

  /** The leading digits at and below the crossings. */
  lemma SmallReadings()
    ensures DecimalReading(0x27) == 47 && DecimalReading(0x28) == 50
    ensures DecimalReading(0x3f) == 77 && DecimalReading(0x40) == 100
    ensures DecimalReading(0x65) == 145 && DecimalReading(0x66) == 146
    ensures DecimalReading(0x7f) == 177 && DecimalReading(0x80) == 200
    ensures DecimalReading(0xa1) == 241 && DecimalReading(0xa2) == 242
    ensures DecimalReading(0xbf) == 277 && DecimalReading(0xc0) == 300
    ensures DecimalReading(0xdf) == 337 && DecimalReading(0xe0) == 340
    ensures DecimalReading(0xff) == 377
  {
  }

  /** Where the excess passes the multiples of 2^32. */
  const CROSSINGS: seq<nat> := [
    8, 0x2800_0000, 0x4000_0000, 0x6600_0000, 0x8000_0000, 0xa200_0000, 0xc000_0000, 0xe000_0000, 0x1_0000_0000
  ]

  lemma CrossingsSkip(t: nat)
    requires t < 8
    ensures Skips(CROSSINGS[t], CROSSINGS[t + 1] - 1, t, 0x1_0000_0000)
  {
    hide DecimalReading;
    SmallReadings();
    SevenSevens();
    var low, high := CROSSINGS[t] / 0x100_0000, CROSSINGS[t + 1] / 0x100_0000 - 1;
    EightMore(low, if t == 0 then 8 else 0);
    EightMore(high, 0xff_ffff);
  }

  /** The crossing below m. */
  lemma CrossingBelow(m: nat) returns (t: nat)
    requires 8 <= m < 0x1_0000_0000
    ensures t < 8 && CROSSINGS[t] <= m < CROSSINGS[t + 1]
  {
    t := 0;
    while m >= CROSSINGS[t + 1]
      invariant t < 8 && CROSSINGS[t] <= m
      decreases 8 - t
    {
      t := t + 1;
    }
  }

  /** In the narrower targets no octal text of two digits and more is read in decimal as itself. */
  lemma NoNarrowCoincidence(m: nat, bits: nat)
    requires bits in {8, 16, 32} && 8 <= m < Pow2(bits)
    ensures Excess(m) % Pow2(bits) != 0
  {
    PowersOfTwo();
    if bits == 8 {
      assert Skips(8, 0xff, 0, 0x100);
      Skipped(m, 8, 0xff, 0, 0x100);
    } else if bits == 16 {
      assert Skips(8, 0x7fff, 0, 0x1_0000) && Skips(0x8000, 0xffff, 1, 0x1_0000);
      if m < 0x8000 {
        Skipped(m, 8, 0x7fff, 0, 0x1_0000);
      } else {
        Skipped(m, 0x8000, 0xffff, 1, 0x1_0000);
      }
    } else {
      var t := CrossingBelow(m);
      CrossingsSkip(t);
      Skipped(m, CROSSINGS[t], CROSSINGS[t + 1] - 1, t, 0x1_0000_0000);
    }
  }

  lemma WideParts()
    ensures DecimalReading(58458) == 162132
    ensures DecimalReading(2773753) == 12451371
    ensures DecimalReading(9915552) == 45646240
  {
    assert DecimalReading(677) == 1245;
    assert DecimalReading(2420) == 4564;
    assert DecimalReading(114) == 162;
  }

  /** In the widest target one does: the decimal reading overflows and comes back to the number. */
  lemma WideCoincidence()
    ensures Excess(16454510724414655648) == 87 * TWO_TO_64
  {
    WideParts();
    hide DecimalReading;
    EightMore(58458, 2773753);
    EightMore(980765266681, 9915552);
  }
}
