/** The thousands grouping selected by the ' flag. */
module Grouping {
  import opened Numerals

  /** Decimal digits with a comma before every full group of three from the right. */
  function Grouped(digits: string): string
  {
    if |digits| <= 3 then digits
    else Grouped(digits[..|digits| - 3]) + [','] + digits[|digits| - 3..]
  }

  function WithoutCommas(s: string): string
  {
    if s == "" then ""
    else WithoutCommas(s[..|s| - 1]) + if s[|s| - 1] == ',' then "" else [s[|s| - 1]]
  }

  predicate CommaFree(s: string) { ',' !in s }

  /** Three digits after every comma, between one and three before the first one. */
  predicate WellGrouped(s: string)
    decreases |s|
  {
    if |s| <= 3 then 1 <= |s| && CommaFree(s)
    else |s| >= 5 && s[|s| - 4] == ',' && CommaFree(s[|s| - 3..]) && WellGrouped(s[..|s| - 4])
  }

  lemma {:induction false} WithoutCommasConcat(s: string, t: string)
    ensures WithoutCommas(s + t) == WithoutCommas(s) + WithoutCommas(t)
  {
    if t == "" {
      assert s + t == s;
    } else {
      var front := t[..|t| - 1];
      WithoutCommasConcat(s, front);
      assert (s + t)[..|s + t| - 1] == s + front;
    }
  }

  lemma {:induction false} CommaFreeUnchanged(s: string)
    requires CommaFree(s)
    ensures WithoutCommas(s) == s
  {
    if s == "" {
    } else {
      CommaFreeUnchanged(s[..|s| - 1]);
      assert s == s[..|s| - 1] + [s[|s| - 1]];
    }
  }

  lemma WithoutLastComma(front: string)
    ensures WithoutCommas(front + [',']) == WithoutCommas(front)
  {
    var s := front + [','];
    assert s[..|s| - 1] == front;
    assert WithoutCommas(front) + "" == WithoutCommas(front);
  }

  lemma WithoutOneComma(front: string, last: string)
    requires CommaFree(last)
    ensures WithoutCommas(front + [','] + last) == WithoutCommas(front) + last
  {
    WithoutCommasConcat(front + [','], last);
    WithoutLastComma(front);
    CommaFreeUnchanged(last);
  }

  /** Deleting the commas gives the plain digits. */
  lemma {:induction false} GroupedWithoutCommas(digits: string)
    requires CommaFree(digits)
    ensures WithoutCommas(Grouped(digits)) == digits
  {
    if |digits| <= 3 {
      CommaFreeUnchanged(digits);
    } else {
      var front, last := digits[..|digits| - 3], digits[|digits| - 3..];
      GroupedWithoutCommas(front);
      WithoutOneComma(Grouped(front), last);
      assert front + last == digits;
    }
  }

  /** The groups are as the flag promises; a d-digit number takes d + (d - 1) / 3 slots. */
  lemma {:induction false} GroupedShape(digits: string)
    requires CommaFree(digits)
    ensures digits != "" ==> WellGrouped(Grouped(digits))
    ensures |Grouped(digits)| == |digits| + Max(0, |digits| - 1) / 3
  {
    if |digits| <= 3 {
    } else {
      var front, last := digits[..|digits| - 3], digits[|digits| - 3..];
      GroupedShape(front);
      var g := Grouped(digits);
      assert g == Grouped(front) + [','] + last;
      assert g[..|g| - 4] == Grouped(front);
      assert g[|g| - 3..] == last;
    }
  }

  /** A well-grouped text neither starts nor ends with a comma. */
  lemma {:induction false} WellGroupedEnds(s: string)
    requires WellGrouped(s)
    ensures s[0] != ',' && s[|s| - 1] != ','
    decreases |s|
  {
    if |s| <= 3 {
      assert s[0] in s && s[|s| - 1] in s;
    } else {
      WellGroupedEnds(s[..|s| - 4]);
      assert s[|s| - 1] == s[|s| - 3..][2];
      assert s[|s| - 1] in s[|s| - 3..];
    }
  }

  /** The slot after a digit, and after the comma in front of it if there is one. */
  function NextSlot(len: nat): nat {
    if len % 4 == 3 then len + 2 else len + 1
  }

  /**
   * What the decimal loop still has to put in front when u is left to convert and
   * len buffer slots are in use: a comma whenever the slot number is 3 modulo 4.
   */
  function TickText(u: nat, len: nat): string
  {
    if u == 0 then ""
    else
      DivFacts(u, 10);
      TickText(u / 10, NextSlot(len)) + [DigitChar(u % 10, false)] + if len % 4 == 3 then [','] else ""
  }

  lemma {:induction false} TickTextSlot(u: nat, len: nat, len': nat)
    requires len % 4 == len' % 4
    ensures TickText(u, len) == TickText(u, len')
    decreases u
  {
    if u == 0 {
    } else {
      DivFacts(u, 10);
      var slot, slot' := NextSlot(len), NextSlot(len');
      assert slot % 4 == slot' % 4;
      TickTextSlot(u / 10, slot, slot');
    }
  }

  lemma TickTextAtComma(u: nat)
    requires u > 0
    ensures TickText(u, 3) == TickText(u, 0) + [',']
  {
    DivFacts(u, 10);
    TickTextSlot(u / 10, 5, 1);
  }

  /** The text in front of a group of three, and that group. */
  function LowGroup(u: nat, front: string): string
  {
    var c := if u / 100 == 0 then "" else front + [DigitChar(u / 100 % 10, false)];
    var b := if u / 10 == 0 then "" else c + [DigitChar(u / 10 % 10, false)];
    b + [DigitChar(u % 10, false)]
  }

  lemma NumeralLowGroup(u: nat)
    requires u > 0
    ensures Numeral(u, 10, false) == LowGroup(u, Numeral(u / 1000, 10, false))
  {
    assert u / 10 / 10 == u / 100 && u / 100 / 10 == u / 1000;
    if u / 10 > 0 {
      if u / 100 > 0 {
        assert Numeral(u / 100, 10, false) == Numeral(u / 1000, 10, false) + [DigitChar(u / 100 % 10, false)];
      }
      assert Numeral(u / 10, 10, false) == Numeral(u / 100, 10, false) + [DigitChar(u / 10 % 10, false)];
    }
    assert Numeral(u, 10, false) == Numeral(u / 10, 10, false) + [DigitChar(u % 10, false)];
  }

  lemma TickStep(u: nat, len: nat)
    requires u > 0 && len % 4 < 3
    ensures TickText(u, len) == TickText(u / 10, len + 1) + [DigitChar(u % 10, false)]
  {
    DivFacts(u, 10);
  }

  lemma TickLowGroup(u: nat)
    requires u > 0
    ensures TickText(u, 0) == LowGroup(u, TickText(u / 1000, 3))
  {
    assert u / 10 / 10 == u / 100 && u / 100 / 10 == u / 1000;
    if u / 10 > 0 {
      if u / 100 > 0 {
        TickStep(u / 100, 2);
      }
      TickStep(u / 10, 1);
    }
    TickStep(u, 0);
  }

  lemma GroupedLowGroup(u: nat)
    requires u > 0
    ensures u < 1000 ==> Grouped(Numeral(u, 10, false)) == LowGroup(u, "")
    ensures u >= 1000 ==>
      Grouped(Numeral(u, 10, false)) == LowGroup(u, Grouped(Numeral(u / 1000, 10, false)) + [','])
  {
    var front, digits := Numeral(u / 1000, 10, false), Numeral(u, 10, false);
    NumeralLowGroup(u);
    if u >= 1000 {
      NumeralLeads(u / 1000, 10, false);
      assert |digits| == |front| + 3;
      assert digits[..|digits| - 3] == front;
    }
  }

  /** The slot arithmetic of the loop produces exactly the grouped decimal digits. */
  lemma {:induction false} TickTextIsGrouped(u: nat)
    ensures TickText(u, 0) == Grouped(Numeral(u, 10, false))
  {
    if u == 0 {
    } else {
      TickLowGroup(u);
      GroupedLowGroup(u);
      if u >= 1000 {
        TickTextIsGrouped(u / 1000);
        TickTextAtComma(u / 1000);
      }
    }
  }

  lemma {:induction false} NumeralCommaFree(n: nat, radix: nat, capitals: bool)
    requires 2 <= radix <= 16
    ensures CommaFree(Numeral(n, radix, capitals))
  {
    if n == 0 {
    } else {
      DivFacts(n, radix);
      NumeralCommaFree(n / radix, radix, capitals);
    }
  }

  /** The 22-slot buffer holds the grouped digits exactly for values below 10^17. */
  lemma GroupedFits(u: nat)
    ensures |Grouped(Numeral(u, 10, false))| <= 22 <==> u < 100_000_000_000_000_000
  {
    NumeralCommaFree(u, 10, false);
    GroupedShape(Numeral(u, 10, false));
    NumeralLength(u, 10, false, 17);
    PowersOfTen();
  }

  /** A grouped number starts with one to three of its digits and a comma. */
  lemma {:induction false} GroupedStarts(digits: string) returns (k: nat)
    requires |digits| > 3
    ensures 1 <= k <= 3 && k < |digits| && k < |Grouped(digits)|
    ensures Grouped(digits)[..k] == digits[..k] && Grouped(digits)[k] == ','
  {
    var front := digits[..|digits| - 3];
    assert Grouped(digits) == Grouped(front) + [','] + digits[|digits| - 3..];
    if |front| <= 3 {
      k := |front|;
    } else {
      k := GroupedStarts(front);
      assert digits[..k] == front[..k];
    }
  }
}
