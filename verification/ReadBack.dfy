/** How the scanner reads a text of known shape: blanks, sign, prefix, digits. */
module ReadBack {
  import opened Numerals
  import opened FormatText
  import opened ScanFormat

  /** The text t stands in s at index p. */
  predicate HasAt(s: string, p: nat, t: string) {
    p + |t| <= |s| && s[p..p + |t|] == t
  }

  lemma HasAtParts(s: string, p: nat, a: string, b: string)
    requires HasAt(s, p, a + b)
    ensures HasAt(s, p, a) && HasAt(s, p + |a|, b)
  {
    var t := a + b;
    assert t[..|a|] == a && t[|a|..] == b;
    assert s[p..p + |a|] == s[p..p + |t|][..|a|];
    assert s[p + |a|..p + |a| + |b|] == s[p..p + |t|][|a|..];
  }

  lemma HasAtInside(s: string, p: nat, t: string)
    requires HasAt(s, p, t)
    ensures p + |t| <= |s|
  {
  }

  lemma HasAtChar(s: string, p: nat, t: string, k: nat)
    requires HasAt(s, p, t) && k < |t|
    ensures s[p + k] == t[k]
  {
    assert s[p..p + |t|][k] == s[p + k];
  }

  /** What stands at index e, if anything, cannot go on a number in the radix. */
  predicate Ends(s: string, e: nat, radix: nat) {
    e == |s| || (e < |s| && Digit(s[e] as int, radix) < 0 && s[e] != 'x' && s[e] != 'X')
  }

  /** What stands at index e does not go on these digits; an x would do so behind a single zero. */
  predicate Stops(s: string, e: nat, radix: nat, digits: string) {
    e < |s| ==> Digit(s[e] as int, radix) < 0 && (digits == "0" ==> s[e] != 'x' && s[e] != 'X')
  }

  lemma EndsStops(s: string, e: nat, radix: nat, digits: string)
    requires Ends(s, e, radix)
    ensures Stops(s, e, radix, digits)
  {
  }

  /** The same in every radix that a conversion can ask for. */
  predicate Delimits(s: string, e: nat) {
    Ends(s, e, 16)
  }

  lemma WholeText(t: string)
    ensures HasAt(t, 0, t) && Delimits(t, 0 + |t|) && "" + t == t
  {
  }

  predicate IsSignText(t: string) { t == "" || t == "-" || t == "+" }

  /** White space from p on up to i, and none at i. */
  predicate WhiteUpTo(s: string, p: nat, i: nat) {
    p <= i <= |s| && (forall k :: p <= k < i ==> IsSpace(s[k] as int)) && (i < |s| ==> !IsSpace(s[i] as int))
  }

  lemma {:induction false} SkippedIsWhite(s: string, p: nat)
    requires p <= |s|
    ensures WhiteUpTo(s, p, SkipSpace(s, p))
    decreases |s| - p
  {
    if p == |s| || !IsSpace(s[p] as int) {
    } else {
      SkippedIsWhite(s, p + 1);
    }
  }

  /** There is only one such index, and skipping leads to it. */
  lemma {:induction false} SkipsWhite(s: string, p: nat, i: nat)
    requires WhiteUpTo(s, p, i)
    ensures SkipSpace(s, p) == i
    decreases i - p
  {
    if p == i {
    } else {
      SkipsWhite(s, p + 1, i);
    }
  }

  lemma {:induction false} SkipsBlanks(s: string, p: nat, n: nat)
    requires HasAt(s, p, Repeat(' ', n))
    requires p + n < |s| ==> !IsSpace(s[p + n] as int)
    ensures SkipSpace(s, p) == p + n
    decreases n
  {
    if n == 0 {
    } else {
      HasAtChar(s, p, Repeat(' ', n), 0);
      assert Repeat(' ', n) == [' '] + Repeat(' ', n - 1);
      HasAtParts(s, p, [' '], Repeat(' ', n - 1));
      SkipsBlanks(s, p + 1, n - 1);
    }
  }

  /** A run of digits that fits the field is read to its end. */
  lemma {:induction false} RunIsRead(s: string, i: nat, digits: string, radix: nat, field: int)
    requires HasAt(s, i, digits) && AllDigits(digits, radix) && |digits| <= field
    requires |digits| < field && i + |digits| < |s| ==> Digit(s[i + |digits|] as int, radix) < 0
    ensures RunEnd(s, i, radix, field) == i + |digits|
    decreases |digits|
  {
    hide Digit;
    if digits == "" {
    } else {
      var rest := digits[1..];
      assert digits == [digits[0]] + rest;
      HasAtParts(s, i, [digits[0]], rest);
      HasAtChar(s, i, digits, 0);
      assert forall k :: 0 <= k < |rest| ==> rest[k] == digits[k + 1];
      RunIsRead(s, i + 1, rest, radix, field - 1);
    }
  }

  /** A digit in a smaller radix is one in a larger radix, with the same value. */
  lemma RadixMonotone(c: int, small: nat, large: nat)
    requires small <= large
    ensures 0 <= Digit(c, small) ==> Digit(c, large) == Digit(c, small)
    ensures Digit(c, large) < 0 ==> Digit(c, small) < 0
  {
  }

  lemma DelimiterEnds(s: string, e: nat, radix: nat)
    requires Delimits(s, e) && radix <= 16
    ensures Ends(s, e, radix)
  {
    if e < |s| {
      RadixMonotone(s[e] as int, radix, 16);
    }
  }

  lemma NoHexPrefix(s: string, i: nat, digits: string, radix0: nat, radix: nat, field: int)
    requires HasAt(s, i, digits) && 2 <= radix <= 16 && AllDigits(digits, radix)
    requires |digits| < field ==> Stops(s, i + |digits|, radix, digits)
    ensures !HexPrefixAt(s, i, radix0, field)
  {
    if |digits| > 1 {
      HasAtChar(s, i, digits, 1);
      assert 0 <= Digit(digits[1] as int, radix);
    } else if |digits| == 1 {
      HasAtChar(s, i, digits, 0);
    } else if i < |s| {
      assert Digit('0' as int, radix) == 0;
    }
  }

  /** The radix in which digits are read: a leading zero decides it when none is requested. */
  function FieldRadix(radix0: nat, digits: string): (r: nat)
    requires digits != ""
  {
    if radix0 != 0 then radix0 else if digits[0] == '0' then 8 else 10
  }

  /** Digits without a sign and without a 0x prefix. */
  lemma PlainFieldRead(s: string, i: nat, digits: string, radix0: nat, field: int)
    requires digits != "" && HasAt(s, i, digits) && |digits| <= field && (radix0 == 0 || 2 <= radix0 <= 16)
    requires var radix := FieldRadix(radix0, digits);
      AllDigits(digits, radix) && (|digits| < field ==> Stops(s, i + |digits|, radix, digits))
    ensures IntegerField(s, i, radix0, false, field)
      == IntField(false, FieldRadix(radix0, digits), i, i + |digits|)
  {
    var radix := FieldRadix(radix0, digits);
    HasAtChar(s, i, digits, 0);
    RunIsRead(s, i, digits, radix, field);
    NoHexPrefix(s, i, digits, radix0, radix, field);
  }

  /** Digits after a 0x prefix. */
  lemma HexFieldRead(s: string, i: nat, x: char, digits: string, radix: nat, field: int)
    requires (x == 'x' || x == 'X') && (radix == 0 || radix == 16)
    requires HasAt(s, i, ['0', x] + digits) && AllDigits(digits, 16) && 2 + |digits| <= field
    requires 2 + |digits| < field && i + 2 + |digits| < |s| ==> Digit(s[i + 2 + |digits|] as int, 16) < 0
    ensures IntegerField(s, i, radix, false, field) == IntField(false, 16, i + 2, i + 2 + |digits|)
  {
    HasAtParts(s, i, ['0', x], digits);
    HasAtChar(s, i, ['0', x], 0);
    HasAtChar(s, i, ['0', x], 1);
    RunIsRead(s, i + 2, digits, 16, field - 2);
  }

  /** A sign in front of a field. */
  lemma SignedFieldRead(s: string, i: nat, radix: nat, field: int)
    requires i < |s| && field > 0
    ensures IsSign(s[i]) ==>
      IntegerField(s, i, radix, true, field)
        == IntegerField(s, i + 1, radix, false, field - 1).(negative := s[i] == '-')
    ensures !IsSign(s[i]) ==> IntegerField(s, i, radix, true, field) == IntegerField(s, i, radix, false, field)
  {
    IntegerFieldAfterSign(s, i, radix, true, field);
  }

  /** What a reader makes of a field it has found. */
  function Taken(s: string, f: IntField, bits: nat): Read
    requires f.first <= f.end <= |s| && AllDigits(s[f.first..f.end], f.radix)
  {
    if f.first == f.end then Read(f.end, Failed, [])
    else Read(f.end, Matched, [Integer(bits, StoredInteger(s, f, bits))])
  }

  /** A field after n blanks. */
  lemma ReadAfterBlanks(s: string, p: nat, n: nat, bits: nat, signed: bool, radix: nat, field: int)
    requires HasAt(s, p, Repeat(' ', n)) && p + n < |s| && !IsSpace(s[p + n] as int)
    ensures ReadInteger(s, p, false, bits, signed, radix, field)
      == Taken(s, IntegerField(s, p + n, radix, signed, field), bits)
  {
    SkipsBlanks(s, p, n);
  }

  // ---------------------------------------------------------------- whole numbers

  /** The read of a number that ends at e. */
  function Number(e: nat, bits: nat, n: int): Read {
    Read(e, Matched, [Integer(bits, n % Pow2(bits))])
  }

  lemma FieldIsNumber(s: string, f: IntField, digits: string, bits: nat)
    requires HasAt(s, f.first, digits) && f.end == f.first + |digits| && digits != "" && AllDigits(digits, f.radix)
    ensures AllDigits(s[f.first..f.end], f.radix)
    ensures Taken(s, f, bits)
      == Number(f.end, bits, if f.negative then 0 - Horner(digits, f.radix) else Horner(digits, f.radix))
  {
    assert s[f.first..f.end] == digits;
  }

  lemma FirstDigit(s: string, i: nat, digits: string, radix: nat)
    requires HasAt(s, i, digits) && digits != "" && AllDigits(digits, radix)
    ensures i < |s| && !IsSpace(s[i] as int) && !IsSign(s[i])
  {
    HasAtChar(s, i, digits, 0);
    assert 0 <= Digit(digits[0] as int, radix);
  }

  /** Digits after n blanks. */
  lemma ReadsUnsigned(s: string, p: nat, n: nat, digits: string, radix0: nat, signed: bool, bits: nat, field: int)
    requires HasAt(s, p, Repeat(' ', n)) && HasAt(s, p + n, digits)
    requires digits != "" && |digits| <= field && (radix0 == 0 || 2 <= radix0 <= 16)
    requires var radix := FieldRadix(radix0, digits);
      AllDigits(digits, radix) && Ends(s, p + n + |digits|, radix)
    ensures ReadInteger(s, p, false, bits, signed, radix0, field)
      == Number(p + n + |digits|, bits, Horner(digits, FieldRadix(radix0, digits)))
  {
    hide ReadInteger, IntegerField, HasAt, Ends, Stops, Taken, Horner, AllDigits, IsSpace, Repeat, FieldRadix;
    var i, radix := p + n, FieldRadix(radix0, digits);
    EndsStops(s, i + |digits|, radix, digits);
    FirstDigit(s, i, digits, radix);
    ReadAfterBlanks(s, p, n, bits, signed, radix0, field);
    PlainFieldRead(s, i, digits, radix0, field);
    if signed {
      SignedFieldRead(s, i, radix0, field);
    }
    FieldIsNumber(s, IntField(false, radix, i, i + |digits|), digits, bits);
  }

  lemma SignAt(s: string, p: nat, sign: char)
    requires IsSign(sign) && HasAt(s, p, [sign])
    ensures p < |s| && s[p] == sign && !IsSpace(s[p] as int) && HasAt(s, p, Repeat(' ', 0))
    ensures sign == '-' || sign == '+'
  {
    HasAtChar(s, p, [sign], 0);
  }

  lemma SignedField(s: string, p: nat, sign: char, digits: string, radix0: nat, field: int)
    requires IsSign(sign) && HasAt(s, p, [sign]) && HasAt(s, p + 1, digits)
    requires digits != "" && 1 + |digits| <= field && (radix0 == 0 || 2 <= radix0 <= 16)
    requires var radix := FieldRadix(radix0, digits);
      AllDigits(digits, radix) && Ends(s, p + 1 + |digits|, radix)
    ensures IntegerField(s, p, radix0, true, field)
      == IntField(sign == '-', FieldRadix(radix0, digits), p + 1, p + 1 + |digits|)
  {
    hide IntegerField, Ends, Stops, AllDigits, FieldRadix;
    SignAt(s, p, sign);
    EndsStops(s, p + 1 + |digits|, FieldRadix(radix0, digits), digits);
    SignedFieldRead(s, p, radix0, field);
    PlainFieldRead(s, p + 1, digits, radix0, field - 1);
  }

  /** Digits directly after a sign. */
  lemma ReadsSigned(s: string, p: nat, sign: char, digits: string, radix0: nat, bits: nat, field: int)
    requires IsSign(sign) && HasAt(s, p, [sign]) && HasAt(s, p + 1, digits)
    requires digits != "" && 1 + |digits| <= field && (radix0 == 0 || 2 <= radix0 <= 16)
    requires var radix := FieldRadix(radix0, digits);
      AllDigits(digits, radix) && Ends(s, p + 1 + |digits|, radix)
    ensures var radix := FieldRadix(radix0, digits);
      ReadInteger(s, p, false, bits, true, radix0, field)
        == Number(p + 1 + |digits|, bits, if sign == '-' then 0 - Horner(digits, radix) else Horner(digits, radix))
  {
    hide ReadInteger, IntegerField, HasAt, Ends, Taken, Horner, AllDigits, Repeat, IsSign, IsSpace, FieldRadix;
    SignAt(s, p, sign);
    SignedField(s, p, sign, digits, radix0, field);
    ReadAfterBlanks(s, p, 0, bits, true, radix0, field);
    FieldIsNumber(s, IntField(sign == '-', FieldRadix(radix0, digits), p + 1, p + 1 + |digits|), digits, bits);
  }

  /** Hexadecimal digits directly after 0x. */
  lemma ReadsHex(s: string, p: nat, x: char, digits: string, radix: nat, bits: nat, field: int)
    requires (x == 'x' || x == 'X') && (radix == 0 || radix == 16) && HasAt(s, p, ['0', x] + digits)
    requires digits != "" && AllDigits(digits, 16) && 2 + |digits| <= field && Delimits(s, p + 2 + |digits|)
    ensures ReadInteger(s, p, false, bits, true, radix, field)
      == Number(p + 2 + |digits|, bits, Horner(digits, 16))
  {
    HasAtParts(s, p, ['0', x], digits);
    HasAtChar(s, p, ['0', x], 0);
    assert HasAt(s, p, Repeat(' ', 0));
    hide ReadInteger, IntegerField, HasAt, Taken, Horner, AllDigits, Repeat;
    ReadAfterBlanks(s, p, 0, bits, true, radix, field);
    SignedFieldRead(s, p, radix, field);
    HexFieldRead(s, p, x, digits, radix, field);
    FieldIsNumber(s, IntField(false, 16, p + 2, p + 2 + |digits|), digits, bits);
  }
}
