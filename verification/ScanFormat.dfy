/**
 * What the scanner's format language means: for every directive, how far it reads the
 * input, whether it matches, and what it stores.
 */
module ScanFormat {
  import opened Numerals
  import opened FormatText

  // ---------------------------------------------------------------- fields of the input

  /** The first index from i on that holds no white space. */
  function SkipSpace(s: string, i: nat): (j: nat)
    requires i <= |s|
    ensures i <= j <= |s|
    decreases |s| - i
  {
    if i < |s| && IsSpace(s[i] as int) then SkipSpace(s, i + 1) else i
  }

  /** The end of the longest run of at most field digits that starts at i. */
  function RunEnd(s: string, i: nat, radix: nat, field: int): (j: nat)
    requires i <= |s|
    ensures i <= j <= |s| && j - i <= Max(0, field)
    decreases |s| - i
  {
    if i < |s| && 0 < field && 0 <= Digit(s[i] as int, radix) then RunEnd(s, i + 1, radix, field - 1) else i
  }

  /** The run holds digits only and cannot be made longer. */
  lemma {:induction false} RunEndIsMaximal(s: string, i: nat, radix: nat, field: int)
    requires i <= |s|
    ensures var j := RunEnd(s, i, radix, field);
      AllDigits(s[i..j], radix) && (j < |s| && j - i < field ==> Digit(s[j] as int, radix) < 0)
    decreases |s| - i
  {
    if i == |s| || field <= 0 || Digit(s[i] as int, radix) < 0 {
    } else {
      RunEndIsMaximal(s, i + 1, radix, field - 1);
      var j := RunEnd(s, i, radix, field);
      assert forall k :: i < k < j ==> s[k] == s[i + 1..j][k - i - 1];
    }
  }

  /** The end of the longest run of at most field characters that are no white space. */
  function WordEnd(s: string, i: nat, field: int): (j: nat)
    requires i <= |s|
    ensures i <= j <= |s| && j - i <= Max(0, field)
    decreases |s| - i
  {
    if i < |s| && 0 < field && !IsSpace(s[i] as int) then WordEnd(s, i + 1, field - 1) else i
  }

  lemma {:induction false} WordEndIsMaximal(s: string, i: nat, field: int)
    requires i <= |s|
    ensures forall k :: i <= k < WordEnd(s, i, field) ==> !IsSpace(s[k] as int)
    ensures var j := WordEnd(s, i, field);
      j < |s| && j - i < field ==> IsSpace(s[j] as int)
    decreases |s| - i
  {
    if i == |s| || field <= 0 || IsSpace(s[i] as int) {
    } else {
      WordEndIsMaximal(s, i + 1, field - 1);
    }
  }

  /** A scanset: the characters listed between the brackets, or all others. */
  datatype CharSet = CharSet(listed: string, negated: bool)

  predicate Contains(set_: CharSet, c: char) {
    c as int < 256 && (c in set_.listed) != set_.negated
  }

  /** The end of the longest run of at most field members of a scanset. */
  function MemberEnd(s: string, i: nat, set_: CharSet, field: int): (j: nat)
    requires i <= |s|
    ensures i <= j <= |s| && j - i <= Max(0, field)
    decreases |s| - i
  {
    if i < |s| && 0 < field && Contains(set_, s[i]) then MemberEnd(s, i + 1, set_, field - 1) else i
  }

  lemma {:induction false} MemberEndIsMaximal(s: string, i: nat, set_: CharSet, field: int)
    requires i <= |s|
    ensures forall k :: i <= k < MemberEnd(s, i, set_, field) ==> Contains(set_, s[k])
    ensures var j := MemberEnd(s, i, set_, field);
      j < |s| && j - i < field ==> !Contains(set_, s[j])
    decreases |s| - i
  {
    if i == |s| || field <= 0 || !Contains(set_, s[i]) {
    } else {
      MemberEndIsMaximal(s, i + 1, set_, field - 1);
    }
  }

  predicate IsSign(c: char) { c == '-' || c == '+' }

  /** An integer field: its sign, the radix in force, and where its digits are. */
  datatype IntField = IntField(negative: bool, radix: nat, first: nat, end: nat)

  /** A requested radix of zero stands for the one the prefix selects. */
  function IntegerField(s: string, i: nat, radix: nat, signed: bool, field: int): (r: IntField)
    requires i <= |s|
    ensures i <= r.first <= r.end <= |s| && AllDigits(s[r.first..r.end], r.radix)
    ensures r.end - i <= Max(0, field)
  {
    var sign := signed && field > 0 && i < |s| && IsSign(s[i]);
    var j := if sign then i + 1 else i;
    var f := if sign then field - 1 else field;
    var zero := f > 0 && j < |s| && s[j] == '0';
    var hex := zero && (radix == 0 || radix == 16) && f > 1 && j + 1 < |s| && (s[j + 1] == 'x' || s[j + 1] == 'X');
    var base := if hex then 16 else if radix != 0 then radix else if zero then 8 else 10;
    var first := if hex then j + 2 else j;
    RunEndIsMaximal(s, first, base, if hex then f - 2 else f);
    IntField(sign && s[i] == '-', base, first, RunEnd(s, first, base, if hex then f - 2 else f))
  }

  /** Taking the sign off leaves the same digits in a field one shorter. */
  lemma IntegerFieldAfterSign(s: string, i: nat, radix: nat, signed: bool, field: int)
    requires i <= |s|
    ensures var sign := signed && field > 0 && i < |s| && IsSign(s[i]);
      var r := IntegerField(s, i, radix, signed, field);
      r == IntegerField(s, if sign then i + 1 else i, radix, false, if sign then field - 1 else field)
            .(negative := sign && s[i] == '-')
  {
  }

  /** Index k is in the digits of the field r, and all digits before it are zeros. */
  ghost predicate InDigits(s: string, r: IntField, k: nat, field: int) {
    r.first <= k <= r.end <= |s| && RunEnd(s, k, r.radix, field) == r.end
    && AllDigits(s[r.first..k], r.radix) && Horner(s[r.first..k], r.radix) == 0
  }

  predicate HexPrefixAt(s: string, j: nat, radix: nat, field: int) {
    (radix == 0 || radix == 16) && field > 1 && j + 1 < |s| && s[j] == '0' && (s[j + 1] == 'x' || s[j + 1] == 'X')
  }

  lemma FieldAfterHexPrefix(s: string, j: nat, radix: nat, field: int)
    requires HexPrefixAt(s, j, radix, field)
    ensures var r := IntegerField(s, j, radix, false, field);
      r.radix == 16 && r.first == j + 2 && InDigits(s, r, j + 2, field - 2)
  {
  }

  lemma FieldAfterZero(s: string, j: nat, radix: nat, field: int)
    requires j < |s| && field > 0 && s[j] == '0' && !HexPrefixAt(s, j, radix, field) && radix != 1
    ensures var r := IntegerField(s, j, radix, false, field);
      r.radix == (if radix == 0 then 8 else radix) && r.first == j && InDigits(s, r, j + 1, field - 1)
  {
    assert s[j..j + 1] == ['0'];
    assert ['0'][..0] == "";
    assert Digit('0' as int, if radix == 0 then 8 else radix) == 0;
  }

  lemma FieldWithoutZero(s: string, j: nat, radix: nat, field: int)
    requires j <= |s| && !(j < |s| && field > 0 && s[j] == '0')
    ensures var r := IntegerField(s, j, radix, false, field);
      r.radix == (if radix == 0 then 10 else radix) && r.first == j && InDigits(s, r, j, field)
  {
  }

  /** What a target of the given width receives: the digits' value, negated if need be, truncated. */
  function StoredInteger(s: string, r: IntField, bits: nat): nat
    requires r.first <= r.end <= |s| && AllDigits(s[r.first..r.end], r.radix)
  {
    var v: int := Horner(s[r.first..r.end], r.radix);
    (if r.negative then -v else v) % Pow2(bits)
  }

  // ---------------------------------------------------------------- real fields

  /** A decimal number; the original scales it in double precision. */
  datatype Decimal = Decimal(negative: bool, mantissa: nat, exponent: int)

  /** The end of digits with at most one decimal point among them. */
  function MantissaEnd(s: string, i: nat, field: int, dot: bool): (j: nat)
    requires i <= |s|
    ensures i <= j <= |s| && j - i <= Max(0, field)
    decreases |s| - i
  {
    if i < |s| && 0 < field && s[i] == '.' && !dot then MantissaEnd(s, i + 1, field - 1, true)
    else if i < |s| && 0 < field && IsDigit(s[i] as int) then MantissaEnd(s, i + 1, field - 1, dot)
    else i
  }

  /** The decimal digits of a text, everything else dropped. */
  function DigitsOf(s: string): (t: string)
    ensures AllDigits(t, 10) && |t| <= |s|
  {
    if s == "" then ""
    else
      var front, c := s[..|s| - 1], s[|s| - 1];
      if IsDigit(c as int) then DigitsOf(front) + [c] else DigitsOf(front)
  }

  /** How many digits follow the decimal point. */
  function FractionDigits(s: string): (n: nat)
    ensures n <= |s|
  {
    if '.' !in s then 0
    else if s[|s| - 1] == '.' then 0
    else 1 + FractionDigits(s[..|s| - 1])
  }

  /** The exponent accumulator: exact below 10010, and 10000 from there on. */
  function Saturated(n: nat): nat {
    if n < 10010 then n else 10000
  }

  lemma {:induction false} FractionSnoc(s: string, c: char)
    requires c != '.'
    ensures FractionDigits(s + [c]) == if '.' in s then FractionDigits(s) + 1 else 0
  {
    var t := s + [c];
    assert t[..|t| - 1] == s;
    assert '.' in t <==> '.' in s;
  }

  lemma DigitsSnoc(s: string, c: char)
    ensures DigitsOf(s + [c]) == if IsDigit(c as int) then DigitsOf(s) + [c] else DigitsOf(s)
  {
    var t := s + [c];
    assert t[..|t| - 1] == s;
  }

  ghost predicate MantissaValue(s: string, l: nat, x: int, numok: bool) {
    l == Horner(DigitsOf(s), 10) && x == 0 - FractionDigits(s) && (numok <==> DigitsOf(s) != "")
  }

  /** What the mantissa loop keeps about the text it has read: value, scale, point seen. */
  ghost predicate Mantissa(s: string, l: nat, x: int, numok: bool, dot: bool) {
    MantissaValue(s, l, x, numok) && (dot <==> '.' in s)
  }

  lemma MantissaRead(s: string, l: nat, x: int, numok: bool, dot: bool)
    requires Mantissa(s, l, x, numok, dot)
    ensures MantissaValue(s, l, x, numok)
  {
  }

  lemma MantissaPoint(s: string, l: nat, x: int, numok: bool)
    requires Mantissa(s, l, x, numok, false)
    ensures Mantissa(s + ['.'], l, x, numok, true)
  {
    DigitsSnoc(s, '.');
  }

  lemma MantissaDigit(s: string, c: char, l: nat, x: int, numok: bool, dot: bool)
    requires Mantissa(s, l, x, numok, dot) && IsDigit(c as int)
    ensures Mantissa(s + [c], l * 10 + (c as int - '0' as int), if dot then x - 1 else x, true, dot)
  {
    DigitsSnoc(s, c);
    HornerSnoc(DigitsOf(s), c, 10);
    FractionSnoc(s, c);
  }

  lemma MantissaStep(s: string, i: nat, field: int, dot: bool)
    requires i <= |s|
    ensures var point := i < |s| && s[i] == '.' && !dot;
      MantissaEnd(s, i, field, dot)
        == if 0 < field && i < |s| && (point || IsDigit(s[i] as int)) then MantissaEnd(s, i + 1, field - 1, dot || point)
           else i
  {
  }

  /** What the exponent loop keeps about the digits it has read. */
  ghost predicate Exponent(s: string, x: nat) {
    AllDigits(s, 10) && x == Saturated(Horner(s, 10))
  }

  /** One step of the exponent accumulator. */
  lemma SaturatedStep(n: nat, d: nat)
    requires d < 10
    ensures Saturated(10 * n + d) == if Saturated(n) > 1000 then 10000 else 10 * Saturated(n) + d
    ensures Saturated(n) <= 10009
  {
  }

  lemma ExponentDigit(s: string, c: char, x: nat)
    requires Exponent(s, x) && IsDigit(c as int)
    ensures Exponent(s + [c], if x > 1000 then 10000 else 10 * x + (c as int - '0' as int))
  {
    HornerSnoc(s, c, 10);
    SaturatedStep(Horner(s, 10), c as int - '0' as int);
  }

  lemma NothingRead(s: string)
    requires s == ""
    ensures Mantissa(s, 0, 0, false, false) && Exponent(s, 0)
  {
  }

  lemma RunStep(s: string, i: nat, field: int)
    requires i <= |s|
    ensures RunEnd(s, i, 10, field)
      == if 0 < field && i < |s| && IsDigit(s[i] as int) then RunEnd(s, i + 1, 10, field - 1) else i
  {
  }

  /** An exponent: where it ends, whether the number is valid with it, and its value. */
  datatype ExponentField = ExponentField(end: nat, valid: bool, value: int)

  /**
   * The exponent that may follow a mantissa ending at m. Its sign is read even when the
   * field ends at the letter, so such a field can be one character longer than requested.
   */
  function ExponentAt(s: string, m: nat, field: int, numok: bool): (r: ExponentField)
    requires m <= |s|
    ensures m <= r.end <= |s|
  {
    if field > 0 && m < |s| && (s[m] == 'e' || s[m] == 'E') && numok then
      var sign := m + 1 < |s| && IsSign(s[m + 1]);
      var k := if sign then m + 2 else m + 1;
      var end := RunEnd(s, k, 10, field - (k - m));
      RunEndIsMaximal(s, k, 10, field - (k - m));
      var e: int := Saturated(Horner(s[k..end], 10));
      ExponentField(end, k < end, if sign && s[m + 1] == '-' then -e else e)
    else
      ExponentField(m, numok, 0)
  }

  datatype RealField = RealField(end: nat, valid: bool, value: Decimal)

  /** Digits with a point among them, and an exponent. */
  function UnsignedReal(s: string, j: nat, field: int): (r: RealField)
    requires j <= |s|
    ensures j <= r.end <= |s|
  {
    var m := MantissaEnd(s, j, field, false);
    var digits := DigitsOf(s[j..m]);
    var e := ExponentAt(s, m, field - (m - j), digits != "");
    RealField(e.end, e.valid, Decimal(false, Horner(digits, 10), e.value - FractionDigits(s[j..m])))
  }

  function RealFieldAt(s: string, i: nat, field: int): (r: RealField)
    requires i <= |s|
    ensures i <= r.end <= |s|
  {
    if field > 0 && i < |s| && IsSign(s[i]) then
      var r := UnsignedReal(s, i + 1, field - 1);
      r.(value := r.value.(negative := s[i] == '-'))
    else
      UnsignedReal(s, i, field)
  }

  // ---------------------------------------------------------------- readers

  /** A destination whose pointer was fetched, and what was written through it. */
  datatype Dest =
    | Integer(bits: nat, value: nat)
    | Real(double: bool, number: Decimal)
    | Text(memory: string)
    | Count(bits: nat, count: int)
    | Partial(memory: string)

  datatype Status = Matched | Failed | AtEnd

  /** Where a directive leaves the input, how it ended, and the destinations it fetched. */
  datatype Read = Read(pos: nat, status: Status, dests: seq<Dest>)

  function Storing(nostore: bool, d: Dest): seq<Dest> {
    if nostore then [] else [d]
  }

  predicate IsAssigned(d: Dest) { !d.Count? && !d.Partial? }

  /** A reader that matches stores exactly one item unless that is suppressed; a failing one stores none. */
  predicate OneItem(r: Read, nostore: bool) {
    if r.dests == [] then nostore || r.status != Matched
    else !nostore && |r.dests| == 1 && (IsAssigned(r.dests[0]) <==> r.status == Matched)
  }

  function ReadInteger(s: string, pos: nat, nostore: bool, bits: nat, signed: bool, radix: nat, field: int): (r: Read)
    requires pos <= |s|
    ensures pos <= r.pos <= |s| && OneItem(r, nostore)
  {
    var i := SkipSpace(s, pos);
    if i == |s| then Read(i, AtEnd, [])
    else
      var f := IntegerField(s, i, radix, signed, field);
      if f.first == f.end then Read(f.end, Failed, [])
      else Read(f.end, Matched, Storing(nostore, Integer(bits, StoredInteger(s, f, bits))))
  }

  function ReadReal(s: string, pos: nat, nostore: bool, double: bool, field: int): (r: Read)
    requires pos <= |s|
    ensures pos <= r.pos <= |s| && OneItem(r, nostore)
  {
    var i := SkipSpace(s, pos);
    if i == |s| then Read(i, AtEnd, [])
    else
      var f := RealFieldAt(s, i, field);
      if !f.valid then Read(f.end, Failed, [])
      else Read(f.end, Matched, Storing(nostore, Real(double, f.value)))
  }

  function ReadWord(s: string, pos: nat, nostore: bool, field: int): (r: Read)
    requires pos <= |s|
    ensures pos <= r.pos <= |s| && OneItem(r, nostore)
  {
    var i := SkipSpace(s, pos);
    if i == |s| then Read(i, AtEnd, [])
    else
      var j := WordEnd(s, i, field);
      Read(j, Matched, Storing(nostore, Text(s[i..j] + [NUL])))
  }

  /** Unlike the standard, an empty match of a scanset is a match. */
  function ReadMembers(s: string, pos: nat, nostore: bool, set_: CharSet, field: int): (r: Read)
    requires pos <= |s|
    ensures pos <= r.pos <= |s| && OneItem(r, nostore)
  {
    if pos == |s| then Read(pos, AtEnd, Storing(nostore, Partial("")))
    else
      var j := MemberEnd(s, pos, set_, field);
      Read(j, Matched, Storing(nostore, Text(s[pos..j] + [NUL])))
  }

  function ReadChars(s: string, pos: nat, nostore: bool, field: int): (r: Read)
    requires pos <= |s|
    ensures pos <= r.pos <= |s| && OneItem(r, nostore)
  {
    if field == 0 then Read(pos, Failed, Storing(nostore, Partial("")))
    else if field <= |s| - pos then
      var n := Max(0, field);
      Read(pos + n, Matched, Storing(nostore, Text(s[pos..pos + n])))
    else Read(|s|, AtEnd, Storing(nostore, Partial(s[pos..])))
  }

  function ReadLiteral(s: string, pos: nat, c: char): (r: Read)
    requires pos <= |s|
    ensures pos <= r.pos <= |s|
  {
    if pos == |s| then Read(pos, AtEnd, [])
    else if s[pos] == c then Read(pos + 1, Matched, [])
    else Read(pos, Failed, [])
  }

  // ---------------------------------------------------------------- directives

  datatype Directive =
    | End
    | Blank
    | Literal(c: char)
    | Conversion(nostore: bool, given: bool, field: int, length: Length, conv: char)
    | Members(nostore: bool, field: int, set_: CharSet)
    | Unterminated

  datatype Parsed = Parsed(d: Directive, pos: nat)

  function ScanLength(fmt: string, i: nat): (r: (Length, nat))
    ensures i <= r.1 <= i + 2
  {
    match At(fmt, i)
    case 'l' => if At(fmt, i + 1) == 'l' then (LenLongLong, i + 2) else (LenLong, i + 1)
    case 'L' => (LenLongDouble, i + 1)
    case 'h' => if At(fmt, i + 1) == 'h' then (LenChar, i + 2) else (LenShort, i + 1)
    case _ => (LenInt, i)
  }

  /** The first closing bracket or end of text from index j on. */
  function SetEnd(fmt: string, j: nat): (k: nat)
    ensures j <= k && (At(fmt, k) == ']' || At(fmt, k) == NUL)
    ensures forall i :: j <= i < k ==> At(fmt, i) != ']' && At(fmt, i) != NUL
    decreases |fmt| - j
  {
    if At(fmt, j) == ']' || At(fmt, j) == NUL then j else SetEnd(fmt, j + 1)
  }

  /** The scanset whose text starts at index i; its first character is always a member. */
  function ParseSet(fmt: string, i: nat, nostore: bool, field: int): (p: Parsed)
    ensures i < p.pos && (p.d.Members? || p.d.Unterminated?)
    ensures p.d.Members? ==> p.d.nostore == nostore && p.d.field == field
  {
    var negated := At(fmt, i) == '^';
    var start := if negated then i + 1 else i;
    if At(fmt, start) == NUL then Parsed(Unterminated, start + 1)
    else
      var k := SetEnd(fmt, start + 1);
      if At(fmt, k) == NUL then Parsed(Unterminated, k + 1)
      else Parsed(Members(nostore, field, CharSet(fmt[start..k], negated)), k + 1)
  }

  /** The conversion whose text starts after a percent sign, at index i. */
  function ParseConversion(fmt: string, i: nat): (p: Parsed)
    ensures i < p.pos && (p.d.Conversion? || p.d.Members? || p.d.Unterminated?)
  {
    var nostore := At(fmt, i) == '*';
    var i1 := if nostore then i + 1 else i;
    var (n, i2) := GatherNumber(fmt, i1, 0);
    var given := i1 < i2;
    var field := if given then n else INT_MAX;
    var (len, i3) := ScanLength(fmt, i2);
    if At(fmt, i3) == '[' then ParseSet(fmt, i3 + 1, nostore, field)
    else Parsed(Conversion(nostore, given, field, len, At(fmt, i3)), i3 + 1)
  }

  function ParseDirective(fmt: string, i: nat): (p: Parsed)
    ensures i <= p.pos && (p.d == End <==> At(fmt, i) == NUL) && (p.d != End ==> i < p.pos)
  {
    if At(fmt, i) == NUL then Parsed(End, i)
    else if fmt[i] == '%' then ParseConversion(fmt, i + 1)
    else if IsSpace(fmt[i] as int) then Parsed(Blank, SkipSpace(fmt, i + 1))
    else Parsed(Literal(fmt[i]), i + 1)
  }

  /** The three kinds of directive, told apart by their first character. */
  lemma DirectiveCases(fmt: string, i: nat)
    requires At(fmt, i) != NUL
    ensures i < |fmt|
    ensures var p := ParseDirective(fmt, i);
      if fmt[i] == '%' then p == ParseConversion(fmt, i + 1)
      else if IsSpace(fmt[i] as int) then p == Parsed(Blank, SkipSpace(fmt, i + 1))
      else p == Parsed(Literal(fmt[i]), i + 1)
  {
  }

  /** The radix a conversion asks for; zero lets the input decide. */
  function RequestedRadix(conv: char): (r: nat)
    ensures r in {0, 8, 10, 16}
  {
    match conv
    case 'i' => 0
    case 'o' => 8
    case 'x' => 16
    case 'X' => 16
    case 'p' => 16
    case _ => 10
  }

  predicate ReadsInteger(conv: char) {
    conv == 'd' || conv == 'i' || conv == 'u' || conv == 'o' || conv == 'x' || conv == 'X' || conv == 'p'
  }

  predicate ReadsReal(conv: char) {
    conv == 'e' || conv == 'E' || conv == 'f' || conv == 'g' || conv == 'G'
  }

  /** Pointers ignore the length modifier and take no sign. */
  function TargetBits(conv: char, len: Length): nat {
    if conv == 'p' then 32 else Bits(len)
  }

  /** Whether a matched conversion is an input item at all. */
  predicate YieldsItem(conv: char) {
    ReadsInteger(conv) || ReadsReal(conv) || conv == 's' || conv == 'c'
  }

  function Convert(s: string, pos: nat, d: Directive): (r: Read)
    requires d.Conversion? && pos <= |s|
    ensures pos <= r.pos <= |s|
    ensures if YieldsItem(d.conv) then OneItem(r, d.nostore) else forall x :: x in r.dests ==> x.Count?
    ensures |r.dests| <= 1
  {
    if ReadsInteger(d.conv) then
      ReadInteger(s, pos, d.nostore, TargetBits(d.conv, d.length), d.conv != 'p', RequestedRadix(d.conv), d.field)
    else if ReadsReal(d.conv) then
      ReadReal(s, pos, d.nostore, d.length == LenLong || d.length == LenLongDouble, d.field)
    else match d.conv
      case 's' => ReadWord(s, pos, d.nostore, d.field)
      case 'c' => ReadChars(s, pos, d.nostore, if d.given then d.field else 1)
      case 'n' => Read(pos, Matched, Storing(d.nostore, Count(Bits(d.length), Signed(pos, Bits(d.length)))))
      case '%' => ReadLiteral(s, pos, '%')
      case _ => Read(pos, Failed, [])
  }

  function Apply(s: string, pos: nat, d: Directive): (r: Read)
    requires pos <= |s|
    ensures pos <= r.pos <= |s|
  {
    match d
    case End => Read(pos, Failed, [])
    case Blank => Read(SkipSpace(s, pos), Matched, [])
    case Literal(c) => ReadLiteral(s, pos, c)
    case Members(nostore, field, set_) => ReadMembers(s, pos, nostore, set_, field)
    case Unterminated => Read(pos, Failed, [])
    case Conversion(_, _, _, _, _) => Convert(s, pos, d)
  }

  // ---------------------------------------------------------------- whole formats

  /** The number of input items assigned. */
  function Assigned(dests: seq<Dest>): nat {
    if dests == [] then 0
    else Assigned(dests[..|dests| - 1]) + if IsAssigned(dests[|dests| - 1]) then 1 else 0
  }

  lemma AssignedStep(dests: seq<Dest>, d: Dest)
    ensures Assigned(dests + [d]) == Assigned(dests) + if IsAssigned(d) then 1 else 0
    ensures dests + [] == dests
  {
    assert (dests + [d])[..|dests|] == dests;
  }

  predicate StoresItem(d: Directive) {
    match d
    case Members(nostore, _, _) => !nostore
    case Conversion(nostore, _, _, _, conv) => !nostore && YieldsItem(conv)
    case _ => false
  }

  lemma AtMostOne(dests: seq<Dest>, more: seq<Dest>)
    ensures more == [] ==> Assigned(dests + more) == Assigned(dests)
    ensures |more| == 1 ==> Assigned(dests + more) == Assigned(dests) + if IsAssigned(more[0]) then 1 else 0
  {
    if more == [] {
      assert dests + more == dests;
    } else if |more| == 1 {
      assert more == [more[0]];
      AssignedStep(dests, more[0]);
    }
  }

  /** A matched directive assigns one item if it stores one, and a failing one none. */
  lemma ItemCounted(d: Directive, s: string, pos: nat, dests: seq<Dest>)
    requires pos <= |s|
    ensures var r := Apply(s, pos, d);
      Assigned(dests + r.dests) == Assigned(dests) + if r.status == Matched && StoresItem(d) then 1 else 0
  {
    hide Convert, ReadMembers, Assigned;
    var r := Apply(s, pos, d);
    AtMostOne(dests, r.dests);
  }

  datatype Result = Result(result: int, pos: nat, dests: seq<Dest>)

  function Stopped(r: Read, dests: seq<Dest>): Result {
    Result(if r.status == AtEnd && Assigned(dests) == 0 then EOF else Assigned(dests), r.pos, dests + r.dests)
  }

  function Scan(fmt: string, i: nat, s: string, pos: nat, dests: seq<Dest>): Result
    requires pos <= |s|
    decreases |fmt| - i
  {
    var p := ParseDirective(fmt, i);
    if p.d == End then Result(Assigned(dests), pos, dests)
    else
      var r := Apply(s, pos, p.d);
      if r.status == Matched then Scan(fmt, p.pos, s, r.pos, dests + r.dests) else Stopped(r, dests)
  }

  /** A matched directive hands over to the rest of the format. */
  lemma ScanStep(fmt: string, i: nat, s: string, pos: nat, dests: seq<Dest>)
    requires pos <= |s|
    ensures var p := ParseDirective(fmt, i);
      var r := Apply(s, pos, p.d);
      Scan(fmt, i, s, pos, dests)
        == if p.d == End then Result(Assigned(dests), pos, dests)
           else if r.status == Matched then Scan(fmt, p.pos, s, r.pos, dests + r.dests)
           else Stopped(r, dests)
  {
  }

  /** The directives that are not conversions. */
  lemma ApplyText(s: string, pos: nat, d: Directive)
    requires pos <= |s|
    ensures d == Blank ==> Apply(s, pos, d) == Read(SkipSpace(s, pos), Matched, [])
    ensures d.Literal? ==> Apply(s, pos, d) == ReadLiteral(s, pos, d.c)
    ensures d == Blank || d.Literal? ==> !StoresItem(d)
  {
  }
}
