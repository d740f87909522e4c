/** What every directive of the scanner makes of the text it meets. */
module ScanTexts {
  import opened Numerals
  import opened FormatText
  import opened ReadBack
  import S = ScanFormat

  /** White space is the space and the five control characters from the tabulator on. */
  lemma WhiteSpaceCodes(c: char)
    ensures IsSpace(c as int) <==> c == ' ' || c == '\t' || c == '\n' || c == '\U{000b}' || c == '\U{000c}' || c == '\r'
  {
  }

  // ---------------------------------------------------------------- integers

  /** The radix that a conversion requests; zero for %i, which leaves it to the text. */
  function Requested(conv: char): nat {
    if conv == 'i' then 0 else if conv == 'o' then 8 else if conv in "xXp" then 16 else 10
  }

  /** The radix in which the digits behind a prefix are read. */
  function RadixBehind(conv: char, prefix: string, digits: string): nat {
    if prefix != "" then 16
    else if Requested(conv) != 0 then Requested(conv)
    else if digits != "" && digits[0] == '0' then 8 else 10
  }

  /** The width of the target of an integer conversion. */
  function TargetWidth(conv: char, len: Length): nat {
    if conv == 'p' then 32 else if len == LenChar then 8 else if len == LenShort then 16
    else if len == LenLongLong then 64 else 32
  }

  lemma IntegerConversions(s: string, p: nat, nostore: bool, given: bool, field: int, len: Length, conv: char)
    requires p <= |s| && conv in "diuoxXp"
    ensures S.Convert(s, p, S.Conversion(nostore, given, field, len, conv))
      == S.ReadInteger(s, p, nostore, TargetWidth(conv, len), conv != 'p', Requested(conv), field)
  {
    hide S.ReadInteger, S.ReadReal, S.ReadWord, S.ReadChars, S.ReadLiteral;
  }

  /** A sign where one may stand, a prefix where one may stand, and digits, in a text that starts at index i. */
  predicate IntegerAt(s: string, i: nat, sign: string, prefix: string, digits: string, conv: char, field: int) {
    HasAt(s, i, sign + (prefix + digits)) && |sign + (prefix + digits)| <= field
    && IsSignText(sign) && (sign != "" ==> conv != 'p')
    && (prefix == "" || ((prefix == "0x" || prefix == "0X") && conv in "ixXp"))
    && AllDigits(digits, RadixBehind(conv, prefix, digits))
    && (|sign + (prefix + digits)| < field ==>
          Stops(s, i + |sign + (prefix + digits)|, RadixBehind(conv, prefix, digits), prefix + digits))
  }

  lemma StopsAtNoDigit(s: string, e: nat, radix: nat, digits: string)
    ensures Stops(s, e, radix, digits) && e < |s| ==> Digit(s[e] as int, radix) < 0
  {
  }

  lemma ZeroIsInk()
    ensures !IsSpace('0' as int) && !S.IsSign('0') && !IsSpace('-' as int) && !IsSpace('+' as int)
  {
  }

  lemma PrefixDigits(s: string, j: nat, prefix: string, digits: string, conv: char, field: int)
    requires conv in "diuoxXp" && digits != "" && IntegerAt(s, j, "", prefix, digits, conv, field)
    ensures j < |s| && !IsSpace(s[j] as int) && !S.IsSign(s[j])
    ensures S.IntegerField(s, j, Requested(conv), false, field)
      == S.IntField(false, RadixBehind(conv, prefix, digits), j + |prefix|, j + |prefix| + |digits|)
  {
    hide S.IntegerField, AllDigits, Stops, HasAt, IsSpace, Digit;
    assert "" + (prefix + digits) == prefix + digits;
    HasAtInside(s, j, prefix + digits);
    if prefix == "" {
      assert prefix + digits == digits;
      FirstDigit(s, j, digits, RadixBehind(conv, prefix, digits));
      PlainFieldRead(s, j, digits, Requested(conv), field);
    } else {
      HasAtChar(s, j, prefix + digits, 0);
      assert prefix == ['0', prefix[1]];
      ZeroIsInk();
      StopsAtNoDigit(s, j + |prefix + digits|, 16, prefix + digits);
      HexFieldRead(s, j, prefix[1], digits, Requested(conv), field);
    }
  }

  lemma SignSplit(s: string, i: nat, sign: string, rest: string)
    requires IsSignText(sign) && HasAt(s, i, sign + rest)
    ensures HasAt(s, i + |sign|, rest) && i + |sign| <= |s|
    ensures sign != "" ==> i < |s| && s[i] == sign[0]
  {
    HasAtParts(s, i, sign, rest);
    if sign != "" {
      HasAtChar(s, i, sign, 0);
    }
  }

  lemma SignedDigits(s: string, i: nat, sign: string, prefix: string, digits: string, conv: char, field: int)
    requires conv in "diuoxXp" && digits != "" && IntegerAt(s, i, sign, prefix, digits, conv, field)
    ensures i < |s| && !IsSpace(s[i] as int)
    ensures var first := i + |sign| + |prefix|;
      S.IntegerField(s, i, Requested(conv), conv != 'p', field)
        == S.IntField(sign == "-", RadixBehind(conv, prefix, digits), first, first + |digits|)
  {
    hide S.IntegerField, AllDigits, Stops, HasAt, IsSpace, RadixBehind, Requested;
    SignSplit(s, i, sign, prefix + digits);
    assert "" + (prefix + digits) == prefix + digits;
    var j := i + |sign|;
    PrefixDigits(s, j, prefix, digits, conv, field - |sign|);
    ZeroIsInk();
    S.IntegerFieldAfterSign(s, i, Requested(conv), conv != 'p', field);
  }

  lemma DigitsThere(s: string, i: nat, sign: string, prefix: string, digits: string)
    requires HasAt(s, i, sign + (prefix + digits))
    ensures var first := i + |sign| + |prefix|;
      first + |digits| <= |s| && s[first..first + |digits|] == digits
  {
    HasAtParts(s, i, sign, prefix + digits);
    HasAtParts(s, i + |sign|, prefix, digits);
  }

  lemma FieldStored(s: string, p: nat, i: nat, nostore: bool, bits: nat, signed: bool, radix0: nat, field: int,
                    f: S.IntField, digits: string)
    requires p <= |s| && S.SkipSpace(s, p) == i < |s| && S.IntegerField(s, i, radix0, signed, field) == f
    requires f.first < f.end && s[f.first..f.end] == digits
    ensures AllDigits(digits, f.radix)
    ensures var n: int := Horner(digits, f.radix);
      S.ReadInteger(s, p, nostore, bits, signed, radix0, field)
        == S.Read(f.end, S.Matched,
                  if nostore then [] else [S.Integer(bits, (if f.negative then -n else n) % Pow2(bits))])
  {
    hide Horner, AllDigits, S.IntegerField, S.SkipSpace, Pow2;
  }

  /**
   * An integer conversion that comes to a written number reads all of it and stores what its
   * digits denote, however many they are, negated exactly for a minus, modulo the target.
   */
  lemma IntegerIsStored(s: string, p: nat, i: nat, sign: string, prefix: string, digits: string,
                        nostore: bool, given: bool, field: int, len: Length, conv: char)
    requires conv in "diuoxXp" && WhiteUpTo(s, p, i) && digits != ""
    requires IntegerAt(s, i, sign, prefix, digits, conv, field)
    ensures var n: int := Horner(digits, RadixBehind(conv, prefix, digits));
      S.Convert(s, p, S.Conversion(nostore, given, field, len, conv))
        == S.Read(i + |sign + (prefix + digits)|, S.Matched,
                  if nostore then []
                  else [S.Integer(TargetWidth(conv, len), (if sign == "-" then -n else n) % Pow2(TargetWidth(conv, len)))])
  {
    hide S.Convert, S.IntegerField, S.ReadInteger, AllDigits, Horner, HasAt, Stops, IsSpace, RadixBehind, Requested, TargetWidth, Pow2;
    IntegerConversions(s, p, nostore, given, field, len, conv);
    SkipsWhite(s, p, i);
    SignedDigits(s, i, sign, prefix, digits, conv, field);
    DigitsThere(s, i, sign, prefix, digits);
    var first := i + |sign| + |prefix|;
    FieldStored(s, p, i, nostore, TargetWidth(conv, len), conv != 'p', Requested(conv), field,
                S.IntField(sign == "-", RadixBehind(conv, prefix, digits), first, first + |digits|), digits);
  }

  lemma EmptyUnsigned(s: string, j: nat, prefix: string, conv: char, field: int)
    requires conv in "diuoxXp" && HasAt(s, j, prefix) && |prefix| <= field
    requires prefix == "" || ((prefix == "0x" || prefix == "0X") && conv in "ixXp")
    requires |prefix| < field ==> Stops(s, j + |prefix|, RadixBehind(conv, prefix, ""), prefix)
    ensures j <= |s|
    ensures var f := S.IntegerField(s, j, Requested(conv), false, field);
      f.first == f.end == j + |prefix|
  {
    HasAtInside(s, j, prefix);
    if prefix == "" {
      assert Digit('0' as int, RadixBehind(conv, prefix, "")) == 0;
      S.FieldWithoutZero(s, j, Requested(conv), field);
    } else {
      assert prefix == ['0', prefix[1]] && prefix + "" == prefix;
      HexFieldRead(s, j, prefix[1], "", Requested(conv), field);
    }
  }

  /** What stands behind a missing sign is none, if a prefix stands there. */
  lemma SignThenPrefix(s: string, i: nat, sign: string, prefix: string, conv: char, field: int)
    requires i < |s| && HasAt(s, i, sign + prefix) && IsSignText(sign) && (prefix == "" || prefix == "0x" || prefix == "0X")
    requires sign == "" && prefix == "" && conv != 'p' && 0 < field ==> !S.IsSign(s[i])
    ensures sign == "" && conv != 'p' && 0 < field ==> !S.IsSign(s[i])
  {
    if sign == "" && prefix != "" {
      HasAtChar(s, i, sign + prefix, 0);
    }
  }

  lemma EmptyField(s: string, i: nat, sign: string, prefix: string, conv: char, field: int)
    requires conv in "diuoxXp" && i < |s| && IntegerAt(s, i, sign, prefix, "", conv, field)
    requires sign == "" && prefix == "" && conv != 'p' && 0 < field ==> !S.IsSign(s[i])
    ensures var f := S.IntegerField(s, i, Requested(conv), conv != 'p', field);
      f.first == f.end == i + |sign| + |prefix|
  {
    hide S.IntegerField, HasAt, Digit, Stops;
    assert prefix + "" == prefix;
    SignSplit(s, i, sign, prefix);
    var j := i + |sign|;
    SignThenPrefix(s, i, sign, prefix, conv, field);
    S.IntegerFieldAfterSign(s, i, Requested(conv), conv != 'p', field);
    EmptyUnsigned(s, j, prefix, conv, field - |sign|);
  }

  /** It fails, storing nothing, where no digit follows the sign and the prefix. */
  lemma NoIntegerThere(s: string, p: nat, i: nat, sign: string, prefix: string,
                       nostore: bool, given: bool, field: int, len: Length, conv: char)
    requires conv in "diuoxXp" && WhiteUpTo(s, p, i) && i < |s| && IntegerAt(s, i, sign, prefix, "", conv, field)
    requires sign == "" && prefix == "" && conv != 'p' && 0 < field ==> !S.IsSign(s[i])
    ensures S.Convert(s, p, S.Conversion(nostore, given, field, len, conv))
      == S.Read(i + |sign| + |prefix|, S.Failed, [])
  {
    hide S.Convert, HasAt, IsSpace, TargetWidth, Horner;
    IntegerConversions(s, p, nostore, given, field, len, conv);
    SkipsWhite(s, p, i);
    EmptyField(s, i, sign, prefix, conv, field);
  }

  // ---------------------------------------------------------------- exhausted input

  /** Where nothing but white space is left, integers, reals and words meet the end of the input. */
  lemma NothingLeft(s: string, p: nat, nostore: bool, given: bool, field: int, len: Length, conv: char)
    requires WhiteUpTo(s, p, |s|) && conv in "diuoxXpeEfgGs"
    ensures S.Convert(s, p, S.Conversion(nostore, given, field, len, conv)) == S.Read(|s|, S.AtEnd, [])
  {
    SkipsWhite(s, p, |s|);
  }

  // ---------------------------------------------------------------- texts

  /** A store of a text, or none when it is suppressed. */
  function Stores(nostore: bool, t: string): seq<S.Dest> {
    if nostore then [] else [S.Text(t)]
  }

  lemma {:induction false} WordIsRead(s: string, i: nat, t: string, field: int)
    requires HasAt(s, i, t) && |t| <= field && forall k :: 0 <= k < |t| ==> !IsSpace(t[k] as int)
    requires |t| < field && i + |t| < |s| ==> IsSpace(s[i + |t|] as int)
    ensures S.WordEnd(s, i, field) == i + |t|
    decreases |t|
  {
    hide IsSpace;
    if t == "" {
    } else {
      assert t == [t[0]] + t[1..];
      HasAtParts(s, i, [t[0]], t[1..]);
      HasAtChar(s, i, t, 0);
      WordIsRead(s, i + 1, t[1..], field - 1);
    }
  }

  /**
   * %s skips white space and stores, with a terminator, the characters up to the next white
   * space, but no more than the field width.
   */
  lemma WordIsStored(s: string, p: nat, i: nat, t: string, nostore: bool, given: bool, field: int, len: Length)
    requires WhiteUpTo(s, p, i) && i < |s| && HasAt(s, i, t) && forall k :: 0 <= k < |t| ==> !IsSpace(t[k] as int)
    requires |t| <= field && (|t| < field && i + |t| < |s| ==> IsSpace(s[i + |t|] as int))
    ensures S.Convert(s, p, S.Conversion(nostore, given, field, len, 's'))
      == S.Read(i + |t|, S.Matched, Stores(nostore, t + [NUL]))
  {
    hide IsSpace;
    SkipsWhite(s, p, i);
    WordIsRead(s, i, t, field);
  }

  /** %c stores the next characters as they are, one unless a width is given, and no terminator. */
  lemma CharsAreStored(s: string, p: nat, t: string, nostore: bool, given: bool, field: int, len: Length)
    requires HasAt(s, p, t) && |t| == (if given then field else 1) && t != ""
    ensures S.Convert(s, p, S.Conversion(nostore, given, field, len, 'c'))
      == S.Read(p + |t|, S.Matched, Stores(nostore, t))
  {
  }

  /** If the input does not hold that many it is used up, and the item does not count; a width of zero fails. */
  lemma CharsAreMissing(s: string, p: nat, nostore: bool, given: bool, field: int, len: Length)
    requires p <= |s|
    ensures var r := S.Convert(s, p, S.Conversion(nostore, given, field, len, 'c'));
      var n := if given then field else 1;
      (n == 0 ==> r == S.Read(p, S.Failed, if nostore then [] else [S.Partial("")]))
      && (|s| - p < n && n > 0 ==> r == S.Read(|s|, S.AtEnd, if nostore then [] else [S.Partial(s[p..])]))
  {
  }

  lemma {:induction false} MembersAreRead(s: string, i: nat, t: string, set_: S.CharSet, field: int)
    requires HasAt(s, i, t) && |t| <= field && forall k :: 0 <= k < |t| ==> S.Contains(set_, t[k])
    requires |t| < field && i + |t| < |s| ==> !S.Contains(set_, s[i + |t|])
    ensures S.MemberEnd(s, i, set_, field) == i + |t|
    decreases |t|
  {
    hide S.Contains;
    if t == "" {
    } else {
      assert t == [t[0]] + t[1..];
      HasAtParts(s, i, [t[0]], t[1..]);
      HasAtChar(s, i, t, 0);
      MembersAreRead(s, i + 1, t[1..], set_, field - 1);
    }
  }

  /** A character belongs to a set if it is listed, or if it is not and the set is negated; codes from 256 on never do. */
  predicate Belongs(c: char, listed: string, negated: bool) {
    c as int < 256 && if negated then c !in listed else c in listed
  }

  /** A scanset skips nothing and stores, with a terminator, the longest run of members that fits the field. */
  lemma MembersAreStored(s: string, p: nat, t: string, listed: string, negated: bool, nostore: bool, field: int)
    requires p < |s| && HasAt(s, p, t) && forall k :: 0 <= k < |t| ==> Belongs(t[k], listed, negated)
    requires |t| <= field && (|t| < field && p + |t| < |s| ==> !Belongs(s[p + |t|], listed, negated))
    ensures S.Apply(s, p, S.Members(nostore, field, S.CharSet(listed, negated)))
      == S.Read(p + |t|, S.Matched, Stores(nostore, t + [NUL]))
  {
    MembersAreRead(s, p, t, S.CharSet(listed, negated), field);
  }

  lemma NoMembersLeft(s: string, nostore: bool, field: int, set_: S.CharSet)
    ensures S.Apply(s, |s|, S.Members(nostore, field, set_))
      == S.Read(|s|, S.AtEnd, if nostore then [] else [S.Partial("")])
  {
  }

  // ---------------------------------------------------------------- counts and the rest

  /** %n reads nothing and stores the number of characters consumed, as far as its target holds it. */
  lemma CountIsStored(s: string, p: nat, given: bool, field: int, len: Length) returns (count: int)
    requires p <= |s|
    ensures S.Convert(s, p, S.Conversion(true, given, field, len, 'n')) == S.Read(p, S.Matched, [])
    ensures var bits := TargetWidth('n', len);
      S.Convert(s, p, S.Conversion(false, given, field, len, 'n')) == S.Read(p, S.Matched, [S.Count(bits, count)])
      && count % Pow2(bits) == p % Pow2(bits) && 0 <= 2 * count + Pow2(bits) < 2 * Pow2(bits)
      && (2 * p < Pow2(bits) ==> count == p)
  {
    hide Pow2, Signed;
    var bits := TargetWidth('n', len);
    count := Signed(p, bits);
    SignedCongruent(p, bits);
    if 2 * p < Pow2(bits) {
      CongruentEqual(count, p, Pow2(bits));
    }
  }

  /** Any other conversion fails where it stands. */
  lemma UnknownFails(s: string, p: nat, nostore: bool, given: bool, field: int, len: Length, conv: char)
    requires p <= |s| && conv !in "diuoxXpeEfgGscn%"
    ensures S.Convert(s, p, S.Conversion(nostore, given, field, len, conv)) == S.Read(p, S.Failed, [])
  {
  }

  // ---------------------------------------------------------------- text in the format

  /** The length of the longest beginning of t that stands in s at p. */
  function Common(t: string, s: string, p: nat): (n: nat)
    requires p <= |s|
    ensures n <= |t| && HasAt(s, p, t[..n])
    ensures n < |t| && p + n < |s| ==> s[p + n] != t[n]
  {
    if t == "" || p == |s| || s[p] != t[0] then 0
    else
      var n := Common(t[1..], s, p + 1);
      assert t[..n + 1] == [t[0]] + t[1..][..n];
      assert s[p..p + n + 1] == [s[p]] + s[p + 1..p + 1 + n];
      n + 1
  }

  /** How a call ends that meets the wrong character, or the end of the input. */
  function Stuck(s: string, p: nat, dests: seq<S.Dest>): S.Result
    requires p <= |s|
  {
    S.Result(if p == |s| && S.Assigned(dests) == 0 then EOF else S.Assigned(dests), p, dests)
  }

  lemma OneCharacter(fmt: string, i: nat, s: string, p: nat, dests: seq<S.Dest>, c: char, j: nat)
    requires p <= |s| && i < |fmt|
    requires (fmt[i] == c && c != '%' && c != NUL && !IsSpace(c as int) && j == i + 1)
      || (HasAt(fmt, i, "%%") && c == '%' && j == i + 2)
    ensures S.Scan(fmt, i, s, p, dests)
      == if p < |s| && s[p] == c then S.Scan(fmt, j, s, p + 1, dests) else Stuck(s, p, dests)
  {
    hide S.Scan;
    if fmt[i] == '%' {
      HasAtChar(fmt, i, "%%", 0);
      HasAtChar(fmt, i, "%%", 1);
    }
    S.ScanStep(fmt, i, s, p, dests);
    assert dests + [] == dests;
  }

  /** %% matches a percent sign and nothing else; it does not skip white space. */
  lemma PercentMatches(fmt: string, i: nat, s: string, p: nat, dests: seq<S.Dest>)
    requires p <= |s| && HasAt(fmt, i, "%%")
    ensures S.Scan(fmt, i, s, p, dests)
      == if p < |s| && s[p] == '%' then S.Scan(fmt, i + 2, s, p + 1, dests) else Stuck(s, p, dests)
  {
    OneCharacter(fmt, i, s, p, dests, '%', i + 2);
  }

  /**
   * Text in the format matches itself. Where it does not stand in the input the call is over:
   * it stops behind the longest common beginning, stores nothing more, and returns the items
   * assigned so far, or EOF if there are none and the input was exhausted.
   */
  lemma {:induction false} TextMatchesItself(fmt: string, i: nat, t: string, s: string, p: nat, dests: seq<S.Dest>)
    requires p <= |s| && HasAt(fmt, i, t)
    requires forall k :: 0 <= k < |t| ==> t[k] != '%' && t[k] != NUL && !IsSpace(t[k] as int)
    ensures var n := Common(t, s, p);
      S.Scan(fmt, i, s, p, dests)
        == if n == |t| then S.Scan(fmt, i + |t|, s, p + |t|, dests) else Stuck(s, p + n, dests)
    decreases |t|
  {
    hide S.Scan, HasAt, IsSpace, Stuck;
    if t == "" {
    } else {
      assert t == [t[0]] + t[1..];
      HasAtParts(fmt, i, [t[0]], t[1..]);
      HasAtChar(fmt, i, t, 0);
      HasAtInside(fmt, i, t);
      OneCharacter(fmt, i, s, p, dests, t[0], i + 1);
      if p < |s| && s[p] == t[0] {
        TextMatchesItself(fmt, i + 1, t[1..], s, p + 1, dests);
      }
    }
  }

  /** White space in the format, however much, matches white space in the input, however much, also none. */
  lemma WhiteMatchesWhite(fmt: string, i: nat, j: nat, s: string, p: nat, q: nat, dests: seq<S.Dest>)
    requires WhiteUpTo(fmt, i, j) && i < j && WhiteUpTo(s, p, q)
    ensures S.Scan(fmt, i, s, p, dests) == S.Scan(fmt, j, s, q, dests)
  {
    hide S.Scan;
    SkipsWhite(fmt, i + 1, j);
    SkipsWhite(s, p, q);
    S.ScanStep(fmt, i, s, p, dests);
    assert dests + [] == dests;
  }

  /** A scanset that is not closed ends the call. */
  lemma OpenSetStops(fmt: string, i: nat, s: string, p: nat, dests: seq<S.Dest>)
    requires p <= |s| && At(fmt, i) != NUL && S.ParseDirective(fmt, i).d == S.Unterminated
    ensures S.Scan(fmt, i, s, p, dests) == S.Result(S.Assigned(dests), p, dests)
  {
    hide S.Scan, S.ParseDirective;
    S.ScanStep(fmt, i, s, p, dests);
    assert dests + [] == dests;
  }

  /** So does the end of the format. */
  lemma FormatEnds(fmt: string, s: string, p: nat, dests: seq<S.Dest>)
    requires p <= |s|
    ensures S.Scan(fmt, |fmt|, s, p, dests) == S.Result(S.Assigned(dests), p, dests)
  {
  }
}
