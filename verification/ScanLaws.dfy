/** What holds of every call of the scanner. */
module ScanLaws {
  import opened Numerals
  import opened FormatText
  import opened ScanFormat

  // ---------------------------------------------------------------- integer fields

  lemma RunStarts(s: string, i: nat, radix: nat, field: int)
    requires i <= |s|
    ensures i < RunEnd(s, i, radix, field) <==> i < |s| && 0 < field && 0 <= Digit(s[i] as int, radix)
  {
  }

  /**
   * The digits of an integer field start behind the optional sign and 0x prefix, as far as
   * these fit, and are the longest run that fits behind them: the field is empty exactly
   * when no digit follows there.
   */
  lemma IntegerFieldIsMaximal(s: string, i: nat, radix: nat, signed: bool, field: int)
    requires i <= |s|
    ensures var r := IntegerField(s, i, radix, signed, field);
      var sign := signed && field > 0 && i < |s| && IsSign(s[i]);
      var j, f := if sign then i + 1 else i, if sign then field - 1 else field;
      r.negative == (sign && s[i] == '-')
      && r.first == (if HexPrefixAt(s, j, radix, f) then j + 2 else j)
      && (radix != 0 ==> r.radix == radix)
      && (r.first < r.end <==> r.first < |s| && r.first - i < field && 0 <= Digit(s[r.first] as int, r.radix))
      && (r.end < |s| && r.end - i < field ==> Digit(s[r.end] as int, r.radix) < 0)
  {
    hide RunEnd, Digit, AllDigits;
    var sign := signed && field > 0 && i < |s| && IsSign(s[i]);
    var j, f := if sign then i + 1 else i, if sign then field - 1 else field;
    var r := IntegerField(s, i, radix, signed, field);
    RunEndIsMaximal(s, r.first, r.radix, if r.first == j then f else f - 2);
    RunStarts(s, r.first, r.radix, if r.first == j then f else f - 2);
  }

  /** With radix zero the prefix decides, if the field is wide enough to show it. */
  lemma PrefixDecidesRadix(s: string, i: nat, field: int)
    requires i <= |s|
    ensures var sign := field > 0 && i < |s| && IsSign(s[i]);
      var j, f := if sign then i + 1 else i, if sign then field - 1 else field;
      IntegerField(s, i, 0, true, field).radix ==
        if f > 0 && j < |s| && s[j] == '0' then
          if f > 1 && j + 1 < |s| && (s[j + 1] == 'x' || s[j + 1] == 'X') then 16 else 8
        else 10
  {
  }

  // ---------------------------------------------------------------- real fields

  /** The letter of the exponent is the last character of the field, and a sign follows it. */
  predicate SignPastField(s: string, i: nat, field: int)
    requires i <= |s|
  {
    var sign := field > 0 && i < |s| && IsSign(s[i]);
    var j, f := if sign then i + 1 else i, if sign then field - 1 else field;
    var m := MantissaEnd(s, j, f, false);
    f - (m - j) == 1 && m + 1 < |s| && (s[m] == 'e' || s[m] == 'E') && DigitsOf(s[j..m]) != "" && IsSign(s[m + 1])
  }

  lemma ExponentWithin(s: string, m: nat, field: int, numok: bool)
    requires m <= |s| && 0 <= field
    ensures var past := field == 1 && m + 1 < |s| && (s[m] == 'e' || s[m] == 'E') && numok && IsSign(s[m + 1]);
      if past then ExponentAt(s, m, field, numok).end == m + 2
      else ExponentAt(s, m, field, numok).end - m <= field
  {
  }

  /** A real field keeps to its width exactly when no exponent sign stands just past it. */
  lemma RealFieldWidth(s: string, i: nat, field: int)
    requires i <= |s| && 0 <= field
    ensures var n := RealFieldAt(s, i, field).end - i;
      if SignPastField(s, i, field) then n == field + 1 else n <= field
  {
    var sign := field > 0 && i < |s| && IsSign(s[i]);
    var j, f := if sign then i + 1 else i, if sign then field - 1 else field;
    var m := MantissaEnd(s, j, f, false);
    ExponentWithin(s, m, f - (m - j), DigitsOf(s[j..m]) != "");
    hide ExponentAt, DigitsOf, MantissaEnd, FractionDigits, Horner;
  }

  /** A field that is exceeded: with width two, three characters of 1e+5 are read. */
  lemma FieldExceeded()
    ensures RealFieldAt("1e+5", 0, 2).end == 3
  {
    var s := "1e+5";
    assert MantissaEnd(s, 1, 1, false) == 1;
    assert s[0..1][..0] == "" && DigitsOf("") == "" && DigitsOf(s[0..1]) == "1";
    assert SignPastField(s, 0, 2);
    RealFieldWidth(s, 0, 2);
  }

  // ---------------------------------------------------------------- scansets

  /**
   * A scanset lists the characters up to the first closing bracket behind its first
   * character, which is a member whatever it is; without such a bracket there is no scanset.
   */
  lemma SetListsItsText(fmt: string, i: nat, nostore: bool, field: int)
    ensures var p := ParseSet(fmt, i, nostore, field);
      var start := if At(fmt, i) == '^' then i + 1 else i;
      match p.d
      case Members(_, _, set_) =>
        p.pos <= |fmt| && fmt[p.pos - 1] == ']' && start < p.pos - 1
        && set_.listed == fmt[start..p.pos - 1] && NUL !in set_.listed
        && set_.listed[0] == fmt[start] && ']' !in set_.listed[1..]
        && set_.negated == (At(fmt, i) == '^')
      case _ =>
        At(fmt, start) == NUL
        || exists k :: start < k && At(fmt, k) == NUL && forall l :: start < l < k ==> At(fmt, l) != ']'
  {
    var start := if At(fmt, i) == '^' then i + 1 else i;
    if At(fmt, start) != NUL {
      var k := SetEnd(fmt, start + 1);
      if At(fmt, k) != NUL {
        var listed := fmt[start..k];
        assert forall l :: 0 <= l < |listed| ==> listed[l] == At(fmt, start + l);
        assert forall l :: 0 <= l < |listed| - 1 ==> listed[1..][l] == At(fmt, start + 1 + l);
      }
    }
  }

  // ---------------------------------------------------------------- whole calls

  /** Where the directive loop stands at its head, and how many %n it has carried out. */
  datatype Head = Head(i: nat, pos: nat, dests: seq<Dest>, counts: nat)

  predicate StoresCount(d: Directive) { d.Conversion? && d.conv == 'n' && !d.nostore }

  /** The head after k more directives, if the loop gets that far. */
  function HeadAfter(fmt: string, s: string, k: nat): (h: Head)
    ensures h.pos <= |s|
  {
    if k == 0 then Head(0, 0, [], 0)
    else
      var h := HeadAfter(fmt, s, k - 1);
      var p := ParseDirective(fmt, h.i);
      var r := Apply(s, h.pos, p.d);
      if p.d == End || r.status != Matched then h
      else Head(p.pos, r.pos, h.dests + r.dests, if StoresCount(p.d) then h.counts + 1 else h.counts)
  }

  lemma NextHead(fmt: string, s: string, k: nat)
    requires k > 0
    ensures var h := HeadAfter(fmt, s, k - 1);
      var p := ParseDirective(fmt, h.i);
      var r := Apply(s, h.pos, p.d);
      HeadAfter(fmt, s, k)
        == if p.d == End || r.status != Matched then h
           else Head(p.pos, r.pos, h.dests + r.dests, if StoresCount(p.d) then h.counts + 1 else h.counts)
  {
  }

  lemma FirstHead(fmt: string, s: string)
    ensures HeadAfter(fmt, s, 0) == Head(0, 0, [], 0) && Assigned([]) == 0
  {
  }

  /** A matched directive fetches a pointer exactly if it stores an item or a count. */
  lemma MatchedFetches(s: string, pos: nat, d: Directive)
    requires pos <= |s| && Apply(s, pos, d).status == Matched
    ensures |Apply(s, pos, d).dests| == if StoresItem(d) || StoresCount(d) then 1 else 0
    ensures !(StoresItem(d) && StoresCount(d))
  {
    hide ReadInteger, ReadReal, ReadWord, ReadMembers, ReadChars;
  }

  lemma HeadStep(fmt: string, s: string, h: Head)
    requires h.pos <= |s| && |h.dests| == Assigned(h.dests) + h.counts
    ensures var p := ParseDirective(fmt, h.i);
      var r := Apply(s, h.pos, p.d);
      r.status == Matched ==>
        |h.dests + r.dests| == Assigned(h.dests + r.dests) + if StoresCount(p.d) then h.counts + 1 else h.counts
  {
    hide Apply, ParseDirective, Assigned, StoresItem, StoresCount;
    var d := ParseDirective(fmt, h.i).d;
    ItemCounted(d, s, h.pos, h.dests);
    if Apply(s, h.pos, d).status == Matched {
      MatchedFetches(s, h.pos, d);
    }
  }

  /**
   * At every head of the directive loop the number of destinations fetched is the number of
   * items assigned plus the number of unsuppressed %n directives carried out.
   */
  lemma {:induction false} FetchedAtHead(fmt: string, s: string, k: nat)
    ensures var h := HeadAfter(fmt, s, k);
      |h.dests| == Assigned(h.dests) + h.counts
  {
    hide HeadAfter, Apply, ParseDirective, Assigned, StoresCount;
    FirstHead(fmt, s);
    if k == 0 {
    } else {
      FetchedAtHead(fmt, s, k - 1);
      HeadStep(fmt, s, HeadAfter(fmt, s, k - 1));
      NextHead(fmt, s, k);
    }
  }

  /** The calls that HeadAfter describes are those that Scan describes. */
  lemma {:induction false} HeadsAreOnTheWay(fmt: string, s: string, k: nat)
    ensures var h := HeadAfter(fmt, s, k);
      Scan(fmt, h.i, s, h.pos, h.dests) == Scan(fmt, 0, s, 0, [])
  {
    hide HeadAfter, Apply, ParseDirective, Scan;
    FirstHead(fmt, s);
    if k == 0 {
    } else {
      HeadsAreOnTheWay(fmt, s, k - 1);
      var h := HeadAfter(fmt, s, k - 1);
      ScanStep(fmt, h.i, s, h.pos, h.dests);
      NextHead(fmt, s, k);
    }
  }

  /** How the call stops: Matched stands for the end of the format. */
  function StopStatus(fmt: string, i: nat, s: string, pos: nat): Status
    requires pos <= |s|
    decreases |fmt| - i
  {
    var p := ParseDirective(fmt, i);
    if p.d == End then Matched
    else
      var r := Apply(s, pos, p.d);
      if r.status == Matched then StopStatus(fmt, p.pos, s, r.pos) else r.status
  }

  /** A directive that runs into the end of the input has consumed all of it. */
  lemma AtEndConsumesAll(s: string, pos: nat, d: Directive)
    requires pos <= |s| && Apply(s, pos, d).status == AtEnd
    ensures Apply(s, pos, d).pos == |s|
  {
    hide IntegerField, RealFieldAt, StoredInteger, WordEnd, MemberEnd, SkipSpace;
  }

  lemma StopStep(fmt: string, i: nat, s: string, pos: nat)
    requires pos <= |s|
    ensures var p := ParseDirective(fmt, i);
      var r := Apply(s, pos, p.d);
      StopStatus(fmt, i, s, pos)
        == if p.d == End then Matched
           else if r.status == Matched then StopStatus(fmt, p.pos, s, r.pos) else r.status
  {
  }

  /**
   * The call returns EOF exactly when nothing was assigned and it stopped at a directive
   * that found the input exhausted, and then all of the input is consumed; otherwise it
   * returns the number of items assigned.
   */
  lemma {:induction false} ResultExplained(fmt: string, i: nat, s: string, pos: nat, dests: seq<Dest>)
    requires pos <= |s|
    ensures var r := Scan(fmt, i, s, pos, dests);
      (r.result == EOF <==> StopStatus(fmt, i, s, pos) == AtEnd && Assigned(r.dests) == 0)
      && (r.result != EOF ==> r.result == Assigned(r.dests))
      && (StopStatus(fmt, i, s, pos) == AtEnd ==> r.pos == |s|)
      && pos <= r.pos <= |s| && dests <= r.dests
    decreases |fmt| - i
  {
    var p := ParseDirective(fmt, i);
    var r := Apply(s, pos, p.d);
    ScanStep(fmt, i, s, pos, dests);
    StopStep(fmt, i, s, pos);
    ItemCounted(p.d, s, pos, dests);
    if r.status == AtEnd {
      AtEndConsumesAll(s, pos, p.d);
    }
    if p.d == End || r.status != Matched {
    } else {
      ResultExplained(fmt, p.pos, s, r.pos, dests + r.dests);
    }
    hide Apply, ParseDirective, Scan, StopStatus, Assigned;
  }
}
