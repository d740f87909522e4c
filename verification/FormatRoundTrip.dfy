/** A whole format printed and scanned back: every argument returns, in order. */
module FormatRoundTrip {
  import opened Numerals
  import opened FormatText
  import opened ReadBack
  import opened Pieces
  import opened RoundTrip
  import opened ScanTexts
  import opened TextRoundTrip
  import opened Spelling
  import P = PrintfFormat
  import S = ScanFormat

  /** An integer or string directive and the argument it prints. */
  datatype Item = Item(d: P.Directive, arg: P.Arg)

  /** A clean integer text, or a word. */
  predicate Good(it: Item, charSigned: bool) {
    Spellable(it.d) && |P.Piece(it.d, it.arg, charSigned)| <= INT_MAX
    && if P.IsInteger(it.d.conv) then Clean(it.d, P.ValueOf(it.d, it.arg, charSigned), S.RequestedRadix(it.d.conv))
       else it.d.conv == 's' && IsWord(P.StringText(it.d, it.arg))
  }

  predicate AllGood(items: seq<Item>, charSigned: bool) {
    forall k :: 0 <= k < |items| ==> Good(items[k], charSigned)
  }

  function PrintPart(it: Item): string {
    "%" + (Spelled(it.d) + " ")
  }

  function ScanPart(it: Item): string {
    "%" + (ScanSpelled(it.d.length, it.d.conv) + " ")
  }

  /** The directives, each followed by a blank. */
  function PrintFormat(items: seq<Item>): string {
    if items == [] then "" else PrintPart(items[0]) + PrintFormat(items[1..])
  }

  function ScanFormatFor(items: seq<Item>): string {
    if items == [] then "" else ScanPart(items[0]) + ScanFormatFor(items[1..])
  }

  function TextPart(it: Item, charSigned: bool): string {
    P.Piece(it.d, it.arg, charSigned) + " "
  }

  function Text(items: seq<Item>, charSigned: bool): string {
    if items == [] then "" else TextPart(items[0], charSigned) + Text(items[1..], charSigned)
  }

  function Args(items: seq<Item>): seq<P.Arg> {
    seq(|items|, k requires 0 <= k < |items| => items[k].arg)
  }

  /** What the scanner stores: the argument as far as its target keeps it, or the text and a terminator. */
  function Kept(it: Item): S.Dest {
    if P.IsInteger(it.d.conv) then S.Integer(Target(it.d), it.arg.bits % Pow2(Target(it.d)))
    else S.Text(P.StringText(it.d, it.arg) + [NUL])
  }

  function AllKept(items: seq<Item>): seq<S.Dest> {
    if items == [] then [] else [Kept(items[0])] + AllKept(items[1..])
  }

  lemma NoItems(charSigned: bool)
    ensures PrintFormat([]) == "" && ScanFormatFor([]) == "" && Text([], charSigned) == "" && AllKept([]) == []
  {
  }

  /** The first item of a list and the others. */
  lemma FirstItem(items: seq<Item>, charSigned: bool)
    requires items != [] && AllGood(items, charSigned)
    ensures Good(items[0], charSigned) && AllGood(items[1..], charSigned)
    ensures PrintFormat(items) == PrintPart(items[0]) + PrintFormat(items[1..])
    ensures ScanFormatFor(items) == ScanPart(items[0]) + ScanFormatFor(items[1..])
    ensures Text(items, charSigned) == TextPart(items[0], charSigned) + Text(items[1..], charSigned)
    ensures AllKept(items) == [Kept(items[0])] + AllKept(items[1..])
  {
    hide Good, PrintPart, ScanPart, TextPart, Kept;
  }

  // ---------------------------------------------------------------- printing

  lemma CleanHasNoComma(it: Item, charSigned: bool)
    requires Good(it, charSigned)
    ensures P.IsInteger(it.d.conv) ==> !HasComma(it.d, P.ValueOf(it.d, it.arg, charSigned))
  {
    hide P.ValueOf, P.Piece, P.StringText, OpenlyRead;
  }

  lemma GoodPrints(it: Item, charSigned: bool, p: P.Progress)
    requires Good(it, charSigned)
    ensures Spellable(it.d) && !P.Stops(it.d, it.arg, charSigned) && it.d.conv != NUL
    ensures P.Convert(it.d, it.arg, charSigned, p)
      == P.Progress(p.out + P.Piece(it.d, it.arg, charSigned), p.next + 1, p.stores)
    ensures p.out + P.Piece(it.d, it.arg, charSigned) + " " == p.out + TextPart(it, charSigned)
  {
    hide P.ValueOf, P.Body, P.Piece, P.StringText, LeadingZeros, Gap, Legible, IsWord;
    CleanHasNoComma(it, charSigned);
  }

  lemma ThisChar(fmt: string, i: nat, c: char)
    requires HasAt(fmt, i, [c])
    ensures i < |fmt| && fmt[i] == c && At(fmt, i) == c
  {
    HasAtChar(fmt, i, [c], 0);
  }

  /** One item of the format. */
  lemma PrintsItem(it: Item, fmt: string, i: nat, args: seq<P.Arg>, charSigned: bool, p: P.Progress)
    requires Good(it, charSigned) && HasAt(fmt, i, PrintPart(it))
    requires p.next < |args| && args[p.next] == it.arg
    ensures P.Render(fmt, i, args, charSigned, p)
      == P.Render(fmt, i + |PrintPart(it)|, args, charSigned,
                  P.Progress(p.out + TextPart(it, charSigned), p.next + 1, p.stores))
  {
    hide Good, HasAt, At, Spelled, Spellable, TextPart, P.Render, P.ParseDirective, P.Piece, P.Stops, P.Convert;
    GoodPrints(it, charSigned, p);
    HasAtParts(fmt, i, "%", Spelled(it.d) + " ");
    HasAtParts(fmt, i + 1, Spelled(it.d), " ");
    ThisChar(fmt, i, '%');
    var j := i + 1 + |Spelled(it.d)|;
    ThisChar(fmt, j, ' ');
    ParserUndoesSpelling(fmt, i + 1, it.d, args, p.next);
    P.RenderStep(fmt, i, args, charSigned, p);
    var q := P.Progress(p.out + P.Piece(it.d, it.arg, charSigned), p.next + 1, p.stores);
    assert p.(next := p.next) == p && P.ArgAt(args, p.next) == it.arg;
    P.RenderStep(fmt, j, args, charSigned, q);
  }

  lemma {:induction false} PrintsAll(items: seq<Item>, fmt: string, i: nat, args: seq<P.Arg>, charSigned: bool, p: P.Progress)
    requires AllGood(items, charSigned)
    requires HasAt(fmt, i, PrintFormat(items)) && i + |PrintFormat(items)| == |fmt|
    requires p.next + |items| == |args| && forall k :: 0 <= k < |items| ==> args[p.next + k] == items[k].arg
    ensures var out := p.out + Text(items, charSigned);
      P.Render(fmt, i, args, charSigned, p) == P.Done(P.Progress(out, |args|, p.stores), |out|)
    decreases |items|
  {
    hide Good, AllGood, HasAt, PrintPart, TextPart, PrintFormat, Text, P.Render;
    NoItems(charSigned);
    if items == [] {
      P.RenderEnds(fmt, args, charSigned, p);
    } else {
      var it, rest := items[0], items[1..];
      FirstItem(items, charSigned);
      HasAtParts(fmt, i, PrintPart(it), PrintFormat(rest));
      assert args[p.next + 0] == it.arg;
      PrintsItem(it, fmt, i, args, charSigned, p);
      var q := P.Progress(p.out + TextPart(it, charSigned), p.next + 1, p.stores);
      assert forall k :: 0 <= k < |rest| ==> args[q.next + k] == args[p.next + (k + 1)] == rest[k].arg;
      PrintsAll(rest, fmt, i + |PrintPart(it)|, args, charSigned, q);
      assert q.out + Text(rest, charSigned) == p.out + (TextPart(it, charSigned) + Text(rest, charSigned));
    }
  }

  // ---------------------------------------------------------------- scanning

  lemma {:induction false} SkipTwice(s: string, p: nat)
    requires p <= |s|
    ensures S.SkipSpace(s, S.SkipSpace(s, p)) == S.SkipSpace(s, p)
    decreases |s| - p
  {
    if p == |s| || !IsSpace(s[p] as int) {
    } else {
      SkipTwice(s, p + 1);
    }
  }

  lemma {:induction false} SkipOver(s: string, p: nat, blanks: string)
    requires HasAt(s, p, blanks) && forall k :: 0 <= k < |blanks| ==> blanks[k] == ' '
    ensures S.SkipSpace(s, p) == S.SkipSpace(s, p + |blanks|)
    decreases |blanks|
  {
    if blanks == "" {
    } else {
      HasAtChar(s, p, blanks, 0);
      assert blanks == [' '] + blanks[1..];
      HasAtParts(s, p, [' '], blanks[1..]);
      SkipOver(s, p + 1, blanks[1..]);
    }
  }

  /** The conversion that reads an item. */
  function ItemRead(it: Item, s: string, p: nat): S.Read
    requires p <= |s|
  {
    S.Convert(s, p, S.Conversion(false, false, INT_MAX, it.d.length, it.d.conv))
  }

  /** It reads the same from any blank in front of the item. */
  lemma ReadFromBlank(it: Item, s: string, p: nat, q: nat)
    requires P.IsInteger(it.d.conv) || it.d.conv == 's'
    requires p <= |s| && q <= |s| && S.SkipSpace(s, p) == S.SkipSpace(s, q)
    ensures ItemRead(it, s, p) == ItemRead(it, s, q)
  {
  }

  /** Where the digits or the text of an item at index q end. */
  function ItemEnd(it: Item, q: nat, charSigned: bool): nat {
    if P.IsInteger(it.d.conv) then DigitsEnd(it.d, P.ValueOf(it.d, it.arg, charSigned), q)
    else q + TextGap(it.d, it.arg) + |P.StringText(it.d, it.arg)|
  }

  function ItemTrail(it: Item, charSigned: bool): string {
    if P.IsInteger(it.d.conv) then Trail(it.d, P.ValueOf(it.d, it.arg, charSigned)) else TextTrail(it.d, it.arg)
  }

  lemma BlankEnds(s: string, e: nat)
    requires HasAt(s, e, " ")
    ensures Delimits(s, e) && WordEnds(s, e)
  {
    HasAtChar(s, e, " ", 0);
  }

  lemma PieceIsString(d: P.Directive, arg: P.Arg, charSigned: bool)
    requires d.conv == 's'
    ensures P.Piece(d, arg, charSigned) == P.StringPiece(d, arg)
    ensures |P.StringText(d, arg)| <= |P.StringPiece(d, arg)|
  {
    hide P.StringText;
  }

  /** An item with a blank behind it is read up to its own trailing blanks. */
  lemma ItemIsRead(it: Item, s: string, q: nat, charSigned: bool)
    requires Good(it, charSigned) && HasAt(s, q, TextPart(it, charSigned))
    ensures q <= |s| && ItemRead(it, s, q) == S.Read(ItemEnd(it, q, charSigned), S.Matched, [Kept(it)])
    ensures var e, trail := ItemEnd(it, q, charSigned), ItemTrail(it, charSigned);
      e <= |s| && HasAt(s, e, trail) && (forall k :: 0 <= k < |trail| ==> trail[k] == ' ')
      && e + |trail| == q + |P.Piece(it.d, it.arg, charSigned)|
  {
    hide P.ValueOf, P.Piece, P.IntegerPiece, P.StringPiece, P.StringText, Clean, S.Convert, DigitsEnd, Trail, TextGap;
    hide TextTrail, Spellable, HasAt, IsWord, Delimits, WordEnds;
    var piece := P.Piece(it.d, it.arg, charSigned);
    HasAtParts(s, q, piece, " ");
    BlankEnds(s, q + |piece|);
    HasAtInside(s, q, piece);
    if P.IsInteger(it.d.conv) {
      var v := P.ValueOf(it.d, it.arg, charSigned);
      PieceIsInteger(it.d, it.arg, charSigned);
      ReadsBackArgument(it.d, it.arg, charSigned, s, q);
      PieceAt(it.d, v, s, q);
      TrailIsBlank(it.d, v);
      HasAtInside(s, DigitsEnd(it.d, v, q), Trail(it.d, v));
    } else {
      PieceIsString(it.d, it.arg, charSigned);
      StringParts(it.d, it.arg);
      ReadsBackString(it.d, it.arg, s, q);
      StringAt(it.d, it.arg, s, q);
      HasAtInside(s, ItemEnd(it, q, charSigned), TextTrail(it.d, it.arg));
    }
  }

  /** One item is read, and the blanks behind it are skipped. */
  lemma ReadsItem(it: Item, s: string, p: nat, q: nat, charSigned: bool)
    requires Good(it, charSigned) && HasAt(s, q, TextPart(it, charSigned))
    requires p <= |s| && q <= |s| && S.SkipSpace(s, p) == S.SkipSpace(s, q)
    ensures var e := ItemEnd(it, q, charSigned);
      e <= |s| && ItemRead(it, s, p) == S.Read(e, S.Matched, [Kept(it)])
      && q + |TextPart(it, charSigned)| <= |s|
      && S.SkipSpace(s, e) == S.SkipSpace(s, q + |TextPart(it, charSigned)|)
  {
    hide P.ValueOf, P.Piece, P.StringText, Clean, ItemRead, ItemEnd, ItemTrail, Spellable, HasAt, IsWord, S.SkipSpace, Kept;
    var piece := P.Piece(it.d, it.arg, charSigned);
    HasAtInside(s, q, TextPart(it, charSigned));
    HasAtParts(s, q, piece, " ");
    ReadFromBlank(it, s, p, q);
    ItemIsRead(it, s, q, charSigned);
    SkipOver(s, ItemEnd(it, q, charSigned), ItemTrail(it, charSigned));
    SkipOver(s, q + |piece|, " ");
  }

  lemma ApplyItem(it: Item, s: string, p: nat)
    requires p <= |s|
    ensures S.Apply(s, p, S.Conversion(false, false, INT_MAX, it.d.length, it.d.conv)) == ItemRead(it, s, p)
  {
  }

  /** A single blank in a format is one directive. */
  lemma BlankDirective(fmt: string, j: nat)
    requires At(fmt, j) == ' ' && (j + 1 < |fmt| ==> !IsSpace(fmt[j + 1] as int))
    ensures S.ParseDirective(fmt, j) == S.Parsed(S.Blank, j + 1)
  {
  }

  lemma GoodConversion(it: Item, charSigned: bool)
    requires Good(it, charSigned)
    ensures it.d.length != LenLongDouble && IsConversion(it.d.conv)
  {
  }

  /** One item of the format. */
  lemma ScansItem(it: Item, fmt: string, i: nat, s: string, p: nat, q: nat, dests: seq<S.Dest>, charSigned: bool)
    requires Good(it, charSigned) && HasAt(fmt, i, ScanPart(it))
    requires HasAt(s, q, TextPart(it, charSigned)) && p <= |s| && S.SkipSpace(s, p) == S.SkipSpace(s, q)
    requires i + |ScanPart(it)| < |fmt| ==> !IsSpace(fmt[i + |ScanPart(it)|] as int)
    ensures q + |TextPart(it, charSigned)| <= |s|
    ensures var p' := S.SkipSpace(s, q + |TextPart(it, charSigned)|);
      S.Scan(fmt, i, s, p, dests) == S.Scan(fmt, i + |ScanPart(it)|, s, p', dests + [Kept(it)])
  {
    hide HasAt, At, S.Scan, ItemRead, Kept, TextPart, ScanSpelled, S.ParseConversion, S.Convert, S.SkipSpace;
    hide IsSpace, ItemEnd, Good;
    HasAtInside(s, q, TextPart(it, charSigned));
    var len, conv := it.d.length, it.d.conv;
    var spelled := ScanSpelled(len, conv);
    HasAtParts(fmt, i, "%", spelled + " ");
    HasAtParts(fmt, i + 1, spelled, " ");
    ThisChar(fmt, i, '%');
    var j := i + 1 + |spelled|;
    ThisChar(fmt, j, ' ');
    GoodConversion(it, charSigned);
    ScannerUndoesSpelling(fmt, i + 1, len, conv);
    ReadsItem(it, s, p, q, charSigned);
    ApplyItem(it, s, p);
    S.ScanStep(fmt, i, s, p, dests);
    S.ScanStep(fmt, j, s, ItemEnd(it, q, charSigned), dests + [Kept(it)]);
    assert dests + [Kept(it)] + [] == dests + [Kept(it)];
    assert j + 1 == i + |ScanPart(it)|;
    BlankDirective(fmt, j);
  }

  lemma NextPartStarts(items: seq<Item>, fmt: string, i: nat)
    requires HasAt(fmt, i, ScanFormatFor(items)) && i + |ScanFormatFor(items)| == |fmt|
    ensures i < |fmt| ==> !IsSpace(fmt[i] as int)
  {
    if items != [] {
      HasAtChar(fmt, i, ScanFormatFor(items), 0);
    }
  }

  /** The first item is scanned, and the others are in place behind it. */
  lemma ScansFirst(items: seq<Item>, fmt: string, i: nat, s: string, p: nat, q: nat,
                   dests: seq<S.Dest>, charSigned: bool)
    requires items != [] && AllGood(items, charSigned)
    requires HasAt(fmt, i, ScanFormatFor(items)) && i + |ScanFormatFor(items)| == |fmt|
    requires HasAt(s, q, Text(items, charSigned)) && q + |Text(items, charSigned)| == |s|
    requires p <= |s| && S.SkipSpace(s, p) == S.SkipSpace(s, q)
    ensures var i', q' := i + |ScanPart(items[0])|, q + |TextPart(items[0], charSigned)|;
      HasAt(fmt, i', ScanFormatFor(items[1..])) && i' + |ScanFormatFor(items[1..])| == |fmt|
      && HasAt(s, q', Text(items[1..], charSigned)) && q' + |Text(items[1..], charSigned)| == |s|
      && S.Scan(fmt, i, s, p, dests) == S.Scan(fmt, i', s, S.SkipSpace(s, q'), dests + [Kept(items[0])])
  {
    hide Good, AllGood, HasAt, ScanPart, TextPart, Text, ScanFormatFor, S.Scan, S.SkipSpace, IsSpace, Kept, AllKept;
    var it, rest := items[0], items[1..];
    FirstItem(items, charSigned);
    HasAtParts(fmt, i, ScanPart(it), ScanFormatFor(rest));
    HasAtParts(s, q, TextPart(it, charSigned), Text(rest, charSigned));
    NextPartStarts(rest, fmt, i + |ScanPart(it)|);
    ScansItem(it, fmt, i, s, p, q, dests, charSigned);
  }

  lemma Joins(dests: seq<S.Dest>, d: S.Dest, more: seq<S.Dest>)
    ensures dests + [d] + more == dests + ([d] + more)
  {
  }

  lemma KeptIsAssigned(it: Item)
    ensures S.IsAssigned(Kept(it))
  {
  }

  lemma KeptCounts(items: seq<Item>, dests: seq<S.Dest>, charSigned: bool)
    requires items != [] && AllGood(items, charSigned)
    ensures AllGood(items[1..], charSigned)
    ensures S.Assigned(dests + [Kept(items[0])]) == S.Assigned(dests) + 1
    ensures dests + [Kept(items[0])] + AllKept(items[1..]) == dests + AllKept(items)
  {
    hide S.Assigned, S.IsAssigned, Kept, AllKept, Good, AllGood;
    S.AssignedStep(dests, Kept(items[0]));
    KeptIsAssigned(items[0]);
    FirstItem(items, charSigned);
    Joins(dests, Kept(items[0]), AllKept(items[1..]));
  }

  lemma NoTextEnds(items: seq<Item>, charSigned: bool)
    ensures items == [] ==> Text(items, charSigned) == ""
  {
  }

  lemma SkipAtEnd(s: string)
    ensures S.SkipSpace(s, |s|) == |s|
  {
  }

  lemma {:induction false} ScansAll(items: seq<Item>, fmt: string, i: nat, s: string, p: nat, q: nat,
                                    dests: seq<S.Dest>, charSigned: bool)
    requires AllGood(items, charSigned)
    requires HasAt(fmt, i, ScanFormatFor(items)) && i + |ScanFormatFor(items)| == |fmt|
    requires HasAt(s, q, Text(items, charSigned)) && q + |Text(items, charSigned)| == |s|
    requires p <= |s| && S.SkipSpace(s, p) == S.SkipSpace(s, q) && (items == [] ==> p == |s|)
    ensures S.Scan(fmt, i, s, p, dests)
      == S.Result(S.Assigned(dests) + |items|, |s|, dests + AllKept(items))
    decreases |items|
  {
    hide Good, AllGood, HasAt, ScanPart, TextPart, Text, ScanFormatFor, S.Scan, S.SkipSpace, Kept, AllKept, S.Assigned;
    NoItems(charSigned);
    if items == [] {
      FormatEnds(fmt, s, p, dests);
      assert dests + [] == dests;
    } else {
      ScansFirst(items, fmt, i, s, p, q, dests, charSigned);
      KeptCounts(items, dests, charSigned);
      var i', q' := i + |ScanPart(items[0])|, q + |TextPart(items[0], charSigned)|;
      NoTextEnds(items[1..], charSigned);
      SkipTwice(s, q');
      SkipAtEnd(s);
      ScansAll(items[1..], fmt, i', s, S.SkipSpace(s, q'), q', dests + [Kept(items[0])], charSigned);
    }
  }

  /**
   * For any list of clean integer directives and any arguments: printing them with blanks
   * between and scanning the text with the matching conversions returns the number of
   * items, consumes the whole text, and stores every argument as far as its target keeps it.
   */
  lemma PrintThenScan(items: seq<Item>, charSigned: bool)
    requires AllGood(items, charSigned)
    ensures var text := Text(items, charSigned);
      P.Render(PrintFormat(items), 0, Args(items), charSigned, P.Progress("", 0, []))
        == P.Done(P.Progress(text, |items|, []), |text|)
      && S.Scan(ScanFormatFor(items), 0, text, 0, []) == S.Result(|items|, |text|, AllKept(items))
  {
    hide AllGood, PrintFormat, ScanFormatFor, Text, AllKept, P.Render, S.Scan, HasAt;
    var fmt, sfmt, text := PrintFormat(items), ScanFormatFor(items), Text(items, charSigned);
    WholeText(fmt);
    WholeText(sfmt);
    WholeText(text);
    NoTextEnds(items, charSigned);
    PrintsAll(items, fmt, 0, Args(items), charSigned, P.Progress("", 0, []));
    ScansAll(items, sfmt, 0, text, 0, 0, [], charSigned);
    assert [] + AllKept(items) == AllKept(items);
  }
}
