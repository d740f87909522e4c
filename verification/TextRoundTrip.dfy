/** Strings printed and read back. */
module TextRoundTrip {
  import opened Numerals
  import opened FormatText
  import opened ReadBack
  import opened ScanTexts
  import P = PrintfFormat
  import S = ScanFormat

  /** The scanner's %s with the same length and no field width. */
  function ReadString(d: P.Directive, s: string, p: nat): S.Read
    requires p <= |s|
  {
    S.Convert(s, p, S.Conversion(false, false, INT_MAX, d.length, 's'))
  }

  /** A text without white space that is not empty. */
  predicate IsWord(t: string) {
    t != "" && forall k :: 0 <= k < |t| ==> !IsSpace(t[k] as int)
  }

  /** The blanks in front of the text of a string piece. */
  function TextGap(d: P.Directive, arg: P.Arg): nat {
    if d.flags.left then 0 else Max(0, d.width - |P.StringText(d, arg)|)
  }

  function TextTrail(d: P.Directive, arg: P.Arg): string {
    P.Trailing(d, d.width - |P.StringText(d, arg)|)
  }

  lemma StringParts(d: P.Directive, arg: P.Arg)
    ensures P.StringPiece(d, arg) == Repeat(' ', TextGap(d, arg)) + P.StringText(d, arg) + TextTrail(d, arg)
    ensures forall k :: 0 <= k < |TextTrail(d, arg)| ==> TextTrail(d, arg)[k] == ' '
  {
    hide P.StringText;
  }

  /** A word ends at index e. */
  predicate WordEnds(s: string, e: nat) {
    e == |s| || (e < |s| && IsSpace(s[e] as int))
  }

  lemma ReadsWord(d: P.Directive, s: string, p: nat, i: nat, t: string)
    requires p <= |s| && S.SkipSpace(s, p) == i && HasAt(s, i, t) && IsWord(t) && |t| <= INT_MAX && WordEnds(s, i + |t|)
    ensures ReadString(d, s, p) == S.Read(i + |t|, S.Matched, [S.Text(t + [NUL])])
  {
    hide IsSpace, S.SkipSpace, S.Convert;
    HasAtChar(s, i, t, 0);
    SkippedIsWhite(s, p);
    WordIsStored(s, p, i, t, false, false, INT_MAX, d.length);
  }

  lemma TrailEndsWord(s: string, e: nat, trail: string)
    requires HasAt(s, e, trail) && WordEnds(s, e + |trail|)
    requires forall k :: 0 <= k < |trail| ==> trail[k] == ' '
    ensures WordEnds(s, e)
  {
    if trail != "" {
      HasAtChar(s, e, trail, 0);
    }
  }

  /** Where the text of a string piece at index p is, and that it ends there. */
  lemma StringAt(d: P.Directive, arg: P.Arg, s: string, p: nat)
    requires HasAt(s, p, P.StringPiece(d, arg)) && WordEnds(s, p + |P.StringPiece(d, arg)|)
    ensures var e := p + TextGap(d, arg) + |P.StringText(d, arg)|;
      HasAt(s, p, Repeat(' ', TextGap(d, arg))) && HasAt(s, p + TextGap(d, arg), P.StringText(d, arg))
      && HasAt(s, e, TextTrail(d, arg)) && WordEnds(s, e) && e + |TextTrail(d, arg)| == p + |P.StringPiece(d, arg)|
  {
    hide P.StringPiece, P.StringText, TextGap, TextTrail, HasAt, WordEnds, Repeat;
    StringParts(d, arg);
    var a, t, b := Repeat(' ', TextGap(d, arg)), P.StringText(d, arg), TextTrail(d, arg);
    RepeatLength(' ', TextGap(d, arg));
    HasAtParts(s, p, a + t, b);
    HasAtParts(s, p, a, t);
    TrailEndsWord(s, p + |a| + |t|, b);
  }

  /** A printed word, wherever it stands, is read back up to its trailing blanks. */
  lemma ReadsBackString(d: P.Directive, arg: P.Arg, s: string, p: nat)
    requires IsWord(P.StringText(d, arg)) && |P.StringText(d, arg)| <= INT_MAX
    requires HasAt(s, p, P.StringPiece(d, arg)) && WordEnds(s, p + |P.StringPiece(d, arg)|)
    ensures p <= |s|
    ensures ReadString(d, s, p)
      == S.Read(p + TextGap(d, arg) + |P.StringText(d, arg)|, S.Matched, [S.Text(P.StringText(d, arg) + [NUL])])
  {
    hide P.StringPiece, P.StringText, TextGap, TextTrail, HasAt, WordEnds, Repeat, ReadString, IsSpace;
    var i, t := p + TextGap(d, arg), P.StringText(d, arg);
    HasAtInside(s, p, P.StringPiece(d, arg));
    StringAt(d, arg, s, p);
    HasAtInside(s, i, t);
    HasAtChar(s, i, t, 0);
    SkipsBlanks(s, p, TextGap(d, arg));
    ReadsWord(d, s, p, i, t);
  }

  /** Whatever %s stores is a word. */
  lemma OnlyWordsAreRead(d: P.Directive, s: string, p: nat, t: string)
    requires p <= |s| && ReadString(d, s, p).dests == [S.Text(t + [NUL])]
    ensures IsWord(t)
  {
    hide IsSpace, S.SkipSpace;
    SkippedIsWhite(s, p);
    var i := S.SkipSpace(s, p);
    S.WordEndIsMaximal(s, i, INT_MAX);
    var w := s[i..S.WordEnd(s, i, INT_MAX)];
    assert (w + [NUL])[..|w|] == w && (t + [NUL])[..|t|] == t;
    assert w == t;
  }

  /** A printed string is read back by %s exactly when it is not empty and holds no white space. */
  lemma StringRoundTripExactly(d: P.Directive, arg: P.Arg)
    requires |P.StringText(d, arg)| <= INT_MAX
    ensures var t := P.StringText(d, arg);
      var r := ReadString(d, P.StringPiece(d, arg), 0);
      r.status == S.Matched && r.dests == [S.Text(t + [NUL])] <==> IsWord(t)
  {
    hide P.StringPiece, P.StringText, ReadString, IsWord, TextGap;
    var t, s := P.StringText(d, arg), P.StringPiece(d, arg);
    if IsWord(t) {
      assert HasAt(s, 0, s) && WordEnds(s, 0 + |s|);
      ReadsBackString(d, arg, s, 0);
    }
    if ReadString(d, s, 0).dests == [S.Text(t + [NUL])] {
      OnlyWordsAreRead(d, s, 0, t);
    }
  }
}
