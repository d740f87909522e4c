/** The bitmap of a scanset: eight 32-bit words, one bit for each character code. */
module ScanSet {
  import opened ScanFormat

  const CHARLIMIT: nat := 256
  const MAPTYPEBITS: nat := 32

  // The operations on words, by bit number as a word.

  function Mask(k: bv32): bv32
    requires k < 32
  {
    1 << k
  }

  function And(a: bv32, b: bv32): bv32 { a & b }

  function Or(a: bv32, b: bv32): bv32 { a | b }

  predicate BitOf(w: bv32, k: bv32)
  {
    k < 32 && And(w, Mask(k)) != 0
  }

  function OrBit(w: bv32, k: bv32): bv32
  {
    if k < 32 then Or(w, Mask(k)) else w
  }

  lemma OrSameBit(w: bv32, k: bv32)
    requires k < 32
    ensures BitOf(OrBit(w, k), k)
  {
  }

  lemma MasksDisjoint(j: bv32, k: bv32)
    requires j < 32 && k < 32 && j != k
    ensures And(Mask(k), Mask(j)) == 0
  {
  }

  lemma OrDisjointMask(w: bv32, m: bv32, n: bv32)
    requires And(m, n) == 0
    ensures And(Or(w, m), n) == And(w, n)
  {
  }

  lemma OrOtherBit(w: bv32, j: bv32, k: bv32)
    requires j < 32 && k < 32 && j != k
    ensures BitOf(OrBit(w, k), j) == BitOf(w, j)
  {
    hide Mask, And, Or;
    MasksDisjoint(j, k);
    OrDisjointMask(w, Mask(k), Mask(j));
  }

  lemma NotWithBit(w: bv32, j: bv32)
    requires j < 32
    ensures BitOf(!w, j) <==> !BitOf(w, j)
  {
  }

  lemma ZeroBit(j: bv32)
    ensures !BitOf(0, j)
  {
  }

  // Bit numbers of a word are below 32 and stay apart when converted.

  lemma NumberRoundTrip(k: nat)
    requires k < MAPTYPEBITS
    ensures (k as bv32) as nat == k && (k as bv32) < 32
  {
    assert k % 0x1_0000_0000 == k;
  }

  lemma NumberInjective(j: nat, k: nat)
    requires j < MAPTYPEBITS && k < MAPTYPEBITS && j != k
    ensures j as bv32 != k as bv32
  {
    NumberRoundTrip(j);
    NumberRoundTrip(k);
  }

  predicate HasBit(w: bv32, k: nat)
    requires k < MAPTYPEBITS
  {
    BitOf(w, k as bv32)
  }

  function SetBit(w: bv32, k: nat): bv32
    requires k < MAPTYPEBITS
  {
    OrBit(w, k as bv32)
  }

  predicate Test(map_: seq<bv32>, c: nat)
    requires |map_| == CHARLIMIT / MAPTYPEBITS && c < CHARLIMIT
  {
    HasBit(map_[c / MAPTYPEBITS], c % MAPTYPEBITS)
  }

  /** The bitmap holds exactly the listed characters. */
  ghost predicate Denotes(map_: seq<bv32>, set_: CharSet) {
    |map_| == CHARLIMIT / MAPTYPEBITS
    && forall c: char :: c as int < CHARLIMIT ==> (Test(map_, c as int) <==> Contains(set_, c))
  }

  /** Setting a bit sets that one and leaves the others alone. */
  lemma TestAfterOr(w: bv32, j: nat, k: nat)
    requires j < MAPTYPEBITS && k < MAPTYPEBITS
    ensures HasBit(SetBit(w, k), j) <==> HasBit(w, j) || j == k
  {
    hide BitOf, OrBit;
    NumberRoundTrip(j);
    NumberRoundTrip(k);
    if j == k {
      OrSameBit(w, k as bv32);
    } else {
      NumberInjective(j, k);
      OrOtherBit(w, j as bv32, k as bv32);
    }
  }

  lemma TestAfterNot(w: bv32, j: nat)
    requires j < MAPTYPEBITS
    ensures HasBit(!w, j) <==> !HasBit(w, j)
  {
    hide BitOf;
    NumberRoundTrip(j);
    NotWithBit(w, j as bv32);
  }

  function WithMember(map_: seq<bv32>, code: nat): seq<bv32>
    requires |map_| == CHARLIMIT / MAPTYPEBITS && code < CHARLIMIT
  {
    map_[code / MAPTYPEBITS := SetBit(map_[code / MAPTYPEBITS], code % MAPTYPEBITS)]
  }

  lemma CodeSplit(code: nat, e: nat)
    ensures e == code <==> e / MAPTYPEBITS == code / MAPTYPEBITS && e % MAPTYPEBITS == code % MAPTYPEBITS
  {
  }

  lemma TestWithMember(map_: seq<bv32>, code: nat, e: nat)
    requires |map_| == CHARLIMIT / MAPTYPEBITS && code < CHARLIMIT && e < CHARLIMIT
    ensures Test(WithMember(map_, code), e) <==> Test(map_, e) || e == code
  {
    CodeSplit(code, e);
    TestAfterOr(map_[code / MAPTYPEBITS], e % MAPTYPEBITS, code % MAPTYPEBITS);
  }

  lemma MemberListed(listed: string, c: char, e: char)
    ensures Contains(CharSet(listed + [c], false), e)
      <==> Contains(CharSet(listed, false), e) || (e == c && e as int < CHARLIMIT)
  {
  }

  /** charmap[fch / 32] |= 1 << (fch % 32), when the character has a bit. */
  method AddMember(charmap: array<bv32>, c: char, ghost listed: string)
    requires Denotes(charmap[..], CharSet(listed, false))
    modifies charmap
    ensures Denotes(charmap[..], CharSet(listed + [c], false))
  {
    ghost var before := charmap[..];
    forall e: char | e as int < CHARLIMIT
      ensures Contains(CharSet(listed + [c], false), e) <==> Test(before, e as int) || e == c
    {
      MemberListed(listed, c, e);
    }
    if c as int < CHARLIMIT {
      charmap[c as int / MAPTYPEBITS] := SetBit(charmap[c as int / MAPTYPEBITS], c as int % MAPTYPEBITS);
      assert charmap[..] == WithMember(before, c as int);
      forall e: nat | e < CHARLIMIT
        ensures Test(charmap[..], e) <==> Test(before, e) || e == c as int
      {
        TestWithMember(before, c as int, e);
      }
    }
  }

  /** The complement within the 256 characters that have a bit. */
  method Complement(charmap: array<bv32>, ghost listed: string)
    requires Denotes(charmap[..], CharSet(listed, false))
    modifies charmap
    ensures Denotes(charmap[..], CharSet(listed, true))
  {
    ghost var before := charmap[..];
    for i := 0 to charmap.Length
      invariant forall k :: 0 <= k < i ==> charmap[k] == !before[k]
      invariant forall k :: i <= k < charmap.Length ==> charmap[k] == before[k]
    {
      charmap[i] := !charmap[i];
    }
    forall e: char | e as int < CHARLIMIT
      ensures Test(charmap[..], e as int) <==> Contains(CharSet(listed, true), e)
    {
      assert Test(before, e as int) <==> Contains(CharSet(listed, false), e);
      TestAfterNot(before[e as int / MAPTYPEBITS], e as int % MAPTYPEBITS);
    }
  }

  lemma ClearWord(j: nat)
    requires j < MAPTYPEBITS
    ensures !HasBit(0, j)
  {
    hide BitOf;
    ZeroBit(j as bv32);
  }

  method ClearMap() returns (charmap: array<bv32>)
    ensures fresh(charmap) && Denotes(charmap[..], CharSet("", false))
  {
    charmap := new bv32[CHARLIMIT / MAPTYPEBITS](i => 0);
    forall c: char | c as int < CHARLIMIT
      ensures Test(charmap[..], c as int) <==> Contains(CharSet("", false), c)
    {
      ClearWord(c as int % MAPTYPEBITS);
    }
  }
}
