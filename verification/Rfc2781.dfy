/** UTF-16 as sections 2.1 and 2.2 of RFC 2781 define it. */
module Rfc2781 {
  import opened Rfc3629

  type word = bv16

  predicate Lead(w: word) {
    0xD800 <= w <= 0xDBFF
  }

  predicate Trail(w: word) {
    0xDC00 <= w <= 0xDFFF
  }

  /** The low sixteen bits. */
  function Low16(x: bv32): word {
    (x & 0xFFFF) as word
  }

  /** Section 2.1: one word, or a pair holding the twenty bits of cp - 0x10000. */
  function Encode16Char(cp: bv32): (u: seq<word>)
    ensures 1 <= |u| <= 2
  {
    if cp < 0x10000 then [Low16(cp)]
    else
      var rest := cp - 0x10000;
      [Low16(0xD800 | (rest >> 10)), Low16(0xDC00 | (rest & 0x3FF))]
  }

  function Pair(lead: word, trail: word): bv32 {
    (((lead & 0x3FF) as bv32 << 10) | (trail & 0x3FF) as bv32) + 0x10000
  }

  lemma PairRange(lead: word, trail: word)
    ensures 0x10000 <= Pair(lead, trail) <= 0x10FFFF
  {}

  lemma PairWords(lead: word, trail: word)
    requires Lead(lead) && Trail(trail)
    ensures Low16(0xD800 | ((Pair(lead, trail) - 0x10000) >> 10)) == lead
    ensures Low16(0xDC00 | ((Pair(lead, trail) - 0x10000) & 0x3FF)) == trail
  {}

  lemma PairIsScalar(lead: word, trail: word)
    requires Lead(lead) && Trail(trail)
    ensures IsScalar(Pair(lead, trail)) && Encode16Char(Pair(lead, trail)) == [lead, trail]
  {
    PairRange(lead, trail);
    PairWords(lead, trail);
  }

  lemma WordsOfScalar(cp: bv32)
    requires 0x10000 <= cp <= 0x10FFFF
    ensures Lead(Low16(0xD800 | ((cp - 0x10000) >> 10)))
    ensures Trail(Low16(0xDC00 | ((cp - 0x10000) & 0x3FF)))
  {}

  lemma PairOfWords(cp: bv32)
    requires 0x10000 <= cp <= 0x10FFFF
    ensures Pair(Low16(0xD800 | ((cp - 0x10000) >> 10)), Low16(0xDC00 | ((cp - 0x10000) & 0x3FF))) == cp
  {}

  lemma SingleWord(w: word)
    requires !Lead(w) && !Trail(w)
    ensures IsScalar(w as bv32)
  {}

  lemma SingleWordSmall(w: word)
    ensures w as bv32 < 0x10000 && Low16(w as bv32) == w
  {}

  lemma SmallScalar(cp: bv32)
    requires cp < 0x10000 && !(0xD800 <= cp <= 0xDFFF)
    ensures !Lead(Low16(cp)) && !Trail(Low16(cp))
  {}

  lemma SmallScalarWord(cp: bv32)
    requires cp < 0x10000
    ensures Low16(cp) as bv32 == cp
  {}

  /** Section 2.2: the number of words of the character `u` begins with, 0 when it is ill-formed there. */
  function Head16(u: seq<word>): (n: nat)
    ensures n <= |u|
  {
    if u == [] || Trail(u[0]) then 0
    else if !Lead(u[0]) then 1
    else if |u| >= 2 && Trail(u[1]) then 2
    else 0
  }

  function CodePoint16(u: seq<word>): (cp: bv32)
    requires Head16(u) > 0
    ensures IsScalar(cp)
  {
    if Head16(u) == 1 then
      SingleWord(u[0]);
      u[0] as bv32
    else
      PairRange(u[0], u[1]);
      Pair(u[0], u[1])
  }

  function Encode16(cps: seq<bv32>): seq<word> {
    if cps == [] then [] else Encode16Char(cps[0]) + Encode16(cps[1..])
  }

  /** The length of the well-formed run `u` begins with, and its code points. */
  function Valid16Length(u: seq<word>): (n: nat)
    ensures n <= |u|
  {
    var h := Head16(u);
    if h == 0 then 0 else h + Valid16Length(u[h..])
  }

  function Decode16(u: seq<word>): seq<bv32> {
    var h := Head16(u);
    if h == 0 then [] else [CodePoint16(u)] + Decode16(u[h..])
  }

  predicate Valid16(u: seq<word>) {
    Valid16Length(u) == |u|
  }

  lemma HeadOfEncode16Char(cp: bv32, u: seq<word>)
    requires IsScalar(cp)
    ensures var c := Encode16Char(cp);
      Head16(c + u) == |c| && CodePoint16(c + u) == cp && (c + u)[|c|..] == u
  {
    if cp < 0x10000 {
      SmallScalar(cp);
      SmallScalarWord(cp);
    } else {
      WordsOfScalar(cp);
      PairOfWords(cp);
    }
  }

  lemma Encode16OfHead(u: seq<word>)
    requires Head16(u) > 0
    ensures Encode16Char(CodePoint16(u)) == u[..Head16(u)]
  {
    if Head16(u) == 1 {
      SingleWord(u[0]);
      SingleWordSmall(u[0]);
    } else {
      PairIsScalar(u[0], u[1]);
    }
  }

  lemma {:induction false} Decode16Scalars(u: seq<word>)
    ensures AllScalars(Decode16(u))
    decreases |u|
  {
    if Head16(u) > 0 {
      Decode16Scalars(u[Head16(u)..]);
    }
  }

  /** Decoding undoes encoding. */
  lemma {:induction false} Decode16Encode16(cps: seq<bv32>)
    requires AllScalars(cps)
    ensures Valid16(Encode16(cps)) && Decode16(Encode16(cps)) == cps
  {
    hide IsScalar, Encode16Char, Head16, CodePoint16;
    if cps == [] {
      NothingDecoded();
    } else {
      HeadOfEncode16Char(cps[0], Encode16(cps[1..]));
      WordsNonEmpty(cps[0]);
      Decode16Encode16(cps[1..]);
    }
  }

  lemma NothingDecoded()
    ensures Head16([]) == 0 && Valid16([]) && Decode16([]) == []
  {}

  lemma WordsNonEmpty(cp: bv32)
    ensures Encode16Char(cp) != []
  {}

  /** Encoding undoes decoding, on the well-formed part of any word string. */
  lemma {:induction false} Encode16Decode16(u: seq<word>)
    ensures Encode16(Decode16(u)) == u[..Valid16Length(u)]
    decreases |u|
  {
    var h := Head16(u);
    if h != 0 {
      Encode16Decode16(u[h..]);
      Encode16OfHead(u);
      TakeSplit(u, h, Valid16Length(u[h..]));
    }
  }

  /** Well-formed UTF-16 is exactly what section 2.1 produces. */
  lemma Valid16IffEncoded(u: seq<word>)
    ensures Valid16(u) <==> exists cps :: AllScalars(cps) && u == Encode16(cps)
  {
    if Valid16(u) {
      Encode16Decode16(u);
      Decode16Scalars(u);
      assert u == Encode16(Decode16(u));
    }
    if cps :| AllScalars(cps) && u == Encode16(cps) {
      Decode16Encode16(cps);
    }
  }
}
