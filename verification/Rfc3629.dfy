/** UTF-8 as RFC 3629 defines it: the reference the codec is proved against. */
module Rfc3629 {
  import opened Octets

  /** The code points UTF-8 may carry: up to U+10FFFF, without the surrogates. */
  predicate IsScalar(cp: bv32) {
    cp <= 0x10FFFF && !(0xD800 <= cp <= 0xDFFF)
  }

  predicate AllScalars(cps: seq<bv32>) {
    forall i :: 0 <= i < |cps| ==> IsScalar(cps[i])
  }

  // ---- section 4: the grammar of one character

  predicate Tail(b: octet) {
    0x80 <= b <= 0xBF
  }

  predicate Char1(b0: octet) {
    b0 <= 0x7F
  }

  predicate Char2(b0: octet, b1: octet) {
    0xC2 <= b0 <= 0xDF && Tail(b1)
  }

  predicate Char3(b0: octet, b1: octet, b2: octet) {
    && Tail(b2)
    && (|| (b0 == 0xE0 && 0xA0 <= b1 <= 0xBF)
        || (0xE1 <= b0 <= 0xEC && Tail(b1))
        || (b0 == 0xED && 0x80 <= b1 <= 0x9F)
        || (0xEE <= b0 <= 0xEF && Tail(b1)))
  }

  predicate Char4(b0: octet, b1: octet, b2: octet, b3: octet) {
    && Tail(b2) && Tail(b3)
    && (|| (b0 == 0xF0 && 0x90 <= b1 <= 0xBF)
        || (0xF1 <= b0 <= 0xF3 && Tail(b1))
        || (b0 == 0xF4 && 0x80 <= b1 <= 0x8F))
  }

  /** `t` is exactly one UTF8-char of the grammar. */
  predicate IsChar(t: text) {
    || (|t| == 1 && Char1(t[0]))
    || (|t| == 2 && Char2(t[0], t[1]))
    || (|t| == 3 && Char3(t[0], t[1], t[2]))
    || (|t| == 4 && Char4(t[0], t[1], t[2], t[3]))
  }

  // ---- section 3: the bits a sequence of one to four octets stands for

  function Bits1(b0: octet): bv32 {
    b0 as bv32
  }

  function Bits2(b0: octet, b1: octet): bv32 {
    ((b0 as bv32 - 0xC0) << 6) + (b1 as bv32 - 0x80)
  }

  function Bits3(b0: octet, b1: octet, b2: octet): bv32 {
    ((b0 as bv32 - 0xE0) << 12) + ((b1 as bv32 - 0x80) << 6) + (b2 as bv32 - 0x80)
  }

  function Bits4(b0: octet, b1: octet, b2: octet, b3: octet): bv32 {
    ((b0 as bv32 - 0xF0) << 18) + ((b1 as bv32 - 0x80) << 12) + ((b2 as bv32 - 0x80) << 6) + (b3 as bv32 - 0x80)
  }

  function Bits(t: text): bv32
    requires 1 <= |t| <= 4
  {
    match |t|
    case 1 => Bits1(t[0])
    case 2 => Bits2(t[0], t[1])
    case 3 => Bits3(t[0], t[1], t[2])
    case _ => Bits4(t[0], t[1], t[2], t[3])
  }

  lemma CharBits1(b0: octet)
    requires Char1(b0)
    ensures Bits1(b0) < 0x80
  {}

  lemma CharBits2(b0: octet, b1: octet)
    requires Char2(b0, b1)
    ensures 0x80 <= Bits2(b0, b1) < 0x800
  {}

  lemma CharBits3(b0: octet, b1: octet, b2: octet)
    requires Char3(b0, b1, b2)
    ensures 0x800 <= Bits3(b0, b1, b2) < 0x10000 && IsScalar(Bits3(b0, b1, b2))
  {}

  lemma CharBits4(b0: octet, b1: octet, b2: octet, b3: octet)
    requires Char4(b0, b1, b2, b3)
    ensures 0x10000 <= Bits4(b0, b1, b2, b3) <= 0x10FFFF
  {}

  lemma CharBits(t: text)
    requires IsChar(t)
    ensures IsScalar(Bits(t))
    ensures |t| == if Bits(t) < 0x80 then 1 else if Bits(t) < 0x800 then 2 else if Bits(t) < 0x10000 then 3 else 4
  {
    match |t| {
      case 1 => CharBits1(t[0]);
      case 2 => CharBits2(t[0], t[1]);
      case 3 => CharBits3(t[0], t[1], t[2]);
      case _ => CharBits4(t[0], t[1], t[2], t[3]);
    }
  }

  /** The code point of one character. */
  function CodePoint(t: text): (cp: bv32)
    requires IsChar(t)
    ensures IsScalar(cp)
  {
    CharBits(t);
    Bits(t)
  }

  /** The low octet of a 32-bit value. */
  function Low8(x: bv32): octet {
    (x & 0xFF) as octet
  }

  lemma EncodeShape(cp: bv32)
    ensures cp < 0x80 ==> Char1(Low8(cp))
    ensures 0x80 <= cp < 0x800 ==> Char2(Low8((cp >> 6) | 0xC0), Low8((cp & 0x3F) | 0x80))
    ensures 0x800 <= cp < 0x10000 && IsScalar(cp) ==>
      Char3(Low8((cp >> 12) | 0xE0), Low8(((cp >> 6) & 0x3F) | 0x80), Low8((cp & 0x3F) | 0x80))
    ensures 0x10000 <= cp <= 0x10FFFF ==>
      Char4(Low8((cp >> 18) | 0xF0), Low8(((cp >> 12) & 0x3F) | 0x80),
            Low8(((cp >> 6) & 0x3F) | 0x80), Low8((cp & 0x3F) | 0x80))
  {}

  lemma EncodeBits2(cp: bv32)
    ensures cp < 0x80 ==> Bits1(Low8(cp)) == cp
    ensures 0x80 <= cp < 0x800 ==> Bits2(Low8((cp >> 6) | 0xC0), Low8((cp & 0x3F) | 0x80)) == cp
  {}

  lemma EncodeBits3(cp: bv32)
    ensures 0x800 <= cp < 0x10000 ==>
      Bits3(Low8((cp >> 12) | 0xE0), Low8(((cp >> 6) & 0x3F) | 0x80), Low8((cp & 0x3F) | 0x80)) == cp
  {}

  lemma EncodeBits4(cp: bv32)
    ensures 0x10000 <= cp <= 0x10FFFF ==>
      Bits4(Low8((cp >> 18) | 0xF0), Low8(((cp >> 12) & 0x3F) | 0x80),
            Low8(((cp >> 6) & 0x3F) | 0x80), Low8((cp & 0x3F) | 0x80)) == cp
  {}

  /** The character of a code point: the one sequence of the grammar that stands for it. */
  function EncodeChar(cp: bv32): (t: text)
    ensures IsScalar(cp) ==> IsChar(t) && CodePoint(t) == cp
  {
    EncodeShape(cp);
    EncodeBits2(cp);
    EncodeBits3(cp);
    EncodeBits4(cp);
    if cp < 0x80 then [Low8(cp)]
    else if cp < 0x800 then [Low8((cp >> 6) | 0xC0), Low8((cp & 0x3F) | 0x80)]
    else if cp < 0x10000 then [Low8((cp >> 12) | 0xE0), Low8(((cp >> 6) & 0x3F) | 0x80), Low8((cp & 0x3F) | 0x80)]
    else [Low8((cp >> 18) | 0xF0), Low8(((cp >> 12) & 0x3F) | 0x80),
          Low8(((cp >> 6) & 0x3F) | 0x80), Low8((cp & 0x3F) | 0x80)]
  }

  lemma Bits2Injective(a0: octet, a1: octet, b0: octet, b1: octet)
    requires Char2(a0, a1) && Char2(b0, b1) && Bits2(a0, a1) == Bits2(b0, b1)
    ensures a0 == b0 && a1 == b1
  {}

  lemma Bits3Injective(a0: octet, a1: octet, a2: octet, b0: octet, b1: octet, b2: octet)
    requires Char3(a0, a1, a2) && Char3(b0, b1, b2) && Bits3(a0, a1, a2) == Bits3(b0, b1, b2)
    ensures a0 == b0 && a1 == b1 && a2 == b2
  {}

  lemma Bits4Injective(a0: octet, a1: octet, a2: octet, a3: octet, b0: octet, b1: octet, b2: octet, b3: octet)
    requires Char4(a0, a1, a2, a3) && Char4(b0, b1, b2, b3) && Bits4(a0, a1, a2, a3) == Bits4(b0, b1, b2, b3)
    ensures a0 == b0 && a1 == b1 && a2 == b2 && a3 == b3
  {}

  /** No two sequences of the grammar stand for the same code point. */
  lemma CodePointInjective(a: text, b: text)
    requires IsChar(a) && IsChar(b) && CodePoint(a) == CodePoint(b)
    ensures a == b
  {
    CharBits(a);
    CharBits(b);
    match |a| {
      case 1 =>
      case 2 => Bits2Injective(a[0], a[1], b[0], b[1]);
      case 3 => Bits3Injective(a[0], a[1], a[2], b[0], b[1], b[2]);
      case _ => Bits4Injective(a[0], a[1], a[2], a[3], b[0], b[1], b[2], b[3]);
    }
  }

  lemma EncodeCodePoint(t: text)
    requires IsChar(t)
    ensures EncodeChar(CodePoint(t)) == t
  {
    CodePointInjective(EncodeChar(CodePoint(t)), t);
  }

  // ---- whole texts

  /** The number of octets of the character `t` begins with, 0 when it begins with none. */
  function HeadLength(t: text): (n: nat)
    ensures n <= |t|
    ensures n > 0 ==> IsChar(t[..n])
  {
    if |t| >= 1 && IsChar(t[..1]) then 1
    else if |t| >= 2 && IsChar(t[..2]) then 2
    else if |t| >= 3 && IsChar(t[..3]) then 3
    else if |t| >= 4 && IsChar(t[..4]) then 4
    else 0
  }

  /** A text begins with at most one character. */
  lemma HeadUnique(t: text, n: nat)
    requires n <= |t| && IsChar(t[..n])
    ensures HeadLength(t) == n
  {
    assert t[..n][0] == t[0];
    var h := HeadLength(t);
    assert h > 0 && t[..h][0] == t[0];
  }

  /** The code point of the character `t` begins with. */
  function HeadPoint(t: text): (cp: bv32)
    requires HeadLength(t) > 0
    ensures IsScalar(cp)
  {
    CodePoint(t[..HeadLength(t)])
  }

  function Encode(cps: seq<bv32>): text {
    if cps == [] then [] else EncodeChar(cps[0]) + Encode(cps[1..])
  }

  /** The length of the run of well-formed characters `t` begins with. */
  function ValidLength(t: text): (n: nat)
    ensures n <= |t|
  {
    var h := HeadLength(t);
    if h == 0 then 0 else h + ValidLength(t[h..])
  }

  /** The code points of that run. */
  function Decode(t: text): seq<bv32> {
    var h := HeadLength(t);
    if h == 0 then [] else [HeadPoint(t)] + Decode(t[h..])
  }

  predicate Valid(t: text) {
    ValidLength(t) == |t|
  }

  /** Only the first octet of a character can begin one. */
  lemma CharOctets(t: text)
    requires IsChar(t)
    ensures !Tail(t[0]) && forall i :: 1 <= i < |t| ==> Tail(t[i])
  {}

  lemma CharNonEmpty(c: text)
    requires IsChar(c)
    ensures 1 <= |c| <= 4
  {}

  lemma EmptyDecodes()
    ensures HeadLength([]) == 0 && Valid([]) && Decode([]) == []
  {}

  /** Non-empty well-formed text begins with a character and goes on well-formed. */
  lemma ValidBegins(t: text)
    requires t != [] && Valid(t)
    ensures HeadLength(t) > 0 && Valid(t[HeadLength(t)..])
    ensures Decode(t) == [HeadPoint(t)] + Decode(t[HeadLength(t)..])
  {}

  lemma HeadAppend(t: text, u: text)
    requires HeadLength(t) > 0
    ensures HeadLength(t + u) == HeadLength(t)
  {
    var h := HeadLength(t);
    assert (t + u)[..h] == t[..h];
    HeadUnique(t + u, h);
  }

  lemma HeadOfChar(c: text, u: text)
    requires IsChar(c)
    ensures HeadLength(c + u) == |c|
    ensures (c + u)[..|c|] == c && (c + u)[|c|..] == u
  {
    HeadUnique(c + u, |c|);
  }

  lemma {:induction false} EncodeAppend(x: seq<bv32>, y: seq<bv32>)
    ensures Encode(x + y) == Encode(x) + Encode(y)
  {
    if x == [] {
      assert x + y == y;
    } else {
      assert (x + y)[1..] == x[1..] + y;
      EncodeAppend(x[1..], y);
    }
  }

  lemma EncodeNone()
    ensures Encode([]) == []
  {}

  lemma EncodeLast(x: seq<bv32>, cp: bv32)
    ensures Encode(x + [cp]) == Encode(x) + EncodeChar(cp)
  {
    EncodeAppend(x, [cp]);
    assert Encode([cp]) == EncodeChar(cp) + Encode([]);
  }

  lemma {:induction false} DecodeScalars(t: text)
    ensures AllScalars(Decode(t))
    decreases |t|
  {
    if HeadLength(t) > 0 {
      DecodeScalars(t[HeadLength(t)..]);
    }
  }

  /** Decoding undoes encoding. */
  lemma {:induction false} DecodeEncode(cps: seq<bv32>)
    requires AllScalars(cps)
    ensures Valid(Encode(cps)) && Decode(Encode(cps)) == cps
  {
    hide IsChar, CodePoint, HeadLength, IsScalar, EncodeChar;
    if cps == [] {
      EmptyDecodes();
    } else {
      var c := EncodeChar(cps[0]);
      HeadOfChar(c, Encode(cps[1..]));
      CharNonEmpty(c);
      DecodeEncode(cps[1..]);
    }
  }

  lemma TakeSplit<T>(t: seq<T>, h: nat, k: nat)
    requires h + k <= |t|
    ensures t[..h + k] == t[..h] + t[h..][..k]
  {}

  /** Encoding undoes decoding, on the well-formed part of any octet string. */
  lemma {:induction false} EncodeDecode(t: text)
    ensures Encode(Decode(t)) == t[..ValidLength(t)]
    decreases |t|
  {
    var h := HeadLength(t);
    if h != 0 {
      EncodeDecode(t[h..]);
      EncodeCodePoint(t[..h]);
      TakeSplit(t, h, ValidLength(t[h..]));
    }
  }

  /** Well-formed text is exactly what encoding can produce. */
  lemma ValidIffEncoded(t: text)
    ensures Valid(t) <==> exists cps :: AllScalars(cps) && t == Encode(cps)
  {
    if Valid(t) {
      EncodeDecode(t);
      DecodeScalars(t);
      assert t == Encode(Decode(t));
    }
    if cps :| AllScalars(cps) && t == Encode(cps) {
      DecodeEncode(cps);
    }
  }

  lemma {:induction false} ValidAppend(x: text, y: text)
    requires Valid(x)
    ensures ValidLength(x + y) == |x| + ValidLength(y)
    ensures Decode(x + y) == Decode(x) + Decode(y)
    decreases |x|
  {
    hide IsScalar, IsChar, CodePoint, HeadLength;
    if x == [] {
      EmptyDecodes();
      assert x + y == y;
    } else {
      var h := HeadLength(x);
      HeadAppend(x, y);
      assert (x + y)[..h] == x[..h] && (x + y)[h..] == x[h..] + y;
      ValidAppend(x[h..], y);
    }
  }

  /** The run counted by `ValidLength` is well-formed, and every well-formed prefix is a prefix of it. */
  lemma LongestValidPrefix(t: text)
    ensures Valid(t[..ValidLength(t)]) && Decode(t[..ValidLength(t)]) == Decode(t)
    ensures forall n :: 0 <= n <= |t| && Valid(t[..n]) ==> n <= ValidLength(t)
  {
    hide HeadLength, Decode, Encode, ValidLength, IsScalar, AllScalars;
    EncodeDecode(t);
    DecodeScalars(t);
    DecodeEncode(Decode(t));
    forall n | 0 <= n <= |t| && Valid(t[..n]) ensures n <= ValidLength(t) {
      ValidAppend(t[..n], t[n..]);
      assert t == t[..n] + t[n..];
    }
  }
}
