/** include/utf8/core.h: validating one UTF-8 sequence, and finding the first invalid one. */
module Utf8Core {
  import opened Octets
  import opened Rfc3629

  const CODE_POINT_MAX: bv32 := 0x0010ffff

  datatype UtfError =
    | UTF8_OK
    | NOT_ENOUGH_ROOM
    | INVALID_LEAD
    | INCOMPLETE_SEQUENCE
    | OVERLONG_SEQUENCE
    | INVALID_CODE_POINT

  predicate IsTrail(b: octet) {
    b >> 6 == 0x2
  }

  predicate IsSurrogate(cp: bv32) {
    0xd800 <= cp && cp <= 0xdfff
  }

  predicate IsCodePointValid(cp: bv32) {
    cp <= CODE_POINT_MAX && !IsSurrogate(cp)
  }

  lemma ValidIsScalar(cp: bv32)
    ensures IsCodePointValid(cp) <==> IsScalar(cp)
  {}

  function SequenceLength(lead: octet): nat {
    if lead < 0x80 then 1
    else if lead >> 5 == 0x6 then 2
    else if lead >> 4 == 0xe then 3
    else if lead >> 3 == 0x1e then 4
    else 0
  }

  predicate IsOverlongSequence(cp: bv32, length: nat) {
    if cp < 0x80 then length != 1
    else if cp < 0x800 then length != 2
    else if cp < 0x10000 then length != 3
    else false
  }

  // ---- what the validation means

  /** The length a lead octet announces, by the ranges of RFC 3629, section 3. */
  function Announced(lead: octet): nat {
    if lead <= 0x7F then 1
    else if 0xC0 <= lead <= 0xDF then 2
    else if 0xE0 <= lead <= 0xEF then 3
    else if 0xF0 <= lead <= 0xF7 then 4
    else 0
  }

  lemma TrailIsTail(b: octet)
    ensures IsTrail(b) <==> Tail(b)
  {}

  lemma SequenceLengthIsAnnounced(lead: octet)
    ensures SequenceLength(lead) == Announced(lead)
  {}

  /** Whether the octets `t[k..n]` are all there and all trail octets, and if not, what is met first. */
  function TrailsFrom(t: text, k: nat, n: nat): UtfError
    requires k <= n && k <= |t|
    decreases n - k
  {
    if k == n then UTF8_OK
    else if k == |t| then NOT_ENOUGH_ROOM
    else if !Tail(t[k]) then INCOMPLETE_SEQUENCE
    else TrailsFrom(t, k + 1, n)
  }

  /** The verdict on the front of a non-empty text. */
  function Diagnosis(t: text): UtfError
    requires t != []
  {
    var n := Announced(t[0]);
    if HeadLength(t) > 0 then UTF8_OK
    else if n == 0 then INVALID_LEAD
    else if TrailsFrom(t, 1, n) != UTF8_OK then TrailsFrom(t, 1, n)
    else
      assert n <= |t| by { TrailsFromMeaning(t, 1, n); }
      if IsScalar(Bits(t[..n])) then OVERLONG_SEQUENCE else INVALID_CODE_POINT
  }

  lemma {:induction false} TrailsFromMeaning(t: text, k: nat, n: nat)
    requires k <= n && k <= |t|
    ensures TrailsFrom(t, k, n) == UTF8_OK <==> n <= |t| && forall i :: k <= i < n ==> Tail(t[i])
    ensures TrailsFrom(t, k, n) == NOT_ENOUGH_ROOM <==> |t| < n && forall i :: k <= i < |t| ==> Tail(t[i])
    ensures TrailsFrom(t, k, n) in {UTF8_OK, NOT_ENOUGH_ROOM, INCOMPLETE_SEQUENCE}
    decreases n - k
  {
    if k < n && k < |t| {
      TrailsFromMeaning(t, k + 1, n);
    }
  }

  // The masks and shifts of the source compute the bits of section 3.

  lemma Masks2(b0: octet, b1: octet)
    requires Announced(b0) == 2 && Tail(b1)
    ensures ((b0 as bv32 << 6) & 0x7ff) + (b1 as bv32 & 0x3f) == Bits2(b0, b1)
  {}

  lemma Masks3(b0: octet, b1: octet, b2: octet)
    requires Announced(b0) == 3 && Tail(b1) && Tail(b2)
    ensures ((b0 as bv32 << 12) & 0xffff) + ((b1 as bv32 << 6) & 0xfff) + (b2 as bv32 & 0x3f) == Bits3(b0, b1, b2)
  {}

  lemma Masks4(b0: octet, b1: octet, b2: octet, b3: octet)
    requires Announced(b0) == 4 && Tail(b1) && Tail(b2) && Tail(b3)
    ensures ((b0 as bv32 << 18) & 0x1fffff) + ((b1 as bv32 << 12) & 0x3ffff)
          + ((b2 as bv32 << 6) & 0xfff) + (b3 as bv32 & 0x3f)
         == Bits4(b0, b1, b2, b3)
  {}

  /** The code point the source puts together from `n` octets, without looking whether they are trail octets. */
  function Assembled(t: text, n: nat): bv32
    requires 1 <= n <= |t| && n <= 4
  {
    match n
    case 1 => t[0] as bv32
    case 2 => ((t[0] as bv32 << 6) & 0x7ff) + (t[1] as bv32 & 0x3f)
    case 3 => ((t[0] as bv32 << 12) & 0xffff) + ((t[1] as bv32 << 6) & 0xfff) + (t[2] as bv32 & 0x3f)
    case _ => ((t[0] as bv32 << 18) & 0x1fffff) + ((t[1] as bv32 << 12) & 0x3ffff)
              + ((t[2] as bv32 << 6) & 0xfff) + (t[3] as bv32 & 0x3f)
  }

  /** On a sequence with its announced trail octets the masks give the bits of section 3. */
  lemma AssembledIsBits(t: text)
    requires t != [] && Announced(t[0]) == |t|
    requires forall i :: 1 <= i < |t| ==> Tail(t[i])
    ensures Assembled(t, |t|) == Bits(t)
  {
    match |t| {
      case 1 =>
      case 2 => Masks2(t[0], t[1]);
      case 3 => Masks3(t[0], t[1], t[2]);
      case _ => Masks4(t[0], t[1], t[2], t[3]);
    }
  }

  lemma LowBits2(b0: octet, b1: octet)
    ensures ((b0 as bv32 << 6) & 0x7ff) + (b1 as bv32 & 0x3f)
         == ((b0 as bv32 & 0x1f) << 6) | (b1 as bv32 & 0x3f)
  {}

  lemma LowBits3(b0: octet, b1: octet, b2: octet)
    ensures ((b0 as bv32 << 12) & 0xffff) + ((b1 as bv32 << 6) & 0xfff) + (b2 as bv32 & 0x3f)
         == ((b0 as bv32 & 0xf) << 12) | ((b1 as bv32 & 0x3f) << 6) | (b2 as bv32 & 0x3f)
  {}

  lemma LowBits4(b0: octet, b1: octet, b2: octet, b3: octet)
    ensures ((b0 as bv32 << 18) & 0x1fffff) + ((b1 as bv32 << 12) & 0x3ffff)
          + ((b2 as bv32 << 6) & 0xfff) + (b3 as bv32 & 0x3f)
         == ((b0 as bv32 & 0x7) << 18) | ((b1 as bv32 & 0x3f) << 12)
          | ((b2 as bv32 & 0x3f) << 6) | (b3 as bv32 & 0x3f)
  {}

  /** For any octets, trail octets or not, the masks and sums put the low bits of the octets side by side. */
  lemma AssembledLowBits(t: text, n: nat)
    requires 1 <= n <= |t| && n <= 4
    ensures n == 1 ==> Assembled(t, n) == t[0] as bv32
    ensures n == 2 ==> Assembled(t, n) == ((t[0] as bv32 & 0x1f) << 6) | (t[1] as bv32 & 0x3f)
    ensures n == 3 ==>
      Assembled(t, n) == ((t[0] as bv32 & 0xf) << 12) | ((t[1] as bv32 & 0x3f) << 6) | (t[2] as bv32 & 0x3f)
    ensures n == 4 ==>
      Assembled(t, n) == ((t[0] as bv32 & 0x7) << 18) | ((t[1] as bv32 & 0x3f) << 12)
                       | ((t[2] as bv32 & 0x3f) << 6) | (t[3] as bv32 & 0x3f)
  {
    match n {
      case 1 =>
      case 2 => LowBits2(t[0], t[1]);
      case 3 => LowBits3(t[0], t[1], t[2]);
      case _ => LowBits4(t[0], t[1], t[2], t[3]);
    }
  }

  lemma AssembledPrefix(t: text, n: nat)
    requires 1 <= n <= |t| && n <= 4
    ensures Assembled(t[..n], n) == Assembled(t, n)
  {}

  // The two security checks of the source accept exactly the grammar of section 4.

  lemma Checks1(b0: octet)
    requires Announced(b0) == 1
    ensures Char1(b0) && IsCodePointValid(Bits1(b0)) && !IsOverlongSequence(Bits1(b0), 1)
  {}

  lemma Checks2(b0: octet, b1: octet)
    requires Announced(b0) == 2 && Tail(b1)
    ensures IsCodePointValid(Bits2(b0, b1))
    ensures !IsOverlongSequence(Bits2(b0, b1), 2) <==> Char2(b0, b1)
  {}

  lemma Checks3(b0: octet, b1: octet, b2: octet)
    requires Announced(b0) == 3 && Tail(b1) && Tail(b2)
    ensures IsCodePointValid(Bits3(b0, b1, b2)) && !IsOverlongSequence(Bits3(b0, b1, b2), 3) <==> Char3(b0, b1, b2)
  {}

  lemma Checks4(b0: octet, b1: octet, b2: octet, b3: octet)
    requires Announced(b0) == 4 && Tail(b1) && Tail(b2) && Tail(b3)
    ensures IsCodePointValid(Bits4(b0, b1, b2, b3)) && !IsOverlongSequence(Bits4(b0, b1, b2, b3), 4)
       <==> Char4(b0, b1, b2, b3)
  {}

  /** On a sequence that has its announced trail octets, the checks agree with the grammar. */
  lemma ChecksMeaning(t: text)
    requires t != [] && Announced(t[0]) == |t|
    requires forall i :: 1 <= i < |t| ==> Tail(t[i])
    ensures IsCodePointValid(Bits(t)) && !IsOverlongSequence(Bits(t), |t|) <==> IsChar(t)
  {
    match |t| {
      case 1 => Checks1(t[0]);
      case 2 => Checks2(t[0], t[1]);
      case 3 => Checks3(t[0], t[1], t[2]);
      case _ => Checks4(t[0], t[1], t[2], t[3]);
    }
  }

  /** A character announces its own length. */
  lemma CharAnnounced(t: text)
    requires IsChar(t)
    ensures Announced(t[0]) == |t|
  {}

  /** A text that begins with a character has the trail octets its lead announces. */
  lemma HeadIsShaped(t: text)
    requires HeadLength(t) > 0
    ensures Announced(t[0]) == HeadLength(t)
    ensures TrailsFrom(t, 1, Announced(t[0])) == UTF8_OK
  {
    var h := HeadLength(t);
    CharAnnounced(t[..h]);
    CharOctets(t[..h]);
    TrailsFromMeaning(t, 1, h);
    forall i | 1 <= i < h ensures Tail(t[i]) {
      assert t[..h][i] == t[i];
    }
  }

  /** The announced octets, when they are there, decide whether the text begins with a character. */
  lemma HeadWhenShaped(t: text)
    requires t != [] && 0 < Announced(t[0]) <= |t|
    ensures HeadLength(t) == if IsChar(t[..Announced(t[0])]) then Announced(t[0]) else 0
  {
    var n := Announced(t[0]);
    if HeadLength(t) > 0 {
      HeadIsShaped(t);
    }
    if IsChar(t[..n]) {
      HeadUnique(t, n);
    }
  }

  /** The six verdicts, from the octets alone; `n` is the length the lead octet announces. */
  lemma DiagnosisMeaning(t: text)
    requires t != []
    ensures var n := if t[0] < 0x80 then 1 else if 0xC0 <= t[0] < 0xE0 then 2
               else if 0xE0 <= t[0] < 0xF0 then 3 else if 0xF0 <= t[0] < 0xF8 then 4 else 0;
      && (Diagnosis(t) == UTF8_OK <==> exists k :: 0 < k <= |t| && IsChar(t[..k]))
      && (Diagnosis(t) == INVALID_LEAD <==> n == 0)
      && (Diagnosis(t) == NOT_ENOUGH_ROOM <==> |t| < n && forall i :: 1 <= i < |t| ==> Tail(t[i]))
      && (Diagnosis(t) == INCOMPLETE_SEQUENCE <==> exists i :: 1 <= i < n && i < |t| && !Tail(t[i]))
      && (Diagnosis(t) == OVERLONG_SEQUENCE <==>
            && 0 < n <= |t| && (forall i :: 1 <= i < n ==> Tail(t[i]))
            && IsScalar(Bits(t[..n])) && !IsChar(t[..n]))
      && (Diagnosis(t) == INVALID_CODE_POINT <==>
            0 < n <= |t| && (forall i :: 1 <= i < n ==> Tail(t[i])) && !IsScalar(Bits(t[..n])))
  {
    hide IsChar, Bits, IsScalar, HeadLength, Tail;
    var n := Announced(t[0]);
    HeadMeaning(t);
    if n > 0 {
      TrailsFromMeaning(t, 1, n);
    }
    if HeadLength(t) > 0 {
      HeadIsShaped(t);
      CharIsScalar(t[..n]);
    }
    if 0 < n <= |t| {
      HeadWhenShaped(t);
    }
  }

  lemma CharIsScalar(c: text)
    requires IsChar(c)
    ensures 1 <= |c| <= 4 && IsScalar(Bits(c))
  {
    CharNonEmpty(c);
    CharBits(c);
  }

  /** A text begins with a character exactly when some front part of it is one. */
  lemma HeadMeaning(t: text)
    ensures HeadLength(t) > 0 <==> exists k :: 0 < k <= |t| && IsChar(t[..k])
  {
    hide IsChar;
    if k :| 0 < k <= |t| && IsChar(t[..k]) {
      HeadUnique(t, k);
    }
  }

  // ---- the code

  method GetSequence1(s: text, it: nat, end: nat) returns (err: UtfError, it': nat, codePoint: bv32)
    requires it <= end <= |s|
    ensures it' == it
    ensures err == if it == end then NOT_ENOUGH_ROOM else UTF8_OK
    ensures codePoint == if it == end then 0 else Assembled(s[it..end], 1)
  {
    it', codePoint := it, 0;
    if it' != end {
      codePoint := s[it'] as bv32;
      return UTF8_OK, it', codePoint;
    }
    err := NOT_ENOUGH_ROOM;
  }

  method GetSequence2(s: text, it: nat, end: nat) returns (err: UtfError, it': nat, codePoint: bv32)
    requires it <= end <= |s|
    ensures err == if it == end then NOT_ENOUGH_ROOM else TrailsFrom(s[it..end], 1, 2)
    ensures err == UTF8_OK ==> it + 2 <= end && it' == it + 1 && codePoint == Assembled(s[it..end], 2)
    ensures err != UTF8_OK ==> codePoint == 0
  {
    ghost var t := s[it..end];
    it', codePoint := it, 0;
    err := NOT_ENOUGH_ROOM;
    if it' != end {
      var cp := s[it'] as bv32;
      it' := it' + 1;
      if it' != end {
        TrailIsTail(s[it']);
        if IsTrail(s[it']) {
          cp := ((cp << 6) & 0x7ff) + (s[it'] as bv32 & 0x3f);
          codePoint := cp;
          err := UTF8_OK;
        } else {
          err := INCOMPLETE_SEQUENCE;
        }
      } else {
        err := NOT_ENOUGH_ROOM;
      }
    }
  }

  method GetSequence3(s: text, it: nat, end: nat) returns (err: UtfError, it': nat, codePoint: bv32)
    requires it <= end <= |s|
    ensures err == if it == end then NOT_ENOUGH_ROOM else TrailsFrom(s[it..end], 1, 3)
    ensures err == UTF8_OK ==> it + 3 <= end && it' == it + 2 && codePoint == Assembled(s[it..end], 3)
    ensures err != UTF8_OK ==> codePoint == 0
  {
    ghost var t := s[it..end];
    it', codePoint := it, 0;
    err := NOT_ENOUGH_ROOM;
    if it' != end {
      var cp := s[it'] as bv32;
      it' := it' + 1;
      if it' != end {
        TrailIsTail(s[it']);
        if IsTrail(s[it']) {
          assert TrailsFrom(t, 1, 3) == TrailsFrom(t, 2, 3);
          cp := ((cp << 12) & 0xffff) + ((s[it'] as bv32 << 6) & 0xfff);
          it' := it' + 1;
          if it' != end {
            TrailIsTail(s[it']);
            if IsTrail(s[it']) {
              cp := cp + (s[it'] as bv32 & 0x3f);
              codePoint := cp;
              err := UTF8_OK;
            } else {
              err := INCOMPLETE_SEQUENCE;
            }
          } else {
            err := NOT_ENOUGH_ROOM;
          }
        } else {
          err := INCOMPLETE_SEQUENCE;
        }
      } else {
        err := NOT_ENOUGH_ROOM;
      }
    }
  }

  method GetSequence4(s: text, it: nat, end: nat) returns (err: UtfError, it': nat, codePoint: bv32)
    requires it <= end <= |s|
    ensures err == if it == end then NOT_ENOUGH_ROOM else TrailsFrom(s[it..end], 1, 4)
    ensures err == UTF8_OK ==> it + 4 <= end && it' == it + 3 && codePoint == Assembled(s[it..end], 4)
    ensures err != UTF8_OK ==> codePoint == 0
  {
    ghost var t := s[it..end];
    it', codePoint := it, 0;
    err := NOT_ENOUGH_ROOM;
    if it' != end {
      var cp := s[it'] as bv32;
      it' := it' + 1;
      if it' != end {
        TrailIsTail(s[it']);
        if IsTrail(s[it']) {
          assert TrailsFrom(t, 1, 4) == TrailsFrom(t, 2, 4);
          cp := ((cp << 18) & 0x1fffff) + ((s[it'] as bv32 << 12) & 0x3ffff);
          it' := it' + 1;
          if it' != end {
            TrailIsTail(s[it']);
            if IsTrail(s[it']) {
              assert TrailsFrom(t, 2, 4) == TrailsFrom(t, 3, 4);
              cp := cp + ((s[it'] as bv32 << 6) & 0xfff);
              it' := it' + 1;
              if it' != end {
                TrailIsTail(s[it']);
                if IsTrail(s[it']) {
                  cp := cp + (s[it'] as bv32 & 0x3f);
                  codePoint := cp;
                  err := UTF8_OK;
                } else {
                  err := INCOMPLETE_SEQUENCE;
                }
              } else {
                err := NOT_ENOUGH_ROOM;
              }
            } else {
              err := INCOMPLETE_SEQUENCE;
            }
          } else {
            err := NOT_ENOUGH_ROOM;
          }
        } else {
          err := INCOMPLETE_SEQUENCE;
        }
      } else {
        err := NOT_ENOUGH_ROOM;
      }
    }
  }

  /** Accepts exactly the characters of the grammar, steps over the accepted one, and otherwise stays put. */
  method ValidateNext(s: text, it: nat, end: nat) returns (err: UtfError, it': nat, codePoint: bv32)
    requires it < end <= |s|
    ensures err == Diagnosis(s[it..end])
    ensures it' == it + HeadLength(s[it..end])
    ensures err == UTF8_OK ==> it < it' <= end && codePoint == HeadPoint(s[it..end])
    ensures err != UTF8_OK ==> codePoint == 0
  {
    hide Assembled, Bits, IsCodePointValid, IsOverlongSequence, IsScalar, IsChar;
    ghost var t := s[it..end];
    var originalIt := it;
    it' := it;
    codePoint := 0;
    var cp: bv32 := 0;
    var length := SequenceLength(s[it']);
    SequenceLengthIsAnnounced(s[it']);
    if length == 0 {
      if HeadLength(t) > 0 { HeadIsShaped(t); }
      return INVALID_LEAD, it', codePoint;
    }
    TrailsFromMeaning(t, 1, length);
    err := UTF8_OK;
    match length {
      case 1 => err, it', cp := GetSequence1(s, it', end);
      case 2 => err, it', cp := GetSequence2(s, it', end);
      case 3 => err, it', cp := GetSequence3(s, it', end);
      case 4 => err, it', cp := GetSequence4(s, it', end);
    }
    if err == UTF8_OK {
      AssembledPrefix(t, length);
      AssembledIsBits(t[..length]);
      ChecksMeaning(t[..length]);
      HeadWhenShaped(t);
      ValidIsScalar(cp);
      if IsCodePointValid(cp) {
        if !IsOverlongSequence(cp, length) {
          codePoint := cp;
          it' := it' + 1;
          return UTF8_OK, it', codePoint;
        } else {
          err := OVERLONG_SEQUENCE;
        }
      } else {
        err := INVALID_CODE_POINT;
      }
    } else {
      if HeadLength(t) > 0 { HeadIsShaped(t); }
    }
    it' := originalIt;
  }

  /** The end of the longest well-formed prefix. */
  method FindInvalid(s: text, start: nat, end: nat) returns (result: nat)
    requires start <= end <= |s|
    ensures result == start + ValidLength(s[start..end])
  {
    hide IsChar, HeadPoint, IsScalar, Bits, TrailsFrom;
    result := start;
    while result != end
      invariant start <= result <= end
      invariant start + ValidLength(s[start..end]) == result + ValidLength(s[result..end])
      decreases end - result
    {
      var errCode, next, _ := ValidateNext(s, result, end);
      if errCode != UTF8_OK {
        return;
      }
      assert s[result..end][next - result..] == s[next..end];
      result := next;
    }
  }

  method IsValid(s: text, start: nat, end: nat) returns (valid: bool)
    requires start <= end <= |s|
    ensures valid <==> exists cps :: AllScalars(cps) && s[start..end] == Encode(cps)
  {
    var invalid := FindInvalid(s, start, end);
    ValidIffEncoded(s[start..end]);
    valid := invalid == end;
  }
}
