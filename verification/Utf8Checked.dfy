/** include/utf8/checked.h: the conversions that report malformed input. */
module Utf8Checked {
  import opened Octets
  import opened Rfc3629
  import opened Rfc2781
  import opened Utf8Core

  const LEAD_SURROGATE_MIN: word := 0xd800
  const TRAIL_SURROGATE_MIN: word := 0xdc00
  const LEAD_OFFSET: bv32 := LEAD_SURROGATE_MIN as bv32 - (0x10000 >> 10)
  /** Wraps below zero: 32-bit unsigned arithmetic. */
  const SURROGATE_OFFSET: bv32 := 0x10000 - (LEAD_SURROGATE_MIN as bv32 << 10) - TRAIL_SURROGATE_MIN as bv32

  /** The exceptions of the library, with what they carry. */
  datatype Utf8Exception =
    | InvalidCodePoint(cp: bv32)
    | InvalidUtf8(octet: octet)
    | InvalidUtf16(word: word)
    | NotEnoughRoom

  datatype Result<+T> = Ok(value: T) | Throw(error: Utf8Exception)

  // ---- one code point

  /** What `next` throws on a text that begins with no character: the code point it reports is always 0. */
  function NextError(t: text): Utf8Exception
    requires t != [] && HeadLength(t) == 0
  {
    match Diagnosis(t)
    case NOT_ENOUGH_ROOM => NotEnoughRoom
    case INVALID_CODE_POINT => InvalidCodePoint(0)
    case _ => InvalidUtf8(t[0])
  }

  /** The code point that is reported as invalid is never the one the octets stand for. */
  lemma ReportedIsNotOffending(t: text)
    requires t != [] && Diagnosis(t) == INVALID_CODE_POINT
    ensures HeadLength(t) == 0 && NextError(t) == InvalidCodePoint(0)
    ensures 1 <= Announced(t[0]) <= |t|
    ensures var offending := Bits(t[..Announced(t[0])]); !IsScalar(offending) && offending != 0
  {
    hide Bits, IsChar;
    TrailsFromMeaning(t, 1, Announced(t[0]));
    assert IsScalar(0);
  }

  /** A surrogate, written as three octets: U+D800 is rejected and reported as 0. */
  lemma SurrogateReportedAsZero()
    ensures var t := [0xED, 0xA0, 0x80];
      && HeadLength(t) == 0 && NextError(t) == InvalidCodePoint(0)
      && Bits(t) == 0xD800
  {
    var t := [0xED, 0xA0, 0x80];
    TrailsFromMeaning(t, 1, 3);
    assert t[..3] == t;
  }

  function NextResult(t: text): Result<bv32>
    requires t != []
  {
    if HeadLength(t) > 0 then Ok(HeadPoint(t)) else Throw(NextError(t))
  }

  /** What `next` gives, from the octets alone; `n` is the length the lead octet announces. */
  lemma NextOutcome(t: text)
    requires t != []
    ensures var n := if t[0] < 0x80 then 1 else if 0xC0 <= t[0] < 0xE0 then 2
               else if 0xE0 <= t[0] < 0xF0 then 3 else if 0xF0 <= t[0] < 0xF8 then 4 else 0;
      && (NextResult(t).Ok? <==> exists k :: 0 < k <= |t| && IsChar(t[..k]))
      && (forall k :: 0 < k <= |t| && IsChar(t[..k]) ==> NextResult(t) == Ok(CodePoint(t[..k])))
      && (NextResult(t) == Throw(NotEnoughRoom) <==> |t| < n && forall i :: 1 <= i < |t| ==> Tail(t[i]))
      && (NextResult(t) == Throw(InvalidCodePoint(0)) <==>
            0 < n <= |t| && (forall i :: 1 <= i < n ==> Tail(t[i])) && !IsScalar(Bits(t[..n])))
      && (NextResult(t) == Throw(InvalidUtf8(t[0])) <==>
            || n == 0
            || (exists i :: 1 <= i < n && i < |t| && !Tail(t[i]))
            || (&& n <= |t| && (forall i :: 1 <= i < n ==> Tail(t[i]))
                && IsScalar(Bits(t[..n])) && !IsChar(t[..n])))
  {
    hide IsChar, Bits, IsScalar, HeadLength, Tail, Diagnosis, CodePoint;
    DiagnosisMeaning(t);
    DiagnosisOk(t);
    forall k | 0 < k <= |t| && IsChar(t[..k]) ensures NextResult(t) == Ok(CodePoint(t[..k])) {
      HeadUnique(t, k);
    }
  }

  lemma DiagnosisOk(t: text)
    requires t != []
    ensures Diagnosis(t) == UTF8_OK <==> HeadLength(t) > 0
  {
    hide HeadLength, IsScalar, Bits;
    TrailsFromMeaning(t, 1, if Announced(t[0]) == 0 then 1 else Announced(t[0]));
  }

  /** Writes one code point through an output iterator that appends to `out`. */
  method Append(cp: bv32, out: text) returns (r: Result<()>, out': text)
    ensures r == if IsScalar(cp) then Ok(()) else Throw(InvalidCodePoint(cp))
    ensures out' == if IsScalar(cp) then out + EncodeChar(cp) else out
  {
    hide IsCodePointValid, IsScalar, IsChar, CodePoint, Low8;
    ValidIsScalar(cp);
    out' := out;
    if !IsCodePointValid(cp) {
      return Throw(InvalidCodePoint(cp)), out';
    }
    if cp < 0x80 {
      out' := out' + [Low8(cp)];
    } else if cp < 0x800 {
      out' := out' + [Low8((cp >> 6) | 0xc0)];
      out' := out' + [Low8((cp & 0x3f) | 0x80)];
    } else if cp < 0x10000 {
      out' := out' + [Low8((cp >> 12) | 0xe0)];
      out' := out' + [Low8(((cp >> 6) & 0x3f) | 0x80)];
      out' := out' + [Low8((cp & 0x3f) | 0x80)];
    } else {
      out' := out' + [Low8((cp >> 18) | 0xf0)];
      out' := out' + [Low8(((cp >> 12) & 0x3f) | 0x80)];
      out' := out' + [Low8(((cp >> 6) & 0x3f) | 0x80)];
      out' := out' + [Low8((cp & 0x3f) | 0x80)];
    }
    r := Ok(());
  }

  method Next(s: text, it: nat, end: nat) returns (r: Result<bv32>, it': nat)
    requires it < end <= |s|
    ensures r == NextResult(s[it..end])
    ensures it' == it + HeadLength(s[it..end])
  {
    var errCode, next, cp := ValidateNext(s, it, end);
    it' := next;
    match errCode {
      case UTF8_OK =>
      case NOT_ENOUGH_ROOM => return Throw(NotEnoughRoom), it';
      case INVALID_LEAD => return Throw(InvalidUtf8(s[it'])), it';
      case INCOMPLETE_SEQUENCE => return Throw(InvalidUtf8(s[it'])), it';
      case OVERLONG_SEQUENCE => return Throw(InvalidUtf8(s[it'])), it';
      case INVALID_CODE_POINT => return Throw(InvalidCodePoint(cp)), it';
    }
    r := Ok(cp);
  }

  method PeekNext(s: text, it: nat, end: nat) returns (r: Result<bv32>)
    requires it < end <= |s|
    ensures r == NextResult(s[it..end])
  {
    var result, _ := Next(s, it, end);
    r := result;
  }

  // ---- whole ranges

  /** What a scan of ill-formed text ends with. */
  function FirstError(t: text): Utf8Exception
    requires !Valid(t)
  {
    var h := HeadLength(t);
    if h == 0 then NextError(t) else FirstError(t[h..])
  }

  function Scanned(t: text): Result<()> {
    if Valid(t) then Ok(()) else Throw(FirstError(t))
  }

  /** One round of every loop over UTF-8 below. */
  lemma ScanStep(t: text)
    ensures t == [] ==> Decode(t) == [] && Scanned(t) == Ok(())
    ensures t != [] ==> (NextResult(t).Ok? <==> HeadLength(t) > 0)
    ensures HeadLength(t) > 0 ==>
      var rest := t[HeadLength(t)..];
      && NextResult(t) == Ok(HeadPoint(t))
      && Decode(t) == [HeadPoint(t)] + Decode(rest)
      && Scanned(t) == Scanned(rest)
    ensures t != [] && HeadLength(t) == 0 ==> Decode(t) == [] && Scanned(t) == Throw(NextResult(t).error)
  {
    hide HeadPoint, IsChar, Diagnosis, NextError;
  }

  /** The error is raised where the longest well-formed prefix ends. */
  lemma {:induction false} FirstErrorPlace(t: text)
    requires !Valid(t)
    ensures HeadLength(t[ValidLength(t)..]) == 0
    ensures FirstError(t) == NextError(t[ValidLength(t)..])
    decreases |t|
  {
    var h := HeadLength(t);
    if h == 0 {
      assert t[0..] == t;
    } else {
      FirstErrorPlace(t[h..]);
      assert t[h..][ValidLength(t[h..])..] == t[ValidLength(t)..];
    }
  }

  method Utf8To32(s: text, start: nat, end: nat, out: seq<bv32>) returns (r: Result<()>, out': seq<bv32>)
    requires start <= end <= |s|
    ensures out' == out + Decode(s[start..end])
    ensures r == Scanned(s[start..end])
  {
    hide *;
    var it := start;
    out' := out;
    while it != end
      invariant start <= it <= end
      invariant out' + Decode(s[it..end]) == out + Decode(s[start..end])
      invariant Scanned(s[it..end]) == Scanned(s[start..end])
      decreases end - it
    {
      ghost var rest := s[it..end];
      ScanStep(rest);
      var next, it' := Next(s, it, end);
      assert rest[it' - it..] == s[it'..end];
      it := it';
      if next.Throw? {
        return Throw(next.error), out';
      }
      Assoc(out', [next.value], Decode(s[it..end]));
      out' := out' + [next.value];
    }
    ScanStep(s[it..end]);
    r := Ok(());
  }

  /** How many values `s` begins with that are code points. */
  function ScalarRun(s: seq<bv32>): (n: nat)
    ensures n <= |s| && AllScalars(s[..n])
    ensures n < |s| ==> !IsScalar(s[n])
  {
    if s == [] || !IsScalar(s[0]) then 0 else 1 + ScalarRun(s[1..])
  }

  lemma ScalarRunStep(s: seq<bv32>)
    requires s != []
    ensures ScalarRun(s) == if IsScalar(s[0]) then 1 + ScalarRun(s[1..]) else 0
  {}

  lemma ScalarRunAt(s: seq<bv32>, it: nat, end: nat)
    requires it < end <= |s|
    ensures ScalarRun(s[it..end]) == if IsScalar(s[it]) then 1 + ScalarRun(s[it + 1..end]) else 0
  {
    hide IsScalar, ScalarRun;
    ScalarRunStep(s[it..end]);
    assert s[it..end][1..] == s[it + 1..end];
  }

  lemma EncodeNext(s: seq<bv32>, start: nat, it: nat)
    requires start <= it < |s|
    ensures Encode(s[start..it + 1]) == Encode(s[start..it]) + EncodeChar(s[it])
  {
    hide Encode, EncodeChar;
    EncodeLast(s[start..it], s[it]);
    assert s[start..it + 1] == s[start..it] + [s[it]];
  }

  method Utf32To8(s: seq<bv32>, start: nat, end: nat, out: text) returns (r: Result<()>, out': text)
    requires start <= end <= |s|
    ensures var n := ScalarRun(s[start..end]);
      && out' == out + Encode(s[start..start + n])
      && r == if start + n == end then Ok(()) else Throw(InvalidCodePoint(s[start + n]))
  {
    hide *;
    var it := start;
    out' := out;
    EncodeNone();
    assert s[start..it] == [];
    while it != end
      invariant start <= it <= end
      invariant it + ScalarRun(s[it..end]) == start + ScalarRun(s[start..end])
      invariant out' == out + Encode(s[start..it])
      decreases end - it
    {
      ScalarRunAt(s, it, end);
      var appended, out'' := Append(s[it], out');
      if appended.Throw? {
        return appended, out';
      }
      EncodeNext(s, start, it);
      out' := out'';
      it := it + 1;
    }
    r := Ok(());
  }

  method Distance(s: text, first: nat, last: nat) returns (r: Result<nat>)
    requires first <= last <= |s|
    ensures Scanned(s[first..last]).Ok? ==> r == Ok(|Decode(s[first..last])|)
    ensures Scanned(s[first..last]).Throw? ==> r == Throw(Scanned(s[first..last]).error)
  {
    hide *;
    var it := first;
    var dist := 0;
    while it < last
      invariant first <= it <= last
      invariant dist + |Decode(s[it..last])| == |Decode(s[first..last])|
      invariant Scanned(s[it..last]) == Scanned(s[first..last])
    {
      ScanStep(s[it..last]);
      var cp, next := Next(s, it, last);
      assert s[it..last][next - it..] == s[next..last];
      it := next;
      if cp.Throw? {
        return Throw(cp.error);
      }
      dist := dist + 1;
    }
    ScanStep(s[it..last]);
    r := Ok(dist);
  }

  // ---- UTF-16

  /** What the conversion from UTF-16 throws at an ill-formed place. */
  function HeadError16(u: seq<word>): Utf8Exception
    requires u != [] && Head16(u) == 0
  {
    if Lead(u[0]) && |u| >= 2 then InvalidUtf16(u[1]) else InvalidUtf16(u[0])
  }

  function FirstError16(u: seq<word>): Utf8Exception
    requires !Valid16(u)
  {
    var h := Head16(u);
    if h == 0 then HeadError16(u) else FirstError16(u[h..])
  }

  function Scanned16(u: seq<word>): Result<()> {
    if Valid16(u) then Ok(()) else Throw(FirstError16(u))
  }

  predicate IsLeadSurrogate(cp: bv32) {
    0xd800 <= cp <= 0xdbff
  }

  predicate IsTrailSurrogate(cp: bv32) {
    0xdc00 <= cp <= 0xdfff
  }

  /** The offset is congruent, modulo 2^32, to what the two surrogate bases add too much. */
  lemma SurrogateOffsetWraps()
    ensures SURROGATE_OFFSET == 0xfca02400
    ensures LEAD_OFFSET == 0xd7c0
  {}

  lemma SurrogateTests(w: word)
    ensures IsLeadSurrogate(w as bv32) <==> Lead(w)
    ensures IsTrailSurrogate(w as bv32) <==> Trail(w)
  {}

  /** The sum the source forms from two surrogates, wrapping at 2^32. */
  function FromSurrogates(lead: bv32, trail: bv32): bv32 {
    (lead << 10) + trail + SURROGATE_OFFSET
  }

  /** The wrapping sum of the source is the pair of section 2.2. */
  lemma SurrogatePair(lead: word, trail: word)
    requires Lead(lead) && Trail(trail)
    ensures FromSurrogates(lead as bv32, trail as bv32) == Pair(lead, trail)
  {}

  /** The words of the source are those of section 2.1, and adding the lead offset stays within sixteen bits. */
  lemma SurrogateWords(cp: bv32)
    requires 0x10000 <= cp <= 0x10FFFF
    ensures (cp >> 10) + LEAD_OFFSET == 0xD800 | ((cp - 0x10000) >> 10)
    ensures (cp & 0x3ff) + TRAIL_SURROGATE_MIN as bv32 == 0xDC00 | ((cp - 0x10000) & 0x3FF)
    ensures (cp >> 10) + LEAD_OFFSET <= 0xdbff
  {}

  /** The two words the source writes for a code point above U+FFFF. */
  function SurrogatesOf(cp: bv32): seq<word> {
    [Low16((cp >> 10) + LEAD_OFFSET), Low16((cp & 0x3ff) + TRAIL_SURROGATE_MIN as bv32)]
  }

  lemma SurrogatesWritten(cp: bv32, out: seq<word>)
    ensures out + SurrogatesOf(cp)
      == out + [Low16((cp >> 10) + LEAD_OFFSET)] + [Low16((cp & 0x3ff) + TRAIL_SURROGATE_MIN as bv32)]
  {}

  lemma WordsWritten(cp: bv32)
    requires IsScalar(cp)
    ensures Encode16Char(cp) == if cp > 0xffff then SurrogatesOf(cp) else [Low16(cp)]
  {
    if cp > 0xffff {
      SurrogateWords(cp);
    }
  }

  /** The branches of the conversion from UTF-16 find the character `u` begins with. */
  lemma WordCases(u: seq<word>)
    requires u != []
    ensures Head16(u) ==
      if IsLeadSurrogate(u[0] as bv32) then (if |u| >= 2 && IsTrailSurrogate(u[1] as bv32) then 2 else 0)
      else if IsTrailSurrogate(u[0] as bv32) then 0 else 1
  {
    SurrogateTests(u[0]);
    if |u| >= 2 {
      SurrogateTests(u[1]);
    }
  }

  lemma WordValues(u: seq<word>)
    requires Head16(u) > 0
    ensures CodePoint16(u) ==
      if Head16(u) == 1 then u[0] as bv32 else FromSurrogates(u[0] as bv32, u[1] as bv32)
  {
    if Head16(u) == 2 {
      SurrogatePair(u[0], u[1]);
    }
  }

  lemma WordErrors(u: seq<word>)
    requires u != [] && Head16(u) == 0
    ensures Scanned16(u) == Throw(InvalidUtf16(
      if IsLeadSurrogate(u[0] as bv32) && |u| >= 2 then Low16(u[1] as bv32) else Low16(u[0] as bv32)))
  {
    SurrogateTests(u[0]);
    SingleWordSmall(u[0]);
    if |u| >= 2 {
      SingleWordSmall(u[1]);
    }
  }

  /** One round of the conversion from UTF-16. */
  lemma ScanStep16(u: seq<word>)
    ensures u == [] ==> Encode(Decode16(u)) == [] && Scanned16(u) == Ok(())
    ensures Head16(u) > 0 ==>
      var rest := u[Head16(u)..];
      && Encode(Decode16(u)) == EncodeChar(CodePoint16(u)) + Encode(Decode16(rest))
      && Scanned16(u) == Scanned16(rest)
    ensures u != [] && Head16(u) == 0 ==> Encode(Decode16(u)) == []
  {
    hide CodePoint16, EncodeChar, HeadError16;
  }

  /** One round of the conversion to UTF-16. */
  lemma WriteStep(t: text)
    requires HeadLength(t) > 0
    ensures var cp := HeadPoint(t);
      Encode16(Decode(t)) ==
        (if cp > 0xffff then SurrogatesOf(cp) else [Low16(cp)]) + Encode16(Decode(t[HeadLength(t)..]))
  {
    hide HeadPoint, SurrogatesOf, Encode16Char;
    ScanStep(t);
    WordsWritten(HeadPoint(t));
  }

  lemma EncodeNone16()
    ensures Encode16([]) == []
  {}

  method Utf16To8(s: seq<word>, start: nat, end: nat, out: text) returns (r: Result<()>, out': text)
    requires start <= end <= |s|
    ensures out' == out + Encode(Decode16(s[start..end]))
    ensures r == Scanned16(s[start..end])
  {
    hide *;
    var it := start;
    out' := out;
    while it != end
      invariant start <= it <= end
      invariant out' + Encode(Decode16(s[it..end])) == out + Encode(Decode16(s[start..end]))
      invariant Scanned16(s[it..end]) == Scanned16(s[start..end])
      decreases end - it
    {
      ghost var rest := s[it..end];
      ScanStep16(rest);
      WordCases(rest);
      if Head16(rest) == 0 {
        WordErrors(rest);
      } else {
        WordValues(rest);
        assert rest[Head16(rest)..] == s[it + Head16(rest)..end];
        Assoc(out', EncodeChar(CodePoint16(rest)), Encode(Decode16(s[it + Head16(rest)..end])));
      }
      var cp := s[it] as bv32;
      it := it + 1;
      if IsLeadSurrogate(cp) {
        if it != end {
          var trailSurrogate := s[it] as bv32;
          it := it + 1;
          if IsTrailSurrogate(trailSurrogate) {
            cp := FromSurrogates(cp, trailSurrogate);
          } else {
            return Throw(InvalidUtf16(Low16(trailSurrogate))), out';
          }
        } else {
          return Throw(InvalidUtf16(Low16(cp))), out';
        }
      } else if IsTrailSurrogate(cp) {
        return Throw(InvalidUtf16(Low16(cp))), out';
      }
      var appended, out'' := Append(cp, out');
      out' := out'';
    }
    ScanStep16(s[it..end]);
    r := Ok(());
  }

  method Utf8To16(s: text, start: nat, end: nat, out: seq<word>) returns (r: Result<()>, out': seq<word>)
    requires start <= end <= |s|
    ensures out' == out + Encode16(Decode(s[start..end]))
    ensures r == Scanned(s[start..end])
  {
    hide *;
    var it := start;
    out' := out;
    EncodeNone16();
    while it != end
      invariant start <= it <= end
      invariant out' + Encode16(Decode(s[it..end])) == out + Encode16(Decode(s[start..end]))
      invariant Scanned(s[it..end]) == Scanned(s[start..end])
      decreases end - it
    {
      ghost var rest := s[it..end];
      ScanStep(rest);
      var next, it' := Next(s, it, end);
      assert rest[it' - it..] == s[it'..end];
      it := it';
      if next.Throw? {
        return Throw(next.error), out';
      }
      WriteStep(rest);
      var cp := next.value;
      SurrogatesWritten(cp, out');
      Assoc(out', if cp > 0xffff then SurrogatesOf(cp) else [Low16(cp)], Encode16(Decode(s[it..end])));
      if cp > 0xffff {
        out' := out' + [Low16((cp >> 10) + LEAD_OFFSET)];
        out' := out' + [Low16((cp & 0x3ff) + TRAIL_SURROGATE_MIN as bv32)];
      } else {
        out' := out' + [Low16(cp)];
      }
    }
    ScanStep(s[it..end]);
    r := Ok(());
  }

  /** On well-formed UTF-8, `Utf16To8` undoes `Utf8To16`. */
  lemma Utf8ThroughUtf16(t: text)
    requires Valid(t)
    ensures Valid16(Encode16(Decode(t)))
    ensures Encode(Decode16(Encode16(Decode(t)))) == t
  {
    DecodeScalars(t);
    Decode16Encode16(Decode(t));
    EncodeDecode(t);
  }

  /** On well-formed UTF-16, `Utf8To16` undoes `Utf16To8`. */
  lemma Utf16ThroughUtf8(u: seq<word>)
    requires Valid16(u)
    ensures Valid(Encode(Decode16(u)))
    ensures Encode16(Decode(Encode(Decode16(u)))) == u
  {
    Decode16Scalars(u);
    DecodeEncode(Decode16(u));
    Encode16Decode16(u);
  }
}
