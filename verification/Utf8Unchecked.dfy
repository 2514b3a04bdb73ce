/** include/utf8/unchecked.h: the fast forms, which agree with the checked ones on well-formed input. */
module Utf8Unchecked {
  import opened Octets
  import opened Rfc3629
  import opened Rfc2781
  import opened Utf8Core
  import opened Utf8Checked
  import opened Utf8Backward

  /** Writes any value without a check; for a code point, exactly what the checked form writes. */
  method AppendUnchecked(cp: bv32, out: text) returns (out': text)
    ensures out' == out + EncodeChar(cp)
  {
    hide Low8, IsChar, CodePoint, IsScalar;
    out' := out;
    if cp < 0x80 {
      out' := out' + [Low8(cp)];
    } else if cp < 0x800 {
      out' := out' + [Low8((cp >> 6) | 0xc0)];
      out' := out' + [Low8((cp & 0x3f) | 0x80)];
    } else if cp < 0x10000 {
      out' := out' + [Low8((cp >> 12) | 0xe0)];
      out' := out' + [Low8(((cp >> 6) & 0x3f) | 0x80)];
      out' := out' + [Low8((cp & 0x3f) | 0x80)];
    } else {
      out' := out' + [Low8((cp >> 18) | 0xf0)];
      out' := out' + [Low8(((cp >> 12) & 0x3f) | 0x80)];
      out' := out' + [Low8(((cp >> 6) & 0x3f) | 0x80)];
      out' := out' + [Low8((cp & 0x3f) | 0x80)];
    }
  }

  lemma AssembledChar(c: text)
    requires IsChar(c)
    ensures Assembled(c, |c|) == CodePoint(c)
  {
    CharOctets(c);
    CharAnnounced(c);
    AssembledIsBits(c);
  }

  /** Where a character begins, the announced length is right and the assembled value is the code point. */
  lemma AssembledHead(t: text)
    requires HeadLength(t) > 0
    ensures 1 <= HeadLength(t) <= 4 && SequenceLength(t[0]) == HeadLength(t)
    ensures Assembled(t, HeadLength(t)) == HeadPoint(t)
  {
    var h := HeadLength(t);
    HeadIsShaped(t);
    SequenceLengthIsAnnounced(t[0]);
    AssembledChar(t[..h]);
    AssembledPrefix(t, h);
  }

  /** Steps over one sequence of any announced length, reading as many octets as are announced. */
  method NextUnchecked(s: text, it: nat) returns (cp: bv32, it': nat)
    requires it < |s| && it + SequenceLength(s[it]) <= |s|
    ensures it' == it + if SequenceLength(s[it]) == 0 then 1 else SequenceLength(s[it])
    ensures SequenceLength(s[it]) > 0 ==> cp == Assembled(s[it..], SequenceLength(s[it]))
    ensures HeadLength(s[it..]) > 0 ==> it' == it + HeadLength(s[it..]) && cp == HeadPoint(s[it..])
  {
    hide HeadLength, HeadPoint;
    it' := it;
    cp := s[it'] as bv32;
    var length := SequenceLength(s[it']);
    if HeadLength(s[it..]) > 0 {
      AssembledHead(s[it..]);
    }
    match length {
      case 2 =>
        it' := it' + 1;
        cp := ((cp << 6) & 0x7ff) + (s[it'] as bv32 & 0x3f);
      case 3 =>
        it' := it' + 1;
        cp := ((cp << 12) & 0xffff) + ((s[it'] as bv32 << 6) & 0xfff);
        it' := it' + 1;
        cp := cp + (s[it'] as bv32 & 0x3f);
      case 4 =>
        it' := it' + 1;
        cp := ((cp << 18) & 0x1fffff) + ((s[it'] as bv32 << 12) & 0x3ffff);
        it' := it' + 1;
        cp := cp + ((s[it'] as bv32 << 6) & 0xfff);
        it' := it' + 1;
        cp := cp + (s[it'] as bv32 & 0x3f);
      case _ =>
    }
    it' := it' + 1;
  }

  /** On a character the unchecked step gives what the checked step gives. */
  method NextChar(s: text, it: nat, ghost end: nat) returns (cp: bv32, it': nat)
    requires it <= end <= |s| && HeadLength(s[it..end]) > 0
    ensures NextResult(s[it..end]) == Ok(cp) && cp == HeadPoint(s[it..end])
    ensures it' == it + HeadLength(s[it..end])
  {
    hide HeadLength, HeadPoint, SequenceLength, Assembled, IsChar;
    HeadBeyond(s[it..end], s[end..]);
    assert s[it..end] + s[end..] == s[it..];
    AssembledHead(s[it..]);
    cp, it' := NextUnchecked(s, it);
  }

  lemma HeadBeyond(t: text, u: text)
    requires HeadLength(t) > 0
    ensures HeadLength(t + u) == HeadLength(t) && HeadPoint(t + u) == HeadPoint(t)
  {
    HeadAppend(t, u);
    assert (t + u)[..HeadLength(t)] == t[..HeadLength(t)];
  }

  method DistanceUnchecked(s: text, first: nat, last: nat) returns (dist: nat)
    requires first <= last <= |s| && Valid(s[first..last])
    ensures dist == |Decode(s[first..last])|
  {
    hide *;
    var it := first;
    dist := 0;
    while it < last
      invariant first <= it <= last
      invariant Valid(s[it..last])
      invariant dist + |Decode(s[it..last])| == |Decode(s[first..last])|
    {
      ghost var rest := s[it..last];
      ValidBegins(rest);
      var _, it' := NextChar(s, it, last);
      assert rest[it' - it..] == s[it'..last];
      it := it';
      dist := dist + 1;
    }
    assert s[it..last] == [];
    EmptyDecodes();
  }

  method Utf8To32Unchecked(s: text, start: nat, end: nat, out: seq<bv32>) returns (out': seq<bv32>)
    requires start <= end <= |s| && Valid(s[start..end])
    ensures out' == out + Decode(s[start..end])
  {
    hide *;
    var it := start;
    out' := out;
    while it < end
      invariant start <= it <= end
      invariant Valid(s[it..end])
      invariant out' + Decode(s[it..end]) == out + Decode(s[start..end])
    {
      ghost var rest := s[it..end];
      ValidBegins(rest);
      var cp, it' := NextChar(s, it, end);
      assert rest[it' - it..] == s[it'..end];
      it := it';
      Assoc(out', [cp], Decode(s[it..end]));
      out' := out' + [cp];
    }
    assert s[it..end] == [];
    EmptyDecodes();
  }

  method Utf32To8Unchecked(s: seq<bv32>, start: nat, end: nat, out: text) returns (out': text)
    requires start <= end <= |s|
    ensures out' == out + Encode(s[start..end])
  {
    hide *;
    var it := start;
    out' := out;
    assert s[start..it] == [];
    EncodeNone();
    while it != end
      invariant start <= it <= end
      invariant out' == out + Encode(s[start..it])
      decreases end - it
    {
      assert s[start..it + 1] == s[start..it] + [s[it]];
      EncodeLast(s[start..it], s[it]);
      Assoc(out, Encode(s[start..it]), EncodeChar(s[it]));
      out' := AppendUnchecked(s[it], out');
      it := it + 1;
    }
  }

  method Utf8To16Unchecked(s: text, start: nat, end: nat, out: seq<word>) returns (out': seq<word>)
    requires start <= end <= |s| && Valid(s[start..end])
    ensures out' == out + Encode16(Decode(s[start..end]))
  {
    hide *;
    var it := start;
    out' := out;
    while it < end
      invariant start <= it <= end
      invariant Valid(s[it..end])
      invariant out' + Encode16(Decode(s[it..end])) == out + Encode16(Decode(s[start..end]))
    {
      ghost var rest := s[it..end];
      ValidBegins(rest);
      WriteStep(rest);
      var cp, it' := NextChar(s, it, end);
      assert rest[it' - it..] == s[it'..end];
      it := it';
      SurrogatesWritten(cp, out');
      Assoc(out', if cp > 0xffff then SurrogatesOf(cp) else [Low16(cp)], Encode16(Decode(s[it..end])));
      if cp > 0xffff {
        out' := out' + [Low16((cp >> 10) + LEAD_OFFSET)];
        out' := out' + [Low16((cp & 0x3ff) + TRAIL_SURROGATE_MIN as bv32)];
      } else {
        out' := out' + [Low16(cp)];
      }
    }
    assert s[it..end] == [];
    EmptyDecodes();
    EncodeNone16();
  }

  lemma Valid16Begins(u: seq<word>)
    requires u != [] && Valid16(u)
    ensures Head16(u) > 0 && Valid16(u[Head16(u)..])
  {}

  method Utf16To8Unchecked(s: seq<word>, start: nat, end: nat, out: text) returns (out': text)
    requires start <= end <= |s| && Valid16(s[start..end])
    ensures out' == out + Encode(Decode16(s[start..end]))
  {
    hide *;
    var it := start;
    out' := out;
    while it != end
      invariant start <= it <= end
      invariant Valid16(s[it..end])
      invariant out' + Encode(Decode16(s[it..end])) == out + Encode(Decode16(s[start..end]))
      decreases end - it
    {
      ghost var rest := s[it..end];
      Valid16Begins(rest);
      ScanStep16(rest);
      WordCases(rest);
      WordValues(rest);
      assert rest[Head16(rest)..] == s[it + Head16(rest)..end];
      Assoc(out', EncodeChar(CodePoint16(rest)), Encode(Decode16(s[it + Head16(rest)..end])));
      var cp := s[it] as bv32;
      it := it + 1;
      if IsLeadSurrogate(cp) {
        var trailSurrogate := s[it] as bv32;
        it := it + 1;
        cp := FromSurrogates(cp, trailSurrogate);
      }
      out' := AppendUnchecked(cp, out');
    }
    ScanStep16(s[it..end]);
  }

  /** Needs an octet that is no trail octet somewhere before the position. */
  method PriorUnchecked(s: text, it: nat, ghost start: nat) returns (cp: bv32, it': nat)
    requires start <= it <= |s| && PriorResult(s[start..it]).Ok?
    ensures PriorResult(s[start..it]) == Ok(cp)
    ensures it' == start + PriorStart(s[start..it])
  {
    hide NextResult, HeadLength, TailRun, Tail, IsTrail, HeadPoint;
    ghost var t := s[start..it];
    ghost var p := start + PriorStart(t);
    assert t[p - start..] == s[p..it];
    it' := it - 1;
    TrailIsTail(s[it']);
    while IsTrail(s[it'])
      invariant p <= it' < it
      invariant IsTrail(s[it']) <==> Tail(s[it'])
      decreases it'
    {
      LeadIsNoTail(t);
      it' := it' - 1;
      TrailIsTail(s[it']);
    }
    BetweenAreTails(t, it' - start);
    OkMeansHead(s[p..it]);
    var next: nat;
    cp, next := NextChar(s, it', it);
  }

  lemma LeadIsNoTail(t: text)
    requires PriorResult(t).Ok?
    ensures t != [] && !Tail(t[PriorStart(t)])
  {}

  lemma BetweenAreTails(t: text, k: nat)
    requires PriorResult(t).Ok? && PriorStart(t) <= k < |t| && !Tail(t[k])
    ensures k == PriorStart(t)
  {}

  lemma OkMeansHead(t: text)
    requires t != [] && NextResult(t).Ok?
    ensures HeadLength(t) > 0
  {}

  /** The iterator without a range: every move trusts the text around it to be well-formed. */
  class UncheckedIterator {
    const s: text
    var it: nat

    constructor (s: text, octetIt: nat)
      ensures this.s == s && it == octetIt
    {
      this.s := s;
      this.it := octetIt;
    }

    method Dereference(ghost end: nat) returns (cp: bv32)
      requires it <= end <= |s| && HeadLength(s[it..end]) > 0
      ensures NextResult(s[it..end]) == Ok(cp)
    {
      var read, _ := NextChar(s, it, end);
      cp := read;
    }

    method Equals(rhs: UncheckedIterator) returns (r: bool)
      ensures r <==> s == rhs.s && it == rhs.it
    {
      r := s == rhs.s && it == rhs.it;
    }

    /** Lands where the checked iterator lands, by the announced length alone. */
    method Increment(ghost end: nat)
      requires it <= end <= |s| && HeadLength(s[it..end]) > 0
      modifies this
      ensures it == old(it) + HeadLength(s[old(it)..end])
    {
      AssembledHead(s[it..end]);
      it := it + SequenceLength(s[it]);
    }

    method Decrement(ghost start: nat)
      requires start <= it <= |s| && PriorResult(s[start..it]).Ok?
      modifies this
      ensures it == start + PriorStart(s[start..old(it)])
    {
      var _, before := PriorUnchecked(s, it, start);
      it := before;
    }
  }
}
