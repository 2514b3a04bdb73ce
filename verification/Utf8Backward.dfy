/** include/utf8/checked.h: stepping backward, and the bidirectional iterator. */
module Utf8Backward {
  import opened Octets
  import opened Rfc3629
  import opened Utf8Core
  import opened Utf8Checked

  /** How many trail octets `t` ends with. */
  function TailRun(t: text): (n: nat)
    ensures n <= |t|
    ensures forall i :: |t| - n <= i < |t| ==> Tail(t[i])
    ensures n < |t| ==> !Tail(t[|t| - n - 1])
  {
    if t == [] || !Tail(t[|t| - 1]) then 0 else 1 + TailRun(t[..|t| - 1])
  }

  /** Where a step back over the end of `t` lands: on its last octet that is no trail octet, or at its front. */
  function PriorStart(t: text): (p: nat)
    ensures p <= |t| && (t != [] ==> p < |t|)
  {
    if TailRun(t) == |t| then 0 else |t| - TailRun(t) - 1
  }

  function PriorResult(t: text): Result<bv32> {
    if t == [] then Throw(NotEnoughRoom)
    else if TailRun(t) == |t| then Throw(InvalidUtf8(t[0]))
    else NextResult(t[PriorStart(t)..])
  }

  lemma {:induction false} TailRunUnique(t: text, n: nat)
    requires n <= |t| && forall i :: |t| - n <= i < |t| ==> Tail(t[i])
    requires n < |t| ==> !Tail(t[|t| - n - 1])
    ensures TailRun(t) == n
  {
    hide Tail;
    if n > 0 {
      TailRunUnique(t[..|t| - 1], n - 1);
    }
  }

  method Prior(s: text, it: nat, start: nat) returns (r: Result<bv32>, it': nat)
    requires start <= it <= |s|
    ensures r == PriorResult(s[start..it])
    ensures it' == start + PriorStart(s[start..it])
  {
    hide NextResult, TailRun, Tail, IsTrail;
    it' := it;
    if it' == start {
      return Throw(NotEnoughRoom), it';
    }
    ghost var t := s[start..it];
    var end := it;
    it' := it' - 1;
    TrailIsTail(s[it']);
    while IsTrail(s[it'])
      invariant start <= it' < end
      invariant forall i :: it' - start < i < |t| ==> Tail(t[i])
      invariant IsTrail(s[it']) <==> Tail(s[it'])
      decreases it'
    {
      if it' == start {
        TailRunUnique(t, |t|);
        return Throw(InvalidUtf8(s[it'])), it';
      }
      it' := it' - 1;
      TrailIsTail(s[it']);
    }
    TailRunUnique(t, end - it' - 1);
    assert t[it' - start..] == s[it'..end];
    r := PeekNext(s, it', end);
  }

  /** What `prior` gives, from the octets alone: at the front, behind trail octets only, and behind any other octet. */
  lemma PriorOutcome(x: text, b: octet, strays: text)
    requires forall i :: 0 <= i < |strays| ==> Tail(strays[i])
    ensures PriorResult([]) == Throw(NotEnoughRoom)
    ensures strays != [] ==> PriorResult(strays) == Throw(InvalidUtf8(strays[0])) && PriorStart(strays) == 0
    ensures !Tail(b) ==>
      PriorResult(x + [b] + strays) == NextResult([b] + strays) && PriorStart(x + [b] + strays) == |x|
  {
    hide TailRun, NextResult, Tail;
    TailRunUnique(strays, |strays|);
    if !Tail(b) {
      var t := x + [b] + strays;
      TailRunUnique(t, |strays|);
      assert t[|x|..] == [b] + strays;
    }
  }

  /** A step back over a character lands on its lead octet and reads it, whatever stands before it. */
  lemma PriorOverChar(x: text, c: text)
    requires IsChar(c)
    ensures PriorStart(x + c) == |x|
    ensures PriorResult(x + c) == Ok(CodePoint(c))
  {
    hide TailRun, IsChar, CodePoint;
    var t := x + c;
    CharOctets(c);
    CharNonEmpty(c);
    assert t[|x|] == c[0];
    forall i | |x| < i < |t| ensures Tail(t[i]) {
      assert t[i] == c[i - |x|];
    }
    TailRunUnique(t, |c| - 1);
    assert c[..|c|] == c && t[|x|..] == c;
    HeadUnique(c, |c|);
  }

  /** A step back over a character and stray trail octets behind it reads the character and passes the stray octets. */
  lemma PriorPassesStrays(x: text, c: text, strays: text)
    requires IsChar(c) && forall i :: 0 <= i < |strays| ==> Tail(strays[i])
    ensures PriorStart(x + c + strays) == |x|
    ensures PriorResult(x + c + strays) == Ok(CodePoint(c))
  {
    hide TailRun, IsChar, CodePoint, Tail;
    var t := x + c + strays;
    CharOctets(c);
    CharNonEmpty(c);
    assert t[|x|] == c[0];
    forall i | |x| < i < |t| ensures Tail(t[i]) {
      assert t[i] == if i < |x + c| then c[i - |x|] else strays[i - |x + c|];
    }
    TailRunUnique(t, |t| - |x| - 1);
    assert t[|x|..] == c + strays;
    HeadOfChar(c, strays);
  }

  /** `A` and one stray trail octet: the step back over two octets reads a character of one. */
  lemma PriorStopsShort()
    ensures var t := [0x41, 0x80]; PriorStart(t) == 0 && PriorResult(t) == Ok(0x41) && HeadLength(t) == 1
  {
    PriorPassesStrays([], [0x41], [0x80]);
    assert [] + [0x41] + [0x80] == [0x41, 0x80];
    HeadOfChar([0x41], [0x80]);
  }

  /** The character a step back reads reaches the position it started from exactly when its lead octet announces all
      the trail octets that were passed. */
  lemma PriorReachesIff(t: text)
    requires PriorResult(t).Ok?
    ensures var p := PriorStart(t);
      && p < |t| && HeadLength(t[p..]) > 0
      && (p + HeadLength(t[p..]) == |t| <==> Announced(t[p]) == TailRun(t) + 1)
  {
    hide Announced, HeadPoint, NextError;
    HeadIsShaped(t[PriorStart(t)..]);
  }

  /** That, in turn, is when there is a character that ends there. */
  lemma PriorReadsLastCharIff(t: text)
    ensures (exists k :: 0 <= k < |t| && IsChar(t[k..])) <==>
      && PriorResult(t).Ok?
      && Announced(t[PriorStart(t)]) == TailRun(t) + 1
  {
    hide *;
    if k :| 0 <= k < |t| && IsChar(t[k..]) {
      PriorOverChar(t[..k], t[k..]);
      assert t == t[..k] + t[k..];
      assert t[k..][..|t| - k] == t[k..];
      HeadUnique(t[k..], |t| - k);
      PriorReachesIff(t);
    }
    if PriorResult(t).Ok? {
      PriorReachesIff(t);
      var rest := t[PriorStart(t)..];
      if HeadLength(rest) == |rest| {
        assert rest[..|rest|] == rest;
      }
    }
  }

  /** `Prior` undoes `Next`, in position and in value, wherever a character is read. */
  lemma PriorUndoesNext(t: text, k: nat)
    requires k <= |t| && HeadLength(t[k..]) > 0
    ensures var n := k + HeadLength(t[k..]);
      PriorStart(t[..n]) == k && PriorResult(t[..n]) == Ok(HeadPoint(t[k..])) == NextResult(t[k..])
  {
    var h := HeadLength(t[k..]);
    PriorOverChar(t[..k], t[k..][..h]);
    assert t[..k + h] == t[..k] + t[k..][..h];
  }

  /** The code points met walking back from the end to the start. */
  function WalkBack(t: text): seq<bv32>
  {
    var r := PriorResult(t);
    if r.Ok? then [r.value] + WalkBack(t[..PriorStart(t)]) else []
  }

  function Reversed<T>(s: seq<T>): seq<T> {
    if s == [] then [] else Reversed(s[1..]) + [s[0]]
  }

  lemma {:induction false} ReversedLast<T>(s: seq<T>, x: T)
    ensures Reversed(s + [x]) == [x] + Reversed(s)
  {
    if s != [] {
      assert (s + [x])[1..] == s[1..] + [x];
      ReversedLast(s[1..], x);
    }
  }

  lemma {:induction false} WalkBackEncoded(cps: seq<bv32>)
    requires AllScalars(cps)
    ensures WalkBack(Encode(cps)) == Reversed(cps)
    decreases |cps|
  {
    hide EncodeChar, Encode, PriorResult, PriorStart, IsScalar, IsChar, CodePoint;
    if cps == [] {
      EncodeNone();
      PriorOfNothing();
    } else {
      var front, last := cps[..|cps| - 1], cps[|cps| - 1];
      assert cps == front + [last];
      EncodeLast(front, last);
      PriorOverChar(Encode(front), EncodeChar(last));
      assert (Encode(front) + EncodeChar(last))[..|Encode(front)|] == Encode(front);
      WalkBackEncoded(front);
      ReversedLast(front, last);
    }
  }

  lemma PriorOfNothing()
    ensures WalkBack([]) == []
  {}

  /** On well-formed text the walk from end to start reads the decoded text in reverse. */
  lemma WalkBackReverses(t: text)
    requires Valid(t)
    ensures WalkBack(t) == Reversed(Decode(t))
  {
    hide Decode, Encode, ValidLength, WalkBack, AllScalars, Reversed;
    EncodeDecode(t);
    assert t[..ValidLength(t)] == t;
    DecodeScalars(t);
    WalkBackEncoded(Decode(t));
  }

  // ---- the iterator class

  datatype IteratorError = OutOfRange | DifferentRanges | Failed(error: Utf8Exception)

  datatype Outcome<+T> = Done(value: T) | Raised(error: IteratorError)

  /** A position in a range of octets that moves by whole characters. */
  class Utf8Iterator {
    const s: text
    const rangeStart: nat
    const rangeEnd: nat
    var it: nat

    ghost predicate Valid()
      reads this
    {
      rangeStart <= it <= rangeEnd <= |s|
    }

    /** Both sides of the position are well-formed. */
    ghost predicate OnBoundary()
      reads this
      requires Valid()
    {
      Rfc3629.Valid(s[rangeStart..it]) && Rfc3629.Valid(s[it..rangeEnd])
    }

    /** The code points before and after the position. */
    ghost function Before(): seq<bv32>
      reads this
      requires Valid()
    {
      Decode(s[rangeStart..it])
    }

    ghost function After(): seq<bv32>
      reads this
      requires Valid()
    {
      Decode(s[it..rangeEnd])
    }

    constructor (s: text, octetIt: nat, rangeStart: nat, rangeEnd: nat)
      requires rangeStart <= octetIt <= rangeEnd <= |s|
      ensures Valid() && it == octetIt
      ensures this.s == s && this.rangeStart == rangeStart && this.rangeEnd == rangeEnd
    {
      this.s := s;
      this.it := octetIt;
      this.rangeStart := rangeStart;
      this.rangeEnd := rangeEnd;
    }

    /** The constructor of the source, which throws on a position outside the range. */
    static method Make(s: text, octetIt: nat, rangeStart: nat, rangeEnd: nat) returns (r: Outcome<Utf8Iterator>)
      requires rangeStart <= |s| && rangeEnd <= |s|
      ensures r.Done? <==> rangeStart <= octetIt <= rangeEnd
      ensures r.Done? ==> fresh(r.value) && r.value.Valid() && r.value.it == octetIt
      ensures r.Done? ==> r.value.s == s && r.value.rangeStart == rangeStart && r.value.rangeEnd == rangeEnd
      ensures r.Raised? ==> r.error == OutOfRange
    {
      if octetIt < rangeStart || octetIt > rangeEnd {
        return Raised(OutOfRange);
      }
      var made := new Utf8Iterator(s, octetIt, rangeStart, rangeEnd);
      r := Done(made);
    }

    method Dereference() returns (r: Result<bv32>)
      requires Valid() && it < rangeEnd
      ensures r == NextResult(s[it..rangeEnd])
      ensures OnBoundary() ==> After() != [] && r == Ok(After()[0])
    {
      hide NextResult, HeadLength, Rfc3629.Valid, Decode;
      StepForward(s, rangeStart, it, rangeEnd);
      r := PeekNext(s, it, rangeEnd);
    }

    method Equals(rhs: Utf8Iterator) returns (r: Outcome<bool>)
      ensures r == if s != rhs.s || rangeStart != rhs.rangeStart || rangeEnd != rhs.rangeEnd
                   then Raised(DifferentRanges) else Done(it == rhs.it)
    {
      if s != rhs.s || rangeStart != rhs.rangeStart || rangeEnd != rhs.rangeEnd {
        return Raised(DifferentRanges);
      }
      r := Done(it == rhs.it);
    }

    /** Moves the first code point after the position before it; does not move when it throws. */
    method Increment() returns (r: Result<()>)
      requires Valid() && it < rangeEnd
      modifies this
      ensures Valid()
      ensures r.Ok? <==> NextResult(old(s[it..rangeEnd])).Ok?
      ensures it == old(it) + HeadLength(old(s[it..rangeEnd]))
      ensures r.Throw? ==> it == old(it) && r.error == NextResult(s[it..rangeEnd]).error
      ensures old(OnBoundary()) ==>
        && r.Ok? && OnBoundary() && old(After()) != []
        && Before() == old(Before()) + [old(After())[0]]
        && After() == old(After())[1..]
    {
      hide NextResult, HeadLength, Rfc3629.Valid, Decode, HeadPoint;
      StepForward(s, rangeStart, it, rangeEnd);
      ScanStep(s[it..rangeEnd]);
      var result, next := Next(s, it, rangeEnd);
      it := next;
      r := if result.Ok? then Ok(()) else Throw(result.error);
    }

    /** Moves the last code point before the position after it. */
    method Decrement() returns (r: Result<()>)
      requires Valid()
      modifies this
      ensures Valid()
      ensures it == rangeStart + PriorStart(old(s[rangeStart..it]))
      ensures r.Ok? <==> PriorResult(old(s[rangeStart..it])).Ok?
      ensures r.Throw? ==> r.error == PriorResult(old(s[rangeStart..it])).error
      ensures old(OnBoundary()) && rangeStart < old(it) ==>
        && r.Ok? && OnBoundary() && old(Before()) != []
        && Before() == old(Before())[..|old(Before())| - 1]
        && After() == [old(Before())[|old(Before())| - 1]] + old(After())
    {
      hide NextResult, PriorResult, PriorStart, HeadLength, Rfc3629.Valid, Decode;
      StepBackward(s, rangeStart, it, rangeEnd);
      var result, before := Prior(s, it, rangeStart);
      it := before;
      r := if result.Ok? then Ok(()) else Throw(result.error);
    }
  }

  /** What one step forward does to the two sides of a boundary. */
  lemma StepForward(s: text, start: nat, it: nat, end: nat)
    requires start <= it < end <= |s|
    ensures it + HeadLength(s[it..end]) <= end
    ensures Valid(s[start..it]) && Valid(s[it..end]) ==>
      var n := it + HeadLength(s[it..end]);
      && HeadLength(s[it..end]) > 0
      && Decode(s[it..end]) != []
      && NextResult(s[it..end]) == Ok(Decode(s[it..end])[0])
      && Valid(s[start..n]) && Valid(s[n..end])
      && Decode(s[start..n]) == Decode(s[start..it]) + [Decode(s[it..end])[0]]
      && Decode(s[n..end]) == Decode(s[it..end])[1..]
  {
    hide IsChar, HeadPoint, IsScalar, CodePoint, HeadLength, Valid, Decode, NextResult;
    var t := s[it..end];
    var h := HeadLength(t);
    if Valid(s[start..it]) && Valid(t) {
      ValidBegins(t);
      assert t[h..] == s[it + h..end];
      ScanStep(t);
      CharAlone(t);
      assert s[start..it + h] == s[start..it] + t[..h];
      BothValid(s[start..it], t[..h]);
    }
  }

  lemma BothValid(x: text, y: text)
    requires Valid(x) && Valid(y)
    ensures Valid(x + y) && Decode(x + y) == Decode(x) + Decode(y)
  {
    ValidAppend(x, y);
  }

  /** The character a text begins with is well-formed text of one code point. */
  lemma CharAlone(t: text)
    requires HeadLength(t) > 0
    ensures var c := t[..HeadLength(t)]; Valid(c) && Decode(c) == [HeadPoint(t)]
  {
    var c := t[..HeadLength(t)];
    HeadUnique(c, |c|);
    assert c[..|c|] == c && c[|c|..] == [];
    assert HeadLength([]) == 0;
  }

  /** What one step backward does to the two sides of a boundary. */
  lemma StepBackward(s: text, start: nat, it: nat, end: nat)
    requires start <= it <= end <= |s|
    ensures start + PriorStart(s[start..it]) <= it
    ensures Valid(s[start..it]) && Valid(s[it..end]) && start < it ==>
      var p := start + PriorStart(s[start..it]);
      && Decode(s[start..it]) != []
      && var last := Decode(s[start..it])[|Decode(s[start..it])| - 1];
      && PriorResult(s[start..it]) == Ok(last)
      && Valid(s[start..p]) && Valid(s[p..end])
      && Decode(s[start..p]) == Decode(s[start..it])[..|Decode(s[start..it])| - 1]
      && Decode(s[p..end]) == [last] + Decode(s[it..end])
  {
    hide IsChar, IsScalar, CodePoint, HeadLength, Decode, ValidLength, PriorResult, PriorStart;
    var t := s[start..it];
    assert s[start..start + PriorStart(t)] == t[..PriorStart(t)];
    if Valid(t) && Valid(s[it..end]) && start < it {
      var front, c := LastChar(t);
      PriorOverChar(front, c);
      var p := start + |front|;
      assert s[start..p] == front && s[p..end] == c + s[it..end];
      CharDecodes(c);
      ValidAppend(front, c);
      ValidAppend(c, s[it..end]);
    }
  }

  lemma CharDecodes(c: text)
    requires IsChar(c)
    ensures Valid(c) && Decode(c) == [CodePoint(c)]
  {
    HeadUnique(c, |c|);
    assert c[..|c|] == c;
    CharAlone(c);
  }

  /** Non-empty well-formed text ends in a character. */
  lemma LastChar(t: text) returns (front: text, c: text)
    requires Valid(t) && t != []
    ensures IsChar(c) && Valid(front) && t == front + c
  {
    var cps := Decode(t);
    EncodeDecode(t);
    DecodeScalars(t);
    assert t[..ValidLength(t)] == t;
    if cps == [] {
      EncodeNone();
    }
    var last := cps[|cps| - 1];
    front, c := Encode(cps[..|cps| - 1]), EncodeChar(last);
    assert cps == cps[..|cps| - 1] + [last];
    EncodeLast(cps[..|cps| - 1], last);
    DecodeEncode(cps[..|cps| - 1]);
  }
}
