/** include/utf8/checked.h: replacing what is malformed. */
module Utf8Repair {
  import opened Octets
  import opened Rfc3629
  import opened Utf8Core
  import opened Utf8Checked
  import opened Utf8Backward

  /** How many trail octets `t` begins with. */
  function HeadRun(t: text): (n: nat)
    ensures n <= |t|
    ensures forall i :: 0 <= i < n ==> Tail(t[i])
    ensures n < |t| ==> !Tail(t[n])
  {
    if t == [] || !Tail(t[0]) then 0 else 1 + HeadRun(t[1..])
  }

  /** How many octets one replacement mark stands for. */
  function DefectLength(t: text): (n: nat)
    requires t != []
    ensures 1 <= n <= |t|
  {
    if Diagnosis(t) == INVALID_LEAD then 1 else 1 + HeadRun(t[1..])
  }

  /** The text written and the way the scan ends. */
  datatype Repair = Repair(written: text, end: Result<()>)

  /** The repair of a whole text. */
  function Repaired(t: text, replacement: bv32): Repair {
    if t == [] then Repair([], Ok(()))
    else if HeadLength(t) > 0 then
      var rest := Repaired(t[HeadLength(t)..], replacement);
      Repair(t[..HeadLength(t)] + rest.written, rest.end)
    else if Diagnosis(t) == NOT_ENOUGH_ROOM then Repair([], Throw(NotEnoughRoom))
    else if !IsScalar(replacement) then Repair([], Throw(InvalidCodePoint(replacement)))
    else
      var rest := Repaired(t[DefectLength(t)..], replacement);
      Repair(EncodeChar(replacement) + rest.written, rest.end)
  }

  /** One round of the scan. */
  lemma RepairStep(t: text, replacement: bv32)
    requires t != []
    ensures Diagnosis(t) == UTF8_OK <==> HeadLength(t) > 0
    ensures Diagnosis(t) == UTF8_OK ==>
      var rest := Repaired(t[HeadLength(t)..], replacement);
      Repaired(t, replacement) == Repair(t[..HeadLength(t)] + rest.written, rest.end)
    ensures Diagnosis(t) == NOT_ENOUGH_ROOM ==> Repaired(t, replacement) == Repair([], Throw(NotEnoughRoom))
    ensures Diagnosis(t) !in {UTF8_OK, NOT_ENOUGH_ROOM} && !IsScalar(replacement) ==>
      Repaired(t, replacement) == Repair([], Throw(InvalidCodePoint(replacement)))
    ensures Diagnosis(t) !in {UTF8_OK, NOT_ENOUGH_ROOM} && IsScalar(replacement) ==>
      var rest := Repaired(t[DefectLength(t)..], replacement);
      Repaired(t, replacement) == Repair(EncodeChar(replacement) + rest.written, rest.end)
  {
    hide IsChar, EncodeChar, IsScalar, TrailsFrom, Bits, DefectLength;
  }

  lemma HeadRunUnique(t: text, n: nat)
    requires n <= |t| && (forall i :: 0 <= i < n ==> Tail(t[i])) && (n < |t| ==> !Tail(t[n]))
    ensures HeadRun(t) == n
  {
    hide Tail;
    if n > 0 {
      HeadRunUnique(t[1..], n - 1);
    }
  }

  /** What is written in the end when `out` is already written and `t` is still to be repaired. */
  ghost function Resumed(out: text, t: text, replacement: bv32): Repair {
    Repair(out + Repaired(t, replacement).written, Repaired(t, replacement).end)
  }

  /** The same round, as the loop meets it. */
  lemma ResumeStep(s: text, it: nat, end: nat, out: text, replacement: bv32)
    requires it < end <= |s|
    ensures var t := s[it..end];
      && (Diagnosis(t) == UTF8_OK <==> HeadLength(t) > 0)
      && (Diagnosis(t) == UTF8_OK ==>
            var n := it + HeadLength(t);
            Resumed(out, t, replacement) == Resumed(out + s[it..n], s[n..end], replacement))
      && (Diagnosis(t) == NOT_ENOUGH_ROOM ==> Resumed(out, t, replacement) == Repair(out, Throw(NotEnoughRoom)))
      && (Diagnosis(t) !in {UTF8_OK, NOT_ENOUGH_ROOM} && !IsScalar(replacement) ==>
            Resumed(out, t, replacement) == Repair(out, Throw(InvalidCodePoint(replacement))))
      && (Diagnosis(t) !in {UTF8_OK, NOT_ENOUGH_ROOM} && IsScalar(replacement) ==>
            var n := it + DefectLength(t);
            Resumed(out, t, replacement) == Resumed(out + EncodeChar(replacement), s[n..end], replacement))
  {
    hide Diagnosis, HeadLength, DefectLength, IsScalar, EncodeChar, Repaired;
    var t := s[it..end];
    RepairStep(t, replacement);
    assert t[HeadLength(t)..] == s[it + HeadLength(t)..end] && t[..HeadLength(t)] == s[it..it + HeadLength(t)];
    assert t[DefectLength(t)..] == s[it + DefectLength(t)..end];
  }

  lemma DefectSkipped(s: text, it: nat, end: nat)
    requires it < end <= |s|
    ensures DefectLength(s[it..end]) ==
      if Diagnosis(s[it..end]) == INVALID_LEAD then 1 else 1 + HeadRun(s[it + 1..end])
  {
    hide Diagnosis, HeadRun;
    assert s[it..end][1..] == s[it + 1..end];
  }

  lemma ResumeEnd(out: text, t: text, replacement: bv32)
    requires t == []
    ensures Resumed(out, t, replacement) == Repair(out, Ok(()))
  {}

  // ---- a read at the end of the range

  /** Whether some round of the repair looks for trail octets up to the end of the text. The inner loop of the source
      reads the octet before it compares the position with the end, so it reads `*end` then. */
  predicate ReadsEnd(t: text, replacement: bv32) {
    if t == [] then false
    else if HeadLength(t) > 0 then ReadsEnd(t[HeadLength(t)..], replacement)
    else if Diagnosis(t) == NOT_ENOUGH_ROOM || !IsScalar(replacement) then false
    else (Diagnosis(t) != INVALID_LEAD && DefectLength(t) == |t|) || ReadsEnd(t[DefectLength(t)..], replacement)
  }

  /** One round, as the loop meets it. */
  lemma ReadStep(s: text, it: nat, end: nat, replacement: bv32)
    requires it < end <= |s|
    ensures var t := s[it..end];
      && (Diagnosis(t) == UTF8_OK ==>
            ReadsEnd(t, replacement) == ReadsEnd(s[it + HeadLength(t)..end], replacement))
      && (Diagnosis(t) == NOT_ENOUGH_ROOM || (Diagnosis(t) != UTF8_OK && !IsScalar(replacement)) ==>
            !ReadsEnd(t, replacement))
      && (Diagnosis(t) !in {UTF8_OK, NOT_ENOUGH_ROOM} && IsScalar(replacement) ==>
            var n := it + DefectLength(t);
            ReadsEnd(t, replacement) ==
              ((Diagnosis(t) != INVALID_LEAD && n == end) || ReadsEnd(s[n..end], replacement)))
  {
    hide IsScalar, DefectLength, HeadLength, Diagnosis;
    var t := s[it..end];
    RepairStep(t, replacement);
    assert t[HeadLength(t)..] == s[it + HeadLength(t)..end];
    assert t[DefectLength(t)..] == s[it + DefectLength(t)..end];
  }

  lemma NoReadOfNothing(t: text, replacement: bv32)
    requires t == []
    ensures !ReadsEnd(t, replacement)
  {}

  /** `readEnd` says whether the source has read `*end`. */
  method ReplaceInvalid(s: text, start: nat, end: nat, out: text, replacement: bv32)
    returns (r: Result<()>, out': text, ghost readEnd: bool)
    requires start <= end <= |s|
    ensures Repair(out', r) == Resumed(out, s[start..end], replacement)
    ensures readEnd <==> ReadsEnd(s[start..end], replacement)
  {
    hide *;
    var it := start;
    out' := out;
    readEnd := false;
    while it != end
      invariant start <= it <= end
      invariant Resumed(out', s[it..end], replacement) == Resumed(out, s[start..end], replacement)
      invariant readEnd || ReadsEnd(s[it..end], replacement) <==> ReadsEnd(s[start..end], replacement)
      decreases end - it
    {
      ghost var t := s[it..end];
      ResumeStep(s, it, end, out', replacement);
      ReadStep(s, it, end, replacement);
      var sequenceStart := it;
      var errCode, next, _ := ValidateNext(s, it, end);
      it := next;
      if errCode == UTF8_OK {
        out' := CopyOctets(s, sequenceStart, it, out');
      } else if errCode == NOT_ENOUGH_ROOM {
        return Throw(NotEnoughRoom), out', readEnd;
      } else {
        var appended, out'' := Append(replacement, out');
        if appended.Throw? {
          return appended, out', readEnd;
        }
        out' := out'';
        it := it + 1;
        DefectSkipped(s, sequenceStart, end);
        if errCode != INVALID_LEAD {
          ghost var stopped;
          it, stopped := SkipTrails(s, it, end);
          readEnd := readEnd || stopped;
        }
      }
    }
    ResumeEnd(out', s[it..end], replacement);
    NoReadOfNothing(s[it..end], replacement);
    r := Ok(());
  }

  /** The loop that copies a well-formed sequence. */
  method CopyOctets(s: text, first: nat, last: nat, out: text) returns (out': text)
    requires first <= last <= |s|
    ensures out' == out + s[first..last]
  {
    var it := first;
    out' := out;
    while it != last
      invariant first <= it <= last
      invariant out' == out + s[first..it]
      decreases last - it
    {
      out' := out' + [s[it]];
      it := it + 1;
    }
  }

  /** The inner loop of the repair: just one replacement mark for the sequence. Here the bounds test comes first; the
      source reads the octet at every position it tests, and the last one it tests is where it stops. */
  method SkipTrails(s: text, start: nat, end: nat) returns (it: nat, ghost readEnd: bool)
    requires start <= end <= |s|
    ensures it == start + HeadRun(s[start..end])
    ensures readEnd <==> it == end
  {
    hide HeadRun, IsTrail, Tail;
    it := start;
    if it != end {
      TrailIsTail(s[it]);
    }
    while it != end && IsTrail(s[it])
      invariant start <= it <= end
      invariant forall i :: 0 <= i < it - start ==> Tail(s[start..end][i])
      invariant it != end ==> (IsTrail(s[it]) <==> Tail(s[it]))
      decreases end - it
    {
      it := it + 1;
      if it != end {
        TrailIsTail(s[it]);
      }
    }
    HeadRunUnique(s[start..end], it - start);
    readEnd := it == end;
  }

  // ---- what the repair promises

  /** Everything the repair writes is well-formed, even when it gives up. */
  lemma {:induction false} RepairIsValid(t: text, replacement: bv32)
    ensures Valid(Repaired(t, replacement).written)
    decreases |t|
  {
    hide Diagnosis, IsScalar, IsChar, EncodeChar, DefectLength, HeadLength, CodePoint, HeadPoint, ValidLength, Decode;
    EmptyDecodes();
    if t != [] {
      RepairStep(t, replacement);
      if HeadLength(t) > 0 {
        var rest := t[HeadLength(t)..];
        RepairIsValid(rest, replacement);
        CharAlone(t);
        ValidAppend(t[..HeadLength(t)], Repaired(rest, replacement).written);
      } else if IsScalar(replacement) && Diagnosis(t) != NOT_ENOUGH_ROOM {
        var rest := t[DefectLength(t)..];
        RepairIsValid(rest, replacement);
        CharDecodes(EncodeChar(replacement));
        ValidAppend(EncodeChar(replacement), Repaired(rest, replacement).written);
      }
    }
  }

  /** The repair copies a well-formed beginning unchanged. */
  lemma {:induction false} RepairKeepsValidPrefix(x: text, y: text, replacement: bv32)
    requires Valid(x)
    ensures Repaired(x + y, replacement).written == x + Repaired(y, replacement).written
    ensures Repaired(x + y, replacement).end == Repaired(y, replacement).end
    decreases |x|
  {
    hide Diagnosis, IsScalar, IsChar, EncodeChar, DefectLength, HeadLength;
    if x == [] {
      assert x + y == y;
    } else {
      var h := HeadLength(x);
      HeadAppend(x, y);
      assert (x + y)[..h] == x[..h] && (x + y)[h..] == x[h..] + y;
      RepairKeepsValidPrefix(x[h..], y, replacement);
    }
  }

  /** Well-formed text is left as it is. */
  lemma RepairOfValid(t: text, replacement: bv32)
    requires Valid(t)
    ensures Repaired(t, replacement) == Repair(t, Ok(()))
  {
    RepairKeepsValidPrefix(t, [], replacement);
    assert t + [] == t;
  }

  /** Repairing a second time changes nothing, with whatever marker. */
  lemma RepairIdempotent(t: text, first: bv32, second: bv32)
    ensures var once := Repaired(t, first).written; Repaired(once, second) == Repair(once, Ok(()))
  {
    RepairIsValid(t, first);
    RepairOfValid(Repaired(t, first).written, second);
  }

  /** The last octet of `t` that is no trail octet announces more octets than are left. */
  predicate CutOff(t: text) {
    && TailRun(t) < |t|
    && Announced(t[|t| - TailRun(t) - 1]) > TailRun(t) + 1
  }

  /** With a valid marker, the repair fails exactly on text whose last sequence is cut off by the end of input. */
  lemma {:induction false} RepairFailsIffCutOff(t: text, replacement: bv32)
    requires IsScalar(replacement)
    ensures Repaired(t, replacement).end == if CutOff(t) then Throw(NotEnoughRoom) else Ok(())
    decreases |t|
  {
    hide IsScalar, IsChar, EncodeChar, HeadLength, Diagnosis, DefectLength, Announced, Tail, TailRun;
    if t != [] {
      RepairStep(t, replacement);
      if Diagnosis(t) != NOT_ENOUGH_ROOM {
        StepsOverNoLead(t);
        var n := if HeadLength(t) > 0 then HeadLength(t) else DefectLength(t);
        CutOffSuffix(t, n);
        RepairFailsIffCutOff(t[n..], replacement);
      } else {
        NotEnoughRoomIsCutOff(t);
      }
    }
  }

  /** Each round of the scan passes one octet and then only trail octets, and enough of them when it keeps going. */
  lemma StepsOverNoLead(t: text)
    requires t != [] && Diagnosis(t) != NOT_ENOUGH_ROOM
    ensures var n := if HeadLength(t) > 0 then HeadLength(t) else DefectLength(t);
      && (forall i :: 1 <= i < n ==> Tail(t[i]))
      && ((forall i :: 1 <= i < |t| ==> Tail(t[i])) ==> Announced(t[0]) <= |t|)
  {
    hide IsScalar, IsChar, Bits, Tail, Announced;
    if HeadLength(t) > 0 {
      HeadIsShaped(t);
      TrailsFromMeaning(t, 1, HeadLength(t));
    } else if Announced(t[0]) > 0 {
      TrailsFromMeaning(t, 1, Announced(t[0]));
    }
    if HeadLength(t) == 0 && Diagnosis(t) != INVALID_LEAD {
      var n := DefectLength(t);
      forall i | 1 <= i < n ensures Tail(t[i]) {
        assert t[i] == t[1..][i - 1];
      }
    }
  }

  /** With an invalid marker, the repair succeeds exactly on text that needs none. */
  lemma {:induction false} RepairWithInvalidMarker(t: text, replacement: bv32)
    requires !IsScalar(replacement)
    ensures Repaired(t, replacement).end.Ok? <==> Valid(t)
    decreases |t|
  {
    hide IsScalar, IsChar, EncodeChar, HeadLength, Diagnosis, DefectLength, Valid;
    EmptyDecodes();
    if t != [] {
      RepairStep(t, replacement);
      ValidFromHead(t);
      if HeadLength(t) > 0 {
        RepairWithInvalidMarker(t[HeadLength(t)..], replacement);
      }
    }
  }

  lemma ValidFromHead(t: text)
    requires t != []
    ensures Valid(t) <==> HeadLength(t) > 0 && Valid(t[HeadLength(t)..])
  {}

  lemma NotEnoughRoomIsCutOff(t: text)
    requires t != [] && Diagnosis(t) == NOT_ENOUGH_ROOM
    ensures CutOff(t)
  {
    hide IsScalar, IsChar, Bits;
    TrailsFromMeaning(t, 1, Announced(t[0]));
    TailRunUnique(t, |t| - 1);
  }

  /** Whether text is cut off is decided by what follows a round of the scan. */
  lemma CutOffSuffix(t: text, n: nat)
    requires 1 <= n <= |t| && forall i :: 1 <= i < n ==> Tail(t[i])
    requires (forall i :: 1 <= i < |t| ==> Tail(t[i])) ==> Announced(t[0]) <= |t|
    ensures CutOff(t) <==> CutOff(t[n..])
  {
    hide Tail, Announced;
    var u := t[n..];
    if TailRun(u) < |u| {
      TailRunUnique(t, TailRun(u));
    } else {
      forall i | 1 <= i < |t| ensures Tail(t[i]) {
        if i >= n { assert t[i] == u[i - n]; }
      }
      if Tail(t[0]) {
        TailRunUnique(t, |t|);
      } else {
        TailRunUnique(t, |t| - 1);
      }
    }
  }

  /** The last octet of `t` that is no trail octet announces no more octets than are left, and begins no character. */
  predicate EndsInDefect(t: text) {
    && TailRun(t) < |t|
    && var p := PriorStart(t);
    && 0 < Announced(t[p]) <= TailRun(t) + 1
    && HeadLength(t[p..]) == 0
  }

  /** With a valid marker, the source reads `*end` exactly on text that ends in such a sequence. */
  lemma {:induction false} ReadsEndIff(t: text, replacement: bv32)
    ensures ReadsEnd(t, replacement) <==> IsScalar(replacement) && EndsInDefect(t)
    decreases |t|
  {
    hide IsScalar, HeadLength, Diagnosis, DefectLength, Announced, Tail, TailRun;
    if t == [] {
    } else if !IsScalar(replacement) {
      if HeadLength(t) > 0 {
        ReadsEndIff(t[HeadLength(t)..], replacement);
      }
    } else {
      RepairStep(t, replacement);
      if Diagnosis(t) == NOT_ENOUGH_ROOM {
        NotEnoughRoomIsCutOff(t);
      } else {
        var n := if HeadLength(t) > 0 then HeadLength(t) else DefectLength(t);
        StepsOverNoLead(t);
        ReadsEndIff(t[n..], replacement);
        DefectSuffix(t, n);
      }
    }
  }

  /** Whether text ends in a defect is decided by what follows a round of the scan, or by a round that takes it all. */
  lemma DefectSuffix(t: text, n: nat)
    requires t != [] && Diagnosis(t) != NOT_ENOUGH_ROOM
    requires n == if HeadLength(t) > 0 then HeadLength(t) else DefectLength(t)
    requires forall i :: 1 <= i < n ==> Tail(t[i])
    ensures EndsInDefect(t) <==>
      (HeadLength(t) == 0 && Diagnosis(t) != INVALID_LEAD && n == |t|) || EndsInDefect(t[n..])
  {
    hide Tail, HeadLength, TailRun, Announced, Diagnosis, DefectLength;
    var u := t[n..];
    if TailRun(u) < |u| {
      TailRunUnique(t, TailRun(u));
      assert t[PriorStart(t)..] == u[PriorStart(u)..];
    } else {
      forall i | 1 <= i < |t| ensures Tail(t[i]) {
        if i >= n { assert t[i] == u[i - n]; }
      }
      DefectTakesAll(t);
    }
  }

  /** A text of one octet and trail octets is one defect, unless its lead announces nothing or it begins a character. */
  lemma DefectTakesAll(t: text)
    requires t != [] && Diagnosis(t) != NOT_ENOUGH_ROOM && forall i :: 1 <= i < |t| ==> Tail(t[i])
    ensures EndsInDefect(t) <==> HeadLength(t) == 0 && Diagnosis(t) != INVALID_LEAD
    ensures HeadLength(t) == 0 && Diagnosis(t) != INVALID_LEAD ==> DefectLength(t) == |t|
  {
    hide Tail, HeadLength, TailRun, HeadRun, Announced, Diagnosis;
    StepsOverNoLead(t);
    LeadUnknown(t);
    HeadRunUnique(t[1..], |t| - 1);
    if Tail(t[0]) {
      TrailIsNoLead(t[0]);
      TailRunUnique(t, |t|);
    } else {
      TailRunUnique(t, |t| - 1);
      assert t[0..] == t;
    }
  }

  lemma LeadUnknown(t: text)
    requires t != []
    ensures HeadLength(t) > 0 ==> Announced(t[0]) == HeadLength(t)
    ensures HeadLength(t) == 0 ==> (Diagnosis(t) == INVALID_LEAD <==> Announced(t[0]) == 0)
  {
    hide IsScalar, IsChar, Bits, Announced;
    if HeadLength(t) > 0 {
      HeadIsShaped(t);
    } else {
      TrailsFromMeaning(t, 1, if Announced(t[0]) == 0 then 1 else Announced(t[0]));
    }
  }

  lemma TrailIsNoLead(b: octet)
    requires Tail(b)
    ensures Announced(b) == 0
  {}

  /** Two octets of an overlong form: the smallest text on which the source reads past its end. */
  lemma OverlongReadsEnd(replacement: bv32)
    requires IsScalar(replacement)
    ensures ReadsEnd([0xC0, 0x80], replacement)
  {
    var t := [0xC0, 0x80];
    TailRunUnique(t, 1);
    assert t[0..] == t;
    ReadsEndIff(t, replacement);
  }

  /** The default mark is U+FFFD, and what it writes are the octets EF BF BD. */
  lemma DefaultMark()
    ensures IsScalar(0xfffd) && EncodeChar(0xfffd) == [0xEF, 0xBF, 0xBD]
  {}

  const REPLACEMENT_MARKER: bv32 := 0xfffd

  /** The repair with the default marker fails exactly on text that is cut off, and writes well-formed text. */
  method ReplaceInvalidDefault(s: text, start: nat, end: nat, out: text)
    returns (r: Result<()>, out': text, ghost readEnd: bool)
    requires start <= end <= |s|
    ensures Repair(out', r) == Resumed(out, s[start..end], 0xfffd)
    ensures readEnd <==> EndsInDefect(s[start..end])
    ensures r == if CutOff(s[start..end]) then Throw(NotEnoughRoom) else Ok(())
    ensures Valid(out) ==> Valid(out')
  {
    hide Repaired, CutOff, Valid, EndsInDefect, ReadsEnd;
    ReadsEndIff(s[start..end], REPLACEMENT_MARKER);
    RepairFailsIffCutOff(s[start..end], REPLACEMENT_MARKER);
    RepairIsValid(s[start..end], REPLACEMENT_MARKER);
    if Valid(out) {
      BothValid(out, Repaired(s[start..end], REPLACEMENT_MARKER).written);
    }
    r, out', readEnd := ReplaceInvalid(s, start, end, out, REPLACEMENT_MARKER);
  }

  // ---- an output iterator that holds a position

  /** The repair without its marks: `replace_invalid` drops the iterator `append` returns, so where the iterator holds a
      position, what is written next begins where the mark begins. */
  function Unmarked(t: text, replacement: bv32): Repair {
    if t == [] then Repair([], Ok(()))
    else if HeadLength(t) > 0 then
      var rest := Unmarked(t[HeadLength(t)..], replacement);
      Repair(t[..HeadLength(t)] + rest.written, rest.end)
    else if Diagnosis(t) == NOT_ENOUGH_ROOM then Repair([], Throw(NotEnoughRoom))
    else if !IsScalar(replacement) then Repair([], Throw(InvalidCodePoint(replacement)))
    else Unmarked(t[DefectLength(t)..], replacement)
  }

  /** What such an output holds in the end, when `done` is already written and `t` is still to be repaired. */
  ghost function ResumedAt(done: text, t: text, replacement: bv32): Repair {
    Repair(done + Unmarked(t, replacement).written, Unmarked(t, replacement).end)
  }

  lemma ResumeAtStep(s: text, it: nat, end: nat, done: text, replacement: bv32)
    requires it < end <= |s|
    ensures var t := s[it..end];
      && (Diagnosis(t) == UTF8_OK ==>
            var n := it + HeadLength(t);
            ResumedAt(done, t, replacement) == ResumedAt(done + s[it..n], s[n..end], replacement))
      && (Diagnosis(t) == NOT_ENOUGH_ROOM ==> ResumedAt(done, t, replacement) == Repair(done, Throw(NotEnoughRoom)))
      && (Diagnosis(t) !in {UTF8_OK, NOT_ENOUGH_ROOM} && !IsScalar(replacement) ==>
            ResumedAt(done, t, replacement) == Repair(done, Throw(InvalidCodePoint(replacement))))
      && (Diagnosis(t) !in {UTF8_OK, NOT_ENOUGH_ROOM} && IsScalar(replacement) ==>
            ResumedAt(done, t, replacement) == ResumedAt(done, s[it + DefectLength(t)..end], replacement))
  {
    hide Diagnosis, HeadLength, DefectLength, IsScalar, Unmarked;
    var t := s[it..end];
    UnmarkedStep(t, replacement);
    assert t[HeadLength(t)..] == s[it + HeadLength(t)..end] && t[..HeadLength(t)] == s[it..it + HeadLength(t)];
    assert t[DefectLength(t)..] == s[it + DefectLength(t)..end];
    NothingWritten(done);
    if HeadLength(t) > 0 {
      Assoc(done, t[..HeadLength(t)], Unmarked(t[HeadLength(t)..], replacement).written);
    }
  }

  lemma NothingWritten(done: text)
    ensures done + [] == done
  {}

  /** One round of the repair without marks. */
  lemma UnmarkedStep(t: text, replacement: bv32)
    requires t != []
    ensures Diagnosis(t) == UTF8_OK <==> HeadLength(t) > 0
    ensures Diagnosis(t) == UTF8_OK ==>
      var rest := Unmarked(t[HeadLength(t)..], replacement);
      Unmarked(t, replacement) == Repair(t[..HeadLength(t)] + rest.written, rest.end)
    ensures Diagnosis(t) == NOT_ENOUGH_ROOM ==> Unmarked(t, replacement) == Repair([], Throw(NotEnoughRoom))
    ensures Diagnosis(t) !in {UTF8_OK, NOT_ENOUGH_ROOM} && !IsScalar(replacement) ==>
      Unmarked(t, replacement) == Repair([], Throw(InvalidCodePoint(replacement)))
    ensures Diagnosis(t) !in {UTF8_OK, NOT_ENOUGH_ROOM} && IsScalar(replacement) ==>
      Unmarked(t, replacement) == Unmarked(t[DefectLength(t)..], replacement)
  {
    hide Diagnosis, HeadLength, DefectLength, IsScalar, Repaired, EncodeChar;
    RepairStep(t, replacement);
  }

  lemma ResumeAtEnd(done: text, t: text, replacement: bv32)
    requires t == []
    ensures ResumedAt(done, t, replacement) == Repair(done, Ok(()))
  {}

  /** Writing one octet at a position; at its end the output grows. */
  function PutAt(memory: text, pos: nat, b: octet): (longer: text)
    requires pos <= |memory|
    ensures pos < |longer| && longer[..pos + 1] == memory[..pos] + [b]
  {
    if pos < |memory| then memory[pos := b] else memory + [b]
  }

  /** Copies octets to a position, and gives the position behind them. */
  method CopyAt(s: text, first: nat, last: nat, memory: text, pos: nat) returns (memory': text, pos': nat)
    requires first <= last <= |s| && pos <= |memory|
    ensures pos' == pos + (last - first) <= |memory'|
    ensures memory'[..pos'] == memory[..pos] + s[first..last]
  {
    memory', pos' := memory, pos;
    hide PutAt;
    assert s[first..first] == [];
    NothingWritten(memory[..pos]);
    for it := first to last
      invariant pos' == pos + (it - first) <= |memory'|
      invariant memory'[..pos'] == memory[..pos] + s[first..it]
    {
      memory' := PutAt(memory', pos', s[it]);
      pos' := pos' + 1;
      NextOctet(memory[..pos], s, first, it);
    }
  }

  lemma NextOctet(front: text, s: text, first: nat, it: nat)
    requires first <= it < |s|
    ensures front + s[first..it] + [s[it]] == front + s[first..it + 1]
  {}

  /** `append` to an output that holds a position. */
  method AppendAt(cp: bv32, memory: text, pos: nat) returns (r: Result<()>, memory': text, pos': nat)
    requires pos <= |memory|
    ensures r == if IsScalar(cp) then Ok(()) else Throw(InvalidCodePoint(cp))
    ensures pos' <= |memory'| && memory'[..pos'] == memory[..pos] + if IsScalar(cp) then EncodeChar(cp) else []
  {
    hide IsScalar, EncodeChar;
    var octets;
    r, octets := Append(cp, []);
    memory', pos' := CopyAt(octets, 0, |octets|, memory, pos);
    assert octets[0..|octets|] == octets;
    if r.Ok? {
      assert octets == EncodeChar(cp);
    }
  }

  /** The repair, for an output that holds a position: up to the position it returns there are no marks. */
  method ReplaceInvalidAt(s: text, start: nat, end: nat, memory: text, pos: nat, replacement: bv32)
    returns (r: Result<()>, memory': text, pos': nat)
    requires start <= end <= |s| && pos <= |memory|
    ensures pos' <= |memory'|
    ensures Repair(memory'[..pos'], r) == ResumedAt(memory[..pos], s[start..end], replacement)
  {
    hide *;
    var it := start;
    memory', pos' := memory, pos;
    while it != end
      invariant start <= it <= end && pos' <= |memory'|
      invariant ResumedAt(memory'[..pos'], s[it..end], replacement)
             == ResumedAt(memory[..pos], s[start..end], replacement)
      decreases end - it
    {
      ResumeAtStep(s, it, end, memory'[..pos'], replacement);
      RepairStep(s[it..end], replacement);
      var sequenceStart := it;
      var errCode, next, _ := ValidateNext(s, it, end);
      it := next;
      if errCode == UTF8_OK {
        memory', pos' := CopyAt(s, sequenceStart, it, memory', pos');
      } else if errCode == NOT_ENOUGH_ROOM {
        return Throw(NotEnoughRoom), memory', pos';
      } else {
        // the position behind the mark is dropped
        ghost var done := memory'[..pos'];
        var appended, marked, behind := AppendAt(replacement, memory', pos');
        if appended.Throw? {
          return appended, memory', pos';
        }
        KeepsFront(marked, behind, memory', pos');
        memory' := marked;
        assert memory'[..pos'] == done;
        it := it + 1;
        DefectSkipped(s, sequenceStart, end);
        if errCode != INVALID_LEAD {
          ghost var readEnd;
          it, readEnd := SkipTrails(s, it, end);
        }
      }
    }
    ResumeAtEnd(memory'[..pos'], s[it..end], replacement);
    r := Ok(());
  }

  lemma KeepsFront(longer: text, behind: nat, memory: text, pos: nat)
    requires pos <= |memory| && behind <= |longer| && memory[..pos] <= longer[..behind]
    ensures pos <= |longer| && longer[..pos] == memory[..pos]
  {
    assert longer[..behind][..pos] == longer[..pos];
  }

  /** Both repairs end alike, and the one without marks is the shorter one, unless there was nothing to repair. */
  lemma {:induction false} UnmarkedIsShorter(t: text, replacement: bv32)
    ensures Unmarked(t, replacement).end == Repaired(t, replacement).end
    ensures |Unmarked(t, replacement).written| <= |Repaired(t, replacement).written|
    ensures Repaired(t, replacement).end.Ok? && !Valid(t) ==>
      |Unmarked(t, replacement).written| < |Repaired(t, replacement).written|
    ensures Valid(Unmarked(t, replacement).written)
    decreases |t|
  {
    hide Diagnosis, IsScalar, IsChar, EncodeChar, DefectLength, HeadLength, CodePoint, HeadPoint, Valid, Decode;
    EmptyDecodes();
    if t != [] {
      RepairStep(t, replacement);
      ValidFromHead(t);
      if HeadLength(t) > 0 {
        var rest := t[HeadLength(t)..];
        UnmarkedIsShorter(rest, replacement);
        CharAlone(t);
        BothValid(t[..HeadLength(t)], Unmarked(rest, replacement).written);
      } else if IsScalar(replacement) && Diagnosis(t) != NOT_ENOUGH_ROOM {
        UnmarkedIsShorter(t[DefectLength(t)..], replacement);
        CharNonEmpty(EncodeChar(replacement));
      }
    }
  }

  /** When the repair completes, an output that holds a position holds, up to the position that is returned, what an
      appending one holds exactly when there was nothing to repair. */
  lemma UnmarkedIsRepairedIff(t: text, replacement: bv32)
    requires Repaired(t, replacement).end.Ok?
    ensures Unmarked(t, replacement) == Repaired(t, replacement) <==> Valid(t)
  {
    hide Unmarked, Repaired, Valid;
    UnmarkedIsShorter(t, replacement);
    if Valid(t) {
      RepairOfValid(t, replacement);
      UnmarkedOfValid(t, replacement);
    }
  }

  lemma NothingUnmarked(replacement: bv32)
    ensures Unmarked([], replacement) == Repair([], Ok(()))
  {}

  lemma {:induction false} UnmarkedOfValid(t: text, replacement: bv32)
    requires Valid(t)
    ensures Unmarked(t, replacement) == Repair(t, Ok(()))
    decreases |t|
  {
    hide Diagnosis, IsScalar, IsChar, HeadLength, Valid, Unmarked;
    if t == [] {
      NothingUnmarked(replacement);
    } else {
      ValidBegins(t);
      UnmarkedStep(t, replacement);
      UnmarkedOfValid(t[HeadLength(t)..], replacement);
      assert t == t[..HeadLength(t)] + t[HeadLength(t)..];
    }
  }

  /** The octets FF 41: the mark for the first is overwritten by the second. */
  lemma MarkOverwritten(replacement: bv32)
    requires IsScalar(replacement)
    ensures Unmarked([0xFF, 0x41], replacement) == Repair([0x41], Ok(()))
  {
    hide IsScalar;
    var t := [0xFF, 0x41];
    assert Diagnosis(t) == INVALID_LEAD;
    assert t[1..] == [0x41];
    CharDecodes([0x41]);
    UnmarkedOfValid([0x41], replacement);
  }

  // ---- what one defect gives

  /** An octet that can begin nothing gives a mark of its own, or none at a position. */
  lemma RepairOfStray(b: octet, rest: text, replacement: bv32)
    requires IsScalar(replacement) && (0x80 <= b < 0xC0 || 0xF8 <= b)
    ensures Repaired([b] + rest, replacement) ==
      Repair(EncodeChar(replacement) + Repaired(rest, replacement).written, Repaired(rest, replacement).end)
    ensures Unmarked([b] + rest, replacement) == Unmarked(rest, replacement)
  {
    hide IsScalar, EncodeChar, Diagnosis, HeadLength, Repaired, Unmarked, IsChar, Bits, Tail;
    var t := [b] + rest;
    DiagnosisMeaning(t);
    RepairStep(t, replacement);
    UnmarkedStep(t, replacement);
    assert t[1..] == rest;
  }

  /** A lead octet with all the trail octets behind it, as far as they go, gives one mark when it begins no character
      and is not cut off by the end; at a position it gives none. */
  lemma RepairOfBroken(c: text, rest: text, replacement: bv32)
    requires IsScalar(replacement)
    requires c != [] && 0xC0 <= c[0] < 0xF8 && forall i :: 1 <= i < |c| ==> Tail(c[i])
    requires rest != [] ==> !Tail(rest[0])
    requires forall k :: 0 < k <= |c| ==> !IsChar(c[..k])
    requires rest == [] ==> |c| >= if c[0] < 0xE0 then 2 else if c[0] < 0xF0 then 3 else 4
    ensures Repaired(c + rest, replacement) ==
      Repair(EncodeChar(replacement) + Repaired(rest, replacement).written, Repaired(rest, replacement).end)
    ensures Unmarked(c + rest, replacement) == Unmarked(rest, replacement)
  {
    hide IsScalar, EncodeChar, Diagnosis, HeadLength, Repaired, Unmarked, IsChar, Bits, Tail, HeadRun;
    var t := c + rest;
    DiagnosisMeaning(t);
    RepairStep(t, replacement);
    UnmarkedStep(t, replacement);
    BeginsNoChar(c, rest);
    HeadMeaning(t);
    assert forall i :: 0 <= i < |c| ==> t[i] == c[i];
    assert rest != [] ==> t[|c|] == rest[0];
    HeadRunUnique(t[1..], |c| - 1);
    assert t[|c|..] == rest;
  }

  /** A character would have to end within the trail octets. */
  lemma BeginsNoChar(c: text, rest: text)
    requires c != [] && (rest != [] ==> !Tail(rest[0]))
    requires forall k :: 0 < k <= |c| ==> !IsChar(c[..k])
    ensures forall k :: 0 < k <= |c + rest| ==> !IsChar((c + rest)[..k])
  {
    hide IsChar, Tail;
    var t := c + rest;
    forall k | 0 < k <= |t| ensures !IsChar(t[..k]) {
      if k <= |c| {
        assert t[..k] == c[..k];
      } else {
        assert t[..k][|c|] == rest[0];
        if IsChar(t[..k]) {
          CharOctets(t[..k]);
        }
      }
    }
  }
}
