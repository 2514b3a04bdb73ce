/** What splitting and joining promise together. */
module StringLaws {
  import opened Octets
  import opened StringUtils

  /** No proper end of `del` is also a beginning of it: two occurrences never overlap. */
  ghost predicate NoOverlap<T>(del: seq<T>) {
    forall k :: 0 < k < |del| ==> del[..k] != del[|del| - k..]
  }

  /** A word that survives splitting: non-empty and free of the delimiter. */
  predicate Clean<T(==)>(w: seq<T>, del: seq<T>)
    requires del != []
  {
    w != [] && !Occurs(w, del)
  }

  predicate AllClean<T(==)>(words: seq<seq<T>>, del: seq<T>)
    requires del != []
  {
    forall i :: 0 <= i < |words| ==> Clean(words[i], del)
  }

  /** An occurrence inside the front part is an occurrence in the whole, and the other way round. */
  lemma MatchInFront<T>(x: seq<T>, y: seq<T>, pat: seq<T>, j: nat)
    requires j + |pat| <= |x|
    ensures MatchAt(x + y, pat, j) <==> MatchAt(x, pat, j)
  {
    assert (x + y)[j..] == x[j..] + y;
    assert x[j..][..|pat|] == (x[j..] + y)[..|pat|];
  }

  /** An occurrence that starts in front of a delimiter and reaches into it makes the delimiter overlap itself. */
  lemma MatchAcross<T>(x: seq<T>, del: seq<T>, y: seq<T>, j: nat)
    requires j < |x| < j + |del| && MatchAt(x + del + y, del, j)
    ensures var k := j + |del| - |x|; del[..k] == del[|del| - k..]
  {
    var s := x + del + y;
    var k := j + |del| - |x|;
    assert s[j..j + |del|] == s[j..][..|del|] == del;
    assert del[|del| - k..] == s[|x|..|x| + k];
    assert s[|x|..|x| + k] == del[..k];
  }

  /** The first delimiter of `x + del + y` is the first one of `x`, or the one behind `x`. */
  lemma FirstDelimiter<T>(x: seq<T>, del: seq<T>, y: seq<T>)
    requires del != [] && NoOverlap(del)
    ensures Find(x + del + y, del, 0) == if Occurs(x, del) then Find(x, del, 0) else Some(|x|)
  {
    var s := x + del + y;
    assert s == x + (del + y);
    var i := if Occurs(x, del) then Find(x, del, 0).value else |x|;
    forall j: nat | j < i
      ensures !MatchAt(s, del, j)
    {
      if j + |del| <= |x| {
        MatchInFront(x, del + y, del, j);
      } else if MatchAt(s, del, j) {
        MatchAcross(x, del, y, j);
      }
    }
    if Occurs(x, del) {
      MatchInFront(x, del + y, del, i);
    } else {
      assert s[|x|..] == del + y;
    }
    FindIs(s, del, 0, i);
  }

  /** Splitting distributes over concatenation at a delimiter. */
  lemma {:induction false} SplitAtDelimiter<T>(x: seq<T>, del: seq<T>, y: seq<T>)
    requires del != [] && NoOverlap(del)
    ensures Fields(x + del + y, del) == Fields(x, del) + Fields(y, del)
    decreases |x|
  {
    hide Find, Fields, MatchAt, NoOverlap;
    var s := x + del + y;
    FirstDelimiter(x, del, y);
    FieldsUnfold(x, del);
    FieldsUnfold(s, del);
    if Occurs(x, del) {
      var i := Find(x, del, 0).value;
      var rest := x[i + |del|..];
      assert s[..i] == x[..i] && s[i + |del|..] == rest + del + y;
      SplitAtDelimiter(rest, del, y);
      Assoc(NonEmpty(x[..i]), Fields(rest, del), Fields(y, del));
    } else {
      assert s[..|x|] == x && s[|x| + |del|..] == y;
    }
  }

  /** The fields of any text are clean words. */
  lemma {:induction false} FieldsAreClean<T>(s: seq<T>, del: seq<T>)
    requires del != []
    ensures AllClean(Fields(s, del), del)
    decreases |s|
  {
    hide Find, Fields, MatchAt;
    FieldsUnfold(s, del);
    if Occurs(s, del) {
      var i := Find(s, del, 0).value;
      FieldsAreClean(s[i + |del|..], del);
      NoneBefore(s, del, i);
    }
  }

  lemma NoneBefore<T>(s: seq<T>, del: seq<T>, i: nat)
    requires del != [] && i <= |s| && Find(s, del, 0) == Some(i)
    ensures !Occurs(s[..i], del)
  {
    if Occurs(s[..i], del) {
      var j := Find(s[..i], del, 0).value;
      assert s == s[..i] + s[i..];
      MatchInFront(s[..i], s[i..], del, j);
    }
  }

  lemma FieldsOfClean<T>(w: seq<T>, del: seq<T>)
    requires del != [] && Clean(w, del)
    ensures Fields(w, del) == [w]
  {}

  lemma FieldsOfEmpty<T>(del: seq<T>)
    requires del != []
    ensures Fields([], del) == []
  {}

  /** Words that splitting can give, for a delimiter of any shape: they are clean, and behind none of them but the last
      does the delimiter begin too early. */
  predicate Splittable<T(==)>(words: seq<seq<T>>, del: seq<T>)
    requires del != []
  {
    && AllClean(words, del)
    && forall i :: 0 <= i < |words| - 1 ==> Find(words[i] + del, del, 0) == Some(|words[i]|)
  }

  /** Whether a delimiter is the first one does not depend on what stands behind it. */
  lemma FirstWhateverFollows<T>(x: seq<T>, del: seq<T>, y: seq<T>)
    requires del != []
    ensures Find(x + del + y, del, 0) == Some(|x|) <==> Find(x + del, del, 0) == Some(|x|)
  {
    hide Find, MatchAt;
    forall j: nat | j <= |x| ensures MatchAt(x + del + y, del, j) <==> MatchAt(x + del, del, j) {
      MatchInFront(x + del, y, del, j);
    }
    DelimiterStands(x, del);
    if Find(x + del, del, 0) == Some(|x|) {
      FindIs(x + del + y, del, 0, |x|);
    }
    if Find(x + del + y, del, 0) == Some(|x|) {
      FindIs(x + del, del, 0, |x|);
    }
  }

  lemma DelimiterStands<T>(x: seq<T>, del: seq<T>)
    ensures MatchAt(x + del, del, |x|)
  {
    assert (x + del)[|x|..] == del;
  }

  /** What splitting gives are such words. */
  lemma {:induction false} FieldsSplittable<T>(s: seq<T>, del: seq<T>)
    requires del != []
    ensures Splittable(Fields(s, del), del)
    decreases |s|
  {
    hide Find, Fields, MatchAt;
    FieldsAreClean(s, del);
    FieldsUnfold(s, del);
    if Occurs(s, del) {
      var i := Find(s, del, 0).value;
      var x, rest := s[..i], s[i + |del|..];
      FieldsSplittable(rest, del);
      AtFound(s, del, i);
      FirstWhateverFollows(x, del, rest);
      if x == [] {
        assert NonEmpty(x) + Fields(rest, del) == Fields(rest, del);
      } else {
        assert Fields(s, del) == [x] + Fields(rest, del);
      }
    }
  }

  lemma AtFound<T>(s: seq<T>, del: seq<T>, i: nat)
    requires del != [] && Find(s, del, 0) == Some(i)
    ensures i + |del| <= |s| && s == s[..i] + del + s[i + |del|..]
  {
    hide Find;
    var rest := s[i..];
    assert rest == rest[..|del|] + rest[|del|..];
    assert rest[..|del|] == del && rest[|del|..] == s[i + |del|..];
    assert s == s[..i] + rest;
    Assoc(s[..i], del, s[i + |del|..]);
  }

  /** Splitting gives back joined words exactly when splitting can give them at all. */
  lemma {:induction false} SplitOfJoinIff<T>(words: seq<seq<T>>, del: seq<T>)
    requires del != []
    ensures Fields(Joined(words, del), del) == words <==> Splittable(words, del)
    decreases |words|
  {
    hide Fields, Find, Clean;
    FieldsSplittable(Joined(words, del), del);
    if Splittable(words, del) {
      if |words| == 0 {
        FieldsOfEmpty(del);
      } else if |words| == 1 {
        FieldsOfClean(words[0], del);
      } else {
        var rest := Joined(words[1..], del);
        assert Splittable(words[1..], del);
        SplitOfJoinIff(words[1..], del);
        FirstWhateverFollows(words[0], del, rest);
        FieldsUnfold(words[0] + del + rest, del);
        FirstField(words[0], del, rest);
      }
    }
  }

  lemma FirstField<T>(x: seq<T>, del: seq<T>, rest: seq<T>)
    requires del != [] && Clean(x, del) && Find(x + del + rest, del, 0) == Some(|x|)
    ensures Fields(x + del + rest, del) == [x] + Fields(rest, del)
  {
    hide Find, Fields;
    var s := x + del + rest;
    FieldsUnfold(s, del);
    assert s[..|x|] == x && s[|x| + |del|..] == rest;
  }

  /** Clean words are such words when the delimiter does not overlap itself. */
  lemma CleanIsSplittable<T>(words: seq<seq<T>>, del: seq<T>)
    requires del != [] && NoOverlap(del)
    ensures Splittable(words, del) <==> AllClean(words, del)
  {
    hide Find, NoOverlap;
    if AllClean(words, del) {
      forall i | 0 <= i < |words| - 1 ensures Find(words[i] + del, del, 0) == Some(|words[i]|) {
        FirstDelimiter(words[i], del, []);
        assert words[i] + del + [] == words[i] + del;
        assert Clean(words[i], del);
      }
    }
  }

  /** For a delimiter that does not overlap itself, splitting undoes joining exactly on clean words. */
  lemma SplitOfJoin<T>(words: seq<seq<T>>, del: seq<T>)
    requires del != [] && NoOverlap(del)
    ensures Fields(Joined(words, del), del) == words <==> AllClean(words, del)
  {
    SplitOfJoinIff(words, del);
    CleanIsSplittable(words, del);
  }

  /** The words that are not empty. */
  function Kept<T(==)>(words: seq<seq<T>>): seq<seq<T>> {
    if words == [] then [] else NonEmpty(words[0]) + Kept(words[1..])
  }

  /** Joined words that may be empty come back without the empty ones. */
  lemma {:induction false} SplitDropsEmpty<T>(words: seq<seq<T>>, del: seq<T>)
    requires del != [] && NoOverlap(del) && forall i :: 0 <= i < |words| ==> !Occurs(words[i], del)
    ensures Fields(Joined(words, del), del) == Kept(words)
    decreases |words|
  {
    hide Fields, Find, NoOverlap;
    if |words| == 0 {
      FieldsOfEmpty(del);
    } else {
      FieldsUnfold(words[0], del);
      if |words| == 1 {
        assert Kept(words[1..]) == [];
      } else {
        SplitAtDelimiter(words[0], del, Joined(words[1..], del));
        SplitDropsEmpty(words[1..], del);
      }
    }
  }

  /** The total length of the parts. */
  function Total<T>(parts: seq<seq<T>>): nat {
    if parts == [] then 0 else |parts[0]| + Total(parts[1..])
  }

  lemma {:induction false} TotalAppend<T>(x: seq<seq<T>>, y: seq<seq<T>>)
    ensures Total(x + y) == Total(x) + Total(y)
  {
    if x == [] {
      assert x + y == y;
    } else {
      assert (x + y)[1..] == x[1..] + y;
      TotalAppend(x[1..], y);
    }
  }

  /** Splitting into more than one field takes a whole delimiter out. */
  lemma {:induction false} FieldsPayDelimiter<T>(s: seq<T>, del: seq<T>)
    requires del != []
    ensures Total(Fields(s, del)) <= |s|
    ensures |Fields(s, del)| >= 2 ==> Total(Fields(s, del)) + |del| <= |s|
    decreases |s|
  {
    hide Find, MatchAt, Fields;
    FieldsUnfold(s, del);
    if Occurs(s, del) {
      var i := Find(s, del, 0).value;
      var rest := s[i + |del|..];
      FieldsPayDelimiter(rest, del);
      TotalAppend(NonEmpty(s[..i]), Fields(rest, del));
    }
  }

  /** With a delimiter that overlaps itself there are clean words splitting does not give back. */
  lemma OverlapBreaksSplit<T>(del: seq<T>) returns (words: seq<seq<T>>)
    requires !NoOverlap(del)
    ensures AllClean(words, del) && Fields(Joined(words, del), del) != words
  {
    hide Fields;
    var k :| 0 < k < |del| && del[..k] == del[|del| - k..];
    var w, y := del[..|del| - k], [del[0]];
    words := [w, y];
    assert words[1..] == [y];
    var s := w + del + y;
    assert Joined(words, del) == s;
    assert s[..|del|] == w + del[..k] == del;
    FindIs(s, del, 0, 0);
    FieldsUnfold(s, del);
    assert s[..0] == [];
    FieldsPayDelimiter(s[|del|..], del);
    TotalOfTwo(w, y);
  }

  lemma TotalOfTwo<T>(a: seq<T>, b: seq<T>)
    ensures Total([b]) == |b| && Total([a, b]) == |a| + |b|
  {
    assert [b][1..] == [] && [a, b][1..] == [b];
    assert Total([b]) == |b| + Total<T>([]);
    assert Total([a, b]) == |a| + Total([b]);
  }

  /** Joining the fields again changes nothing the next splitting could see, for a delimiter of any shape: normalising
      twice is normalising once. */
  lemma JoinOfSplitIdempotent<T>(s: seq<T>, del: seq<T>)
    requires del != []
    ensures Fields(Joined(Fields(s, del), del), del) == Fields(s, del)
    ensures var once := Joined(Fields(s, del), del); Joined(Fields(once, del), del) == once
  {
    FieldsSplittable(s, del);
    SplitOfJoinIff(Fields(s, del), del);
  }

  /** A delimiter of one element never overlaps itself. */
  lemma SingleNoOverlap<T>(d: T)
    ensures NoOverlap([d])
  {}

  lemma MemberOccurs<T>(t: seq<T>, b: T)
    ensures b in t ==> Occurs(t, [b])
  {
    if i :| 0 <= i < |t| && t[i] == b {
      assert t[i..][0] == b;
      assert MatchAt(t, [b], i);
    }
  }

  /** Splitting brings no new elements. */
  lemma {:induction false} FieldsFree<T>(s: seq<T>, del: seq<T>, b: T)
    requires del != [] && b !in s
    ensures forall i :: 0 <= i < |Fields(s, del)| ==> b !in Fields(s, del)[i]
    decreases |s|
  {
    hide Find, Fields;
    FieldsUnfold(s, del);
    if Occurs(s, del) {
      FieldsFree(s[Find(s, del, 0).value + |del|..], del, b);
    }
  }

  lemma OccursIsMember<T>(t: seq<T>, b: T)
    requires Occurs(t, [b])
    ensures b in t
  {
    var i := Find(t, [b], 0).value;
    assert t[i..][0] == b;
  }
}
