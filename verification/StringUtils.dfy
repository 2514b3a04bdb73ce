/** src/utils.cpp: splitting, joining and replacing. Everything here works on sequences of any kind of element. */
module StringUtils {
  import opened Octets

  /** `pat` stands in `s` at position `i`. */
  predicate MatchAt<T(==)>(s: seq<T>, pat: seq<T>, i: nat) {
    i <= |s| && pat <= s[i..]
  }

  /** `std::string::find`, for a non-empty pattern. */
  function Find<T(==)>(s: seq<T>, pat: seq<T>, from: nat): (r: Option<nat>)
    requires pat != []
    ensures r.Some? ==> from <= r.value && MatchAt(s, pat, r.value)
    ensures r.Some? ==> forall j :: from <= j < r.value ==> !MatchAt(s, pat, j)
    ensures r.None? ==> forall j :: from <= j ==> !MatchAt(s, pat, j)
    decreases |s| - from
  {
    if from + |pat| > |s| then None
    else if MatchAt(s, pat, from) then Some(from)
    else Find(s, pat, from + 1)
  }

  predicate Occurs<T(==)>(s: seq<T>, pat: seq<T>)
    requires pat != []
  {
    Find(s, pat, 0).Some?
  }

  lemma FindIs<T>(s: seq<T>, pat: seq<T>, from: nat, i: nat)
    requires pat != [] && from <= i && MatchAt(s, pat, i)
    requires forall j :: from <= j < i ==> !MatchAt(s, pat, j)
    ensures Find(s, pat, from) == Some(i)
  {}

  lemma FindIsNone<T>(s: seq<T>, pat: seq<T>, from: nat)
    requires pat != []
    requires forall j :: from <= j ==> !MatchAt(s, pat, j)
    ensures Find(s, pat, from) == None
  {}

  /** Searching from a position is searching what begins there. */
  lemma FindShift<T>(s: seq<T>, pat: seq<T>, k: nat)
    requires pat != [] && k <= |s|
    ensures Find(s[k..], pat, 0).None? ==> Find(s, pat, k) == None
    ensures Find(s[k..], pat, 0).Some? ==> Find(s, pat, k) == Some(k + Find(s[k..], pat, 0).value)
  {
    hide Find;
    forall j: nat
      ensures MatchAt(s[k..], pat, j) <==> MatchAt(s, pat, k + j)
    {
      if k + j <= |s| {
        assert s[k..][j..] == s[k + j..];
      }
    }
    match Find(s[k..], pat, 0)
    case None =>
      forall j: nat | k <= j ensures !MatchAt(s, pat, j) {
        assert !MatchAt(s[k..], pat, j - k);
      }
      FindIsNone(s, pat, k);
    case Some(i) =>
      forall j: nat | k <= j < k + i ensures !MatchAt(s, pat, j) {
        assert !MatchAt(s[k..], pat, j - k);
      }
      FindIs(s, pat, k, k + i);
  }

  // ---- Split

  function NonEmpty<T(==)>(s: seq<T>): seq<seq<T>> {
    if s == [] then [] else [s]
  }

  /** The non-empty stretches of `s` between delimiters found from the left. */
  function Fields<T(==)>(s: seq<T>, del: seq<T>): seq<seq<T>>
    requires del != []
    decreases |s|
  {
    match Find(s, del, 0)
    case None => NonEmpty(s)
    case Some(i) => NonEmpty(s[..i]) + Fields(s[i + |del|..], del)
  }

  lemma FieldsUnfold<T>(s: seq<T>, del: seq<T>)
    requires del != []
    ensures Find(s, del, 0).None? ==> Fields(s, del) == NonEmpty(s)
    ensures Find(s, del, 0).Some? ==>
      var i := Find(s, del, 0).value;
      i + |del| <= |s| && Fields(s, del) == NonEmpty(s[..i]) + Fields(s[i + |del|..], del)
  {}

  lemma SliceOfRest<T>(s: seq<T>, begin: nat, i: nat, j: nat)
    requires begin <= i <= |s| && begin <= j <= |s|
    ensures s[begin..][..i - begin] == s[begin..i] && s[begin..][j - begin..] == s[j..]
  {}

  /** One field, from any position of the line. */
  lemma FieldsStep<T>(line: seq<T>, begin: nat, del: seq<T>)
    requires del != [] && begin <= |line|
    ensures Find(line, del, begin).None? ==> Fields(line[begin..], del) == NonEmpty(line[begin..])
    ensures Find(line, del, begin).Some? ==>
      var p := Find(line, del, begin).value;
      && begin <= p && p + |del| <= |line|
      && Fields(line[begin..], del) == NonEmpty(line[begin..p]) + Fields(line[p + |del|..], del)
  {
    hide *;
    FindShift(line, del, begin);
    FieldsUnfold(line[begin..], del);
    if Find(line, del, begin).Some? {
      var p := Find(line, del, begin).value;
      assert p == begin + Find(line[begin..], del, 0).value;
      SliceOfRest(line, begin, p, p + |del|);
    }
  }

  lemma PushNonEmpty<T>(pieces: seq<seq<T>>, token: seq<T>)
    ensures pieces + NonEmpty(token) == if |token| > 0 then pieces + [token] else pieces
  {}

  method Split<T(==)>(line: seq<T>, pieces: seq<seq<T>>, del: seq<T>) returns (pieces': seq<seq<T>>)
    requires del != []
    ensures pieces' == pieces + Fields(line, del)
  {
    hide *;
    pieces' := pieces;
    var begin := 0;
    var token: seq<T> := [];
    var pos := Find(line, del, begin);
    assert line[0..] == line;
    FieldsStep(line, begin, del);
    while pos.Some?
      invariant begin <= |line| && pos == Find(line, del, begin)
      invariant pos.Some? ==> begin <= pos.value && pos.value + |del| <= |line|
      invariant pos.Some? ==>
        Fields(line[begin..], del) == NonEmpty(line[begin..pos.value]) + Fields(line[pos.value + |del|..], del)
      invariant pos.None? ==> Fields(line[begin..], del) == NonEmpty(line[begin..])
      invariant pieces' + Fields(line[begin..], del) == pieces + Fields(line, del)
      decreases |line| - begin
    {
      Assoc(pieces', NonEmpty(line[begin..pos.value]), Fields(line[pos.value + |del|..], del));
      PushNonEmpty(pieces', line[begin..pos.value]);
      if pos.value > begin {
        token := line[begin..pos.value];
        if |token| > 0 {
          pieces' := pieces' + [token];
        }
      }
      begin := pos.value + |del|;
      pos := Find(line, del, begin);
      FieldsStep(line, begin, del);
    }
    // past the last delimiter the position is `npos`, beyond every `begin`
    PushNonEmpty(pieces', line[begin..]);
    token := line[begin..];
    if |token| > 0 {
      pieces' := pieces' + [token];
    }
  }

  // ---- Join

  function Joined<T>(words: seq<seq<T>>, del: seq<T>): seq<T> {
    if words == [] then []
    else if |words| == 1 then words[0]
    else words[0] + del + Joined(words[1..], del)
  }

  lemma {:induction false} JoinedLast<T>(words: seq<seq<T>>, w: seq<T>, del: seq<T>)
    requires words != []
    ensures Joined(words + [w], del) == Joined(words, del) + del + w
  {
    assert (words + [w])[1..] == words[1..] + [w];
    if |words| > 1 {
      JoinedLast(words[1..], w, del);
    }
  }

  method Join<T>(words: seq<seq<T>>, del: seq<T>) returns (ss: seq<T>)
    ensures ss == Joined(words, del)
  {
    ss := [];
    if |words| == 0 {
      return;
    }
    ss := ss + words[0];
    for i := 1 to |words|
      invariant ss == Joined(words[..i], del)
    {
      assert words[..i + 1] == words[..i] + [words[i]];
      JoinedLast(words[..i], words[i], del);
      ss := ss + del + words[i];
    }
    assert words[..|words|] == words;
  }

  // ---- FindAndReplace

  /** Reading from the left, every occurrence of `from` becomes `to`, and everything else stays. */
  function ReplaceAll<T(==)>(s: seq<T>, from: seq<T>, to: seq<T>): seq<T>
    requires from != []
    decreases |s|
  {
    if s == [] then []
    else if from <= s then to + ReplaceAll(s[|from|..], from, to)
    else [s[0]] + ReplaceAll(s[1..], from, to)
  }

  lemma ReplaceAllUnfold<T>(s: seq<T>, from: seq<T>, to: seq<T>)
    requires from != []
    ensures s == [] ==> Find(s, from, 0) == None && ReplaceAll(s, from, to) == []
    ensures s != [] && from <= s ==>
      Find(s, from, 0) == Some(0) && ReplaceAll(s, from, to) == to + ReplaceAll(s[|from|..], from, to)
    ensures s != [] && !(from <= s) ==>
      Find(s, from, 0) == Find(s, from, 1) && ReplaceAll(s, from, to) == [s[0]] + ReplaceAll(s[1..], from, to)
  {
    assert s[0..] == s;
  }

  /** Replacing goes on behind the first occurrence. */
  lemma {:induction false} ReplaceAllStep<T>(s: seq<T>, from: seq<T>, to: seq<T>)
    requires from != []
    ensures Find(s, from, 0).None? ==> ReplaceAll(s, from, to) == s
    ensures Find(s, from, 0).Some? ==>
      var i := Find(s, from, 0).value;
      i + |from| <= |s| && ReplaceAll(s, from, to) == s[..i] + to + ReplaceAll(s[i + |from|..], from, to)
    decreases |s|
  {
    hide *;
    ReplaceAllUnfold(s, from, to);
    if s == [] {
    } else if from <= s {
      assert s[..0] + to == to;
    } else {
      var t := s[1..];
      ReplaceAllStep(t, from, to);
      FindShift(s, from, 1);
      if Find(t, from, 0).Some? {
        var i := Find(t, from, 0).value;
        SliceBehindHead(s, i, i + |from|);
        Assoc3([s[0]], t[..i], to, ReplaceAll(t[i + |from|..], from, to));
      }
    }
  }

  lemma SliceBehindHead<T>(s: seq<T>, i: nat, j: nat)
    requires 1 + i <= |s| && 1 + j <= |s|
    ensures s[..i + 1] == [s[0]] + s[1..][..i] && s[1..][j..] == s[j + 1..]
  {}

  /** The same step, inside a text of which a front part is done. */
  lemma ReplaceStep<T>(text: seq<T>, start: nat, from: seq<T>, to: seq<T>)
    requires from != [] && start <= |text|
    ensures Find(text, from, start).None? ==> text[..start] + ReplaceAll(text[start..], from, to) == text
    ensures Find(text, from, start).Some? ==>
      var i := Find(text, from, start).value;
      && start <= i && i + |from| <= |text|
      && text[..start] + ReplaceAll(text[start..], from, to)
         == text[..i] + to + ReplaceAll(text[i + |from|..], from, to)
  {
    hide Find, ReplaceAll;
    var rest := text[start..];
    FindShift(text, from, start);
    ReplaceAllStep(rest, from, to);
    if Find(text, from, start).Some? {
      var i := Find(text, from, start).value;
      assert rest[i - start + |from|..] == text[i + |from|..];
      assert text[..i] == text[..start] + rest[..i - start];
      Assoc(text[..start], rest[..i - start] + to, ReplaceAll(text[i + |from|..], from, to));
      Assoc(text[..start], rest[..i - start], to);
    }
  }

  method FindAndReplace<T(==)>(text: seq<T>, from: seq<T>, to: seq<T>) returns (text': seq<T>)
    requires from != []
    ensures text' == ReplaceAll(text, from, to)
  {
    hide *;
    text' := text;
    var startPos := 0;
    var found := Find(text', from, startPos);
    assert text'[..0] == [] && text'[0..] == text';
    while found.Some?
      invariant startPos <= |text'| && found == Find(text', from, startPos)
      invariant text'[..startPos] + ReplaceAll(text'[startPos..], from, to) == ReplaceAll(text, from, to)
      decreases |text'| - startPos
    {
      ReplaceStep(text', startPos, from, to);
      startPos := found.value;
      ghost var done, rest := text'[..startPos] + to, text'[startPos + |from|..];
      text' := text'[..startPos] + to + text'[startPos + |from|..];
      startPos := startPos + |to|;
      assert text'[..startPos] == done && text'[startPos..] == rest;
      found := Find(text', from, startPos);
    }
    ReplaceStep(text', startPos, from, to);
  }
}
