/** src/nmt.cpp: from SentencePiece pieces to a request, and from a response back to text. */
module Detokenize {
  import opened Octets
  import opened Rfc3629
  import opened Utf8Backward
  import opened StringUtils
  import opened StringLaws
  import opened Utf8Replace

  /** The three octets of U+2581, the mark SentencePiece writes for a space. */
  const MARK: text := [0xe2, 0x96, 0x81]

  function DropSpace(t: text): text {
    if t != [] && t[0] == SPACE then t[1..] else t
  }

  /** Delete the spaces, turn the marks into spaces, drop one leading space. */
  function Detokenized(t: text): text {
    DropSpace(ReplaceAll(ReplaceAll(t, [SPACE], []), MARK, [SPACE]))
  }

  // ---- searching again from the front after each replacement

  /** Replacing creates no new occurrence: nothing written is part of the pattern, nor do its two sides meet in one. */
  predicate Inert(from: text, to: text) {
    && from != []
    && (forall i :: 0 <= i < |to| ==> to[i] !in from)
    && (to != [] || |from| == 1)
  }

  lemma {:induction false} PassUnmatched(u: text, rest: text, from: text, to: text)
    requires from != [] && forall j :: 0 <= j < |u| ==> !MatchAt(u + rest, from, j)
    ensures ReplaceAll(u + rest, from, to) == u + ReplaceAll(rest, from, to)
  {
    hide ReplaceAll, MatchAt;
    if u == [] {
      assert u + rest == rest;
    } else {
      var s := u + rest;
      ReplaceAllUnfold(s, from, to);
      NoPrefix(s, from);
      assert s[1..] == u[1..] + rest;
      forall j | 0 <= j < |u| - 1 ensures !MatchAt(s[1..], from, j) {
        MatchBehindHead(s, from, j);
      }
      PassUnmatched(u[1..], rest, from, to);
      assert u == [u[0]] + u[1..];
      Assoc([u[0]], u[1..], ReplaceAll(rest, from, to));
    }
  }

  lemma NoPrefix(s: text, from: text)
    requires !MatchAt(s, from, 0)
    ensures !(from <= s)
  {
    assert s[0..] == s;
  }

  lemma MatchBehindHead(s: text, from: text, j: nat)
    requires s != []
    ensures MatchAt(s[1..], from, j) <==> MatchAt(s, from, j + 1)
  {
    if j + 1 <= |s| {
      assert s[1..][j..] == s[j + 1..];
    }
  }

  lemma NoMatchThrough(s: text, from: text, j: nat, p: nat)
    requires j <= p < j + |from| && p < |s| && s[p] !in from
    ensures !MatchAt(s, from, j)
  {
    assert s[j..][p - j] == s[p] && from[p - j] in from;
  }

  /** After an inert replacement at the first occurrence, nothing up to it matches. */
  lemma NothingNewMatches(t: text, i: nat, from: text, to: text, j: nat)
    requires Inert(from, to) && Find(t, from, 0) == Some(i) && j < i + |to| && i + |from| <= |t|
    ensures !MatchAt(t[..i] + to + t[i + |from|..], from, j)
  {
    hide Find, MatchAt;
    var rest := t[i + |from|..];
    var s := t[..i] + to + rest;
    if j + |from| <= i {
      assert s == t[..i] + (to + rest) && t == t[..i] + t[i..];
      MatchInFront(t[..i], to + rest, from, j);
      MatchInFront(t[..i], t[i..], from, j);
    } else {
      var p := if j < i then i else j;
      assert s[p] == to[p - i];
      NoMatchThrough(s, from, j, p);
    }
  }

  /** One round of the loop leaves the one-pass replacement as it is. */
  lemma RestartStep(t: text, i: nat, from: text, to: text)
    requires Inert(from, to) && Find(t, from, 0) == Some(i)
    ensures i + |from| <= |t|
    ensures ReplaceAll(t[..i] + to + t[i + |from|..], from, to) == ReplaceAll(t, from, to)
  {
    hide ReplaceAll, MatchAt, Inert;
    InertPattern(from, to);
    ReplaceAllStep(t, from, to);
    var u, rest := t[..i] + to, t[i + |from|..];
    forall j | 0 <= j < |u| ensures !MatchAt(u + rest, from, j) {
      NothingNewMatches(t, i, from, to, j);
    }
    PassUnmatched(u, rest, from, to);
  }

  lemma InertPattern(from: text, to: text)
    requires Inert(from, to)
    ensures from != []
  {}

  lemma RestartEnd(t: text, from: text, to: text)
    requires from != [] && Find(t, from, 0).None?
    ensures ReplaceAll(t, from, to) == t
  {
    ReplaceAllStep(t, from, to);
  }

  /** The loop shape of the source: find from the front, replace one, start again. */
  method ReplaceFromFront(input: text, from: text, to: text) returns (t: text)
    requires Inert(from, to) && |to| < |from|
    ensures t == ReplaceAll(input, from, to)
  {
    hide *;
    t := input;
    while Find(t, from, 0).Some?
      invariant ReplaceAll(t, from, to) == ReplaceAll(input, from, to)
      decreases |t|
    {
      var i := Find(t, from, 0).value;
      RestartStep(t, i, from, to);
      t := t[..i] + to + t[i + |from|..];
    }
    RestartEnd(t, from, to);
  }

  lemma SpacesAreInert()
    ensures Inert([SPACE], []) && Inert(MARK, [SPACE])
  {}

  method SpmDetokenizeStr(input: text) returns (toReturn: text)
    ensures toReturn == Detokenized(input)
  {
    SpacesAreInert();
    toReturn := ReplaceFromFront(input, [SPACE], []);
    toReturn := ReplaceFromFront(toReturn, MARK, [SPACE]);
    // on an empty string the source reads the terminating NUL
    if toReturn != [] && toReturn[0] == SPACE {
      toReturn := toReturn[1..];
    }
  }

  // ---- on code points

  /** Without its spaces, and with a space for each mark. */
  function Plain(c: seq<bv32>): seq<bv32> {
    if c == [] then []
    else if c[0] == 0x20 then Plain(c[1..])
    else if c[0] == 0x2581 then [0x20] + Plain(c[1..])
    else [c[0]] + Plain(c[1..])
  }

  function DropSpacePoint(c: seq<bv32>): seq<bv32> {
    if c != [] && c[0] == 0x20 then c[1..] else c
  }

  lemma SinglePrefix(s: seq<bv32>, x: bv32)
    ensures [x] <= s <==> s != [] && s[0] == x
  {}

  lemma {:induction false} PlainIsTwoReplacements(c: seq<bv32>)
    ensures ReplaceAll(ReplaceAll(c, [0x20], []), [0x2581], [0x20]) == Plain(c)
  {
    hide ReplaceAll;
    var u := ReplaceAll(c, [0x20], []);
    ReplaceAllUnfold(c, [0x20], []);
    ReplaceAllUnfold(u, [0x2581], [0x20]);
    SinglePrefix(c, 0x20);
    SinglePrefix(u, 0x2581);
    if c != [] {
      var rest := ReplaceAll(c[1..], [0x20], []);
      PlainIsTwoReplacements(c[1..]);
      assert [] + rest == rest && ([c[0]] + rest)[1..] == rest;
    }
  }

  lemma PatternsEncoded()
    ensures IsChar([SPACE]) && CodePoint([SPACE]) == 0x20
    ensures IsChar(MARK) && CodePoint(MARK) == 0x2581
  {}

  /** The octet loops act on well-formed text as they read on code points, and leave it well-formed. */
  lemma DetokenizedOnCodePoints(t: text)
    requires Valid(t)
    ensures Valid(Detokenized(t))
    ensures Decode(Detokenized(t)) == DropSpacePoint(Plain(Decode(t)))
  {
    hide ReplaceAll, Decode, Valid, IsChar, CodePoint, Plain;
    PatternsEncoded();
    CharDecodes([SPACE]);
    CharDecodes(MARK);
    EmptyDecodes();
    var noSpaces := ReplaceAll(t, [SPACE], []);
    ReplaceDecoded(t, [SPACE], []);
    ReplaceDecoded(noSpaces, MARK, [SPACE]);
    PlainIsTwoReplacements(Decode(t));
    DropSpaceDecoded(ReplaceAll(noSpaces, MARK, [SPACE]));
  }

  lemma DropSpaceDecoded(t: text)
    requires Valid(t)
    ensures Valid(DropSpace(t)) && Decode(DropSpace(t)) == DropSpacePoint(Decode(t))
  {
    hide HeadLength, IsChar, CodePoint;
    EmptyDecodes();
    if t != [] {
      PatternsEncoded();
      ValidBegins(t);
      var h := HeadLength(t);
      if t[0] == SPACE {
        SpaceHead(t);
      } else {
        NotSpaceHead(t);
      }
    }
  }

  lemma SpaceHead(t: text)
    requires t != [] && t[0] == SPACE
    ensures HeadLength(t) == 1 && HeadPoint(t) == 0x20
  {
    PatternsEncoded();
    assert t[..1] == [SPACE];
    HeadUnique(t, 1);
  }

  lemma NotSpaceHead(t: text)
    requires HeadLength(t) > 0 && t[0] != SPACE
    ensures HeadPoint(t) != 0x20
  {
    var c := t[..HeadLength(t)];
    if CodePoint(c) == 0x20 {
      PatternsEncoded();
      CodePointInjective(c, [SPACE]);
    }
  }

  // ---- there and back

  /** Puts one space between the pieces the SentencePiece model returns. */
  method SpmSegment(pieces: seq<text>) returns (toReturn: text)
    ensures toReturn == Joined(pieces, [SPACE])
  {
    toReturn := [];
    var i := 0;
    while i < |pieces|
      invariant i <= |pieces|
      invariant toReturn == Joined(pieces[..i], [SPACE])
    {
      assert pieces[..i + 1] == pieces[..i] + [pieces[i]];
      if i == 0 {
        toReturn := pieces[i];
      } else {
        JoinedLast(pieces[..i], pieces[i], [SPACE]);
        toReturn := toReturn + [SPACE] + pieces[i];
      }
      i := i + 1;
    }
    assert pieces[..|pieces|] == pieces;
  }

  /** The form SentencePiece cuts into pieces: a mark in front, and one for each space. */
  function Escaped(t: text): text {
    MARK + ReplaceAll(t, [SPACE], MARK)
  }

  /** Deleting the spaces of joined pieces leaves the pieces, when they have none of their own. */
  lemma {:induction false} DeleteJoints(pieces: seq<text>)
    requires forall i :: 0 <= i < |pieces| ==> SPACE !in pieces[i]
    ensures ReplaceAll(Joined(pieces, [SPACE]), [SPACE], []) == Concat(pieces)
  {
    hide ReplaceAll;
    ReplaceAllUnfold([], [SPACE], []);
    if pieces != [] {
      var p, rest := pieces[0], pieces[1..];
      if rest == [] {
        PassOver(p, [], [SPACE], []);
        assert p + [] == p && pieces == [p];
      } else {
        var tail := Joined(rest, [SPACE]);
        DeleteJoints(rest);
        PassOver(p, [SPACE] + tail, [SPACE], []);
        Assoc(p, [SPACE], tail);
        DeleteFirst(tail);
      }
    }
  }

  lemma DeleteFirst(tail: text)
    ensures ReplaceAll([SPACE] + tail, [SPACE], []) == ReplaceAll(tail, [SPACE], [])
  {
    assert ([SPACE] + tail)[1..] == tail;
  }

  lemma {:induction false} EscapedHasNoSpace(t: text)
    ensures SPACE !in ReplaceAll(t, [SPACE], MARK)
  {
    if t != [] {
      EscapedHasNoSpace(t[1..]);
    }
  }

  lemma {:induction false} PieceWithinConcat(pieces: seq<text>, b: octet)
    requires b !in Concat(pieces)
    ensures forall i :: 0 <= i < |pieces| ==> b !in pieces[i]
  {
    if pieces != [] {
      PieceWithinConcat(pieces[1..], b);
      assert forall i :: 0 < i < |pieces| ==> pieces[i] == pieces[1..][i - 1];
    }
  }

  lemma MarkPrefix(s: text)
    ensures MARK <= s <==> |s| >= 3 && s[0] == MARK[0] && s[1] == MARK[1] && s[2] == MARK[2]
    ensures MARK <= s ==> s == MARK + s[3..]
  {}

  /** A mark stands at the front of escaped text only where a space or a mark was. */
  lemma MarkAtFront(t: text)
    requires t != [] && t[0] != SPACE
    ensures MARK <= ReplaceAll(t, [SPACE], MARK) <==> MARK <= t
    ensures MARK <= t ==> ReplaceAll(t, [SPACE], MARK) == MARK + ReplaceAll(t[3..], [SPACE], MARK)
  {
    hide ReplaceAll;
    var u := ReplaceAll(t, [SPACE], MARK);
    MarkPrefix(t);
    MarkPrefix(u);
    Unescape1(t);
    if |t| >= 2 {
      MarkPrefix(u[1..]);
      if t[1] != SPACE {
        Unescape1(t[1..]);
        assert t[1..][1..] == t[2..];
        if |t| >= 3 {
          MarkPrefix(u[2..]);
          if t[2] != SPACE {
            Unescape1(t[2..]);
            assert t[2..][1..] == t[3..];
          }
        }
      }
    }
  }

  lemma Unescape1(t: text)
    requires t != [] && t[0] != SPACE
    ensures ReplaceAll(t, [SPACE], MARK) == [t[0]] + ReplaceAll(t[1..], [SPACE], MARK)
    ensures t[1..] != [] && t[1] == SPACE ==> MARK <= ReplaceAll(t[1..], [SPACE], MARK)
    ensures t[1..] == [] ==> ReplaceAll(t[1..], [SPACE], MARK) == []
  {}

  /** Turning the marks back undoes the escaping, and turns the marks of the text itself into spaces too. */
  lemma {:induction false} UnescapeEscaped(t: text)
    ensures ReplaceAll(ReplaceAll(t, [SPACE], MARK), MARK, [SPACE]) == ReplaceAll(t, MARK, [SPACE])
    decreases |t|
  {
    if t != [] {
      var u := ReplaceAll(t, [SPACE], MARK);
      if t[0] == SPACE {
        UnescapeEscaped(t[1..]);
        assert u == MARK + ReplaceAll(t[1..], [SPACE], MARK);
        assert u[|MARK|..] == ReplaceAll(t[1..], [SPACE], MARK);
      } else {
        MarkAtFront(t);
        Unescape1(t);
        if MARK <= t {
          UnescapeEscaped(t[3..]);
          assert u[|MARK|..] == ReplaceAll(t[3..], [SPACE], MARK);
        } else {
          UnescapeEscaped(t[1..]);
          assert u[1..] == ReplaceAll(t[1..], [SPACE], MARK);
        }
      }
    }
  }

  /** Wherever the escaped text was cut, what comes back is the text with its own marks turned into spaces. */
  lemma DetokenizedPieces(t: text, pieces: seq<text>)
    requires Concat(pieces) == Escaped(t)
    ensures Detokenized(Joined(pieces, [SPACE])) == ReplaceAll(t, MARK, [SPACE])
  {
    EscapedHasNoSpace(t);
    PieceWithinConcat(pieces, SPACE);
    DeleteJoints(pieces);
    var u := ReplaceAll(t, [SPACE], MARK);
    assert Escaped(t)[|MARK|..] == u;
    UnescapeEscaped(t);
    assert ReplaceAll(Escaped(t), MARK, [SPACE]) == [SPACE] + ReplaceAll(u, MARK, [SPACE]);
  }

  lemma {:induction false} ReplaceShortens(t: text)
    ensures |ReplaceAll(t, MARK, [SPACE])| <= |t|
    ensures Occurs(t, MARK) ==> |ReplaceAll(t, MARK, [SPACE])| < |t|
    decreases |t|
  {
    hide Find, ReplaceAll, MatchAt;
    ReplaceAllStep(t, MARK, [SPACE]);
    if Occurs(t, MARK) {
      ReplaceShortens(t[Find(t, MARK, 0).value + |MARK|..]);
    }
  }

  /** The round trip gives the text back exactly when the text has no mark of its own. */
  lemma DetokenizeUndoesSegment(t: text, pieces: seq<text>)
    requires Concat(pieces) == Escaped(t)
    ensures Detokenized(Joined(pieces, [SPACE])) == t <==> !Occurs(t, MARK)
  {
    DetokenizedPieces(t, pieces);
    ReplaceShortens(t);
    ReplaceAllStep(t, MARK, [SPACE]);
  }
}
