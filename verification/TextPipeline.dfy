/** A request from text to sentences and back: src/nmt.cpp and src/rest_server.cpp together. */
module TextPipeline {
  import opened Octets
  import opened StringUtils
  import opened StringLaws
  import opened Detokenize
  import opened SentenceBatch
  import opened NmtBatch

  /** The sentences a request of these pieces is cut into. */
  function SentencesOf(pieces: seq<text>): seq<seq<text>> {
    Sentences(Fields(Joined(pieces, [SPACE]), [SPACE]))
  }

  /** What a sentence reads as: its pieces side by side, with a space for each mark. */
  function Reading(sentence: seq<text>): text {
    ReplaceAll(Concat(sentence), MARK, [SPACE])
  }

  function Readings(sentences: seq<seq<text>>): (r: seq<text>)
    ensures |r| == |sentences|
  {
    seq(|sentences|, i requires 0 <= i < |sentences| => Reading(sentences[i]))
  }

  function Dropped(readings: seq<text>): (r: seq<text>)
    ensures |r| == |readings|
  {
    seq(|readings|, i requires 0 <= i < |readings| => DropSpace(readings[i]))
  }

  /** The translation that comes back when the server returns every chunk as it is. */
  function Echoed(pieces: seq<text>): text {
    var chunks := Chunks(SentencesOf(pieces));
    Joined(seq(|chunks|, i requires 0 <= i < |chunks| => Detokenized(chunks[i])), [SPACE])
  }

  // ---- the pieces of a request

  lemma {:induction false} KeptSpells(pieces: seq<text>)
    ensures Concat(Kept(pieces)) == Concat(pieces)
    ensures forall i :: 0 <= i < |Kept(pieces)| ==> Kept(pieces)[i] != [] && Kept(pieces)[i] in pieces
  {
    if pieces != [] {
      KeptSpells(pieces[1..]);
      if pieces[0] != [] {
        assert ([pieces[0]] + Kept(pieces[1..]))[1..] == Kept(pieces[1..]);
      } else {
        assert Kept(pieces) == Kept(pieces[1..]);
        assert Concat(pieces) == [] + Concat(pieces[1..]) == Concat(pieces[1..]);
      }
    }
  }

  lemma SpaceFree(p: text)
    ensures SPACE !in p ==> !Occurs(p, [SPACE])
  {
    if Occurs(p, [SPACE]) {
      OccursIsMember(p, SPACE);
    }
  }

  /** The tokens of the request are the pieces that are not empty, and spell the escaped text. */
  lemma TokensOf(t: text, pieces: seq<text>)
    requires Concat(pieces) == Escaped(t)
    ensures var tokens := Fields(Joined(pieces, [SPACE]), [SPACE]);
      && Concat(tokens) == Escaped(t)
      && forall i :: 0 <= i < |tokens| ==> tokens[i] != [] && SPACE !in tokens[i]
  {
    hide Fields, Find, Escaped, Joined;
    EscapedSpaceFree(t);
    PieceWithinConcat(pieces, SPACE);
    forall i | 0 <= i < |pieces| ensures !Occurs(pieces[i], [SPACE]) {
      SpaceFree(pieces[i]);
    }
    SingleNoOverlap(SPACE);
    SplitDropsEmpty(pieces, [SPACE]);
    KeptSpells(pieces);
  }

  lemma EscapedSpaceFree(t: text)
    ensures SPACE !in Escaped(t)
  {
    EscapedHasNoSpace(t);
  }

  // ---- sentences end where no mark is cut

  /** The last octet of a text is none of the octets of a mark. */
  predicate EndsOutsideMark(t: text) {
    t != [] && t[|t| - 1] !in MARK
  }

  /** At such a place the replacement of marks comes apart. */
  lemma {:induction false} ReplaceAtEnd(x: text, y: text)
    requires EndsOutsideMark(x)
    ensures ReplaceAll(x + y, MARK, [SPACE]) == ReplaceAll(x, MARK, [SPACE]) + ReplaceAll(y, MARK, [SPACE])
    decreases |x|
  {
    hide ReplaceAll;
    var s := x + y;
    ReplaceAllUnfold(s, MARK, [SPACE]);
    ReplaceAllUnfold(x, MARK, [SPACE]);
    MarkBefore(x, y);
    var k := if MARK <= x then |MARK| else 1;
    assert s[k..] == x[k..] + y;
    var head := if MARK <= x then [SPACE] else [x[0]];
    if x[k..] == [] {
      NothingReplaced();
      assert [] + y == y && head + [] == head;
    } else {
      ReplaceAtEnd(x[k..], y);
      Assoc(head, ReplaceAll(x[k..], MARK, [SPACE]), ReplaceAll(y, MARK, [SPACE]));
    }
  }

  lemma MarkBefore(x: text, y: text)
    requires EndsOutsideMark(x)
    ensures MARK <= x + y <==> MARK <= x
    ensures MARK <= x ==> |x| > |MARK|
  {
    MarkPrefix(x);
    MarkPrefix(x + y);
    assert MARK[0] in MARK && MARK[1] in MARK && MARK[2] in MARK;
  }

  lemma NothingReplaced()
    ensures ReplaceAll([], MARK, [SPACE]) == []
  {}

  lemma TerminatorEnds(token: text)
    requires IsTerminator(token)
    ensures EndsOutsideMark(token)
  {}

  lemma ConcatEnds(tokens: seq<text>)
    requires tokens != [] && EndsOutsideMark(tokens[|tokens| - 1])
    ensures EndsOutsideMark(Concat(tokens))
  {
    hide Concat;
    ConcatLast(tokens);
    var last := tokens[|tokens| - 1];
    assert Concat(tokens)[|Concat(tokens)| - 1] == last[|last| - 1];
  }

  /** Every sentence but the last ends outside a mark. */
  ghost predicate CutOutsideMarks(sentences: seq<seq<text>>) {
    forall i :: 0 <= i < |sentences| - 1 ==> EndsOutsideMark(Concat(sentences[i]))
  }

  lemma SentencesCutOutside(tokens: seq<text>)
    ensures CutOutsideMarks(Sentences(tokens))
  {
    hide IsTerminator, Concat, EndsOutsideMark, Sentences;
    forall i | 0 <= i < |Sentences(tokens)| - 1 ensures EndsOutsideMark(Concat(Sentences(tokens)[i])) {
      SentencesEndAtTerminators(tokens, i);
      var sentence := Sentences(tokens)[i];
      TerminatorEnds(sentence[|sentence| - 1]);
      ConcatEnds(sentence);
    }
  }

  /** The readings of such sentences make up the reading of all their tokens. */
  lemma {:induction false} ReadingsSpell(sentences: seq<seq<text>>)
    requires CutOutsideMarks(sentences)
    ensures Concat(Readings(sentences)) == Reading(Concat(sentences))
    decreases |sentences|
  {
    hide ReplaceAll, EndsOutsideMark;
    if sentences == [] {
      NothingReplaced();
    } else {
      var first, rest := sentences[0], sentences[1..];
      assert Readings(sentences)[1..] == Readings(rest);
      assert CutOutsideMarks(rest) by {
        forall i | 0 <= i < |rest| - 1 ensures EndsOutsideMark(Concat(rest[i])) {
          assert rest[i] == sentences[i + 1];
        }
      }
      ReadingsSpell(rest);
      ConcatAppend(first, Concat(rest));
      if rest == [] {
        NothingReplaced();
        assert Concat(rest) == [] && first + [] == first;
      } else {
        ReplaceAtEnd(Concat(first), Concat(Concat(rest)));
      }
    }
  }

  // ---- joining the readings again

  predicate StartsWithSpace(t: text) {
    t != [] && t[0] == SPACE
  }

  lemma SpaceBack(t: text)
    ensures StartsWithSpace(t) ==> [SPACE] + DropSpace(t) == t
    ensures !StartsWithSpace(t) ==> |[SPACE] + DropSpace(t)| == |t| + 1
  {}

  /** Joining with spaces puts one space in front of every reading; what had none gets one more octet. */
  lemma {:induction false} JoinedBack(us: seq<text>)
    requires us != []
    ensures |[SPACE] + Joined(Dropped(us), [SPACE])| >= |Concat(us)|
    ensures (forall i :: 0 <= i < |us| ==> StartsWithSpace(us[i])) ==>
      [SPACE] + Joined(Dropped(us), [SPACE]) == Concat(us)
    ensures (exists i :: 0 <= i < |us| && !StartsWithSpace(us[i])) ==>
      |[SPACE] + Joined(Dropped(us), [SPACE])| > |Concat(us)|
  {
    hide StartsWithSpace, DropSpace, Joined, Dropped, Concat;
    SpaceBack(us[0]);
    JoinedBackStep(us);
    var rest := us[1..];
    if rest != [] {
      JoinedBack(rest);
      assert forall i :: 0 < i < |us| ==> us[i] == rest[i - 1];
    }
  }

  lemma JoinedBackStep(us: seq<text>)
    requires us != []
    ensures var back, rest := [SPACE] + DropSpace(us[0]), us[1..];
      && Concat(us) == us[0] + Concat(rest)
      && (rest == [] ==> Concat(us) == us[0] && [SPACE] + Joined(Dropped(us), [SPACE]) == back)
      && (rest != [] ==>
           [SPACE] + Joined(Dropped(us), [SPACE]) == back + ([SPACE] + Joined(Dropped(rest), [SPACE])))
  {
    hide DropSpace;
    var rest := us[1..];
    assert Dropped(us)[1..] == Dropped(rest);
    if rest == [] {
      assert us[0] + [] == us[0];
    } else {
      var tail := Joined(Dropped(rest), [SPACE]);
      assert Joined(Dropped(us), [SPACE]) == DropSpace(us[0]) + [SPACE] + tail;
      Assoc(DropSpace(us[0]), [SPACE], tail);
      Assoc([SPACE], DropSpace(us[0]), [SPACE] + tail);
    }
  }

  /** The chunk of a sentence, detokenised. */
  lemma ChunkReads(sentence: seq<text>)
    requires forall i :: 0 <= i < |sentence| ==> SPACE !in sentence[i]
    ensures Detokenized(Joined(sentence, [SPACE])) == DropSpace(Reading(sentence))
  {
    hide ReplaceAll, Joined;
    DeleteJoints(sentence);
  }

  /** The tokens of the sentences are tokens of the request. */
  lemma {:induction false} SentenceTokens(sentences: seq<seq<text>>, i: nat)
    requires i < |sentences|
    ensures forall token :: token in sentences[i] ==> token in Concat(sentences)
  {
    if i > 0 {
      SentenceTokens(sentences[1..], i - 1);
    }
  }

  lemma SentenceSpaceFree(t: text, pieces: seq<text>, i: nat)
    requires Concat(pieces) == Escaped(t) && i < |SentencesOf(pieces)|
    ensures var sentence := SentencesOf(pieces)[i];
      && sentence != []
      && forall j :: 0 <= j < |sentence| ==> sentence[j] != [] && SPACE !in sentence[j]
  {
    hide Fields, Sentences, Joined, Escaped, IsTerminator;
    var tokens := Fields(Joined(pieces, [SPACE]), [SPACE]);
    TokensOf(t, pieces);
    SentencesConserve(tokens);
    SentencesEndAtTerminators(tokens, i);
    SentenceTokens(Sentences(tokens), i);
    var sentence := SentencesOf(pieces)[i];
    forall j | 0 <= j < |sentence| ensures sentence[j] != [] && SPACE !in sentence[j] {
      assert sentence[j] in tokens;
    }
  }

  lemma EchoedReads(t: text, pieces: seq<text>)
    requires Concat(pieces) == Escaped(t)
    ensures Echoed(pieces) == Joined(Dropped(Readings(SentencesOf(pieces))), [SPACE])
  {
    hide Fields, Sentences, Joined, Detokenized, DropSpace, Reading, Escaped;
    var sentences := SentencesOf(pieces);
    var chunks := Chunks(sentences);
    forall i | 0 <= i < |chunks| ensures Detokenized(chunks[i]) == Dropped(Readings(sentences))[i] {
      SentenceSpaceFree(t, pieces, i);
      ChunkReads(sentences[i]);
    }
    assert seq(|chunks|, i requires 0 <= i < |chunks| => Detokenized(chunks[i])) == Dropped(Readings(sentences));
  }

  /** The readings of the sentences make up a space and the text. */
  lemma ReadingsOfText(t: text, pieces: seq<text>)
    requires Concat(pieces) == Escaped(t) && !Occurs(t, MARK)
    ensures Concat(Readings(SentencesOf(pieces))) == [SPACE] + t
  {
    hide Fields, Sentences, Joined, Find, ReplaceAll;
    var tokens := Fields(Joined(pieces, [SPACE]), [SPACE]);
    TokensOf(t, pieces);
    SentencesCutOutside(tokens);
    SentencesConserve(tokens);
    ReadingsSpell(Sentences(tokens));
    UnescapedText(t);
  }

  lemma UnescapedText(t: text)
    requires !Occurs(t, MARK)
    ensures ReplaceAll(Escaped(t), MARK, [SPACE]) == [SPACE] + t
  {
    hide Find;
    var u := ReplaceAll(t, [SPACE], MARK);
    assert Escaped(t)[|MARK|..] == u;
    UnescapeEscaped(t);
    ReplaceAllStep(t, MARK, [SPACE]);
  }

  /** A sentence reads with a space in front exactly when a mark stands at its front. */
  lemma SpaceIffMark(sentence: seq<text>)
    requires forall i :: 0 <= i < |sentence| ==> SPACE !in sentence[i]
    ensures StartsWithSpace(Reading(sentence)) <==> MARK <= Concat(sentence)
  {
    hide ReplaceAll, Concat;
    var c := Concat(sentence);
    ReplaceAllUnfold(c, MARK, [SPACE]);
    NoSpaceSpelled(sentence);
  }

  lemma {:induction false} NoSpaceSpelled(sentence: seq<text>)
    requires forall i :: 0 <= i < |sentence| ==> SPACE !in sentence[i]
    ensures SPACE !in Concat(sentence)
  {
    if sentence != [] {
      NoSpaceSpelled(sentence[1..]);
    }
  }

  /** A text that is not empty does not read as nothing. */
  lemma ReadingNonEmpty(sentence: seq<text>)
    requires sentence != [] && sentence[0] != []
    ensures Reading(sentence) != []
  {
    hide ReplaceAll;
    ReplaceAllUnfold(Concat(sentence), MARK, [SPACE]);
  }

  /** The first sentence reads with a space in front, as the text does. */
  lemma FirstReading(t: text, pieces: seq<text>)
    requires Concat(pieces) == Escaped(t) && !Occurs(t, MARK)
    ensures SentencesOf(pieces) != [] && StartsWithSpace(Readings(SentencesOf(pieces))[0])
  {
    hide SentencesOf, Escaped, Find, Reading;
    ReadingsOfText(t, pieces);
    SentenceSpaceFree(t, pieces, 0);
    ReadingNonEmpty(SentencesOf(pieces)[0]);
    var us := Readings(SentencesOf(pieces));
    assert Concat(us) == us[0] + Concat(us[1..]);
    assert us[0][0] == ([SPACE] + t)[0];
  }

  /** Cutting a text into sentences, detokenising each and joining them gives the text back exactly when every sentence
      behind the first begins with a mark; otherwise the result is longer. */
  lemma EchoIff(t: text, pieces: seq<text>)
    requires Concat(pieces) == Escaped(t) && !Occurs(t, MARK)
    ensures Echoed(pieces) == t <==>
      forall i :: 1 <= i < |SentencesOf(pieces)| ==> MARK <= Concat(SentencesOf(pieces)[i])
    ensures Echoed(pieces) != t ==> |Echoed(pieces)| > |t|
  {
    hide Echoed, SentencesOf, Escaped, Find, Reading, StartsWithSpace, Joined, Dropped, Concat;
    var us := Readings(SentencesOf(pieces));
    EchoedReads(t, pieces);
    ReadingsOfText(t, pieces);
    FirstReading(t, pieces);
    JoinedBack(us);
    forall i | 0 <= i < |us| ensures StartsWithSpace(us[i]) <==> MARK <= Concat(SentencesOf(pieces)[i]) {
      SentenceSpaceFree(t, pieces, i);
      SpaceIffMark(SentencesOf(pieces)[i]);
    }
    CancelSpace(Echoed(pieces), t);
  }

  lemma CancelSpace(a: text, b: text)
    ensures [SPACE] + a == [SPACE] + b ==> a == b
  {
    assert a == ([SPACE] + a)[1..] && b == ([SPACE] + b)[1..];
  }

  // ---- with the server in between

  /** One hypothesis for each chunk, with the chunk itself as its sentence. */
  predicate Echoes(batch: seq<seq<Hypothesis>>, chunks: seq<text>) {
    && |batch| == |chunks|
    && forall i :: 0 <= i < |batch| ==> |batch[i]| == 1 && batch[i][0].sentence == chunks[i]
  }

  lemma {:induction false} EchoRow(batch: seq<seq<Hypothesis>>, chunks: seq<text>, n: nat)
    requires Echoes(batch, chunks) && n <= |batch|
    ensures Row(TextsOfAll(batch), n, 0) == seq(n, i requires 0 <= i < n => Detokenized(chunks[i]))
  {
    hide Detokenized;
    if n > 0 {
      EchoRow(batch, chunks, n - 1);
      assert TextsOfAll(batch)[n - 1][0] == Some(Detokenized(chunks[n - 1]));
    }
  }

  /** From text to text: the pieces of a text, cut into sentences, sent to a server that answers with what it gets, read
      and accumulated, give one translation, and it is the text exactly when every sentence behind the first begins with
      a mark. */
  lemma TextThroughServer(t: text, pieces: seq<text>, batch: seq<seq<Hypothesis>>, atof: text -> real)
    requires Concat(pieces) == Escaped(t) && !Occurs(t, MARK)
    requires Echoes(batch, Chunks(SentencesOf(pieces))) && AllWellFormed(batch)
    ensures var answers := Answered(Messages(batch));
      && AnswersComplete(answers)
      && Batched([], TextBatch(answers), |answers|, WithSpace) == [Echoed(pieces)]
    ensures Echoed(pieces) == t <==>
      forall i :: 1 <= i < |SentencesOf(pieces)| ==> MARK <= Concat(SentencesOf(pieces)[i])
  {
    hide *;
    EchoIff(t, pieces);
    OneRank(t, pieces, batch);
    RenderedBatchTransposes(batch, atof, 0);
    RenderedBatchTransposes(batch, atof, 1);
    EchoRow(batch, Chunks(SentencesOf(pieces)), |batch|);
    EchoedIs(pieces);
    assert |batch[0]| == 1;
  }

  lemma EchoedIs(pieces: seq<text>)
    ensures var chunks := Chunks(SentencesOf(pieces));
      Echoed(pieces) == Joined(seq(|chunks|, i requires 0 <= i < |chunks| => Detokenized(chunks[i])), [SPACE])
  {}

  lemma OneRank(t: text, pieces: seq<text>, batch: seq<seq<Hypothesis>>)
    requires Concat(pieces) == Escaped(t) && !Occurs(t, MARK) && Echoes(batch, Chunks(SentencesOf(pieces)))
    ensures 0 < |batch| == |Chunks(SentencesOf(pieces))| && forall i :: 0 <= i < |batch| ==> |batch[i]| == 1
  {
    hide SentencesOf, Escaped, Find, Concat;
    FirstReading(t, pieces);
  }

  /** Where a dot has no space behind it, one is put there. */
  lemma SpaceBehindDot(x: text, y: text)
    requires SPACE !in x && SPACE !in y && y != [] && !IsTerminator(MARK + x) && !Occurs(x + DOT + y, MARK)
    ensures var pieces := [MARK + x, DOT, y];
      Concat(pieces) == Escaped(x + DOT + y) && Echoed(pieces) == x + DOT + [SPACE] + y
  {
    hide *;
    var t, pieces := x + DOT + y, [MARK + x, DOT, y];
    DotPieces(x, y);
    DotSentences(x, y);
    EchoedReads(t, pieces);
    ReadingsOfText(t, pieces);
    var us := Readings(SentencesOf(pieces));
    UnmarkedReading(x + DOT, y);
    ReadingAt(SentencesOf(pieces), 1);
    TwoReadings(us, x + DOT, y);
  }

  lemma ReadingAt(sentences: seq<seq<text>>, i: nat)
    requires i < |sentences|
    ensures Readings(sentences)[i] == Reading(sentences[i])
  {}

  lemma DotPieces(x: text, y: text)
    requires SPACE !in x && SPACE !in y
    ensures Concat([MARK + x, DOT, y]) == Escaped(x + DOT + y)
  {
    hide ReplaceAll, Concat, Find;
    var t := x + DOT + y;
    var pieces := [MARK + x, DOT, y];
    SpaceFree(t);
    ReplaceAllStep(t, [SPACE], MARK);
    ThreeParts(MARK + x, DOT, y);
    assert MARK + x + DOT + y == MARK + t;
  }

  lemma ThreeParts(a: text, b: text, c: text)
    ensures Concat([a, b, c]) == a + b + c
  {
    assert [a, b, c][1..] == [b, c] && [b, c][1..] == [c] && [c][1..] == [];
    assert Concat([c]) == c && Concat([b, c]) == b + c;
  }

  lemma DotSentences(x: text, y: text)
    requires SPACE !in x && SPACE !in y && y != [] && !IsTerminator(MARK + x)
    ensures SentencesOf([MARK + x, DOT, y]) == [[MARK + x, DOT], [y]]
  {
    hide Fields, Find, Joined, Sentences;
    var pieces := [MARK + x, DOT, y];
    forall i | 0 <= i < |pieces| ensures Clean(pieces[i], [SPACE]) {
      SpaceFree(pieces[i]);
    }
    SingleNoOverlap(SPACE);
    SplitOfJoin(pieces, [SPACE]);
    SentenceCloses([MARK + x], DOT, [y]);
    SentenceCloses([], y, []);
    SentencesOfNone();
    assert AllClean(pieces, [SPACE]);
    assert [MARK + x] + [DOT] + [y] == pieces && [] + [y] + [] == [y] == [] + [y];
    assert [MARK + x] + [DOT] == [MARK + x, DOT];
    assert Sentences([y]) == [[y]];
  }

  /** Behind a text without marks, a part reads as it is. */
  lemma UnmarkedReading(x: text, y: text)
    requires !Occurs(x + y, MARK)
    ensures Reading([y]) == y
  {
    hide ReplaceAll, Find, MatchAt;
    if Occurs(y, MARK) {
      var j := Find(y, MARK, 0).value;
      MatchBehind(x, y, MARK, j);
    }
    ReplaceAllStep(y, MARK, [SPACE]);
    assert Concat([y]) == y + Concat([]) == y;
  }

  lemma MatchBehind(x: text, y: text, pat: text, j: nat)
    requires MatchAt(y, pat, j)
    ensures MatchAt(x + y, pat, |x| + j)
  {
    assert (x + y)[|x| + j..] == y[j..];
  }

  lemma TwoReadings(us: seq<text>, x: text, y: text)
    requires |us| == 2 && us[1] == y && Concat(us) == [SPACE] + (x + y) && SPACE !in y
    ensures Joined(Dropped(us), [SPACE]) == x + [SPACE] + y
  {
    assert us[1..] == [y] && [y][1..] == [];
    assert Concat([y]) == y + Concat([]) == y;
    assert Concat(us) == us[0] + y;
    Assoc([SPACE], x, y);
    assert us[0] == (us[0] + y)[..|us[0]|];
    assert [SPACE] + x == ([SPACE] + x + y)[..1 + |x|];
    assert Dropped(us) == [x, y];
    assert [x, y][1..] == [y];
  }

  /** The text "a.b", cut at its dot, comes back as "a. b". */
  lemma DotWithoutSpace()
    ensures Echoed([MARK + [0x61], DOT, [0x62]]) == [0x61, 0x2e, 0x20, 0x62]
  {
    hide Echoed, Find;
    var t := [0x61, 0x2e, 0x62];
    assert [0x61] + DOT + [0x62] == t;
    forall j: nat ensures !MatchAt(t, MARK, j) {
      if j < |t| {
        assert t[j..][0] == t[j];
      }
    }
    FindIsNone(t, MARK, 0);
    assert (MARK + [0x61])[3] == 0x61 && (MARK + DOT)[3] == 0x2e;
    assert (MARK + BANG)[3] == 0x21 && (MARK + QUESTION)[3] == 0x3f && |MARK + DOTS| == 6;
    SpaceBehindDot([0x61], [0x62]);
  }
}
