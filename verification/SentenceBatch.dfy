/** src/rest_server.cpp: cutting a request into sentences. */
module SentenceBatch {
  import opened Octets
  import opened StringUtils
  import opened StringLaws
  import opened Detokenize

  const DOT: text := [0x2e]
  const DOTS: text := [0x2e, 0x2e, 0x2e]
  const BANG: text := [0x21]
  const QUESTION: text := [0x3f]

  /** The tokens a sentence ends with: a mark may stand before all but the line feed. */
  predicate IsTerminator(token: text) {
    || token == MARK + DOT || token == MARK + BANG || token == MARK + DOTS || token == MARK + QUESTION
    || token == DOT || token == BANG || token == DOTS || token == QUESTION
    || token == [NEWLINE]
  }

  /** Where the first sentence ends. */
  function FirstEnd(tokens: seq<text>): (k: nat)
    requires tokens != []
    ensures k < |tokens|
  {
    if |tokens| == 1 || IsTerminator(tokens[0]) then 0 else 1 + FirstEnd(tokens[1..])
  }

  /** The sentences of a request, as lists of tokens. */
  function Sentences(tokens: seq<text>): seq<seq<text>> {
    if tokens == [] then []
    else [tokens[..FirstEnd(tokens) + 1]] + Sentences(tokens[FirstEnd(tokens) + 1..])
  }

  function Chunks(sentences: seq<seq<text>>): (chunks: seq<text>)
    ensures |chunks| == |sentences|
  {
    seq(|sentences|, i requires 0 <= i < |sentences| => Joined(sentences[i], [SPACE]))
  }

  predicate NoTerminator(tokens: seq<text>) {
    forall i :: 0 <= i < |tokens| ==> !IsTerminator(tokens[i])
  }

  lemma {:induction false} FirstEndMeaning(tokens: seq<text>)
    requires tokens != []
    ensures NoTerminator(tokens[..FirstEnd(tokens)])
    ensures FirstEnd(tokens) + 1 == |tokens| || IsTerminator(tokens[FirstEnd(tokens)])
  {
    hide IsTerminator;
    if |tokens| > 1 && !IsTerminator(tokens[0]) {
      FirstEndMeaning(tokens[1..]);
      assert tokens[..FirstEnd(tokens)] == [tokens[0]] + tokens[1..][..FirstEnd(tokens[1..])];
    }
  }

  /** A sentence is complete at its first terminator, and at the last token. */
  lemma {:induction false} SentenceCloses(pending: seq<text>, token: text, rest: seq<text>)
    requires NoTerminator(pending) && (IsTerminator(token) || rest == [])
    ensures Sentences(pending + [token] + rest) == [pending + [token]] + Sentences(rest)
  {
    hide IsTerminator;
    var tokens := pending + [token] + rest;
    FirstEndIs(pending, token, rest);
    assert tokens[..|pending| + 1] == pending + [token];
    assert tokens[|pending| + 1..] == rest;
  }

  lemma {:induction false} FirstEndIs(pending: seq<text>, token: text, rest: seq<text>)
    requires NoTerminator(pending) && (IsTerminator(token) || rest == [])
    ensures FirstEnd(pending + [token] + rest) == |pending|
  {
    hide IsTerminator;
    var tokens := pending + [token] + rest;
    if pending != [] {
      assert tokens[0] == pending[0];
      assert tokens[1..] == pending[1..] + [token] + rest;
      FirstEndIs(pending[1..], token, rest);
    }
  }

  /** The batching loop of `askTranslation`. */
  method BatchSentences(tokenizedTextSp: text) returns (tokenizedBatched: seq<text>)
    ensures tokenizedBatched == Chunks(Sentences(Fields(tokenizedTextSp, [SPACE])))
  {
    hide Fields, IsTerminator, Sentences, Joined;
    var tokenizedVec := Split(tokenizedTextSp, [], [SPACE]);
    assert tokenizedVec == Fields(tokenizedTextSp, [SPACE]);
    FieldsAreClean(tokenizedTextSp, [SPACE]);
    tokenizedBatched := [];
    var tokenizedTmp: text := [];
    ghost var done: seq<seq<text>>, pending: seq<text> := [], [];
    assert [] + tokenizedVec[0..] == tokenizedVec;
    JoinedNone();
    for inc := 0 to |tokenizedVec|
      invariant Sentences(tokenizedVec) == done + Sentences(pending + tokenizedVec[inc..])
      invariant tokenizedBatched == Chunks(done)
      invariant tokenizedTmp == Joined(pending, [SPACE]) && (tokenizedTmp == [] <==> pending == [])
      invariant NoTerminator(pending) && (inc == |tokenizedVec| ==> pending == [])
    {
      var token := tokenizedVec[inc];
      assert Clean(token, [SPACE]);
      ghost var rest := tokenizedVec[inc + 1..];
      assert pending + tokenizedVec[inc..] == pending + [token] + rest;
      JoinedGrows(pending, token);
      if |tokenizedTmp| == 0 {
        tokenizedTmp := token;
      } else {
        tokenizedTmp := tokenizedTmp + [SPACE] + token;
      }
      if inc == |tokenizedVec| - 1 || IsTerminator(token) {
        SentenceCloses(pending, token, rest);
        Assoc(done, [pending + [token]], Sentences(rest));
        assert Chunks(done + [pending + [token]]) == Chunks(done) + [tokenizedTmp];
        tokenizedBatched := tokenizedBatched + [tokenizedTmp];
        tokenizedTmp := [];
        done := done + [pending + [token]];
        pending := [];
        assert pending + rest == rest;
      } else {
        pending := pending + [token];
      }
    }
    // nothing is pending behind the last token, so this flush never fires
    assert tokenizedTmp == [];
    if |tokenizedTmp| > 0 {
      tokenizedBatched := tokenizedBatched + [tokenizedTmp];
    }
    assert pending + tokenizedVec[|tokenizedVec|..] == [];
    SentencesOfNone();
    assert done + [] == done;
  }

  lemma SentencesOfNone()
    ensures Sentences([]) == []
  {}

  lemma JoinedNone()
    ensures Joined([], [SPACE]) == []
  {}

  lemma JoinedGrows(pending: seq<text>, token: text)
    requires token != []
    ensures Joined(pending + [token], [SPACE]) ==
      if pending == [] then token else Joined(pending, [SPACE]) + [SPACE] + token
    ensures Joined(pending + [token], [SPACE]) != []
  {
    if pending != [] {
      JoinedLast(pending, token, [SPACE]);
    }
  }

  /** No token is lost, doubled or moved. */
  lemma {:induction false} SentencesConserve(tokens: seq<text>)
    ensures Concat(Sentences(tokens)) == tokens
    decreases |tokens|
  {
    if tokens != [] {
      var k := FirstEnd(tokens) + 1;
      SentencesConserve(tokens[k..]);
      var rest := Sentences(tokens[k..]);
      assert ([tokens[..k]] + rest)[1..] == rest;
    }
  }

  /** A sentence is not empty, has a terminator at most at its end, and has one there unless it is the last. */
  lemma {:induction false} SentencesEndAtTerminators(tokens: seq<text>, i: nat)
    requires i < |Sentences(tokens)|
    ensures var sentence := Sentences(tokens)[i];
      && sentence != []
      && NoTerminator(sentence[..|sentence| - 1])
      && (i + 1 < |Sentences(tokens)| ==> IsTerminator(sentence[|sentence| - 1]))
    decreases |tokens|
  {
    hide IsTerminator, FirstEnd, NoTerminator;
    var k := FirstEnd(tokens) + 1;
    if i == 0 {
      FirstEndMeaning(tokens);
      assert tokens[..k][..k - 1] == tokens[..k - 1];
    } else {
      SentencesEndAtTerminators(tokens[k..], i - 1);
    }
  }

  /** The tokens that end a sentence, octet by octet. */
  lemma TerminatorOctets(token: text)
    ensures IsTerminator(token) <==>
      token in [[0xe2, 0x96, 0x81, 0x2e], [0xe2, 0x96, 0x81, 0x21], [0xe2, 0x96, 0x81, 0x2e, 0x2e, 0x2e],
                [0xe2, 0x96, 0x81, 0x3f], [0x2e], [0x21], [0x2e, 0x2e, 0x2e], [0x3f], [0x0a]]
  {
    assert MARK + DOT == [0xe2, 0x96, 0x81, 0x2e] && MARK + BANG == [0xe2, 0x96, 0x81, 0x21];
    assert MARK + DOTS == [0xe2, 0x96, 0x81, 0x2e, 0x2e, 0x2e] && MARK + QUESTION == [0xe2, 0x96, 0x81, 0x3f];
  }

  /** A sentence ends behind the first of these tokens, whatever follows. */
  lemma SentenceEndsBehind(pending: seq<text>, token: text, rest: seq<text>)
    requires
      token in [[0xe2, 0x96, 0x81, 0x2e], [0xe2, 0x96, 0x81, 0x21], [0xe2, 0x96, 0x81, 0x2e, 0x2e, 0x2e],
                [0xe2, 0x96, 0x81, 0x3f], [0x2e], [0x21], [0x2e, 0x2e, 0x2e], [0x3f], [0x0a]]
    requires forall i :: 0 <= i < |pending| ==>
      pending[i] !in [[0xe2, 0x96, 0x81, 0x2e], [0xe2, 0x96, 0x81, 0x21], [0xe2, 0x96, 0x81, 0x2e, 0x2e, 0x2e],
                     [0xe2, 0x96, 0x81, 0x3f], [0x2e], [0x21], [0x2e, 0x2e, 0x2e], [0x3f], [0x0a]]
    ensures Sentences(pending + [token] + rest) == [pending + [token]] + Sentences(rest)
  {
    hide IsTerminator, Sentences;
    TerminatorOctets(token);
    forall i | 0 <= i < |pending| ensures !IsTerminator(pending[i]) {
      TerminatorOctets(pending[i]);
    }
    SentenceCloses(pending, token, rest);
  }

  /** No sentence but the last ends behind any other token. */
  lemma SentenceEndsNowhereElse(tokens: seq<text>, i: nat)
    requires i + 1 < |Sentences(tokens)|
    ensures var sentence := Sentences(tokens)[i];
      && sentence != []
      && var token := sentence[|sentence| - 1];
      token in [[0xe2, 0x96, 0x81, 0x2e], [0xe2, 0x96, 0x81, 0x21], [0xe2, 0x96, 0x81, 0x2e, 0x2e, 0x2e],
                [0xe2, 0x96, 0x81, 0x3f], [0x2e], [0x21], [0x2e, 0x2e, 0x2e], [0x3f], [0x0a]]
  {
    hide IsTerminator, Sentences;
    SentencesEndAtTerminators(tokens, i);
    TerminatorOctets(Sentences(tokens)[i][|Sentences(tokens)[i]| - 1]);
  }

  lemma {:induction false} CleanWithin(sentences: seq<seq<text>>, i: nat)
    requires AllClean(Concat(sentences), [SPACE]) && i < |sentences|
    ensures AllClean(sentences[i], [SPACE])
    decreases |sentences|
  {
    hide Clean;
    var all := Concat(sentences);
    if i == 0 {
      assert forall j :: 0 <= j < |sentences[0]| ==> sentences[0][j] == all[j];
    } else {
      var rest := Concat(sentences[1..]);
      assert forall j :: 0 <= j < |rest| ==> rest[j] == all[|sentences[0]| + j];
      CleanWithin(sentences[1..], i - 1);
    }
  }

  /** Splitting the chunks again gives the sentences, so the request's tokens are all there, in order. */
  lemma ChunksConserve(request: text)
    ensures var tokens := Fields(request, [SPACE]);
      var sentences := Sentences(tokens);
      && (forall i :: 0 <= i < |sentences| ==> Fields(Chunks(sentences)[i], [SPACE]) == sentences[i])
      && Concat(sentences) == tokens
  {
    hide Fields, Sentences;
    var tokens := Fields(request, [SPACE]);
    var sentences := Sentences(tokens);
    SentencesConserve(tokens);
    FieldsAreClean(request, [SPACE]);
    forall i | 0 <= i < |sentences| ensures Fields(Chunks(sentences)[i], [SPACE]) == sentences[i] {
      CleanWithin(sentences, i);
      SingleNoOverlap(SPACE);
      SplitOfJoin(sentences[i], [SPACE]);
    }
  }
}
