/** Segmenting and gluing back: for which words, and for which words under every table. */
module BpeRoundTrip {
  import opened Octets
  import opened Rfc3629
  import opened Utf8Checked
  import opened Utf8Backward
  import opened StringUtils
  import opened StringLaws
  import opened BpeMerge
  import opened BpeTable
  import opened BpeOrder
  import opened BpeWords
  import opened BpeEncoder

  // ---- sentences

  lemma {:induction false} GlueAll(table: Table, sep: text, words: seq<text>)
    requires Injective(table) && forall i :: 0 <= i < |words| ==> Admissible(words[i], sep)
    ensures Segmented(table, sep, words).Ok?
    ensures Unsegmented(Segmented(table, sep, words).value, sep, []) == words
    decreases |words|
  {
    hide Admissible, Injective, Encoded;
    if words != [] {
      GlueAll(table, sep, words[1..]);
      var rest := EncodedAll(table, sep, words[1..]).value;
      GlueEncoded(table, sep, words[0], Concat(rest));
      var pieces := Encoded(table, sep, words[0]).value;
      assert ([pieces] + rest)[1..] == rest;
    }
  }

  /** For every table and every sentence of admissible words, gluing the segments gives the words of the sentence. */
  lemma SentenceRoundTrip(rules: seq<Pair>, sep: text, sentence: text)
    requires forall i :: 0 <= i < |Fields(sentence, [0x20])| ==>
      var word := Fields(sentence, [0x20])[i];
      && 0 !in word && Valid(word) && !EndsWith(word, [0x3c, 0x2f, 0x77, 0x3e]) && !EndsWith(word, sep)
    ensures var tokens := Segmented(TableOf(rules), sep, Fields(sentence, [0x20]));
      tokens.Ok? && Unsegmented(tokens.value, sep, []) == Fields(sentence, [0x20])
  {
    hide Fields, TableOf, Valid, EndsWith, Injective;
    TableInjective(rules);
    FieldsAreClean(sentence, [0x20]);
    forall i | 0 <= i < |Fields(sentence, [0x20])| ensures Admissible(Fields(sentence, [0x20])[i], sep) {
      assert Clean(Fields(sentence, [0x20])[i], [0x20]);
    }
    GlueAll(TableOf(rules), sep, Fields(sentence, [0x20]));
  }

  // ---- which tables a merge file can give

  /** Neither a blank, which separates fields, nor a line feed, which separates lines. */
  predicate Unbroken(t: text) {
    0x20 !in t && 0x0a !in t
  }

  predicate PlainPart(t: text) {
    t != [] && Unbroken(t)
  }

  /** The rules of a merge file: two non-empty fields a line. */
  ghost predicate Writable(rules: seq<Pair>) {
    forall i :: 0 <= i < |rules| ==> PlainPart(rules[i].0) && PlainPart(rules[i].1)
  }

  /** What the encoder reads from the lines of any merge file are such rules. */
  lemma ReadIsWritable(lines: seq<text>)
    requires Parsable(lines) && forall i :: 0 <= i < |lines| ==> 0x0a !in lines[i]
    ensures Writable(RulesOf(lines))
  {
    hide Fields;
    forall i | 0 <= i < |lines| ensures PlainPart(RulesOf(lines)[i].0) && PlainPart(RulesOf(lines)[i].1) {
      FieldsArePlain(lines[i]);
    }
  }

  lemma FieldsArePlain(line: text)
    requires 0x0a !in line
    ensures forall i :: 0 <= i < |Fields(line, BLANK)| ==> PlainPart(Fields(line, BLANK)[i])
  {
    hide Fields, Find;
    FieldsAreClean(line, BLANK);
    FieldsFree(line, BLANK, NEWLINE);
    forall i | 0 <= i < |Fields(line, BLANK)| ensures PlainPart(Fields(line, BLANK)[i]) {
      assert Clean(Fields(line, BLANK)[i], BLANK);
      MemberOccurs(Fields(line, BLANK)[i], BLANK[0]);
    }
  }

  function LineOf(p: Pair): text {
    p.0 + [0x20] + p.1
  }

  /** Such rules are what the encoder reads from their lines. */
  lemma WritableIsRead(rules: seq<Pair>)
    requires Writable(rules)
    ensures var lines: seq<text> := seq(|rules|, i requires 0 <= i < |rules| => LineOf(rules[i]));
      Parsable(lines) && RulesOf(lines) == rules
      && forall i :: 0 <= i < |lines| ==> 0x0a !in lines[i]
  {
    var lines := seq(|rules|, i requires 0 <= i < |rules| => LineOf(rules[i]));
    forall i | 0 <= i < |lines|
      ensures Fields(lines[i], BLANK) == [rules[i].0, rules[i].1] && 0x0a !in lines[i]
    {
      FieldsOfLine(rules[i]);
      assert lines[i] == LineOf(rules[i]);
    }
  }

  lemma FieldsOfLine(p: Pair)
    requires PlainPart(p.0) && PlainPart(p.1)
    ensures Fields(LineOf(p), BLANK) == [p.0, p.1] && 0x0a !in LineOf(p)
  {
    hide Fields, Find;
    SingleNoOverlap(BLANK[0]);
    FreeOfBlank(p.0);
    FreeOfBlank(p.1);
    SplitAtDelimiter(p.0, BLANK, p.1);
    FieldsOfClean(p.0, BLANK);
    FieldsOfClean(p.1, BLANK);
  }

  lemma FreeOfBlank(t: text)
    requires PlainPart(t)
    ensures Clean(t, BLANK)
  {
    if Occurs(t, BLANK) {
      OccursIsMember(t, BLANK[0]);
    }
  }

  // ---- words that do not survive every table

  /** Encoding the word with these rules and gluing gives the word. */
  ghost predicate RoundTrips(rules: seq<Pair>, sep: text, word: text) {
    var encoded := Encoded(TableOf(rules), sep, word);
    encoded.Ok? && Unsegmented(encoded.value, sep, []) == [word]
  }

  /** All pairs of non-empty stretches of a text. */
  ghost function AllPairs(s: text): set<Pair> {
    set a, b, c, d | 0 <= a < b <= |s| && 0 <= c < d <= |s| :: (s[a..b], s[c..d])
  }

  ghost function Listed(pairs: set<Pair>): (rules: seq<Pair>)
    ensures Distinct(rules) && forall p :: p in rules <==> p in pairs
  {
    if pairs == {} then []
    else
      var p :| p in pairs;
      [p] + Listed(pairs - {p})
  }

  /** A piece of a spelled text is a stretch of it. */
  lemma {:induction false} PieceIsStretch(w: seq<text>, i: nat) returns (a: nat)
    requires i < |w|
    ensures a + |w[i]| <= |Concat(w)| && Concat(w)[a..a + |w[i]|] == w[i]
    decreases |w|
  {
    if i == 0 {
      a := 0;
    } else {
      var b := PieceIsStretch(w[1..], i - 1);
      a := |w[0]| + b;
      StretchBehind(w[0], Concat(w[1..]), b, |w[i]|);
    }
  }

  lemma StretchBehind(x: text, y: text, b: nat, n: nat)
    requires b + n <= |y|
    ensures (x + y)[|x| + b..|x| + b + n] == y[b..b + n]
  {}

  lemma PairIsAdjacent(w: seq<text>, p: Pair, i: nat)
    requires PairAt(w, p, i)
    ensures Adjacent(w, p)
  {}

  lemma FirstTwoListed(r: seq<text>)
    requires |r| >= 2 && NoEmptyPiece(r)
    ensures (r[0], r[1]) in Listed(AllPairs(Concat(r))) && Adjacent(r, (r[0], r[1]))
  {
    hide Listed, Concat, Adjacent;
    var a := PieceIsStretch(r, 0);
    var b := PieceIsStretch(r, 1);
    StretchesListed(Concat(r), a, |r[0]|, b, |r[1]|);
    PairIsAdjacent(r, (r[0], r[1]), 0);
  }

  lemma StretchesListed(s: text, a: nat, m: nat, b: nat, n: nat)
    requires 0 < m && a + m <= |s| && 0 < n && b + n <= |s|
    ensures (s[a..a + m], s[b..b + n]) in AllPairs(s)
  {}

  /** With all pairs of stretches as rules, the loop ends with one piece. */
  lemma EverythingMerges(w: seq<text>)
    requires w != [] && NoEmptyPiece(w)
    ensures Reduced(TableOf(Listed(AllPairs(Concat(w)))), w) == [Concat(w)]
  {
    hide Merged, Usable, Listed, TableOf, AllPairs, Adjacent, Reduced;
    var rules := Listed(AllPairs(Concat(w)));
    var r := Reduced(TableOf(rules), w);
    TableInjective(rules);
    ReducedMeaning(TableOf(rules), w);
    ReducedLast(TableOf(rules), w);
    ReducedIsNormalForm(rules, w);
    if |r| >= 2 {
      FirstTwoListed(r);
    }
    assert |r| == 1 && r[1..] == [];
    assert Concat(r) == r[0] + Concat(r[1..]) == r[0];
    assert r == [r[0]];
  }

  lemma StretchesWritable(s: text)
    requires PlainPart(s)
    ensures Writable(Listed(AllPairs(s)))
  {
    var rules := Listed(AllPairs(s));
    forall i | 0 <= i < |rules| ensures PlainPart(rules[i].0) && PlainPart(rules[i].1) {
      assert rules[i] in AllPairs(s);
    }
  }

  /** Some merge file makes a plain word one token. */
  lemma WholeWordToken(word: text, sep: text) returns (rules: seq<Pair>)
    requires PlainPart(word) && HasLetters(word) && 0 !in word && Valid(word)
    ensures Writable(rules) && Encoded(TableOf(rules), sep, word) == Ok([word])
  {
    hide Reduced, TableOf, Letters, CString, Valid, Listed, AllPairs, NoEmptyPiece;
    rules := Listed(AllPairs(word + EOW));
    StretchesWritable(word + EOW);
    CStringOf(word);
    StartSpells(word);
    EverythingMerges(Letters(word) + [EOW]);
    assert (word + EOW)[|word|..] == EOW && (word + EOW)[..|word|] == word;
    assert Stripped([word + EOW]) == [word];
  }

  // ---- when a word survives a table

  /** The pieces of a word, before they are tagged. */
  ghost function PiecesOf(rules: seq<Pair>, word: text): seq<text> {
    Stripped(Reduced(TableOf(rules), Letters(CString(word)) + [EOW]))
  }

  lemma PiecesSpelled(rules: seq<Pair>, word: text)
    ensures PiecesOf(rules, word) == Stripped(Reduced(TableOf(rules), Letters(CString(word)) + [EOW]))
  {}

  /** With a last piece that ends in the separator, nothing is ever finished. */
  lemma {:induction false} GlueContinued(pieces: seq<text>, sep: text, curr: text)
    requires pieces != [] && EndsWith(pieces[|pieces| - 1], sep)
    ensures Unsegmented(Tagged(pieces, sep), sep, curr) == []
    decreases |pieces|
  {
    if |pieces| > 1 {
      var tokens := Tagged(pieces, sep);
      assert tokens[0] == pieces[0] + sep && tokens[1..] == Tagged(pieces[1..], sep);
      assert tokens[0][..|tokens[0]| - |sep|] == pieces[0];
      GlueContinued(pieces[1..], sep, curr + pieces[0]);
    }
  }

  lemma GlueIff(pieces: seq<text>, sep: text)
    requires pieces != []
    ensures Unsegmented(Tagged(pieces, sep), sep, []) ==
      if EndsWith(pieces[|pieces| - 1], sep) then [] else [Concat(pieces)]
  {
    hide Concat, EndsWith, Tagged, Unsegmented;
    if EndsWith(pieces[|pieces| - 1], sep) {
      GlueContinued(pieces, sep, []);
    } else {
      GlueTagged(pieces, sep, [], []);
      assert Tagged(pieces, sep) + [] == Tagged(pieces, sep) && [] + Concat(pieces) == Concat(pieces);
      NothingUnsegmented(sep);
    }
  }

  lemma NothingUnsegmented(sep: text)
    ensures Unsegmented([], sep, []) == []
  {}

  /** A word survives a table when its pieces spell it and the last of them does not end in the separator. */
  lemma RoundTripsMeaning(rules: seq<Pair>, sep: text, word: text)
    requires HasLetters(word)
    ensures Valid(CString(word)) ==> PiecesOf(rules, word) != []
    ensures RoundTrips(rules, sep, word) <==>
      && Valid(CString(word))
      && var pieces := PiecesOf(rules, word);
      !EndsWith(pieces[|pieces| - 1], sep) && Concat(pieces) == word
  {
    hide Reduced, TableOf, Letters, CString, Valid, Unsegmented, Tagged, Concat, HasLetters, Injective;
    if Valid(CString(word)) {
      TableInjective(rules);
      SomethingLeft(TableOf(rules), word);
      GlueIff(PiecesOf(rules, word), sep);
    }
  }

  // ---- words that end in the separator

  /** The rules that take letters into the marker, the last letter first. */
  function Chain(u: seq<text>): seq<Pair> {
    if u == [] then [] else Chain(u[1..]) + [(u[0], Concat(u[1..]) + EOW)]
  }

  ghost predicate AllChars(w: seq<text>) {
    forall i :: 0 <= i < |w| ==> IsChar(w[i])
  }

  lemma {:induction false} ChainMeaning(u: seq<text>)
    requires AllChars(u)
    ensures Distinct(Chain(u))
    ensures forall q :: q in Chain(u) ==> q.0 in u && EndsWith(q.1, EOW) && |q.1| < |Concat(u)| + |EOW|
  {
    hide IsChar, EndsWith;
    if u != [] {
      CharNonEmpty(u[0]);
      ChainMeaning(u[1..]);
      MarkerEnds(Concat(u[1..]));
    }
  }

  lemma MarkerEnds(t: text)
    ensures EndsWith(t + EOW, EOW)
  {}

  lemma {:induction false} ChainWritable(u: seq<text>)
    requires forall i :: 0 <= i < |u| ==> PlainPart(u[i])
    ensures Writable(Chain(u)) && Unbroken(Concat(u))
  {
    if u != [] {
      ChainWritable(u[1..]);
    }
  }

  lemma {:induction false} ChainHas(u: seq<text>, k: nat)
    requires 1 <= k <= |u|
    ensures (u[k - 1], Concat(u[k..]) + EOW) in Chain(u)
  {
    if k > 1 {
      ChainHas(u[1..], k - 1);
      assert u[1..][k - 1..] == u[k..];
    }
  }

  /** No letter ends in the marker. */
  lemma NoCharEndsInMarker(c: text)
    requires IsChar(c)
    ensures !EndsWith(c, EOW)
  {}

  /** The pieces when the letters behind the first `k` of `u` are taken into the marker. */
  ghost function ChainState(x: seq<text>, u: seq<text>, k: nat): seq<text>
    requires k <= |u|
  {
    x + u[..k] + [Concat(u[k..]) + EOW]
  }

  /** Behind letters, a pair whose second half ends in the marker stands at the end only. */
  lemma PairAtEnd(front: seq<text>, last: text, q: Pair)
    requires AllChars(front) && EndsWith(q.1, EOW) && Adjacent(front + [last], q)
    ensures front != [] && q == (front[|front| - 1], last)
  {
    hide IsChar, EndsWith;
    var w := front + [last];
    var i: nat :| i < |w| && PairAt(w, q, i);
    if i + 1 < |front| {
      NoCharEndsInMarker(front[i + 1]);
    }
  }

  lemma ChainBest(rules: seq<Pair>, front: seq<text>, p: Pair)
    requires Distinct(rules) && p in rules && forall q :: q in rules ==> EndsWith(q.1, EOW)
    requires AllChars(front) && front != [] && front[|front| - 1] == p.0
    ensures Best(TableOf(rules), front + [p.1], p)
  {
    hide IsChar, EndsWith, TableOf, Adjacent, Distinct, Injective;
    var w := front + [p.1];
    RanksInOrder(rules);
    assert PairAt(w, p, |front| - 1);
    PairIsAdjacent(w, p, |front| - 1);
    forall q | q in rules && Adjacent(w, q) ensures q == p {
      PairAtEnd(front, p.1, q);
    }
  }

  /** One rule of the chain, and no other, applies. */
  lemma ChainStep(x: seq<text>, u: seq<text>, k: nat)
    requires AllChars(x) && AllChars(u) && 1 <= k <= |u|
    ensures Reduced(TableOf(Chain(u)), ChainState(x, u, k)) == Reduced(TableOf(Chain(u)), ChainState(x, u, k - 1))
  {
    hide *;
    ChainStates(x, u, k);
    var rules := Chain(u);
    var front, last := x + u[..k], Concat(u[k..]) + EOW;
    var p := (u[k - 1], last);
    var w := front + [last];
    ChainMeaning(u);
    ChainHas(u, k);
    assert front[|front| - 1] == u[k - 1];
    TableInjective(rules);
    ChainBest(rules, front, p);
    ReducedStep(TableOf(rules), w, p);
    var before := x + u[..k - 1];
    assert w == before + [p.0, p.1];
    ChainMerge(before, p);
  }

  /** The states around one rule of the chain. */
  lemma ChainStates(x: seq<text>, u: seq<text>, k: nat)
    requires 1 <= k <= |u|
    ensures ChainState(x, u, k) == x + u[..k] + [Concat(u[k..]) + EOW]
    ensures ChainState(x, u, k - 1) == x + u[..k - 1] + [u[k - 1] + (Concat(u[k..]) + EOW)]
    ensures AllChars(x) && AllChars(u) ==> AllChars(x + u[..k]) && AllChars(x + u[..k - 1]) && IsChar(u[k - 1])
  {
    hide Concat, IsChar;
    ConcatFrom(u, k - 1);
    Assoc(u[k - 1], Concat(u[k..]), EOW);
  }

  lemma ConcatFrom(u: seq<text>, k: nat)
    requires k < |u|
    ensures Concat(u[k..]) == u[k] + Concat(u[k + 1..])
  {
    assert u[k..][1..] == u[k + 1..];
  }

  lemma ChainMerge(before: seq<text>, p: Pair)
    requires AllChars(before) && IsChar(p.0) && EndsWith(p.1, EOW)
    ensures Merged(before + [p.0, p.1], p) == before + [p.0 + p.1]
  {
    hide IsChar, EndsWith, Adjacent, Merged;
    NoCharEndsInMarker(p.0);
    MergedAround(before, p, []);
    assert before + [p.0, p.1] + [] == before + [p.0, p.1];
    MergedLength(before, p);
    NothingMerged(p);
    if before != [] && Adjacent(before, p) {
      var n := |before| - 1;
      assert before == before[..n] + [before[n]];
      PairAtEnd(before[..n], before[n], p);
      NoCharEndsInMarker(before[n]);
    }
    if before == [] {
      ShortHasNoPair(before, p);
    }
  }

  lemma {:induction false} ChainRuns(x: seq<text>, u: seq<text>, k: nat)
    requires AllChars(x) && AllChars(u) && k <= |u|
    ensures Reduced(TableOf(Chain(u)), ChainState(x, u, k)) == Reduced(TableOf(Chain(u)), x + [Concat(u) + EOW])
    decreases k
  {
    hide IsChar, TableOf, Reduced, Chain, Concat;
    if k > 0 {
      ChainStep(x, u, k);
      ChainRuns(x, u, k - 1);
    } else {
      assert x + u[..0] == x && u[0..] == u;
    }
  }

  /** With the rules of the chain the last piece holds all of its letters. */
  lemma ChainLastPiece(x: seq<text>, u: seq<text>, sep: text)
    requires AllChars(x) && AllChars(u) && u != [] && EndsWith(Concat(u), sep)
    ensures var pieces := Stripped(Reduced(TableOf(Chain(u)), x + u + [EOW]));
      pieces != [] && EndsWith(pieces[|pieces| - 1], sep)
  {
    hide IsChar, TableOf, Reduced, Chain, Concat, EndsWith, Injective;
    var t := TableOf(Chain(u));
    ChainRuns(x, u, |u|);
    assert u[..|u|] == u && u[|u|..] == [];
    assert Concat<octet>([]) == [] by { NothingSpelled(); }
    assert [] + EOW == EOW;
    assert ChainState(x, u, |u|) == x + u + [EOW];
    TableInjective(Chain(u));
    var w := x + [Concat(u) + EOW];
    ReducedLast(t, w);
    var r := Reduced(t, w);
    ConcatFrom(u, 0);
    assert u[0..] == u;
    CharNonEmpty(u[0]);
    StripEnd(r, Concat(u), sep);
  }

  lemma NothingSpelled()
    ensures Concat<octet>([]) == []
  {}

  lemma StripEnd(r: seq<text>, t: text, sep: text)
    requires r != [] && t != [] && EndsWith(r[|r| - 1], t + EOW) && EndsWith(t, sep)
    ensures Stripped(r) != [] && EndsWith(Stripped(r)[|r| - 1], sep) && |Stripped(r)| == |r|
  {
    var last := r[|r| - 1];
    var z := last[..|last| - |t + EOW|];
    assert last == (z + t) + EOW;
    StrippedPart(r, z + t);
    assert (z + t)[|z + t| - |sep|..] == sep;
  }

  /** The last letters of a text that ends in `sep`, as many as `sep` reaches into: all of them are plain. */
  lemma {:induction false} LettersUnder(w: seq<text>, sep: text) returns (k: nat)
    requires AllChars(w) && EndsWith(Concat(w), sep) && PlainPart(sep)
    ensures k < |w| && EndsWith(Concat(w[k..]), sep) && forall i :: k <= i < |w| ==> PlainPart(w[i])
    decreases |w|
  {
    hide IsChar, Concat, EndsWith, PlainPart;
    SomethingSpelled(w, sep);
    var n := |w| - 1;
    var front, c := w[..n], w[n];
    ConcatLast(w);
    CharNonEmpty(c);
    EndsApart(Concat(front), c, sep);
    if |sep| <= |c| {
      k := n;
      assert w[n..] == [c];
      ConcatLast(w[n..]);
      assert w[n..][..0] == [];
      NothingSpelled();
      assert [] + c == c;
      PlainChar(c, sep);
    } else {
      var rest := sep[..|sep| - |c|];
      k := LettersUnder(front, rest);
      assert w[k..] == front[k..] + [c];
      ConcatLast(w[k..]);
      assert w[k..][..|w[k..]| - 1] == front[k..];
      EndsTogether(Concat(front[k..]), rest, c);
      forall i | k <= i < |w| ensures PlainPart(w[i]) {
        assert i < n ==> w[i] == front[i];
      }
    }
  }

  lemma SomethingSpelled(w: seq<text>, sep: text)
    requires EndsWith(Concat(w), sep) && PlainPart(sep)
    ensures w != []
  {}

  /** What a text ends in, against its last letter. */
  lemma EndsApart(x: text, c: text, sep: text)
    requires EndsWith(x + c, sep) && PlainPart(sep) && c != []
    ensures |sep| <= |c| ==> EndsWith(c, sep)
    ensures |sep| > |c| ==>
      var rest := sep[..|sep| - |c|];
      sep == rest + c && EndsWith(x, rest) && PlainPart(rest) && PlainPart(c)
  {
    if |sep| <= |c| {
      assert c[|c| - |sep|..] == (x + c)[|x + c| - |sep|..];
    } else {
      var rest := sep[..|sep| - |c|];
      assert sep[|sep| - |c|..] == (x + c)[|x|..] == c;
      assert x[|x| - |rest|..] == (x + c)[|x + c| - |sep|..][..|rest|];
    }
  }

  lemma EndsTogether(x: text, rest: text, c: text)
    requires EndsWith(x, rest)
    ensures EndsWith(x + c, rest + c)
  {
    assert (x + c)[|x| - |rest|..] == rest + c;
  }

  lemma PlainChar(c: text, sep: text)
    requires IsChar(c) && PlainPart(sep) && EndsWith(c, sep)
    ensures PlainPart(c)
  {
    CharOctets(c);
    if |c| > 1 {
      assert Unbroken(c) by { HighOctets(c); }
    }
  }

  /** The octets of a character of several octets are not in the ASCII range. */
  lemma HighOctets(c: text)
    requires IsChar(c) && |c| > 1
    ensures forall i :: 0 <= i < |c| ==> c[i] >= 0x80
  {}

  /** A separator some token can end in: one octet, or without a blank and a line feed. */
  predicate CanEndToken(sep: text) {
    |sep| == 1 || Unbroken(sep)
  }

  /** A word that ends in such a separator is lost under some merge file, for its last token ends in it. */
  lemma SeparatorEndIsLost(word: text, sep: text) returns (rules: seq<Pair>)
    requires HasLetters(word) && 0 !in word && Valid(word) && EndsWith(word, sep) && CanEndToken(sep)
    ensures Writable(rules) && !RoundTrips(rules, sep, word)
  {
    hide *;
    CStringOf(word);
    LettersAreChars(word);
    if |sep| <= 1 {
      rules := NoRulesTakeSeparator(Letters(word), sep);
    } else {
      LongIsPlain(sep);
      rules := ChainTakesSeparator(Letters(word), sep);
    }
    PiecesSpelled(rules, word);
    RoundTripsMeaning(rules, sep, word);
  }

  /** Without rules the last letter ends in a separator of at most one octet. */
  lemma NoRulesTakeSeparator(w: seq<text>, sep: text) returns (rules: seq<Pair>)
    requires AllChars(w) && w != [] && EndsWith(Concat(w), sep) && |sep| <= 1
    ensures Writable(rules)
    ensures var pieces := Stripped(Reduced(TableOf(rules), w + [EOW]));
      pieces != [] && EndsWith(pieces[|pieces| - 1], sep)
  {
    hide Reduced, TableOf, Concat, EndsWith, AllChars, Stripped;
    rules := [];
    UnmergedPieces(w);
    LastOctet(w, sep);
  }

  /** With a chain of rules the last piece ends in a plain separator. */
  lemma ChainTakesSeparator(w: seq<text>, sep: text) returns (rules: seq<Pair>)
    requires AllChars(w) && EndsWith(Concat(w), sep) && PlainPart(sep)
    ensures Writable(rules)
    ensures var pieces := Stripped(Reduced(TableOf(rules), w + [EOW]));
      pieces != [] && EndsWith(pieces[|pieces| - 1], sep)
  {
    hide Reduced, TableOf, Concat, EndsWith, IsChar, PlainPart, Stripped, Chain, Writable;
    var k := LettersUnder(w, sep);
    rules := Chain(w[k..]);
    ChainWritable(w[k..]);
    ChainLastPiece(w[..k], w[k..], sep);
    assert w[..k] + w[k..] == w;
  }

  lemma LettersAreChars(word: text)
    requires HasLetters(word) && Valid(word)
    ensures Letters(word) != [] && AllChars(Letters(word)) && Concat(Letters(word)) == word
  {
    hide IsChar, Letters, Valid, Concat;
    LettersSpell(word);
  }

  lemma LongIsPlain(sep: text)
    requires CanEndToken(sep) && |sep| > 1
    ensures PlainPart(sep)
  {}

  /** Without rules the pieces are the letters. */
  lemma UnmergedPieces(w: seq<text>)
    requires AllChars(w) && w != []
    ensures Stripped(Reduced(TableOf([]), w + [EOW])) == w
  {
    hide IsChar, EndsWith;
    var start := w + [EOW];
    ReducedOfNormal(TableOf([]), start);
    NoCharEndsInMarker(w[|w| - 1]);
    assert start[..|w|] == w;
  }

  lemma LastOctet(w: seq<text>, sep: text)
    requires AllChars(w) && w != [] && EndsWith(Concat(w), sep) && |sep| <= 1
    ensures EndsWith(w[|w| - 1], sep)
  {
    ConcatLast(w);
    CharNonEmpty(w[|w| - 1]);
  }

  // ---- separators no token can end in

  /** A blank or a line feed is a piece of its own. */
  ghost predicate BreaksAlone(w: seq<text>) {
    forall i :: 0 <= i < |w| ==> Unbroken(w[i]) || |w[i]| == 1
  }

  lemma {:induction false} MergedBreaks(w: seq<text>, p: Pair)
    requires BreaksAlone(w) && PlainPart(p.0) && PlainPart(p.1)
    ensures BreaksAlone(Merged(w, p))
    decreases |w|
  {
    if |w| < 2 {
    } else if PairAt(w, p, 0) {
      MergedBreaks(w[2..], p);
    } else {
      MergedBreaks(w[1..], p);
    }
  }

  lemma {:induction false} ReducedBreaks(rules: seq<Pair>, w: seq<text>)
    requires Writable(rules) && BreaksAlone(w)
    ensures BreaksAlone(Reduced(TableOf(rules), w))
    decreases |w|
  {
    hide Merged, Best, BreaksAlone, PlainPart, TableOf, Injective;
    var t := TableOf(rules);
    TableInjective(rules);
    if !Normal(t, w) {
      NormalIffNoBest(t, w);
      var p :| Best(t, w, p);
      ReducedStep(t, w, p);
      BestIsListed(rules, w, p);
      MergedBreaks(w, p);
      ReducedBreaks(rules, Merged(w, p));
    }
  }

  lemma BestIsListed(rules: seq<Pair>, w: seq<text>, p: Pair)
    requires Best(TableOf(rules), w, p)
    ensures p in rules
  {
    TableOfMeaning(rules);
  }

  lemma StartBreaks(t: text)
    requires Valid(t)
    ensures BreaksAlone(Letters(t) + [EOW])
  {
    hide IsChar, Valid, Letters;
    var w := Letters(t) + [EOW];
    LettersSpell(t);
    forall i | 0 <= i < |w| ensures Unbroken(w[i]) || |w[i]| == 1 {
      if i < |Letters(t)| {
        CharNonEmpty(w[i]);
        if |w[i]| > 1 {
          HighOctets(w[i]);
        }
      }
    }
  }

  lemma StrippedBreaks(w: seq<text>)
    requires BreaksAlone(w)
    ensures BreaksAlone(Stripped(w))
  {}

  lemma NoPieceEndsIn(rules: seq<Pair>, sep: text, word: text)
    requires Writable(rules) && Valid(CString(word)) && !CanEndToken(sep)
    ensures forall i :: 0 <= i < |PiecesOf(rules, word)| ==> !EndsWith(PiecesOf(rules, word)[i], sep)
  {
    hide Reduced, TableOf, Letters, CString, Valid, Writable, Stripped;
    var start := Letters(CString(word)) + [EOW];
    StartBreaks(CString(word));
    ReducedBreaks(rules, start);
    StrippedBreaks(Reduced(TableOf(rules), start));
    forall i | 0 <= i < |PiecesOf(rules, word)| ensures !EndsWith(PiecesOf(rules, word)[i], sep) {
      assert Unbroken(PiecesOf(rules, word)[i]) || |PiecesOf(rules, word)[i]| == 1;
    }
  }

  // The rules that put the marker together from its letters.
  const LT: text := [0x3c]
  const SLASH: text := [0x2f]
  const W: text := [0x77]
  const GT: text := [0x3e]
  const MARKER_RULES: seq<Pair> := [(LT, SLASH), (LT + SLASH, W), (LT + SLASH + W, GT)]

  lemma MarkerRules()
    ensures Writable(MARKER_RULES) && Stratified(MARKER_RULES)
    ensures EOW == LT + SLASH + W + GT
  {
    var r := MARKER_RULES;
    assert r[0] == (LT, SLASH) && r[1] == (LT + SLASH, W) && r[2] == (LT + SLASH + W, GT);
    assert |LT| == |SLASH| == |W| == |GT| == 1;
  }

  /** The last letter of a text that ends in an ASCII octet. */
  lemma LastLetter(t: text, b: octet)
    requires Valid(t + [b]) && b < 0x80
    ensures Valid(t) && Letters(t + [b]) == Letters(t) + [[b]]
  {
    hide IsChar, CodePoint, HeadLength, IsScalar, HeadPoint, Decode, ValidLength, Letters, Tail;
    var front, c := LastChar(t + [b]);
    CharOctets(c);
    CharNonEmpty(c);
    AsciiIsNoTail(b);
    assert (t + [b])[|t|] == c[|c| - 1] == b;
    assert |c| == 1;
    assert front == (t + [b])[..|t|] == t;
    LettersAppend(t, c);
    assert c == [b];
  }

  lemma AsciiIsNoTail(b: octet)
    requires b < 0x80
    ensures !Tail(b)
  {}

  lemma {:induction false} LettersAppend(t: text, c: text)
    requires Valid(t) && IsChar(c)
    ensures Letters(t + c) == Letters(t) + [c]
    decreases |t|
  {
    hide IsChar, CodePoint, HeadLength, Letters, Valid;
    LettersUnfold(t);
    LettersUnfold(t + c);
    if t == [] {
      HeadOfChar(c, []);
      assert t + c == c + [];
      CharNonEmpty(c);
      LettersUnfold([]);
      EmptyDecodes();
    } else {
      ValidBegins(t);
      var h := HeadLength(t);
      HeadAppend(t, c);
      assert (t + c)[..h] == t[..h] && (t + c)[h..] == t[h..] + c;
      LettersAppend(t[h..], c);
      Assoc([t[..h]], Letters(t[h..]), [c]);
    }
  }

  /** The letters of a word that ends in the marker. */
  lemma LettersBeforeMarker(v: text)
    requires Valid(v + EOW)
    ensures Valid(v) && Letters(v + EOW) == Letters(v) + [LT, SLASH, W, GT]
  {
    hide Letters, ValidLength;
    var v1, v2, v3 := v + LT, v + LT + SLASH, v + LT + SLASH + W;
    assert v + EOW == v3 + [GT[0]];
    LastLetter(v3, GT[0]);
    LastLetter(v2, W[0]);
    LastLetter(v1, SLASH[0]);
    LastLetter(v, LT[0]);
  }

  /** One rule of the marker, at the end of the pieces. */
  lemma MergeBeforeEnd(x: seq<text>, p: Pair, y: seq<text>)
    requires p.0 != p.1 && (forall i :: 0 <= i < |y| ==> y[i] != p.0)
    ensures Merged(x + [p.0, p.1] + y, p) == Merged(x, p) + [Product(p)] + y
  {
    MergedAround(x, p, y);
    MergedLength(y, p);
  }

  lemma FoldedThree(a: Pair, b: Pair, c: Pair, w: seq<text>)
    ensures Folded([a, b, c], w) == Merged(Merged(Merged(w, a), b), c)
  {
    hide Merged;
    assert [a, b, c][1..] == [b, c] && [b, c][1..] == [c] && [c][1..] == [];
    assert Folded([a, b, c], w) == Folded([b, c], Merged(w, a)) == Folded([c], Merged(Merged(w, a), b));
  }

  /** The marker rules turn the last four letters into a second marker. */
  lemma SecondMarker(x: seq<text>) returns (front: seq<text>)
    ensures Reduced(TableOf(MARKER_RULES), x + [LT, SLASH, W, GT] + [EOW]) == front + [EOW, EOW]
  {
    hide Merged, TableOf, Reduced;
    var start := x + [LT, SLASH, W, GT] + [EOW];
    var r0, r1, r2 := (LT, SLASH), (LT + SLASH, W), (LT + SLASH + W, GT);
    MarkerRules();
    LoopIsFold(MARKER_RULES, start);
    assert MARKER_RULES == [r0, r1, r2];
    FoldedThree(r0, r1, r2, start);
    assert start == x + [r0.0, r0.1] + [W, GT, EOW];
    MergeBeforeEnd(x, r0, [W, GT, EOW]);
    var x1 := Merged(x, r0);
    assert x1 + [Product(r0)] + [W, GT, EOW] == x1 + [r1.0, r1.1] + [GT, EOW];
    MergeBeforeEnd(x1, r1, [GT, EOW]);
    var x2 := Merged(x1, r1);
    assert x2 + [Product(r1)] + [GT, EOW] == x2 + [r2.0, r2.1] + [EOW];
    MergeBeforeEnd(x2, r2, [EOW]);
    front := Merged(x2, r2);
    assert Product(r2) == EOW;
    assert front + [EOW] + [EOW] == front + [EOW, EOW];
  }

  /** A word that ends in the marker is cut short by the marker rules: both strip steps take effect. */
  lemma MarkerEndIsLost(word: text, sep: text)
    requires HasLetters(word) && 0 !in word && Valid(word) && EndsWith(word, EOW)
    ensures Writable(MARKER_RULES) && !RoundTrips(MARKER_RULES, sep, word)
    ensures Concat(PiecesOf(MARKER_RULES, word)) + EOW == word
  {
    hide Reduced, TableOf, Letters, CString, Valid, MARKER_RULES, RoundTrips, HasLetters;
    MarkerRules();
    CStringOf(word);
    var v := word[..|word| - |EOW|];
    assert word == v + EOW;
    LettersBeforeMarker(v);
    var front := SecondMarker(Letters(v));
    var start := Letters(word) + [EOW];
    TableInjective(MARKER_RULES);
    StartSpells(word);
    ReducedMeaning(TableOf(MARKER_RULES), start);
    StripTwice(front, v);
    RoundTripsMeaning(MARKER_RULES, sep, word);
  }

  // ---- merging never cuts a character

  ghost predicate AllUtf8(w: seq<text>) {
    forall i :: 0 <= i < |w| ==> Valid(w[i])
  }

  lemma {:induction false} MergedUtf8(w: seq<text>, p: Pair)
    requires AllUtf8(w)
    ensures AllUtf8(Merged(w, p))
    decreases |w|
  {
    hide Valid;
    if |w| < 2 {
    } else if PairAt(w, p, 0) {
      BothValid(w[0], w[1]);
      MergedUtf8(w[2..], p);
    } else {
      MergedUtf8(w[1..], p);
    }
  }

  lemma {:induction false} ReducedUtf8(table: Table, w: seq<text>)
    requires Injective(table) && AllUtf8(w)
    ensures AllUtf8(Reduced(table, w))
    decreases |w|
  {
    hide Merged, Best, Injective, AllUtf8;
    if !Normal(table, w) {
      NormalIffNoBest(table, w);
      var p :| Best(table, w, p);
      ReducedStep(table, w, p);
      MergedUtf8(w, p);
      ReducedUtf8(table, Merged(w, p));
    }
  }

  lemma StartUtf8(t: text)
    requires Valid(t)
    ensures AllUtf8(Letters(t) + [EOW])
  {
    hide Valid, Letters;
    var w := Letters(t) + [EOW];
    LettersSpell(t);
    forall i | 0 <= i < |w| ensures Valid(w[i]) {
      if i < |Letters(t)| {
        CharDecodes(w[i]);
      } else {
        MarkerUtf8();
      }
    }
  }

  lemma MarkerUtf8()
    ensures Valid(EOW)
  {
    hide Valid;
    assert EOW == (LT + SLASH) + (W + GT);
    CharDecodes(LT);
    CharDecodes(SLASH);
    CharDecodes(W);
    CharDecodes(GT);
    BothValid(LT, SLASH);
    BothValid(W, GT);
    BothValid(LT + SLASH, W + GT);
  }

  lemma StrippedUtf8(w: seq<text>)
    requires AllUtf8(w)
    ensures AllUtf8(Stripped(w))
  {
    hide Valid, EndsWith;
    var w1 := if w != [] && w[|w| - 1] == EOW then w[..|w| - 1] else w;
    if w1 != [] && EndsWith(w1[|w1| - 1], EOW) {
      CutUtf8(w1[|w1| - 1]);
    }
  }

  lemma CutUtf8(last: text)
    requires Valid(last) && EndsWith(last, EOW)
    ensures |last| >= |EOW| && Valid(last[..|last| - |EOW|])
  {
    hide Valid;
    var cut := last[..|last| - |EOW|];
    assert last == cut + EOW;
    LettersBeforeMarker(cut);
  }

  lemma {:induction false} TaggedUtf8(w: seq<text>, sep: text)
    requires AllUtf8(w) && Valid(sep)
    ensures AllUtf8(Tagged(w, sep))
  {
    hide Valid;
    if |w| >= 2 {
      BothValid(w[0], sep);
      TaggedUtf8(w[1..], sep);
    }
  }

  /** Every token of an encoding is well-formed UTF-8, for every table and every well-formed separator. */
  lemma EncodedUtf8(table: Table, sep: text, word: text)
    requires Injective(table) && Valid(sep)
    ensures Encoded(table, sep, word).Ok? ==> AllUtf8(Encoded(table, sep, word).value)
  {
    hide Valid, AllUtf8, Tagged, Stripped, Letters, CString, Injective;
    var t := CString(word);
    if Valid(t) {
      var start := Letters(t) + [EOW];
      StartUtf8(t);
      ReducedUtf8(table, start);
      StrippedUtf8(Reduced(table, start));
      TaggedUtf8(Stripped(Reduced(table, start)), sep);
    }
  }

  lemma StripTwice(front: seq<text>, v: text)
    requires Concat(front + [EOW, EOW]) == v + EOW + EOW
    ensures Stripped(front + [EOW, EOW]) == front + [[]] && Concat(front + [[]]) == v
  {
    hide Concat;
    TwoMarkers(front);
    var w := front + [EOW, EOW];
    ConcatLast(w);
    assert w[..|w| - 1] == front + [EOW];
    CancelEnd(Concat(front + [EOW]), v + EOW, EOW);
    assert EOW == [] + EOW;
    CutSpells(front, [], v);
  }

  lemma TwoMarkers(front: seq<text>)
    ensures Stripped(front + [EOW, EOW]) == front + [[]]
    ensures Concat(front + [EOW]) == Concat(front) + EOW
  {
    hide Concat;
    var w := front + [EOW, EOW];
    var w1 := front + [EOW];
    assert w[..|w| - 1] == w1 && w1[..|front|] == front;
    assert EOW[..0] == [] && EOW[0..] == EOW;
    ConcatLast(w1);
  }

  // ---- words with a NUL

  lemma StrippedSpells(w: seq<text>)
    ensures Concat(Stripped(w)) <= Concat(w)
  {
    hide Concat, EndsWith;
    var w1 := if w != [] && w[|w| - 1] == EOW then w[..|w| - 1] else w;
    if w1 != w {
      ConcatLast(w);
    }
    if w1 != [] && EndsWith(w1[|w1| - 1], EOW) {
      CutIsPrefix(w1);
    }
  }

  lemma CutIsPrefix(w: seq<text>)
    requires w != [] && EndsWith(w[|w| - 1], EOW)
    ensures var n := |w| - 1;
      |w[n]| >= |EOW| && Concat(w[..n] + [w[n][..|w[n]| - |EOW|]]) <= Concat(w)
  {
    hide Concat;
    var n := |w| - 1;
    var keep := w[n][..|w[n]| - |EOW|];
    assert w[n] == keep + EOW;
    hide *;
    var cut := w[..n] + [keep];
    ConcatLast(w);
    ConcatLast(cut);
    assert cut[..n] == w[..n];
    Assoc(Concat(w[..n]), keep, EOW);
  }

  /** The rest of a word behind a NUL is lost under every table. */
  lemma NulIsLost(rules: seq<Pair>, sep: text, word: text)
    requires HasLetters(word) && 0 in word
    ensures !RoundTrips(rules, sep, word)
  {
    hide Reduced, TableOf, Letters, Valid, Stripped, CString, RoundTrips, HasLetters, Concat;
    RoundTripsMeaning(rules, sep, word);
    var t := CString(word);
    if Valid(t) {
      CStringOf(word);
      StartSpells(t);
      TableInjective(rules);
      var w := Reduced(TableOf(rules), Letters(t) + [EOW]);
      ReducedMeaning(TableOf(rules), Letters(t) + [EOW]);
      StrippedSpells(w);
      assert 0 !in t + EOW;
      assert Concat(w) == t + EOW;
    }
  }

  // ---- the words that survive

  /** Every other word survives every table. */
  lemma Survives(rules: seq<Pair>, sep: text, word: text)
    requires Writable(rules) && HasLetters(word) && 0 !in word && Valid(word)
    requires !EndsWith(word, EOW) && !(EndsWith(word, sep) && CanEndToken(sep))
    ensures RoundTrips(rules, sep, word)
  {
    hide EndsWith, Writable, Valid, HasLetters, RoundTrips, CString, PiecesOf, CanEndToken, Concat;
    CStringOf(word);
    TableInjective(rules);
    EncodingSpells(TableOf(rules), word);
    PiecesSpelled(rules, word);
    RoundTripsMeaning(rules, sep, word);
    var pieces := PiecesOf(rules, word);
    var last := pieces[|pieces| - 1];
    if EndsWith(last, sep) {
      SuffixOfConcat(pieces);
      EndsNest(word, last, sep);
      NoPieceEndsIn(rules, sep, word);
    }
  }

  /** The words that survive every merge file, among all that `Encode` accepts: well-formed words without a NUL that do
      not end in the marker, and end in the separator only when no token can. */
  lemma RoundTripIff(word: text, sep: text)
    requires HasLetters(word)
    ensures (forall rules :: Writable(rules) ==> RoundTrips(rules, sep, word)) <==>
      && 0 !in word && Valid(word)
      && !EndsWith(word, [0x3c, 0x2f, 0x77, 0x3e]) && !(EndsWith(word, sep) && CanEndToken(sep))
  {
    hide EndsWith, Valid, HasLetters, CanEndToken, RoundTrips;
    assert Writable([]);
    if 0 in word {
      NulIsLost([], sep, word);
    } else if !Valid(word) {
      CStringOf(word);
      RoundTripsMeaning([], sep, word);
    } else if EndsWith(word, EOW) {
      MarkerEndIsLost(word, sep);
    } else if EndsWith(word, sep) && CanEndToken(sep) {
      var rules := SeparatorEndIsLost(word, sep);
    } else {
      forall rules | Writable(rules) ensures RoundTrips(rules, sep, word) {
        Survives(rules, sep, word);
      }
    }
  }

  // ---- the tokens of a word without rules

  /** With no rule that applies, the tokens are the letters of the word, with the separator behind each but the last. */
  lemma UnmergedTokens(sep: text, word: text)
    requires HasLetters(word) && 0 !in word && Valid(word)
    ensures Encoded(map[], sep, word).Ok?
    ensures var tokens, letters := Encoded(map[], sep, word).value, Letters(word);
      && |tokens| == |letters| > 0 && tokens[|letters| - 1] == letters[|letters| - 1]
      && (forall i :: 0 <= i < |letters| - 1 ==> tokens[i] == letters[i] + sep)
      && (forall i :: 0 <= i < |letters| ==> IsChar(letters[i])) && Concat(letters) == word
  {
    hide Reduced, Letters, Valid, CString, IsChar, Stripped, Concat;
    CStringOf(word);
    LettersSpell(word);
    LettersAreChars(word);
    EncodedTokens(map[], sep, word);
    UnmergedPieces(Letters(word));
    assert TableOf([]) == map[] by { NoRules(); }
  }

  // ---- a repeated line, seen from a word

  /** With a repeated line, the pair of the last line is left unmerged in the word of its two letters, unless a rule
      takes the second letter into the marker. */
  lemma RepeatedLineSplitsWord(rules: seq<Pair>, sep: text)
    requires !Distinct(rules)
    requires var p := rules[|rules| - 1];
      IsChar(p.0) && IsChar(p.1) && 0 !in p.0 + p.1 && (p.1, EOW) !in rules
    ensures var p := rules[|rules| - 1];
      Encoded(TableOf(rules), sep, p.0 + p.1) == Ok([p.0 + sep, p.1])
  {
    hide *;
    SomeRule(rules);
    var p := rules[|rules| - 1];
    var word := p.0 + p.1;
    CStringOf(word);
    TwoLetters(p.0, p.1);
    var start := [p.0, p.1, EOW];
    assert Letters(word) + [EOW] == start;
    LastPairStays(rules, start);
    ReducedOfNormal(TableOf(rules), start);
    TwoTokens(p.0, p.1, sep);
    EncodedOfPieces(TableOf(rules), sep, word);
  }

  lemma SomeRule(rules: seq<Pair>)
    requires !Distinct(rules)
    ensures rules != []
  {}

  lemma EncodedOfPieces(table: Table, sep: text, word: text)
    requires CString(word) == word && Valid(word)
    ensures Encoded(table, sep, word) == Ok(Tagged(Stripped(Reduced(table, Letters(word) + [EOW])), sep))
  {}

  /** No usable pair stands in these three pieces. */
  lemma LastPairStays(rules: seq<Pair>, w: seq<text>)
    requires !Distinct(rules) && |w| == 3
    requires (w[0], w[1]) == rules[|rules| - 1] && (w[1], w[2]) !in rules
    ensures Normal(TableOf(rules), w)
  {
    hide TableOf, Distinct, Adjacent;
    TableOfMeaning(rules);
    TableSize(rules);
    OnlyPairs(w);
  }

  lemma TwoTokens(a: text, b: text, sep: text)
    requires IsChar(b)
    ensures Tagged(Stripped([a, b, EOW]), sep) == [a + sep, b]
  {
    hide EndsWith, IsChar;
    NoCharEndsInMarker(b);
    assert [a, b, EOW][..2] == [a, b];
    assert Stripped([a, b, EOW]) == [a, b];
    assert [a, b][1..] == [b];
    assert Tagged([b], sep) == [b];
  }

  lemma TwoLetters(a: text, b: text)
    requires IsChar(a) && IsChar(b)
    ensures Valid(a + b) && Letters(a + b) == [a, b]
  {
    hide IsChar, Valid, Letters;
    CharDecodes(a);
    CharDecodes(b);
    BothValid(a, b);
    EmptyDecodes();
    LettersAppend([], a);
    LettersAppend(a, b);
    LettersUnfold([]);
    assert [] + a == a;
  }

  /** The smallest such file: one line, twice. */
  lemma RepeatedLineWitness(sep: text)
    ensures Encoded(TableOf([(A, B), (A, B)]), sep, A + B) == Ok([A + sep, B])
  {
    var rules := [(A, B), (A, B)];
    assert rules[0] == rules[1];
    RepeatedLineSplitsWord(rules, sep);
  }
}
