/** src/bpe.cpp: the encoder object, with its rank table and its cache. */
module BpeEncoder {
  import opened Octets
  import opened Rfc3629
  import opened Utf8Checked
  import opened StringUtils
  import opened BpeMerge
  import opened BpeTable
  import opened BpeWords

  /** The default delimiter of the splitting. */
  const BLANK: text := [SPACE]
  const DEFAULT_SEPARATOR: text := [0x40, 0x40]

  // ---- the merge file

  /** A line of the merge file must have two fields; the source indexes both without a test. */
  predicate Parsable(lines: seq<text>) {
    forall i :: 0 <= i < |lines| ==> |Fields(lines[i], BLANK)| >= 2
  }

  function RulesOf(lines: seq<text>): (rules: seq<Pair>)
    requires Parsable(lines)
    ensures |rules| == |lines|
    ensures forall i :: 0 <= i < |rules| ==> rules[i] == (Fields(lines[i], BLANK)[0], Fields(lines[i], BLANK)[1])
  {
    seq(|lines|, i requires 0 <= i < |lines| => (Fields(lines[i], BLANK)[0], Fields(lines[i], BLANK)[1]))
  }

  lemma NoRules()
    ensures TableOf([]) == map[]
  {}

  lemma NextRule(rules: seq<Pair>, index: nat)
    requires index < |rules|
    ensures TableOf(rules[..index + 1]) == TableOf(rules[..index])[rules[index] := index]
  {
    assert rules[..index + 1][..index] == rules[..index];
  }

  // ---- several words

  ghost function EncodedAll(table: Table, sep: text, words: seq<text>): Result<seq<seq<text>>> {
    if words == [] then Ok([])
    else
      match Encoded(table, sep, words[0])
      case Throw(e) => Throw(e)
      case Ok(pieces) =>
        match EncodedAll(table, sep, words[1..])
        case Throw(e) => Throw(e)
        case Ok(rest) => Ok([pieces] + rest)
  }

  ghost function Segmented(table: Table, sep: text, words: seq<text>): Result<seq<text>> {
    match EncodedAll(table, sep, words)
    case Throw(e) => Throw(e)
    case Ok(parts) => Ok(Concat(parts))
  }

  /** Several words are encoded when each is, word for word; otherwise the first that is not decides. */
  lemma {:induction false} EncodedAllWords(table: Table, sep: text, words: seq<text>)
    ensures var all := EncodedAll(table, sep, words);
      && (all.Ok? <==> forall i :: 0 <= i < |words| ==> Encoded(table, sep, words[i]).Ok?)
      && (all.Ok? ==>
           && |all.value| == |words|
           && forall i :: 0 <= i < |words| ==> Encoded(table, sep, words[i]) == Ok(all.value[i]))
      && (all.Throw? ==>
           exists k :: 0 <= k < |words| && Encoded(table, sep, words[k]) == Throw(all.error)
                    && forall i :: 0 <= i < k ==> Encoded(table, sep, words[i]).Ok?)
  {
    hide Encoded;
    if words == [] {
    } else {
      var rest := words[1..];
      EncodedAllWords(table, sep, rest);
      assert words == [words[0]] + rest;
      if Encoded(table, sep, words[0]).Ok? && EncodedAll(table, sep, rest).Throw? {
        var k :| 0 <= k < |rest| && Encoded(table, sep, rest[k]) == Throw(EncodedAll(table, sep, rest).error)
              && forall i :: 0 <= i < k ==> Encoded(table, sep, rest[i]).Ok?;
        assert words[k + 1] == rest[k];
      }
    }
  }

  /** A sentence is the tokens of its words, one word after the other. */
  lemma SegmentedWords(table: Table, sep: text, words: seq<text>, encoded: seq<seq<text>>)
    requires |encoded| == |words|
    requires forall i :: 0 <= i < |words| ==> Encoded(table, sep, words[i]) == Ok(encoded[i])
    ensures Segmented(table, sep, words) == Ok(Concat(encoded))
  {
    hide Encoded, EncodedAll;
    EncodedAllWords(table, sep, words);
    var all := EncodedAll(table, sep, words).value;
    assert all == encoded by {
      forall i | 0 <= i < |words| ensures all[i] == encoded[i] {
        assert Encoded(table, sep, words[i]) == Ok(all[i]);
      }
    }
  }

  /** The result of going on after `done`. */
  ghost function After<T>(done: seq<T>, rest: Result<seq<T>>): Result<seq<T>> {
    match rest
    case Throw(e) => Throw(e)
    case Ok(more) => Ok(done + more)
  }

  lemma EncodedAllStep(table: Table, sep: text, words: seq<text>, i: nat, done: seq<seq<text>>)
    requires i < |words|
    ensures After(done, EncodedAll(table, sep, words[i..])) ==
      match Encoded(table, sep, words[i])
      case Throw(e) => Throw(e)
      case Ok(pieces) => After(done + [pieces], EncodedAll(table, sep, words[i + 1..]))
  {
    hide Encoded;
    assert words[i..][1..] == words[i + 1..];
    if Encoded(table, sep, words[i]).Ok? && EncodedAll(table, sep, words[i + 1..]).Ok? {
      Assoc(done, [Encoded(table, sep, words[i]).value], EncodedAll(table, sep, words[i + 1..]).value);
    }
  }

  lemma SegmentedStep(table: Table, sep: text, words: seq<text>, i: nat, done: seq<text>)
    requires i < |words|
    ensures After(done, Segmented(table, sep, words[i..])) ==
      match Encoded(table, sep, words[i])
      case Throw(e) => Throw(e)
      case Ok(pieces) => After(done + pieces, Segmented(table, sep, words[i + 1..]))
  {
    hide Encoded;
    assert words[i..][1..] == words[i + 1..];
    if Encoded(table, sep, words[i]).Ok? && EncodedAll(table, sep, words[i + 1..]).Ok? {
      var pieces, rest := Encoded(table, sep, words[i]).value, EncodedAll(table, sep, words[i + 1..]).value;
      assert ([pieces] + rest)[1..] == rest;
      Assoc(done, pieces, Concat(rest));
    }
  }

  lemma NothingToDo(table: Table, sep: text)
    ensures EncodedAll(table, sep, []) == Ok([]) && Segmented(table, sep, []) == Ok([])
  {}

  // ---- letters and pairs

  /** One round of splitting a word into letters. */
  lemma LettersStep(t: text)
    ensures t == [] ==> Letters(t) == []
    ensures HeadLength(t) > 0 ==> Letters(t) == [EncodeChar(HeadPoint(t))] + Letters(t[HeadLength(t)..])
  {
    if HeadLength(t) > 0 {
      EncodeCodePoint(t[..HeadLength(t)]);
    }
  }

  method SplitWordIntoLetters(word: text) returns (r: Result<seq<text>>)
    ensures r == if Valid(CString(word)) then Ok(Letters(CString(word))) else Throw(FirstError(CString(word)))
  {
    var charWord := CString(word);
    r := LettersOf(charWord);
  }

  method LettersOf(charWord: text) returns (r: Result<seq<text>>)
    ensures Scanned(charWord).Ok? ==> r == Ok(Letters(charWord))
    ensures Scanned(charWord).Throw? ==> r == Throw(Scanned(charWord).error)
  {
    hide *;
    var b, e := 0, |charWord|;
    var letters: seq<text> := [];
    assert charWord[0..] == charWord;
    while b != e
      invariant b <= e == |charWord|
      invariant letters + Letters(charWord[b..]) == Letters(charWord)
      invariant Scanned(charWord[b..]) == Scanned(charWord)
      decreases e - b
    {
      ghost var rest := charWord[b..];
      assert charWord[b..e] == rest;
      ScanStep(rest);
      LettersStep(rest);
      var end, b' := Next(charWord, b, e);
      if end.Throw? {
        return Throw(end.error);
      }
      assert rest[b' - b..] == charWord[b'..];
      b := b';
      OneLetter(rest);
      var appended, utf8result := Utf32To8([end.value], 0, 1, []);
      Assoc(letters, [utf8result], Letters(charWord[b..]));
      letters := letters + [utf8result];
    }
    assert charWord[b..] == [];
    ScanStep([]);
    LettersStep([]);
    assert letters + [] == letters;
    r := Ok(letters);
  }

  /** Writing one decoded code point gives its character. */
  lemma OneLetter(t: text)
    requires HeadLength(t) > 0
    ensures var cps := [HeadPoint(t)];
      ScalarRun(cps[0..1]) == 1 && [] + Encode(cps[0..1]) == EncodeChar(HeadPoint(t))
  {
    hide IsChar, CodePoint, HeadPoint, EncodeChar, IsScalar;
    var cps := [HeadPoint(t)];
    assert cps[0..1] == cps && cps[1..] == [];
    assert ScalarRun([]) == 0 && Encode([]) == [];
  }

  method GetPairs(word: seq<text>) returns (pairSet: set<Pair>)
    ensures forall p :: p in pairSet <==> Adjacent(word, p)
  {
    pairSet := {};
    var i := 1;
    while i < |word|
      invariant 1 <= i
      invariant forall p :: p in pairSet <==> exists k: nat | k + 1 < i :: PairAt(word, p, k)
    {
      ghost var before := pairSet;
      pairSet := pairSet + {(word[i - 1], word[i])};
      assert PairAt(word, (word[i - 1], word[i]), i - 1);
      forall p | p in pairSet
        ensures exists k: nat | k + 1 < i + 1 :: PairAt(word, p, k)
      {
        if p in before {
          var k: nat :| k + 1 < i && PairAt(word, p, k);
        }
      }
      i := i + 1;
    }
  }

  /** The encoder. Its state is the table, filled once, and the cache. */
  class Bpe {
    var bpeCodes: Table
    const sep: text
    var cache: map<text, seq<text>>

    /** Every cached encoding is what encoding the word without a cache gives. */
    ghost predicate Valid()
      reads this
    {
      && Injective(bpeCodes)
      && forall word :: word in cache ==> Encoded(bpeCodes, sep, word) == Ok(cache[word])
    }

    constructor ()
      ensures Valid() && bpeCodes == map[] && sep == [0x40, 0x40] && cache == map[]
    {
      bpeCodes := map[];
      sep := DEFAULT_SEPARATOR;
      cache := map[];
    }

    constructor FromLines(lines: seq<text>, sep: text)
      requires Parsable(lines)
      ensures Valid() && bpeCodes == TableOf(RulesOf(lines)) && this.sep == sep && cache == map[]
    {
      hide Fields, Find, Injective, TableOf, Encoded;
      this.bpeCodes := map[];
      this.sep := sep;
      this.cache := map[];
      new;
      NoRules();
      var index := 0;
      ghost var rules := RulesOf(lines);
      while index < |lines|
        invariant index <= |lines|
        invariant bpeCodes == TableOf(rules[..index]) && cache == map[]
      {
        var code := Split(lines[index], [], BLANK);
        assert [] + Fields(lines[index], BLANK) == Fields(lines[index], BLANK);
        NextRule(rules, index);
        bpeCodes := bpeCodes[(code[0], code[1]) := index];
        index := index + 1;
      }
      assert rules[..|lines|] == rules;
      TableInjective(rules);
    }

    /** Looks for the pair of least rank; a rank that reaches the table size is never found. */
    method FindBestBigram(pairs: set<Pair>) returns (best: Option<Pair>)
      ensures best.None? ==> forall p :: p in pairs ==> !Usable(bpeCodes, p)
      ensures best.Some? ==> best.value in pairs && Usable(bpeCodes, best.value)
      ensures best.Some? ==> forall p :: p in pairs && Usable(bpeCodes, p) ==> bpeCodes[best.value] <= bpeCodes[p]
    {
      var minDist := |bpeCodes|;
      best := None;
      var rest := pairs;
      while rest != {}
        invariant rest <= pairs
        invariant best.None? ==> minDist == |bpeCodes|
        invariant best.Some? ==> best.value in pairs && best.value in bpeCodes
        invariant best.Some? ==> bpeCodes[best.value] == minDist < |bpeCodes|
        invariant forall p :: p in pairs - rest && Usable(bpeCodes, p) ==> minDist <= bpeCodes[p]
        decreases |rest|
      {
        var pair :| pair in rest;
        rest := rest - {pair};
        if pair in bpeCodes && bpeCodes[pair] < minDist {
          minDist := bpeCodes[pair];
          best := Some(pair);
        }
      }
      if minDist == |bpeCodes| {
        return None;
      }
    }

    /** The merge loop. */
    method MergeAll(start: seq<text>) returns (vWord: seq<text>)
      requires Injective(bpeCodes)
      ensures vWord == Reduced(bpeCodes, start)
    {
      hide Merged, Adjacent, Usable, Injective;
      vWord := start;
      var pairs := GetPairs(vWord);
      while true
        invariant forall p :: p in pairs <==> Adjacent(vWord, p)
        invariant Reduced(bpeCodes, vWord) == Reduced(bpeCodes, start)
        decreases |vWord|
      {
        var bigram := FindBestBigram(pairs);
        if bigram == None {
          ReducedOfNormal(bpeCodes, vWord);
          return;
        }
        assert Best(bpeCodes, vWord, bigram.value);
        ReducedStep(bpeCodes, vWord, bigram.value);
        var newWord := MergePass(vWord, bigram.value);
        vWord, newWord := newWord, vWord;
        if |newWord| == 1 {
          // a word of one piece has no pair, so it was not merged
          assert false by { ShortHasNoPair(newWord, bigram.value); }
        } else {
          pairs := GetPairs(vWord);
        }
      }
    }

    predicate IsCached(word: text)
      reads this
    {
      word in cache
    }

    /** Gives what encoding without a cache gives, and remembers it. */
    method Encode(word: text) returns (r: Result<seq<text>>)
      requires Valid() && HasLetters(word)
      modifies this`cache
      ensures Valid()
      ensures r == Encoded(bpeCodes, sep, word)
      ensures cache == if r.Ok? then old(cache)[word := r.value] else old(cache)
    {
      hide Reduced, Injective, Letters, CString, HasLetters, Tagged, Rfc3629.Valid;
      if IsCached(word) {
        return Ok(cache[word]);
      }
      var letters := SplitWordIntoLetters(word);
      if letters.Throw? {
        return Throw(letters.error);
      }
      var vWord := letters.value + [EOW];
      vWord := MergeAll(vWord);
      vWord := Strip(vWord, word);
      vWord := TagAll(vWord);
      cache := cache[word := vWord];
      r := Ok(cache[word]);
    }

    method Strip(w: seq<text>, ghost word: text) returns (vWord: seq<text>)
      requires Injective(bpeCodes) && HasLetters(word) && Rfc3629.Valid(CString(word))
      requires w == Reduced(bpeCodes, Letters(CString(word)) + [EOW])
      ensures vWord == Stripped(w) && vWord != []
    {
      hide Reduced, Injective, Letters, CString, HasLetters, Rfc3629.Valid;
      SomethingLeft(bpeCodes, word);
      vWord := w;
      if vWord[|vWord| - 1] == EOW {
        vWord := vWord[..|vWord| - 1];
      }
      if EndsWith(vWord[|vWord| - 1], EOW) {
        var last := |vWord| - 1;
        vWord := vWord[last := vWord[last][..|vWord[last]| - 4]];
      }
    }

    method TagAll(w: seq<text>) returns (vWord: seq<text>)
      requires w != []
      ensures |vWord| == |w| && vWord[|w| - 1] == w[|w| - 1]
      ensures forall i :: 0 <= i < |w| - 1 ==> vWord[i] == w[i] + sep
      ensures vWord == Tagged(w, sep)
    {
      hide Tagged;
      vWord := w;
      for i := 0 to |w| - 1
        invariant |vWord| == |w|
        invariant forall k :: 0 <= k < i ==> vWord[k] == w[k] + sep
        invariant forall k :: i <= k < |w| ==> vWord[k] == w[k]
      {
        vWord := vWord[i := vWord[i] + sep];
      }
      TaggedUnique(w, sep, vWord);
    }

    method EncodeAll(words: seq<text>) returns (r: Result<seq<seq<text>>>)
      requires Valid() && forall i :: 0 <= i < |words| ==> HasLetters(words[i])
      modifies this`cache
      ensures Valid()
      ensures r == EncodedAll(bpeCodes, sep, words)
    {
      hide Encoded, EncodedAll, HasLetters;
      var result: seq<seq<text>> := [];
      assert words[0..] == words;
      AfterNothing(EncodedAll(bpeCodes, sep, words));
      for i := 0 to |words|
        invariant Valid()
        invariant EncodedAll(bpeCodes, sep, words) == After(result, EncodedAll(bpeCodes, sep, words[i..]))
      {
        EncodedAllStep(bpeCodes, sep, words, i, result);
        var encoded := Encode(words[i]);
        if encoded.Throw? {
          return Throw(encoded.error);
        }
        result := result + [encoded.value];
      }
      assert words[|words|..] == [];
      NothingToDo(bpeCodes, sep);
      AfterAll(result);
      r := Ok(result);
    }

    method Preprocess(input: seq<text>) returns (r: Result<seq<seq<text>>>)
      requires Valid() && forall i :: 0 <= i < |input| ==> HasLetters(input[i])
      modifies this`cache
      ensures Valid()
      ensures r == EncodedAll(bpeCodes, sep, input)
    {
      r := EncodeAll(input);
    }

    method Segment(sentence: text) returns (r: Result<seq<text>>)
      requires Valid()
      requires forall i :: 0 <= i < |Fields(sentence, BLANK)| ==> HasLetters(Fields(sentence, BLANK)[i])
      modifies this`cache
      ensures Valid()
      ensures r == Segmented(bpeCodes, sep, Fields(sentence, BLANK))
    {
      hide Encoded, Segmented, HasLetters, Fields;
      var words := Split(sentence, [], BLANK);
      assert words == Fields(sentence, BLANK);
      var tokens: seq<text> := [];
      assert words[0..] == words;
      AfterNothing(Segmented(bpeCodes, sep, words));
      for i := 0 to |words|
        invariant Valid()
        invariant Segmented(bpeCodes, sep, words) == After(tokens, Segmented(bpeCodes, sep, words[i..]))
      {
        // a field is never empty, so the source's test for an empty word does not fire
        SegmentedStep(bpeCodes, sep, words, i, tokens);
        var codes := Encode(words[i]);
        if codes.Throw? {
          return Throw(codes.error);
        }
        tokens := tokens + codes.value;
      }
      assert words[|words|..] == [];
      NothingToDo(bpeCodes, sep);
      AfterAll(tokens);
      r := Ok(tokens);
    }

    method Postprocess(input: seq<text>) returns (debped: seq<text>)
      ensures debped == Unsegmented(input, sep, [])
    {
      debped := [];
      var currWord: text := [];
      assert input[0..] == input;
      for i := 0 to |input|
        invariant debped + Unsegmented(input[i..], sep, currWord) == Unsegmented(input, sep, [])
      {
        assert input[i..][1..] == input[i + 1..];
        var word := input[i];
        if EndsWith(word, sep) {
          currWord := currWord + word[..|word| - |sep|];
        } else {
          currWord := currWord + word;
          Assoc(debped, [currWord], Unsegmented(input[i + 1..], sep, []));
          debped := debped + [currWord];
          currWord := [];
        }
      }
    }
  }

  // ---- runs

  /** A call on the encoder, and its result. */
  datatype Call = EncodeWord(word: text) | EncodeWords(words: seq<text>) | SegmentSentence(sentence: text)

  datatype Reply = Pieces(one: Result<seq<text>>) | PiecesOfAll(all: Result<seq<seq<text>>>)

  predicate Callable(call: Call) {
    match call
    case EncodeWord(word) => HasLetters(word)
    case EncodeWords(words) => forall i :: 0 <= i < |words| ==> HasLetters(words[i])
    case SegmentSentence(sentence) =>
      forall i :: 0 <= i < |Fields(sentence, BLANK)| ==> HasLetters(Fields(sentence, BLANK)[i])
  }

  /** The reply an encoder without a cache would give. */
  ghost function CachelessReply(table: Table, sep: text, call: Call): Reply {
    match call
    case EncodeWord(word) => Pieces(Encoded(table, sep, word))
    case EncodeWords(words) => PiecesOfAll(EncodedAll(table, sep, words))
    case SegmentSentence(sentence) => Pieces(Segmented(table, sep, Fields(sentence, BLANK)))
  }

  /** Whatever was called before, every call of a run is answered as if it were the first. */
  method Run(bpe: Bpe, calls: seq<Call>) returns (replies: seq<Reply>)
    requires bpe.Valid() && forall i :: 0 <= i < |calls| ==> Callable(calls[i])
    modifies bpe`cache
    ensures bpe.Valid() && |replies| == |calls|
    ensures forall i :: 0 <= i < |calls| ==> replies[i] == CachelessReply(bpe.bpeCodes, bpe.sep, calls[i])
    ensures forall i :: 0 <= i < |calls| ==>
      replies[i] == match calls[i]
                    case EncodeWord(word) => Pieces(Encoded(bpe.bpeCodes, bpe.sep, word))
                    case EncodeWords(words) => PiecesOfAll(EncodedAll(bpe.bpeCodes, bpe.sep, words))
                    case SegmentSentence(sentence) => Pieces(Segmented(bpe.bpeCodes, bpe.sep, Fields(sentence, [0x20])))
  {
    hide Encoded, EncodedAll, Segmented, HasLetters, Fields;
    replies := [];
    for i := 0 to |calls|
      invariant bpe.Valid() && |replies| == i
      invariant forall j :: 0 <= j < i ==> replies[j] == CachelessReply(bpe.bpeCodes, bpe.sep, calls[j])
    {
      assert Callable(calls[i]);
      match calls[i] {
        case EncodeWord(word) =>
          var r := bpe.Encode(word);
          replies := replies + [Pieces(r)];
        case EncodeWords(words) =>
          var r := bpe.Preprocess(words);
          replies := replies + [PiecesOfAll(r)];
        case SegmentSentence(sentence) =>
          var r := bpe.Segment(sentence);
          replies := replies + [Pieces(r)];
      }
    }
  }

  lemma AfterNothing<T>(r: Result<seq<T>>)
    ensures After([], r) == r
  {
    if r.Ok? {
      assert [] + r.value == r.value;
    }
  }

  lemma AfterAll<T>(done: seq<T>)
    ensures After(done, Ok([])) == Ok(done)
  {
    assert done + [] == done;
  }

  /** Popping the marker never empties the word, as long as it has a letter. */
  lemma SomethingLeft(table: Table, word: text)
    requires Injective(table) && HasLetters(word) && Rfc3629.Valid(CString(word))
    ensures var w := Reduced(table, Letters(CString(word)) + [EOW]);
      w != [] && (w[|w| - 1] == EOW ==> |w| > 1)
  {
    hide Reduced, Injective, Letters, CString, HasLetters;
    CStringOf(word);
    StartSpells(CString(word));
    var start := Letters(CString(word)) + [EOW];
    ReducedMeaning(table, start);
    ReducedLast(table, start);
    var w := Reduced(table, start);
    if |w| == 1 {
      assert Concat(w) == w[0];
      assert |CString(word) + EOW| > |EOW|;
    }
  }
}
