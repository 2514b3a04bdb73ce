/** src/bpe.cpp: letters, the end marker, the separator, and the meaning of a whole encoding. */
module BpeWords {
  import opened Octets
  import opened Rfc3629
  import opened Utf8Checked
  import opened Utf8Backward
  import opened BpeMerge
  import opened BpeTable

  /** The end-of-word marker, "</w>". */
  const EOW: text := [0x3c, 0x2f, 0x77, 0x3e]

  /** What `strlen` sees of a string. */
  function CString(word: text): text {
    if word == [] || word[0] == 0 then [] else [word[0]] + CString(word[1..])
  }

  /** The encoder reads at least one letter of the word. */
  predicate HasLetters(word: text) {
    word != [] && word[0] != 0
  }

  /** The characters of a text, up to the first ill-formed one. */
  function Letters(t: text): seq<text> {
    var h := HeadLength(t);
    if h == 0 then [] else [t[..h]] + Letters(t[h..])
  }

  /** Takes the end marker off the last pieces: a piece that is the marker goes, then a piece that ends in it is cut. */
  function Stripped(w: seq<text>): seq<text> {
    var w1 := if w != [] && w[|w| - 1] == EOW then w[..|w| - 1] else w;
    if w1 != [] && EndsWith(w1[|w1| - 1], EOW)
    then w1[..|w1| - 1] + [w1[|w1| - 1][..|w1[|w1| - 1]| - |EOW|]]
    else w1
  }

  /** Marks every piece but the last as continued. */
  function Tagged(w: seq<text>, sep: text): seq<text> {
    if |w| < 2 then w else [w[0] + sep] + Tagged(w[1..], sep)
  }

  /** What encoding a word means, without a cache. */
  ghost function Encoded(table: Table, sep: text, word: text): Result<seq<text>> {
    var s := CString(word);
    if Valid(s) then Ok(Tagged(Stripped(Reduced(table, Letters(s) + [EOW])), sep)) else Throw(FirstError(s))
  }

  /** Piece by piece, what tagging does: as many pieces as before, the separator behind each but the last. */
  lemma {:induction false} TaggedPieces(w: seq<text>, sep: text)
    ensures |Tagged(w, sep)| == |w|
    ensures forall i :: 0 <= i < |w| - 1 ==> Tagged(w, sep)[i] == w[i] + sep
    ensures w != [] ==> Tagged(w, sep)[|w| - 1] == w[|w| - 1]
  {
    if |w| > 1 {
      TaggedPieces(w[1..], sep);
    }
  }

  lemma TaggedUnique(w: seq<text>, sep: text, tokens: seq<text>)
    requires |tokens| == |w| > 0 && tokens[|w| - 1] == w[|w| - 1]
    requires forall i :: 0 <= i < |w| - 1 ==> tokens[i] == w[i] + sep
    ensures tokens == Tagged(w, sep)
  {
    hide Tagged;
    TaggedPieces(w, sep);
  }

  /** What stripping does to the last pieces, for the octets of "</w>": a last piece that is the marker goes; the piece
      that is last then loses one marker from its end; all other pieces stay. */
  lemma StrippedPieces(front: seq<text>, last: text)
    ensures var marker: text := [0x3c, 0x2f, 0x77, 0x3e];
      && Stripped([]) == [] && Stripped([marker]) == []
      && Stripped(front + [last + marker, marker]) == front + [last]
      && (last != [] ==> Stripped(front + [last + marker]) == front + [last])
      && (!EndsWith(last, marker) ==> Stripped(front + [last]) == front + [last])
      && (!EndsWith(last, marker) ==> Stripped(front + [last, marker]) == front + [last])
  {
    hide Stripped, EndsWith;
    NothingStripped();
    StrippedOnce(front, last);
    PopMarker(front, last);
    PopMarker(front, last + EOW);
    MarkerBehind(last);
  }

  lemma NothingStripped()
    ensures Stripped([]) == [] && Stripped([EOW]) == []
  {
    assert [EOW][..0] == [];
  }

  lemma MarkerBehind(last: text)
    ensures EndsWith(last + EOW, EOW) && (last + EOW)[..|last + EOW| - |EOW|] == last
  {}

  /** Without a marker of its own at the end. */
  lemma StrippedOnce(front: seq<text>, last: text)
    ensures !EndsWith(last, EOW) ==> Stripped(front + [last]) == front + [last]
    ensures last != [] ==> Stripped(front + [last + EOW]) == front + [last]
  {
    var w := front + [last + EOW];
    assert w[..|w| - 1] == front;
    assert (last + EOW)[|last|..] == EOW && (last + EOW)[..|last|] == last;
  }

  /** Behind a popped marker stands what is stripped next. */
  lemma PopMarker(front: seq<text>, last: text)
    ensures Stripped(front + [last, EOW]) ==
      if EndsWith(last, EOW) then front + [last[..|last| - |EOW|]] else front + [last]
  {
    var w := front + [last, EOW];
    var w1 := front + [last];
    assert w[..|w| - 1] == w1 && w1[..|front|] == front;
  }

  /** Glues tagged pieces together again; `curr` is the word under way. */
  function Unsegmented(tokens: seq<text>, sep: text, curr: text): seq<text> {
    if tokens == [] then []
    else if EndsWith(tokens[0], sep) then Unsegmented(tokens[1..], sep, curr + tokens[0][..|tokens[0]| - |sep|])
    else [curr + tokens[0]] + Unsegmented(tokens[1..], sep, [])
  }

  /** The tokens of a word, one by one, from its pieces; and the exception of the decoder for an ill-formed word. */
  lemma EncodedTokens(table: Table, sep: text, word: text)
    ensures var s := CString(word);
      && (Encoded(table, sep, word).Ok? <==> Valid(s))
      && (Valid(s) ==>
           var tokens := Encoded(table, sep, word).value;
           var pieces := Stripped(Reduced(table, Letters(s) + [[0x3c, 0x2f, 0x77, 0x3e]]));
           && |tokens| == |pieces|
           && (forall i :: 0 <= i < |pieces| - 1 ==> tokens[i] == pieces[i] + sep)
           && (pieces != [] ==> tokens[|pieces| - 1] == pieces[|pieces| - 1]))
      && (!Valid(s) ==>
           && ValidLength(s) < |s| && HeadLength(s[ValidLength(s)..]) == 0
           && Encoded(table, sep, word) == Throw(NextError(s[ValidLength(s)..])))
  {
    hide Reduced, Letters, Stripped, CString, Tagged;
    var s := CString(word);
    if Valid(s) {
      TaggedPieces(Stripped(Reduced(table, Letters(s) + [EOW])), sep);
    } else {
      FirstErrorPlace(s);
    }
  }

  lemma {:induction false} CStringOf(word: text)
    ensures 0 !in CString(word) && CString(word) <= word
    ensures 0 !in word ==> CString(word) == word
    ensures HasLetters(word) <==> CString(word) != []
    ensures |CString(word)| < |word| ==> word[|CString(word)|] == 0
  {
    if HasLetters(word) {
      CStringOf(word[1..]);
      assert word == [word[0]] + word[1..];
    }
  }

  lemma LettersUnfold(t: text)
    ensures HeadLength(t) == 0 ==> Letters(t) == []
    ensures HeadLength(t) > 0 ==> Letters(t) == [t[..HeadLength(t)]] + Letters(t[HeadLength(t)..])
  {}

  /** The letters are the characters, one by one, and spell the text. */
  lemma {:induction false} LettersSpell(t: text)
    requires Valid(t)
    ensures Concat(Letters(t)) == t && NoEmptyPiece(Letters(t))
    ensures forall i :: 0 <= i < |Letters(t)| ==> IsChar(Letters(t)[i])
    ensures t != [] ==> Letters(t) != []
    decreases |t|
  {
    hide IsChar, HeadLength, Letters, Valid;
    LettersUnfold(t);
    if t == [] {
      EmptyDecodes();
    } else {
      ValidBegins(t);
      var h := HeadLength(t);
      LettersSpell(t[h..]);
      assert ([t[..h]] + Letters(t[h..]))[1..] == Letters(t[h..]);
      assert t == t[..h] + t[h..];
    }
  }

  /** The pieces the merge loop starts from spell the word and the marker. */
  lemma StartSpells(t: text)
    requires Valid(t)
    ensures Concat(Letters(t) + [EOW]) == t + EOW && NoEmptyPiece(Letters(t) + [EOW])
  {
    LettersSpell(t);
    ConcatAppend(Letters(t), [EOW]);
    assert Concat([EOW]) == EOW;
  }

  lemma SuffixOfConcat(w: seq<text>)
    requires w != []
    ensures EndsWith(Concat(w), w[|w| - 1])
  {
    ConcatLast(w);
  }

  /** Two ends of one text are ends of each other. */
  lemma EndsNest(t: text, long: text, short: text)
    requires EndsWith(t, long) && EndsWith(long, short)
    ensures EndsWith(t, short)
  {}

  /** The last piece only ever grows to the left. */
  lemma {:induction false} MergedLast(w: seq<text>, p: Pair)
    requires w != []
    ensures Merged(w, p) != [] && EndsWith(Merged(w, p)[|Merged(w, p)| - 1], w[|w| - 1])
    decreases |w|
  {
    if |w| < 2 {
    } else if PairAt(w, p, 0) {
      if |w| > 2 {
        MergedLast(w[2..], p);
      } else {
        assert w[2..] == [];
      }
    } else {
      MergedLast(w[1..], p);
    }
  }

  lemma {:induction false} ReducedLast(table: Table, w: seq<text>)
    requires Injective(table) && w != []
    ensures Reduced(table, w) != [] && EndsWith(Reduced(table, w)[|Reduced(table, w)| - 1], w[|w| - 1])
    decreases |w|
  {
    hide Merged, Best, Injective, EndsWith;
    if Normal(table, w) {
      EndsWithItself(w[|w| - 1]);
    } else {
      NormalIffNoBest(table, w);
      var p :| Best(table, w, p);
      ReducedStep(table, w, p);
      var m := Merged(w, p);
      MergedLast(w, p);
      ReducedLast(table, m);
      EndsNest(Reduced(table, m)[|Reduced(table, m)| - 1], m[|m| - 1], w[|w| - 1]);
    }
  }

  lemma EndsWithItself(t: text)
    ensures EndsWith(t, t)
  {}

  /** Taking the marker off pieces that spell a word and the marker leaves pieces that spell the word. */
  lemma StripSpells(w: seq<text>, t: text)
    requires w != [] && EndsWith(w[|w| - 1], EOW)
    requires Concat(w) == t + EOW && NoEmptyPiece(w) && t != [] && !EndsWith(t, EOW)
    ensures Stripped(w) != [] && Concat(Stripped(w)) == t && NoEmptyPiece(Stripped(w))
  {
    if w[|w| - 1] == EOW {
      StripWholePiece(w, t);
    } else {
      StripPartOfPiece(w, t);
    }
  }

  lemma SomePiece(w: seq<text>)
    requires Concat(w) != []
    ensures w != []
  {}

  lemma StripWholePiece(w: seq<text>, t: text)
    requires w != [] && w[|w| - 1] == EOW && Concat(w) == t + EOW && NoEmptyPiece(w) && t != [] && !EndsWith(t, EOW)
    ensures Stripped(w) == w[..|w| - 1] != [] && Concat(Stripped(w)) == t && NoEmptyPiece(Stripped(w))
  {
    hide Concat, EndsWith;
    var w1 := w[..|w| - 1];
    ConcatLast(w);
    CancelEnd(Concat(w1), t, EOW);
    SomePiece(w1);
    SuffixOfConcat(w1);
    if EndsWith(w1[|w1| - 1], EOW) {
      EndsNest(t, w1[|w1| - 1], EOW);
    }
  }

  lemma CancelEnd(x: text, y: text, end: text)
    requires x + end == y + end
    ensures x == y
  {
    assert x == (x + end)[..|x|] && y == (y + end)[..|y|];
  }

  /** Only the last piece is changed. */
  lemma StrippedPart(w: seq<text>, cut: text)
    requires w != [] && w[|w| - 1] == cut + EOW && cut != []
    ensures Stripped(w) == w[..|w| - 1] + [cut]
  {
    assert (cut + EOW)[|cut|..] == EOW && (cut + EOW)[..|cut|] == cut;
  }

  lemma StripPartOfPiece(w: seq<text>, t: text)
    requires w != [] && w[|w| - 1] != EOW && EndsWith(w[|w| - 1], EOW)
    requires Concat(w) == t + EOW && NoEmptyPiece(w)
    ensures Stripped(w) != [] && Concat(Stripped(w)) == t && NoEmptyPiece(Stripped(w))
  {
    hide Stripped, Concat;
    var n := |w| - 1;
    var cut := w[n][..|w[n]| - |EOW|];
    assert w[n] == cut + EOW && cut != [];
    hide EndsWith;
    ConcatLast(w);
    StrippedPart(w, cut);
    CutSpells(w[..n], cut, t);
  }

  lemma CutSpells(front: seq<text>, cut: text, t: text)
    requires Concat(front) + (cut + EOW) == t + EOW
    ensures Concat(front + [cut]) == t
  {
    hide Concat;
    Assoc(Concat(front), cut, EOW);
    CancelEnd(Concat(front) + cut, t, EOW);
    var w := front + [cut];
    ConcatLast(w);
    assert w[..|w| - 1] == front;
  }

  /** An admissible word is spelled by the stripped pieces, none of them empty, whatever the table. */
  lemma EncodingSpells(table: Table, word: text)
    requires Injective(table) && HasLetters(word)
    requires Valid(CString(word)) && !EndsWith(CString(word), EOW)
    ensures var pieces := Stripped(Reduced(table, Letters(CString(word)) + [EOW]));
      pieces != [] && NoEmptyPiece(pieces) && Concat(pieces) == CString(word)
  {
    hide EndsWith, NoEmptyPiece, Injective, Stripped, Letters, CString;
    var t := CString(word);
    var start := Letters(t) + [EOW];
    CStringOf(word);
    StartSpells(t);
    ReducedMeaning(table, start);
    ReducedLast(table, start);
    StripSpells(Reduced(table, start), t);
  }

  /** Pieces of which the last does not end in the separator are glued to one word. */
  lemma {:induction false} GlueTagged(pieces: seq<text>, sep: text, rest: seq<text>, curr: text)
    requires pieces != [] && !EndsWith(pieces[|pieces| - 1], sep)
    ensures Unsegmented(Tagged(pieces, sep) + rest, sep, curr) == [curr + Concat(pieces)] + Unsegmented(rest, sep, [])
    decreases |pieces|
  {
    var tokens := Tagged(pieces, sep) + rest;
    if |pieces| == 1 {
      assert tokens[1..] == rest;
      assert Concat(pieces) == pieces[0];
    } else {
      assert tokens[0] == pieces[0] + sep;
      assert tokens[1..] == Tagged(pieces[1..], sep) + rest;
      assert tokens[0][..|tokens[0]| - |sep|] == pieces[0];
      GlueTagged(pieces[1..], sep, rest, curr + pieces[0]);
      Assoc(curr, pieces[0], Concat(pieces[1..]));
    }
  }

  /** The last of the pieces is an end of what they spell. */
  lemma LastPieceEnds(pieces: seq<text>, sep: text)
    requires pieces != [] && !EndsWith(Concat(pieces), sep)
    ensures !EndsWith(pieces[|pieces| - 1], sep)
  {
    SuffixOfConcat(pieces);
    if EndsWith(pieces[|pieces| - 1], sep) {
      EndsNest(Concat(pieces), pieces[|pieces| - 1], sep);
    }
  }

  /** A word the round trip is for. */
  predicate Admissible(word: text, sep: text) {
    && HasLetters(word) && 0 !in word && Valid(word)
    && !EndsWith(word, EOW) && !EndsWith(word, sep)
  }

  /** Decoding an encoded admissible word, in front of anything, gives the word. */
  lemma GlueEncoded(table: Table, sep: text, word: text, rest: seq<text>)
    requires Injective(table) && Admissible(word, sep)
    ensures Encoded(table, sep, word).Ok?
    ensures Unsegmented(Encoded(table, sep, word).value + rest, sep, []) == [word] + Unsegmented(rest, sep, [])
  {
    hide Unsegmented, Tagged, Stripped, Letters, Reduced, NoEmptyPiece, EndsWith, HasLetters, Injective;
    CStringOf(word);
    EncodingSpells(table, word);
    var pieces := Stripped(Reduced(table, Letters(word) + [EOW]));
    LastPieceEnds(pieces, sep);
    GlueTagged(pieces, sep, rest, []);
    assert [] + Concat(pieces) == word;
  }
}
