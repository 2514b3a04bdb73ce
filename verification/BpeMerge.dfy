/** src/bpe.cpp: one merge pass over the pieces of a word. */
module BpeMerge {
  import opened Octets

  type Pair = (text, text)

  function Product(p: Pair): text {
    p.0 + p.1
  }

  predicate PairAt(w: seq<text>, p: Pair, i: nat) {
    i + 1 < |w| && w[i] == p.0 && w[i + 1] == p.1
  }

  /** The pair stands side by side somewhere in the word. */
  predicate Adjacent(w: seq<text>, p: Pair) {
    exists i: nat | i < |w| :: PairAt(w, p, i)
  }

  /** Every occurrence of the pair, found from the left without overlap, becomes one piece. */
  function Merged(w: seq<text>, p: Pair): seq<text> {
    if |w| < 2 then w
    else if PairAt(w, p, 0) then [Product(p)] + Merged(w[2..], p)
    else [w[0]] + Merged(w[1..], p)
  }

  /** `std::find`: the first position from `from` on that holds `x`, or the end. */
  function FindPiece(w: seq<text>, from: nat, x: text): (j: nat)
    requires from <= |w|
    ensures from <= j <= |w| && (j < |w| ==> w[j] == x)
    ensures forall i :: from <= i < j ==> w[i] != x
    decreases |w| - from
  {
    if from == |w| || w[from] == x then from else FindPiece(w, from + 1, x)
  }

  lemma MergedUnfold(w: seq<text>, p: Pair)
    ensures |w| < 2 ==> Merged(w, p) == w
    ensures |w| >= 2 ==>
      Merged(w, p) == if PairAt(w, p, 0) then [Product(p)] + Merged(w[2..], p) else [w[0]] + Merged(w[1..], p)
  {}

  /** Pieces that are not the first half of the pair are passed. */
  lemma {:induction false} MergedPasses(w: seq<text>, p: Pair, it: nat, jt: nat)
    requires it <= jt <= |w| && forall i :: it <= i < jt ==> w[i] != p.0
    ensures Merged(w[it..], p) == w[it..jt] + Merged(w[jt..], p)
    decreases jt - it
  {
    hide Merged;
    if it < jt {
      MergedPasses(w, p, it + 1, jt);
      MergedPastOne(w, p, it);
      assert w[it..jt] == [w[it]] + w[it + 1..jt];
      Assoc([w[it]], w[it + 1..jt], Merged(w[jt..], p));
    } else {
      assert w[it..jt] == [];
    }
  }

  lemma MergedPastOne(w: seq<text>, p: Pair, it: nat)
    requires it < |w| && w[it] != p.0
    ensures Merged(w[it..], p) == [w[it]] + Merged(w[it + 1..], p)
  {
    hide Merged;
    var s := w[it..];
    MergedUnfold(s, p);
    assert s[1..] == w[it + 1..];
    if |s| < 2 {
      MergedUnfold(w[it + 1..], p);
      assert s == [w[it]] && w[it + 1..] == [];
    }
  }

  /** One round of the pass, from a position that holds the first half of the pair. */
  lemma MergedAtFirst(w: seq<text>, p: Pair, it: nat)
    requires it < |w| && w[it] == p.0
    ensures Merged(w[it..], p) ==
      if PairAt(w, p, it) then [Product(p)] + Merged(w[it + 2..], p) else [w[it]] + Merged(w[it + 1..], p)
  {
    var s := w[it..];
    assert s[1..] == w[it + 1..];
    if PairAt(w, p, it) {
      assert s[2..] == w[it + 2..];
    } else if |s| < 2 {
      assert s == [w[it]] && w[it + 1..] == [];
    }
  }

  /** What the pass ends with when `done` is already written and the iterator is at `it`. */
  function PassFrom(done: seq<text>, w: seq<text>, it: nat, p: Pair): seq<text>
    requires it <= |w|
  {
    done + Merged(w[it..], p)
  }

  lemma PassEnds(done: seq<text>, w: seq<text>, p: Pair)
    ensures PassFrom([], w, 0, p) == Merged(w, p)
    ensures PassFrom(done, w, |w|, p) == done
  {
    assert w[0..] == w && w[|w|..] == [];
    assert [] + Merged(w, p) == Merged(w, p) && done + [] == done;
    MergedUnfold([], p);
  }

  /** Taking over the pieces in front of the first half of the pair. */
  lemma PassCopies(done: seq<text>, w: seq<text>, it: nat, jt: nat, p: Pair)
    requires it <= jt <= |w| && forall i :: it <= i < jt ==> w[i] != p.0
    ensures PassFrom(done, w, it, p) == PassFrom(done + w[it..jt], w, jt, p)
  {
    hide Merged;
    MergedPasses(w, p, it, jt);
    Assoc(done, w[it..jt], Merged(w[jt..], p));
  }

  /** One round of the pass, from a position that holds the first half of the pair. */
  lemma PassStep(done: seq<text>, w: seq<text>, it: nat, p: Pair)
    requires it < |w| && w[it] == p.0
    ensures it + 1 < |w| && w[it + 1] == p.1 ==>
      PassFrom(done, w, it, p) == PassFrom(done + [p.0 + p.1], w, it + 2, p)
    ensures it + 1 == |w| || w[it + 1] != p.1 ==>
      PassFrom(done, w, it, p) == PassFrom(done + [w[it]], w, it + 1, p)
  {
    hide Merged;
    MergedAtFirst(w, p, it);
    if it + 1 < |w| && w[it + 1] == p.1 {
      Assoc(done, [p.0 + p.1], Merged(w[it + 2..], p));
    } else {
      Assoc(done, [w[it]], Merged(w[it + 1..], p));
    }
  }

  /** The loop over the pieces, with its two iterators. */
  method MergePass(vWord: seq<text>, bigram: Pair) returns (newWord: seq<text>)
    ensures newWord == Merged(vWord, bigram)
  {
    hide *;
    newWord := [];
    var it := 0;
    PassEnds([], vWord, bigram);
    while it != |vWord|
      invariant it <= |vWord|
      invariant PassFrom(newWord, vWord, it, bigram) == Merged(vWord, bigram)
      decreases |vWord| - it
    {
      var jt := FindPiece(vWord, it, bigram.0);
      PassCopies(newWord, vWord, it, jt, bigram);
      newWord := CopyPieces(vWord, it, jt, newWord);
      if jt == |vWord| {
        PassEnds(newWord, vWord, bigram);
        return;
      }
      it := jt;
      PassStep(newWord, vWord, it, bigram);
      if vWord[it] == bigram.0 && it + 1 != |vWord| && vWord[it + 1] == bigram.1 {
        newWord := newWord + [bigram.0 + bigram.1];
        it := it + 2;
      } else {
        newWord := newWord + [vWord[it]];
        it := it + 1;
      }
    }
    PassEnds(newWord, vWord, bigram);
  }

  /** The pieces in front of the found one are taken over. */
  method CopyPieces(vWord: seq<text>, first: nat, last: nat, newWord: seq<text>) returns (longer: seq<text>)
    requires first <= last <= |vWord|
    ensures longer == newWord + vWord[first..last]
  {
    longer := newWord;
    for i := first to last
      invariant longer == newWord + vWord[first..i]
    {
      longer := longer + [vWord[i]];
    }
  }

  lemma NothingMerged(p: Pair)
    ensures Merged([], p) == []
  {}

  // ---- what a pass keeps and what it changes

  /** The text spelled by the pieces stays. */
  lemma {:induction false} MergedConcat(w: seq<text>, p: Pair)
    ensures Concat(Merged(w, p)) == Concat(w)
    decreases |w|
  {
    if |w| < 2 {
    } else if PairAt(w, p, 0) {
      MergedConcat(w[2..], p);
      assert w == [w[0], w[1]] + w[2..];
      assert Concat(w) == w[0] + (w[1] + Concat(w[2..])) by { assert w[1..][1..] == w[2..]; }
      Assoc(w[0], w[1], Concat(w[2..]));
      assert ([Product(p)] + Merged(w[2..], p))[1..] == Merged(w[2..], p);
    } else {
      MergedConcat(w[1..], p);
      assert ([w[0]] + Merged(w[1..], p))[1..] == Merged(w[1..], p);
    }
  }

  /** The first piece stays or is the product. */
  lemma MergedHead(w: seq<text>, p: Pair)
    requires w != []
    ensures Merged(w, p) != []
    ensures Merged(w, p)[0] == if PairAt(w, p, 0) then Product(p) else w[0]
  {}

  /** A pass shortens the word exactly when the pair stands in it, and changes nothing otherwise. */
  lemma {:induction false} MergedLength(w: seq<text>, p: Pair)
    ensures |Merged(w, p)| <= |w|
    ensures Adjacent(w, p) ==> |Merged(w, p)| < |w|
    ensures !Adjacent(w, p) ==> Merged(w, p) == w
    decreases |w|
  {
    if |w| < 2 {
    } else if PairAt(w, p, 0) {
      MergedLength(w[2..], p);
    } else {
      MergedLength(w[1..], p);
      AdjacentTail(w, p);
      assert w == [w[0]] + w[1..];
    }
  }

  lemma AdjacentTail(w: seq<text>, p: Pair)
    requires w != []
    ensures Adjacent(w, p) <==> PairAt(w, p, 0) || Adjacent(w[1..], p)
  {
    if i: nat :| i < |w| && PairAt(w, p, i) {
      if i > 0 {
        assert PairAt(w[1..], p, i - 1);
      }
    }
    if i: nat :| i < |w[1..]| && PairAt(w[1..], p, i) {
      assert PairAt(w, p, i + 1);
    }
  }

  /** Where a neighbourhood after the pass comes from: it was there before and is not the pair, or the product took the
      place of the pair in a neighbourhood on its right, on its left, or on both sides. */
  predicate Descends(w: seq<text>, p: Pair, q: Pair) {
    || (q != p && Adjacent(w, q))
    || (q.0 == Product(p) && Adjacent(w, (p.1, q.1)))
    || (q.1 == Product(p) && (q.0, p.0) != p && Adjacent(w, (q.0, p.0)))
    || (q == (Product(p), Product(p)) && Adjacent(w, (p.1, p.0)))
  }

  lemma AdjacentBehind(w: seq<text>, k: nat, q: Pair)
    requires k <= |w| && Adjacent(w[k..], q)
    ensures Adjacent(w, q)
  {
    var i: nat :| i < |w[k..]| && PairAt(w[k..], q, i);
    assert PairAt(w, q, k + i);
  }

  lemma DescendsBehind(w: seq<text>, k: nat, p: Pair, q: Pair)
    requires k <= |w| && Descends(w[k..], p, q)
    ensures Descends(w, p, q)
  {
    hide Adjacent;
    forall r | Adjacent(w[k..], r) ensures Adjacent(w, r) {
      AdjacentBehind(w, k, r);
    }
  }

  lemma NextToEachOther(w: seq<text>, i: nat)
    requires i + 1 < |w|
    ensures Adjacent(w, (w[i], w[i + 1]))
  {
    assert PairAt(w, (w[i], w[i + 1]), i);
  }

  /** A neighbourhood after the pass was there before and is not the pair, or the product takes part in it. */
  lemma {:induction false} AdjacentAfter(w: seq<text>, p: Pair, q: Pair)
    requires Adjacent(Merged(w, p), q)
    ensures Descends(w, p, q)
    decreases |w|
  {
    hide Adjacent, Merged, Descends;
    var m := Merged(w, p);
    MergedUnfold(w, p);
    if |w| < 2 {
      ShortHasNoPair(w, q);
    } else {
      var k := if PairAt(w, p, 0) then 2 else 1;
      var rest := Merged(w[k..], p);
      assert m[1..] == rest;
      AdjacentTail(m, q);
      if Adjacent(rest, q) {
        AdjacentAfter(w[k..], p, q);
        DescendsBehind(w, k, p, q);
      } else {
        FrontDescends(w, p, q);
      }
    }
  }

  /** The same for the neighbourhood at the front. */
  lemma FrontDescends(w: seq<text>, p: Pair, q: Pair)
    requires |w| >= 2 && PairAt(Merged(w, p), q, 0)
    ensures Descends(w, p, q)
  {
    hide Adjacent, Merged;
    MergedUnfold(w, p);
    var k := if PairAt(w, p, 0) then 2 else 1;
    if w[k..] == [] {
      NothingMerged(p);
    } else {
      NextToEachOther(w, k - 1);
      MergedHead(w[k..], p);
    }
  }

  lemma ShortHasNoPair(w: seq<text>, q: Pair)
    requires |w| < 2
    ensures !Adjacent(w, q)
  {}

  /** No occurrence of the pair is left, also when its two halves are equal. */
  lemma NoneLeft(w: seq<text>, p: Pair)
    requires p.0 != [] && p.1 != []
    ensures !Adjacent(Merged(w, p), p)
  {
    if Adjacent(Merged(w, p), p) {
      AdjacentAfter(w, p, p);
    }
  }

  predicate NoEmptyPiece(w: seq<text>) {
    forall i :: 0 <= i < |w| ==> w[i] != []
  }

  lemma {:induction false} MergedNoEmptyPiece(w: seq<text>, p: Pair)
    requires NoEmptyPiece(w)
    ensures NoEmptyPiece(Merged(w, p))
    decreases |w|
  {
    if |w| < 2 {
    } else if PairAt(w, p, 0) {
      MergedNoEmptyPiece(w[2..], p);
    } else {
      MergedNoEmptyPiece(w[1..], p);
    }
  }

  /** Around an occurrence of a pair of different halves the two sides are merged apart. */
  lemma {:induction false} MergedAround(x: seq<text>, p: Pair, y: seq<text>)
    requires p.0 != p.1
    ensures Merged(x + [p.0, p.1] + y, p) == Merged(x, p) + [Product(p)] + Merged(y, p)
    decreases |x|
  {
    hide Merged, PairAt;
    var w := x + [p.0, p.1] + y;
    MergedUnfold(w, p);
    MergedUnfold(x, p);
    AroundFront(x, p, y);
    if x == [] {
    } else if PairAt(x, p, 0) {
      MergedAround(x[2..], p, y);
      Assoc3([Product(p)], Merged(x[2..], p), [Product(p)], Merged(y, p));
    } else {
      MergedAround(x[1..], p, y);
      Assoc3([x[0]], Merged(x[1..], p), [Product(p)], Merged(y, p));
      if |x| == 1 {
        NothingMerged(p);
      }
    }
  }

  /** What stands at the front of a word around an occurrence, and behind it. */
  lemma AroundFront(x: seq<text>, p: Pair, y: seq<text>)
    requires p.0 != p.1
    ensures var w := x + [p.0, p.1] + y;
      && (x == [] ==> PairAt(w, p, 0) && w[2..] == y)
      && (x != [] ==> w[0] == x[0] && w[1..] == x[1..] + [p.0, p.1] + y && PairAt(w, p, 0) == PairAt(x, p, 0))
      && (PairAt(x, p, 0) ==> |x| >= 2 && w[2..] == x[2..] + [p.0, p.1] + y)
      && (|x| == 1 ==> x[1..] == [] && x == [x[0]])
  {}

  function Repeated(x: text, n: nat): seq<text> {
    if n == 0 then [] else [x] + Repeated(x, n - 1)
  }

  /** In a run of equal pieces a pair of two equal halves is merged two by two, and an odd last piece stays. */
  lemma {:induction false} MergedRun(x: text, n: nat, y: seq<text>)
    requires y == [] || y[0] != x
    ensures Merged(Repeated(x, n) + y, (x, x)) == Repeated(x + x, n / 2) + Repeated(x, n % 2) + Merged(y, (x, x))
  {
    hide Repeated, Merged;
    RepeatedUnfold(x, n);
    if n == 0 {
      RepeatedNone(x);
      RepeatedNone(x + x);
      assert [] + y == y;
    } else if n == 1 {
      RepeatedNone(x);
      RepeatedNone(x + x);
      MergedLone(x, y);
    } else {
      RepeatedTwo(x, n);
      Assoc([x, x], Repeated(x, n - 2), y);
      MergedTwo(x, Repeated(x, n - 2) + y);
      MergedRun(x, n - 2, y);
      TwoFewer(x, n);
      Assoc3([x + x], Repeated(x + x, (n - 2) / 2), Repeated(x, n % 2), Merged(y, (x, x)));
    }
  }

  lemma RepeatedNone(x: text)
    ensures Repeated(x, 0) == [] && Repeated(x, 1) == [x]
  {}

  lemma TwoFewer(x: text, n: nat)
    requires n >= 2
    ensures Repeated(x + x, n / 2) == [x + x] + Repeated(x + x, (n - 2) / 2) && n % 2 == (n - 2) % 2
  {
    hide Repeated;
    Halves(n);
    RepeatedUnfold(x + x, n / 2);
  }

  lemma Halves(n: nat)
    requires n >= 2
    ensures (n - 2) / 2 == n / 2 - 1 && (n - 2) % 2 == n % 2
  {}

  lemma MergedTwo(x: text, rest: seq<text>)
    ensures Merged([x, x] + rest, (x, x)) == [x + x] + Merged(rest, (x, x))
  {
    assert ([x, x] + rest)[2..] == rest;
  }

  lemma RepeatedUnfold(x: text, n: nat)
    ensures Repeated(x, n) == if n == 0 then [] else [x] + Repeated(x, n - 1)
  {}

  lemma RepeatedTwo(x: text, n: nat)
    requires n >= 2
    ensures Repeated(x, n) == [x, x] + Repeated(x, n - 2)
  {
    hide Repeated;
    RepeatedUnfold(x, n);
    RepeatedUnfold(x, n - 1);
    assert [x] + ([x] + Repeated(x, n - 2)) == [x, x] + Repeated(x, n - 2);
  }

  lemma MergedLone(x: text, y: seq<text>)
    requires y == [] || y[0] != x
    ensures Merged([x] + y, (x, x)) == [x] + Merged(y, (x, x))
  {
    assert ([x] + y)[1..] == y;
  }
}
