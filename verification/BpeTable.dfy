/** src/bpe.cpp: the rank table, the choice of the next pair, and the words the merge loop ends with. */
module BpeTable {
  import opened Octets
  import opened BpeMerge

  /** Pairs with their ranks: the number of the last line that lists the pair. */
  type Table = map<Pair, nat>

  /** The table filled from the pairs of successive lines. */
  function TableOf(rules: seq<Pair>): Table {
    if rules == [] then map[] else TableOf(rules[..|rules| - 1])[rules[|rules| - 1] := |rules| - 1]
  }

  ghost predicate Distinct(rules: seq<Pair>) {
    forall i, j :: 0 <= i < j < |rules| ==> rules[i] != rules[j]
  }

  /** A rank that reaches the number of pairs is taken for "no match" by the search. */
  predicate Usable(table: Table, p: Pair) {
    p in table && table[p] < |table|
  }

  ghost predicate Injective(table: Table) {
    forall p, q :: p in table && q in table && table[p] == table[q] ==> p == q
  }

  lemma {:induction false} TableOfMeaning(rules: seq<Pair>)
    ensures forall p :: p in TableOf(rules) <==> p in rules
    ensures forall p :: p in TableOf(rules) ==> TableOf(rules)[p] < |rules| && rules[TableOf(rules)[p]] == p
    ensures forall p :: p in TableOf(rules) ==> forall k :: TableOf(rules)[p] < k < |rules| ==> rules[k] != p
  {
    if rules != [] {
      var n := |rules| - 1;
      TableOfMeaning(rules[..n]);
      assert rules == rules[..n] + [rules[n]];
    }
  }

  /** Different pairs stand on different lines. */
  lemma TableInjective(rules: seq<Pair>)
    ensures Injective(TableOf(rules))
  {
    TableOfMeaning(rules);
  }

  lemma DistinctLast(rules: seq<Pair>)
    requires rules != []
    ensures var n := |rules| - 1; Distinct(rules) <==> Distinct(rules[..n]) && rules[n] !in rules[..n]
  {}

  /** The table has as many entries as lines when, and only when, no pair is listed twice. */
  lemma {:induction false} TableSize(rules: seq<Pair>)
    ensures |TableOf(rules)| <= |rules|
    ensures |TableOf(rules)| == |rules| <==> Distinct(rules)
  {
    hide Distinct;
    if rules != [] {
      var n := |rules| - 1;
      var t := TableOf(rules[..n]);
      TableSize(rules[..n]);
      TableOfMeaning(rules[..n]);
      DistinctLast(rules);
      assert TableOf(rules).Keys == t.Keys + {rules[n]};
      assert |TableOf(rules).Keys| == if rules[n] in t.Keys then |t.Keys| else |t.Keys| + 1;
    } else {
      NoneDistinct();
    }
  }

  lemma NoneDistinct()
    ensures Distinct([])
  {}

  /** Every listed pair can be chosen exactly when no line repeats a pair. */
  lemma AllUsableIffDistinct(rules: seq<Pair>)
    ensures (forall p :: p in TableOf(rules) ==> Usable(TableOf(rules), p)) <==> Distinct(rules)
  {
    TableSize(rules);
    TableOfMeaning(rules);
    if !Distinct(rules) {
      var p := rules[|rules| - 1];
      assert p in TableOf(rules) && TableOf(rules)[p] == |rules| - 1;
      assert !Usable(TableOf(rules), p);
    }
  }

  // ---- choosing a pair

  /** The usable pair of least rank that stands in the word. */
  ghost predicate Best(table: Table, w: seq<text>, p: Pair) {
    && Usable(table, p) && Adjacent(w, p)
    && forall q :: Usable(table, q) && Adjacent(w, q) ==> table[p] <= table[q]
  }

  lemma {:induction false} BestExists(table: Table, w: seq<text>, p: Pair) returns (best: Pair)
    requires Usable(table, p) && Adjacent(w, p)
    ensures Best(table, w, best)
    decreases table[p]
  {
    if q :| Usable(table, q) && Adjacent(w, q) && table[q] < table[p] {
      best := BestExists(table, w, q);
    } else {
      best := p;
    }
  }

  lemma BestUnique(table: Table, w: seq<text>, p: Pair, q: Pair)
    requires Injective(table) && Best(table, w, p) && Best(table, w, q)
    ensures p == q
  {}

  /** No pair the search could choose stands in the word. */
  ghost predicate Normal(table: Table, w: seq<text>) {
    forall p :: Usable(table, p) ==> !Adjacent(w, p)
  }

  lemma NormalIffNoBest(table: Table, w: seq<text>)
    ensures Normal(table, w) <==> forall p :: !Best(table, w, p)
  {
    if p :| Usable(table, p) && Adjacent(w, p) {
      var best := BestExists(table, w, p);
    }
  }

  // ---- the merge loop

  /** Merges the best pair until none is left. */
  ghost function Reduced(table: Table, w: seq<text>): seq<text>
    decreases |w|
  {
    if Normal(table, w) then w
    else
      NormalIffNoBest(table, w);
      var p :| Best(table, w, p);
      MergedLength(w, p);
      Reduced(table, Merged(w, p))
  }

  /** The ranks the loop picks, in order. */
  ghost function Picks(table: Table, w: seq<text>): seq<nat>
    decreases |w|
  {
    if Normal(table, w) then []
    else
      NormalIffNoBest(table, w);
      var p :| Best(table, w, p);
      MergedLength(w, p);
      [table[p]] + Picks(table, Merged(w, p))
  }

  /** One round, for the pair the search found. */
  lemma ReducedStep(table: Table, w: seq<text>, p: Pair)
    requires Injective(table) && Best(table, w, p)
    ensures |Merged(w, p)| < |w|
    ensures Reduced(table, w) == Reduced(table, Merged(w, p))
    ensures Picks(table, w) == [table[p]] + Picks(table, Merged(w, p))
  {
    hide Merged, Adjacent, Usable, Best;
    MergedLength(w, p);
    NormalIffNoBest(table, w);
    BestIsAdjacent(table, w, p);
    forall q | Best(table, w, q) ensures q == p {
      BestUnique(table, w, p, q);
    }
  }

  lemma BestIsAdjacent(table: Table, w: seq<text>, p: Pair)
    requires Best(table, w, p)
    ensures Adjacent(w, p) && Usable(table, p)
  {}

  lemma ReducedOfNormal(table: Table, w: seq<text>)
    requires Normal(table, w)
    ensures Reduced(table, w) == w && Picks(table, w) == []
  {}

  /** What the loop ends with spells the same text and holds no usable pair. */
  lemma {:induction false} ReducedMeaning(table: Table, w: seq<text>)
    requires Injective(table)
    ensures Concat(Reduced(table, w)) == Concat(w)
    ensures Normal(table, Reduced(table, w))
    ensures NoEmptyPiece(w) ==> NoEmptyPiece(Reduced(table, w))
    decreases |w|
  {
    hide Merged, Adjacent, Usable, Best, Concat, NoEmptyPiece, Injective;
    if !Normal(table, w) {
      NormalIffNoBest(table, w);
      var p :| Best(table, w, p);
      ReducedStep(table, w, p);
      MergedConcat(w, p);
      if NoEmptyPiece(w) {
        MergedNoEmptyPiece(w, p);
      }
      ReducedMeaning(table, Merged(w, p));
    }
  }

  /** With no pair listed twice, no listed pair at all is left. */
  lemma ReducedIsNormalForm(rules: seq<Pair>, w: seq<text>)
    requires Distinct(rules)
    ensures forall p :: p in rules ==> !Adjacent(Reduced(TableOf(rules), w), p)
  {
    TableInjective(rules);
    ReducedMeaning(TableOf(rules), w);
    AllUsableIffDistinct(rules);
    TableOfMeaning(rules);
  }

  /** Listing a pair twice can leave a listed pair unmerged: the last line's rank reaches the table size. */
  lemma RepeatedLineLeavesPair(rules: seq<Pair>)
    requires !Distinct(rules)
    ensures var p := rules[|rules| - 1];
      Reduced(TableOf(rules), [p.0, p.1]) == [p.0, p.1] && Adjacent([p.0, p.1], p)
  {
    TableOfMeaning(rules);
    TableSize(rules);
    var p := rules[|rules| - 1];
    var w := [p.0, p.1];
    assert PairAt(w, p, 0);
    assert !Usable(TableOf(rules), p);
    forall q | Adjacent(w, q) ensures q == p {}
    ReducedOfNormal(TableOf(rules), w);
  }
}
