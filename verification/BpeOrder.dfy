/** The merge loop against the simpler encoder that applies the rules once each, in order. */
module BpeOrder {
  import opened Octets
  import opened BpeMerge
  import opened BpeTable

  /** One merge pass for every rule, first to last. */
  function Folded(rules: seq<Pair>, w: seq<text>): seq<text> {
    if rules == [] then w else Folded(rules[1..], Merged(w, rules[0]))
  }

  /** No rule is built from what it produces itself or what a later rule produces. */
  ghost predicate Stratified(rules: seq<Pair>) {
    forall i, j :: 0 <= i <= j < |rules| ==> rules[i].0 != Product(rules[j]) && rules[i].1 != Product(rules[j])
  }

  /** The first `k` rules do not apply. */
  ghost predicate Exhausted(rules: seq<Pair>, k: nat, w: seq<text>)
    requires k <= |rules|
  {
    forall i :: 0 <= i < k ==> !Adjacent(w, rules[i])
  }

  lemma RanksInOrder(rules: seq<Pair>)
    requires Distinct(rules)
    ensures Injective(TableOf(rules)) && |TableOf(rules)| == |rules|
    ensures forall p :: p in TableOf(rules) <==> p in rules
    ensures forall i :: 0 <= i < |rules| ==> rules[i] in TableOf(rules) && TableOf(rules)[rules[i]] == i
  {
    TableSize(rules);
    TableInjective(rules);
    TableOfMeaning(rules);
  }

  /** The first rule that applies is the one the search picks. */
  lemma FirstIsBest(rules: seq<Pair>, k: nat, w: seq<text>)
    requires Distinct(rules) && k < |rules| && Exhausted(rules, k, w) && Adjacent(w, rules[k])
    ensures Best(TableOf(rules), w, rules[k]) && TableOf(rules)[rules[k]] == k
  {
    hide Adjacent, TableOf, Injective;
    RanksInOrder(rules);
    forall q | Usable(TableOf(rules), q) && Adjacent(w, q) ensures k <= TableOf(rules)[q] {
      assert q in rules;
    }
  }

  /** No half of a rule is empty. */
  ghost predicate FullHalves(rules: seq<Pair>) {
    forall i :: 0 <= i < |rules| ==> rules[i].0 != [] && rules[i].1 != []
  }

  /** Where a rule uses what a later rule produces, on its left, on its right or on both sides, some rule before the
      later one takes the parts apart otherwise. */
  ghost predicate Guarded(rules: seq<Pair>) {
    forall i, j :: 0 <= i < j < |rules| ==> GuardedAt(rules, i, j)
  }

  ghost predicate GuardedAt(rules: seq<Pair>, i: nat, j: nat)
    requires i < j < |rules|
  {
    var p := rules[j];
    && (rules[i].0 == Product(p) ==> (p.1, rules[i].1) in rules[..j])
    && (rules[i].1 == Product(p) ==> (rules[i].0, p.0) in rules[..j + 1])
    && (rules[i] == (Product(p), Product(p)) ==> (p.1, p.0) in rules[..j])
  }

  lemma StratifiedIsGuarded(rules: seq<Pair>)
    requires Stratified(rules)
    ensures Guarded(rules) && FullHalves(rules)
  {
    forall i | 0 <= i < |rules| ensures rules[i].0 != [] && rules[i].1 != [] {
      assert rules[i].0 != Product(rules[i]) && rules[i].1 != Product(rules[i]);
      assert rules[i].0 + [] == rules[i].0 && [] + rules[i].1 == rules[i].1;
    }
  }

  lemma ExhaustedHas(rules: seq<Pair>, k: nat, w: seq<text>, q: Pair)
    requires k <= |rules| && Exhausted(rules, k, w) && q in rules[..k]
    ensures !Adjacent(w, q)
  {}

  /** In a guarded table, merging a rule makes no earlier rule, and not the rule itself, apply again. */
  lemma StaysExhausted(rules: seq<Pair>, k: nat, w: seq<text>)
    requires Guarded(rules) && FullHalves(rules) && k < |rules| && Exhausted(rules, k, w)
    ensures Exhausted(rules, k + 1, Merged(w, rules[k]))
  {
    hide Adjacent, Merged;
    forall i | 0 <= i < k + 1 ensures !Adjacent(Merged(w, rules[k]), rules[i]) {
      if Adjacent(Merged(w, rules[k]), rules[i]) {
        AdjacentAfter(w, rules[k], rules[i]);
        GuardHolds(rules, i, k, w);
      }
    }
  }

  /** No neighbourhood of an earlier rule, or of the rule itself, comes from one that is exhausted. */
  lemma GuardHolds(rules: seq<Pair>, i: nat, k: nat, w: seq<text>)
    requires Guarded(rules) && FullHalves(rules) && i <= k < |rules| && Exhausted(rules, k, w)
    ensures !Descends(w, rules[k], rules[i])
  {
    hide Adjacent;
    var p, q := rules[k], rules[i];
    assert |Product(p)| == |p.0| + |p.1|;
    forall r | r in rules[..k] ensures !Adjacent(w, r) {
      ExhaustedHas(rules, k, w, r);
    }
    assert rules[..k + 1] == rules[..k] + [p];
    if i < k {
      assert GuardedAt(rules, i, k);
      assert rules[..k][i] == q;
    }
  }

  ghost predicate Increasing(s: seq<nat>, from: nat) {
    && (forall i :: 0 <= i < |s| ==> from <= s[i])
    && (forall i, j :: 0 <= i < j < |s| ==> s[i] < s[j])
  }

  /** The rank picked first is that of the best pair. */
  lemma FirstPick(table: Table, w: seq<text>) returns (p: Pair)
    requires Injective(table) && !Normal(table, w)
    ensures Best(table, w, p) && Picks(table, w) == [table[p]] + Picks(table, Merged(w, p))
  {
    NormalIffNoBest(table, w);
    p :| Best(table, w, p);
    ReducedStep(table, w, p);
  }

  lemma AllExhaustedIsNormal(rules: seq<Pair>, w: seq<text>)
    requires Exhausted(rules, |rules|, w)
    ensures Normal(TableOf(rules), w)
  {
    TableOfMeaning(rules);
    forall p | Usable(TableOf(rules), p) ensures !Adjacent(w, p) {
      assert p in rules;
    }
  }

  /** When only ranks from `k` on will be picked, the rules before `k` do not apply. */
  lemma PicksExhaust(rules: seq<Pair>, k: nat, w: seq<text>)
    requires Distinct(rules) && k <= |rules| && Increasing(Picks(TableOf(rules), w), k)
    ensures Exhausted(rules, k, w)
  {
    hide Adjacent, Merged, TableOf, Picks;
    var t := TableOf(rules);
    RanksInOrder(rules);
    if !Normal(t, w) {
      var p := FirstPick(t, w);
      assert Picks(t, w)[0] == t[p];
    }
  }

  /** When the rule `k` does not apply, only ranks behind `k` will be picked. */
  lemma PicksBehind(rules: seq<Pair>, k: nat, w: seq<text>)
    requires Distinct(rules) && k < |rules| && Increasing(Picks(TableOf(rules), w), k) && !Adjacent(w, rules[k])
    ensures Increasing(Picks(TableOf(rules), w), k + 1)
  {
    hide Adjacent, Merged, TableOf;
    var t := TableOf(rules);
    RanksInOrder(rules);
    if Normal(t, w) {
      ReducedOfNormal(t, w);
    } else {
      var p := FirstPick(t, w);
      assert Picks(t, w)[0] == t[p] != k;
    }
  }

  /** Whenever the loop picks increasing ranks, on whatever word and table, one pass per rule gives the same pieces. */
  lemma {:induction false} IncreasingIsFold(rules: seq<Pair>, k: nat, w: seq<text>)
    requires Distinct(rules) && k <= |rules| && Increasing(Picks(TableOf(rules), w), k)
    ensures Reduced(TableOf(rules), w) == Folded(rules[k..], w)
    decreases |rules| - k
  {
    hide Adjacent, Merged, TableOf, Distinct, Reduced, Picks, Best;
    var t := TableOf(rules);
    PicksExhaust(rules, k, w);
    if k == |rules| {
      AllExhaustedIsNormal(rules, w);
      ReducedOfNormal(t, w);
    } else {
      assert rules[k..][1..] == rules[k + 1..];
      MergedLength(w, rules[k]);
      if Adjacent(w, rules[k]) {
        var m := Merged(w, rules[k]);
        FirstIsBest(rules, k, w);
        TableInjective(rules);
        ReducedStep(t, w, rules[k]);
        assert Picks(t, w)[1..] == Picks(t, m);
        IncreasingTail(Picks(t, w));
        IncreasingIsFold(rules, k + 1, m);
      } else {
        PicksBehind(rules, k, w);
        IncreasingIsFold(rules, k + 1, w);
      }
    }
  }

  lemma IncreasingTail(s: seq<nat>)
    requires s != [] && Increasing(s, s[0])
    ensures Increasing(s[1..], s[0] + 1)
  {}

  /** In a guarded table every pick is behind the one before. */
  lemma {:induction false} GuardedPicks(rules: seq<Pair>, k: nat, w: seq<text>)
    requires Distinct(rules) && Guarded(rules) && FullHalves(rules) && k <= |rules| && Exhausted(rules, k, w)
    ensures Increasing(Picks(TableOf(rules), w), k)
    decreases |rules| - k
  {
    hide Adjacent, Merged, TableOf, Distinct, Guarded, FullHalves, Picks, Best;
    var t := TableOf(rules);
    if k == |rules| {
      AllExhaustedIsNormal(rules, w);
      ReducedOfNormal(t, w);
    } else if Adjacent(w, rules[k]) {
      StaysExhausted(rules, k, w);
      GuardedPicks(rules, k + 1, Merged(w, rules[k]));
      FirstIsBest(rules, k, w);
      TableInjective(rules);
      ReducedStep(t, w, rules[k]);
    } else {
      GuardedPicks(rules, k + 1, w);
    }
  }

  /** Every rank the loop picks on the word is behind the one before. */
  ghost predicate PicksInOrder(rules: seq<Pair>, w: seq<text>) {
    Increasing(Picks(TableOf(rules), w), 0)
  }

  lemma InOrderAgrees(rules: seq<Pair>, w: seq<text>)
    requires Distinct(rules)
    ensures PicksInOrder(rules, w) ==> Reduced(TableOf(rules), w) == Folded(rules, w)
  {
    if PicksInOrder(rules, w) {
      IncreasingIsFold(rules, 0, w);
      assert rules[0..] == rules;
    }
  }

  /** For a guarded table the loop picks strictly increasing ranks and agrees with one pass per rule. */
  lemma GuardedIsFold(rules: seq<Pair>, w: seq<text>)
    requires Distinct(rules) && Guarded(rules) && FullHalves(rules)
    ensures PicksInOrder(rules, w)
    ensures Reduced(TableOf(rules), w) == Folded(rules, w)
  {
    hide Adjacent, TableOf, Guarded, FullHalves, Distinct, Reduced, Folded, Picks, Increasing;
    GuardedPicks(rules, 0, w);
    InOrderAgrees(rules, w);
  }

  /** So it is when no rule is built from what it or a later rule produces. */
  lemma LoopIsFold(rules: seq<Pair>, w: seq<text>)
    requires Distinct(rules) && Stratified(rules)
    ensures PicksInOrder(rules, w)
    ensures Reduced(TableOf(rules), w) == Folded(rules, w)
  {
    StratifiedIsGuarded(rules);
    GuardedIsFold(rules, w);
  }

  // ---- tables outside the condition

  /** The fold passes the rules that do not apply. */
  lemma {:induction false} FoldedSkips(rules: seq<Pair>, k: nat, w: seq<text>)
    requires k <= |rules| && Exhausted(rules, k, w)
    ensures Folded(rules, w) == Folded(rules[k..], w)
    decreases k
  {
    hide Adjacent, Merged;
    if k == 0 {
      assert rules[0..] == rules;
    } else {
      MergedLength(w, rules[0]);
      FoldedSkips(rules[1..], k - 1, w);
      assert rules[1..][k - 1..] == rules[k..];
    }
  }

  lemma FoldedToEnd(rules: seq<Pair>, w: seq<text>)
    requires Exhausted(rules, |rules|, w)
    ensures Folded(rules, w) == w
  {
    FoldedSkips(rules, |rules|, w);
    assert rules[|rules|..] == [];
  }

  /** The loop merges rule `j` and then comes back to rule `i`; the fold has passed rule `i` and does not. */
  lemma ComesBack(rules: seq<Pair>, i: nat, j: nat, w: seq<text>, w1: seq<text>)
    requires Distinct(rules) && i < j < |rules|
    requires Exhausted(rules, j, w) && Adjacent(w, rules[j]) && Merged(w, rules[j]) == w1
    requires |w1| == 2 && (w1[0], w1[1]) == rules[i]
    ensures Reduced(TableOf(rules), w) == [Product(rules[i])] && Folded(rules, w) == w1
  {
    hide TableOf, Distinct, Merged, Adjacent, Best;
    var t := TableOf(rules);
    var done := [Product(rules[i])];
    TableInjective(rules);
    FirstIsBest(rules, j, w);
    ReducedStep(t, w, rules[j]);
    OnlyPair(w1);
    PairsDiffer(rules);
    FirstIsBest(rules, i, w1);
    ReducedStep(t, w1, rules[i]);
    MergedPair(rules[i]);
    assert w1 == [rules[i].0, rules[i].1];
    forall p | Usable(t, p) ensures !Adjacent(done, p) {
      ShortHasNoPair(done, p);
    }
    ReducedOfNormal(t, done);
    FoldedSkips(rules, j, w);
    assert rules[j..][1..] == rules[j + 1..];
    FoldedToEnd(rules[j + 1..], w1);
  }

  lemma PairsDiffer(rules: seq<Pair>)
    requires Distinct(rules)
    ensures forall i, j :: 0 <= i < |rules| && 0 <= j < |rules| && i != j ==> rules[i] != rules[j]
  {}

  /** In a word of two pieces only these two stand side by side. */
  lemma OnlyPair(w: seq<text>)
    requires |w| == 2
    ensures forall p :: Adjacent(w, p) <==> p == (w[0], w[1])
  {
    assert PairAt(w, (w[0], w[1]), 0);
  }

  lemma MergedPair(p: Pair)
    ensures Merged([p.0, p.1], p) == [Product(p)]
  {
    assert [p.0, p.1][2..] == [];
  }

  /** In a word of three pieces only neighbours stand side by side. */
  lemma OnlyPairs(w: seq<text>)
    requires |w| == 3
    ensures forall p :: Adjacent(w, p) <==> p == (w[0], w[1]) || p == (w[1], w[2])
  {
    assert PairAt(w, (w[0], w[1]), 0) && PairAt(w, (w[1], w[2]), 1);
  }

  /** A rule whose first half a later rule produces, with no rule before that one to take the word apart otherwise:
      on the word of its three parts the loop ends with one piece and the fold with two. */
  lemma LaterFirstHalf(rules: seq<Pair>, i: nat, j: nat)
    requires Distinct(rules) && i < j < |rules|
    requires rules[i].0 == Product(rules[j]) && (rules[j].1, rules[i].1) !in rules[..j]
    ensures var w := [rules[j].0, rules[j].1, rules[i].1];
      Reduced(TableOf(rules), w) == [Concat(w)] && Folded(rules, w) == [rules[i].0, rules[i].1]
  {
    hide TableOf, Distinct, Adjacent, Reduced, Folded, Merged;
    var a, b, c := rules[j].0, rules[j].1, rules[i].1;
    var w := [a, b, c];
    OnlyPairs(w);
    PairsDiffer(rules);
    assert forall m :: 0 <= m < j ==> rules[m] == rules[..j][m];
    MergedFirst(rules[j], c);
    ComesBack(rules, i, j, w, [rules[i].0, c]);
    assert Concat(w) == Product(rules[i]) by { ConcatThree(a, b, c); }
  }

  lemma MergedFirst(p: Pair, c: text)
    ensures Merged([p.0, p.1, c], p) == [Product(p), c]
  {
    assert [p.0, p.1, c][2..] == [c];
    assert Merged([c], p) == [c];
  }

  lemma MergedSecond(c: text, p: Pair)
    requires (c, p.0) != p
    ensures Merged([c, p.0, p.1], p) == [c, Product(p)]
  {
    assert [c, p.0, p.1][1..] == [p.0, p.1];
    MergedPair(p);
  }

  lemma ConcatThree(a: text, b: text, c: text)
    ensures Concat([a, b, c]) == a + b + c == a + (b + c)
  {
    assert [a, b, c][1..] == [b, c] && [b, c][1..] == [c];
    assert Concat([c]) == c;
  }

  /** The same for the second half. */
  lemma LaterSecondHalf(rules: seq<Pair>, i: nat, j: nat)
    requires Distinct(rules) && i < j < |rules|
    requires rules[i].1 == Product(rules[j]) && (rules[i].0, rules[j].0) !in rules[..j + 1]
    ensures var w := [rules[i].0, rules[j].0, rules[j].1];
      Reduced(TableOf(rules), w) == [Concat(w)] && Folded(rules, w) == [rules[i].0, rules[i].1]
  {
    hide TableOf, Distinct, Adjacent, Reduced, Folded, Merged;
    var c, a, b := rules[i].0, rules[j].0, rules[j].1;
    var w := [c, a, b];
    OnlyPairs(w);
    PairsDiffer(rules);
    assert forall m :: 0 <= m <= j ==> rules[m] == rules[..j + 1][m];
    MergedSecond(c, rules[j]);
    ComesBack(rules, i, j, w, [c, rules[i].1]);
    assert Concat(w) == Product(rules[i]) by { ConcatThree(c, a, b); }
  }

  /** The same for a rule that joins two products of the later rule: on the parts of both, one after the other. */
  lemma LaterBothHalves(rules: seq<Pair>, i: nat, j: nat)
    requires Distinct(rules) && i < j < |rules|
    requires rules[i] == (Product(rules[j]), Product(rules[j])) && (rules[j].1, rules[j].0) !in rules[..j]
    ensures var w := [rules[j].0, rules[j].1, rules[j].0, rules[j].1];
      Reduced(TableOf(rules), w) == [Concat(w)] && Folded(rules, w) == [rules[i].0, rules[i].1]
  {
    hide TableOf, Distinct, Adjacent, Reduced, Folded, Merged;
    var a, b := rules[j].0, rules[j].1;
    var w := [a, b, a, b];
    OnlyPairsOfFour(w);
    PairsDiffer(rules);
    assert forall m :: 0 <= m < j ==> rules[m] == rules[..j][m];
    MergedTwice(rules[j]);
    ComesBack(rules, i, j, w, [rules[i].0, rules[i].1]);
    ConcatFour(a, b, a, b);
  }

  /** In a word of four pieces only neighbours stand side by side. */
  lemma OnlyPairsOfFour(w: seq<text>)
    requires |w| == 4
    ensures forall p :: Adjacent(w, p) <==> p == (w[0], w[1]) || p == (w[1], w[2]) || p == (w[2], w[3])
  {
    assert PairAt(w, (w[0], w[1]), 0) && PairAt(w, (w[1], w[2]), 1) && PairAt(w, (w[2], w[3]), 2);
  }

  lemma MergedTwice(p: Pair)
    ensures Merged([p.0, p.1, p.0, p.1], p) == [Product(p), Product(p)]
  {
    assert [p.0, p.1, p.0, p.1][2..] == [p.0, p.1];
    MergedPair(p);
  }

  lemma ConcatFour(a: text, b: text, c: text, d: text)
    ensures Concat([a, b, c, d]) == (a + b) + (c + d)
  {
    assert [a, b, c, d][1..] == [b, c, d];
    ConcatThree(b, c, d);
    Assoc(a, b, c + d);
  }

  /** Where the guard is missing there is a word on which loop and fold differ. */
  lemma UnguardedDiffers(rules: seq<Pair>, i: nat, j: nat) returns (w: seq<text>)
    requires Distinct(rules) && i < j < |rules| && !GuardedAt(rules, i, j)
    ensures Reduced(TableOf(rules), w) == [Concat(w)] && Folded(rules, w) == [rules[i].0, rules[i].1]
  {
    hide TableOf, Distinct, Reduced, Folded;
    var p := rules[j];
    if rules[i].0 == Product(p) && (p.1, rules[i].1) !in rules[..j] {
      LaterFirstHalf(rules, i, j);
      w := [p.0, p.1, rules[i].1];
    } else if rules[i].1 == Product(p) && (rules[i].0, p.0) !in rules[..j + 1] {
      LaterSecondHalf(rules, i, j);
      w := [rules[i].0, p.0, p.1];
    } else {
      LaterBothHalves(rules, i, j);
      w := [p.0, p.1, p.0, p.1];
    }
  }

  /** The exact condition, over all tables with distinct lines: loop and fold agree on all words just when the table is
      guarded, and just then the loop picks increasing ranks on all words. */
  lemma AgreeIffGuarded(rules: seq<Pair>)
    requires Distinct(rules) && FullHalves(rules)
    ensures (forall w :: Reduced(TableOf(rules), w) == Folded(rules, w)) <==> Guarded(rules)
    ensures (forall w :: PicksInOrder(rules, w)) <==> Guarded(rules)
  {
    hide TableOf, Distinct, FullHalves, Reduced, Folded, PicksInOrder, GuardedAt;
    if Guarded(rules) {
      forall w ensures Reduced(TableOf(rules), w) == Folded(rules, w) && PicksInOrder(rules, w) {
        GuardedIsFold(rules, w);
      }
    } else {
      var i, j :| 0 <= i < j < |rules| && !GuardedAt(rules, i, j);
      var w := UnguardedDiffers(rules, i, j);
      assert |Reduced(TableOf(rules), w)| == 1 && |Folded(rules, w)| == 2;
      InOrderAgrees(rules, w);
    }
  }

  const A: text := [0x61]
  const B: text := [0x62]
  const C: text := [0x63]

  /** The smallest table of this kind: rule 0 needs what rule 1 produces. */
  lemma UnstratifiedDiffers()
    ensures var rules := [(A + B, C), (A, B)];
      && Distinct(rules) && !Stratified(rules)
      && Reduced(TableOf(rules), [A, B, C]) == [A + B + C]
      && Folded(rules, [A, B, C]) == [A + B, C]
  {
    var rules := [(A + B, C), (A, B)];
    assert rules[0].0 == Product(rules[1]);
    assert rules[..1] == [rules[0]];
    LaterFirstHalf(rules, 0, 1);
    ConcatThree(A, B, C);
  }

  /** A table with a guard: rule 0 uses what rule 2 produces, and loop and fold agree on all words all the same. */
  lemma GuardedAgrees()
    ensures var rules := [(A + B, C), (B, C), (A, B)];
      && Distinct(rules) && !Stratified(rules)
      && forall w :: Reduced(TableOf(rules), w) == Folded(rules, w)
  {
    hide TableOf, Reduced, Folded, Picks, Increasing;
    var rules := [(A + B, C), (B, C), (A, B)];
    assert rules[0].0 == Product(rules[2]);
    assert rules[..2][1] == (B, C);
    assert (A + B)[0] == 0x61 && (B + C)[0] == 0x62 && |A + B| == |B + C| == 2;
    assert GuardedAt(rules, 0, 1) && GuardedAt(rules, 0, 2) && GuardedAt(rules, 1, 2);
    AgreeIffGuarded(rules);
  }
}
