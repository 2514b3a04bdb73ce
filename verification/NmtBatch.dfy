/** src/nmt.cpp: reading n-best responses and accumulating them over the sentences of a batch. */
module NmtBatch {
  import opened Octets
  import opened StringUtils
  import opened StringLaws
  import opened Detokenize

  const LINE_END: text := [NEWLINE]
  /** "||| " */
  const BAR: text := [0x7c, 0x7c, 0x7c, 0x20]

  // ---- one output vector

  /** The first value of a rank is pushed, later ones are glued to it. */
  function Put<T>(acc: seq<T>, rank: nat, v: Option<T>, glue: (T, T) -> T): seq<T> {
    match v
    case None => acc
    case Some(x) => if rank < |acc| then acc[rank := glue(acc[rank], x)] else acc + [x]
  }

  /** The vector after the first `k` hypotheses of a response. */
  function AddedUpTo<T>(acc: seq<T>, column: seq<Option<T>>, k: nat, glue: (T, T) -> T): seq<T>
    requires k <= |column|
  {
    if k == 0 then acc else Put(AddedUpTo(acc, column, k - 1, glue), k - 1, column[k - 1], glue)
  }

  function Added<T>(acc: seq<T>, column: seq<Option<T>>, glue: (T, T) -> T): seq<T> {
    AddedUpTo(acc, column, |column|, glue)
  }

  /** No value is written beyond the end of the vector: the source indexes without a test. */
  ghost predicate Fits<T>(acc: seq<T>, column: seq<Option<T>>, glue: (T, T) -> T) {
    forall k :: 0 <= k < |column| && column[k].Some? ==> k <= |AddedUpTo(acc, column, k, glue)|
  }

  predicate Has<T>(column: seq<Option<T>>, rank: nat) {
    rank < |column| && column[rank].Some?
  }

  /** What the first `k` hypotheses do to one rank. */
  lemma {:induction false} AddedRank<T>(acc: seq<T>, column: seq<Option<T>>, k: nat, glue: (T, T) -> T, r: nat)
    requires k <= |column| && Fits(acc, column, glue)
    ensures r < |AddedUpTo(acc, column, k, glue)| <==> r < |acc| || (r < k && Has(column, r))
    ensures r < |acc| ==>
      AddedUpTo(acc, column, k, glue)[r] == if r < k && Has(column, r) then glue(acc[r], column[r].value) else acc[r]
    ensures |acc| <= r < k && Has(column, r) ==> AddedUpTo(acc, column, k, glue)[r] == column[r].value
  {
    if k > 0 {
      AddedRank(acc, column, k - 1, glue, r);
      AddedRank(acc, column, k - 1, glue, k - 1);
    }
  }

  /** A response in which every rank has a value always fits. */
  lemma FullColumnFits<T>(acc: seq<T>, column: seq<Option<T>>, glue: (T, T) -> T)
    requires forall i :: 0 <= i < |column| ==> column[i].Some?
    ensures Fits(acc, column, glue)
  {
    FitsIff(acc, column, glue);
  }

  /** Behind the first `length` ranks, no rank with a value follows one without. */
  predicate NoGap<T>(length: nat, column: seq<Option<T>>) {
    forall k, j :: length <= j < k < |column| && column[k].Some? ==> column[j].Some?
  }

  /** The columns that fit are those without a gap behind the old end of the vector. */
  lemma FitsIff<T>(acc: seq<T>, column: seq<Option<T>>, glue: (T, T) -> T)
    ensures Fits(acc, column, glue) <==> NoGap(|acc|, column)
  {
    if Fits(acc, column, glue) {
      forall k, j | |acc| <= j < k < |column| && column[k].Some? ensures column[j].Some? {
        AddedRank(acc, column, k, glue, j);
      }
    }
    if forall k, j :: |acc| <= j < k < |column| && column[k].Some? ==> column[j].Some? {
      forall k | 0 <= k < |column| && column[k].Some? ensures k <= |AddedUpTo(acc, column, k, glue)| {
        FilledGrows(acc, column, k, glue);
      }
    }
  }

  lemma {:induction false} FilledGrows<T>(acc: seq<T>, column: seq<Option<T>>, k: nat, glue: (T, T) -> T)
    requires k <= |column| && forall j :: |acc| <= j < k ==> column[j].Some?
    ensures k <= |AddedUpTo(acc, column, k, glue)| && |acc| <= |AddedUpTo(acc, column, k, glue)|
  {
    if k > 0 {
      FilledGrows(acc, column, k - 1, glue);
    }
  }

  // ---- a batch, and its transpose

  /** The vector after the first `n` responses of a batch. */
  function Batched<T>(acc: seq<T>, batch: seq<seq<Option<T>>>, n: nat, glue: (T, T) -> T): seq<T>
    requires n <= |batch|
  {
    if n == 0 then acc else Added(Batched(acc, batch, n - 1, glue), batch[n - 1], glue)
  }

  ghost predicate BatchFits<T>(acc: seq<T>, batch: seq<seq<Option<T>>>, glue: (T, T) -> T) {
    forall n :: 0 <= n < |batch| ==> Fits(Batched(acc, batch, n, glue), batch[n], glue)
  }

  /** The values of one rank, in the order of the sentences that have one. */
  function Row<T>(batch: seq<seq<Option<T>>>, n: nat, rank: nat): seq<T>
    requires n <= |batch|
  {
    if n == 0 then []
    else Row(batch, n - 1, rank) + if Has(batch[n - 1], rank) then [batch[n - 1][rank].value] else []
  }

  /** Behind the first `length` ranks: when a sentence has a value of some rank, then of each rank in front of it the
      sentence has a value, or an earlier sentence has. */
  ghost predicate Filled<T>(length: nat, batch: seq<seq<Option<T>>>) {
    forall n, j, k :: 0 <= n < |batch| && length <= j < k < |batch[n]| && batch[n][k].Some? && batch[n][j].None? ==>
      Earlier(batch, n, j)
  }

  /** Some of the first `n` sentences has a value of this rank. */
  predicate Earlier<T>(batch: seq<seq<Option<T>>>, n: nat, rank: nat)
    requires n <= |batch|
  {
    exists m :: 0 <= m < n && Has(batch[m], rank)
  }

  lemma EarlierStep<T>(batch: seq<seq<Option<T>>>, n: nat, rank: nat)
    requires n < |batch|
    ensures Earlier(batch, n + 1, rank) <==> Earlier(batch, n, rank) || Has(batch[n], rank)
  {
    if m :| 0 <= m < n && Has(batch[m], rank) {
    }
  }

  /** A row is not empty when some sentence has a value for it. */
  lemma {:induction false} RowIffEarlier<T>(batch: seq<seq<Option<T>>>, n: nat, rank: nat)
    requires n <= |batch|
    ensures Row(batch, n, rank) != [] <==> Earlier(batch, n, rank)
  {
    if n > 0 {
      RowIffEarlier(batch, n - 1, rank);
      EarlierStep(batch, n - 1, rank);
    }
  }

  /** The ranks the vector has after `n` sentences. */
  lemma {:induction false} RanksAfter<T>(acc: seq<T>, batch: seq<seq<Option<T>>>, n: nat, glue: (T, T) -> T, r: nat)
    requires n <= |batch| && forall m :: 0 <= m < n ==> Fits(Batched(acc, batch, m, glue), batch[m], glue)
    ensures r < |Batched(acc, batch, n, glue)| <==> r < |acc| || Earlier(batch, n, r)
  {
    hide AddedUpTo, Fits, Earlier;
    if n > 0 {
      RanksAfter(acc, batch, n - 1, glue, r);
      AddedRank(Batched(acc, batch, n - 1, glue), batch[n - 1], |batch[n - 1]|, glue, r);
      EarlierStep(batch, n - 1, r);
    } else {
      NoneEarlier(batch, r);
    }
  }

  lemma NoneEarlier<T>(batch: seq<seq<Option<T>>>, rank: nat)
    ensures !Earlier(batch, 0, rank)
  {}

  /** One sentence of a batch fits exactly when its gaps were filled before. */
  lemma FitsAfter<T>(acc: seq<T>, batch: seq<seq<Option<T>>>, n: nat, glue: (T, T) -> T)
    requires n < |batch| && forall m :: 0 <= m < n ==> Fits(Batched(acc, batch, m, glue), batch[m], glue)
    ensures Fits(Batched(acc, batch, n, glue), batch[n], glue) <==>
      forall j, k :: |acc| <= j < k < |batch[n]| && batch[n][k].Some? && batch[n][j].None? ==> Earlier(batch, n, j)
  {
    hide Fits, Earlier, Batched;
    var now := Batched(acc, batch, n, glue);
    FitsIff(now, batch[n], glue);
    forall r: nat ensures r < |now| <==> r < |acc| || Earlier(batch, n, r) {
      RanksAfter(acc, batch, n, glue, r);
    }
  }

  /** The batches in which no value is written beyond the end of the vector. */
  lemma BatchFitsIff<T>(acc: seq<T>, batch: seq<seq<Option<T>>>, glue: (T, T) -> T)
    ensures BatchFits(acc, batch, glue) <==> Filled(|acc|, batch)
  {
    hide Fits, Earlier, Batched;
    if BatchFits(acc, batch, glue) {
      forall n | 0 <= n < |batch|
        ensures forall j, k :: |acc| <= j < k < |batch[n]| && batch[n][k].Some? && batch[n][j].None? ==>
          Earlier(batch, n, j)
      {
        FitsAfter(acc, batch, n, glue);
      }
    }
    if Filled(|acc|, batch) {
      FilledFits(acc, batch, |batch|, glue);
    }
  }

  lemma {:induction false} FilledFits<T>(acc: seq<T>, batch: seq<seq<Option<T>>>, n: nat, glue: (T, T) -> T)
    requires n <= |batch| && Filled(|acc|, batch)
    ensures forall m :: 0 <= m < n ==> Fits(Batched(acc, batch, m, glue), batch[m], glue)
  {
    hide Fits, Earlier, Batched;
    if n > 0 {
      FilledFits(acc, batch, n - 1, glue);
      FitsAfter(acc, batch, n - 1, glue);
    }
  }

  function Glued<T>(row: seq<T>, glue: (T, T) -> T): T
    requires row != []
  {
    if |row| == 1 then row[0] else glue(Glued(row[..|row| - 1], glue), row[|row| - 1])
  }

  lemma GluedLast<T>(row: seq<T>, x: T, glue: (T, T) -> T)
    requires row != []
    ensures Glued(row + [x], glue) == glue(Glued(row, glue), x)
  {
    assert (row + [x])[..|row|] == row;
  }

  /** From an empty vector a batch computes the transpose: entry `r` glues the values of rank `r`. */
  lemma {:induction false} BatchTransposes<T>(batch: seq<seq<Option<T>>>, n: nat, glue: (T, T) -> T, r: nat)
    requires n <= |batch| && BatchFits([], batch, glue)
    ensures r < |Batched([], batch, n, glue)| <==> Row(batch, n, r) != []
    ensures r < |Batched([], batch, n, glue)| ==>
      Batched([], batch, n, glue)[r] == Glued(Row(batch, n, r), glue)
  {
    hide AddedUpTo, Glued;
    if n > 0 {
      BatchTransposes(batch, n - 1, glue, r);
      var acc, column := Batched([], batch, n - 1, glue), batch[n - 1];
      AddedRank(acc, column, |column|, glue, r);
      var row := Row(batch, n - 1, r);
      if Has(column, r) {
        if r < |acc| {
          GluedLast(row, column[r].value, glue);
        } else {
          GluedOne(column[r].value, glue);
          assert row + [column[r].value] == [column[r].value];
        }
      } else {
        assert row + [] == row;
      }
    }
  }

  lemma GluedOne<T>(x: T, glue: (T, T) -> T)
    ensures Glued([x], glue) == x
  {}

  /** Gluing with a space is joining. */
  function WithSpace(a: text, b: text): text {
    a + [SPACE] + b
  }

  lemma {:induction false} GluedIsJoined(row: seq<text>)
    requires row != []
    ensures Glued(row, WithSpace) == Joined(row, [SPACE])
  {
    if |row| > 1 {
      var front := row[..|row| - 1];
      GluedIsJoined(front);
      JoinedLast(front, row[|row| - 1], [SPACE]);
      assert row == front + [row[|row| - 1]];
    }
  }

  function Plus(a: real, b: real): real {
    a + b
  }

  function Sum(row: seq<real>): real {
    if row == [] then 0.0 else Sum(row[..|row| - 1]) + row[|row| - 1]
  }

  lemma {:induction false} GluedIsSum(row: seq<real>)
    requires row != []
    ensures Glued(row, Plus) == Sum(row)
  {
    if |row| > 1 {
      GluedIsSum(row[..|row| - 1]);
    } else {
      assert row[..0] == [];
    }
  }

  // ---- the lines of a response

  /** The fields the source reads from a line are there. */
  predicate Complete(line: text) {
    |Fields(line, BAR)| >= 4
  }

  predicate AllComplete(lines: seq<text>) {
    forall i :: 0 <= i < |lines| ==> Complete(lines[i])
  }

  function RawOf(line: text): text
    requires Complete(line)
  {
    Fields(line, BAR)[1]
  }

  function AlignmentOf(line: text): Option<text>
    requires Complete(line)
  {
    if |Fields(line, BAR)| > 4 then Some(Fields(line, BAR)[2]) else None
  }

  function ScoreOf(line: text): text
    requires Complete(line)
  {
    Fields(line, BAR)[if |Fields(line, BAR)| > 4 then 4 else 3]
  }

  function Texts(lines: seq<text>): (column: seq<Option<text>>)
    requires AllComplete(lines)
    ensures |column| == |lines|
  {
    seq(|lines|, i requires 0 <= i < |lines| => Some(Detokenized(RawOf(lines[i]))))
  }

  function Raws(lines: seq<text>): (column: seq<Option<text>>)
    requires AllComplete(lines)
    ensures |column| == |lines|
  {
    seq(|lines|, i requires 0 <= i < |lines| => Some(RawOf(lines[i])))
  }

  function Alignments(lines: seq<text>): (column: seq<Option<text>>)
    requires AllComplete(lines)
    ensures |column| == |lines|
  {
    seq(|lines|, i requires 0 <= i < |lines| => AlignmentOf(lines[i]))
  }

  function Scores(lines: seq<text>, atof: text -> real): (column: seq<Option<real>>)
    requires AllComplete(lines)
    ensures |column| == |lines|
  {
    seq(|lines|, i requires 0 <= i < |lines| => Some(atof(ScoreOf(lines[i]))))
  }

  /** The four output vectors of the source, which every call extends in place. */
  class Outputs {
    var texts: seq<text>
    var raws: seq<text>
    var scores: seq<real>
    var alignments: seq<text>

    constructor ()
      ensures texts == [] && raws == [] && scores == [] && alignments == []
    {
      texts, raws, scores, alignments := [], [], [], [];
    }
  }

  /** The push-or-append the source repeats for each of its text vectors. */
  function Accumulate(vector: seq<text>, inc: nat, x: text): (r: seq<text>)
    requires inc <= |vector|
    ensures r == Put(vector, inc, Some(x), WithSpace)
  {
    if |vector| == inc then vector + [x] else vector[inc := vector[inc] + [SPACE] + x]
  }

  lemma LineFields(line: text, data: seq<text>)
    requires data == Fields(line, BAR) && Complete(line)
    ensures |data| >= 4 && RawOf(line) == data[1]
    ensures AlignmentOf(line) == if |data| > 4 then Some(data[2]) else None
    ensures ScoreOf(line) == data[if |data| > 4 then 4 else 3]
  {
    hide Fields;
  }

  lemma PutMeaning<T>(acc: seq<T>, rank: nat, x: T, glue: (T, T) -> T)
    requires rank <= |acc|
    ensures Put(acc, rank, Some(x), glue) == if |acc| == rank then acc + [x] else acc[rank := glue(acc[rank], x)]
  {}

  lemma PutNothing<T>(acc: seq<T>, rank: nat, glue: (T, T) -> T)
    ensures Put(acc, rank, None, glue) == acc
  {}

  lemma PlusIsSum(acc: seq<real>, rank: nat, x: real)
    ensures rank < |acc| ==> Plus(acc[rank], x) == acc[rank] + x
  {}

  /** One hypothesis: the body of the loop over the lines. */
  method AddHypothesis(line: text, inc: nat, outputs: Outputs, atof: text -> real)
    requires Complete(line)
    requires inc <= |outputs.texts| && inc <= |outputs.raws| && inc <= |outputs.scores|
    requires AlignmentOf(line).Some? ==> inc <= |outputs.alignments|
    modifies outputs
    ensures outputs.texts == Put(old(outputs.texts), inc, Some(Detokenized(RawOf(line))), WithSpace)
    ensures outputs.raws == Put(old(outputs.raws), inc, Some(RawOf(line)), WithSpace)
    ensures outputs.scores == Put(old(outputs.scores), inc, Some(atof(ScoreOf(line))), Plus)
    ensures outputs.alignments == Put(old(outputs.alignments), inc, AlignmentOf(line), WithSpace)
  {
    hide Fields, Detokenized, WithSpace, Plus, Put, RawOf, AlignmentOf, ScoreOf, Complete;
    var data := Split(line, [], BAR);
    assert data == Fields(line, BAR);
    LineFields(line, data);
    var incData := 1;
    var detokenized := SpmDetokenizeStr(data[incData]);
    outputs.texts := Accumulate(outputs.texts, inc, detokenized);
    outputs.raws := Accumulate(outputs.raws, inc, data[incData]);
    incData := incData + 1;
    if |data| > 4 {
      outputs.alignments := Accumulate(outputs.alignments, inc, data[incData]);
      incData := incData + 1;
    }
    incData := incData + 1; // passes over the F0 score
    PutMeaning(outputs.scores, inc, atof(data[incData]), Plus);
    PutNothing(outputs.alignments, inc, WithSpace);
    PlusIsSum(outputs.scores, inc, atof(data[incData]));
    if |outputs.scores| == inc {
      outputs.scores := outputs.scores + [atof(data[incData])];
    } else {
      outputs.scores := outputs.scores[inc := outputs.scores[inc] + atof(data[incData])];
    }
  }

  lemma AddedStart<T>(acc: seq<T>, column: seq<Option<T>>, glue: (T, T) -> T)
    ensures AddedUpTo(acc, column, 0, glue) == acc
  {}

  lemma AddedStep<T>(acc: seq<T>, column: seq<Option<T>>, k: nat, glue: (T, T) -> T)
    requires k < |column|
    ensures AddedUpTo(acc, column, k + 1, glue) == Put(AddedUpTo(acc, column, k, glue), k, column[k], glue)
  {}

  lemma AddedEnd<T>(acc: seq<T>, column: seq<Option<T>>, glue: (T, T) -> T)
    ensures AddedUpTo(acc, column, |column|, glue) == Added(acc, column, glue)
  {}

  lemma ColumnsAt(lines: seq<text>, i: nat, atof: text -> real)
    requires AllComplete(lines) && i < |lines|
    ensures Complete(lines[i])
    ensures Texts(lines)[i] == Some(Detokenized(RawOf(lines[i]))) && Raws(lines)[i] == Some(RawOf(lines[i]))
    ensures Scores(lines, atof)[i] == Some(atof(ScoreOf(lines[i]))) && Alignments(lines)[i] == AlignmentOf(lines[i])
  {}

  /** No vector is indexed beyond its end. */
  lemma HypothesisFits(t: seq<text>, r: seq<text>, s: seq<real>, a: seq<text>,
                       lines: seq<text>, atof: text -> real, k: nat)
    requires AllComplete(lines) && k < |lines| && Fits(a, Alignments(lines), WithSpace)
    ensures k <= |AddedUpTo(t, Texts(lines), k, WithSpace)| && k <= |AddedUpTo(r, Raws(lines), k, WithSpace)|
    ensures k <= |AddedUpTo(s, Scores(lines, atof), k, Plus)|
    ensures AlignmentOf(lines[k]).Some? ==> k <= |AddedUpTo(a, Alignments(lines), k, WithSpace)|
  {
    hide AddedUpTo, Complete, AlignmentOf, RawOf, ScoreOf;
    FilledGrows(t, Texts(lines), k, WithSpace);
    FilledGrows(r, Raws(lines), k, WithSpace);
    FilledGrows(s, Scores(lines, atof), k, Plus);
  }

  /** One sentence; `message` is the server's answer, or None when the connection failed. */
  method NMTTranslate(message: Option<text>, outputs: Outputs, atof: text -> real) returns (ok: bool)
    requires message.Some? ==> AllComplete(Fields(message.value, LINE_END))
    requires message.Some? ==> NoGap(|outputs.alignments|, Alignments(Fields(message.value, LINE_END)))
    modifies outputs
    ensures ok <==> message.Some?
    ensures !ok ==>
      && outputs.texts == old(outputs.texts) && outputs.raws == old(outputs.raws)
      && outputs.scores == old(outputs.scores) && outputs.alignments == old(outputs.alignments)
    ensures ok ==>
      var lines := Fields(message.value, LINE_END);
      && outputs.texts == Added(old(outputs.texts), Texts(lines), WithSpace)
      && outputs.raws == Added(old(outputs.raws), Raws(lines), WithSpace)
      && outputs.scores == Added(old(outputs.scores), Scores(lines, atof), Plus)
      && outputs.alignments == Added(old(outputs.alignments), Alignments(lines), WithSpace)
  {
    hide Texts, Raws, Scores, Alignments, Added, AddedUpTo, Put, Fits, NoGap, Fields, Detokenized;
    hide Complete, AllComplete, WithSpace, Plus, RawOf, ScoreOf, AlignmentOf;
    if message.None? {
      return false;
    }
    var fullHypothesis := Split(message.value, [], LINE_END);
    ghost var t0, r0, s0, a0 := outputs.texts, outputs.raws, outputs.scores, outputs.alignments;
    ghost var lines := Fields(message.value, LINE_END);
    assert fullHypothesis == lines;
    ghost var texts, raws, scores, alignments := Texts(lines), Raws(lines), Scores(lines, atof), Alignments(lines);
    FitsIff(a0, alignments, WithSpace);
    var incHyp := 0;
    AddedStart(t0, texts, WithSpace);
    AddedStart(r0, raws, WithSpace);
    AddedStart(s0, scores, Plus);
    AddedStart(a0, alignments, WithSpace);
    while incHyp < |fullHypothesis|
      invariant incHyp <= |lines|
      invariant outputs.texts == AddedUpTo(t0, texts, incHyp, WithSpace)
      invariant outputs.raws == AddedUpTo(r0, raws, incHyp, WithSpace)
      invariant outputs.scores == AddedUpTo(s0, scores, incHyp, Plus)
      invariant outputs.alignments == AddedUpTo(a0, alignments, incHyp, WithSpace)
    {
      ColumnsAt(lines, incHyp, atof);
      HypothesisFits(t0, r0, s0, a0, lines, atof, incHyp);
      AddedStep(t0, texts, incHyp, WithSpace);
      AddedStep(r0, raws, incHyp, WithSpace);
      AddedStep(s0, scores, incHyp, Plus);
      AddedStep(a0, alignments, incHyp, WithSpace);
      AddHypothesis(fullHypothesis[incHyp], incHyp, outputs, atof);
      incHyp := incHyp + 1;
    }
    AddedEnd(t0, texts, WithSpace);
    AddedEnd(r0, raws, WithSpace);
    AddedEnd(s0, scores, Plus);
    AddedEnd(a0, alignments, WithSpace);
    ok := true;
  }

  // ---- the batch

  /** How many sentences are answered before the first failure. */
  function AnsweredCount(messages: seq<Option<text>>): (n: nat)
    ensures n <= |messages| && forall i :: 0 <= i < n ==> messages[i].Some?
    ensures n < |messages| ==> messages[n].None?
  {
    if messages == [] || messages[0].None? then 0 else 1 + AnsweredCount(messages[1..])
  }

  /** The lines of their answers. */
  function Answered(messages: seq<Option<text>>): (answers: seq<seq<text>>)
    ensures |answers| == AnsweredCount(messages)
  {
    seq(AnsweredCount(messages), i requires 0 <= i < AnsweredCount(messages) => Fields(messages[i].value, LINE_END))
  }

  predicate AnswersComplete(answers: seq<seq<text>>) {
    forall i :: 0 <= i < |answers| ==> AllComplete(answers[i])
  }

  function TextBatch(answers: seq<seq<text>>): (batch: seq<seq<Option<text>>>)
    requires AnswersComplete(answers)
    ensures |batch| == |answers|
  {
    seq(|answers|, i requires 0 <= i < |answers| => Texts(answers[i]))
  }

  function RawBatch(answers: seq<seq<text>>): (batch: seq<seq<Option<text>>>)
    requires AnswersComplete(answers)
    ensures |batch| == |answers|
  {
    seq(|answers|, i requires 0 <= i < |answers| => Raws(answers[i]))
  }

  function ScoreBatch(answers: seq<seq<text>>, atof: text -> real): (batch: seq<seq<Option<real>>>)
    requires AnswersComplete(answers)
    ensures |batch| == |answers|
  {
    seq(|answers|, i requires 0 <= i < |answers| => Scores(answers[i], atof))
  }

  function AlignmentBatch(answers: seq<seq<text>>): (batch: seq<seq<Option<text>>>)
    requires AnswersComplete(answers)
    ensures |batch| == |answers|
  {
    seq(|answers|, i requires 0 <= i < |answers| => Alignments(answers[i]))
  }

  lemma AnswersAt(messages: seq<Option<text>>, i: nat, atof: text -> real)
    requires AnswersComplete(Answered(messages)) && i < |Answered(messages)|
    ensures i < |messages| && messages[i].Some?
    ensures var lines := Fields(messages[i].value, LINE_END);
      var answers := Answered(messages);
      && AllComplete(lines)
      && TextBatch(answers)[i] == Texts(lines) && RawBatch(answers)[i] == Raws(lines)
      && ScoreBatch(answers, atof)[i] == Scores(lines, atof) && AlignmentBatch(answers)[i] == Alignments(lines)
  {
    hide Fields, AllComplete, Texts, Raws, Scores, Alignments;
    assert Answered(messages)[i] == Fields(messages[i].value, LINE_END);
  }

  lemma BatchStart<T>(acc: seq<T>, batch: seq<seq<Option<T>>>, glue: (T, T) -> T)
    ensures Batched(acc, batch, 0, glue) == acc
  {}

  lemma BatchStep<T>(acc: seq<T>, batch: seq<seq<Option<T>>>, n: nat, glue: (T, T) -> T)
    requires n < |batch|
    ensures Batched(acc, batch, n + 1, glue) == Added(Batched(acc, batch, n, glue), batch[n], glue)
  {}

  lemma BatchFitsAt<T>(acc: seq<T>, batch: seq<seq<Option<T>>>, n: nat, glue: (T, T) -> T)
    requires n < |batch| && BatchFits(acc, batch, glue)
    ensures Fits(Batched(acc, batch, n, glue), batch[n], glue)
  {}

  /** The whole batch, up to the first sentence the server does not answer. */
  method NMTTranslateBatch(messages: seq<Option<text>>, outputs: Outputs, atof: text -> real) returns (ok: bool)
    requires AnswersComplete(Answered(messages))
    requires Filled(|outputs.alignments|, AlignmentBatch(Answered(messages)))
    modifies outputs
    ensures ok <==> forall i :: 0 <= i < |messages| ==> messages[i].Some?
    ensures var answers := Answered(messages);
      var n := |answers|;
      && outputs.texts == Batched(old(outputs.texts), TextBatch(answers), n, WithSpace)
      && outputs.raws == Batched(old(outputs.raws), RawBatch(answers), n, WithSpace)
      && outputs.scores == Batched(old(outputs.scores), ScoreBatch(answers, atof), n, Plus)
      && outputs.alignments == Batched(old(outputs.alignments), AlignmentBatch(answers), n, WithSpace)
  {
    hide Texts, Raws, Scores, Alignments, Added, Fields, AllComplete, AnswersComplete, WithSpace, Plus, Fits, BatchFits;
    hide Batched, TextBatch, RawBatch, ScoreBatch, AlignmentBatch, Answered, Filled, NoGap;
    ghost var t0, r0, s0, a0 := outputs.texts, outputs.raws, outputs.scores, outputs.alignments;
    ghost var answers := Answered(messages);
    ghost var texts, raws := TextBatch(answers), RawBatch(answers);
    ghost var scores, alignments := ScoreBatch(answers, atof), AlignmentBatch(answers);
    BatchFitsIff(a0, alignments, WithSpace);
    var incHyp := 0;
    BatchStart(t0, texts, WithSpace);
    BatchStart(r0, raws, WithSpace);
    BatchStart(s0, scores, Plus);
    BatchStart(a0, alignments, WithSpace);
    while incHyp < |messages|
      invariant incHyp <= |answers|
      invariant outputs.texts == Batched(t0, texts, incHyp, WithSpace)
      invariant outputs.raws == Batched(r0, raws, incHyp, WithSpace)
      invariant outputs.scores == Batched(s0, scores, incHyp, Plus)
      invariant outputs.alignments == Batched(a0, alignments, incHyp, WithSpace)
    {
      if incHyp < |answers| {
        AnswersAt(messages, incHyp, atof);
        BatchFitsAt(a0, alignments, incHyp, WithSpace);
        FitsIff(outputs.alignments, alignments[incHyp], WithSpace);
        BatchStep(t0, texts, incHyp, WithSpace);
        BatchStep(r0, raws, incHyp, WithSpace);
        BatchStep(s0, scores, incHyp, Plus);
        BatchStep(a0, alignments, incHyp, WithSpace);
      }
      var translated := NMTTranslate(messages[incHyp], outputs, atof);
      if translated {
        incHyp := incHyp + 1;
      } else {
        return false;
      }
    }
    ok := true;
  }

  /** From empty vectors the outputs are the transpose of the answers: entry r joins, in sentence order, what the
      sentences that have a hypothesis of rank r have there, and the scores are the matching sums. */
  lemma OutputsTranspose(answers: seq<seq<text>>, atof: text -> real, r: nat)
    requires AnswersComplete(answers)
    ensures var n := |answers|;
      var texts := Batched([], TextBatch(answers), n, WithSpace);
      var raws := Batched([], RawBatch(answers), n, WithSpace);
      var scores := Batched([], ScoreBatch(answers, atof), n, Plus);
      && |texts| == |raws| == |scores|
      && (r < |texts| <==> exists i :: 0 <= i < n && r < |answers[i]|)
      && (r < |texts| ==> texts[r] == Joined(Row(TextBatch(answers), n, r), [SPACE]))
      && (r < |raws| ==> raws[r] == Joined(Row(RawBatch(answers), n, r), [SPACE]))
      && (r < |scores| ==> scores[r] == Sum(Row(ScoreBatch(answers, atof), n, r)))
  {
    var n := |answers|;
    FullBatchTransposes(TextBatch(answers), WithSpace);
    FullBatchTransposes(RawBatch(answers), WithSpace);
    FullBatchTransposes(ScoreBatch(answers, atof), Plus);
    SameRanks(answers, atof);
    RowMeaning(answers, n, r);
    BatchTransposes(TextBatch(answers), n, WithSpace, r);
    BatchTransposes(RawBatch(answers), n, WithSpace, r);
    BatchTransposes(ScoreBatch(answers, atof), n, Plus, r);
    if r < |Batched([], TextBatch(answers), n, WithSpace)| {
      GluedIsJoined(Row(TextBatch(answers), n, r));
    }
    if r < |Batched([], RawBatch(answers), n, WithSpace)| {
      GluedIsJoined(Row(RawBatch(answers), n, r));
    }
    if r < |Batched([], ScoreBatch(answers, atof), n, Plus)| {
      GluedIsSum(Row(ScoreBatch(answers, atof), n, r));
    }
  }

  lemma FullBatchTransposes<T>(batch: seq<seq<Option<T>>>, glue: (T, T) -> T)
    requires forall n, i :: 0 <= n < |batch| && 0 <= i < |batch[n]| ==> batch[n][i].Some?
    ensures BatchFits([], batch, glue)
  {
    forall n | 0 <= n < |batch| ensures Fits(Batched([], batch, n, glue), batch[n], glue) {
      FullColumnFits(Batched([], batch, n, glue), batch[n], glue);
    }
  }

  /** A row has a value for every sentence with enough hypotheses. */
  lemma {:induction false} RowMeaning(answers: seq<seq<text>>, n: nat, r: nat)
    requires AnswersComplete(answers) && n <= |answers|
    ensures Row(TextBatch(answers), n, r) != [] <==> exists i :: 0 <= i < n && r < |answers[i]|
  {
    hide Detokenized, RawOf, AllComplete;
    if n > 0 {
      RowMeaning(answers, n - 1, r);
      assert Has(TextBatch(answers)[n - 1], r) <==> r < |answers[n - 1]|;
    }
  }

  /** The vectors grow together. */
  lemma SameRanks(answers: seq<seq<text>>, atof: text -> real)
    requires AnswersComplete(answers)
    ensures |Batched([], TextBatch(answers), |answers|, WithSpace)|
      == |Batched([], RawBatch(answers), |answers|, WithSpace)|
    ensures |Batched([], TextBatch(answers), |answers|, WithSpace)|
      == |Batched([], ScoreBatch(answers, atof), |answers|, Plus)|
  {
    SameLengths([], TextBatch(answers), WithSpace, [], RawBatch(answers), WithSpace, |answers|);
    SameLengths([], TextBatch(answers), WithSpace, [], ScoreBatch(answers, atof), Plus, |answers|);
  }

  lemma {:induction false} SameLengths<S, T>(a: seq<S>, x: seq<seq<Option<S>>>, f: (S, S) -> S,
                                             b: seq<T>, y: seq<seq<Option<T>>>, g: (T, T) -> T, n: nat)
    requires |a| == |b| && |x| == |y| && n <= |x|
    requires forall i :: 0 <= i < |x| ==> |x[i]| == |y[i]|
    requires forall i, r :: 0 <= i < |x| && 0 <= r < |x[i]| ==> x[i][r].Some? && y[i][r].Some?
    ensures |Batched(a, x, n, f)| == |Batched(b, y, n, g)|
  {
    if n > 0 {
      SameLengths(a, x, f, b, y, g, n - 1);
      SameGrowth(Batched(a, x, n - 1, f), x[n - 1], f, Batched(b, y, n - 1, g), y[n - 1], g, |x[n - 1]|);
    }
  }

  lemma {:induction false} SameGrowth<S, T>(a: seq<S>, x: seq<Option<S>>, f: (S, S) -> S,
                                            b: seq<T>, y: seq<Option<T>>, g: (T, T) -> T, k: nat)
    requires |a| == |b| && |x| == |y| && k <= |x|
    requires forall r :: 0 <= r < |x| ==> x[r].Some? && y[r].Some?
    ensures |AddedUpTo(a, x, k, f)| == |AddedUpTo(b, y, k, g)|
  {
    if k > 0 {
      SameGrowth(a, x, f, b, y, g, k - 1);
    }
  }

  // ---- rendered responses

  /** One hypothesis, as the server writes it. */
  datatype Hypothesis = Hypothesis(id: text, sentence: text, alignment: Option<text>, features: text, score: text)

  function FieldsOf(h: Hypothesis): seq<text> {
    [h.id, h.sentence] + (if h.alignment.Some? then [h.alignment.value] else []) + [h.features, h.score]
  }

  function LineOf(h: Hypothesis): text {
    Joined(FieldsOf(h), [0x7c, 0x7c, 0x7c, 0x20])
  }

  /** The line, octet by octet. */
  lemma LineSpelled(h: Hypothesis)
    ensures var bar: text := [0x7c, 0x7c, 0x7c, 0x20];
      LineOf(h) == h.id + bar + h.sentence + bar
                 + (if h.alignment.Some? then h.alignment.value + bar else []) + h.features + bar + h.score
  {
    hide Joined;
    var bar: text := [0x7c, 0x7c, 0x7c, 0x20];
    var end := [h.features, h.score];
    JoinedTwo(h.features, h.score, bar);
    if h.alignment.Some? {
      JoinedMore(h.alignment.value, end, bar);
      JoinedMore(h.sentence, [h.alignment.value] + end, bar);
      JoinedMore(h.id, [h.sentence] + ([h.alignment.value] + end), bar);
      assert FieldsOf(h) == [h.id] + ([h.sentence] + ([h.alignment.value] + end));
    } else {
      JoinedMore(h.sentence, end, bar);
      JoinedMore(h.id, [h.sentence] + end, bar);
      assert FieldsOf(h) == [h.id] + ([h.sentence] + end);
    }
  }

  lemma JoinedTwo(a: text, b: text, del: text)
    ensures Joined([a, b], del) == a + del + b
  {
    assert [a, b][1..] == [b];
  }

  lemma JoinedMore(a: text, words: seq<text>, del: text)
    requires words != []
    ensures Joined([a] + words, del) == a + del + Joined(words, del)
  {
    assert ([a] + words)[1..] == words;
  }

  /** Every field is non-empty and free of bars and line ends. */
  predicate WellFormed(h: Hypothesis) {
    && AllClean(FieldsOf(h), [0x7c, 0x7c, 0x7c, 0x20])
    && forall i :: 0 <= i < |FieldsOf(h)| ==> 0x0a !in FieldsOf(h)[i]
  }

  function Rendered(hs: seq<Hypothesis>): text {
    Joined(seq(|hs|, i requires 0 <= i < |hs| => LineOf(hs[i])), [0x0a])
  }

  lemma BarNeverOverlaps()
    ensures NoOverlap(BAR)
  {
    forall k | 0 < k < |BAR| ensures BAR[..k] != BAR[|BAR| - k..] {
      assert BAR[..k][k - 1] == BAR[0];
      assert BAR[|BAR| - k..][k - 1] == BAR[3];
    }
  }

  /** Splitting a rendered line gives its fields. */
  lemma LineIsRead(h: Hypothesis)
    requires WellFormed(h)
    ensures Fields(LineOf(h), BAR) == FieldsOf(h)
    ensures Complete(LineOf(h)) && RawOf(LineOf(h)) == h.sentence
    ensures AlignmentOf(LineOf(h)) == h.alignment && ScoreOf(LineOf(h)) == h.score
  {
    hide Joined, Fields, AllClean, NoOverlap;
    BarNeverOverlaps();
    SplitOfJoin(FieldsOf(h), BAR);
  }

  /** No field holds a bar, though one may be empty. */
  predicate BarFree(h: Hypothesis) {
    forall i :: 0 <= i < |FieldsOf(h)| ==> !Occurs(FieldsOf(h)[i], [0x7c, 0x7c, 0x7c, 0x20])
  }

  /** What the source reads from the line of a hypothesis is the hypothesis. */
  predicate IsRead(h: Hypothesis) {
    && Complete(LineOf(h)) && RawOf(LineOf(h)) == h.sentence
    && AlignmentOf(LineOf(h)) == h.alignment && ScoreOf(LineOf(h)) == h.score
  }

  lemma {:induction false} KeptAll<T>(words: seq<seq<T>>)
    ensures |Kept(words)| <= |words|
    ensures (forall i :: 0 <= i < |words| ==> words[i] != []) ==> Kept(words) == words
    ensures (exists i :: 0 <= i < |words| && words[i] == []) ==> |Kept(words)| < |words|
  {
    if words != [] {
      KeptAll(words[1..]);
      assert words == [words[0]] + words[1..];
      if i :| 0 < i < |words| && words[i] == [] {
        assert words[1..][i - 1] == [];
      }
    }
  }

  /** From a line of any number of clean fields: at least four are needed; the second is the sentence; with more than
      four, the third is the alignment and the fifth the score, and otherwise the fourth is the score. */
  lemma FieldsAreRead(fields: seq<text>)
    requires AllClean(fields, [0x7c, 0x7c, 0x7c, 0x20])
    ensures var line := Joined(fields, [0x7c, 0x7c, 0x7c, 0x20]);
      && (Complete(line) <==> |fields| >= 4)
      && (|fields| >= 4 ==>
           && RawOf(line) == fields[1]
           && AlignmentOf(line) == (if |fields| > 4 then Some(fields[2]) else None)
           && ScoreOf(line) == if |fields| > 4 then fields[4] else fields[3])
  {
    hide Joined, Fields, AllClean, NoOverlap;
    BarNeverOverlaps();
    SplitOfJoin(fields, BAR);
  }

  /** Splitting a line drops its empty fields, and all behind them move up. */
  lemma LineDropsEmpty(h: Hypothesis)
    requires BarFree(h)
    ensures Fields(LineOf(h), BAR) == Kept(FieldsOf(h))
  {
    hide Joined, Fields, Find, NoOverlap;
    BarNeverOverlaps();
    SplitDropsEmpty(FieldsOf(h), BAR);
  }

  /** A line is read back exactly when none of its fields is empty. */
  lemma LineIsReadIff(h: Hypothesis)
    requires BarFree(h)
    ensures IsRead(h) <==> forall i :: 0 <= i < |FieldsOf(h)| ==> FieldsOf(h)[i] != []
  {
    hide Joined, Fields, Find, LineOf, Kept;
    LineDropsEmpty(h);
    KeptAll(FieldsOf(h));
  }

  /** An empty sentence: with an alignment, the alignment is read as the sentence and no alignment is found; without
      one, a field is missing and the source reads behind the end of its fields. */
  lemma EmptySentenceMisread(h: Hypothesis)
    requires BarFree(h) && h.sentence == [] && h.id != [] && h.features != [] && h.score != []
    requires h.alignment.Some? ==> h.alignment.value != []
    ensures Complete(LineOf(h)) <==> h.alignment.Some?
    ensures h.alignment.Some? ==>
      RawOf(LineOf(h)) == h.alignment.value && AlignmentOf(LineOf(h)) == None && ScoreOf(LineOf(h)) == h.score
  {
    hide Joined, Fields, Find, LineOf;
    LineDropsEmpty(h);
    KeptAfterSecond(h.id, FieldsOf(h)[2..]);
    assert FieldsOf(h) == [h.id, []] + FieldsOf(h)[2..];
    KeptAll(FieldsOf(h)[2..]);
  }

  lemma KeptAfterSecond<T>(first: seq<T>, rest: seq<seq<T>>)
    requires first != []
    ensures Kept([first, []] + rest) == [first] + Kept(rest)
  {
    assert ([first, []] + rest)[1..] == [[]] + rest && ([[]] + rest)[1..] == rest;
    assert Kept([[]] + rest) == Kept(rest);
  }

  lemma {:induction false} JoinedFree(words: seq<text>, del: text, b: octet)
    requires b !in del && forall i :: 0 <= i < |words| ==> b !in words[i]
    ensures b !in Joined(words, del)
  {
    if |words| > 1 {
      JoinedFree(words[1..], del, b);
    }
  }

  lemma LineIsClean(h: Hypothesis)
    requires WellFormed(h)
    ensures Clean(LineOf(h), LINE_END)
  {
    hide AllClean, Fields, Find;
    LineIsRead(h);
    JoinedFree(FieldsOf(h), BAR, LINE_END[0]);
    if LineOf(h) == [] {
      FieldsOfEmpty(BAR);
    }
    if Occurs(LineOf(h), LINE_END) {
      OccursIsMember(LineOf(h), LINE_END[0]);
    }
  }

  /** The columns of a list of hypotheses. */
  function TextsOf(hs: seq<Hypothesis>): seq<Option<text>> {
    seq(|hs|, i requires 0 <= i < |hs| => Some(Detokenized(hs[i].sentence)))
  }

  function RawsOf(hs: seq<Hypothesis>): seq<Option<text>> {
    seq(|hs|, i requires 0 <= i < |hs| => Some(hs[i].sentence))
  }

  function ScoresOf(hs: seq<Hypothesis>, atof: text -> real): seq<Option<real>> {
    seq(|hs|, i requires 0 <= i < |hs| => Some(atof(hs[i].score)))
  }

  function AlignmentsOf(hs: seq<Hypothesis>): seq<Option<text>> {
    seq(|hs|, i requires 0 <= i < |hs| => hs[i].alignment)
  }

  /** Reading a rendered response gives back its hypotheses, rank by rank. */
  lemma ResponseIsRead(hs: seq<Hypothesis>, atof: text -> real)
    requires forall i :: 0 <= i < |hs| ==> WellFormed(hs[i])
    ensures var lines := Fields(Rendered(hs), LINE_END);
      && |lines| == |hs| && AllComplete(lines)
      && Texts(lines) == TextsOf(hs) && Raws(lines) == RawsOf(hs)
      && Scores(lines, atof) == ScoresOf(hs, atof) && Alignments(lines) == AlignmentsOf(hs)
  {
    hide Joined, Fields, Find, WellFormed, RawOf, ScoreOf, AlignmentOf, Complete, LineOf, Detokenized;
    var lines := seq(|hs|, i requires 0 <= i < |hs| => LineOf(hs[i]));
    forall i | 0 <= i < |hs| ensures Clean(lines[i], LINE_END) {
      LineIsClean(hs[i]);
    }
    SingleNoOverlap(LINE_END[0]);
    SplitOfJoin(lines, LINE_END);
    forall i | 0 <= i < |hs|
      ensures Complete(lines[i]) && RawOf(lines[i]) == hs[i].sentence
      ensures AlignmentOf(lines[i]) == hs[i].alignment && ScoreOf(lines[i]) == hs[i].score
    {
      LineIsRead(hs[i]);
    }
  }

  function TextsOfAll(batch: seq<seq<Hypothesis>>): seq<seq<Option<text>>> {
    seq(|batch|, i requires 0 <= i < |batch| => TextsOf(batch[i]))
  }

  function RawsOfAll(batch: seq<seq<Hypothesis>>): seq<seq<Option<text>>> {
    seq(|batch|, i requires 0 <= i < |batch| => RawsOf(batch[i]))
  }

  function ScoresOfAll(batch: seq<seq<Hypothesis>>, atof: text -> real): seq<seq<Option<real>>> {
    seq(|batch|, i requires 0 <= i < |batch| => ScoresOf(batch[i], atof))
  }

  function AlignmentsOfAll(batch: seq<seq<Hypothesis>>): seq<seq<Option<text>>> {
    seq(|batch|, i requires 0 <= i < |batch| => AlignmentsOf(batch[i]))
  }

  predicate AllWellFormed(batch: seq<seq<Hypothesis>>) {
    forall i, j :: 0 <= i < |batch| && 0 <= j < |batch[i]| ==> WellFormed(batch[i][j])
  }

  function Messages(batch: seq<seq<Hypothesis>>): seq<Option<text>> {
    seq(|batch|, i requires 0 <= i < |batch| => Some(Rendered(batch[i])))
  }

  lemma {:induction false} AllAnswered(messages: seq<Option<text>>)
    requires forall i :: 0 <= i < |messages| ==> messages[i].Some?
    ensures AnsweredCount(messages) == |messages|
  {}

  /** What the source reads from rendered responses is what was rendered. */
  lemma RenderedBatch(batch: seq<seq<Hypothesis>>, atof: text -> real)
    requires AllWellFormed(batch)
    ensures var answers := Answered(Messages(batch));
      && |answers| == |batch| && AnswersComplete(answers)
      && TextBatch(answers) == TextsOfAll(batch) && RawBatch(answers) == RawsOfAll(batch)
      && ScoreBatch(answers, atof) == ScoresOfAll(batch, atof) && AlignmentBatch(answers) == AlignmentsOfAll(batch)
      && forall i :: 0 <= i < |batch| ==> |answers[i]| == |batch[i]|
  {
    hide Fields, Rendered, Texts, Raws, Scores, Alignments, WellFormed, AllComplete;
    hide TextsOf, RawsOf, ScoresOf, AlignmentsOf;
    var messages := Messages(batch);
    AllAnswered(messages);
    var answers := Answered(messages);
    forall i | 0 <= i < |batch|
      ensures AllComplete(answers[i]) && |answers[i]| == |batch[i]|
      ensures Texts(answers[i]) == TextsOf(batch[i]) && Raws(answers[i]) == RawsOf(batch[i])
      ensures Scores(answers[i], atof) == ScoresOf(batch[i], atof)
      ensures Alignments(answers[i]) == AlignmentsOf(batch[i])
    {
      assert answers[i] == Fields(Rendered(batch[i]), LINE_END);
      ResponseIsRead(batch[i], atof);
    }
  }

  /** Translating a batch of rendered n-best lists from empty vectors: text r joins the detokenised hypotheses of
      rank r of the sentences that have one, in sentence order, and so for raw texts and scores. */
  lemma RenderedBatchTransposes(batch: seq<seq<Hypothesis>>, atof: text -> real, r: nat)
    requires AllWellFormed(batch)
    ensures var n := |batch|;
      var answers := Answered(Messages(batch));
      && |answers| == n && AnswersComplete(answers)
      && var texts := Batched([], TextBatch(answers), n, WithSpace);
      && var raws := Batched([], RawBatch(answers), n, WithSpace);
      && var scores := Batched([], ScoreBatch(answers, atof), n, Plus);
      && |texts| == |raws| == |scores|
      && (r < |texts| <==> exists i :: 0 <= i < n && r < |batch[i]|)
      && (r < |texts| ==>
           texts[r] == Joined(Row(TextsOfAll(batch), n, r), [SPACE]))
      && (r < |raws| ==> raws[r] == Joined(Row(RawsOfAll(batch), n, r), [SPACE]))
      && (r < |scores| ==> scores[r] == Sum(Row(ScoresOfAll(batch, atof), n, r)))
  {
    hide *;
    RenderedBatch(batch, atof);
    OutputsTranspose(Answered(Messages(batch)), atof, r);
  }

  /** A response of two lines of which only the second has an alignment makes the source write beyond the end. */
  lemma MissingAlignmentOverflows(first: Hypothesis, second: Hypothesis)
    requires WellFormed(first) && WellFormed(second)
    requires first.alignment.None? && second.alignment.Some?
    ensures var answers := Answered(Messages([[first, second]]));
      && AnswersComplete(answers)
      && !Filled(0, AlignmentBatch(answers)) && !BatchFits([], AlignmentBatch(answers), WithSpace)
  {
    hide WellFormed, Messages, Answered, AnswersComplete, AlignmentBatch, BatchFits;
    var batch := [[first, second]];
    RenderedBatch(batch, text => 0.0);
    var columns: seq<seq<Option<text>>> := AlignmentsOfAll(batch);
    BatchFitsIff([], columns, WithSpace);
    NoneEarlier(columns, 0);
    assert columns[0][1].Some? && columns[0][0].None?;
  }

  /** The alignments, when every gap was filled before, are transposed as well. */
  lemma AlignmentsTranspose(answers: seq<seq<text>>, r: nat)
    requires AnswersComplete(answers) && Filled(0, AlignmentBatch(answers))
    ensures var alignments := Batched([], AlignmentBatch(answers), |answers|, WithSpace);
      var row := Row(AlignmentBatch(answers), |answers|, r);
      && (r < |alignments| <==> row != [])
      && (r < |alignments| ==> alignments[r] == Joined(row, [SPACE]))
  {
    BatchFitsIff([], AlignmentBatch(answers), WithSpace);
    BatchTransposes(AlignmentBatch(answers), |answers|, WithSpace, r);
    var row := Row(AlignmentBatch(answers), |answers|, r);
    if row != [] {
      GluedIsJoined(row);
    }
  }
}
