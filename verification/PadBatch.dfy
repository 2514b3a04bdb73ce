/** src/nmt.cpp: padding a batch to a rectangle and laying it out row by row. */
module PadBatch {
  import opened Octets

  function Max(a: nat, b: nat): nat {
    if a < b then b else a
  }

  function MaxLength(rows: seq<seq<text>>): (m: nat)
    ensures forall i :: 0 <= i < |rows| ==> |rows[i]| <= m
    ensures if rows == [] then m == 0 else exists i :: 0 <= i < |rows| && |rows[i]| == m
  {
    if rows == [] then 0 else Max(MaxLength(rows[..|rows| - 1]), |rows[|rows| - 1]|)
  }

  function Lengths(rows: seq<seq<text>>): seq<nat> {
    seq(|rows|, i requires 0 <= i < |rows| => |rows[i]|)
  }

  /** `n` empty tokens. */
  function Empties(n: nat): seq<text> {
    seq(n, _ => [])
  }

  function PaddedTo(rows: seq<seq<text>>, m: nat): (padded: seq<seq<text>>)
    requires forall i :: 0 <= i < |rows| ==> |rows[i]| <= m
    ensures |padded| == |rows| && forall i :: 0 <= i < |rows| ==> |padded[i]| == m
  {
    seq(|rows|, i requires 0 <= i < |rows| => rows[i] + Empties(m - |rows[i]|))
  }

  lemma FirstWidth(rows: seq<seq<text>>, i: nat)
    requires i < |rows|
    ensures Lengths(rows[..i + 1]) == Lengths(rows[..i]) + [|rows[i]|]
    ensures MaxLength(rows[..i + 1]) == Max(MaxLength(rows[..i]), |rows[i]|)
  {
    assert rows[..i + 1][..i] == rows[..i];
  }

  lemma NoWidth(rows: seq<seq<text>>)
    ensures Lengths(rows[..0]) == [] && MaxLength(rows[..0]) == 0
  {}

  /** One row is filled up. */
  lemma FillStep(rows: seq<seq<text>>, now: seq<seq<text>>, i: nat, m: nat)
    requires i < |rows| == |now| && forall k :: 0 <= k < |rows| ==> |rows[k]| <= m
    requires now == PaddedTo(rows, m)[..i] + rows[i..]
    ensures now[i] == rows[i]
    ensures now[i := rows[i] + Empties(m - |rows[i]|)] == PaddedTo(rows, m)[..i + 1] + rows[i + 1..]
  {
    hide Empties;
  }

  /** What padding to the greatest length means, row by row. */
  lemma PaddedRows(rows: seq<seq<text>>, padded: seq<seq<text>>)
    requires padded == PaddedTo(rows, MaxLength(rows))
    ensures |padded| == |rows| == |Lengths(rows)|
    ensures forall i :: 0 <= i < |rows| ==> Lengths(rows)[i] == |rows[i]| <= |padded[i]| == |padded[0]|
    ensures rows != [] ==> exists i :: 0 <= i < |rows| && |rows[i]| == |padded[0]|
    ensures forall i, j :: 0 <= i < |rows| && 0 <= j < |padded[i]| ==>
      padded[i][j] == if j < |rows[i]| then rows[i][j] else []
  {}

  /** The first loop of the padding: the lengths of the rows, and the greatest of them. */
  method Measure(batchTokens: array<seq<text>>) returns (lengths: seq<nat>, maxLength: nat)
    ensures lengths == Lengths(batchTokens[..]) && maxLength == MaxLength(batchTokens[..])
  {
    hide MaxLength, Lengths;
    ghost var rows := batchTokens[..];
    maxLength := 0;
    lengths := [];
    NoWidth(rows);
    for i := 0 to batchTokens.Length
      invariant lengths == Lengths(rows[..i]) && maxLength == MaxLength(rows[..i])
    {
      FirstWidth(rows, i);
      lengths := lengths + [|batchTokens[i]|];
      maxLength := Max(maxLength, |batchTokens[i]|);
    }
    assert rows[..batchTokens.Length] == rows;
  }

  /** The second loop: every row is filled up in place. */
  method FillUp(batchTokens: array<seq<text>>, maxLength: nat)
    requires forall i :: 0 <= i < batchTokens.Length ==> |batchTokens[..][i]| <= maxLength
    modifies batchTokens
    ensures batchTokens[..] == PaddedTo(old(batchTokens[..]), maxLength)
  {
    hide PaddedTo, Empties;
    ghost var rows := batchTokens[..];
    ghost var padded := PaddedTo(rows, maxLength);
    assert padded[..0] + rows[0..] == rows;
    for i := 0 to batchTokens.Length
      invariant batchTokens[..] == padded[..i] + rows[i..]
    {
      FillStep(rows, batchTokens[..], i, maxLength);
      assert batchTokens[i] == batchTokens[..][i];
      batchTokens[i] := batchTokens[i] + Empties(maxLength - |batchTokens[i]|);
    }
    assert padded[..|rows|] + rows[|rows|..] == padded;
  }

  /** Pads the rows in place and returns how long they were: all rows get the length of the longest old one, and behind
      the old tokens stand empty strings. */
  method Pad(batchTokens: array<seq<text>>) returns (lengths: seq<nat>)
    modifies batchTokens
    ensures lengths == Lengths(old(batchTokens[..]))
    ensures batchTokens[..] == PaddedTo(old(batchTokens[..]), MaxLength(old(batchTokens[..])))
    ensures var rows, padded := old(batchTokens[..]), batchTokens[..];
      && |padded| == |rows| == |lengths|
      && (forall i :: 0 <= i < |rows| ==> lengths[i] == |rows[i]| <= |padded[i]| == |padded[0]|)
      && (rows != [] ==> exists i :: 0 <= i < |rows| && |rows[i]| == |padded[0]|)
      && (forall i, j :: 0 <= i < |rows| && 0 <= j < |padded[i]| ==>
            padded[i][j] == if j < |rows[i]| then rows[i][j] else [])
  {
    hide MaxLength, PaddedTo, Lengths;
    ghost var rows := batchTokens[..];
    var maxLength;
    lengths, maxLength := Measure(batchTokens);
    FillUp(batchTokens, maxLength);
    PaddedRows(rows, batchTokens[..]);
  }

  /** The row-major fill of the tensor. */
  method Fill(batchTokens: array<seq<text>>, maxLength: nat) returns (tensor: seq<text>)
    requires forall i :: 0 <= i < batchTokens.Length ==> |batchTokens[..][i]| == maxLength
    ensures tensor == Concat(batchTokens[..])
  {
    hide Concat;
    ghost var padded := batchTokens[..];
    tensor := [];
    NoTokens(padded);
    for i := 0 to batchTokens.Length
      invariant tensor == Concat(padded[..i])
    {
      ghost var before := tensor;
      assert padded[i] == batchTokens[i];
      for j := 0 to maxLength
        invariant tensor == before + padded[i][..j]
      {
        assert padded[i][..j + 1] == padded[i][..j] + [padded[i][j]];
        tensor := tensor + [batchTokens[i][j]];
      }
      assert padded[i][..maxLength] == padded[i];
      ConcatLast(padded[..i + 1]);
      assert padded[..i + 1][..i] == padded[..i];
    }
    assert padded[..batchTokens.Length] == padded;
  }

  /** The tokens tensor, its width, and the row lengths sent along; the source reads the width off the first row. */
  method TokensTensor(batchTokens: array<seq<text>>) returns (tensor: seq<text>, maxLength: nat, lengths: seq<nat>)
    requires batchTokens.Length > 0
    modifies batchTokens
    ensures var rows := old(batchTokens[..]);
      && |lengths| == |rows| && (forall i :: 0 <= i < |rows| ==> lengths[i] == |rows[i]| <= maxLength)
      && (exists i :: 0 <= i < |rows| && |rows[i]| == maxLength)
    ensures lengths == Lengths(old(batchTokens[..])) && maxLength == MaxLength(old(batchTokens[..]))
    ensures tensor == Concat(PaddedTo(old(batchTokens[..]), maxLength))
  {
    hide Lengths, PaddedTo, Concat;
    lengths := Pad(batchTokens);
    assert batchTokens[0] == batchTokens[..][0];
    maxLength := |batchTokens[0]|;
    tensor := Fill(batchTokens, maxLength);
  }

  lemma NoTokens(rows: seq<seq<text>>)
    ensures Concat(rows[..0]) == []
  {}

  // ---- the layout

  lemma RowStep(i: nat, m: nat)
    ensures (i + 1) * m == i * m + m && i * m >= 0
  {}

  lemma {:induction false} RowsOrdered(a: nat, b: nat, m: nat)
    requires a <= b
    ensures a * m <= b * m
    decreases b
  {
    if a < b {
      RowsOrdered(a, b - 1, m);
      RowStep(b - 1, m);
    }
  }

  lemma RowsFit(i: nat, n: nat, m: nat, j: nat)
    requires i < n && j <= m
    ensures 0 <= i * m && i * m + j <= n * m
  {
    RowStep(i, m);
    RowsOrdered(i + 1, n, m);
  }

  lemma {:induction false} RectangleSize(rows: seq<seq<text>>, m: nat)
    requires forall i :: 0 <= i < |rows| ==> |rows[i]| == m
    ensures |Concat(rows)| == |rows| * m
  {
    if rows != [] {
      RectangleSize(rows[1..], m);
      RowStep(|rows| - 1, m);
    }
  }

  /** Row `i` of a rectangle lies at `i * m`. */
  lemma {:induction false} RowAt(rows: seq<seq<text>>, m: nat, i: nat)
    requires i < |rows| && forall k :: 0 <= k < |rows| ==> |rows[k]| == m
    ensures 0 <= i * m && i * m + m <= |Concat(rows)|
    ensures Concat(rows)[i * m..i * m + m] == rows[i]
  {
    RectangleSize(rows, m);
    RowsFit(i, |rows|, m, m);
    if i > 0 {
      var rest := Concat(rows[1..]);
      RowAt(rows[1..], m, i - 1);
      RowStep(i - 1, m);
      assert Concat(rows)[m..] == rest;
      assert Concat(rows)[i * m..i * m + m] == rest[(i - 1) * m..(i - 1) * m + m];
    }
  }

  /** Element (i, j) of the padded batch lies at i * m + j. */
  lemma ElementAt(rows: seq<seq<text>>, m: nat, i: nat, j: nat)
    requires i < |rows| && j < m && forall k :: 0 <= k < |rows| ==> |rows[k]| <= m
    ensures var tensor := Concat(PaddedTo(rows, m));
      && 0 <= i * m + j < |tensor|
      && tensor[i * m + j] == if j < |rows[i]| then rows[i][j] else []
  {
    var padded := PaddedTo(rows, m);
    RowAt(padded, m, i);
    assert Concat(padded)[i * m..i * m + m][j] == padded[i][j];
  }

  /** The rows read back from the tensor. */
  function Unpadded(tensor: seq<text>, lengths: seq<nat>, m: nat): seq<seq<text>>
    requires |tensor| == |lengths| * m && forall i :: 0 <= i < |lengths| ==> lengths[i] <= m
  {
    seq(|lengths|, i requires 0 <= i < |lengths| =>
      RowsFit(i, |lengths|, m, lengths[i]);
      tensor[i * m..i * m + lengths[i]])
  }

  /** The tensor with its lengths determines the ragged batch. */
  lemma UnpadUndoesPad(rows: seq<seq<text>>, m: nat)
    requires forall i :: 0 <= i < |rows| ==> |rows[i]| <= m
    ensures var tensor := Concat(PaddedTo(rows, m));
      |tensor| == |Lengths(rows)| * m && Unpadded(tensor, Lengths(rows), m) == rows
  {
    hide Concat, PaddedTo;
    var padded := PaddedTo(rows, m);
    var tensor := Concat(padded);
    RectangleSize(padded, m);
    forall i | 0 <= i < |rows| ensures Unpadded(tensor, Lengths(rows), m)[i] == rows[i] {
      RowsFit(i, |rows|, m, |rows[i]|);
      RowReadBack(rows, m, i);
    }
  }

  lemma RowReadBack(rows: seq<seq<text>>, m: nat, i: nat)
    requires i < |rows| && forall k :: 0 <= k < |rows| ==> |rows[k]| <= m
    ensures var tensor := Concat(PaddedTo(rows, m));
      0 <= i * m && i * m + |rows[i]| <= |tensor| && tensor[i * m..i * m + |rows[i]|] == rows[i]
  {
    hide Concat;
    var padded := PaddedTo(rows, m);
    RowAt(padded, m, i);
    FrontOfStretch(Concat(padded), i * m, m, |rows[i]|);
    assert padded[i][..|rows[i]|] == rows[i];
  }

  lemma FrontOfStretch(s: seq<text>, a: nat, m: nat, n: nat)
    requires n <= m && a + m <= |s|
    ensures s[a..a + n] == s[a..a + m][..n]
  {}
}
