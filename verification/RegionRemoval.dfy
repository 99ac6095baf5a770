/** The edge-particle filter of `regionRemoval` in itl2/regionremoval.h.
    Particle analysis yields one row of measurements per particle; when edges
    are to be preserved, the on-edge analyzer is added last, and every row
    whose last column (the on-edge flag) is nonzero is erased before the
    remaining particles are filled. Particle analysis, filling and
    thresholding are not part of this model. */
module RegionRemoval {

  /** One row of the particle analysis results. */
  type Row = seq<real>

  /** `size_t` arithmetic wraps modulo 2^64. */
  const SizeModulus: int := 0x1_0000_0000_0000_0000

  /** The number of rows is a `size_t` value, so indices into them do not wrap. */
  predicate FitsSizeT(rows: seq<Row>)
  {
    |rows| < SizeModulus
  }

  /** The analyzers `regionRemoval` runs, in order. */
  datatype Analyzer = Coordinates | Volume | IsOnEdge

  function Analyzers(preserveEdges: bool): (r: seq<Analyzer>)
    ensures |r| >= 2 && r[0] == Coordinates && r[1] == Volume
    ensures preserveEdges <==> IsOnEdge in r
    ensures preserveEdges ==> r[|r| - 1] == IsOnEdge
  {
    [Coordinates, Volume] + (if preserveEdges then [IsOnEdge] else [])
  }

  predicate RowsHaveColumns(rows: seq<Row>)
  {
    forall i :: 0 <= i < |rows| ==> |rows[i]| > 0
  }

  /** The particle touches the image edge: its last column is nonzero. */
  predicate OnEdge(row: Row)
    requires |row| > 0
  {
    row[|row| - 1] != 0.0
  }

  /** Every row has a zero last column. */
  predicate NoneOnEdge(rows: seq<Row>)
  {
    forall i :: 0 <= i < |rows| ==> |rows[i]| > 0 && !OnEdge(rows[i])
  }

  /** Reference definition: the rows not on the edge, in their original order. */
  function InteriorRows(rows: seq<Row>): (r: seq<Row>)
    requires RowsHaveColumns(rows)
    ensures RowsHaveColumns(r)
    ensures |r| <= |rows|
  {
    if |rows| == 0 then []
    else
      var last := rows[|rows| - 1];
      InteriorRows(rows[..|rows| - 1]) + (if OnEdge(last) then [] else [last])
  }

  /** No kept row is on the edge, every kept row is a row of the input, and
      every input row not on the edge is kept. */
  lemma {:induction false} InteriorRowsMembers(rows: seq<Row>)
    requires RowsHaveColumns(rows)
    ensures forall i :: 0 <= i < |InteriorRows(rows)| ==>
      !OnEdge(InteriorRows(rows)[i]) && InteriorRows(rows)[i] in rows
    ensures forall i :: 0 <= i < |rows| && !OnEdge(rows[i]) ==> rows[i] in InteriorRows(rows)
  {
    if |rows| > 0 {
      var front := rows[..|rows| - 1];
      InteriorRowsMembers(front);
      assert forall i :: 0 <= i < |front| ==> front[i] == rows[i];
    }
  }

  /** Filtering distributes over concatenation: kept rows keep their
      relative order. */
  lemma {:induction false} InteriorRowsAppend(a: seq<Row>, b: seq<Row>)
    requires RowsHaveColumns(a) && RowsHaveColumns(b)
    ensures RowsHaveColumns(a + b)
    ensures InteriorRows(a + b) == InteriorRows(a) + InteriorRows(b)
    decreases |b|
  {
    if |b| > 0 {
      var b' := b[..|b| - 1];
      assert (a + b)[..|a + b| - 1] == a + b';
      InteriorRowsAppend(a, b');
    } else {
      assert a + b == a;
    }
  }

  /** Filtering a second time removes nothing more. */
  lemma {:induction false} InteriorRowsIdempotent(rows: seq<Row>)
    requires RowsHaveColumns(rows)
    ensures InteriorRows(InteriorRows(rows)) == InteriorRows(rows)
  {
    if |rows| > 0 {
      var front := rows[..|rows| - 1];
      var last := rows[|rows| - 1];
      var tail: seq<Row> := if OnEdge(last) then [] else [last];
      assert InteriorRows(rows) == InteriorRows(front) + tail;
      InteriorRowsIdempotent(front);
      if !OnEdge(last) {
        assert [last][..0] == [];
        assert InteriorRows(tail) == tail;
      }
      InteriorRowsAppend(InteriorRows(front), tail);
    }
  }

  /** Filtering one more row extends the filtered prefix by that row, unless
      it is on the edge. */
  lemma InteriorRowsStep(rows: seq<Row>, i: nat)
    requires RowsHaveColumns(rows) && i < |rows|
    ensures InteriorRows(rows[..i + 1]) == InteriorRows(rows[..i]) + (if OnEdge(rows[i]) then [] else [rows[i]])
  {
    assert rows[..i + 1][..i] == rows[..i];
  }

  /** The list during the loop is the filtered prefix of the input followed
      by the rows not yet examined, and the index points just past the
      filtered prefix. Examining the next row, by erasing it when it is on the
      edge or stepping over it otherwise, keeps that shape one row further. */
  lemma ExamineNext(results: seq<Row>, examined: nat, kept: seq<Row>, n: nat)
    requires RowsHaveColumns(results) && examined < |results|
    requires n == |InteriorRows(results[..examined])|
    requires kept == InteriorRows(results[..examined]) + results[examined..]
    ensures n <= examined && n < |kept| && kept[n] == results[examined] && |kept[n]| > 0
    ensures OnEdge(kept[n]) ==>
      n == |InteriorRows(results[..examined + 1])| &&
      kept[..n] + kept[n + 1..] == InteriorRows(results[..examined + 1]) + results[examined + 1..]
    ensures !OnEdge(kept[n]) ==>
      n + 1 == |InteriorRows(results[..examined + 1])| &&
      kept == InteriorRows(results[..examined + 1]) + results[examined + 1..]
  {
    var done := InteriorRows(results[..examined]);
    assert |results[..examined]| == examined;
    assert results[examined..] == [results[examined]] + results[examined + 1..];
    InteriorRowsStep(results, examined);
    if OnEdge(results[examined]) {
      assert kept[..n] == done;
      assert kept[n + 1..] == results[examined + 1..];
    } else {
      assert kept == (done + [results[examined]]) + results[examined + 1..];
    }
  }

  /** `n--` then `n++` on a `size_t` gives n back, also when n is 0. */
  lemma DecrementIncrementRestores(n: int)
    requires 0 <= n < SizeModulus
    ensures ((n - 1) % SizeModulus + 1) % SizeModulus == n
  {
  }

  /** `n++` on a `size_t` below its maximum does not wrap. */
  lemma IncrementDoesNotWrap(n: int)
    requires 0 <= n && n + 1 < SizeModulus
    ensures (n + 1) % SizeModulus == n + 1
  {
  }

  /** The shape of the list during the erase loop: the rows of the first
      `examined` input rows that are not on the edge, followed by the input
      rows not yet examined, with the index just past the filtered part. */
  ghost predicate LoopShape(results: seq<Row>, examined: nat, kept: seq<Row>, n: int)
  {
    RowsHaveColumns(results) && examined <= |results| &&
    n == |InteriorRows(results[..examined])| &&
    kept == InteriorRows(results[..examined]) + results[examined..]
  }

  /** Once the index reaches the end of the list, every input row has been
      examined and the list is the filtered input. */
  lemma LoopShapeDone(results: seq<Row>, examined: nat, kept: seq<Row>, n: int)
    requires LoopShape(results, examined, kept, n) && n >= |kept|
    ensures kept == InteriorRows(results)
  {
    assert results[..examined] == results;
  }

  /** One pass of the erase loop's body at index n: erase the row if it is on
      the edge and step `n--`, then `n++`, both in `size_t` arithmetic. */
  method ExamineRow(ghost results: seq<Row>, ghost examined: nat, kept: seq<Row>, n: int)
    returns (kept': seq<Row>, n': int)
    requires FitsSizeT(results)
    requires LoopShape(results, examined, kept, n) && examined < |results|
    ensures LoopShape(results, examined + 1, kept', n')
    ensures |kept'| - n' < |kept| - n
  {
    ExamineNext(results, examined, kept, n);
    kept' := kept;
    n' := n;
    if kept'[n'][|kept'[n']| - 1] != 0.0 {
      kept' := kept'[..n'] + kept'[n' + 1..];
      DecrementIncrementRestores(n');
      n' := (n' - 1) % SizeModulus;
    } else {
      IncrementDoesNotWrap(n');
    }
    n' := (n' + 1) % SizeModulus;
  }

  /** The erase loop of `regionRemoval`, with its unsigned index: after an
      erase at index n, `n--` (which wraps to 2^64 - 1 at n == 0) followed
      by `n++` leaves n where it was, so the row moved into index n is examined
      next. */
  method RemoveEdgeParticles(results: seq<Row>) returns (kept: seq<Row>)
    requires RowsHaveColumns(results)
    requires FitsSizeT(results)
    ensures kept == InteriorRows(results)
  {
    kept := results;
    var n: int := 0;
    ghost var examined: nat := 0;
    while n < |kept|
      invariant LoopShape(results, examined, kept, n)
      decreases |kept| - n
    {
      kept, n := ExamineRow(results, examined, kept, n);
      examined := examined + 1;
    }
    LoopShapeDone(results, examined, kept, n);
  }

  /** The particles handed to filling: all of them, or, when edges are
      preserved, those whose on-edge flag is zero. */
  method ParticlesToFill(preserveEdges: bool, results: seq<Row>) returns (toFill: seq<Row>)
    requires preserveEdges ==> RowsHaveColumns(results)
    requires FitsSizeT(results)
    ensures preserveEdges ==> NoneOnEdge(toFill)
    ensures toFill == if preserveEdges then InteriorRows(results) else results
  {
    toFill := results;
    if preserveEdges {
      toFill := RemoveEdgeParticles(results);
      InteriorRowsMembers(results);
    }
  }
}
