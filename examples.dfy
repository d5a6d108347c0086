// Small score matrices whose accumulated matrices, paths and segments are
// fixed by the recurrences and by the two tie-break orders.
module Examples {
  import opened Paths
  import opened CommonSubsequence
  import opened Segments
  import opened PartialMatching

  /// S = [[1]]: D = [[1]], the path is [(0, 0)] and both segments are [0].
  method SingleCell() returns (D: array2<int>, P: seq<Cell>, segs: (seq<int>, seq<int>))
    ensures D.Length0 == 1 && D.Length1 == 1 && D[0, 0] == 1
    ensures P == [(0, 0)]
    ensures segs == ([0], [0])
  {
    var S := new int[1, 1]((i, j) => 1);
    D := ComputeAccumulated(S);
    assert D[0, 0] == Acc(S, 0, 0) == 1;
    P := OptimalPath(D, true, 0, 0);
    ghost var start: Cell :| IsFirstMax(D, start) && P == Backtrack(D, start);
    assert start == (0, 0);
    segs := InducedSegments(P);
    assert segs.0 == [0] && segs.1 == [0];
  }

  /// S = [[-1, -1], [-1, 2]]: only D[1, 1] = 2 is positive; backtracking
  /// from it finds three predecessors of score 0, takes the diagonal one by
  /// the tie-break, and drops it as a zero cell, leaving the path [(1, 1)].
  method DiagonalTieBreak() returns (D: array2<int>, P: seq<Cell>)
    ensures D.Length0 == 2 && D.Length1 == 2
    ensures D[0, 0] == 0 && D[0, 1] == 0 && D[1, 0] == 0 && D[1, 1] == 2
    ensures P == [(1, 1)]
  {
    var S := new int[2, 2]((i, j) => -1);
    S[1, 1] := 2;
    D := ComputeAccumulated(S);
    assert D[0, 0] == Acc(S, 0, 0) == 0;
    assert D[0, 1] == Acc(S, 0, 1) == 0;
    assert D[1, 0] == Acc(S, 1, 0) == 0;
    assert D[1, 1] == Acc(S, 1, 1) == 2;
    P := OptimalPath(D, true, 0, 0);
    ghost var start: Cell :| IsFirstMax(D, start) && P == Backtrack(D, start);
    DiagonalPathFrom(D, start);
  }

  /// In D = [[0, 0], [0, 2]] the first maximum is (1, 1), whose diagonal
  /// predecessor (0, 0) is a zero cell and is dropped.
  lemma DiagonalPathFrom(D: array2<int>, c: Cell)
    requires D.Length0 == 2 && D.Length1 == 2
    requires D[0, 0] == 0 && D[0, 1] == 0 && D[1, 0] == 0 && D[1, 1] == 2
    requires IsFirstMax(D, c)
    ensures Backtrack(D, c) == [(1, 1)]
  {
    assert D[c.0, c.1] >= D[1, 1];
    assert c == (1, 1);
    assert Predecessor(D, (1, 1)) == (0, 0);
  }

  /// S = [[0, 1], [1, 0]]: the best partial matching scores 1 with either
  /// (0, 1) or (1, 0); moving left before up before diagonally selects (1, 0).
  method LeftFirstTieBreak() returns (D: array2<int>, P: seq<Cell>)
    ensures D.Length0 == 3 && D.Length1 == 3 && D[2, 2] == 1
    ensures P == [(1, 0)]
  {
    var S := new int[2, 2]((i, j) => if i == j then 0 else 1);
    D, P := ComputePartialMatching(S);
    assert D[1, 1] == Partial(S, 1, 1) == 0;
    assert D[1, 2] == Partial(S, 1, 2) == 1;
    assert D[2, 1] == Partial(S, 2, 1) == 1;
    assert D[2, 2] == Partial(S, 2, 2) == 1;
    assert D[2, 0] == 0 && D[1, 0] == 0;
  }
}
