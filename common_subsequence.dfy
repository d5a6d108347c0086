// Common subsequence matching with step sizes (1, 0), (0, 1), (1, 1):
// the accumulated score matrix, the choice of the start cell and the
// backtracking of the score-maximising path.
module CommonSubsequence {
  import opened Paths

  /// The accumulated score D[n, m]: the first cell, the first column and the
  /// first row accumulate along one axis, every other cell extends the best
  /// of its three predecessors; each value is clamped at 0, so a cell whose
  /// best predecessor would lose score restarts the match there.
  function Acc(S: array2<int>, n: nat, m: nat): (r: int)
    reads S
    requires n < S.Length0 && m < S.Length1
    decreases n + m
  {
    if n == 0 && m == 0 then Max(0, S[0, 0])
    else if m == 0 then Max(0, Acc(S, n - 1, 0) + S[n, 0])
    else if n == 0 then Max(0, Acc(S, 0, m - 1) + S[0, m])
    else
      Max(Max(Max(0, Acc(S, n - 1, m - 1) + S[n, m]), Acc(S, n - 1, m) + S[n, m]),
          Acc(S, n, m - 1) + S[n, m])
  }

  lemma AccNonNegative(S: array2<int>, n: nat, m: nat)
    requires n < S.Length0 && m < S.Length1
    ensures Acc(S, n, m) >= 0
  {
  }

  /// D is the accumulated score matrix of S.
  ghost predicate IsAccumulated(S: array2<int>, D: array2<int>)
    reads S, D
  {
    && D.Length0 == S.Length0 && D.Length1 == S.Length1
    && forall n, m {:trigger D[n, m]} :: 0 <= n < D.Length0 && 0 <= m < D.Length1 ==> D[n, m] == Acc(S, n, m)
  }

  /// Fills the accumulated score matrix in the order of the source: first cell,
  /// first column, first row, then the interior row by row.
  method ComputeAccumulated(S: array2<int>) returns (D: array2<int>)
    requires S.Length0 > 0 && S.Length1 > 0
    ensures fresh(D)
    ensures IsAccumulated(S, D)
    ensures forall n, m :: 0 <= n < D.Length0 && 0 <= m < D.Length1 ==> D[n, m] >= 0
  {
    var N, M := S.Length0, S.Length1;
    D := new int[N, M]((i, j) => 0);
    FillBorder(S, D);
    for n := 1 to N
      invariant forall i, j {:trigger D[i, j]} :: 0 <= i < N && 0 <= j < M && (i < n || j == 0) ==> D[i, j] == Acc(S, i, j)
    {
      FillRow(S, D, n);
    }
    forall n, m | 0 <= n < N && 0 <= m < M ensures D[n, m] >= 0 {
      AccNonNegative(S, n, m);
    }
  }

  /// The first three steps of the fill: the first cell, then the first
  /// column, then the first row, each accumulating along its axis.
  method FillBorder(S: array2<int>, D: array2<int>)
    requires D != S && D.Length0 == S.Length0 && D.Length1 == S.Length1 && D.Length0 > 0 && D.Length1 > 0
    modifies D
    ensures forall i, j {:trigger D[i, j]} :: 0 <= i < D.Length0 && 0 <= j < D.Length1 && (i == 0 || j == 0) ==>
              D[i, j] == Acc(S, i, j)
    ensures forall i, j {:trigger D[i, j]} :: 0 < i < D.Length0 && 0 < j < D.Length1 ==> D[i, j] == old(D[i, j])
  {
    D[0, 0] := Max(0, S[0, 0]);
    for n := 1 to D.Length0
      invariant forall i {:trigger D[i, 0]} :: 0 <= i < n ==> D[i, 0] == Acc(S, i, 0)
      invariant forall i, j {:trigger D[i, j]} :: 0 < i < D.Length0 && 0 < j < D.Length1 ==> D[i, j] == old(D[i, j])
    {
      var v := Max(0, D[n - 1, 0] + S[n, 0]);
      assert v == Acc(S, n, 0);
      D[n, 0] := v;
    }
    for m := 1 to D.Length1
      invariant forall i {:trigger D[i, 0]} :: 0 <= i < D.Length0 ==> D[i, 0] == Acc(S, i, 0)
      invariant forall j {:trigger D[0, j]} :: 0 <= j < m ==> D[0, j] == Acc(S, 0, j)
      invariant forall i, j {:trigger D[i, j]} :: 0 < i < D.Length0 && 0 < j < D.Length1 ==> D[i, j] == old(D[i, j])
    {
      var v := Max(0, D[0, m - 1] + S[0, m]);
      assert v == Acc(S, 0, m);
      D[0, m] := v;
    }
  }

  /// The inner loop of the interior fill: row n from column 1 on, once every
  /// earlier row and the first column hold their accumulated scores.
  method FillRow(S: array2<int>, D: array2<int>, n: nat)
    requires D != S && D.Length0 == S.Length0 && D.Length1 == S.Length1 && 1 <= n < D.Length0 && D.Length1 > 0
    requires forall i, j {:trigger D[i, j]} :: 0 <= i < D.Length0 && 0 <= j < D.Length1 && (i < n || j == 0) ==> D[i, j] == Acc(S, i, j)
    modifies D
    ensures forall i, j {:trigger D[i, j]} :: 0 <= i < D.Length0 && 0 <= j < D.Length1 && (i <= n || j == 0) ==> D[i, j] == Acc(S, i, j)
    ensures forall i, j {:trigger D[i, j]} :: n < i < D.Length0 && 0 < j < D.Length1 ==> D[i, j] == old(D[i, j])
  {
    for m := 1 to D.Length1
      invariant forall i, j {:trigger D[i, j]} :: 0 <= i < D.Length0 && 0 <= j < D.Length1 && (i < n || j == 0 || (i == n && j < m)) ==>
                  D[i, j] == Acc(S, i, j)
      invariant forall i, j {:trigger D[i, j]} :: n < i < D.Length0 && 0 < j < D.Length1 ==> D[i, j] == old(D[i, j])
    {
      assert D[n - 1, m - 1] == Acc(S, n - 1, m - 1) && D[n - 1, m] == Acc(S, n - 1, m) && D[n, m - 1] == Acc(S, n, m - 1);
      var v := Max(Max(Max(0, D[n - 1, m - 1] + S[n, m]), D[n - 1, m] + S[n, m]), D[n, m - 1] + S[n, m]);
      assert v == Acc(S, n, m);
      D[n, m] := v;
    }
  }

  /// Cell a comes before cell b in row-major order (the order of a flattened
  /// matrix).
  predicate RowMajorBefore(a: Cell, b: Cell) {
    a.0 < b.0 || (a.0 == b.0 && a.1 < b.1)
  }

  /// c holds the largest value of D, and no cell before it in row-major order
  /// holds that value.
  ghost predicate IsFirstMax(D: array2<int>, c: Cell)
    reads D
  {
    && InBounds(D, c)
    && (forall i, j :: 0 <= i < D.Length0 && 0 <= j < D.Length1 ==> D[i, j] <= D[c.0, c.1])
    && (forall i, j :: 0 <= i < D.Length0 && 0 <= j < D.Length1 && RowMajorBefore((i, j), c) ==>
          D[i, j] < D[c.0, c.1])
  }

  /// The cell of the first maximum of D in row-major order: the flat index
  /// that argmax returns, split into row and column by divmod.
  method ArgMax(D: array2<int>) returns (n: nat, m: nat)
    requires D.Length0 > 0 && D.Length1 > 0
    ensures IsFirstMax(D, (n, m))
  {
    n, m := 0, 0;
    for i := 0 to D.Length0
      invariant InBounds(D, (n, m)) && !RowMajorBefore((i, 0), (n, m))
      invariant forall i', j' :: 0 <= i' < i && 0 <= j' < D.Length1 ==> D[i', j'] <= D[n, m]
      invariant forall i', j' :: 0 <= i' < i && 0 <= j' < D.Length1 && RowMajorBefore((i', j'), (n, m)) ==>
                  D[i', j'] < D[n, m]
    {
      for j := 0 to D.Length1
        invariant InBounds(D, (n, m)) && !RowMajorBefore((i, j), (n, m))
        invariant forall i', j' :: 0 <= i' < D.Length0 && 0 <= j' < D.Length1 && RowMajorBefore((i', j'), (i, j)) ==>
                    D[i', j'] <= D[n, m]
        invariant forall i', j' ::
                    0 <= i' < D.Length0 && 0 <= j' < D.Length1 && RowMajorBefore((i', j'), (i, j)) && RowMajorBefore((i', j'), (n, m))
                    ==> D[i', j'] < D[n, m]
      {
        if D[i, j] > D[n, m] {
          n, m := i, j;
        }
      }
    }
  }

  /// The cell one backtracking step goes to from c: along the first row only
  /// left, along the first column only up, elsewhere to the predecessor with
  /// the largest accumulated score, ties going to the diagonal first, then up,
  /// then left.
  function Predecessor(D: array2<int>, c: Cell): (p: Cell)
    reads D
    requires InBounds(D, c) && c != (0, 0)
    ensures InBounds(D, p) && IsStep(p, c)
    ensures c.0 == 0 ==> p == (0, c.1 - 1)
    ensures c.0 > 0 && c.1 == 0 ==> p == (c.0 - 1, 0)
    ensures c.0 > 0 && c.1 > 0 ==>
              && D[p.0, p.1] >= D[c.0 - 1, c.1 - 1]
              && D[p.0, p.1] >= D[c.0 - 1, c.1]
              && D[p.0, p.1] >= D[c.0, c.1 - 1]
    ensures c.0 > 0 && c.1 > 0 && p != (c.0 - 1, c.1 - 1) ==> D[c.0 - 1, c.1 - 1] < D[p.0, p.1]
    ensures c.0 > 0 && c.1 > 0 && p == (c.0, c.1 - 1) ==> D[c.0 - 1, c.1] < D[p.0, p.1]
  {
    var (n, m) := c;
    if n == 0 then (0, m - 1)
    else if m == 0 then (n - 1, 0)
    else
      var val := Max(Max(D[n - 1, m - 1], D[n - 1, m]), D[n, m - 1]);
      if val == D[n - 1, m - 1] then (n - 1, m - 1)
      else if val == D[n - 1, m] then (n - 1, m)
      else (n, m - 1)
  }

  /// One backtracking step goes from c to p.
  ghost predicate StepsBackTo(D: array2<int>, c: Cell, p: Cell)
    reads D
  {
    InBounds(D, c) && c != (0, 0) && p == Predecessor(D, c)
  }

  /// The path the backtracking yields from cell c, earliest cell first. It
  /// follows Predecessor while the current cell is not (0, 0) and its score
  /// is not 0; the cell where it stops is kept only if its score is not 0.
  function Backtrack(D: array2<int>, c: Cell): (P: seq<Cell>)
    reads D
    requires InBounds(D, c)
    decreases c.0 + c.1
  {
    if D[c.0, c.1] == 0 then []
    else if c == (0, 0) then [c]
    else Backtrack(D, Predecessor(D, c)) + [c]
  }

  /// The backtracked path runs inside D by admissible steps and ends at its
  /// start cell c; it is empty exactly when D is 0 at c; every cell on it has
  /// a nonzero score and is the chosen predecessor of the next one; and it
  /// begins at (0, 0) or right after a cell whose score is 0.
  lemma {:induction false} BacktrackShape(D: array2<int>, c: Cell)
    requires InBounds(D, c)
    ensures var P := Backtrack(D, c);
      && AllInBounds(D, P) && Admissible(P)
      && (|P| == 0 <==> D[c.0, c.1] == 0)
      && (|P| > 0 ==> P[|P| - 1] == c)
      && (forall i :: 0 <= i < |P| ==> D[P[i].0, P[i].1] != 0)
      && (forall i :: 0 <= i < |P| - 1 ==> StepsBackTo(D, P[i + 1], P[i]))
      && (|P| > 0 ==> P[0] == (0, 0) || D[Predecessor(D, P[0]).0, Predecessor(D, P[0]).1] == 0)
    decreases c.0 + c.1
  {
    if D[c.0, c.1] != 0 && c != (0, 0) {
      BacktrackShape(D, Predecessor(D, c));
    }
  }

  /// The score-maximising path: backtracking starts from the first maximum of
  /// D when cellmax holds, and from the caller's cell (n0, m0) otherwise.
  method OptimalPath(D: array2<int>, cellmax: bool, n0: nat, m0: nat) returns (P: seq<Cell>)
    requires if cellmax then D.Length0 > 0 && D.Length1 > 0 else InBounds(D, (n0, m0))
    ensures cellmax ==> exists c :: IsFirstMax(D, c) && P == Backtrack(D, c)
    ensures !cellmax ==> P == Backtrack(D, (n0, m0))
  {
    var n, m := n0, m0;
    if cellmax {
      n, m := ArgMax(D);
    }
    P := BacktrackFrom(D, n, m);
    assert cellmax ==> IsFirstMax(D, (n, m));
  }

  /// D has only one first maximum, so with cellmax the start cell, and with
  /// it the path, is determined by D.
  lemma FirstMaxUnique(D: array2<int>, a: Cell, b: Cell)
    requires IsFirstMax(D, a) && IsFirstMax(D, b)
    ensures a == b
  {
  }

  /// The backtracking loop from cell (n0, m0): it collects the visited cells,
  /// drops the last one when its score is 0, and reverses the list.
  method BacktrackFrom(D: array2<int>, n0: nat, m0: nat) returns (P: seq<Cell>)
    requires InBounds(D, (n0, m0))
    ensures P == Backtrack(D, (n0, m0))
  {
    var n: nat, m: nat := n0, m0;
    // The source appends each visited cell and reverses the list at the end;
    // prepending builds the reversed list directly.
    P := [(n, m)];
    ghost var later: seq<Cell> := [];  // the cells of P after the current one
    while (n, m) != (0, 0) && D[n, m] != 0
      invariant InBounds(D, (n, m)) && P == [(n, m)] + later
      invariant Backtrack(D, (n0, m0)) == Backtrack(D, (n, m)) + later
      decreases n + m
    {
      var cell := Predecessor(D, (n, m));
      assert Backtrack(D, (n, m)) + later == Backtrack(D, cell) + ([(n, m)] + later);
      later := [(n, m)] + later;
      P := [cell] + P;
      n, m := cell.0, cell.1;
    }
    if D[n, m] == 0 {
      P := P[1..];
    }
  }

  /// One backtracking step inverts the recurrence: a cell with a positive
  /// accumulated score gets it from its chosen predecessor plus its own score.
  lemma PredecessorScore(S: array2<int>, D: array2<int>, c: Cell)
    requires IsAccumulated(S, D) && InBounds(D, c) && c != (0, 0)
    requires D[c.0, c.1] != 0
    ensures D[c.0, c.1] == D[Predecessor(D, c).0, Predecessor(D, c).1] + S[c.0, c.1]
  {
    var (n, m) := c;
    assert D[n, m] == Acc(S, n, m);
    if n > 0 && m > 0 {
      assert D[n - 1, m - 1] == Acc(S, n - 1, m - 1);
      assert D[n - 1, m] == Acc(S, n - 1, m);
      assert D[n, m - 1] == Acc(S, n, m - 1);
    } else if n > 0 {
      assert D[n - 1, 0] == Acc(S, n - 1, 0);
    } else {
      assert D[0, m - 1] == Acc(S, 0, m - 1);
    }
  }

  /// The backtracked path scores exactly the accumulated value at the cell it
  /// starts from (an empty path scores 0, and it is empty exactly when that
  /// value is 0).
  lemma {:induction false} BacktrackScore(S: array2<int>, D: array2<int>, c: Cell)
    requires IsAccumulated(S, D) && InBounds(D, c)
    ensures AllInBounds(S, Backtrack(D, c))
    ensures Score(S, Backtrack(D, c)) == D[c.0, c.1]
    decreases c.0 + c.1
  {
    var P := Backtrack(D, c);
    if D[c.0, c.1] == 0 {
    } else if c == (0, 0) {
      assert D[0, 0] == Acc(S, 0, 0);
      assert P[..0] == [];
    } else {
      var p := Predecessor(D, c);
      BacktrackScore(S, D, p);
      PredecessorScore(S, D, c);
      assert P[..|P| - 1] == Backtrack(D, p);
    }
  }

  /// No admissible path ending at a cell scores more than the accumulated
  /// value there.
  lemma {:induction false} ScoreAtMostAcc(S: array2<int>, Q: seq<Cell>)
    requires Q != [] && AllInBounds(S, Q) && Admissible(Q)
    ensures Score(S, Q) <= Acc(S, Q[|Q| - 1].0, Q[|Q| - 1].1)
  {
    var (n, m) := Q[|Q| - 1];
    if |Q| == 1 {
      assert Q[..0] == [];
      if n > 0 && m > 0 {
        assert Acc(S, n - 1, m - 1) >= 0;
      } else if n > 0 {
        assert Acc(S, n - 1, 0) >= 0;
      } else if m > 0 {
        assert Acc(S, 0, m - 1) >= 0;
      }
    } else {
      var Q' := Q[..|Q| - 1];
      assert IsStep(Q'[|Q'| - 1], Q[|Q| - 1]);
      ScoreAtMostAcc(S, Q');
    }
  }

  /// The backtracked path is score-maximising: no admissible path ending at
  /// the start cell scores more, and when the start cell holds the maximum of
  /// D (cellmax), no admissible path anywhere scores more.
  lemma OptimalPathIsOptimal(S: array2<int>, D: array2<int>, start: Cell, Q: seq<Cell>)
    requires IsAccumulated(S, D) && InBounds(D, start)
    requires Q != [] && AllInBounds(S, Q) && Admissible(Q)
    requires Q[|Q| - 1] == start || IsFirstMax(D, start)
    ensures AllInBounds(S, Backtrack(D, start))
    ensures Score(S, Q) <= Score(S, Backtrack(D, start))
  {
    BacktrackScore(S, D, start);
    ScoreAtMostAcc(S, Q);
    var last := Q[|Q| - 1];
    assert D[last.0, last.1] == Acc(S, last.0, last.1);
  }
}
