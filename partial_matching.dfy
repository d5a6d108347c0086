// Partial matching: an accumulated matrix with one extra row and column for
// the empty prefixes, where skipping an element of either sequence costs
// nothing, and the backtracking that records the matched pairs.
module PartialMatching {
  import opened Paths

  /// The accumulated score D[n, m] of partial matching, for the first n
  /// elements of the first sequence and the first m of the second: 0 when
  /// either prefix is empty, otherwise the best of skipping the m-th element,
  /// skipping the n-th element, or matching the two.
  function Partial(S: array2<int>, n: nat, m: nat): (r: int)
    reads S
    requires n <= S.Length0 && m <= S.Length1
    decreases n + m
  {
    if n == 0 || m == 0 then 0
    else Max(Max(Partial(S, n, m - 1), Partial(S, n - 1, m)), Partial(S, n - 1, m - 1) + S[n - 1, m - 1])
  }

  /// D is the (N + 1) x (M + 1) partial matching matrix of the N x M matrix S.
  ghost predicate IsPartialAccumulated(S: array2<int>, D: array2<int>)
    reads S, D
  {
    && D.Length0 == S.Length0 + 1 && D.Length1 == S.Length1 + 1
    && forall n, m {:trigger D[n, m]} :: 0 <= n < D.Length0 && 0 <= m < D.Length1 ==> D[n, m] == Partial(S, n, m)
  }

  /// The pairs the backtracking from (n, m) records, earliest first: it moves
  /// left when D does not change to the left, else up when D does not change
  /// upwards, else records the diagonal pair (n - 1, m - 1) as a match and
  /// moves diagonally; it stops on the first row or column.
  function PartialTrace(D: array2<int>, n: nat, m: nat): (P: seq<Cell>)
    reads D
    requires n < D.Length0 && m < D.Length1
    decreases n + m
  {
    if n == 0 || m == 0 then []
    else if D[n, m] == D[n, m - 1] then PartialTrace(D, n, m - 1)
    else if D[n, m] == D[n - 1, m] then PartialTrace(D, n - 1, m)
    else PartialTrace(D, n - 1, m - 1) + [(n - 1, m - 1)]
  }

  /// The recorded pairs lie above and to the left of (n, m) and strictly
  /// increase in both coordinates.
  lemma {:induction false} PartialTraceIsMatching(D: array2<int>, n: nat, m: nat)
    requires n < D.Length0 && m < D.Length1
    ensures var P := PartialTrace(D, n, m);
      && (forall i :: 0 <= i < |P| ==> P[i].0 < n && P[i].1 < m)
      && StrictlyIncreasing(P)
    decreases n + m
  {
    if n == 0 || m == 0 {
    } else if D[n, m] == D[n, m - 1] {
      PartialTraceIsMatching(D, n, m - 1);
    } else if D[n, m] == D[n - 1, m] {
      PartialTraceIsMatching(D, n - 1, m);
    } else {
      PartialTraceIsMatching(D, n - 1, m - 1);
    }
  }

  /// Fills the partial matching matrix row by row and backtracks from its
  /// last cell.
  method ComputePartialMatching(S: array2<int>) returns (D: array2<int>, P: seq<Cell>)
    ensures fresh(D)
    ensures IsPartialAccumulated(S, D)
    ensures forall m :: 0 <= m < D.Length1 ==> D[0, m] == 0
    ensures forall n :: 0 <= n < D.Length0 ==> D[n, 0] == 0
    ensures P == PartialTrace(D, S.Length0, S.Length1)
    ensures AllInBounds(S, P) && StrictlyIncreasing(P)
    ensures Score(S, P) == D[S.Length0, S.Length1]
  {
    var N, M := S.Length0, S.Length1;
    D := new int[N + 1, M + 1]((i, j) => 0);
    for n := 1 to N + 1
      invariant forall i, j {:trigger D[i, j]} :: 0 <= i <= N && 0 <= j <= M && (i < n || j == 0) ==>
                  D[i, j] == Partial(S, i, j)
    {
      FillPartialRow(S, D, n);
    }
    P := TraceMatches(D, N, M);
    PartialTraceIsMatching(D, N, M);
    PartialTraceScore(S, D, N, M);
  }

  /// The backtracking loop from (N, M): it moves left, up, or diagonally,
  /// recording a match on each diagonal move, until it reaches the first row
  /// or column, and reverses the recorded list.
  method TraceMatches(D: array2<int>, N: nat, M: nat) returns (P: seq<Cell>)
    requires N < D.Length0 && M < D.Length1
    ensures P == PartialTrace(D, N, M)
  {
    var n: nat, m: nat := N, M;
    // The source appends each match and reverses the list at the end;
    // prepending builds the reversed list directly.
    P := [];
    while n > 0 && m > 0
      invariant n < D.Length0 && m < D.Length1
      invariant PartialTrace(D, N, M) == PartialTrace(D, n, m) + P
      decreases n + m
    {
      if D[n, m] == D[n, m - 1] {
        assert PartialTrace(D, n, m) == PartialTrace(D, n, m - 1);
        m := m - 1;
      } else if D[n, m] == D[n - 1, m] {
        assert PartialTrace(D, n, m) == PartialTrace(D, n - 1, m);
        n := n - 1;
      } else {
        assert PartialTrace(D, n, m) + P == PartialTrace(D, n - 1, m - 1) + ([(n - 1, m - 1)] + P);
        P := [(n - 1, m - 1)] + P;
        n, m := n - 1, m - 1;
      }
    }
  }

  /// The inner loop of the fill: row n from column 1 on, once every earlier
  /// row and the first column hold their accumulated scores.
  method FillPartialRow(S: array2<int>, D: array2<int>, n: nat)
    requires D != S && D.Length0 == S.Length0 + 1 && D.Length1 == S.Length1 + 1 && 1 <= n < D.Length0
    requires forall i, j {:trigger D[i, j]} :: 0 <= i < D.Length0 && 0 <= j < D.Length1 && (i < n || j == 0) ==>
               D[i, j] == Partial(S, i, j)
    modifies D
    ensures forall i, j {:trigger D[i, j]} :: 0 <= i < D.Length0 && 0 <= j < D.Length1 && (i <= n || j == 0) ==>
              D[i, j] == Partial(S, i, j)
    ensures forall i, j {:trigger D[i, j]} :: n < i < D.Length0 && 0 < j < D.Length1 ==> D[i, j] == old(D[i, j])
  {
    for m := 1 to D.Length1
      invariant forall i, j {:trigger D[i, j]} :: 0 <= i < D.Length0 && 0 <= j < D.Length1 && (i < n || j == 0 || (i == n && j < m)) ==>
                  D[i, j] == Partial(S, i, j)
      invariant forall i, j {:trigger D[i, j]} :: n < i < D.Length0 && 0 < j < D.Length1 ==> D[i, j] == old(D[i, j])
    {
      assert D[n, m - 1] == Partial(S, n, m - 1) && D[n - 1, m] == Partial(S, n - 1, m) && D[n - 1, m - 1] == Partial(S, n - 1, m - 1);
      var v := Max(Max(D[n, m - 1], D[n - 1, m]), D[n - 1, m - 1] + S[n - 1, m - 1]);
      assert v == Partial(S, n, m);
      D[n, m] := v;
    }
  }

  /// Every partial matching score is at least the score one cell to the left
  /// and one cell up; hence D never decreases along a row or a column.
  lemma {:induction false} PartialMonotone(S: array2<int>, n: nat, m: nat, n': nat, m': nat)
    requires n <= n' <= S.Length0 && m <= m' <= S.Length1
    ensures Partial(S, n, m) <= Partial(S, n', m')
    decreases n' - n + m' - m
  {
    if n' == 0 || m' == 0 {
      // Then n == 0 or m == 0 as well, and both scores are 0.
    } else if m < m' {
      PartialMonotone(S, n, m, n', m' - 1);
    } else if n < n' {
      PartialMonotone(S, n, m, n' - 1, m');
    }
  }

  /// Partial matching scores are never negative, whatever the signs in S.
  lemma {:induction false} PartialNonNegative(S: array2<int>, n: nat, m: nat)
    requires n <= S.Length0 && m <= S.Length1
    ensures Partial(S, n, m) >= 0
  {
    PartialMonotone(S, 0, 0, n, m);
  }

  /// The recorded matches score exactly the accumulated value they were
  /// traced back from.
  lemma {:induction false} PartialTraceScore(S: array2<int>, D: array2<int>, n: nat, m: nat)
    requires IsPartialAccumulated(S, D) && n < D.Length0 && m < D.Length1
    ensures AllInBounds(S, PartialTrace(D, n, m))
    ensures Score(S, PartialTrace(D, n, m)) == D[n, m]
    decreases n + m
  {
    PartialTraceIsMatching(D, n, m);
    if n == 0 || m == 0 {
      assert D[n, m] == Partial(S, n, m);
    } else if D[n, m] == D[n, m - 1] {
      PartialTraceScore(S, D, n, m - 1);
      assert PartialTrace(D, n, m) == PartialTrace(D, n, m - 1);
    } else if D[n, m] == D[n - 1, m] {
      PartialTraceScore(S, D, n - 1, m);
      assert PartialTrace(D, n, m) == PartialTrace(D, n - 1, m);
    } else {
      var P' := PartialTrace(D, n - 1, m - 1);
      PartialTraceScore(S, D, n - 1, m - 1);
      MatchStep(S, D, n, m);
      ScoreAppend(S, P', (n - 1, m - 1));
      assert PartialTrace(D, n, m) == P' + [(n - 1, m - 1)];
    }
  }

  /// Where the backtracking records a match, D gains exactly the score of
  /// the matched pair over the diagonal predecessor.
  lemma MatchStep(S: array2<int>, D: array2<int>, n: nat, m: nat)
    requires IsPartialAccumulated(S, D) && 0 < n < D.Length0 && 0 < m < D.Length1
    requires D[n, m] != D[n, m - 1] && D[n, m] != D[n - 1, m]
    ensures D[n, m] == D[n - 1, m - 1] + S[n - 1, m - 1]
  {
    assert D[n, m] == Partial(S, n, m);
    assert D[n, m - 1] == Partial(S, n, m - 1);
    assert D[n - 1, m] == Partial(S, n - 1, m);
    assert D[n - 1, m - 1] == Partial(S, n - 1, m - 1);
  }

  /// No matching (pairs strictly increasing in both coordinates) within the
  /// first n rows and m columns of S scores more than Partial(S, n, m): the
  /// backtracked matches are optimal.
  lemma {:induction false} MatchingScoreAtMostPartial(S: array2<int>, Q: seq<Cell>, n: nat, m: nat)
    requires n <= S.Length0 && m <= S.Length1
    requires StrictlyIncreasing(Q) && forall i :: 0 <= i < |Q| ==> Q[i].0 < n && Q[i].1 < m
    ensures AllInBounds(S, Q)
    ensures Score(S, Q) <= Partial(S, n, m)
  {
    if Q == [] {
      PartialNonNegative(S, n, m);
    } else {
      var (a, b) := Q[|Q| - 1];
      var Q' := Q[..|Q| - 1];
      MatchingScoreAtMostPartial(S, Q', a, b);
      assert Partial(S, a, b) + S[a, b] <= Partial(S, a + 1, b + 1);
      PartialMonotone(S, a + 1, b + 1, n, m);
    }
  }
}
