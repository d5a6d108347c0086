// Index pairs, alignment paths and their scores over a score matrix S.
// S is an N x M matrix: row n belongs to element n of the first sequence,
// column m to element m of the second.
module Paths {

  /// An index pair (n, m) into a matrix.
  type Cell = (nat, nat)

  /// Python's two-argument max on numbers (the value is all that matters).
  function Max(a: int, b: int): (r: int) {
    if a >= b then a else b
  }

  predicate InBounds<T>(A: array2<T>, c: Cell) {
    c.0 < A.Length0 && c.1 < A.Length1
  }

  predicate AllInBounds<T>(A: array2<T>, P: seq<Cell>) {
    forall i :: 0 <= i < |P| ==> InBounds(A, P[i])
  }

  /// b follows a by one of the step sizes (1, 0), (0, 1) or (1, 1).
  predicate IsStep(a: Cell, b: Cell) {
    || (b.0 == a.0 + 1 && b.1 == a.1)
    || (b.0 == a.0 && b.1 == a.1 + 1)
    || (b.0 == a.0 + 1 && b.1 == a.1 + 1)
  }

  /// A path of common subsequence matching: every consecutive pair of cells
  /// is one admissible step apart.
  predicate Admissible(P: seq<Cell>) {
    forall i :: 0 <= i < |P| - 1 ==> IsStep(P[i], P[i + 1])
  }

  /// A matching: both coordinates strictly increase along the sequence.
  predicate StrictlyIncreasing(P: seq<Cell>) {
    forall i, j :: 0 <= i < j < |P| ==> P[i].0 < P[j].0 && P[i].1 < P[j].1
  }

  /// The sum of S over the cells of P.
  function Score(S: array2<int>, P: seq<Cell>): (r: int)
    reads S
    requires AllInBounds(S, P)
  {
    if P == [] then 0 else Score(S, P[..|P| - 1]) + S[P[|P| - 1].0, P[|P| - 1].1]
  }

  lemma ScoreAppend(S: array2<int>, P: seq<Cell>, c: Cell)
    requires AllInBounds(S, P) && InBounds(S, c)
    ensures AllInBounds(S, P + [c])
    ensures Score(S, P + [c]) == Score(S, P) + S[c.0, c.1]
  {
    assert (P + [c])[..|P|] == P;
  }
}
