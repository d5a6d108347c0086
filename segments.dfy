// The segments of the two sequences that a common subsequence path induces.
module Segments {
  import opened Paths

  /// The consecutive integers lo, lo + 1, ..., hi - 1 (nothing when hi <= lo),
  /// as numpy's arange(lo, hi) lists them.
  function Arange(lo: int, hi: int): (r: seq<int>)
    ensures |r| == if lo < hi then hi - lo else 0
    ensures forall k :: 0 <= k < |r| ==> r[k] == lo + k
    ensures forall x :: x in r <==> lo <= x < hi
    decreases hi - lo
  {
    if lo < hi then [lo] + Arange(lo + 1, hi) else []
  }

  /// The induced segments of a non-empty path: every row index from the
  /// first cell's to the last cell's, and every column index likewise, both
  /// ends included.
  function InducedSegments(P: seq<Cell>): (segs: (seq<int>, seq<int>))
    requires |P| > 0
    ensures P[0].0 <= P[|P| - 1].0 ==> |segs.0| == P[|P| - 1].0 - P[0].0 + 1
    ensures P[0].1 <= P[|P| - 1].1 ==> |segs.1| == P[|P| - 1].1 - P[0].1 + 1
    ensures forall k :: 0 <= k < |segs.0| ==> segs.0[k] == P[0].0 + k
    ensures forall k :: 0 <= k < |segs.1| ==> segs.1[k] == P[0].1 + k
  {
    (Arange(P[0].0, P[|P| - 1].0 + 1), Arange(P[0].1, P[|P| - 1].1 + 1))
  }

  /// Along an admissible path the coordinates never decrease and never skip a
  /// value, so each induced segment holds exactly the indices the path visits
  /// in that sequence.
  lemma SegmentsCoverPath(P: seq<Cell>)
    requires |P| > 0 && Admissible(P)
    ensures var (segX, segY) := InducedSegments(P);
      && P[0].0 <= P[|P| - 1].0 && |segX| == P[|P| - 1].0 - P[0].0 + 1
      && P[0].1 <= P[|P| - 1].1 && |segY| == P[|P| - 1].1 - P[0].1 + 1
      && (forall x :: x in segX <==> exists i :: 0 <= i < |P| && P[i].0 == x)
      && (forall y :: y in segY <==> exists i :: 0 <= i < |P| && P[i].1 == y)
  {
    assert forall i :: 0 <= i < |P| - 1 ==> IsStep(P[i], P[i + 1]);
    var xs := seq(|P|, i requires 0 <= i < |P| => P[i].0 as int);
    var ys := seq(|P|, i requires 0 <= i < |P| => P[i].1 as int);
    UnitStepsCover(xs);
    UnitStepsCover(ys);
    var (segX, segY) := InducedSegments(P);
    forall x ensures x in segX <==> exists i :: 0 <= i < |P| && P[i].0 == x {
      if x in xs {
        var i :| 0 <= i < |xs| && xs[i] == x;
        assert P[i].0 == x;
      }
      if exists i :: 0 <= i < |P| && P[i].0 == x {
        var i :| 0 <= i < |P| && P[i].0 == x;
        assert xs[i] == x;
      }
    }
    forall y ensures y in segY <==> exists i :: 0 <= i < |P| && P[i].1 == y {
      if y in ys {
        var i :| 0 <= i < |ys| && ys[i] == y;
        assert P[i].1 == y;
      }
      if exists i :: 0 <= i < |P| && P[i].1 == y {
        var i :| 0 <= i < |P| && P[i].1 == y;
        assert ys[i] == y;
      }
    }
  }

  /// A non-empty sequence of integers that rises by 0 or 1 at each position
  /// holds every integer between its first and last element, and no other.
  lemma {:induction false} UnitStepsCover(xs: seq<int>)
    requires |xs| > 0
    requires forall i :: 0 <= i < |xs| - 1 ==> xs[i] <= xs[i + 1] <= xs[i] + 1
    ensures xs[0] <= xs[|xs| - 1]
    ensures forall x :: x in xs <==> xs[0] <= x <= xs[|xs| - 1]
  {
    if |xs| > 1 {
      var xs' := xs[..|xs| - 1];
      UnitStepsCover(xs');
      assert xs == xs' + [xs[|xs| - 1]];
    }
  }
}
