/**
 * The distance matrix and the nearest-neighbour tour built from it.
 */
module Tour {
  import opened Numbers
  import opened Types

  /** `number[][]`: row i holds the distances from point i. */
  type Matrix = seq<seq<Number>>

  ghost predicate IsSquare(m: Matrix)
  {
    forall i | 0 <= i < |m| :: |m[i]| == |m|
  }

  /** The entry the matrix builder writes at (i, j): the distance is computed once per
      unordered pair, from the lower index to the higher one; the diagonal keeps its 0. */
  function Entry(points: seq<Coordinate>, dist: Distance, i: nat, j: nat): Number
    requires i < |points| && j < |points|
  {
    if i == j then Finite(0.0)
    else if i < j then dist(points[i], points[j])
    else dist(points[j], points[i])
  }

  ghost function MatrixOf(points: seq<Coordinate>, dist: Distance): Matrix
  {
    seq(|points|, i requires 0 <= i < |points| =>
      seq(|points|, j requires 0 <= j < |points| => Entry(points, dist, i, j)))
  }

  /** The cells (p, q) that the nested loops have written once the outer loop is at i
      and the inner one at j. */
  ghost predicate Filled(p: nat, q: nat, i: nat, j: nat)
  {
    p != q && (p < i || q < i || (p == i && q < j) || (q == i && p < j))
  }

  method ComputeDistanceMatrixKm(points: seq<Coordinate>, dist: Distance) returns (matrix: Matrix)
    ensures matrix == MatrixOf(points, dist)
    ensures |matrix| == |points| && IsSquare(matrix)
    ensures forall i | 0 <= i < |matrix| :: matrix[i][i] == Finite(0.0)
    ensures forall i, j | 0 <= i < |matrix| && 0 <= j < |matrix| :: matrix[i][j] == matrix[j][i]
    ensures forall i, j | 0 <= i < j < |matrix| :: matrix[i][j] == dist(points[i], points[j])
  {
    var n := |points|;
    matrix := seq(n, _ => seq(n, _ => Finite(0.0)));
    for i := 0 to n
      invariant |matrix| == n && IsSquare(matrix)
      invariant forall p, q | 0 <= p < n && 0 <= q < n ::
        matrix[p][q] == if Filled(p, q, i, i + 1) then Entry(points, dist, p, q) else Finite(0.0)
    {
      for j := i + 1 to n
        invariant |matrix| == n && IsSquare(matrix)
        invariant forall p, q | 0 <= p < n && 0 <= q < n ::
          matrix[p][q] == if Filled(p, q, i, j) then Entry(points, dist, p, q) else Finite(0.0)
      {
        var d := dist(points[i], points[j]);
        matrix := matrix[i := matrix[i][j := d]];
        matrix := matrix[j := matrix[j][i := d]];
      }
    }
    var expected := MatrixOf(points, dist);
    forall p | 0 <= p < n
      ensures matrix[p] == expected[p]
    {
      assert forall q | 0 <= q < n :: matrix[p][q] == expected[p][q];
    }
  }

  /** j is the index the scan picks from `last`: not yet visited, at a finite distance,
      no farther than any other unvisited index, and strictly nearer than every unvisited
      index before it (the comparison is a strict `<`, so ties go to the lowest index). */
  ghost predicate NearestChoice(m: Matrix, last: nat, seen: seq<nat>, j: nat)
    requires IsSquare(m) && last < |m|
  {
    && j < |m| && j !in seen && m[last][j].Finite?
    && (forall k | 0 <= k < |m| && k !in seen && m[last][k].Finite? :: m[last][j].value <= m[last][k].value)
    && (forall k | 0 <= k < j && k !in seen && m[last][k].Finite? :: m[last][j].value < m[last][k].value)
  }

  /** No unvisited index is at a finite distance from `last`: the scan ends with
      `bestIdx === -1` and the defensive break fires. */
  ghost predicate NoCandidate(m: Matrix, last: nat, seen: seq<nat>)
    requires IsSquare(m) && last < |m|
  {
    forall k | 0 <= k < |m| && k !in seen :: !m[last][k].Finite?
  }

  ghost predicate IsNearestNeighborOrder(m: Matrix, start: nat, order: seq<nat>)
    requires IsSquare(m)
  {
    && 1 <= |order| <= |m|
    && order[0] == start
    && (forall t | 0 <= t < |order| :: order[t] < |m|)
    && (forall t | 1 <= t < |order| :: NearestChoice(m, order[t - 1], order[..t], order[t]))
    && (|order| < |m| ==> NoCandidate(m, order[|order| - 1], order))
  }

  method NearestNeighborOrder(distanceMatrix: Matrix, startIndex: nat) returns (order: seq<nat>)
    requires IsSquare(distanceMatrix) && startIndex < |distanceMatrix|
    ensures IsNearestNeighborOrder(distanceMatrix, startIndex, order)
  {
    var n := |distanceMatrix|;
    var visited := new bool[n](_ => false);
    order := [startIndex];
    visited[startIndex] := true;
    for step := 1 to n
      invariant |order| == step
      invariant order[0] == startIndex
      invariant forall t | 0 <= t < |order| :: order[t] < n
      invariant forall t | 1 <= t < |order| :: NearestChoice(distanceMatrix, order[t - 1], order[..t], order[t])
      invariant forall k | 0 <= k < n :: visited[k] <==> k in order
    {
      var last := order[|order| - 1];
      var bestIdx := -1;
      var bestDist := 0.0;  // stands for +Infinity while bestIdx == -1
      for j := 0 to n
        invariant -1 <= bestIdx < j
        invariant bestIdx == -1 ==>
          forall k | 0 <= k < j && k !in order :: !distanceMatrix[last][k].Finite?
        invariant bestIdx >= 0 ==>
          && bestIdx !in order
          && distanceMatrix[last][bestIdx] == Finite(bestDist)
          && (forall k | 0 <= k < j && k !in order && distanceMatrix[last][k].Finite? ::
                bestDist <= distanceMatrix[last][k].value)
          && (forall k | 0 <= k < bestIdx && k !in order && distanceMatrix[last][k].Finite? ::
                bestDist < distanceMatrix[last][k].value)
      {
        // `d < bestDist`: false for NaN, true for every finite d while bestDist is +Infinity
        var d := distanceMatrix[last][j];
        if !visited[j] && d.Finite? && (bestIdx == -1 || d.value < bestDist) {
          bestDist := d.value;
          bestIdx := j;
        }
      }
      if bestIdx == -1 {
        break;
      }
      visited[bestIdx] := true;
      assert order[..|order|] == order;
      order := order + [bestIdx];
      assert order[..|order| - 1] == order[..step];
    }
  }

  /** Every index appears at most once in a nearest-neighbour order. */
  lemma NearestNeighborOrderDistinct(m: Matrix, start: nat, order: seq<nat>)
    requires IsSquare(m) && IsNearestNeighborOrder(m, start, order)
    ensures forall p, q | 0 <= p < q < |order| :: order[p] != order[q]
  {
    forall p, q | 0 <= p < q < |order|
      ensures order[p] != order[q]
    {
      assert NearestChoice(m, order[q - 1], order[..q], order[q]);
      assert order[p] in order[..q];
    }
  }

  /** The indices 0 .. n-1. */
  function {:induction false} Range(n: nat): (r: set<nat>)
    ensures forall k :: k in r <==> 0 <= k < n
    ensures |r| == n
  {
    if n == 0 then {} else
      var below := Range(n - 1);
      assert n - 1 !in below;
      below + {n - 1}
  }

  function Elements(s: seq<nat>): set<nat>
  {
    set x | x in s
  }

  /** A sequence of distinct naturals has as many distinct elements as positions. */
  lemma {:induction false} DistinctElementsSize(s: seq<nat>)
    requires forall p, q | 0 <= p < q < |s| :: s[p] != s[q]
    ensures |Elements(s)| == |s|
  {
    if s != [] {
      var init := s[..|s| - 1];
      DistinctElementsSize(init);
      assert s == init + [s[|s| - 1]];
      assert s[|s| - 1] !in Elements(init);
      assert Elements(s) == Elements(init) + {s[|s| - 1]};
    }
  }

  lemma SubsetSize(small: set<nat>, big: set<nat>)
    requires small <= big
    ensures |big - small| == |big| - |small|
  {
    assert big == small + (big - small);
    assert small * (big - small) == {};
  }

  /** When every off-diagonal distance is finite (no NaN coordinate) the defensive
      break never fires: the order has n entries and holds every index exactly once. */
  lemma NearestNeighborVisitsAll(m: Matrix, start: nat, order: seq<nat>)
    requires IsSquare(m) && IsNearestNeighborOrder(m, start, order)
    requires forall i, j | 0 <= i < |m| && 0 <= j < |m| && i != j :: m[i][j].Finite?
    ensures |order| == |m|
    ensures forall k | 0 <= k < |m| :: k in order
  {
    NearestNeighborOrderDistinct(m, start, order);
    DistinctElementsSize(order);
    var elems := Elements(order);
    var range := Range(|m|);
    assert elems <= range;
    SubsetSize(elems, range);
    assert range - elems == {};
    forall k | 0 <= k < |m|
      ensures k in order
    {
      assert k in range;
      assert k in elems;
    }
  }

  lemma NearestChoiceUnique(m: Matrix, last: nat, seen: seq<nat>, j1: nat, j2: nat)
    requires IsSquare(m) && last < |m|
    requires NearestChoice(m, last, seen, j1) && NearestChoice(m, last, seen, j2)
    ensures j1 == j2
  {
  }

  /** The order is determined by the matrix and the start index: the tie rule leaves the
      scan no choice. */
  lemma {:induction false} NearestNeighborOrderUnique(m: Matrix, start: nat, o1: seq<nat>, o2: seq<nat>)
    requires IsSquare(m)
    requires IsNearestNeighborOrder(m, start, o1) && IsNearestNeighborOrder(m, start, o2)
    requires |o1| <= |o2|
    ensures o1 == o2
  {
    var t := 1;
    while t < |o1|
      invariant 1 <= t <= |o1|
      invariant o1[..t] == o2[..t]
    {
      NearestChoiceUnique(m, o1[t - 1], o1[..t], o1[t], o2[t]);
      assert o1[..t + 1] == o1[..t] + [o1[t]];
      assert o2[..t + 1] == o2[..t] + [o2[t]];
      t := t + 1;
    }
    assert o1 == o1[..t];
  }
}
