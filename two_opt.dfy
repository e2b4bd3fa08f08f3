/**
 * Path 2-opt: reverse an inner stretch of the tour whenever that shortens the
 * two legs at its ends by more than epsilon, until a full pass finds nothing.
 */
module TwoOpt {
  import opened Numbers
  import opened Tour

  /** `1e-9` km, the margin an exchange must win by. */
  const Epsilon: real := 0.000000001

  ghost predicate InRange(m: Matrix, t: seq<nat>)
  {
    forall p | 0 <= p < |t| :: t[p] < |m|
  }

  /** The entry in row i, column j; the matrix properties below are stated on it, so that
      a proof uses them only where it names an entry this way. */
  ghost function Cell(m: Matrix, i: nat, j: nat): Number
    requires i < |m| && j < |m[i]|
  {
    m[i][j]
  }

  ghost predicate SymmetricMatrix(m: Matrix)
  {
    IsSquare(m) && forall i: nat, j: nat | i < |m| && j < |m| :: Cell(m, i, j) == Cell(m, j, i)
  }

  ghost predicate NonNegativeMatrix(m: Matrix)
  {
    forall i: nat, j: nat | i < |m| && j < |m[i]| :: Cell(m, i, j).Finite? ==> Cell(m, i, j).value >= 0.0
  }

  /** `s.slice().reverse()` */
  function Reverse(s: seq<nat>): (r: seq<nat>)
    ensures |r| == |s|
    ensures forall j | 0 <= j < |s| :: r[j] == s[|s| - 1 - j]
  {
    seq(|s|, j requires 0 <= j < |s| => s[|s| - 1 - j])
  }

  /** Reversing a non-empty sequence puts its first element last. */
  lemma ReverseFront(s: seq<nat>)
    requires s != []
    ensures Reverse(s) == Reverse(s[1..]) + [s[0]]
  {
  }

  lemma {:induction false} ReverseMultiset(s: seq<nat>)
    ensures multiset(Reverse(s)) == multiset(s)
  {
    if s != [] {
      ReverseMultiset(s[1..]);
      ReverseFront(s);
      assert s == [s[0]] + s[1..];
    }
  }

  /** The tour after reversing positions i..k: position p of the stretch holds what
      position i + k - p held, every other position is unchanged. */
  function TwoOptMove(t: seq<nat>, i: nat, k: nat): seq<nat>
    requires 1 <= i < k < |t| - 1
  {
    seq(|t|, p requires 0 <= p < |t| => if i <= p <= k then t[i + k - p] else t[p])
  }

  /** The exchange as the source writes it:
      `best.slice(0, i).concat(best.slice(i, k + 1).reverse()).concat(best.slice(k + 1))`. */
  lemma TwoOptMoveJoin(t: seq<nat>, i: nat, k: nat)
    requires 1 <= i < k < |t| - 1
    ensures TwoOptMove(t, i, k) == t[..i] + Reverse(t[i..k + 1]) + t[k + 1..]
  {
  }

  /** A sum over the legs of a tour, leg by leg from the front, of a weight of each
      leg's matrix entry. */
  ghost function LegSum(m: Matrix, t: seq<nat>, w: Number -> real): real
    requires IsSquare(m) && InRange(m, t)
  {
    if |t| < 2 then 0.0 else LegSum(m, t[..|t| - 1], w) + w(m[t[|t| - 2]][t[|t| - 1]])
  }

  function NaNIndicator(x: Number): real
  {
    if x.NaN? then 1.0 else 0.0
  }

  /** The length of the tour counting only its finite legs. */
  ghost function Cost(m: Matrix, t: seq<nat>): real
    requires IsSquare(m) && InRange(m, t)
  {
    LegSum(m, t, FiniteOrZero)
  }

  /** How many legs of the tour have a NaN distance. */
  ghost function NaNLegs(m: Matrix, t: seq<nat>): real
    requires IsSquare(m) && InRange(m, t)
  {
    LegSum(m, t, NaNIndicator)
  }

  /** The total path length as the source's (commented-out) `orderDistance` adds it up. */
  ghost function PathLength(m: Matrix, t: seq<nat>): Number
    requires IsSquare(m) && InRange(m, t)
  {
    if |t| < 2 then Finite(0.0) else Plus(PathLength(m, t[..|t| - 1]), m[t[|t| - 2]][t[|t| - 1]])
  }

  lemma {:induction false} PathLengthParts(m: Matrix, t: seq<nat>)
    requires IsSquare(m) && InRange(m, t)
    ensures NaNLegs(m, t) >= 0.0
    ensures PathLength(m, t) == if NaNLegs(m, t) == 0.0 then Finite(Cost(m, t)) else NaN
  {
    if |t| >= 2 {
      PathLengthParts(m, t[..|t| - 1]);
    }
  }

  /** A tour has no NaN leg exactly when every leg is finite. */
  lemma {:induction false} NoNaNLegs(m: Matrix, t: seq<nat>)
    requires IsSquare(m) && InRange(m, t)
    ensures NaNLegs(m, t) == 0.0 <==> forall p | 0 <= p < |t| - 1 :: m[t[p]][t[p + 1]].Finite?
  {
    if |t| >= 2 {
      var u := t[..|t| - 1];
      NoNaNLegs(m, u);
      PathLengthParts(m, u);
      assert forall p | 0 <= p < |u| :: u[p] == t[p];
    }
  }

  lemma {:induction false} CostNonNegative(m: Matrix, t: seq<nat>)
    requires IsSquare(m) && NonNegativeMatrix(m) && InRange(m, t)
    ensures Cost(m, t) >= 0.0
  {
    if |t| >= 2 {
      CostNonNegative(m, t[..|t| - 1]);
      assert m[t[|t| - 2]][t[|t| - 1]] == Cell(m, t[|t| - 2], t[|t| - 1]);
    }
  }

  /** Joining two tours adds the leg between them. */
  lemma {:induction false} LegSumConcat(m: Matrix, x: seq<nat>, y: seq<nat>, w: Number -> real)
    requires IsSquare(m) && InRange(m, x) && InRange(m, y) && |x| >= 1 && |y| >= 1
    ensures InRange(m, x + y)
    ensures LegSum(m, x + y, w) == LegSum(m, x, w) + w(m[x[|x| - 1]][y[0]]) + LegSum(m, y, w)
  {
    var xy := x + y;
    if |y| == 1 {
      assert xy[..|xy| - 1] == x;
    } else {
      var y' := y[..|y| - 1];
      assert xy[..|xy| - 1] == x + y';
      LegSumConcat(m, x, y', w);
    }
  }

  /** With a symmetric matrix a reversed tour is as long as the tour. */
  lemma {:induction false} LegSumReverse(m: Matrix, s: seq<nat>, w: Number -> real)
    requires SymmetricMatrix(m) && InRange(m, s)
    ensures InRange(m, Reverse(s))
    ensures LegSum(m, Reverse(s), w) == LegSum(m, s, w)
  {
    if |s| >= 2 {
      var rest := s[1..];
      ReverseFront(s);
      LegSumReverse(m, rest, w);
      LegSumConcat(m, Reverse(rest), [s[0]], w);
      assert s == [s[0]] + rest;
      LegSumConcat(m, [s[0]], rest, w);
      assert Cell(m, s[0], s[1]) == Cell(m, s[1], s[0]);
    }
  }

  /** What one exchange does to the elements of a tour: same length, same multiset,
      same first and last element. */
  lemma TwoOptMoveShape(m: Matrix, t: seq<nat>, i: nat, k: nat)
    requires IsSquare(m) && InRange(m, t) && 1 <= i < k < |t| - 1
    ensures var t' := TwoOptMove(t, i, k);
      && |t'| == |t| && multiset(t') == multiset(t) && InRange(m, t')
      && t'[0] == t[0] && t'[|t'| - 1] == t[|t| - 1]
  {
    var x, y, z := t[..i], t[i..k + 1], t[k + 1..];
    var t' := TwoOptMove(t, i, k);
    TwoOptMoveJoin(t, i, k);
    assert t == x + y + z;
    ReverseMultiset(y);
    assert multiset(t') == multiset(t) by {
      calc {
        multiset(t');
        multiset(x + Reverse(y)) + multiset(z);
        multiset(x) + multiset(y) + multiset(z);
        multiset(x + y) + multiset(z);
        multiset(t);
      }
    }
    MultisetInRange(m, t, t');
  }

  lemma MultisetInRange(m: Matrix, t: seq<nat>, t': seq<nat>)
    requires InRange(m, t) && multiset(t') == multiset(t)
    ensures InRange(m, t')
  {
    forall p | 0 <= p < |t'|
      ensures t'[p] < |m|
    {
      assert t'[p] in multiset(t');
      assert t'[p] in t;
    }
  }

  /** `LegSumConcat` for a tour already known to be the join of two others. */
  lemma LegSumJoin(m: Matrix, x: seq<nat>, y: seq<nat>, xy: seq<nat>, w: Number -> real)
    requires IsSquare(m) && InRange(m, x) && InRange(m, y) && |x| >= 1 && |y| >= 1 && xy == x + y
    ensures InRange(m, xy)
    ensures LegSum(m, xy, w) == LegSum(m, x, w) + w(m[x[|x| - 1]][y[0]]) + LegSum(m, y, w)
  {
    LegSumConcat(m, x, y, w);
  }

  /** The legs of a tour, split around the stretch i..k: the legs before it, the leg
      into it, its own legs, the leg out of it and the legs after it. */
  lemma LegSumAround(m: Matrix, t: seq<nat>, i: nat, k: nat, w: Number -> real)
    requires IsSquare(m) && InRange(m, t) && 1 <= i < k < |t| - 1
    ensures LegSum(m, t, w) == LegSum(m, t[..i], w) + w(m[t[i - 1]][t[i]]) + LegSum(m, t[i..k + 1], w)
      + w(m[t[k]][t[k + 1]]) + LegSum(m, t[k + 1..], w)
  {
    var x, y, z := t[..i], t[i..k + 1], t[k + 1..];
    var u := t[..k + 1];
    assert t == u + z && u == x + y;
    assert u[|u| - 1] == t[k] && z[0] == t[k + 1] && x[|x| - 1] == t[i - 1] && y[0] == t[i];
    LegSumJoin(m, u, z, t, w);
    LegSumJoin(m, x, y, u, w);
  }

  /** The same split of the exchanged tour: with a symmetric matrix the reversed stretch
      has its old legs, and it is entered at c and left from b. */
  lemma LegSumAroundMoved(m: Matrix, t: seq<nat>, i: nat, k: nat, w: Number -> real)
    requires SymmetricMatrix(m) && InRange(m, t) && 1 <= i < k < |t| - 1
    requires InRange(m, TwoOptMove(t, i, k))
    ensures LegSum(m, TwoOptMove(t, i, k), w) == LegSum(m, t[..i], w) + w(m[t[i - 1]][t[k]])
      + LegSum(m, t[i..k + 1], w) + w(m[t[i]][t[k + 1]]) + LegSum(m, t[k + 1..], w)
  {
    var t' := TwoOptMove(t, i, k);
    var x, y, z := t[..i], t[i..k + 1], t[k + 1..];
    var ry := Reverse(y);
    TwoOptMoveJoin(t, i, k);
    var v := t'[..k + 1];
    assert t' == v + z && v == x + ry;
    assert ry[0] == t[k] && ry[|ry| - 1] == t[i] && v[|v| - 1] == t[i] && z[0] == t[k + 1] && x[|x| - 1] == t[i - 1];
    LegSumReverse(m, y, w);
    LegSumJoin(m, v, z, t', w);
    LegSumJoin(m, x, ry, v, w);
  }

  /** With a symmetric matrix, of the legs of a tour only the two at the ends of the
      reversed stretch change: (a, b) and (c, d) become (a, c) and (b, d). */
  lemma TwoOptMoveLegs(m: Matrix, t: seq<nat>, i: nat, k: nat, w: Number -> real)
    requires SymmetricMatrix(m) && InRange(m, t) && 1 <= i < k < |t| - 1
    requires InRange(m, TwoOptMove(t, i, k))
    ensures LegSum(m, TwoOptMove(t, i, k), w) == LegSum(m, t, w)
           - w(m[t[i - 1]][t[i]]) - w(m[t[k]][t[k + 1]])
           + w(m[t[i - 1]][t[k]]) + w(m[t[i]][t[k + 1]])
  {
    LegSumAround(m, t, i, k, w);
    LegSumAroundMoved(m, t, i, k, w);
  }

  /** A pass accepts the exchange at (i, k): the two new legs plus epsilon are shorter
      than the two old ones (`swapped + 1e-9 < current`). */
  ghost predicate Improves(m: Matrix, t: seq<nat>, i: nat, k: nat)
    requires IsSquare(m) && InRange(m, t) && 1 <= i < k < |t| - 1
  {
    var a, b, c, d := t[i - 1], t[i], t[k], t[k + 1];
    Less(Plus(Plus(m[a][c], m[b][d]), Finite(Epsilon)), Plus(m[a][b], m[c][d]))
  }

  /** No pair 1 <= i < k <= |t| - 2 is an improving exchange. */
  ghost predicate IsTwoOptOptimal(m: Matrix, t: seq<nat>)
    requires IsSquare(m) && InRange(m, t)
  {
    forall i, k | 1 <= i < k < |t| - 1 :: !Improves(m, t, i, k)
  }

  /** `output` is what refining `input` may give: a reordering with the same first and
      last element whose finite legs add up to no more, with as many NaN legs, and on
      which no exchange improves any more. */
  ghost predicate IsTwoOptRefinement(m: Matrix, input: seq<nat>, output: seq<nat>)
    requires IsSquare(m) && InRange(m, input)
  {
    && |output| == |input| && multiset(output) == multiset(input) && InRange(m, output)
    && (|input| > 0 ==> output[0] == input[0] && output[|output| - 1] == input[|input| - 1])
    && Cost(m, output) <= Cost(m, input)
    && NaNLegs(m, output) == NaNLegs(m, input)
    && IsTwoOptOptimal(m, output)
  }

  /** The termination measure: how many epsilons fit in the finite length. */
  ghost function Potential(m: Matrix, t: seq<nat>): int
    requires IsSquare(m) && InRange(m, t)
  {
    (Cost(m, t) / Epsilon).Floor
  }

  lemma PotentialDrops(before: real, after: real)
    requires after + Epsilon < before
    ensures (after / Epsilon).Floor < (before / Epsilon).Floor
  {
    assert after / Epsilon + 1.0 < before / Epsilon;
  }

  /** What every exchange keeps: the tour is a reordering of the input with the same
      first and last element, and it has as many NaN legs. */
  ghost predicate SameStops(m: Matrix, input: seq<nat>, t: seq<nat>)
    requires IsSquare(m) && InRange(m, input)
  {
    && |t| == |input| && multiset(t) == multiset(input) && InRange(m, t)
    && (|input| > 0 ==> t[0] == input[0] && t[|t| - 1] == input[|input| - 1])
    && NaNLegs(m, t) == NaNLegs(m, input)
  }

  /** The pair (i, k) as the scan meets it: an improving exchange is applied at once,
      any other pair leaves the tour as it is. */
  ghost function Step(m: Matrix, t: seq<nat>, i: nat, k: nat): (r: seq<nat>)
    requires IsSquare(m) && InRange(m, t) && 1 <= i < k < |t| - 1
    ensures |r| == |t| && InRange(m, r)
  {
    TwoOptMoveShape(m, t, i, k);
    if Improves(m, t, i, k) then TwoOptMove(t, i, k) else t
  }

  /** The rest of the inner `for k` loop from k on: each pair in turn, on the tour the
      earlier pairs left. */
  ghost function TwoOptRow(m: Matrix, t: seq<nat>, i: nat, k: nat): (r: seq<nat>)
    requires IsSquare(m) && InRange(m, t) && 1 <= i < k <= |t| - 1
    ensures |r| == |t| && InRange(m, r)
    decreases |t| - k
  {
    if k == |t| - 1 then t else TwoOptRow(m, Step(m, t, i, k), i, k + 1)
  }

  /** The rest of one pass from row i on: each row in turn, on the tour the earlier
      rows left. */
  ghost function TwoOptPass(m: Matrix, t: seq<nat>, i: nat): (r: seq<nat>)
    requires IsSquare(m) && InRange(m, t) && 1 <= i
    ensures |r| == |t| && InRange(m, r)
    decreases |t| - i
  {
    if i >= |t| - 2 then t else TwoOptPass(m, TwoOptRow(m, t, i, i + 1), i + 1)
  }

  /** Some pair (i, k') with k' from k on improves t. Until the row accepts a pair the
      tour stays t, so this is exactly when the row sets `improved`. */
  ghost predicate RowImproves(m: Matrix, t: seq<nat>, i: nat, k: nat)
    requires IsSquare(m) && InRange(m, t) && 1 <= i < k <= |t| - 1
    decreases |t| - k
  {
    k < |t| - 1 && (Improves(m, t, i, k) || RowImproves(m, t, i, k + 1))
  }

  /** The whole `while (improved)` loop. A pass sets `improved` exactly when the tour it
      starts from is not 2-opt optimal (the first improving pair it meets is one of that
      tour), so the loop runs passes until the tour is 2-opt optimal. */
  ghost function TwoOptRun(m: Matrix, t: seq<nat>): (r: seq<nat>)
    requires SymmetricMatrix(m) && NonNegativeMatrix(m) && InRange(m, t)
    decreases Potential(m, t)
  {
    if IsTwoOptOptimal(m, t) then t
    else
      var p := TwoOptPass(m, t, 1);
      SameStopsSelf(m, t);
      PassSummary(m, t, t);
      TwoOptRun(m, p)
  }

  /** The rest of a row keeps the stops and never lengthens the tour; when some pair of it
      improves, it shortens the tour by more than epsilon. */
  lemma {:induction false} RowFacts(m: Matrix, order: seq<nat>, t: seq<nat>, i: nat, k: nat)
    requires SymmetricMatrix(m) && NonNegativeMatrix(m) && InRange(m, order)
    requires SameStops(m, order, t) && 1 <= i < k <= |t| - 1
    ensures var r := TwoOptRow(m, t, i, k);
      && SameStops(m, order, r) && Cost(m, r) <= Cost(m, t)
      && (RowImproves(m, t, i, k) ==> Cost(m, r) + Epsilon < Cost(m, t))
    decreases |t| - k
  {
    if k < |t| - 1 {
      var s := Step(m, t, i, k);
      assert TwoOptRow(m, t, i, k) == TwoOptRow(m, s, i, k + 1);
      if Improves(m, t, i, k) {
        AcceptedExchange(m, order, t, i, k);
        RowFacts(m, order, s, i, k + 1);
      } else {
        assert s == t && RowImproves(m, t, i, k) == RowImproves(m, t, i, k + 1);
        RowFacts(m, order, t, i, k + 1);
      }
    }
  }

  /** A row in which no pair improves leaves the tour as it is. */
  lemma {:induction false} RowUnchanged(m: Matrix, t: seq<nat>, i: nat, k: nat)
    requires IsSquare(m) && InRange(m, t) && 1 <= i < k <= |t| - 1 && !RowImproves(m, t, i, k)
    ensures TwoOptRow(m, t, i, k) == t
    decreases |t| - k
  {
    if k < |t| - 1 {
      assert !Improves(m, t, i, k);
      RowUnchanged(m, t, i, k + 1);
    }
  }

  /** Every tour keeps its own stops. */
  lemma SameStopsSelf(m: Matrix, t: seq<nat>)
    requires IsSquare(m) && InRange(m, t)
    ensures SameStops(m, t, t)
  {
  }

  /** Some pair (i', k') with i' from i on improves t. */
  ghost predicate PassImproves(m: Matrix, t: seq<nat>, i: nat)
    requires IsSquare(m) && InRange(m, t) && 1 <= i
    decreases |t| - i
  {
    i < |t| - 2 && (RowImproves(m, t, i, i + 1) || PassImproves(m, t, i + 1))
  }

  /** The rest of a pass from row i on keeps the stops and never lengthens the tour; when
      some pair of it improves, it shortens the tour by more than epsilon. */
  lemma PassFacts(m: Matrix, order: seq<nat>, t: seq<nat>, i: nat)
    requires SymmetricMatrix(m) && NonNegativeMatrix(m) && InRange(m, order)
    requires SameStops(m, order, t) && 1 <= i
    ensures var r := TwoOptPass(m, t, i);
      && SameStops(m, order, r) && Cost(m, r) <= Cost(m, t)
      && (PassImproves(m, t, i) ==> Cost(m, r) + Epsilon < Cost(m, t))
  {
    PassKeeps(m, order, t, i);
    if PassImproves(m, t, i) {
      PassShortens(m, t, i);
    }
  }

  /** The rest of a pass keeps the stops and never lengthens the tour. */
  lemma {:induction false} PassKeeps(m: Matrix, order: seq<nat>, t: seq<nat>, i: nat)
    requires SymmetricMatrix(m) && NonNegativeMatrix(m) && InRange(m, order)
    requires SameStops(m, order, t) && 1 <= i
    ensures var r := TwoOptPass(m, t, i);
      SameStops(m, order, r) && Cost(m, r) <= Cost(m, t)
    decreases |t| - i
  {
    if i < |t| - 2 {
      var row := TwoOptRow(m, t, i, i + 1);
      assert TwoOptPass(m, t, i) == TwoOptPass(m, row, i + 1);
      RowFacts(m, order, t, i, i + 1);
      PassKeeps(m, order, row, i + 1);
    }
  }

  /** The rest of a pass that meets an improving pair shortens the tour by more than
      epsilon. */
  lemma PassShortens(m: Matrix, t: seq<nat>, i: nat)
    requires SymmetricMatrix(m) && NonNegativeMatrix(m) && InRange(m, t)
    requires 1 <= i && PassImproves(m, t, i)
    ensures Cost(m, TwoOptPass(m, t, i)) + Epsilon < Cost(m, t)
  {
    var j := FirstImprovingRow(m, t, i);
    ImprovingRowShortensPass(m, t, j);
  }

  /** The rows before the first one with an improving pair leave the tour as it is. */
  lemma {:induction false} FirstImprovingRow(m: Matrix, t: seq<nat>, i: nat) returns (j: nat)
    requires IsSquare(m) && InRange(m, t) && 1 <= i && PassImproves(m, t, i)
    ensures i <= j < |t| - 2 && RowImproves(m, t, j, j + 1)
    ensures TwoOptPass(m, t, i) == TwoOptPass(m, t, j)
    decreases |t| - i
  {
    if RowImproves(m, t, i, i + 1) {
      j := i;
    } else {
      PassSkipsRow(m, t, i);
      j := FirstImprovingRow(m, t, i + 1);
    }
  }

  /** A row with no improving pair leaves the tour, and the rest of the pass, as they
      are. */
  lemma PassSkipsRow(m: Matrix, t: seq<nat>, i: nat)
    requires IsSquare(m) && InRange(m, t) && 1 <= i < |t| - 2 && !RowImproves(m, t, i, i + 1)
    ensures TwoOptPass(m, t, i) == TwoOptPass(m, t, i + 1)
    ensures PassImproves(m, t, i) == PassImproves(m, t, i + 1)
  {
    RowUnchanged(m, t, i, i + 1);
  }

  /** A pass whose first row improves the tour shortens it by more than epsilon. */
  lemma ImprovingRowShortensPass(m: Matrix, t: seq<nat>, i: nat)
    requires SymmetricMatrix(m) && NonNegativeMatrix(m) && InRange(m, t)
    requires 1 <= i < |t| - 2 && RowImproves(m, t, i, i + 1)
    ensures Cost(m, TwoOptPass(m, t, i)) + Epsilon < Cost(m, t)
  {
    ImprovingRowShortens(m, t, i);
    PassAfterRow(m, t, i);
  }

  /** A pass from row i ends no longer than the tour row i leaves. */
  lemma PassAfterRow(m: Matrix, t: seq<nat>, i: nat)
    requires SymmetricMatrix(m) && NonNegativeMatrix(m) && InRange(m, t) && 1 <= i < |t| - 2
    ensures Cost(m, TwoOptPass(m, t, i)) <= Cost(m, TwoOptRow(m, t, i, i + 1))
  {
    var row := TwoOptRow(m, t, i, i + 1);
    assert TwoOptPass(m, t, i) == TwoOptPass(m, row, i + 1);
    PassNoLonger(m, row, i + 1);
  }

  /** A row with an improving pair shortens the tour by more than epsilon. */
  lemma ImprovingRowShortens(m: Matrix, t: seq<nat>, i: nat)
    requires SymmetricMatrix(m) && NonNegativeMatrix(m) && InRange(m, t)
    requires 1 <= i < |t| - 2 && RowImproves(m, t, i, i + 1)
    ensures Cost(m, TwoOptRow(m, t, i, i + 1)) + Epsilon < Cost(m, t)
  {
    SameStopsSelf(m, t);
    RowFacts(m, t, t, i, i + 1);
  }

  /** The rest of a pass never lengthens the tour. */
  lemma PassNoLonger(m: Matrix, t: seq<nat>, i: nat)
    requires SymmetricMatrix(m) && NonNegativeMatrix(m) && InRange(m, t) && 1 <= i
    ensures Cost(m, TwoOptPass(m, t, i)) <= Cost(m, t)
  {
    SameStopsSelf(m, t);
    PassKeeps(m, t, t, i);
  }

  /** The loop keeps the stops, never lengthens the tour and stops at a 2-opt optimal
      tour. */
  lemma {:induction false} RunFacts(m: Matrix, order: seq<nat>, t: seq<nat>)
    requires SymmetricMatrix(m) && NonNegativeMatrix(m) && InRange(m, order)
    requires SameStops(m, order, t)
    ensures var r := TwoOptRun(m, t);
      SameStops(m, order, r) && Cost(m, r) <= Cost(m, t) && IsTwoOptOptimal(m, r)
    decreases Potential(m, t)
  {
    if !IsTwoOptOptimal(m, t) {
      var p := TwoOptPass(m, t, 1);
      PassSummary(m, order, t);
      RunFacts(m, order, p);
    }
  }

  /** The tour the loop settles on is a 2-opt refinement of its input. */
  lemma TwoOptRunRefines(m: Matrix, order: seq<nat>)
    requires SymmetricMatrix(m) && NonNegativeMatrix(m) && InRange(m, order)
    ensures IsTwoOptRefinement(m, order, TwoOptRun(m, order))
  {
    RunFacts(m, order, order);
  }

  /** `twoOpt`: passes until one accepts nothing. */
  method TwoOpt(order: seq<nat>, distanceMatrix: Matrix) returns (best: seq<nat>)
    requires SymmetricMatrix(distanceMatrix) && NonNegativeMatrix(distanceMatrix)
    requires InRange(distanceMatrix, order)
    ensures best == TwoOptRun(distanceMatrix, order)
    ensures IsTwoOptRefinement(distanceMatrix, order, best)
    ensures |order| < 4 ==> best == order
    ensures IsTwoOptOptimal(distanceMatrix, order) ==> best == order
    ensures PathLength(distanceMatrix, order).Finite? ==>
      PathLength(distanceMatrix, best).Finite? &&
      PathLength(distanceMatrix, best).value <= PathLength(distanceMatrix, order).value
  {
    best := order;
    var improved := true;
    CostNonNegative(distanceMatrix, best);
    while improved
      invariant SameStops(distanceMatrix, order, best)
      invariant 0.0 <= Cost(distanceMatrix, best) <= Cost(distanceMatrix, order)
      invariant !improved ==> IsTwoOptOptimal(distanceMatrix, best)
      invariant |order| < 4 ==> best == order
      invariant IsTwoOptOptimal(distanceMatrix, order) ==> best == order
      invariant TwoOptRun(distanceMatrix, best) == TwoOptRun(distanceMatrix, order)
      decreases Potential(distanceMatrix, best), if improved then 1 else 0
    {
      PassSummary(distanceMatrix, order, best);
      best, improved := ExchangePass(best, distanceMatrix);
    }
    PathLengthParts(distanceMatrix, order);
    PathLengthParts(distanceMatrix, best);
  }

  /** One pass of the `while (improved)` loop: every pair (i, k) in turn, applying each
      improving exchange at once and going on with the changed tour. */
  method ExchangePass(start: seq<nat>, m: Matrix) returns (best: seq<nat>, improved: bool)
    requires IsSquare(m) && InRange(m, start)
    ensures best == TwoOptPass(m, start, 1)
    ensures improved == !IsTwoOptOptimal(m, start)
    ensures !improved ==> best == start
  {
    best := start;
    improved := false;
    var i := 1;
    while i < |best| - 2
      invariant PassLoop(m, start, best, improved, i)
      decreases |start| - i
    {
      RowDone(m, start, best, improved, i);
      best, improved := ExchangeRow(best, improved, i, m);
      i := i + 1;
    }
    OptimalWhenNoPassImproves(m, start);
  }

  /** The state of `ExchangePass` before row i: the rows still to come turn `best` into
      the pass's result, and `improved` records whether an earlier row met an improving
      pair (until one does, the tour is still the one the pass started from). */
  ghost predicate PassLoop(m: Matrix, start: seq<nat>, best: seq<nat>, improved: bool, i: nat)
    requires IsSquare(m) && InRange(m, start)
  {
    && 1 <= i && |best| == |start| && InRange(m, best)
    && TwoOptPass(m, best, i) == TwoOptPass(m, start, 1)
    && (improved ==> PassImproves(m, start, 1))
    && (!improved ==> best == start && PassImproves(m, start, 1) == PassImproves(m, start, i))
  }

  /** Row i of the pass keeps its loop state. */
  lemma RowDone(m: Matrix, start: seq<nat>, before: seq<nat>, improvedBefore: bool, i: nat)
    requires IsSquare(m) && InRange(m, start) && PassLoop(m, start, before, improvedBefore, i)
    requires i < |before| - 2
    ensures PassLoop(m, start, TwoOptRow(m, before, i, i + 1),
                     improvedBefore || RowImproves(m, before, i, i + 1), i + 1)
  {
    var best := TwoOptRow(m, before, i, i + 1);
    assert TwoOptPass(m, before, i) == TwoOptPass(m, best, i + 1);
    if !improvedBefore {
      assert PassImproves(m, start, i) == (RowImproves(m, start, i, i + 1) || PassImproves(m, start, i + 1));
      if !RowImproves(m, before, i, i + 1) {
        RowUnchanged(m, before, i, i + 1);
      }
    }
  }

  /** A whole pass keeps the stops and never lengthens the tour; on a tour that is not
      2-opt optimal it lowers the potential. */
  lemma PassSummary(m: Matrix, order: seq<nat>, t: seq<nat>)
    requires SymmetricMatrix(m) && NonNegativeMatrix(m)
    requires InRange(m, order) && SameStops(m, order, t)
    ensures var r := TwoOptPass(m, t, 1);
      && SameStops(m, order, r) && 0.0 <= Cost(m, r) <= Cost(m, t)
      && (!IsTwoOptOptimal(m, t) ==> Potential(m, r) < Potential(m, t))
  {
    var r := TwoOptPass(m, t, 1);
    PassFacts(m, order, t, 1);
    CostNonNegative(m, r);
    if !IsTwoOptOptimal(m, t) {
      OptimalWhenNoPassImproves(m, t);
      PotentialDrops(Cost(m, t), Cost(m, r));
    }
  }

  /** A whole pass meets an improving pair exactly when the tour it starts from is not
      2-opt optimal. */
  lemma OptimalWhenNoPassImproves(m: Matrix, t: seq<nat>)
    requires IsSquare(m) && InRange(m, t)
    ensures IsTwoOptOptimal(m, t) <==> !PassImproves(m, t, 1)
  {
    if !IsTwoOptOptimal(m, t) {
      var i, k :| 1 <= i < k < |t| - 1 && Improves(m, t, i, k);
      RowFindsPair(m, t, i, i + 1, k);
      PassFindsRow(m, t, 1, i);
    }
    if PassImproves(m, t, 1) {
      var i := PassImprovingRow(m, t, 1);
      var k := RowImprovingPair(m, t, i, i + 1);
    }
  }

  /** An improving pair (i, k') with k' from k on makes the row from k improve. */
  lemma {:induction false} RowFindsPair(m: Matrix, t: seq<nat>, i: nat, k: nat, k': nat)
    requires IsSquare(m) && InRange(m, t) && 1 <= i < k <= k' < |t| - 1 && Improves(m, t, i, k')
    ensures RowImproves(m, t, i, k)
    decreases k' - k
  {
    if k < k' {
      RowFindsPair(m, t, i, k + 1, k');
    }
  }

  /** A row i' from i on that improves makes the pass from i improve. */
  lemma {:induction false} PassFindsRow(m: Matrix, t: seq<nat>, i: nat, i': nat)
    requires IsSquare(m) && InRange(m, t) && 1 <= i <= i' < |t| - 2 && RowImproves(m, t, i', i' + 1)
    ensures PassImproves(m, t, i)
    decreases i' - i
  {
    if i < i' {
      PassFindsRow(m, t, i + 1, i');
    }
  }

  /** A row that improves has an improving pair. */
  lemma {:induction false} RowImprovingPair(m: Matrix, t: seq<nat>, i: nat, k: nat) returns (k': nat)
    requires IsSquare(m) && InRange(m, t) && 1 <= i < k <= |t| - 1 && RowImproves(m, t, i, k)
    ensures k <= k' < |t| - 1 && Improves(m, t, i, k')
    decreases |t| - k
  {
    if Improves(m, t, i, k) {
      k' := k;
    } else {
      k' := RowImprovingPair(m, t, i, k + 1);
    }
  }

  /** A pass that improves has a row that improves. */
  lemma {:induction false} PassImprovingRow(m: Matrix, t: seq<nat>, i: nat) returns (i': nat)
    requires IsSquare(m) && InRange(m, t) && 1 <= i && PassImproves(m, t, i)
    ensures i <= i' < |t| - 2 && RowImproves(m, t, i', i' + 1)
    decreases |t| - i
  {
    if RowImproves(m, t, i, i + 1) {
      i' := i;
    } else {
      i' := PassImprovingRow(m, t, i + 1);
    }
  }

  /** The inner `for k` loop of a pass, for one value of i. */
  method ExchangeRow(t: seq<nat>, improvedBefore: bool, i: nat, m: Matrix) returns (best: seq<nat>, improved: bool)
    requires IsSquare(m) && InRange(m, t) && 1 <= i < |t| - 2
    ensures best == TwoOptRow(m, t, i, i + 1)
    ensures improved == (improvedBefore || RowImproves(m, t, i, i + 1))
    ensures !RowImproves(m, t, i, i + 1) ==> best == t
  {
    best, improved := t, improvedBefore;
    var k := i + 1;
    while k < |best| - 1
      invariant i + 1 <= k <= |best| - 1 && |best| == |t| && InRange(m, best)
      invariant TwoOptRow(m, best, i, k) == TwoOptRow(m, t, i, i + 1)
      invariant improvedBefore ==> improved
      invariant improved && !improvedBefore ==> RowImproves(m, t, i, i + 1)
      invariant !improved ==> best == t && RowImproves(m, t, i, i + 1) == RowImproves(m, t, i, k)
    {
      RowAdvance(m, best, i, k);
      best, improved := ExchangePair(best, improved, i, k, m);
      k := k + 1;
    }
    if !RowImproves(m, t, i, i + 1) {
      RowUnchanged(m, t, i, i + 1);
    }
  }

  /** The body of the inner loop for the pair (i, k): the exchange is applied when the
      two new legs plus epsilon are shorter than the two old ones. */
  method ExchangePair(t: seq<nat>, improvedBefore: bool, i: nat, k: nat, m: Matrix) returns (best: seq<nat>, improved: bool)
    requires IsSquare(m) && InRange(m, t) && 1 <= i < k < |t| - 1
    ensures best == Step(m, t, i, k)
    ensures improved == (improvedBefore || Improves(m, t, i, k))
  {
    var a, b, c, d := t[i - 1], t[i], t[k], t[k + 1];
    var current := Plus(m[a][b], m[c][d]);
    var swapped := Plus(m[a][c], m[b][d]);
    if Less(Plus(swapped, Finite(Epsilon)), current) {
      best, improved := TwoOptMove(t, i, k), true;
    } else {
      best, improved := t, improvedBefore;
    }
  }

  /** The scan goes on from the pair after (i, k) with the tour the pair (i, k) left. */
  lemma RowAdvance(m: Matrix, t: seq<nat>, i: nat, k: nat)
    requires IsSquare(m) && InRange(m, t) && 1 <= i < k < |t| - 1
    ensures TwoOptRow(m, t, i, k) == TwoOptRow(m, Step(m, t, i, k), i, k + 1)
  {
  }

  /** An accepted exchange keeps the stops and lowers the finite length by more than
      epsilon, hence the potential by at least one. */
  lemma AcceptedExchange(m: Matrix, order: seq<nat>, t: seq<nat>, i: nat, k: nat)
    requires SymmetricMatrix(m) && NonNegativeMatrix(m)
    requires InRange(m, order) && SameStops(m, order, t)
    requires 1 <= i < k < |t| - 1 && Improves(m, t, i, k)
    ensures SameStops(m, order, TwoOptMove(t, i, k))
    ensures 0.0 <= Cost(m, TwoOptMove(t, i, k)) && Cost(m, TwoOptMove(t, i, k)) + Epsilon < Cost(m, t)
  {
    var t' := TwoOptMove(t, i, k);
    TwoOptMoveShape(m, t, i, k);
    TwoOptMoveLegs(m, t, i, k, FiniteOrZero);
    TwoOptMoveLegs(m, t, i, k, NaNIndicator);
    var a, b, c, d := t[i - 1], t[i], t[k], t[k + 1];
    assert m[a][b].Finite? && m[c][d].Finite? && m[a][c].Finite? && m[b][d].Finite?;
    assert m[a][c].value + m[b][d].value + Epsilon < m[a][b].value + m[c][d].value;
    assert Cost(m, t') == Cost(m, t) - m[a][b].value - m[c][d].value + m[a][c].value + m[b][d].value;
    CostNonNegative(m, t');
  }
}
