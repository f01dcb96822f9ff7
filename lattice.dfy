/**
  The D3Q19 velocity model shared by the host code and the kernels: the
  nineteen integer lattice vectors, their weights, the opposite-direction
  table and the nine-direction half set used for bounce-back.  The tables of
  `constants.h` and of the stand-alone `lbmcpp.cpp` are identical, so they are
  defined once here.
*/
module Lattice {

  /** Number of spatial dimensions and of discrete velocities. */
  const D: nat := 3
  const Q: nat := 19

  /** A direction index. */
  predicate IsDir(i: int) { 0 <= i < Q }

  /** x component of the lattice vector e_i (the `Ei_X` macros). */
  function Ex(i: int): int
  {
    match i
    case 1 => 1   case 3 => -1
    case 7 => 1   case 8 => -1  case 9 => -1  case 10 => 1
    case 11 => 1  case 13 => -1 case 15 => 1  case 17 => -1
    case _ => 0
  }

  /** y component of the lattice vector e_i (the `Ei_Y` macros). */
  function Ey(i: int): int
  {
    match i
    case 2 => 1   case 4 => -1
    case 7 => 1   case 8 => 1   case 9 => -1  case 10 => -1
    case 12 => 1  case 14 => -1 case 16 => 1  case 18 => -1
    case _ => 0
  }

  /** z component of the lattice vector e_i (the `Ei_Z` macros). */
  function Ez(i: int): int
  {
    match i
    case 5 => -1  case 6 => 1
    case 11 => -1 case 12 => -1 case 13 => -1 case 14 => -1
    case 15 => 1  case 16 => 1  case 17 => 1  case 18 => 1
    case _ => 0
  }

  /** The three component rows as they are written in the comment above the macros. */
  const CommentRowX: seq<int> := [0, 1, 0, -1, 0, 0, 0, 1, -1, -1, 1, 1, 0, -1, 0, 1, 0, -1, 0]
  const CommentRowY: seq<int> := [0, 0, 1, 0, -1, 0, 0, 1, 1, -1, -1, 0, 1, 0, -1, 0, 1, 0, -1]
  const CommentRowZ: seq<int> := [0, 0, 0, 0, 0, -1, 1, 0, 0, 0, 0, -1, -1, -1, -1, 1, 1, 1, 1]

  /** The opposite-direction table `S_i`. */
  function Opp(i: int): int
  {
    match i
    case 1 => 3   case 2 => 4   case 3 => 1   case 4 => 2
    case 5 => 6   case 6 => 5   case 7 => 9   case 8 => 10
    case 9 => 7   case 10 => 8  case 11 => 17 case 12 => 18
    case 13 => 15 case 14 => 16 case 15 => 13 case 16 => 14
    case 17 => 11 case 18 => 12
    case _ => 0
  }

  /** The weight OMEGA_i, as an exact rational. */
  function W(i: int): real
  {
    if i == 0 then 1.0 / 3.0
    else if 1 <= i <= 6 then 1.0 / 18.0
    else 1.0 / 36.0
  }

  /** Squared Euclidean norm of e_i. */
  function Norm2(i: int): int
  {
    Ex(i) * Ex(i) + Ey(i) * Ey(i) + Ez(i) * Ez(i)
  }

  /** The nine directions of `UNROLL_HALF_19` in constants.h. */
  const HalfSet: seq<int> := [1, 2, 5, 7, 8, 11, 12, 13, 14]

  // ---------------------------------------------------------------------
  // Properties of the tables
  // ---------------------------------------------------------------------

  /** e_{S_i} = -e_i, componentwise, for every direction; S stays in range. */
  lemma OppositeNegates(i: int)
    requires IsDir(i)
    ensures IsDir(Opp(i))
    ensures Ex(Opp(i)) == -Ex(i) && Ey(Opp(i)) == -Ey(i) && Ez(Opp(i)) == -Ez(i)
  {
  }

  /** S is an involution that fixes only the rest direction 0. */
  lemma OppInvolution(i: int)
    requires IsDir(i)
    ensures Opp(Opp(i)) == i
    ensures Opp(i) == i <==> i == 0
  {
  }

  /** e_0 is the only zero vector; S_i is the unique direction with e = -e_i. */
  lemma OppUnique(i: int, j: int)
    requires IsDir(i) && IsDir(j)
    ensures (Ex(j) == -Ex(i) && Ey(j) == -Ey(i) && Ez(j) == -Ez(i)) <==> j == Opp(i)
  {
  }

  /** The comment rows agree with the component macros. */
  lemma CommentRowsAgree(i: int)
    requires IsDir(i)
    ensures CommentRowX[i] == Ex(i) && CommentRowY[i] == Ey(i) && CommentRowZ[i] == Ez(i)
  {
  }

  /** The sum of the weights is exactly one. */
  lemma WeightsSumToOne()
    ensures W(0) + W(1) + W(2) + W(3) + W(4) + W(5) + W(6) + W(7) + W(8) + W(9)
            + W(10) + W(11) + W(12) + W(13) + W(14) + W(15) + W(16) + W(17) + W(18) == 1.0
  {
  }

  /** Weights by shell: rest vector, six unit vectors of weight 1/18, twelve
      diagonal vectors of weight 1/36; opposite directions have equal weight. */
  lemma WeightsByShell(i: int)
    requires IsDir(i)
    ensures i == 0 ==> Norm2(i) == 0 && W(i) == 1.0 / 3.0
    ensures 1 <= i <= 6 ==> Norm2(i) == 1 && W(i) == 1.0 / 18.0
    ensures 7 <= i <= 18 ==> Norm2(i) == 2 && W(i) == 1.0 / 36.0
    ensures W(Opp(i)) == W(i)
  {
  }

  // ---------------------------------------------------------------------
  // Swapping opposite pairs inside one cell
  // ---------------------------------------------------------------------

  /** The effect of `temp = f[S_i]; f[S_i] = f[i]; f[i] = temp` on a cell. */
  function SwapOpp<P>(c: seq<P>, i: int): (r: seq<P>)
    requires |c| == Q && IsDir(i)
    ensures |r| == Q
    ensures r[i] == c[Opp(i)] && r[Opp(i)] == c[i]
    ensures forall k :: 0 <= k < Q && k != i && k != Opp(i) ==> r[k] == c[k]
  {
    OppositeNegates(i);
    c[Opp(i) := c[i]][i := c[Opp(i)]]
  }

  /** The population of cell c in the direction opposite to i, c[S_i]. */
  function Opposite<P>(c: seq<P>, i: int): P
    requires |c| == Q && IsDir(i)
  {
    OppositeNegates(i);
    c[Opp(i)]
  }

  /** The swaps of a list of directions, applied from left to right. */
  function ApplySwaps<P>(c: seq<P>, dirs: seq<int>): (r: seq<P>)
    requires |c| == Q
    requires forall k :: 0 <= k < |dirs| ==> IsDir(dirs[k])
    ensures |r| == Q
    decreases |dirs|
  {
    if dirs == [] then c else ApplySwaps(SwapOpp(c, dirs[0]), dirs[1..])
  }

  /** Extending the list by one direction performs one more swap at the end,
      which is how a loop over the list executes it. */
  lemma {:induction false} ApplySwapsSnoc<P>(c: seq<P>, dirs: seq<int>, d: int)
    requires |c| == Q && IsDir(d)
    requires forall k :: 0 <= k < |dirs| ==> IsDir(dirs[k])
    ensures ApplySwaps(c, dirs + [d]) == SwapOpp(ApplySwaps(c, dirs), d)
    decreases |dirs|
  {
    if dirs == [] {
      assert [] + [d] == [d];
      assert [d][1..] == [];
    } else {
      assert (dirs + [d])[0] == dirs[0];
      assert (dirs + [d])[1..] == dirs[1..] + [d];
      ApplySwapsSnoc(SwapOpp(c, dirs[0]), dirs[1..], d);
    }
  }

  /** The directions a swap list touches: each listed direction and its opposite. */
  predicate Touched(dirs: seq<int>, k: int)
  {
    exists m :: 0 <= m < |dirs| && (dirs[m] == k || Opp(dirs[m]) == k)
  }

  /** The pairs (d, S_d) of the list are pairwise disjoint and none is the rest pair. */
  predicate DisjointPairs(dirs: seq<int>)
  {
    && (forall m :: 0 <= m < |dirs| ==> 1 <= dirs[m] < Q)
    && (forall m, n :: 0 <= m < n < |dirs| ==>
          dirs[m] != dirs[n] && dirs[m] != Opp(dirs[n]))
  }

  /** Swapping disjoint opposite pairs, in any order, sends every touched
      direction k to the value of S_k and leaves the rest alone. */
  lemma {:induction false} ApplyDisjointSwaps<P>(c: seq<P>, dirs: seq<int>, k: int)
    requires |c| == Q && DisjointPairs(dirs) && IsDir(k)
    ensures ApplySwaps(c, dirs)[k] == if Touched(dirs, k) then c[Opp(k)] else c[k]
    decreases |dirs|
  {
    if dirs != [] {
      var d := dirs[0];
      var c' := SwapOpp(c, d);
      var rest := dirs[1..];
      OppositeNegates(d);
      OppInvolution(d);
      assert DisjointPairs(rest) by {
        forall m, n | 0 <= m < n < |rest|
          ensures rest[m] != rest[n] && rest[m] != Opp(rest[n])
        {
          assert rest[m] == dirs[m + 1] && rest[n] == dirs[n + 1];
        }
      }
      ApplyDisjointSwaps(c', rest, k);
      if Touched(rest, k) {
        var m :| 0 <= m < |rest| && (rest[m] == k || Opp(rest[m]) == k);
        assert rest[m] == dirs[m + 1];
        OppositeNegates(rest[m]);
        OppInvolution(rest[m]);
        assert k != d && k != Opp(d) by {
          assert dirs[0] != dirs[m + 1] && dirs[0] != Opp(dirs[m + 1]);
          OppInvolution(dirs[m + 1]);
          OppositeNegates(dirs[m + 1]);
          if Opp(rest[m]) == k {
            assert d != Opp(k) by { OppInvolution(k); }
          }
        }
        OppInvolution(k);
        OppositeNegates(k);
        assert Opp(k) != d && Opp(k) != Opp(d);
        assert Touched(dirs, k) by { assert dirs[m + 1] == rest[m]; }
      } else {
        forall m | 0 < m < |dirs| ensures dirs[m] != k && Opp(dirs[m]) != k {
          assert dirs[m] == rest[m - 1];
        }
        assert Touched(dirs, k) <==> (k == d || k == Opp(d));
      }
    }
  }

  /** The nine directions of the half set and their opposites cover 1..18
      exactly once. */
  lemma HalfSetPartition()
    ensures DisjointPairs(HalfSet)
    ensures forall k :: 1 <= k < Q ==> Touched(HalfSet, k)
    ensures !Touched(HalfSet, 0)
  {
    forall m | 0 <= m < |HalfSet| ensures 1 <= HalfSet[m] < Q && Opp(HalfSet[m]) != 0 {
      PairOfHalfSet(m);
      OppInvolution(HalfSet[m]);
    }
    forall m, n | 0 <= m < n < |HalfSet| ensures HalfSet[m] != HalfSet[n] && HalfSet[m] != Opp(HalfSet[n]) {
      PairOfHalfSet(m);
      PairOfHalfSet(n);
    }
    forall k | 1 <= k < Q ensures Touched(HalfSet, k) {
      PairOfDirection(k);
    }
  }

  /** The position in HalfSet of the pair {d, S_d} that direction k belongs to. */
  function PairOf(k: int): int
  {
    if k == 1 || k == 3 then 0
    else if k == 2 || k == 4 then 1
    else if k == 5 || k == 6 then 2
    else if k == 7 || k == 9 then 3
    else if k == 8 || k == 10 then 4
    else if k == 11 || k == 17 then 5
    else if k == 12 || k == 18 then 6
    else if k == 13 || k == 15 then 7
    else 8
  }

  /** Each half-set direction and its opposite belong to the pair at its own position. */
  lemma PairOfHalfSet(a: int)
    requires 0 <= a < |HalfSet|
    ensures 1 <= HalfSet[a] < Q && PairOf(HalfSet[a]) == a && PairOf(Opp(HalfSet[a])) == a
  {
  }

  /** Every non-rest direction is a half-set direction or the opposite of one. */
  lemma PairOfDirection(k: int)
    requires 1 <= k < Q
    ensures 0 <= PairOf(k) < |HalfSet|
    ensures HalfSet[PairOf(k)] == k || Opp(HalfSet[PairOf(k)]) == k
  {
  }

  /** A list of nine distinct half-set directions lists each of them. */
  lemma HalfSetOrderCovers(order: seq<int>)
    requires |order| == |HalfSet|
    requires forall m :: 0 <= m < |order| ==> order[m] in HalfSet
    requires forall m, n :: 0 <= m < n < |order| ==> order[m] != order[n]
    ensures forall a :: 0 <= a < |HalfSet| ==> HalfSet[a] in order
  {
    var s := set m | 0 <= m < |order| :: order[m];
    var h := set a | 0 <= a < |HalfSet| :: HalfSet[a];
    assert s <= h;
    DistinctCard(order);
    DistinctCard(HalfSet);
    forall a | 0 <= a < |HalfSet| ensures HalfSet[a] in order {
      var x := HalfSet[a];
      if x !in s {
        SubsetCard(s, h - {x});
        assert false;
      }
    }
  }

  /** A list of nine distinct half-set directions has disjoint pairs. */
  lemma HalfSetOrderDisjoint(order: seq<int>)
    requires forall m :: 0 <= m < |order| ==> order[m] in HalfSet
    requires forall m, n :: 0 <= m < n < |order| ==> order[m] != order[n]
    ensures DisjointPairs(order)
  {
    HalfSetPartition();
    forall m, n | 0 <= m < n < |order|
      ensures order[m] != order[n] && order[m] != Opp(order[n])
    {
      var a :| 0 <= a < |HalfSet| && HalfSet[a] == order[m];
      var b :| 0 <= b < |HalfSet| && HalfSet[b] == order[n];
      if a < b { assert HalfSet[a] != Opp(HalfSet[b]); }
      else if b < a { assert HalfSet[b] != Opp(HalfSet[a]); OppInvolution(HalfSet[a]); }
    }
  }

  /** Full bounce-back: swapping the nine half-set pairs, in whatever order
      they are listed, yields f'[i] = f[S_i] for every direction i. */
  lemma HalfSetSwapsReverse<P>(c: seq<P>, order: seq<int>)
    requires |c| == Q
    requires |order| == |HalfSet|
    requires forall m :: 0 <= m < |order| ==> order[m] in HalfSet
    requires forall m, n :: 0 <= m < n < |order| ==> order[m] != order[n]
    ensures forall i :: 0 <= i < Q ==> ApplySwaps(c, order)[i] == Opposite(c, i)
  {
    HalfSetOrderDisjoint(order);
    HalfSetOrderCovers(order);
    forall i | 0 <= i < Q ensures ApplySwaps(c, order)[i] == Opposite(c, i) {
      CoveringSwapsAt(c, order, i);
    }
  }

  /** Direction i after the swaps of a list of disjoint pairs that holds
      every half-set direction. */
  lemma CoveringSwapsAt<P>(c: seq<P>, order: seq<int>, i: int)
    requires |c| == Q && DisjointPairs(order) && IsDir(i)
    requires forall a :: 0 <= a < |HalfSet| ==> HalfSet[a] in order
    ensures ApplySwaps(c, order)[i] == Opposite(c, i)
  {
    ApplyDisjointSwaps(c, order, i);
    if i == 0 {
      MissesRest(order);
    } else {
      OrderTouches(order, i);
    }
  }

  /** A list of disjoint pairs never touches the rest direction. */
  lemma MissesRest(dirs: seq<int>)
    requires DisjointPairs(dirs)
    ensures !Touched(dirs, 0)
  {
    forall m | 0 <= m < |dirs| ensures Opp(dirs[m]) != 0 {
      OppInvolution(dirs[m]);
    }
  }

  /** A list that holds every half-set direction touches every direction but
      the rest one. */
  lemma OrderTouches(order: seq<int>, k: int)
    requires forall a :: 0 <= a < |HalfSet| ==> HalfSet[a] in order
    requires 1 <= k < Q
    ensures Touched(order, k)
  {
    PairOfDirection(k);
    var d := HalfSet[PairOf(k)];
    assert d in order;
    var m :| 0 <= m < |order| && order[m] == d;
  }

  /** Distinct entries make a set as large as the list. */
  lemma {:induction false} DistinctCard(s: seq<int>)
    requires forall m, n :: 0 <= m < n < |s| ==> s[m] != s[n]
    ensures |set m | 0 <= m < |s| :: s[m]| == |s|
  {
    if s != [] {
      var t := s[..|s| - 1];
      DistinctCard(t);
      var st := set m | 0 <= m < |t| :: t[m];
      var ss := set m | 0 <= m < |s| :: s[m];
      assert ss == st + {s[|s| - 1]};
      assert s[|s| - 1] !in st;
    }
  }

  /** A subset is no larger than its superset. */
  lemma SubsetCard(a: set<int>, b: set<int>)
    requires a <= b
    ensures |a| <= |b|
  {
    assert b == a + (b - a);
    assert a * (b - a) == {};
  }
}
