/**
 * Road networks over a fixed set of cities, stored as adjacency matrices of
 * road lengths, and what it means for a route through one to be shortest.
 * Everything here is specification: the values the navigation engine
 * computes are proved against these definitions.
 */
module Routes {

  /** Number of cities in the network (MAX_CITIES). */
  const MaxCities: nat := 5

  /** The sentinel road length meaning "no road" (INF). */
  const Inf: int := 99999

  /** An adjacency matrix: row i holds the road lengths out of city i. */
  type Matrix = seq<seq<int>>

  ghost predicate IsMatrix(m: Matrix) {
    |m| == MaxCities && forall i :: 0 <= i < MaxCities ==> |m[i]| == MaxCities
  }

  /** Every stored length, the sentinel included, is non-negative. */
  ghost predicate NonNegative(m: Matrix)
    requires IsMatrix(m)
  {
    forall i, j :: 0 <= i < MaxCities && 0 <= j < MaxCities ==> 0 <= m[i][j]
  }

  /** Roads are undirected: the length from i to j is the length from j to i. */
  ghost predicate Symmetric(m: Matrix)
    requires IsMatrix(m)
  {
    forall i, j :: 0 <= i < MaxCities && 0 <= j < MaxCities ==> m[i][j] == m[j][i]
  }

  /** Every element of p names a city. */
  ghost predicate Cities(p: seq<int>) {
    forall k :: 0 <= k < |p| ==> 0 <= p[k] < MaxCities
  }

  /** No city occurs twice in p. */
  ghost predicate Simple(p: seq<int>) {
    forall a, b :: 0 <= a < b < |p| ==> p[a] != p[b]
  }

  /**
   * p is a route from s to t: a non-empty sequence of cities that starts
   * at s, ends at t, and only follows roads that exist (length not Inf).
   */
  ghost predicate IsRoute(m: Matrix, p: seq<int>, s: int, t: int)
    requires IsMatrix(m)
  {
    && |p| >= 1
    && Cities(p)
    && p[0] == s
    && p[|p| - 1] == t
    && forall k {:trigger m[p[k]]} :: 0 <= k < |p| - 1 ==> m[p[k]][p[k + 1]] != Inf
  }

  /** The total length of the roads along p (0 for a single city). */
  ghost function PathWeight(m: Matrix, p: seq<int>): int
    requires IsMatrix(m) && Cities(p)
    decreases |p|
  {
    if |p| <= 1 then 0
    else PathWeight(m, p[..|p| - 1]) + m[p[|p| - 2]][p[|p| - 1]]
  }

  /**
   * d is the shortest distance from s to t as the engine reports it: no
   * route is shorter than d, d never exceeds the sentinel, and unless d is
   * the sentinel some route has length exactly d. When every route is at
   * least Inf long (in particular when there is none), d is Inf.
   */
  ghost predicate Optimal(m: Matrix, s: int, t: int, d: int)
    requires IsMatrix(m)
  {
    && d <= Inf
    && (forall p :: IsRoute(m, p, s, t) ==> d <= PathWeight(m, p))
    && (d < Inf ==> exists p :: IsRoute(m, p, s, t) && PathWeight(m, p) == d)
  }

  /** p is a shortest route from s to t, visiting no city twice. */
  ghost predicate ShortestRoute(m: Matrix, p: seq<int>, s: int, t: int)
    requires IsMatrix(m)
  {
    IsRoute(m, p, s, t) && Simple(p) && PathWeight(m, p) < Inf && Optimal(m, s, t, PathWeight(m, p))
  }

  /** s in the opposite order. */
  function Reversed(s: seq<int>): (r: seq<int>)
    ensures |r| == |s|
  {
    if s == [] then [] else [s[|s| - 1]] + Reversed(s[..|s| - 1])
  }

  /** Position k of Reversed(s) holds position |s| - 1 - k of s. */
  lemma {:induction false} ReversedAt(s: seq<int>, k: int)
    requires 0 <= k < |s|
    ensures Reversed(s)[k] == s[|s| - 1 - k]
    decreases |s|
  {
    if k > 0 {
      ReversedAt(s[..|s| - 1], k - 1);
    }
  }

  /** Without negative lengths no route has a negative length. */
  lemma {:induction false} PathWeightNonNegative(m: Matrix, p: seq<int>)
    requires IsMatrix(m) && NonNegative(m) && Cities(p)
    ensures PathWeight(m, p) >= 0
    decreases |p|
  {
    if |p| > 1 {
      PathWeightNonNegative(m, p[..|p| - 1]);
    }
  }

  /** Putting a city in front of a route adds the length of the road to its first city. */
  lemma {:induction false} PrependWeight(m: Matrix, x: int, p: seq<int>)
    requires IsMatrix(m) && Cities(p) && |p| >= 1 && 0 <= x < MaxCities
    ensures Cities([x] + p)
    ensures PathWeight(m, [x] + p) == m[x][p[0]] + PathWeight(m, p)
    decreases |p|
  {
    var q := [x] + p;
    assert Cities(q) by {
      forall k | 0 <= k < |q| ensures 0 <= q[k] < MaxCities {
        if k > 0 { assert q[k] == p[k - 1]; }
      }
    }
    if |p| > 1 {
      var p' := p[..|p| - 1];
      assert q[..|q| - 1] == [x] + p';
      PrependWeight(m, x, p');
    } else {
      assert q[..1] == [x];
    }
  }

  /** On a symmetric matrix a route can be driven backwards, at the same length. */
  lemma {:induction false} ReversedRoute(m: Matrix, p: seq<int>, s: int, t: int)
    requires IsMatrix(m) && Symmetric(m) && IsRoute(m, p, s, t)
    ensures IsRoute(m, Reversed(p), t, s)
    ensures PathWeight(m, Reversed(p)) == PathWeight(m, p)
    decreases |p|
  {
    var r := Reversed(p);
    forall k | 0 <= k < |r| ensures r[k] == p[|p| - 1 - k] {
      ReversedAt(p, k);
    }
    assert Cities(r);
    if |p| > 1 {
      var q := p[..|p| - 1];
      assert IsRoute(m, q, s, p[|p| - 2]);
      ReversedRoute(m, q, s, p[|p| - 2]);
      assert r == [t] + Reversed(q);
      forall k | 0 <= k < |r| - 1 ensures m[r[k]][r[k + 1]] != Inf {
        if k == 0 {
          assert m[p[|p| - 2]][p[|p| - 1]] != Inf;
        } else {
          assert r[k] == Reversed(q)[k - 1] && r[k + 1] == Reversed(q)[k];
        }
      }
      PrependWeight(m, t, Reversed(q));
    }
  }

  /** Shortest distances do not depend on the direction of travel. */
  lemma OptimalSymmetric(m: Matrix, s: int, t: int, d: int)
    requires IsMatrix(m) && Symmetric(m) && Optimal(m, s, t, d)
    ensures Optimal(m, t, s, d)
  {
    forall p | IsRoute(m, p, t, s) ensures d <= PathWeight(m, p) {
      ReversedRoute(m, p, t, s);
    }
    if d < Inf {
      var p :| IsRoute(m, p, s, t) && PathWeight(m, p) == d;
      ReversedRoute(m, p, s, t);
    }
  }

  /** The shortest distance is determined by the matrix and the two cities. */
  lemma OptimalUnique(m: Matrix, s: int, t: int, d1: int, d2: int)
    requires IsMatrix(m) && Optimal(m, s, t, d1) && Optimal(m, s, t, d2)
    ensures d1 == d2
  {
  }

  /** The sentinel is reported exactly when no route is shorter than the sentinel. */
  lemma OptimalUnreachable(m: Matrix, s: int, t: int, d: int)
    requires IsMatrix(m) && Optimal(m, s, t, d)
    ensures d == Inf <==> forall p :: IsRoute(m, p, s, t) ==> PathWeight(m, p) >= Inf
  {
    if d < Inf {
      var p :| IsRoute(m, p, s, t) && PathWeight(m, p) == d;
    }
  }

  /** Two matrices that agree cell by cell are equal. */
  lemma SameCells(m1: Matrix, m2: Matrix)
    requires IsMatrix(m1) && IsMatrix(m2)
    requires forall i, j :: 0 <= i < MaxCities && 0 <= j < MaxCities ==> m1[i][j] == m2[i][j]
    ensures m1 == m2
  {
    forall i | 0 <= i < MaxCities ensures m1[i] == m2[i] {
      assert forall j :: 0 <= j < MaxCities ==> m1[i][j] == m2[i][j];
    }
  }

  // ---------------------------------------------------------------------
  // Closing a road (removeRoad)

  /** m with the road between a and b, in both directions, set to the sentinel. */
  ghost function WithoutRoad(m: Matrix, a: int, b: int): (r: Matrix)
    requires IsMatrix(m) && 0 <= a < MaxCities && 0 <= b < MaxCities
    ensures IsMatrix(r)
    ensures r[a][b] == Inf && r[b][a] == Inf
    ensures forall i, j :: 0 <= i < MaxCities && 0 <= j < MaxCities && !(i == a && j == b) && !(i == b && j == a) ==>
      r[i][j] == m[i][j]
  {
    seq(MaxCities, i requires 0 <= i < MaxCities =>
      seq(MaxCities, j requires 0 <= j < MaxCities =>
        if (i == a && j == b) || (i == b && j == a) then Inf else m[i][j]))
  }

  /** m with the road between a and b, in both directions, set to length w. */
  ghost function WithRoad(m: Matrix, a: int, b: int, w: int): (r: Matrix)
    requires IsMatrix(m) && 0 <= a < MaxCities && 0 <= b < MaxCities
    ensures IsMatrix(r)
    ensures forall i, j :: 0 <= i < MaxCities && 0 <= j < MaxCities ==>
      r[i][j] == if (i == a && j == b) || (i == b && j == a) then w else m[i][j]
  {
    seq(MaxCities, i requires 0 <= i < MaxCities =>
      seq(MaxCities, j requires 0 <= j < MaxCities =>
        if (i == a && j == b) || (i == b && j == a) then w else m[i][j]))
  }

  /** The matrix before any road is stored: 0 from a city to itself, Inf elsewhere. */
  ghost function BaseWeights(): (m: Matrix)
    ensures IsMatrix(m)
  {
    seq(MaxCities, i requires 0 <= i < MaxCities => seq(MaxCities, j requires 0 <= j < MaxCities => if i == j then 0 else Inf))
  }

  /** Storing the eight roads, in the order initializeGraph does, yields the built-in table. */
  lemma BuiltIn()
    ensures WithRoad(WithRoad(WithRoad(WithRoad(WithRoad(WithRoad(WithRoad(WithRoad(BaseWeights(),
      0, 1, 50), 1, 2, 70), 1, 3, 60), 3, 4, 40), 0, 2, 150), 0, 3, 90), 0, 4, 200), 2, 3, 100) ==
      InitialTable
  {
    var m := WithRoad(WithRoad(WithRoad(WithRoad(WithRoad(WithRoad(WithRoad(WithRoad(BaseWeights(),
      0, 1, 50), 1, 2, 70), 1, 3, 60), 3, 4, 40), 0, 2, 150), 0, 3, 90), 0, 4, 200), 2, 3, 100);
    var t := InitialTable;
    forall i, j | 0 <= i < MaxCities && 0 <= j < MaxCities ensures m[i][j] == t[i][j] {
      assert i == 0 || i == 1 || i == 2 || i == 3 || i == 4;
      assert j == 0 || j == 1 || j == 2 || j == 3 || j == 4;
    }
    SameCells(m, t);
  }

  /** Closing a road keeps a symmetric matrix symmetric. */
  lemma WithoutRoadSymmetric(m: Matrix, a: int, b: int)
    requires IsMatrix(m) && Symmetric(m) && 0 <= a < MaxCities && 0 <= b < MaxCities
    ensures Symmetric(WithoutRoad(m, a, b))
  {
  }

  /** Closing a road that is already closed changes nothing. */
  lemma WithoutRoadIdempotent(m: Matrix, a: int, b: int)
    requires IsMatrix(m) && 0 <= a < MaxCities && 0 <= b < MaxCities
    ensures WithoutRoad(WithoutRoad(m, a, b), a, b) == WithoutRoad(m, a, b)
  {
    SameCells(WithoutRoad(WithoutRoad(m, a, b), a, b), WithoutRoad(m, a, b));
  }

  /** A route that survives a closure had the same length before it. */
  lemma {:induction false} RouteSurvivesClosure(m: Matrix, a: int, b: int, p: seq<int>, s: int, t: int)
    requires IsMatrix(m) && 0 <= a < MaxCities && 0 <= b < MaxCities
    requires IsRoute(WithoutRoad(m, a, b), p, s, t)
    ensures IsRoute(m, p, s, t)
    ensures PathWeight(m, p) == PathWeight(WithoutRoad(m, a, b), p)
    decreases |p|
  {
    var r := WithoutRoad(m, a, b);
    forall k | 0 <= k < |p| - 1 ensures m[p[k]][p[k + 1]] == r[p[k]][p[k + 1]] != Inf {
    }
    if |p| > 1 {
      RouteSurvivesClosure(m, a, b, p[..|p| - 1], s, p[|p| - 2]);
    }
  }

  /** Closing a road never makes a shortest distance shorter. */
  lemma ClosureNeverShortens(m: Matrix, a: int, b: int, s: int, t: int, d: int, d': int)
    requires IsMatrix(m) && 0 <= a < MaxCities && 0 <= b < MaxCities
    requires Optimal(m, s, t, d) && Optimal(WithoutRoad(m, a, b), s, t, d')
    ensures d <= d'
  {
    if d' < Inf {
      var p :| IsRoute(WithoutRoad(m, a, b), p, s, t) && PathWeight(WithoutRoad(m, a, b), p) == d';
      RouteSurvivesClosure(m, a, b, p, s, t);
    }
  }

  // ---------------------------------------------------------------------
  // Lower bounds from potentials

  /** h never drops by more than a road's length along any existing road. */
  ghost predicate Feasible(m: Matrix, h: seq<int>)
    requires IsMatrix(m)
  {
    |h| == MaxCities &&
    forall a, b :: 0 <= a < MaxCities && 0 <= b < MaxCities && m[a][b] != Inf ==> h[b] <= h[a] + m[a][b]
  }

  /** Along a route, a feasible potential rises by at most the route's length. */
  lemma {:induction false} PotentialBound(m: Matrix, h: seq<int>, p: seq<int>, s: int, t: int)
    requires IsMatrix(m) && Feasible(m, h) && IsRoute(m, p, s, t)
    ensures h[t] - h[s] <= PathWeight(m, p)
    decreases |p|
  {
    if |p| > 1 {
      PotentialBound(m, h, p[..|p| - 1], s, p[|p| - 2]);
    }
  }

  /** A route whose length meets the potential bound uses only tight roads. */
  lemma {:induction false} TightRoute(m: Matrix, h: seq<int>, p: seq<int>, s: int, t: int)
    requires IsMatrix(m) && Feasible(m, h) && IsRoute(m, p, s, t)
    requires PathWeight(m, p) == h[t] - h[s]
    ensures forall k :: 0 <= k < |p| - 1 ==> h[p[k + 1]] == h[p[k]] + m[p[k]][p[k + 1]]
    decreases |p|
  {
    if |p| > 1 {
      var q, w := p[..|p| - 1], p[|p| - 2];
      assert IsRoute(m, q, s, w);
      PotentialBound(m, h, q, s, w);
      assert PathWeight(m, q) == h[w] - h[s];
      TightRoute(m, h, q, s, w);
      forall k | 0 <= k < |p| - 1 ensures h[p[k + 1]] == h[p[k]] + m[p[k]][p[k + 1]] {
        if k < |p| - 2 {
          assert q[k] == p[k] && q[k + 1] == p[k + 1];
        }
      }
    }
  }

  // ---------------------------------------------------------------------
  // The built-in road network (initializeGraph)

  /** The eight roads of the built-in network, as (city, city, length). */
  const Roads: seq<(int, int, int)> :=
    [(0, 1, 50), (1, 2, 70), (1, 3, 60), (3, 4, 40),
     (0, 2, 150), (0, 3, 90), (0, 4, 200), (2, 3, 100)]

  /** The length of the first listed road joining i and j, in either order; Inf if none. */
  function RoadLength(roads: seq<(int, int, int)>, i: int, j: int): int
  {
    if roads == [] then Inf
    else if (roads[0].0 == i && roads[0].1 == j) || (roads[0].0 == j && roads[0].1 == i) then roads[0].2
    else RoadLength(roads[1..], i, j)
  }

  /** The built-in network as a table of road lengths. */
  const InitialTable: Matrix :=
    [[  0,  50, 150,  90, 200],
     [ 50,   0,  70,  60, Inf],
     [150,  70,   0, 100, Inf],
     [ 90,  60, 100,   0,  40],
     [200, Inf, Inf,  40,   0]]

  /**
   * The built-in table is the listed road network: 0 from a city to
   * itself, each listed road in both directions, Inf everywhere else.
   */
  lemma InitialNetwork()
    ensures IsMatrix(InitialTable)
    ensures forall i, j :: 0 <= i < MaxCities && 0 <= j < MaxCities ==>
      InitialTable[i][j] == if i == j then 0 else RoadLength(Roads, i, j)
  {
    forall i, j | 0 <= i < MaxCities && 0 <= j < MaxCities
      ensures InitialTable[i][j] == if i == j then 0 else RoadLength(Roads, i, j)
    {
      RoadTable(i, j);
    }
  }

  /** Hence the built-in network is symmetric and has no negative length. */
  lemma InitialShape()
    ensures IsMatrix(InitialTable) && Symmetric(InitialTable) && NonNegative(InitialTable)
  {
    InitialNetwork();
    forall i, j | 0 <= i < MaxCities && 0 <= j < MaxCities
      ensures InitialTable[i][j] == InitialTable[j][i] && 0 <= InitialTable[i][j]
    {
      RoadLengthSymmetric(Roads, i, j);
      RoadLengthRange(Roads, i, j);
    }
  }

  /** Each listed road is stored with its length in both directions. */
  lemma RoadsStored()
    ensures IsMatrix(InitialTable)
    ensures forall k :: 0 <= k < |Roads| ==>
      InitialTable[Roads[k].0][Roads[k].1] == Roads[k].2 && InitialTable[Roads[k].1][Roads[k].0] == Roads[k].2
  {
    forall k | 0 <= k < |Roads|
      ensures InitialTable[Roads[k].0][Roads[k].1] == Roads[k].2 && InitialTable[Roads[k].1][Roads[k].0] == Roads[k].2
    {
      assert k == 0 || k == 1 || k == 2 || k == 3 || k == 4 || k == 5 || k == 6 || k == 7;
    }
  }

  /** A road joins its two cities in either order. */
  lemma {:induction false} RoadLengthSymmetric(roads: seq<(int, int, int)>, i: int, j: int)
    ensures RoadLength(roads, i, j) == RoadLength(roads, j, i)
  {
    if roads != [] { RoadLengthSymmetric(roads[1..], i, j); }
  }

  /** Listed lengths that are non-negative give non-negative lookups. */
  lemma {:induction false} RoadLengthRange(roads: seq<(int, int, int)>, i: int, j: int)
    requires forall k :: 0 <= k < |roads| ==> 0 <= roads[k].2
    ensures 0 <= RoadLength(roads, i, j)
  {
    if roads != [] { RoadLengthRange(roads[1..], i, j); }
  }

  /** The built-in table, cell by cell, against the road list. */
  lemma RoadTable(i: int, j: int)
    requires 0 <= i < MaxCities && 0 <= j < MaxCities
    ensures InitialTable[i][j] == if i == j then 0 else RoadLength(Roads, i, j)
  {
    if i == 0 {
      if j == 0 {} else if j == 1 {} else if j == 2 {} else if j == 3 {} else {}
    } else if i == 1 {
      if j == 0 {} else if j == 1 {} else if j == 2 {} else if j == 3 {} else {}
    } else if i == 2 {
      if j == 0 {} else if j == 1 {} else if j == 2 {} else if j == 3 {} else {}
    } else if i == 3 {
      if j == 0 {} else if j == 1 {} else if j == 2 {} else if j == 3 {} else {}
    } else {
      if j == 0 {} else if j == 1 {} else if j == 2 {} else if j == 3 {} else {}
    }
  }
}
