/**
 * The built-in map worked through: the journey from city 0 to city 4
 * before and after the road between cities 0 and 3 is closed. The
 * distances are certified by potentials (a distance label per city that no
 * road can undercut), which also show that each shortest route is the only
 * one without repeated cities.
 */
module ReferenceMap {
  import opened Routes
  import opened Search
  import opened Navigation

  /** The built-in network once the road between cities 0 and 3 is closed. */
  const ClosedTable: Matrix :=
    [[  0,  50, 150, Inf, 200],
     [ 50,   0,  70,  60, Inf],
     [150,  70,   0, 100, Inf],
     [Inf,  60, 100,   0,  40],
     [200, Inf, Inf,  40,   0]]

  /** Shortest distances from city 0 in the built-in network. */
  const FromZero: seq<int> := [0, 50, 120, 90, 130]

  /** Shortest distances from city 0 once the road between 0 and 3 is closed. */
  const FromZeroClosed: seq<int> := [0, 50, 120, 110, 150]

  lemma ClosingRoad()
    ensures IsMatrix(ClosedTable)
    ensures WithoutRoad(InitialTable, 0, 3) == ClosedTable
  {
    InitialNetwork();
    var m := WithoutRoad(InitialTable, 0, 3);
    forall i, j | 0 <= i < MaxCities && 0 <= j < MaxCities ensures m[i][j] == ClosedTable[i][j] {
      assert i == 0 || i == 1 || i == 2 || i == 3 || i == 4;
      assert j == 0 || j == 1 || j == 2 || j == 3 || j == 4;
    }
    SameCells(m, ClosedTable);
  }

  lemma FromZeroFeasible()
    ensures IsMatrix(InitialTable) && Feasible(InitialTable, FromZero)
  {
    InitialNetwork();
    forall a, b | 0 <= a < MaxCities && 0 <= b < MaxCities && InitialTable[a][b] != Inf
      ensures FromZero[b] <= FromZero[a] + InitialTable[a][b]
    {
      assert a == 0 || a == 1 || a == 2 || a == 3 || a == 4;
      assert b == 0 || b == 1 || b == 2 || b == 3 || b == 4;
    }
  }

  lemma FromZeroClosedFeasible()
    ensures IsMatrix(ClosedTable) && Feasible(ClosedTable, FromZeroClosed)
  {
    forall a, b | 0 <= a < MaxCities && 0 <= b < MaxCities && ClosedTable[a][b] != Inf
      ensures FromZeroClosed[b] <= FromZeroClosed[a] + ClosedTable[a][b]
    {
      assert a == 0 || a == 1 || a == 2 || a == 3 || a == 4;
      assert b == 0 || b == 1 || b == 2 || b == 3 || b == 4;
    }
  }

  /**
   * A route from 0 to 4 without repeats that uses only roads on which the
   * distances from 0 are tight is 0, 3, 4.
   */
  lemma TightBefore(p: seq<int>)
    requires IsMatrix(InitialTable) && IsRoute(InitialTable, p, 0, 4) && Simple(p)
    requires forall k :: 0 <= k < |p| - 1 ==> FromZero[p[k + 1]] == FromZero[p[k]] + InitialTable[p[k]][p[k + 1]]
    ensures p == [0, 3, 4]
  {
    var n := |p|;
    var a := p[n - 2];
    assert FromZero[4] == FromZero[a] + InitialTable[a][4] && InitialTable[a][4] != Inf;
    assert a == 3 by {
      assert a == 0 || a == 1 || a == 2 || a == 3 || a == 4;
    }
    var b := p[n - 3];
    assert FromZero[3] == FromZero[b] + InitialTable[b][3] && InitialTable[b][3] != Inf;
    assert b == 0 by {
      assert b == 0 || b == 1 || b == 2 || b == 3 || b == 4;
    }
    assert n == 3;
  }

  /**
   * A route from 0 to 4 without repeats that uses only roads on which the
   * distances from 0 are tight, with the road 0-3 closed, is 0, 1, 3, 4.
   */
  lemma TightAfter(p: seq<int>)
    requires IsMatrix(ClosedTable) && IsRoute(ClosedTable, p, 0, 4) && Simple(p)
    requires forall k :: 0 <= k < |p| - 1 ==> FromZeroClosed[p[k + 1]] == FromZeroClosed[p[k]] + ClosedTable[p[k]][p[k + 1]]
    ensures p == [0, 1, 3, 4]
  {
    var n := |p|;
    var a := p[n - 2];
    assert FromZeroClosed[4] == FromZeroClosed[a] + ClosedTable[a][4] && ClosedTable[a][4] != Inf;
    assert a == 3 by {
      assert a == 0 || a == 1 || a == 2 || a == 3 || a == 4;
    }
    var b := p[n - 3];
    assert FromZeroClosed[3] == FromZeroClosed[b] + ClosedTable[b][3] && ClosedTable[b][3] != Inf;
    assert b == 1 by {
      assert b == 0 || b == 1 || b == 2 || b == 3 || b == 4;
    }
    var c := p[n - 4];
    assert FromZeroClosed[1] == FromZeroClosed[c] + ClosedTable[c][1] && ClosedTable[c][1] != Inf;
    assert c == 0 by {
      assert c == 0 || c == 1 || c == 2 || c == 3 || c == 4;
    }
    assert n == 4;
  }

  /** 0, 3, 4 is a route of length 130 in the built-in network, with these legs. */
  lemma RouteBefore()
    requires IsMatrix(InitialTable)
    ensures IsRoute(InitialTable, [0, 3, 4], 0, 4) && PathWeight(InitialTable, [0, 3, 4]) == 130
    ensures LegsOf(InitialTable, [0, 3, 4]) == [Leg(0, 3, 90), Leg(3, 4, 40)]
  {
    var q := [0, 3, 4];
    assert q[..2] == [0, 3] && q[..2][..1] == [0];
  }

  /** 0, 1, 3, 4 is a route of length 150 once the road 0-3 is closed, with these legs. */
  lemma RouteAfter()
    requires IsMatrix(ClosedTable)
    ensures IsRoute(ClosedTable, [0, 1, 3, 4], 0, 4) && PathWeight(ClosedTable, [0, 1, 3, 4]) == 150
    ensures LegsOf(ClosedTable, [0, 1, 3, 4]) == [Leg(0, 1, 50), Leg(1, 3, 60), Leg(3, 4, 40)]
  {
    var q := [0, 1, 3, 4];
    assert q[..3] == [0, 1, 3] && q[..3][..2] == [0, 1] && q[..3][..2][..1] == [0];
    assert PathWeight(ClosedTable, [0, 1]) == 50;
    assert PathWeight(ClosedTable, [0, 1, 3]) == 110;
  }

  /**
   * A route whose length the potential h certifies as shortest, and which
   * is the only such route without repeats, is what a journey query reports.
   */
  lemma CertifiedTrip(m: Matrix, h: seq<int>, q: seq<int>, s: int, t: int, j: Journey)
    requires IsMatrix(m) && Feasible(m, h) && IsRoute(m, q, s, t) && PathWeight(m, q) == h[t] - h[s] < Inf
    requires forall p :: IsRoute(m, p, s, t) && Simple(p) && PathWeight(m, p) == h[t] - h[s] ==> p == q
    requires Reports(m, s, t, j)
    ensures j == Trip(LegsOf(m, q), h[t] - h[s])
  {
    var p :| ShortestRoute(m, p, s, t) && j.legs == LegsOf(m, p) && j.total == PathWeight(m, p)
             && Linked(Rounds(m, s, MaxCities - 1).prev, p, t);
    PotentialBound(m, h, p, s, t);
    assert PathWeight(m, p) <= PathWeight(m, q);
  }

  /** No other route from 0 to 4 without repeats is as short as 0, 3, 4. */
  lemma OnlyRouteBefore()
    requires IsMatrix(InitialTable) && Feasible(InitialTable, FromZero)
    ensures forall p :: IsRoute(InitialTable, p, 0, 4) && Simple(p) && PathWeight(InitialTable, p) == 130 ==> p == [0, 3, 4]
  {
    forall p | IsRoute(InitialTable, p, 0, 4) && Simple(p) && PathWeight(InitialTable, p) == 130 ensures p == [0, 3, 4] {
      TightRoute(InitialTable, FromZero, p, 0, 4);
      TightBefore(p);
    }
  }

  /** The shortest route from 0 to 4 in the built-in network is 0, 3, 4, of length 130. */
  lemma ShortestBefore(j: Journey)
    requires IsMatrix(InitialTable)
    requires Reports(InitialTable, 0, 4, j)
    ensures j == Trip([Leg(0, 3, 90), Leg(3, 4, 40)], 130)
  {
    FromZeroFeasible();
    OnlyRouteBefore();
    RouteBefore();
    CertifiedTrip(InitialTable, FromZero, [0, 3, 4], 0, 4, j);
  }

  /** No other route from 0 to 4 without repeats is as short as 0, 1, 3, 4. */
  lemma OnlyRouteAfter()
    requires IsMatrix(ClosedTable) && Feasible(ClosedTable, FromZeroClosed)
    ensures forall p :: IsRoute(ClosedTable, p, 0, 4) && Simple(p) && PathWeight(ClosedTable, p) == 150 ==> p == [0, 1, 3, 4]
  {
    forall p | IsRoute(ClosedTable, p, 0, 4) && Simple(p) && PathWeight(ClosedTable, p) == 150 ensures p == [0, 1, 3, 4] {
      TightRoute(ClosedTable, FromZeroClosed, p, 0, 4);
      TightAfter(p);
    }
  }

  /** With the road 0-3 closed, the shortest route from 0 to 4 is 0, 1, 3, 4, of length 150. */
  lemma ShortestAfter(j: Journey)
    requires IsMatrix(ClosedTable)
    requires Reports(ClosedTable, 0, 4, j)
    ensures j == Trip([Leg(0, 1, 50), Leg(1, 3, 60), Leg(3, 4, 40)], 150)
  {
    FromZeroClosedFeasible();
    OnlyRouteAfter();
    RouteAfter();
    CertifiedTrip(ClosedTable, FromZeroClosed, [0, 1, 3, 4], 0, 4, j);
  }

  /** The journey from city 0 to city 4 on the built-in map goes through city 3, 130 in all. */
  method JourneyBefore(g: Graph) returns (j: Journey)
    requires g.Valid() && g.Cells() == InitialTable
    ensures g.Valid() && g.Cells() == InitialTable
    ensures j == Trip([Leg(0, 3, 90), Leg(3, 4, 40)], 130)
  {
    InitialNetwork();
    j := g.DisplayJourney(0, 4);
    ShortestBefore(j);
  }

  /** Once the road between 0 and 3 is closed, the journey goes through cities 1 and 3, 150 in all. */
  method JourneyAfter(g: Graph) returns (j: Journey)
    requires g.Valid() && g.Cells() == ClosedTable
    ensures j == Trip([Leg(0, 1, 50), Leg(1, 3, 60), Leg(3, 4, 40)], 150)
  {
    ClosingRoad();
    j := g.DisplayJourney(0, 4);
    ShortestAfter(j);
  }

  /**
   * The program's own map: the journey from city 0 to city 4 goes through
   * city 3 for 130; after closing the road between 0 and 3 it goes through
   * cities 1 and 3 for 150.
   */
  method ReferenceJourneys() returns (before: Journey, after: Journey)
    ensures before == Trip([Leg(0, 3, 90), Leg(3, 4, 40)], 130)
    ensures after == Trip([Leg(0, 1, 50), Leg(1, 3, 60), Leg(3, 4, 40)], 150)
  {
    var g := new Graph();
    before := JourneyBefore(g);
    g.RemoveRoad(0, 3);
    ClosingRoad();
    after := JourneyAfter(g);
  }
}
