/**
 * The navigation engine: a road network of MaxCities cities held in an
 * adjacency matrix that is filled once and then only loses roads, the
 * dense O(N^2) Dijkstra search over it with path reconstruction into a
 * caller's buffer, and the journey report built from its result.
 */
module Navigation {
  import opened Routes
  import opened Search
  import opened Settling

  /** One printed step of a journey: a road, from city to city, and its length. */
  datatype Leg = Leg(from: int, to: int, distance: int)

  /** What a journey query reports: no route at all, or the legs of a shortest route and its total length. */
  datatype Journey = NoRoute | Trip(legs: seq<Leg>, total: int)

  /** The legs along p, each with the length of its road in m. */
  ghost function LegsOf(m: Matrix, p: seq<int>): seq<Leg>
    requires IsMatrix(m) && Cities(p) && |p| >= 1
  {
    seq(|p| - 1, k requires 0 <= k < |p| - 1 => Leg(p[k], p[k + 1], m[p[k]][p[k + 1]]))
  }

  /**
   * j is what a journey query from s to t reports on m: NoRoute exactly when
   * no route is shorter than the sentinel, otherwise the legs and total
   * length of a shortest route, namely the one the links of the search from
   * s read back from t.
   */
  ghost predicate Reports(m: Matrix, s: int, t: int, j: Journey)
    requires IsMatrix(m) && 0 <= s < MaxCities && 0 <= t < MaxCities
  {
    && (j.NoRoute? <==> forall p :: IsRoute(m, p, s, t) ==> PathWeight(m, p) >= Inf)
    && (j.Trip? ==> exists p :: && ShortestRoute(m, p, s, t)
                               && j.legs == LegsOf(m, p)
                               && j.total == PathWeight(m, p)
                               && Linked(Rounds(m, s, MaxCities - 1).prev, p, t))
  }

  /** The sum of the lengths printed on the legs. */
  function LegsTotal(legs: seq<Leg>): int
  {
    if legs == [] then 0 else LegsTotal(legs[..|legs| - 1]) + legs[|legs| - 1].distance
  }

  /** The lengths printed on the legs of a route add up to the route's length. */
  lemma {:induction false} LegsTotalIsWeight(m: Matrix, p: seq<int>)
    requires IsMatrix(m) && Cities(p) && |p| >= 1
    ensures LegsTotal(LegsOf(m, p)) == PathWeight(m, p)
    decreases |p|
  {
    if |p| > 1 {
      var q := p[..|p| - 1];
      LegsTotalIsWeight(m, q);
      assert LegsOf(m, p)[..|p| - 2] == LegsOf(m, q);
    }
  }

  /** Every MaxCities-by-MaxCities array has a matrix value. */
  lemma ViewExists(a: array2<int>)
    requires a.Length0 == MaxCities && a.Length1 == MaxCities
    ensures exists m: Matrix :: IsMatrix(m) && forall i, j :: 0 <= i < MaxCities && 0 <= j < MaxCities ==> m[i][j] == a[i, j]
  {
    var m := seq(MaxCities, i requires 0 <= i < MaxCities reads a =>
      seq(MaxCities, j requires 0 <= j < MaxCities reads a => a[i, j]));
    assert IsMatrix(m) && forall i, j :: 0 <= i < MaxCities && 0 <= j < MaxCities ==> m[i][j] == a[i, j];
  }

  /**
   * The selection scan of one Dijkstra round: an unvisited city of least
   * distance. Because a later city replaces the candidate on equal distance
   * (the scan compares with <=), the city returned is the last such city.
   */
  method NearestUnvisited(dist: array<int>, visited: array<bool>) returns (u: int)
    requires dist.Length == MaxCities && visited.Length == MaxCities
    requires forall j :: 0 <= j < MaxCities ==> dist[j] <= Inf
    requires exists j :: 0 <= j < MaxCities && !visited[j]
    ensures IsNearest(dist[..], visited[..], u)
  {
    var min := Inf;
    u := -1;
    var j := 0;
    while j < MaxCities
      invariant 0 <= j <= MaxCities && -1 <= u < j
      invariant u == -1 ==> min == Inf && forall k :: 0 <= k < j ==> visited[k]
      invariant u != -1 ==> !visited[u] && min == dist[u]
      invariant forall k :: 0 <= k < j && !visited[k] ==> min <= dist[k]
      invariant u != -1 ==> forall k :: u < k < j && !visited[k] ==> dist[u] < dist[k]
    {
      if !visited[j] && dist[j] <= min {
        min := dist[j];
        u := j;
      }
      j := j + 1;
    }
  }

  /**
   * The initialisation loop of dijkstra: every distance becomes the
   * sentinel, every city unvisited and without a link; then src gets
   * distance 0.
   */
  method ResetSearch(src: int, dist: array<int>, visited: array<bool>, prev: array<int>)
    requires 0 <= src < MaxCities && dist.Length == MaxCities && visited.Length == MaxCities && prev.Length == MaxCities
    requires dist != prev
    modifies dist, visited, prev
    ensures SearchState(dist[..], visited[..], prev[..]) == Start(src)
  {
    var k := 0;
    while k < MaxCities
      invariant 0 <= k <= MaxCities
      invariant forall v :: 0 <= v < k ==> dist[v] == Inf && !visited[v] && prev[v] == -1
    {
      dist[k] := Inf;
      visited[k] := false;
      prev[k] := -1;
      k := k + 1;
    }
    dist[src] := 0;
    assert dist[..] == Start(src).dist;
    assert visited[..] == Start(src).visited;
    assert prev[..] == Start(src).prev;
  }

  /** roads holds the matrix m: MaxCities by MaxCities, cell for cell, every length between 0 and the sentinel. */
  ghost predicate Stores(roads: array2<int>, m: Matrix)
    reads roads
  {
    && IsMatrix(m) && NonNegative(m)
    && roads.Length0 == MaxCities && roads.Length1 == MaxCities
    && forall i, j {:trigger roads[i, j]} :: 0 <= i < MaxCities && 0 <= j < MaxCities ==> roads[i, j] == m[i][j]
  }

  /** The relaxation loop of one Dijkstra round, from the city u just visited. */
  method Relax(roads: array2<int>, ghost m: Matrix, u: int, dist: array<int>, prev: array<int>, visited: array<bool>)
    requires Stores(roads, m) && 0 <= u < MaxCities
    requires dist.Length == MaxCities && prev.Length == MaxCities && visited.Length == MaxCities && dist != prev
    requires visited[u]
    modifies dist, prev
    ensures RelaxedFrom(m, u, old(dist[..]), old(prev[..]), visited[..], dist[..], prev[..])
  {
    var v := 0;
    while v < MaxCities
      invariant 0 <= v <= MaxCities
      invariant dist[u] == old(dist[u])
      invariant forall w :: 0 <= w < v ==>
        if !visited[w] && roads[u, w] != Inf && old(dist[u]) + roads[u, w] < old(dist[w])
        then dist[w] == old(dist[u]) + roads[u, w] && prev[w] == u
        else dist[w] == old(dist[w]) && prev[w] == old(prev[w])
      invariant forall w :: v <= w < MaxCities ==> dist[w] == old(dist[w]) && prev[w] == old(prev[w])
    {
      if !visited[v] && roads[u, v] != Inf && dist[u] + roads[u, v] < dist[v] {
        dist[v] := dist[u] + roads[u, v];
        prev[v] := u;
      }
      v := v + 1;
    }
  }

  /**
   * The MaxCities - 1 rounds of dijkstra, from the state its
   * initialisation leaves: each round visits the city the scan picks and
   * relaxes the roads out of it. The arrays end as the search function
   * Rounds says; one city is left unvisited, every visited city holds its
   * shortest distance, and the links account for the distances.
   */
  method Settle(roads: array2<int>, ghost m: Matrix, src: int, dist: array<int>, visited: array<bool>, prev: array<int>)
    returns (ghost distances: seq<int>, ghost settled: seq<bool>, ghost links: seq<int>, ghost rank: seq<int>)
    requires Stores(roads, m) && 0 <= src < MaxCities
    requires dist.Length == MaxCities && visited.Length == MaxCities && prev.Length == MaxCities && dist != prev
    requires SearchState(dist[..], visited[..], prev[..]) == Start(src)
    modifies dist, visited, prev
    ensures dist[..] == distances && visited[..] == settled && prev[..] == links
    ensures SearchState(distances, settled, links) == Rounds(m, src, MaxCities - 1)
    ensures Settled(m, src, distances, settled, links, rank)
  {
    rank := seq(MaxCities, _ => MaxCities - 1);
    StartSound(m, src, dist[..], visited[..], prev[..], rank);

    var i := 0;
    while i < MaxCities - 1
      invariant 0 <= i <= MaxCities - 1 && Stores(roads, m)
      invariant SearchState(dist[..], visited[..], prev[..]) == Rounds(m, src, i)
      invariant Progress(m, src, i, dist[..], visited[..], prev[..], rank)
    {
      var u;
      u, rank := VisitNearest(roads, m, src, dist, visited, prev, i, rank);
      i := i + 1;
    }
    distances, settled, links := dist[..], visited[..], prev[..];
  }

  /**
   * One round of dijkstra: visits u, the city the selection scan picks,
   * whose distance is then shortest, and relaxes every road out of u.
   * rank records the round in which each city was visited.
   */
  method VisitNearest(roads: array2<int>, ghost m: Matrix, src: int, dist: array<int>, visited: array<bool>, prev: array<int>, round: int, ghost rank: seq<int>)
    returns (u: int, ghost rank1: seq<int>)
    requires Stores(roads, m) && 0 <= round < MaxCities - 1
    requires dist.Length == MaxCities && visited.Length == MaxCities && prev.Length == MaxCities && dist != prev
    requires Progress(m, src, round, dist[..], visited[..], prev[..], rank)
    requires SearchState(dist[..], visited[..], prev[..]) == Rounds(m, src, round)
    modifies dist, visited, prev
    ensures Stores(roads, m) && IsNearest(old(dist[..]), old(visited[..]), u)
    ensures visited[..] == old(visited[..])[u := true]
    ensures RelaxedFrom(m, u, old(dist[..]), old(prev[..]), visited[..], dist[..], prev[..])
    ensures SearchState(dist[..], visited[..], prev[..]) == Rounds(m, src, round + 1)
    ensures rank1 == rank[u := round]
    ensures Progress(m, src, round + 1, dist[..], visited[..], prev[..], rank1)
  {
    SomeUnvisited(visited[..]);
    u := NearestUnvisited(dist, visited);
    ghost var dist0, visited0, prev0 := dist[..], visited[..], prev[..];
    visited[u] := true;
    assert visited[..] == visited0[u := true];
    assert dist[..] == dist0 && prev[..] == prev0;
    Relax(roads, m, u, dist, prev, visited);
    RoundKeeps(m, src, u, round, dist0, visited0, prev0, rank, dist[..], prev[..]);
    RoundFrom(m, u, dist0, visited0, prev0, dist[..], prev[..]);
    rank1 := rank[u := round];
  }

  /**
   * dijkstra over the road matrix roads (the graph's matrix, which holds
   * m): the shortest distance from src to dest, with the route the links
   * read back from dest written into path[0..|route|) in travel order.
   * When dest cannot be reached more cheaply than the sentinel, the result
   * is Inf and the path is just dest.
   */
  method Dijkstra(roads: array2<int>, ghost m: Matrix, src: int, dest: int, path: array<int>) returns (d: int, ghost route: seq<int>)
    requires Stores(roads, m) && 0 <= src < MaxCities && 0 <= dest < MaxCities && path.Length >= MaxCities
    modifies path
    ensures 1 <= |route| <= MaxCities && path[..|route|] == route
    ensures Optimal(m, src, dest, d)
    ensures d < Inf ==> IsRoute(m, route, src, dest) && Simple(route) && PathWeight(m, route) == d
    ensures d == Inf ==> route == [dest]
    ensures src == dest ==> d == 0 && route == [src]
    ensures d == Rounds(m, src, MaxCities - 1).dist[dest]
    ensures Linked(Rounds(m, src, MaxCities - 1).prev, route, dest)
    ensures path[|route|..] == old(path[|route|..])
  {
    var dist := new int[MaxCities];
    var visited := new bool[MaxCities];
    var prev := new int[MaxCities];
    ResetSearch(src, dist, visited, prev);
    ghost var distances, settled, links, rank := Settle(roads, m, src, dist, visited, prev);
    ChainStart(m, src, distances, settled, links, rank, MaxCities - 1, dest);
    ghost var forward := WholeChain(m, src, distances, settled, links, rank, MaxCities - 1, [dest], dest);
    var pathLength := WalkBack(prev, links, dest, path, forward);
    DijkstraResult(m, src, distances, settled, links, rank, forward, dest);
    d := dist[dest];
    route := forward;
  }

  /**
   * The reconstruction of dijkstra: follows the predecessor links back
   * from dest, writing each city into path, then reverses what it wrote.
   * The path then holds, in travel order, the route the links read back
   * from dest (route names it; LinkedUnique shows there is only one), and
   * nothing after it changes.
   */
  method WalkBack(prev: array<int>, ghost links: seq<int>, dest: int, path: array<int>, ghost route: seq<int>)
    returns (pathLength: int)
    requires prev[..] == links && |links| == MaxCities && Linked(links, route, dest) && |route| <= MaxCities
    requires path.Length >= MaxCities && path != prev
    modifies path
    ensures pathLength == |route| && path[..pathLength] == route
    ensures path[pathLength..] == old(path[pathLength..])
  {
    ghost var n := |route|;
    pathLength := 0;
    var at := dest;
    while at != -1
      invariant 0 <= pathLength <= n
      invariant forall k :: 0 <= k < pathLength ==> path[k] == route[n - 1 - k]
      invariant forall k :: pathLength <= k < path.Length ==> path[k] == old(path[k])
      invariant at == if pathLength < n then route[n - 1 - pathLength] else -1
      decreases n - pathLength
    {
      path[pathLength] := at;
      pathLength := pathLength + 1;
      if pathLength < n {
        assert prev[route[n - pathLength]] == route[n - 1 - pathLength];
      }
      at := prev[at];
    }
    ghost var walk := path[..n];
    ReversePrefix(path, pathLength);
    forall k | 0 <= k < n ensures path[k] == route[k] {
      ReversedAt(walk, k);
    }
  }

  /** Reverses a[0..n) in place, leaving the rest of a alone. */
  method ReversePrefix(a: array<int>, n: int)
    requires 0 <= n <= a.Length
    modifies a
    ensures a[..n] == Reversed(old(a[..n]))
    ensures a[n..] == old(a[n..])
  {
    var i := 0;
    while i < n / 2
      invariant 0 <= i <= n / 2
      invariant forall k :: 0 <= k < i ==> a[k] == old(a[n - 1 - k]) && a[n - 1 - k] == old(a[k])
      invariant forall k :: i <= k < n - i ==> a[k] == old(a[k])
      invariant forall k :: n <= k < a.Length ==> a[k] == old(a[k])
    {
      var temp := a[i];
      a[i] := a[n - i - 1];
      a[n - i - 1] := temp;
      i := i + 1;
    }
    ghost var before := old(a[..n]);
    forall k | 0 <= k < n ensures a[..n][k] == Reversed(before)[k] {
      ReversedAt(before, k);
    }
  }

  class Graph {
    /** adj[i, j] is the length of the road from city i to city j, Inf when there is none. */
    var adj: array2<int>
    /** The display name of each city. */
    var cityNames: seq<string>

    /**
     * The matrix is MaxCities by MaxCities, every cell lies between 0 and
     * the sentinel, and every road has the same length both ways.
     */
    ghost predicate Valid()
      reads this`adj, adj
    {
      && adj.Length0 == MaxCities && adj.Length1 == MaxCities
      && (forall i, j :: 0 <= i < MaxCities && 0 <= j < MaxCities ==> 0 <= adj[i, j] <= Inf)
      && (forall i, j :: 0 <= i < MaxCities && 0 <= j < MaxCities ==> adj[i, j] == adj[j, i])
    }

    /** The matrix as a value. */
    ghost function Cells(): (m: Matrix)
      reads this`adj, adj
      requires Valid()
      ensures IsMatrix(m) && NonNegative(m)
      ensures forall i, j :: 0 <= i < MaxCities && 0 <= j < MaxCities ==> m[i][j] == adj[i, j]
    {
      ViewExists(adj);
      var m :| IsMatrix(m) && forall i, j :: 0 <= i < MaxCities && 0 <= j < MaxCities ==> m[i][j] == adj[i, j];
      m
    }

    /** Every road has the same length both ways. */
    lemma CellsSymmetric()
      requires Valid()
      ensures Symmetric(Cells())
    {
      var m := Cells();
      forall i, j | 0 <= i < MaxCities && 0 <= j < MaxCities ensures m[i][j] == m[j][i] {
        assert m[i][j] == adj[i, j] && m[j][i] == adj[j, i];
      }
    }

    /** A graph as the program starts it: storage for the matrix, then initializeGraph. */
    constructor ()
      ensures Valid() && fresh(adj)
      ensures Cells() == InitialTable
      ensures cityNames == ["City 0", "City 1", "City 2", "City 3", "City 4"]
    {
      adj := new int[MaxCities, MaxCities];
      cityNames := [];
      new;
      Initialize();
    }

    /**
     * initializeGraph: names the cities, sets every cell to 0 on the
     * diagonal and Inf elsewhere, then stores the eight built-in roads in
     * both directions.
     */
    method Initialize()
      requires adj.Length0 == MaxCities && adj.Length1 == MaxCities
      modifies this`cityNames, adj
      ensures Valid() && Cells() == InitialTable
      ensures cityNames == ["City 0", "City 1", "City 2", "City 3", "City 4"]
    {
      var i := 0;
      while i < MaxCities
        invariant 0 <= i <= MaxCities
        invariant forall a, b :: 0 <= a < i && 0 <= b < MaxCities ==> adj[a, b] == if a == b then 0 else Inf
      {
        var j := 0;
        while j < MaxCities
          invariant 0 <= j <= MaxCities
          invariant forall a, b :: 0 <= a < i && 0 <= b < MaxCities ==> adj[a, b] == if a == b then 0 else Inf
          invariant forall b :: 0 <= b < j ==> adj[i, b] == if i == b then 0 else Inf
        {
          adj[i, j] := if i == j then 0 else Inf;
          j := j + 1;
        }
        i := i + 1;
      }
      SameCells(Cells(), BaseWeights());
      SetRoad(0, 1, 50);
      SetRoad(1, 2, 70);
      SetRoad(1, 3, 60);
      SetRoad(3, 4, 40);
      SetRoad(0, 2, 150);
      SetRoad(0, 3, 90);
      SetRoad(0, 4, 200);
      SetRoad(2, 3, 100);
      BuiltIn();
      cityNames := ["City 0", "City 1", "City 2", "City 3", "City 4"];
    }

    /** Sets the road between a and b to w in both directions. */
    method SetRoad(a: int, b: int, w: int)
      requires Valid() && 0 <= a < MaxCities && 0 <= b < MaxCities && 0 <= w <= Inf
      modifies adj
      ensures Valid() && Cells() == WithRoad(old(Cells()), a, b, w)
    {
      ghost var before := Cells();
      adj[a, b] := w;
      adj[b, a] := w;
      SameCells(Cells(), WithRoad(before, a, b, w));
    }

    /**
     * removeRoad: closes the road between city1 and city2 in both
     * directions. Nothing else changes; city1 == city2 overwrites that
     * city's diagonal cell with the sentinel.
     */
    method RemoveRoad(city1: int, city2: int)
      requires Valid() && 0 <= city1 < MaxCities && 0 <= city2 < MaxCities
      modifies adj
      ensures Valid()
      ensures Cells() == WithoutRoad(old(Cells()), city1, city2)
      ensures Symmetric(Cells())
    {
      ghost var before := Cells();
      adj[city1, city2] := Inf;
      adj[city2, city1] := Inf;
      SameCells(Cells(), WithoutRoad(before, city1, city2));
      CellsSymmetric();
    }

    /**
     * displayJourney, with the printed text replaced by data: NoRoute when
     * no route is shorter than the sentinel, otherwise one leg per road of a
     * shortest route, read from the matrix, and the total distance.
     */
    method DisplayJourney(city1: int, city2: int) returns (j: Journey)
      requires Valid() && 0 <= city1 < MaxCities && 0 <= city2 < MaxCities
      ensures Reports(Cells(), city1, city2, j)
    {
      ghost var m := Cells();
      var path := new int[MaxCities];
      var distance, route := Dijkstra(adj, m, city1, city2, path);
      assert Cells() == m;
      OptimalUnreachable(m, city1, city2, distance);
      if distance == Inf {
        j := NoRoute;
      } else {
        var legs := LegsAlong(path, route, city2);
        j := Trip(legs, distance);
        assert ShortestRoute(m, route, city1, city2);
      }
    }

    /**
     * The leg loop of displayJourney: walks the written path from its first
     * city until it reaches city2, one leg per road with the length read
     * from the matrix.
     */
    method LegsAlong(path: array<int>, ghost route: seq<int>, city2: int) returns (legs: seq<Leg>)
      requires Valid() && 1 <= |route| <= path.Length && path[..|route|] == route
      requires Cities(route) && Simple(route) && route[|route| - 1] == city2
      ensures legs == LegsOf(Cells(), route)
    {
      ghost var m := Cells();
      legs := [];
      var i := 0;
      while path[i] != city2
        invariant 0 <= i < |route|
        invariant |legs| == i
        invariant forall k :: 0 <= k < i ==> legs[k] == Leg(route[k], route[k + 1], m[route[k]][route[k + 1]])
        decreases |route| - i
      {
        assert path[i] == route[i];
        assert path[i + 1] == route[i + 1];
        legs := legs + [Leg(path[i], path[i + 1], adj[path[i], path[i + 1]])];
        i := i + 1;
      }
      assert path[i] == route[i];
      assert legs == LegsOf(m, route);
    }
  }
}
