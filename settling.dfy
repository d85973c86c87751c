/**
 * The facts the dense Dijkstra loop keeps about its distance and visited
 * arrays, stated on snapshots of those arrays, and the lemmas that carry
 * them from one round of the loop to the next.
 */
module Settling {
  import opened Routes
  import opened Search

  /** Number of cities not yet visited. */
  function CountUnvisited(visited: seq<bool>): (n: nat)
    ensures n <= |visited|
  {
    if visited == [] then 0
    else CountUnvisited(visited[..|visited| - 1]) + (if visited[|visited| - 1] then 0 else 1)
  }

  /** Before the first round every city is counted. */
  lemma {:induction false} NoneVisited(visited: seq<bool>)
    requires forall j :: 0 <= j < |visited| ==> !visited[j]
    ensures CountUnvisited(visited) == |visited|
    decreases |visited|
  {
    if visited != [] {
      NoneVisited(visited[..|visited| - 1]);
    }
  }

  lemma {:induction false} UnvisitedCounted(visited: seq<bool>, j: int)
    requires 0 <= j < |visited| && !visited[j]
    ensures CountUnvisited(visited) > 0
    decreases |visited|
  {
    if j < |visited| - 1 {
      UnvisitedCounted(visited[..|visited| - 1], j);
    }
  }

  lemma {:induction false} SomeUnvisited(visited: seq<bool>)
    requires CountUnvisited(visited) > 0
    ensures exists j :: 0 <= j < |visited| && !visited[j]
    decreases |visited|
  {
    var n := |visited|;
    if visited[n - 1] {
      SomeUnvisited(visited[..n - 1]);
      var j :| 0 <= j < n - 1 && !visited[..n - 1][j];
      assert !visited[j];
    }
  }

  /** Visiting one more city lowers the count by one. */
  lemma {:induction false} VisitCounts(visited: seq<bool>, u: int)
    requires 0 <= u < |visited| && !visited[u]
    ensures CountUnvisited(visited[u := true]) == CountUnvisited(visited) - 1
    decreases |visited|
  {
    var n := |visited|;
    var after := visited[u := true];
    if u < n - 1 {
      assert after[..n - 1] == visited[..n - 1][u := true];
      VisitCounts(visited[..n - 1], u);
    } else {
      assert after[..n - 1] == visited[..n - 1];
    }
  }

  /** When one city is left unvisited, there is only one such city. */
  lemma LastUnvisited(visited: seq<bool>, x: int, y: int)
    requires CountUnvisited(visited) == 1
    requires 0 <= x < |visited| && !visited[x] && 0 <= y < |visited| && !visited[y]
    ensures x == y
  {
    VisitCounts(visited, x);
    if x != y {
      UnvisitedCounted(visited[x := true], y);
    }
  }

  /** Every distance is a non-negative value no larger than the sentinel. */
  ghost predicate Capped(dist: seq<int>) {
    forall v :: 0 <= v < |dist| ==> 0 <= dist[v] <= Inf
  }

  /** Each visited city's distance is no longer than any route to it. */
  ghost predicate SettledOptimal(m: Matrix, src: int, dist: seq<int>, visited: seq<bool>)
    requires IsMatrix(m) && |dist| == MaxCities && |visited| == MaxCities
  {
    forall u, p :: 0 <= u < MaxCities && visited[u] && IsRoute(m, p, src, u) ==> dist[u] <= PathWeight(m, p)
  }

  /** Every road out of a visited city into an unvisited one has been relaxed. */
  ghost predicate FrontierRelaxed(m: Matrix, dist: seq<int>, visited: seq<bool>)
    requires IsMatrix(m) && |dist| == MaxCities && |visited| == MaxCities
  {
    forall w, v {:trigger m[w][v]} :: 0 <= w < MaxCities && 0 <= v < MaxCities && visited[w] && !visited[v] && m[w][v] != Inf ==>
      dist[v] <= dist[w] + m[w][v]
  }

  /** The loop invariant on distances, without the bookkeeping of the predecessor links. */
  ghost predicate DistancesSound(m: Matrix, src: int, dist: seq<int>, visited: seq<bool>)
    requires IsMatrix(m)
  {
    && |dist| == MaxCities && |visited| == MaxCities
    && 0 <= src < MaxCities && dist[src] == 0
    && Capped(dist)
    && SettledOptimal(m, src, dist, visited)
    && FrontierRelaxed(m, dist, visited)
  }

  /**
   * Any route from the source into the unvisited part first leaves the
   * visited part somewhere; the city where it does so is unvisited and its
   * distance is no longer than the route.
   */
  lemma {:induction false} FrontierBelow(m: Matrix, src: int, dist: seq<int>, visited: seq<bool>, p: seq<int>, t: int)
    requires IsMatrix(m) && NonNegative(m) && DistancesSound(m, src, dist, visited)
    requires IsRoute(m, p, src, t) && !visited[t]
    ensures exists x :: 0 <= x < MaxCities && !visited[x] && dist[x] <= PathWeight(m, p)
    decreases |p|
  {
    if |p| > 1 {
      var q, w := p[..|p| - 1], p[|p| - 2];
      assert IsRoute(m, q, src, w);
      if visited[w] {
        assert dist[t] <= dist[w] + m[w][t];
      } else {
        FrontierBelow(m, src, dist, visited, q, w);
        var x :| 0 <= x < MaxCities && !visited[x] && dist[x] <= PathWeight(m, q);
        assert dist[x] <= PathWeight(m, p);
      }
    }
  }

  /** An unvisited city of least distance already has its shortest distance. */
  lemma NearestIsSettled(m: Matrix, src: int, dist: seq<int>, visited: seq<bool>, u: int)
    requires IsMatrix(m) && NonNegative(m) && DistancesSound(m, src, dist, visited)
    requires 0 <= u < MaxCities && !visited[u]
    requires forall x :: 0 <= x < MaxCities && !visited[x] ==> dist[u] <= dist[x]
    ensures forall p :: IsRoute(m, p, src, u) ==> dist[u] <= PathWeight(m, p)
  {
    forall p | IsRoute(m, p, src, u) ensures dist[u] <= PathWeight(m, p) {
      FrontierBelow(m, src, dist, visited, p, u);
    }
  }

  /**
   * Visiting u, whose distance is already shortest, and relaxing every road
   * out of u into an unvisited city keeps the invariant on distances.
   */
  lemma RelaxKeepsSound(m: Matrix, src: int, u: int, dist0: seq<int>, visited0: seq<bool>, prev0: seq<int>,
                        dist1: seq<int>, prev1: seq<int>, visited1: seq<bool>)
    requires IsMatrix(m) && NonNegative(m) && DistancesSound(m, src, dist0, visited0)
    requires 0 <= u < MaxCities && !visited0[u] && visited1 == visited0[u := true]
    requires forall p :: IsRoute(m, p, src, u) ==> dist0[u] <= PathWeight(m, p)
    requires |dist1| == |prev0| == |prev1| == MaxCities
    requires RelaxedFrom(m, u, dist0, prev0, visited1, dist1, prev1)
    ensures DistancesSound(m, src, dist1, visited1)
  {
    assert dist1[src] == 0;
    forall w, v | 0 <= w < MaxCities && 0 <= v < MaxCities && visited1[w] && !visited1[v] && m[w][v] != Inf
      ensures dist1[v] <= dist1[w] + m[w][v]
    {
      assert dist1[w] == dist0[w];
    }
  }

  /**
   * One relaxation round from u: every unvisited city v reached from u over
   * an existing road by a strictly shorter total gets that total as its
   * distance and u as its predecessor; every other city keeps both.
   */
  ghost predicate RelaxedFrom(m: Matrix, u: int, dist0: seq<int>, prev0: seq<int>, visited: seq<bool>, dist1: seq<int>, prev1: seq<int>)
    requires IsMatrix(m) && 0 <= u < MaxCities
    requires |dist0| == |prev0| == |visited| == |dist1| == |prev1| == MaxCities
  {
    forall v :: 0 <= v < MaxCities ==>
      if Improves(m, u, dist0, visited, v)
      then dist1[v] == dist0[u] + m[u][v] && prev1[v] == u
      else dist1[v] == dist0[v] && prev1[v] == prev0[v]
  }

  /**
   * The predecessor link of city v after `round` rounds. rank[v] is the
   * round in which v was visited (MaxCities - 1 while it is unvisited). A
   * city other than the source has a link exactly when its distance is not
   * the sentinel; a link points to a city visited in an earlier round,
   * along an existing road, and accounts exactly for the distance.
   */
  ghost predicate LinkSound(m: Matrix, src: int, dist: seq<int>, visited: seq<bool>, prev: seq<int>, rank: seq<int>,
                            round: int, v: int)
    requires IsMatrix(m) && |dist| == |visited| == |prev| == |rank| == MaxCities && 0 <= v < MaxCities
  {
    && -1 <= prev[v] < MaxCities
    && 0 <= rank[v] < MaxCities
    && (if visited[v] then rank[v] < round else rank[v] == MaxCities - 1)
    && (v != src ==> (prev[v] == -1 <==> dist[v] == Inf))
    && (prev[v] != -1 ==>
          && visited[prev[v]]
          && rank[prev[v]] < rank[v]
          && m[prev[v]][v] != Inf
          && dist[v] == dist[prev[v]] + m[prev[v]][v])
  }

  /** Every link is sound, and the source has none. */
  ghost predicate LinksSound(m: Matrix, src: int, dist: seq<int>, visited: seq<bool>, prev: seq<int>, rank: seq<int>, round: int)
    requires IsMatrix(m)
  {
    && |dist| == |visited| == |prev| == |rank| == MaxCities
    && 0 <= src < MaxCities && prev[src] == -1
    && forall v :: 0 <= v < MaxCities ==> LinkSound(m, src, dist, visited, prev, rank, round, v)
  }

  /** Visiting u in round `round` and relaxing from it keeps the links sound. */
  lemma RelaxKeepsLinks(m: Matrix, src: int, u: int, round: int, dist0: seq<int>, visited0: seq<bool>, prev0: seq<int>,
                        rank0: seq<int>, dist1: seq<int>, prev1: seq<int>)
    requires IsMatrix(m) && NonNegative(m)
    requires DistancesSound(m, src, dist0, visited0) && LinksSound(m, src, dist0, visited0, prev0, rank0, round)
    requires 0 <= round < MaxCities - 1 && 0 <= u < MaxCities && !visited0[u]
    requires |dist1| == |prev1| == MaxCities
    requires RelaxedFrom(m, u, dist0, prev0, visited0[u := true], dist1, prev1)
    ensures LinksSound(m, src, dist1, visited0[u := true], prev1, rank0[u := round], round + 1)
  {
    var visited1, rank1, next := visited0[u := true], rank0[u := round], round + 1;
    assert LinkSound(m, src, dist0, visited0, prev0, rank0, round, src);
    forall v | 0 <= v < MaxCities
      ensures LinkSound(m, src, dist1, visited1, prev1, rank1, next, v)
    {
      assert LinkSound(m, src, dist0, visited0, prev0, rank0, round, v);
      if Improves(m, u, dist0, visited1, v) {
        assert dist1[u] == dist0[u];
      } else if prev0[v] != -1 {
        var w := prev0[v];
        assert LinkSound(m, src, dist0, visited0, prev0, rank0, round, w);
        assert dist1[w] == dist0[w];
      }
    }
  }

  /**
   * forward is a stretch of predecessor links ending at dest: each city is
   * the link of the next one; it is a route; it is no longer than the
   * rounds left after its first city was visited; its length plus the
   * distance of its first city is the distance of dest; and it is just dest
   * when dest has no link.
   */
  ghost predicate Chain(m: Matrix, dist: seq<int>, prev: seq<int>, rank: seq<int>, forward: seq<int>, dest: int)
    requires IsMatrix(m) && |dist| == |prev| == |rank| == MaxCities && 0 <= dest < MaxCities
  {
    && |forward| >= 1
    && IsRoute(m, forward, forward[0], dest)
    && |forward| + rank[forward[0]] <= MaxCities
    && PathWeight(m, forward) + dist[forward[0]] == dist[dest]
    && FollowsLinks(prev, forward)
    && (prev[dest] == -1 ==> forward == [dest])
  }

  /** The walk back starts with dest alone. */
  lemma ChainStart(m: Matrix, src: int, dist: seq<int>, visited: seq<bool>, prev: seq<int>, rank: seq<int>, round: int, dest: int)
    requires IsMatrix(m) && LinksSound(m, src, dist, visited, prev, rank, round) && 0 <= dest < MaxCities
    ensures Chain(m, dist, prev, rank, [dest], dest)
  {
    assert LinkSound(m, src, dist, visited, prev, rank, round, dest);
  }

  /** forward with the link of its first city put in front, when that city has one. */
  ghost function Extended(prev: seq<int>, forward: seq<int>): seq<int> {
    if |forward| >= 1 && 0 <= forward[0] < |prev| && prev[forward[0]] != -1 then [prev[forward[0]]] + forward else forward
  }

  /** Following the link of the first city of a chain extends the chain. */
  lemma ChainExtend(m: Matrix, src: int, dist: seq<int>, visited: seq<bool>, prev: seq<int>, rank: seq<int>, round: int,
                    forward: seq<int>, dest: int)
    requires IsMatrix(m) && LinksSound(m, src, dist, visited, prev, rank, round) && 0 <= dest < MaxCities
    requires Chain(m, dist, prev, rank, forward, dest)
    ensures |forward| <= MaxCities && -1 <= prev[forward[0]] < MaxCities
    ensures Chain(m, dist, prev, rank, Extended(prev, forward), dest)
  {
    assert LinkSound(m, src, dist, visited, prev, rank, round, forward[0]);
    var w := prev[forward[0]];
    if w != -1 {
      var longer := [w] + forward;
      PrependWeight(m, w, forward);
      assert IsRoute(m, longer, w, dest);
      forall k | 1 <= k < |longer| ensures prev[longer[k]] == longer[k - 1] {
        if k > 1 {
          assert longer[k] == forward[k - 1] && longer[k - 1] == forward[k - 2];
        }
      }
    }
  }

  /**
   * Following the links back from the first city of a chain ends, within
   * MaxCities cities, at a city without a link: the whole chain the links
   * read back from dest.
   */
  lemma {:induction false} WholeChain(m: Matrix, src: int, dist: seq<int>, visited: seq<bool>, prev: seq<int>, rank: seq<int>,
                                      round: int, forward: seq<int>, dest: int)
    returns (whole: seq<int>)
    requires IsMatrix(m) && LinksSound(m, src, dist, visited, prev, rank, round) && 0 <= dest < MaxCities
    requires Chain(m, dist, prev, rank, forward, dest)
    ensures Chain(m, dist, prev, rank, whole, dest) && prev[whole[0]] == -1
    ensures |whole| <= MaxCities && Linked(prev, whole, dest)
    decreases MaxCities - |forward|
  {
    ChainExtend(m, src, dist, visited, prev, rank, round, forward, dest);
    if prev[forward[0]] == -1 {
      whole := forward;
    } else {
      whole := WholeChain(m, src, dist, visited, prev, rank, round, Extended(prev, forward), dest);
    }
  }

  /** Along a stretch of links, every city was visited in an earlier round than any city after it. */
  lemma {:induction false} RanksRise(m: Matrix, src: int, dist: seq<int>, visited: seq<bool>, prev: seq<int>, rank: seq<int>,
                                     round: int, forward: seq<int>, a: int, b: int)
    requires IsMatrix(m) && LinksSound(m, src, dist, visited, prev, rank, round) && Cities(forward)
    requires FollowsLinks(prev, forward)
    requires 0 <= a < b < |forward|
    ensures rank[forward[a]] < rank[forward[b]]
    decreases b - a
  {
    assert prev[forward[b]] == forward[b - 1];
    assert LinkSound(m, src, dist, visited, prev, rank, round, forward[b]);
    if a < b - 1 {
      RanksRise(m, src, dist, visited, prev, rank, round, forward, a, b - 1);
    }
  }

  /**
   * A chain that starts at a city without a link visits no city twice; if
   * dest has a distance below the sentinel the chain starts at the source
   * and its length is that distance, otherwise it is dest alone.
   */
  lemma ChainFromSource(m: Matrix, src: int, dist: seq<int>, visited: seq<bool>, prev: seq<int>, rank: seq<int>,
                        round: int, forward: seq<int>, dest: int)
    requires IsMatrix(m) && NonNegative(m) && DistancesSound(m, src, dist, visited)
    requires LinksSound(m, src, dist, visited, prev, rank, round) && 0 <= dest < MaxCities
    requires Chain(m, dist, prev, rank, forward, dest) && prev[forward[0]] == -1
    ensures Simple(forward)
    ensures dist[dest] < Inf ==> IsRoute(m, forward, src, dest) && PathWeight(m, forward) == dist[dest]
    ensures dist[dest] == Inf ==> forward == [dest]
    ensures src == dest ==> forward == [src]
  {
    assert LinkSound(m, src, dist, visited, prev, rank, round, dest);
    assert LinkSound(m, src, dist, visited, prev, rank, round, forward[0]);
    PathWeightNonNegative(m, forward);
    forall a, b | 0 <= a < b < |forward| ensures forward[a] != forward[b] {
      RanksRise(m, src, dist, visited, prev, rank, round, forward, a, b);
    }
  }

  /**
   * Visiting the city the scan picks and relaxing every road out of it is
   * one round of the search.
   */
  lemma RoundFrom(m: Matrix, u: int, dist0: seq<int>, visited0: seq<bool>, prev0: seq<int>, dist1: seq<int>, prev1: seq<int>)
    requires IsMatrix(m) && |dist0| == |visited0| == |prev0| == |dist1| == |prev1| == MaxCities
    requires IsNearest(dist0, visited0, u)
    requires RelaxedFrom(m, u, dist0, prev0, visited0[u := true], dist1, prev1)
    ensures SearchState(dist1, visited0[u := true], prev1)
         == Visit(m, SearchState(dist0, visited0, prev0), u)
         == Round(m, SearchState(dist0, visited0, prev0))
  {
    var s := SearchState(dist0, visited0, prev0);
    forall w | IsNearest(dist0, visited0, w) ensures w == u {
      NearestUnique(dist0, visited0, u, w);
    }
    var r := Visit(m, s, u);
    assert r.dist == dist1;
    assert r.prev == prev1;
  }

  /**
   * After the last round, dest has its shortest distance whether or not it
   * was visited: the one city left unvisited is the nearest of the unvisited.
   */
  lemma FinalDistance(m: Matrix, src: int, dist: seq<int>, visited: seq<bool>, dest: int)
    requires IsMatrix(m) && NonNegative(m) && DistancesSound(m, src, dist, visited)
    requires CountUnvisited(visited) == 1 && 0 <= dest < MaxCities
    ensures forall p :: IsRoute(m, p, src, dest) ==> dist[dest] <= PathWeight(m, p)
  {
    if !visited[dest] {
      forall x | 0 <= x < MaxCities && !visited[x] ensures dist[dest] <= dist[x] {
        LastUnvisited(visited, dest, x);
      }
      NearestIsSettled(m, src, dist, visited, dest);
    }
  }

  /** Before the first round: only the source has a distance, and nothing is visited or linked. */
  lemma StartSound(m: Matrix, src: int, dist: seq<int>, visited: seq<bool>, prev: seq<int>, rank: seq<int>)
    requires IsMatrix(m) && 0 <= src < MaxCities
    requires SearchState(dist, visited, prev) == Start(src)
    requires |rank| == MaxCities && forall v :: 0 <= v < MaxCities ==> rank[v] == MaxCities - 1
    ensures Progress(m, src, 0, dist, visited, prev, rank)
  {
    NoneVisited(visited);
    forall v | 0 <= v < MaxCities ensures LinkSound(m, src, dist, visited, prev, rank, 0, v) {
    }
  }

  /**
   * What dijkstra returns after its rounds and the walk back: the distance
   * of dest is the shortest, and the chain is a shortest route to it with
   * no repeated city, or dest alone when dest cannot be reached.
   */
  lemma DijkstraResult(m: Matrix, src: int, dist: seq<int>, visited: seq<bool>, prev: seq<int>, rank: seq<int>,
                       forward: seq<int>, dest: int)
    requires IsMatrix(m) && NonNegative(m) && 0 <= dest < MaxCities
    requires Settled(m, src, dist, visited, prev, rank)
    requires Chain(m, dist, prev, rank, forward, dest) && prev[forward[0]] == -1
    ensures Optimal(m, src, dest, dist[dest])
    ensures dist[dest] < Inf ==> IsRoute(m, forward, src, dest) && Simple(forward) && PathWeight(m, forward) == dist[dest]
    ensures dist[dest] == Inf ==> forward == [dest]
    ensures src == dest ==> dist[dest] == 0 && forward == [src]
    ensures Linked(prev, forward, dest)
  {
    FinalDistance(m, src, dist, visited, dest);
    ChainFromSource(m, src, dist, visited, prev, rank, MaxCities - 1, forward, dest);
  }

  /**
   * The invariant of the main loop of dijkstra after `round` rounds: the
   * invariant on distances, one city fewer unvisited per round, and sound
   * links.
   */
  ghost predicate Progress(m: Matrix, src: int, round: int, dist: seq<int>, visited: seq<bool>, prev: seq<int>, rank: seq<int>)
    requires IsMatrix(m)
  {
    && DistancesSound(m, src, dist, visited)
    && CountUnvisited(visited) == MaxCities - round
    && LinksSound(m, src, dist, visited, prev, rank, round)
  }

  /** The state after the last round. */
  ghost predicate Settled(m: Matrix, src: int, dist: seq<int>, visited: seq<bool>, prev: seq<int>, rank: seq<int>)
    requires IsMatrix(m)
  {
    Progress(m, src, MaxCities - 1, dist, visited, prev, rank)
  }

  /**
   * A whole round: visiting the nearest unvisited city u and relaxing every
   * road out of it keeps the count of unvisited cities, the invariant on
   * distances and the soundness of the links.
   */
  lemma RoundKeeps(m: Matrix, src: int, u: int, round: int, dist0: seq<int>, visited0: seq<bool>, prev0: seq<int>,
                   rank: seq<int>, dist1: seq<int>, prev1: seq<int>)
    requires IsMatrix(m) && NonNegative(m)
    requires 0 <= round < MaxCities - 1 && Progress(m, src, round, dist0, visited0, prev0, rank)
    requires 0 <= u < MaxCities && !visited0[u]
    requires forall j :: 0 <= j < MaxCities && !visited0[j] ==> dist0[u] <= dist0[j]
    requires |dist1| == |prev1| == MaxCities
    requires RelaxedFrom(m, u, dist0, prev0, visited0[u := true], dist1, prev1)
    ensures Progress(m, src, round + 1, dist1, visited0[u := true], prev1, rank[u := round])
  {
    NearestIsSettled(m, src, dist0, visited0, u);
    VisitCounts(visited0, u);
    RelaxKeepsSound(m, src, u, dist0, visited0, prev0, dist1, prev1, visited0[u := true]);
    RelaxKeepsLinks(m, src, u, round, dist0, visited0, prev0, rank, dist1, prev1);
  }
}
