/**
 * The dense Dijkstra search as a function of the road matrix and the
 * source: the state of its three arrays before the first round and after
 * each round, and the route read back from the final predecessor links.
 * The methods of the engine are proved to compute exactly these states.
 */
module Search {
  import opened Routes

  /** The three arrays of a search: distance, visited flag and predecessor link of each city. */
  datatype SearchState = SearchState(dist: seq<int>, visited: seq<bool>, prev: seq<int>)

  /** Every array of s has one entry per city. */
  ghost predicate Shaped(s: SearchState) {
    |s.dist| == MaxCities && |s.visited| == MaxCities && |s.prev| == MaxCities
  }

  /** Before the first round: distance 0 for src and the sentinel elsewhere, nothing visited, no links. */
  ghost function Start(src: int): SearchState {
    SearchState(seq(MaxCities, v => if v == src then 0 else Inf), seq(MaxCities, _ => false), seq(MaxCities, _ => -1))
  }

  /**
   * u is the city the selection scan of a round picks: an unvisited city
   * of least distance, and the last one when several tie.
   */
  ghost predicate IsNearest(dist: seq<int>, visited: seq<bool>, u: int)
    requires |dist| == MaxCities && |visited| == MaxCities
  {
    && 0 <= u < MaxCities && !visited[u]
    && (forall j :: 0 <= j < MaxCities && !visited[j] ==> dist[u] <= dist[j])
    && (forall j :: u < j < MaxCities && !visited[j] ==> dist[u] < dist[j])
  }

  /** The scan's choice is determined by the arrays. */
  lemma NearestUnique(dist: seq<int>, visited: seq<bool>, u: int, w: int)
    requires |dist| == MaxCities && |visited| == MaxCities
    requires IsNearest(dist, visited, u) && IsNearest(dist, visited, w)
    ensures u == w
  {
  }

  /** The road from u shortens v's distance: v is unvisited, the road exists, and the total is strictly smaller. */
  ghost predicate Improves(m: Matrix, u: int, dist: seq<int>, visited: seq<bool>, v: int)
    requires IsMatrix(m) && 0 <= u < MaxCities && 0 <= v < MaxCities && |dist| == MaxCities && |visited| == MaxCities
  {
    !visited[v] && m[u][v] != Inf && dist[u] + m[u][v] < dist[v]
  }

  /**
   * Visiting u: u is marked, then every city the road from u improves gets
   * the total through u as its distance and u as its link.
   */
  ghost function Visit(m: Matrix, s: SearchState, u: int): (r: SearchState)
    requires IsMatrix(m) && Shaped(s) && 0 <= u < MaxCities
    ensures Shaped(r)
  {
    var visited := s.visited[u := true];
    SearchState(
      seq(MaxCities, v requires 0 <= v < MaxCities =>
        if Improves(m, u, s.dist, visited, v) then s.dist[u] + m[u][v] else s.dist[v]),
      visited,
      seq(MaxCities, v requires 0 <= v < MaxCities =>
        if Improves(m, u, s.dist, visited, v) then u else s.prev[v]))
  }

  /** One round: visit the city the scan picks; nothing changes once every city is visited. */
  ghost function Round(m: Matrix, s: SearchState): (r: SearchState)
    requires IsMatrix(m) && Shaped(s)
    ensures Shaped(r)
  {
    if exists u :: IsNearest(s.dist, s.visited, u) then
      var u :| IsNearest(s.dist, s.visited, u);
      Visit(m, s, u)
    else
      s
  }

  /** The state after k rounds from src. */
  ghost function Rounds(m: Matrix, src: int, k: nat): (r: SearchState)
    requires IsMatrix(m)
    ensures Shaped(r)
  {
    if k == 0 then Start(src) else Round(m, Rounds(m, src, k - 1))
  }

  /** Each city of forward after the first has the one before it as its predecessor link. */
  ghost predicate FollowsLinks(prev: seq<int>, forward: seq<int>)
    requires |prev| == MaxCities && Cities(forward)
  {
    forall k {:trigger prev[forward[k]]} :: 1 <= k < |forward| ==> prev[forward[k]] == forward[k - 1]
  }

  /** route is what following the links back from dest reads, put in travel order. */
  ghost predicate Linked(prev: seq<int>, route: seq<int>, dest: int)
    requires |prev| == MaxCities
  {
    && |route| >= 1 && Cities(route) && route[|route| - 1] == dest
    && prev[route[0]] == -1
    && FollowsLinks(prev, route)
  }

  /** The links determine the route read back from dest. */
  lemma {:induction false} LinkedUnique(prev: seq<int>, r1: seq<int>, r2: seq<int>, dest: int)
    requires |prev| == MaxCities && Linked(prev, r1, dest) && Linked(prev, r2, dest)
    ensures r1 == r2
    decreases |r1|
  {
    var n1, n2 := |r1|, |r2|;
    if n1 > 1 && n2 > 1 {
      assert prev[r1[n1 - 1]] == r1[n1 - 2];
      assert prev[r2[n2 - 1]] == r2[n2 - 2];
      var q1, q2 := r1[..n1 - 1], r2[..n2 - 1];
      assert FollowsLinks(prev, q1) by {
        forall k | 1 <= k < |q1| ensures prev[q1[k]] == q1[k - 1] {
          assert prev[r1[k]] == r1[k - 1];
        }
      }
      assert FollowsLinks(prev, q2) by {
        forall k | 1 <= k < |q2| ensures prev[q2[k]] == q2[k - 1] {
          assert prev[r2[k]] == r2[k - 1];
        }
      }
      LinkedUnique(prev, q1, q2, r1[n1 - 2]);
      assert r1 == q1 + [dest] && r2 == q2 + [dest];
    }
  }
}
