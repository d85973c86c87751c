# Map navigation: a verified model of the shortest-path engine

This project models the engine of `MapNavigationFinal.c`, a small console
map of five cities. It covers four parts:

- the graph store: a 5 x 5 adjacency matrix of road lengths, with `INF = 99999` meaning "no road";
- `initializeGraph`, which fills in the eight built-in roads;
- `removeRoad`, which closes a road in both directions;
- `dijkstra`, the dense O(N^2) search, and the route walk of `displayJourney`.

The model keeps the program's imperative form. `Navigation.Graph` is a
class whose `adj` field is an `array2<int>`; its methods model
`initializeGraph`, `removeRoad` and `displayJourney`. The loops of
`dijkstra` are the module-level methods `Navigation.ResetSearch`,
`NearestUnvisited`, `Relax`, `VisitNearest`, `Settle`, `WalkBack`,
`ReversePrefix` and `Dijkstra`. All of them run the same loops over the same
arrays as the C functions, carry loop invariants, and are proved against
ghost specifications.

The specification is in module `Routes`:

- `IsRoute` is a route through the matrix;
- `PathWeight` is the length of a route;
- `Optimal` is the shortest distance as the engine reports it: at most
  `Inf`, no longer than any route, and the length of some route unless it
  is `Inf`.

Module `Search` states the dense search as a function of the matrix and
the source:

- `Start` is the state of the `dist`, `visited` and `prev` arrays after the
  initialisation loop;
- `IsNearest` is the city the selection scan picks: an unvisited city of
  least distance, the last one when several tie;
- `Visit` and `Round` visit that city and relax the roads out of it, and
  `Rounds(m, src, k)` is the state after `k` rounds;
- `Linked` says that a route is what following the links back from the
  destination reads, in travel order. `LinkedUnique` shows that the links
  fix that route.

The methods are proved to compute exactly these states. `Visit` states a
round as a function, so that `Rounds` can say which state the whole search
ends in; `Settling.RelaxedFrom` states the same relaxation as a relation
between old and new arrays, the form a loop invariant and the
`Relax` contract need. `Settling.RoundFrom` proves that the two agree. So the contracts
say which shortest route the program reports when several tie, not just
that it reports one of them.

Module `Settling` holds the facts the Dijkstra loop keeps about snapshots of
its `dist`, `visited` and `prev` arrays:

- `DistancesSound`: the distance of a visited city is no longer than any route to it, and every
  road leaving the visited part has been relaxed;
- `LinksSound`: each link points to a city visited in an earlier round and
  accounts exactly for the distance;
- `Chain`: a stretch of links walked back from the destination, each city
  the link of the next.

In module `ReferenceMap`, `ReferenceJourneys` calls the verified methods on
the built-in map and proves the two reports: the journey from city 0 to
city 4 before and after the road 0-3 is closed. Potentials (distance labels
that no road can undercut) certify each answer.

In these places the model follows the code as written:

- `removeRoad(c, c)` writes `INF` into the diagonal cell `[c][c]`.
- When the destination cannot be reached, `dijkstra` still walks the links. It returns `INF` and leaves the one-city path `[dest]`. `displayJourney` then reports no route.
- Among unvisited cities of equal least distance, the selection scan picks the one with the highest index, because it compares with `<=`.
- The engine functions (`removeRoad`, `dijkstra`, `displayJourney`) never check their indices. `main` checks the opening selection of cities, asking again until it is valid (MapNavigationFinal.c:148-158). Menu options 1 and 5 (MapNavigationFinal.c:176-178 and 200-202) pass the numbers they read without that check. The model states `0 <= i < 5` as a precondition of the engine methods rather than an error result.

## Model

| member | source | states |
|---|---|---|
| Navigation.Graph.constructor | MapNavigationFinal.c:16-39 | a new graph holds exactly the built-in table and the names "City 0" to "City 4" |
| Navigation.Graph.Initialize | MapNavigationFinal.c:16-39 | after the two nested loops and the eight road assignments, the matrix is the built-in table and the names are "City 0" to "City 4" |
| Navigation.Graph.SetRoad | MapNavigationFinal.c:31-38 | one line of road assignments: both cells of the pair get the length and every other cell is unchanged; the matrix stays symmetric and within [0, INF] |
| Navigation.Graph.CellsSymmetric | MapNavigationFinal.c:31-38 | in every valid graph state the road from i to j has the same length as the road from j to i |
| Routes.BuiltIn | MapNavigationFinal.c:24-38 | starting from 0 on the diagonal and Inf elsewhere, storing the eight roads in source order gives the built-in table |
| Routes.InitialNetwork | MapNavigationFinal.c:24-38 | every cell of the built-in table is 0 on the diagonal, the length of the listed road joining the two cities, or Inf when no listed road joins them |
| Routes.RoadTable | MapNavigationFinal.c:24-38 | the same fact for one cell |
| Routes.RoadsStored | MapNavigationFinal.c:31-38 | each of the eight listed roads is stored with its length in both directions |
| Routes.InitialShape | MapNavigationFinal.c:24-38 | the built-in table is symmetric and has no negative entry |
| Routes.RoadLengthSymmetric | MapNavigationFinal.c:31-38 | the road lookup gives the same length for (i, j) as for (j, i) |
| Routes.RoadLengthRange | MapNavigationFinal.c:31-38 | the road lookup over non-negative listed lengths is non-negative |
| Navigation.Graph.RemoveRoad | MapNavigationFinal.c:57-59 | cells [city1][city2] and [city2][city1] become Inf, every other cell is unchanged, and the matrix stays symmetric and within [0, INF] |
| Routes.WithoutRoad | MapNavigationFinal.c:57-59 | the closed matrix has Inf in both cells of the pair and agrees with the old matrix everywhere else |
| Routes.WithoutRoadSymmetric | MapNavigationFinal.c:57-59 | closing a road keeps a symmetric matrix symmetric |
| Routes.WithoutRoadIdempotent | MapNavigationFinal.c:57-59 | closing the same road twice is the same as closing it once |
| Routes.RouteSurvivesClosure | MapNavigationFinal.c:57-59 | a route in the closed network is a route of the same length in the old one |
| Routes.ClosureNeverShortens | MapNavigationFinal.c:57-59 | closing a road never makes a shortest distance shorter |
| Navigation.ResetSearch | MapNavigationFinal.c:68-73 | after the initialisation loop and `dist[src] = 0`, the three arrays are exactly the search's start state: 0 for src and INF elsewhere, nothing visited, no links |
| Settling.StartSound | MapNavigationFinal.c:68-73 | the start state meets round 0's invariants: every city unvisited, the distance invariant, and no city with a link |
| Settling.NoneVisited | MapNavigationFinal.c:68-72 | with nothing visited, every city counts as unvisited |
| Navigation.NearestUnvisited | MapNavigationFinal.c:77-83 | the scan returns an in-range unvisited city whose distance is no larger than that of any unvisited city, and strictly smaller than that of every later unvisited city (the highest-index tie-break) |
| Search.NearestUnique | MapNavigationFinal.c:77-83 | the scan's choice is fixed by the arrays: two cities that both meet its condition are the same city |
| Settling.SomeUnvisited | MapNavigationFinal.c:76-84 | while the count of unvisited cities is positive, some city is unvisited, so the scan has a candidate |
| Settling.UnvisitedCounted | MapNavigationFinal.c:76-84 | an unvisited city makes the count positive |
| Settling.VisitCounts | MapNavigationFinal.c:84 | marking one unvisited city visited lowers the count by exactly one |
| Settling.LastUnvisited | MapNavigationFinal.c:76 | after MAX_CITIES - 1 rounds only one city is left unvisited |
| Settling.FrontierBelow | MapNavigationFinal.c:76-91 | a route from the source to an unvisited city crosses to some unvisited city whose distance is no longer than the route |
| Settling.NearestIsSettled | MapNavigationFinal.c:76-84 | the unvisited city of least distance already holds its shortest distance |
| Navigation.Relax | MapNavigationFinal.c:86-91 | each unvisited city reached from u over an existing road by a strictly shorter total gets that total and u as its link; every other city keeps its distance and link |
| Settling.RelaxKeepsSound | MapNavigationFinal.c:86-91 | visiting the nearest city and relaxing keeps dist[src] == 0, every distance within [0, Inf], visited distances shortest and the frontier relaxed |
| Settling.RelaxKeepsLinks | MapNavigationFinal.c:86-91 | relaxing keeps the links sound: prev[src] stays -1; a link points to a city visited in an earlier round along an existing road; dist[v] == dist[prev[v]] + length; a city other than the source has a link exactly when its distance is below Inf |
| Settling.RoundKeeps | MapNavigationFinal.c:76-91 | one whole round lowers the unvisited count by one and keeps the distance and link invariants, with the visited city's round recorded |
| Settling.RoundFrom | MapNavigationFinal.c:77-91 | marking the scan's city u visited and relaxing from it yields exactly `Visit(u)`, which is the search's next `Round` |
| Navigation.VisitNearest | MapNavigationFinal.c:77-91 | one round on the arrays: u is the city the scan picks on the old arrays, only u becomes visited, dist and prev are relaxed from u, the arrays equal `Rounds(m, src, round + 1)`, and the invariants hold with u's round recorded |
| Navigation.Settle | MapNavigationFinal.c:76-92 | from the start state, the MAX_CITIES - 1 rounds leave the arrays equal to `Rounds(m, src, MAX_CITIES - 1)`; one city is unvisited, the distance invariant holds and the links are sound |
| Settling.FinalDistance | MapNavigationFinal.c:76-92 | after the last round the destination's distance is no longer than any route to it, whether or not it was visited |
| Settling.ChainStart | MapNavigationFinal.c:95 | the walk back starts with the destination alone |
| Settling.ChainExtend | MapNavigationFinal.c:95-97 | following one more link stays in range, keeps the walk within MAX_CITIES cities, and the longer chain still follows the links, forms a route and accounts for the distance |
| Settling.WholeChain | MapNavigationFinal.c:94-97 | following the links back from dest ends, within MAX_CITIES cities, at a city without a link; the cities read form a chain that is `Linked` to dest |
| Settling.RanksRise | MapNavigationFinal.c:94-97 | along a stretch that follows the links, the rounds in which the cities were visited strictly rise |
| Settling.ChainFromSource | MapNavigationFinal.c:94-97 | a walk that ends at a city without a link repeats no city; it is a route from the source of exactly dist[dest] when that is below Inf, and [dest] otherwise |
| Search.LinkedUnique | MapNavigationFinal.c:94-97 | the links fix the route read back from dest: two routes that end at dest, start at a city without a link and follow the links are equal |
| Navigation.WalkBack | MapNavigationFinal.c:94-103 | after the walk and the swap loop, path[0..pathLength) is the route the links read back from dest, in travel order, and the rest of path is unchanged |
| Navigation.ReversePrefix | MapNavigationFinal.c:99-103 | the swap loop leaves a[0..n) as the exact reverse of what it held and the rest of a unchanged |
| Settling.DijkstraResult | MapNavigationFinal.c:64-106 | the distance of dest is the shortest; below Inf the walk is a repeat-free route from src to dest of that length; at Inf it is [dest]; for src == dest it is 0 and [src]; the walk is the one the links read back |
| Navigation.Dijkstra | MapNavigationFinal.c:64-106 | returns the shortest distance, which is the search's final distance of dest. The path buffer holds the route the search's final links read back from dest: a repeat-free route of that length from src to dest, or [dest] when the result is Inf, or [src] with 0 when src == dest. The rest of the buffer is unchanged |
| Routes.OptimalUnique | MapNavigationFinal.c:64-106 | the shortest distance as the engine reports it is fixed by the matrix and the two cities: two values that both meet `Optimal` are equal |
| Routes.OptimalUnreachable | MapNavigationFinal.c:118 | the result is INF exactly when no route is shorter than INF |
| Routes.OptimalSymmetric | MapNavigationFinal.c:64-106 | on a symmetric network the shortest distance from s to t equals the one from t to s |
| Routes.ReversedRoute | MapNavigationFinal.c:64-106 | on a symmetric network a route driven backwards is a route of the same length |
| Navigation.Graph.DisplayJourney | MapNavigationFinal.c:110-129 | reports no route exactly when no route is shorter than INF; otherwise it reports the legs and length of a repeat-free shortest route, namely the one the search's links read back from city2 |
| Navigation.Graph.LegsAlong | MapNavigationFinal.c:122-125 | the step loop stops at city2 and yields one leg per road of the route, with the length read from the matrix |
| Navigation.LegsTotalIsWeight | MapNavigationFinal.c:122-126 | the printed leg lengths add up to the route's length, which is the printed total |
| ReferenceMap.ClosingRoad | MapNavigationFinal.c:57-59 | closing road 0-3 in the built-in table gives the table with those two cells Inf |
| ReferenceMap.RouteBefore | MapNavigationFinal.c:31-38 | 0, 3, 4 is a route of length 130 in the built-in network, with legs 90 and 40 |
| ReferenceMap.RouteAfter | MapNavigationFinal.c:31-38 | 0, 1, 3, 4 is a route of length 150 once road 0-3 is closed, with legs 50, 60 and 40 |
| ReferenceMap.TightBefore | MapNavigationFinal.c:31-38 | a repeat-free route from 0 to 4 that follows only roads tight for the distances from 0 is 0, 3, 4 |
| ReferenceMap.TightAfter | MapNavigationFinal.c:31-38 | with road 0-3 closed, such a route is 0, 1, 3, 4 |
| ReferenceMap.OnlyRouteBefore | MapNavigationFinal.c:31-38 | no other repeat-free route from 0 to 4 has length 130 |
| ReferenceMap.OnlyRouteAfter | MapNavigationFinal.c:31-38 | with road 0-3 closed, no other repeat-free route from 0 to 4 has length 150 |
| ReferenceMap.CertifiedTrip | MapNavigationFinal.c:110-127 | when a potential certifies a route's length as shortest and the route is the only repeat-free one of that length, a journey report is exactly that route's legs and length |
| ReferenceMap.ShortestBefore | MapNavigationFinal.c:110-127 | on the built-in network, any report that meets the journey contract for 0 to 4 is legs 0-3 (90) and 3-4 (40), total 130 |
| ReferenceMap.ShortestAfter | MapNavigationFinal.c:110-127 | with road 0-3 closed, the report is legs 0-1 (50), 1-3 (60) and 3-4 (40), total 150 |
| ReferenceMap.JourneyBefore | MapNavigationFinal.c:110-129 | on a graph holding the built-in table, the query from 0 to 4 reports legs 0-3 (90) and 3-4 (40), total 130, and leaves the graph as it was |
| ReferenceMap.JourneyAfter | MapNavigationFinal.c:110-129 | on a graph holding the table without road 0-3, the query from 0 to 4 reports legs 0-1 (50), 1-3 (60) and 3-4 (40), total 150 |
| ReferenceMap.ReferenceJourneys | MapNavigationFinal.c:142-202 | the program's own sequence (initialise, query 0 to 4, remove road 0-3, query again) yields those two reports |

## Left out

- `displayWeather` and `displayTrafficPattern` (MapNavigationFinal.c:42-54) depend on `srand(time(0))`, `rand()` and `printf`. They never touch the graph.
- `calculateTravelTime` (MapNavigationFinal.c:132-139) uses floating-point division and `strcmp`.
- `main` (MapNavigationFinal.c:142-222) is an endless `scanf` menu and prints the matrix. Only its effect is modelled. The range that `main` checks only for the opening selection becomes a precondition on `RemoveRoad`, `Dijkstra` and `DisplayJourney`, and `ReferenceJourneys` replays one sequence of its calls.
- All `printf` text is left out. `displayJourney` returns a `Journey` value: `NoRoute`, or the legs as (from, to, length) and the total. `removeRoad`'s message and the name lookups are dropped. The names are kept only as the `cityNames` field that `Initialize` sets.
- C `int` is 32 bits wide; the model uses unbounded integers. No wrap-around can arise. `Graph.Valid` keeps every cell within [0, INF], which holds for every matrix `initializeGraph` and `removeRoad` can produce. The loop keeps every distance within [0, INF], so every sum the code forms stays below 2 * INF.
- The path length and the array index in `dijkstra` are ordinary locals, but the route itself is a ghost out-parameter of `Navigation.Dijkstra`. Its contract states the route together with `path[..|route|]`.
- `dijkstra` takes a pointer to the whole `Graph` and reads `g->adjMatrix`. `Navigation.Dijkstra`, `Settle`, `VisitNearest` and `Relax` take the matrix array and the ghost matrix value it holds instead. `DisplayJourney` passes the graph's own array.
- Navigation.WalkBack: takes the route as a ghost parameter that the links must read back from dest. `Settling.WholeChain` shows that such a route exists for every state the search leaves, and `Search.LinkedUnique` shows that there is only one.
- Navigation.Relax: requires `dist` and `prev` to be different arrays. In the source they are distinct locals of `dijkstra`.
- Navigation.NearestUnvisited: requires some unvisited city. Otherwise the source would index `visited[-1]`. `SomeUnvisited` and the unvisited count show that every call made by `dijkstra` meets this requirement.
- A real route whose length reaches `INF` cannot be told apart from "no route". The model keeps this behaviour: `Optimal` caps the reported distance at `INF`.
