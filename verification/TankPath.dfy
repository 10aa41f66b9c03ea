// The breadth-first search of the tank AI: find_shortest_path and the tile filters of
// Capture_The_Flag/ai.py.
module TankPath {
  import opened Prelude

  datatype Tile = Tile(x: int, y: int)

  /** currentmap.boxAt inside the map; kinds 0 and 2 are grass and wood, 3 is metal. */
  datatype Map = Map(maxX: int, maxY: int, boxAt: (int, int) -> int)

  predicate OnMap(m: Map, t: Tile) { 0 <= t.x <= m.maxX && 0 <= t.y <= m.maxY }

  /** filter_tile_neighbors and filter_tile_neighbors_metal */
  predicate Accessible(m: Map, metal: bool, t: Tile) {
    OnMap(m, t) && (m.boxAt(t.x, t.y) == 0 || m.boxAt(t.x, t.y) == 2 || (metal && m.boxAt(t.x, t.y) == 3))
  }

  function Adjacent(t: Tile): seq<Tile> {
    [Tile(t.x, t.y + 1), Tile(t.x, t.y - 1), Tile(t.x + 1, t.y), Tile(t.x - 1, t.y)]
  }

  function Distance(a: int, b: int): nat { if a < b then b - a else a - b }

  /** A step goes to one of the four tiles that share a side, not across a corner. */
  lemma AdjacentIsOneStep(t: Tile, n: Tile)
    ensures n in Adjacent(t) <==> Distance(t.x, n.x) + Distance(t.y, n.y) == 1
  {
    var l := Adjacent(t);
    assert l[0] in l && l[1] in l && l[2] in l && l[3] in l;
  }

  /** The tiles that a walk comes to from start, which is not among them. */
  ghost predicate Walk(m: Map, metal: bool, start: Tile, p: seq<Tile>)
    decreases |p|
  {
    p == [] ||
    (Walk(m, metal, start, p[..|p| - 1]) && Accessible(m, metal, p[|p| - 1])
     && p[|p| - 1] in Adjacent(End(start, p[..|p| - 1])))
  }

  function End(start: Tile, p: seq<Tile>): Tile { if p == [] then start else p[|p| - 1] }

  /** The tiles of the map, of which there are finitely many. */
  ghost function Tiles(m: Map): set<Tile> {
    set x, y | 0 <= x <= m.maxX && 0 <= y <= m.maxY :: Tile(x, y)
  }

  /** Grass and wooden boxes, and metal ones if told so, are accessible wherever they are on the map. */
  lemma AccessibleTiles(m: Map, metal: bool, t: Tile)
    ensures Accessible(m, metal, t) <==>
            t in Tiles(m) && m.boxAt(t.x, t.y) in if metal then {0, 2, 3} else {0, 2}
  {
    assert OnMap(m, t) <==> t in Tiles(m);
  }

  // ----- The invariant of the search -----

  /** Every visited tile has a walk to it, and what waits in the queue has been visited. */
  ghost predicate Paths(m: Map, metal: bool, start: Tile, queue: seq<Tile>, path: map<Tile, seq<Tile>>) {
    && start in path && path[start] == []
    && (forall t | t in path :: Walk(m, metal, start, path[t]) && End(start, path[t]) == t)
    && (forall t | t in queue :: t in path)
  }

  /** The queue is in the order of the path lengths, which differ by at most one. */
  ghost predicate Ordered(queue: seq<Tile>, path: map<Tile, seq<Tile>>)
    requires forall t | t in queue :: t in path
  {
    forall i, j | 0 <= i < j < |queue| :: |path[queue[i]]| <= |path[queue[j]]| <= |path[queue[0]]| + 1
  }

  /** Tile n has been reached from a tile whose path has length d. */
  predicate Reached(path: map<Tile, seq<Tile>>, n: Tile, d: nat) { n in path && |path[n]| <= d + 1 }

  /** A tile that has left the queue has had all its neighbours visited. */
  ghost predicate Expanded(m: Map, metal: bool, queue: seq<Tile>, path: map<Tile, seq<Tile>>) {
    forall t, n | t in path && t !in queue && n in Adjacent(t) && Accessible(m, metal, n) :: Reached(path, n, |path[t]|)
  }

  /** What has left the queue is no further away than what is in it. */
  ghost predicate DoneIsNear(queue: seq<Tile>, path: map<Tile, seq<Tile>>)
    requires forall t | t in queue :: t in path
  {
    forall t, u | t in path && t !in queue && u in queue :: |path[t]| <= |path[u]|
  }

  ghost predicate Inv(m: Map, metal: bool, start: Tile, queue: seq<Tile>, path: map<Tile, seq<Tile>>) {
    && Paths(m, metal, start, queue, path) && Ordered(queue, path) && DoneIsNear(queue, path)
    && Expanded(m, metal, queue, path)
  }

  /** The end of any walk has been visited by a path that is no longer, unless the queue holds
      a tile that is no further away. */
  lemma {:induction false} WalkIsCovered(m: Map, metal: bool, start: Tile, queue: seq<Tile>, path: map<Tile, seq<Tile>>,
                                         p: seq<Tile>)
    requires Inv(m, metal, start, queue, path) && Walk(m, metal, start, p)
    ensures (End(start, p) in path && |path[End(start, p)]| <= |p|) || (exists t :: t in queue && |path[t]| <= |p|)
    decreases |p|
  {
    if p != [] {
      var q := p[..|p| - 1];
      WalkIsCovered(m, metal, start, queue, path, q);
      var t := End(start, q);
      if t in path && |path[t]| <= |q| && t !in queue {
        assert Reached(path, End(start, p), |path[t]|);
      }
    }
  }

  /** While the neighbours of current are looked at: those in ns are still to come. */
  ghost predicate Expanding(m: Map, metal: bool, start: Tile, queue: seq<Tile>, path: map<Tile, seq<Tile>>,
                            current: Tile, ns: seq<Tile>)
  {
    && Paths(m, metal, start, queue, path) && current in path
    && Ordered([current] + queue, path)
    && (forall t | t in path && t !in queue :: |path[t]| <= |path[current]|)
    && (forall t, n | t in path && t !in queue && t != current && n in Adjacent(t) && Accessible(m, metal, n) ::
          Reached(path, n, |path[t]|))
    && (forall n | n in Adjacent(current) && Accessible(m, metal, n) && n !in ns :: Reached(path, n, |path[current]|))
  }

  lemma StartExpanding(m: Map, metal: bool, start: Tile, queue: seq<Tile>, path: map<Tile, seq<Tile>>)
    requires Inv(m, metal, start, queue, path) && queue != []
    ensures Expanding(m, metal, start, queue[1..], path, queue[0], Adjacent(queue[0])) && queue[0] in path
  {
    hide Walk, Adjacent, Accessible;
    var current, rest := queue[0], queue[1..];
    assert [current] + rest == queue;
    assert current in queue;
  }

  lemma SkipNeighbour(m: Map, metal: bool, start: Tile, queue: seq<Tile>, path: map<Tile, seq<Tile>>,
                      current: Tile, n: Tile, ns: seq<Tile>)
    requires Expanding(m, metal, start, queue, path, current, [n] + ns)
    requires !Accessible(m, metal, n) || n in path
    ensures Expanding(m, metal, start, queue, path, current, ns)
  {
    hide Walk, Adjacent, Accessible;
    if n in path { VisitedIsNear(queue, path, current, n); }
  }

  /** A tile that was visited before is at most one step further away than the current one. */
  lemma VisitedIsNear(queue: seq<Tile>, path: map<Tile, seq<Tile>>, current: Tile, n: Tile)
    requires current in path && (forall t | t in queue :: t in path) && Ordered([current] + queue, path) && n in path
    requires forall t | t in path && t !in queue :: |path[t]| <= |path[current]|
    ensures Reached(path, n, |path[current]|)
  {
    if n in queue {
      var i :| 0 <= i < |queue| && queue[i] == n;
      assert ([current] + queue)[i + 1] == n && ([current] + queue)[0] == current;
    }
  }

  lemma VisitNeighbour(m: Map, metal: bool, start: Tile, queue: seq<Tile>, path: map<Tile, seq<Tile>>,
                       current: Tile, n: Tile, ns: seq<Tile>)
    requires Expanding(m, metal, start, queue, path, current, [n] + ns)
    requires Accessible(m, metal, n) && n !in path && n in Adjacent(current)
    ensures Expanding(m, metal, start, queue + [n], path[n := path[current] + [n]], current, ns)
  {
    hide Ordered, Adjacent, Accessible, Walk;
    var q, p := queue + [n], path[n := path[current] + [n]];
    OrderedMore(queue, path, current, n);
    assert forall t :: t in q <==> t in queue || t == n;
    ExtendWalk(m, metal, start, path[current], n);
    assert Paths(m, metal, start, q, p);
    hide Paths;
  }

  lemma ExtendWalk(m: Map, metal: bool, start: Tile, p: seq<Tile>, n: Tile)
    requires Walk(m, metal, start, p) && Accessible(m, metal, n) && n in Adjacent(End(start, p))
    ensures Walk(m, metal, start, p + [n]) && End(start, p + [n]) == n
  {
    assert (p + [n])[..|p|] == p;
  }

  lemma OrderedMore(queue: seq<Tile>, path: map<Tile, seq<Tile>>, current: Tile, n: Tile)
    requires current in path && (forall t | t in queue :: t in path) && Ordered([current] + queue, path) && n !in path
    ensures Ordered([current] + (queue + [n]), path[n := path[current] + [n]])
  {
    var l, p := [current] + queue, path[n := path[current] + [n]];
    assert [current] + (queue + [n]) == l + [n];
    forall i | 0 <= i < |l|
      ensures l[i] in path && p[l[i]] == path[l[i]]
    {
      assert i == 0 || l[i] in queue;
    }
  }

  lemma DoneExpanding(m: Map, metal: bool, start: Tile, queue: seq<Tile>, path: map<Tile, seq<Tile>>, current: Tile)
    requires Expanding(m, metal, start, queue, path, current, [])
    ensures Inv(m, metal, start, queue, path)
  {
    hide Walk, Adjacent, Accessible;
    var l := [current] + queue;
    forall i, j | 0 <= i < j < |queue|
      ensures |path[queue[i]]| <= |path[queue[j]]| <= |path[queue[0]]| + 1
    {
      assert l[i + 1] == queue[i] && l[j + 1] == queue[j] && l[1] == queue[0] && l[0] == current;
    }
    forall t, u | t in path && t !in queue && u in queue
      ensures |path[t]| <= |path[u]|
    {
      var i :| 0 <= i < |queue| && queue[i] == u;
      assert l[i + 1] == u && l[0] == current;
    }
  }

  // ----- The search -----

  /** What is left to do: tiles not visited, then tiles in the queue. */
  ghost function Unvisited(m: Map, path: map<Tile, seq<Tile>>): set<Tile> { Tiles(m) - path.Keys }

  /** What was in the queue still is, what is new is in it, and if there is anything new less is unvisited. */
  ghost predicate Grown(m: Map, queue: seq<Tile>, path: map<Tile, seq<Tile>>,
                        queue': seq<Tile>, path': map<Tile, seq<Tile>>) {
    && (forall t | t in path' && t !in path :: t in queue')
    && (forall t | t in queue :: t in queue')
    && ((path' == path && queue' == queue) || |Unvisited(m, path')| < |Unvisited(m, path)|)
  }

  lemma GrownMore(m: Map, metal: bool, queue: seq<Tile>, path: map<Tile, seq<Tile>>, queue': seq<Tile>,
                  path': map<Tile, seq<Tile>>, n: Tile, p: seq<Tile>)
    requires Grown(m, queue, path, queue', path') && Accessible(m, metal, n) && n !in path'
    ensures Grown(m, queue, path, queue' + [n], path'[n := p])
  {
    FewerUnvisited(m, metal, path', n, p);
    hide Unvisited, Accessible;
  }

  /** The inner loop: the neighbours of current that were not visited join the queue. */
  method VisitNeighbours(m: Map, metal: bool, ghost start: Tile, current: Tile, queue: seq<Tile>, visited: set<Tile>,
                         path: map<Tile, seq<Tile>>)
    returns (queue': seq<Tile>, visited': set<Tile>, path': map<Tile, seq<Tile>>)
    requires visited == path.Keys && current in path
    requires Expanding(m, metal, start, queue, path, current, Adjacent(current))
    ensures visited' == path'.Keys && Inv(m, metal, start, queue', path')
    ensures Grown(m, queue, path, queue', path')
  {
    hide Accessible, Inv, Expanding, Grown, Adjacent;
    queue', visited', path' := queue, visited, path;
    var neighbours := Adjacent(current);
    assert neighbours[0..] == neighbours;
    GrownStart(m, queue, path);
    for i := 0 to |neighbours|
      invariant visited' == path'.Keys && current in path'
      invariant Expanding(m, metal, start, queue', path', current, neighbours[i..])
      invariant Grown(m, queue, path, queue', path')
    {
      var n := neighbours[i];
      assert neighbours[i..] == [n] + neighbours[i + 1..];
      if Accessible(m, metal, n) && n !in visited' {
        VisitNeighbour(m, metal, start, queue', path', current, n, neighbours[i + 1..]);
        GrownMore(m, metal, queue, path, queue', path', n, path'[current] + [n]);
        queue' := queue' + [n];
        visited' := visited' + {n};
        path' := path'[n := path'[current] + [n]];
      } else {
        SkipNeighbour(m, metal, start, queue', path', current, n, neighbours[i + 1..]);
      }
    }
    assert neighbours[|neighbours|..] == [];
    DoneExpanding(m, metal, start, queue', path', current);
  }

  lemma GrownStart(m: Map, queue: seq<Tile>, path: map<Tile, seq<Tile>>)
    ensures Grown(m, queue, path, queue, path)
  {
  }

  /** find_shortest_path: empty when the target is the start or cannot be reached. */
  method FindShortestPath(m: Map, metal: bool, start: Tile, target: Tile) returns (r: seq<Tile>)
    ensures Walk(m, metal, start, r) && (r != [] ==> End(start, r) == target)
    ensures r != [] ==> forall p | Walk(m, metal, start, p) && End(start, p) == target :: |r| <= |p|
    ensures r == [] <==> start == target || forall p | Walk(m, metal, start, p) :: End(start, p) != target
  {
    hide Adjacent, Accessible, Tiles, Walk, Expanding;
    var path := map[start := []];
    var queue := [start];
    var visited := {start};
    StartSearch(m, metal, start);
    hide Inv;
    while queue != []
      invariant visited == path.Keys && Inv(m, metal, start, queue, path)
      invariant target in path ==> target in queue
      decreases |Unvisited(m, path)|, |queue|
    {
      var current := queue[0];
      StartExpanding(m, metal, start, queue, path);
      if current == target {
        Shortest(m, metal, start, queue, path);
        return path[current];
      }
      assert forall t | t in queue && t != current :: t in queue[1..];
      queue := queue[1..];
      queue, visited, path := VisitNeighbours(m, metal, start, current, queue, visited, path);
    }
    Unreachable(m, metal, start, path, target);
    EmptyWalk(m, metal, start);
    return [];
  }

  lemma StartSearch(m: Map, metal: bool, start: Tile)
    ensures Inv(m, metal, start, [start], map[start := []])
  {
  }

  lemma EmptyWalk(m: Map, metal: bool, start: Tile)
    ensures Walk(m, metal, start, [])
  {
  }

  lemma FewerUnvisited(m: Map, metal: bool, path: map<Tile, seq<Tile>>, n: Tile, p: seq<Tile>)
    requires Accessible(m, metal, n) && n !in path
    ensures |Unvisited(m, path[n := p])| < |Unvisited(m, path)|
  {
    assert n in Unvisited(m, path);
    assert Unvisited(m, path[n := p]) == Unvisited(m, path) - {n};
  }

  lemma Shortest(m: Map, metal: bool, start: Tile, queue: seq<Tile>, path: map<Tile, seq<Tile>>)
    requires Inv(m, metal, start, queue, path) && queue != []
    ensures queue[0] in path && Walk(m, metal, start, path[queue[0]]) && End(start, path[queue[0]]) == queue[0]
    ensures forall p | Walk(m, metal, start, p) && End(start, p) == queue[0] :: |path[queue[0]]| <= |p|
    ensures path[queue[0]] == [] <==> queue[0] == start
  {
    forall p | Walk(m, metal, start, p) && End(start, p) == queue[0]
      ensures |path[queue[0]]| <= |p|
    {
      WalkIsCovered(m, metal, start, queue, path, p);
    }
  }

  lemma Unreachable(m: Map, metal: bool, start: Tile, path: map<Tile, seq<Tile>>, target: Tile)
    requires Inv(m, metal, start, [], path) && target !in path
    ensures forall p | Walk(m, metal, start, p) :: End(start, p) != target
  {
    forall p | Walk(m, metal, start, p)
      ensures End(start, p) != target
    {
      WalkIsCovered(m, metal, start, [], path, p);
    }
  }
}
