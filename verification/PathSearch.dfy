// The robot's path search: AStar, neighbours and moveCost of
// Lagerrobot/communication/nav_algorithm.py on the queue of priority_queue.py.
module PathSearch {
  import opened Prelude
  import opened RouteCount
  import opened Routes

  // ----- priority_queue.py -----

  datatype Entry = Entry(path: seq<Coord>, cost: int, dirs: seq<int>, straight: bool)

  /** One object stands for all instances: q is a class attribute. */
  class PriorityQueue {
    var q: seq<Entry>

    constructor ()
      ensures q == []
    {
      q := [];
    }

    method Insert(coord: Coord, path: seq<Coord>, value: int, direction: int, pathDir: seq<int>, straight: bool)
      modifies this
      ensures q == old(q) + [Entry(path + [coord], value, pathDir + [direction], straight)]
    {
      q := q + [Entry(path + [coord], value, pathDir + [direction], straight)];
    }

    /** The first of the cheapest entries leaves the queue; None when there is none. */
    method Pop() returns (r: Option<Entry>, ghost m: nat)
      modifies this
      ensures r == None <==> old(q) == []
      ensures r.Some? ==> m < |old(q)| && r.value == old(q)[m] && q == old(q)[..m] + old(q)[m + 1..]
      ensures r.Some? ==> forall i | 0 <= i < |old(q)| :: r.value.cost <= old(q)[i].cost
      ensures r.Some? ==> forall i | 0 <= i < m :: r.value.cost < old(q)[i].cost
      ensures r == None ==> q == old(q)
    {
      if |q| == 0 {
        return None, 0;
      }
      var k := 0;
      for i := 0 to |q|
        invariant k < |q|
        invariant forall j | 0 <= j < i :: q[k].cost <= q[j].cost
        invariant forall j | 0 <= j < k :: q[k].cost < q[j].cost
      {
        if q[i].cost < q[k].cost {
          k := i;
        }
      }
      r, m := Some(q[k]), k;
      q := q[..k] + q[k + 1..];
    }

    method Reset()
      modifies this
      ensures q == []
    {
      q := [];
    }
  }

  // ----- neighbours -----

  datatype Neighbour = Neighbour(at: Coord, dir: int)

  /** The four cells around c, each with its direction relative to dir. */
  function Around(c: Coord, dir: int): (s: seq<Neighbour>)
    requires dir in DIRECTIONS
    ensures |s| == 4
  {
    [Neighbour(Toward(c, -2), Turn(dir, -2)), Neighbour(Toward(c, 2), Turn(dir, 2)),
     Neighbour(Toward(c, 1), Turn(dir, 1)), Neighbour(Toward(c, -1), Turn(dir, -1))]
  }

  function OpenOnes(map_: Grid, s: seq<Neighbour>): seq<Neighbour> {
    if s == [] then [] else (if Open(map_, s[0].at) then [s[0]] else []) + OpenOnes(map_, s[1..])
  }

  lemma {:induction false} OpenOnesKeep(map_: Grid, a: seq<Neighbour>, b: seq<Neighbour>)
    requires forall i | 0 <= i < |a| :: Open(map_, a[i].at)
    ensures OpenOnes(map_, a + b) == a + OpenOnes(map_, b)
  {
    if a == [] {
      assert a + b == b;
    } else {
      OpenOnesKeep(map_, a[1..], b);
      assert (a + b)[1..] == a[1..] + b;
    }
  }

  lemma {:induction false} OpenOnesMember(map_: Grid, s: seq<Neighbour>, n: Neighbour)
    ensures n in OpenOnes(map_, s) <==> n in s && Open(map_, n.at)
  {
    if s != [] { OpenOnesMember(map_, s[1..], n); }
  }

  /** The indices of the closed cells of s before i, in ascending order. */
  ghost predicate ClosedOnes(map_: Grid, s: seq<Neighbour>, i: nat, kill: seq<nat>)
    requires i <= |s|
  {
    && (forall k | 0 <= k < |kill| :: kill[k] < i)
    && (forall k, l | 0 <= k < l < |kill| :: kill[k] < kill[l])
    && (forall j | 0 <= j < i :: j in kill <==> !Open(map_, s[j].at))
  }

  method FindClosed(map_: Grid, s: seq<Neighbour>) returns (r: Option<seq<nat>>)
    ensures r.Some? <==> forall n | n in s :: Cell(map_, n.at).Some?
    ensures r.Some? ==> ClosedOnes(map_, s, |s|, r.value)
  {
    var kill: seq<nat> := [];
    for i := 0 to |s|
      invariant forall j | 0 <= j < i :: Cell(map_, s[j].at).Some?
      invariant ClosedOnes(map_, s, i, kill)
    {
      var cell := Cell(map_, s[i].at);
      if cell == None {
        assert s[i] in s;
        return None;
      }
      if cell.value == 0 {
        kill := kill + [i];
      }
    }
    r := Some(kill);
  }

  /** Deletes the listed elements, the last one first. */
  method DeleteClosed(map_: Grid, s: seq<Neighbour>, kill: seq<nat>) returns (r: seq<Neighbour>)
    requires ClosedOnes(map_, s, |s|, kill)
    ensures r == OpenOnes(map_, s)
  {
    hide Open, OpenOnes, ClosedOnes;
    r := s;
    ghost var p := |s|;
    assert s[p..] == [] && s[..p] == s && kill[..|kill|] == kill;
    NoOpenOnes(map_);
    for j := |kill| downto 0
      invariant 0 <= p <= |s| && ClosedOnes(map_, s, p, kill[..j])
      invariant r == s[..p] + OpenOnes(map_, s[p..])
    {
      var i := kill[j];
      assert kill[..j + 1][..j] == kill[..j];
      LastClosed(map_, s, p, kill[..j + 1], i);
      DeleteOne(map_, s, p, i, r);
      r := r[..i] + r[i + 1..];
      p := i;
    }
    AllOpen(map_, s, p, kill[..0]);
  }

  lemma NoOpenOnes(map_: Grid)
    ensures OpenOnes(map_, []) == []
  {
  }

  lemma AllOpen(map_: Grid, s: seq<Neighbour>, p: nat, kill: seq<nat>)
    requires p <= |s| && ClosedOnes(map_, s, p, kill) && kill == []
    ensures s[..p] + OpenOnes(map_, s[p..]) == OpenOnes(map_, s)
  {
    OpenOnesKeep(map_, s[..p], s[p..]);
    assert s[..p] + s[p..] == s;
  }

  lemma LastClosed(map_: Grid, s: seq<Neighbour>, p: nat, kill: seq<nat>, i: nat)
    requires p <= |s| && ClosedOnes(map_, s, p, kill) && kill != [] && i == kill[|kill| - 1]
    ensures i < p && !Open(map_, s[i].at) && ClosedOnes(map_, s, i, kill[..|kill| - 1])
    ensures forall j | i < j < p :: Open(map_, s[j].at)
  {
    hide Open;
    var last := |kill| - 1;
    assert i in kill;
    forall j | 0 <= j < i
      ensures j in kill[..last] <==> !Open(map_, s[j].at)
    {
      assert kill == kill[..last] + [i];
    }
  }

  lemma DeleteOne(map_: Grid, s: seq<Neighbour>, p: nat, i: nat, r: seq<Neighbour>)
    requires i < p <= |s| && r == s[..p] + OpenOnes(map_, s[p..])
    requires !Open(map_, s[i].at) && forall j | i < j < p :: Open(map_, s[j].at)
    ensures r[..i] + r[i + 1..] == s[..i] + OpenOnes(map_, s[i..])
  {
    hide Open;
    var between := s[i + 1..p];
    OpenOnesKeep(map_, between, s[p..]);
    assert s[i..][1..] == between + s[p..];
    assert OpenOnes(map_, s[i..]) == between + OpenOnes(map_, s[p..]);
    CutOut(s, p, i, OpenOnes(map_, s[p..]));
  }

  lemma CutOut<T>(s: seq<T>, p: nat, i: nat, rest: seq<T>)
    requires i < p <= |s|
    ensures var r := s[..p] + rest; r[..i] + r[i + 1..] == s[..i] + (s[i + 1..p] + rest)
  {
  }

  /** neighbours; None when a lookup raises IndexError. */
  method Neighbours(map_: Grid, c: Coord, dir: int) returns (r: Option<seq<Neighbour>>)
    requires dir in DIRECTIONS
    ensures r == if Inside(map_, c) then Some(OpenOnes(map_, Around(c, dir))) else None
  {
    var s := Around(c, dir);
    assert s[0].at == Toward(c, -2) && s[1].at == Toward(c, 2) && s[2].at == Toward(c, 1) && s[3].at == Toward(c, -1);
    var kill := FindClosed(map_, s);
    if kill == None {
      return None;
    }
    var neighbours := DeleteClosed(map_, s, kill.value);
    r := Some(neighbours);
  }

  // ----- Going on -----

  lemma ExtendRoute(t: Task, o: Route, n: Neighbour)
    requires Admissible(t, o) && n.dir in DIRECTIONS && n.at == Toward(o.path[|o.path| - 1], n.dir)
    requires Open(t.map_, n.at) && (n.at in o.path ==> n.at == o.path[0])
    requires |o.path| == 1 && t.straight ==> n.dir == o.dirs[0]
    ensures Admissible(t, Route(o.path + [n.at], o.dirs + [n.dir]))
    ensures Cost(o.dirs + [n.dir]) == Cost(o.dirs) + MoveCost(o.dirs[|o.dirs| - 1], n.dir)
  {
    var p := Route(o.path + [n.at], o.dirs + [n.dir]);
    assert p.dirs[..|o.dirs|] == o.dirs;
    hide Open, Toward;
    forall j | 0 < j < |p.path|
      ensures Hop(t, p, j)
    {
      if j < |o.path| {
        assert Hop(t, o, j) && p.path[..j] == o.path[..j];
      } else {
        assert p.path[..j] == o.path;
      }
    }
  }

  // ----- No route is looked at twice -----

  function RouteOf(e: Entry): Route { Route(e.path, e.dirs) }

  /** The route that goes on from entry e to a neighbour. */
  function Child(e: Entry, n: Neighbour): Route { Route(e.path + [n.at], e.dirs + [n.dir]) }

  /** o has one cell, or goes on from one of the routes in seen. */
  predicate GoesOn(o: Route, seen: set<Route>) {
    && o.path != [] && o.dirs != []
    && (|o.path| > 1 ==> Route(o.path[..|o.path| - 1], o.dirs[..|o.dirs| - 1]) in seen)
  }

  /** The routes in the queue differ from each other and from those taken out of it before. */
  ghost predicate Fresh(q: seq<Entry>, seen: set<Route>) {
    && (forall o | o in seen :: GoesOn(o, seen))
    && (forall i | 0 <= i < |q| :: RouteOf(q[i]) !in seen && GoesOn(RouteOf(q[i]), seen))
    && (forall i, j | 0 <= i < j < |q| :: RouteOf(q[i]) != RouteOf(q[j]))
  }

  /** The same while the neighbours of the entry just taken out are looked at. */
  ghost predicate FreshBut(q: seq<Entry>, seen: set<Route>, e: Entry, ns: seq<Neighbour>) {
    && Fresh(q, seen) && RouteOf(e) in seen && Distinct(ns)
    && (forall i, n | 0 <= i < |q| && n in ns :: RouteOf(q[i]) != Child(e, n))
    && (forall n | n in ns :: Child(e, n) !in seen)
  }

  lemma ChildGoesOn(e: Entry, n: Neighbour, seen: set<Route>)
    requires e.path != [] && e.dirs != []
    ensures GoesOn(Child(e, n), seen) <==> RouteOf(e) in seen
    ensures RouteOf(e) != Child(e, n)
  {
    var o := Child(e, n);
    assert o.path[..|o.path| - 1] == e.path && o.dirs[..|o.dirs| - 1] == e.dirs;
  }

  lemma FreshPop(q: seq<Entry>, m: nat, seen: set<Route>, ns: seq<Neighbour>)
    requires m < |q| && Fresh(q, seen) && Distinct(ns)
    ensures FreshBut(q[..m] + q[m + 1..], seen + {RouteOf(q[m])}, q[m], ns)
  {
    var e, rest := q[m], q[..m] + q[m + 1..];
    forall i | 0 <= i < |rest|
      ensures rest[i] == q[if i < m then i else i + 1]
    {
    }
    hide RouteOf, Child, GoesOn;
    assert Fresh(rest, seen + {RouteOf(e)}) by { SeenGrows(q, seen, RouteOf(e)); }
    forall n | n in ns
      ensures Child(e, n) !in seen + {RouteOf(e)}
      ensures forall i | 0 <= i < |rest| :: RouteOf(rest[i]) != Child(e, n)
    {
      EntryNotEmpty(e, seen);
      ChildGoesOn(e, n, seen);
    }
  }

  lemma EntryNotEmpty(e: Entry, seen: set<Route>)
    requires GoesOn(RouteOf(e), seen)
    ensures e.path != [] && e.dirs != []
  {
  }

  lemma SeenGrows(q: seq<Entry>, seen: set<Route>, o: Route)
    requires Fresh(q, seen)
    ensures forall p | p in seen || p == o :: GoesOn(p, seen) ==> GoesOn(p, seen + {o})
    ensures forall i | 0 <= i < |q| :: GoesOn(RouteOf(q[i]), seen + {o})
  {
  }

  lemma FreshPush(q: seq<Entry>, seen: set<Route>, e: Entry, n: Neighbour, ns: seq<Neighbour>, f: Entry)
    requires FreshBut(q, seen, e, [n] + ns) && RouteOf(f) == Child(e, n) && e.path != [] && e.dirs != []
    ensures FreshBut(q + [f], seen, e, ns)
  {
    hide RouteOf, GoesOn;
    ChildGoesOn(e, n, seen);
    FreshSkip(q, seen, e, n, ns);
    assert ([n] + ns)[0] == n;
    forall m | m in ns
      ensures Child(e, m) != Child(e, n)
    {
      assert n !in ns by { NotInRest(n, ns); }
      assert Child(e, m).path[|e.path|] == m.at && Child(e, m).dirs[|e.dirs|] == m.dir;
      assert Child(e, n).path[|e.path|] == n.at && Child(e, n).dirs[|e.dirs|] == n.dir;
    }
    hide Child;
  }

  lemma NotInRest<T>(x: T, s: seq<T>)
    requires Distinct([x] + s)
    ensures x !in s && Distinct(s)
  {
    var l := [x] + s;
    assert l[0] == x && l[1..] == s;
    assert forall i | 0 <= i < |s| :: s[i] == l[i + 1];
  }

  lemma FreshSkip(q: seq<Entry>, seen: set<Route>, e: Entry, n: Neighbour, ns: seq<Neighbour>)
    requires FreshBut(q, seen, e, [n] + ns)
    ensures FreshBut(q, seen, e, ns)
  {
    hide RouteOf, GoesOn, Child;
    NotInRest(n, ns);
  }

  lemma {:induction false} OpenOnesDistinct(map_: Grid, s: seq<Neighbour>)
    requires Distinct(s)
    ensures Distinct(OpenOnes(map_, s))
  {
    if s != [] {
      OpenOnesDistinct(map_, s[1..]);
      OpenOnesMember(map_, s[1..], s[0]);
    }
  }

  lemma NeighboursDistinct(map_: Grid, c: Coord)
    ensures Distinct(OpenOnes(map_, Around(c, 1)))
  {
    assert Around(c, 1) == [Neighbour(Toward(c, -2), -2), Neighbour(Toward(c, 2), 2),
                            Neighbour(Toward(c, 1), 1), Neighbour(Toward(c, -1), -1)];
    OpenOnesDistinct(map_, Around(c, 1));
  }

  // ----- The invariant of the search -----

  ghost predicate Sound(t: Task, e: Entry) {
    && Admissible(t, RouteOf(e)) && e.cost == Cost(e.dirs) && Explored(t.map_, e.path)
    && e.straight == (t.straight && |e.path| == 1)
  }

  ghost predicate AllSound(t: Task, q: seq<Entry>) {
    forall i {:trigger q[i]} | 0 <= i < |q| :: Sound(t, q[i])
  }

  ghost predicate Begins(e: Entry, o: Route) { e.path <= o.path && e.dirs <= o.dirs }

  ghost predicate Covered(q: seq<Entry>, o: Route) {
    exists i :: 0 <= i < |q| && Begins(q[i], o)
  }

  /** Route o goes on from the popped entry e to one of the neighbours not yet looked at. */
  ghost predicate Pending(e: Entry, ns: seq<Neighbour>, o: Route) {
    && Begins(e, o) && |e.path| == |e.dirs| < |o.path| == |o.dirs|
    && Neighbour(o.path[|e.path|], o.dirs[|e.path|]) in ns
  }

  lemma AroundFacingUp(c: Coord, n: Neighbour)
    ensures n in Around(c, 1) <==> n.dir in DIRECTIONS && n.at == Toward(c, n.dir)
  {
    var s := Around(c, 1);
    assert s == [Neighbour(Toward(c, -2), -2), Neighbour(Toward(c, 2), 2),
                 Neighbour(Toward(c, 1), 1), Neighbour(Toward(c, -1), -1)];
    assert s[0] in s && s[1] in s && s[2] in s && s[3] in s;
  }

  lemma NeighboursAreMoves(map_: Grid, c: Coord, ns: seq<Neighbour>)
    requires ns == OpenOnes(map_, Around(c, 1))
    ensures forall n | n in ns :: n.dir in DIRECTIONS && n.at == Toward(c, n.dir) && Open(map_, n.at)
  {
    forall n | n in ns
      ensures n.dir in DIRECTIONS && n.at == Toward(c, n.dir) && Open(map_, n.at)
    {
      OpenOnesMember(map_, Around(c, 1), n);
      AroundFacingUp(c, n);
    }
  }

  /** Taking entry m out leaves a route covered, or it is that entry's or goes on from it. */
  lemma PopCovers(t: Task, q: seq<Entry>, m: nat, o: Route, ns: seq<Neighbour>)
    requires m < |q| && Sound(t, q[m]) && Admissible(t, o) && Covered(q, o)
    requires ns == OpenOnes(t.map_, Around(q[m].path[|q[m].path| - 1], 1))
    ensures Covered(q[..m] + q[m + 1..], o) || Pending(q[m], ns, o) || o == RouteOf(q[m])
  {
    var i :| 0 <= i < |q| && Begins(q[i], o);
    if i != m {
      hide Sound, Admissible, Begins, Around, OpenOnes;
      var rest := q[..m] + q[m + 1..];
      var j := if i < m then i else i - 1;
      assert rest[j] == q[i];
    } else {
      GoesOnNext(t, q[m], o, ns);
    }
  }

  lemma GoesOnNext(t: Task, e: Entry, o: Route, ns: seq<Neighbour>)
    requires Sound(t, e) && Admissible(t, o) && Begins(e, o)
    requires ns == OpenOnes(t.map_, Around(e.path[|e.path| - 1], 1))
    ensures Pending(e, ns, o) || o == RouteOf(e)
  {
    hide Around, OpenOnes, Open, Toward;
    var k := |e.path|;
    if k < |o.path| {
      assert e.path[k - 1] == o.path[k - 1];
      assert Hop(t, o, k);
      var n := Neighbour(o.path[k], o.dirs[k]);
      AroundFacingUp(o.path[k - 1], n);
      OpenOnesMember(t.map_, Around(o.path[k - 1], 1), n);
    }
  }

  /** The queue holds only sound entries, and one for every admissible route that has not been
      looked at, unless that route goes on from the entry just popped. */
  ghost predicate Searching(t: Task, q: seq<Entry>, seen: set<Route>) {
    AllSound(t, q) && forall o: Route {:trigger Covered(q, o)} | Admissible(t, o) :: Covered(q, o) || o in seen
  }

  ghost predicate Expanding(t: Task, q: seq<Entry>, seen: set<Route>, e: Entry, ns: seq<Neighbour>) {
    && AllSound(t, q) && Sound(t, e)
    && forall o: Route {:trigger Covered(q, o)} | Admissible(t, o) :: Covered(q, o) || Pending(e, ns, o) || o in seen
  }

  lemma StartSearching(t: Task)
    ensures Searching(t, [Entry([t.start], 0, [t.direction], t.straight)], {})
  {
    var e := Entry([t.start], 0, [t.direction], t.straight);
    assert Begins(e, Route(e.path, e.dirs));
    forall o: Route | Admissible(t, o)
      ensures Covered([e], o)
    {
      assert Begins([e][0], o);
    }
  }

  lemma StartExpanding(t: Task, q: seq<Entry>, seen: set<Route>, m: nat, ns: seq<Neighbour>)
    requires m < |q| && Searching(t, q, seen)
    requires q[m].path != [] && ns == OpenOnes(t.map_, Around(q[m].path[|q[m].path| - 1], 1))
    ensures Expanding(t, q[..m] + q[m + 1..], seen + {RouteOf(q[m])}, q[m], ns)
  {
    hide Around, Admissible, Sound, Begins;
    forall o: Route | Admissible(t, o)
      ensures Covered(q[..m] + q[m + 1..], o) || Pending(q[m], ns, o) || o in seen + {RouteOf(q[m])}
    {
      hide Covered, Pending;
      if o !in seen { PopCovers(t, q, m, o, ns); }
    }
  }

  lemma DoneExpanding(t: Task, q: seq<Entry>, seen: set<Route>, e: Entry)
    requires Expanding(t, q, seen, e, [])
    ensures Searching(t, q, seen)
  {
  }

  /** A neighbour that AStar skips is the next cell of no admissible route. */
  lemma SkipNeighbour(t: Task, q: seq<Entry>, seen: set<Route>, e: Entry, ns: seq<Neighbour>, n: Neighbour)
    requires Expanding(t, q, seen, e, [n] + ns)
    requires (e.straight && n.dir != e.dirs[|e.path| - 1]) || (n.at in e.path && n.at != e.path[0])
    ensures Expanding(t, q, seen, e, ns)
  {
    forall o: Route | Admissible(t, o)
      ensures Covered(q, o) || Pending(e, ns, o) || o in seen
    {
      if Pending(e, [n] + ns, o) {
        SkippedIsNotNext(t, e, n, o);
      }
    }
  }

  lemma SkippedIsNotNext(t: Task, e: Entry, n: Neighbour, o: Route)
    requires Sound(t, e) && Admissible(t, o) && Begins(e, o) && |e.path| < |o.path|
    requires (e.straight && n.dir != e.dirs[|e.path| - 1]) || (n.at in e.path && n.at != e.path[0])
    ensures Neighbour(o.path[|e.path|], o.dirs[|e.path|]) != n
  {
    var k := |e.path|;
    assert Hop(t, o, k);
    assert o.path[..k] == e.path && o.dirs[..k] == e.dirs;
  }

  lemma PushNeighbour(t: Task, q: seq<Entry>, seen: set<Route>, e: Entry, ns: seq<Neighbour>, n: Neighbour, f: Entry)
    requires Expanding(t, q, seen, e, [n] + ns)
    requires n.dir in DIRECTIONS && n.at == Toward(e.path[|e.path| - 1], n.dir) && Open(t.map_, n.at)
    requires e.straight ==> n.dir == e.dirs[|e.path| - 1]
    requires n.at in e.path ==> n.at == e.path[0]
    requires Inside(t.map_, e.path[|e.path| - 1])
    requires f == Entry(e.path + [n.at], e.cost + MoveCost(e.dirs[|e.path| - 1], n.dir), e.dirs + [n.dir], false)
    ensures Expanding(t, q + [f], seen, e, ns)
  {
    ExtendRoute(t, RouteOf(e), n);
    hide Inside;
    forall o: Route | Admissible(t, o)
      ensures Covered(q + [f], o) || Pending(e, ns, o) || o in seen
    {
      if o !in seen { PushCovers(q, e, ns, n, f, o); }
    }
  }

  lemma PushCovers(q: seq<Entry>, e: Entry, ns: seq<Neighbour>, n: Neighbour, f: Entry, o: Route)
    requires Covered(q, o) || Pending(e, [n] + ns, o)
    requires f.path == e.path + [n.at] && f.dirs == e.dirs + [n.dir]
    ensures Covered(q + [f], o) || Pending(e, ns, o)
  {
    if Covered(q, o) {
      var i :| 0 <= i < |q| && Begins(q[i], o);
      assert (q + [f])[i] == q[i];
    } else if !Pending(e, ns, o) {
      assert Begins((q + [f])[|q|], o);
    }
  }

  // ----- AStar -----

  datatype Outcome =
    | Found(path: seq<Coord>, cost: int, dirs: seq<int>)
    | Failed
    | IndexError

  /** The body of AStar's loop after a pop: every neighbour that continues the route is inserted. */
  method Expand(ghost t: Task, ghost seen: set<Route>, current: Entry, ns: seq<Neighbour>,
                pq: PriorityQueue)
    requires Expanding(t, pq.q, seen, current, ns) && FreshBut(pq.q, seen, current, ns)
    requires Inside(t.map_, current.path[|current.path| - 1])
    requires forall n | n in ns ::
               n.dir in DIRECTIONS && n.at == Toward(current.path[|current.path| - 1], n.dir) && Open(t.map_, n.at)
    modifies pq
    ensures Searching(t, pq.q, seen) && Fresh(pq.q, seen)
  {
    assert |current.path| == |current.dirs| > 0;
    hide AllSound, Covered, Pending, Sound, Expanding, Searching, Toward, Open, Inside, FreshBut, Fresh;
    var currentDir := current.dirs[|current.path| - 1];
    for k := 0 to |ns|
      invariant Expanding(t, pq.q, seen, current, ns[k..]) && FreshBut(pq.q, seen, current, ns[k..])
    {
      var n := ns[k];
      assert ns[k..] == [n] + ns[k + 1..];
      if current.straight && n.dir != currentDir {
        SkipNeighbour(t, pq.q, seen, current, ns[k + 1..], n);
        FreshSkip(pq.q, seen, current, n, ns[k + 1..]);
        continue;
      }
      var totalCost := current.cost + MoveCost(currentDir, n.dir);
      if n.at !in current.path || n.at == current.path[0] {
        ghost var now := pq.q;
        pq.Insert(n.at, current.path, totalCost, n.dir, current.dirs, false);
        PushNeighbour(t, now, seen, current, ns[k + 1..], n, pq.q[|now|]);
        FreshPush(now, seen, current, n, ns[k + 1..], pq.q[|now|]);
      } else {
        SkipNeighbour(t, pq.q, seen, current, ns[k + 1..], n);
        FreshSkip(pq.q, seen, current, n, ns[k + 1..]);
      }
    }
    assert ns[|ns|..] == [];
    DoneExpanding(t, pq.q, seen, current);
    assert Fresh(pq.q, seen) by { FreshDone(pq.q, seen, current); }
  }

  lemma FreshDone(q: seq<Entry>, seen: set<Route>, e: Entry)
    requires FreshBut(q, seen, e, [])
    ensures Fresh(q, seen)
  {
  }

  /** The routes taken out of the queue so far cost no more than any to stop, do not end there, and
      all four cells around their ends can be looked up. */
  ghost predicate AllLookedAt(t: Task, stop: Coord, seen: set<Route>) {
    AllRivals(t, stop, seen) && forall o | o in seen :: o.path != [] && Inside(t.map_, o.path[|o.path| - 1])
  }

  /** The loop of AStar: `seen` are the routes taken out of the queue. */
  ghost predicate Looking(t: Task, stop: Coord, q: seq<Entry>, seen: set<Route>, iterations: nat) {
    Searching(t, q, seen) && Fresh(q, seen) && AllLookedAt(t, stop, seen) && |seen| == iterations
  }

  lemma StartLooking(t: Task, stop: Coord)
    ensures Looking(t, stop, [Entry([t.start], 0, [t.direction], t.straight)], {}, 0)
  {
    StartSearching(t);
  }

  /** The cheapest entry is taken out. */
  lemma PopLooking(t: Task, stop: Coord, q: seq<Entry>, seen: set<Route>, iterations: nat, m: nat)
    requires Looking(t, stop, q, seen, iterations) && m < |q|
    requires forall i | 0 <= i < |q| :: q[m].cost <= q[i].cost
    ensures Sound(t, q[m])
    ensures if q[m].path[|q[m].path| - 1] == stop then Least(t, stop, RouteOf(q[m])) else Rival(t, stop, RouteOf(q[m]))
    ensures |seen + {RouteOf(q[m])}| == iterations + 1
    ensures InsideBelow(t, q[m].cost)
  {
    assert Sound(t, q[m]);
    hide Sound, AllSound, Admissible, Fresh, Covered, Inside;
    forall o: Route | Admissible(t, o) && o !in seen
      ensures q[m].cost <= Cost(o.dirs)
    {
      CheapestIsBest(t, q, seen, q[m].cost, o);
    }
    assert NotWorse(t, stop, RouteOf(q[m])) && Admissible(t, RouteOf(q[m])) by { SoundRoute(t, q[m]); }
    assert RouteOf(q[m]) !in seen by { FreshAt(q, seen, m); }
    hide Rival;
  }

  lemma SoundRoute(t: Task, e: Entry)
    requires Sound(t, e)
    ensures Admissible(t, RouteOf(e)) && e.cost == Cost(e.dirs)
  {
  }

  lemma FreshAt(q: seq<Entry>, seen: set<Route>, m: nat)
    requires Fresh(q, seen) && m < |q|
    ensures RouteOf(q[m]) !in seen
  {
  }

  /** The neighbours of the entry that has been taken out are about to be looked at. */
  lemma LookAround(t: Task, stop: Coord, q: seq<Entry>, seen: set<Route>, iterations: nat, m: nat, ns: seq<Neighbour>)
    requires Looking(t, stop, q, seen, iterations) && m < |q| && Sound(t, q[m]) && Rival(t, stop, RouteOf(q[m]))
    requires Inside(t.map_, q[m].path[|q[m].path| - 1])
    requires ns == OpenOnes(t.map_, Around(q[m].path[|q[m].path| - 1], 1))
    ensures Expanding(t, q[..m] + q[m + 1..], seen + {RouteOf(q[m])}, q[m], ns)
    ensures FreshBut(q[..m] + q[m + 1..], seen + {RouteOf(q[m])}, q[m], ns)
    ensures AllLookedAt(t, stop, seen + {RouteOf(q[m])})
  {
    hide Fresh, FreshBut, Searching, Expanding, Around, Sound, Rival, Inside, OpenOnes;
    SoundLength(t, q[m]);
    NeighboursDistinct(t.map_, q[m].path[|q[m].path| - 1]);
    StartExpanding(t, q, seen, m, ns);
    FreshPop(q, m, seen, ns);
  }

  lemma NothingLeft(t: Task, stop: Coord, seen: set<Route>, iterations: nat)
    requires Looking(t, stop, [], seen, iterations)
    ensures forall o: Route :: !Reaches(t, stop, o)
    ensures forall o: Route | Admissible(t, o) :: Inside(t.map_, o.path[|o.path| - 1])
  {
    hide Inside;
    forall o: Route | Admissible(t, o)
      ensures o in seen
    {
      assert !Covered([], o);
    }
  }

  const MAX_ITERATIONS := 10000

  method AStar(map_: Grid, start: Coord, stop: Coord, direction: int, straight: bool, pq: PriorityQueue)
    returns (r: Outcome, iterations: nat)
    requires pq.q == []
    modifies pq
    ensures r.Found? ==>
              && Least(Task(map_, start, direction, straight), stop, Route(r.path, r.dirs)) && r.cost == Cost(r.dirs)
              && Explored(map_, r.path) && pq.q == []
              && InsideBelow(Task(map_, start, direction, straight), r.cost)
    ensures r.Failed? ==>
              if pq.q == [] then
                && (forall o: Route :: !Reaches(Task(map_, start, direction, straight), stop, o))
                && forall cost :: InsideBelow(Task(map_, start, direction, straight), cost)
              else iterations == 10000 && Crowded(Task(map_, start, direction, straight), stop)
    ensures r.Failed? ==>
              forall o: Route | Reaches(Task(map_, start, direction, straight), stop, o) :: Cost(o.dirs) > 230
    ensures r.IndexError? ==> exists o :: OutsideRival(Task(map_, start, direction, straight), stop, o)
  {
    hide Looking, Sound, Least, Rival, AllLookedAt, Searching, Expanding, Fresh, FreshBut, Inside, Around, OpenOnes;
    ghost var t := Task(map_, start, direction, straight);
    pq.Insert(start, [], 0, direction, [], straight);
    assert [] + [start] == [start] && [] + [direction] == [direction];
    assert pq.q == [Entry([start], 0, [direction], straight)];
    StartLooking(t, stop);
    iterations := 0;
    ghost var seen: set<Route> := {};
    while |pq.q| > 0 && iterations < MAX_ITERATIONS
      invariant iterations <= MAX_ITERATIONS
      decreases MAX_ITERATIONS - iterations
      invariant Looking(t, stop, pq.q, seen, iterations)
    {
      iterations := iterations + 1;
      ghost var q := pq.q;
      var popped, m := pq.Pop();
      var current := popped.value;
      PopLooking(t, stop, q, seen, iterations - 1, m);
      assert |current.path| == |current.dirs| > 0 && Explored(map_, current.path) && current.cost == Cost(current.dirs)
        by { SoundLength(t, current); }
      var headOfPath := current.path[|current.path| - 1];
      var currentDir := current.dirs[|current.path| - 1];
      if headOfPath == stop {
        pq.Reset();
        return Found(current.path, current.cost, current.dirs), iterations;
      }
      var neighbours := Neighbours(map_, headOfPath, 1);
      if neighbours == None {
        assert OutsideRival(t, stop, RouteOf(current));
        return IndexError, iterations;
      }
      NeighboursAreMoves(map_, headOfPath, neighbours.value);
      LookAround(t, stop, q, seen, iterations - 1, m, neighbours.value);
      seen := seen + {RouteOf(current)};
      Expand(t, seen, current, neighbours.value, pq);
      assert Looking(t, stop, pq.q, seen, iterations) by { LookOn(t, stop, pq.q, seen, iterations); }
    }
    if |pq.q| == 0 {
      NothingLeft(t, stop, seen, iterations);
    } else {
      assert Crowded(t, stop) by { EnoughSeen(t, stop, pq.q, seen, iterations); }
      OnlyFar(t, stop);
    }
    r := Failed;
  }

  lemma SoundLength(t: Task, e: Entry)
    requires Sound(t, e)
    ensures |e.path| == |e.dirs| > 0 && Explored(t.map_, e.path) && e.cost == Cost(e.dirs)
  {
  }

  lemma LookOn(t: Task, stop: Coord, q: seq<Entry>, seen: set<Route>, iterations: nat)
    requires Searching(t, q, seen) && Fresh(q, seen) && AllLookedAt(t, stop, seen) && |seen| == iterations
    ensures Looking(t, stop, q, seen, iterations)
  {
  }

  lemma EnoughSeen(t: Task, stop: Coord, q: seq<Entry>, seen: set<Route>, iterations: nat)
    requires Looking(t, stop, q, seen, iterations) && iterations == MAX_ITERATIONS
    ensures Crowded(t, stop)
  {
  }

  lemma OnlyFar(t: Task, stop: Coord)
    requires Crowded(t, stop)
    ensures forall o: Route | Reaches(t, stop, o) :: Cost(o.dirs) > 230
  {
    hide Crowded, Reaches, Cost;
    forall o: Route | Reaches(t, stop, o)
      ensures Cost(o.dirs) > 230
    {
      if Cost(o.dirs) <= 230 { NotCrowded(t, stop, o); }
    }
  }

  lemma CheapestIsBest(t: Task, q: seq<Entry>, seen: set<Route>, cost: int, o: Route)
    requires Searching(t, q, seen) && Admissible(t, o) && o !in seen
    requires forall i | 0 <= i < |q| :: cost <= q[i].cost
    ensures cost <= Cost(o.dirs)
  {
    assert Covered(q, o);
    var i :| 0 <= i < |q| && Begins(q[i], o);
    PrefixCost(q[i].dirs, o.dirs);
  }
}
