// How many routes cost little, and so which ones AStar of
// Lagerrobot/communication/nav_algorithm.py comes to before it gives up.
module RouteCount {
  import opened Routes

  /** At most so many routes that begin at a given cell, facing a given way, cost 10 * k or less: the
      one of that cell alone, and those that first go straight ahead, to a side, or back. */
  function Most(k: int): nat
    decreases if k < 0 then 0 else k + 1
  {
    if k < 0 then 0 else 1 + Most(k - 1) + 2 * Most(k - 5) + Most(k - 9)
  }

  predicate Step(o: Route, j: nat)
    requires 0 < j < |o.path| == |o.dirs|
  {
    o.dirs[j] in DIRECTIONS && o.path[j] == Toward(o.path[j - 1], o.dirs[j])
  }

  /** A route from cell c, facing d, over open and closed cells alike. */
  ghost predicate Begun(c: Coord, d: int, k: int, o: Route) {
    && 0 < |o.path| == |o.dirs| && o.path[0] == c && o.dirs[0] == d && Cost(o.dirs) <= 10 * k
    && forall j {:trigger Step(o, j)} | 0 < j < |o.path| :: Step(o, j)
  }

  ghost predicate AllBegun(c: Coord, d: int, k: int, s: set<Route>) { forall o | o in s :: Begun(c, d, k, o) }

  /** The routes whose first step is in direction e. */
  ghost function Going(s: set<Route>, e: int): set<Route> { set o | o in s && |o.dirs| > 1 && o.dirs[1] == e }

  /** The route without its first cell. */
  function Tail(o: Route): Route
    requires o.path != [] && o.dirs != []
  {
    Route(o.path[1..], o.dirs[1..])
  }

  /** The first step costs 10 * m, and the rest costs what is left. */
  lemma TailBegun(c: Coord, d: int, k: int, o: Route, m: nat)
    requires Begun(c, d, k, o) && |o.dirs| > 1 && MoveCost(d, o.dirs[1]) == 10 * m
    ensures o.dirs[1] in DIRECTIONS && Begun(Toward(c, o.dirs[1]), o.dirs[1], k - m, Tail(o))
  {
    hide Toward, MoveCost;
    assert Step(o, 1);
    var r := Tail(o);
    FirstCost(o.dirs);
    hide Cost;
    forall j | 0 < j < |r.path|
      ensures Step(r, j)
    {
      assert Step(o, j + 1);
    }
  }

  lemma FirstCost(dirs: seq<int>)
    requires |dirs| > 1
    ensures Cost(dirs) == MoveCost(dirs[0], dirs[1]) + Cost(dirs[1..])
  {
    hide MoveCost;
    JoinCost([dirs[0], dirs[1]], dirs[1..]);
    assert [dirs[0], dirs[1]] + dirs[1..][1..] == dirs;
    assert [dirs[0], dirs[1]][..1] == [dirs[0]];
  }

  lemma SameTail(c: Coord, d: int, k: int, o: Route, p: Route)
    requires Begun(c, d, k, o) && Begun(c, d, k, p) && Tail(o) == Tail(p)
    ensures o == p
  {
    hide Cost, Step;
    assert o.path == [c] + Tail(o).path && p.path == [c] + Tail(p).path;
    assert o.dirs == [d] + Tail(o).dirs && p.dirs == [d] + Tail(p).dirs;
  }

  /** As many tails as routes. */
  lemma {:induction false} Tails(c: Coord, d: int, k: int, s: set<Route>) returns (r: set<Route>)
    requires AllBegun(c, d, k, s)
    ensures |r| == |s| && forall p :: p in r <==> exists o :: o in s && p == Tail(o)
    decreases |s|
  {
    hide Cost, Step;
    if s == {} {
      r := {};
    } else {
      var x :| x in s;
      r := Tails(c, d, k, s - {x});
      forall o | o in s && Tail(o) == Tail(x)
        ensures o == x
      {
        SameTail(c, d, k, o, x);
      }
      assert Tail(x) !in r;
      r := r + {Tail(x)};
    }
  }

  lemma {:induction false} FewGoing(c: Coord, d: int, k: int, s: set<Route>, e: int, m: nat)
    requires AllBegun(c, d, k, s) && e in DIRECTIONS && MoveCost(d, e) == 10 * m && m > 0
    ensures |Going(s, e)| <= Most(k - m)
    decreases if k < 0 then 0 else k + 1, 0
  {
    hide Most, MoveCost, Cost, Step;
    var r := Tails(c, d, k, Going(s, e));
    forall p | p in r
      ensures Begun(Toward(c, e), e, k - m, p)
    {
      var o :| o in Going(s, e) && p == Tail(o);
      TailBegun(c, d, k, o, m);
    }
    if k < 0 {
      NoneBegun(c, d, k, s);
    } else {
      FewRoutes(Toward(c, e), e, k - m, r);
    }
  }

  lemma NoneBegun(c: Coord, d: int, k: int, s: set<Route>)
    requires AllBegun(c, d, k, s) && k < 0
    ensures s == {}
  {
    assert forall o | o in s :: Begun(c, d, k, o);
  }

  lemma SizeOfUnion<T>(s: set<T>, a: set<T>, b: set<T>)
    requires s <= a + b
    ensures |s| <= |a| + |b|
  {
    assert a + b == s + (a + b - s);
  }

  /** A route has one cell or goes on in one of the four directions. */
  lemma FirstSteps(c: Coord, d: int, k: int, s: set<Route>)
    requires AllBegun(c, d, k, s)
    ensures |s| <= 1 + |Going(s, 1)| + |Going(s, -1)| + |Going(s, 2)| + |Going(s, -2)|
  {
    hide Cost;
    forall o | o in s
      ensures o in {Route([c], [d])} + (Going(s, 1) + Going(s, -1) + (Going(s, 2) + Going(s, -2)))
    {
      FirstStep(c, d, k, o);
    }
    hide *;
    SizeOfUnion(s, {Route([c], [d])}, Going(s, 1) + Going(s, -1) + (Going(s, 2) + Going(s, -2)));
  }

  lemma FirstStep(c: Coord, d: int, k: int, o: Route)
    requires Begun(c, d, k, o)
    ensures o == Route([c], [d]) || (|o.dirs| > 1 && o.dirs[1] in DIRECTIONS)
  {
    hide Cost;
    if |o.dirs| > 1 {
      assert Step(o, 1);
    } else {
      assert o.path == [c] && o.dirs == [d];
    }
  }

  lemma MostNext(k: nat)
    ensures Most(k) == 1 + Most(k - 1) + 2 * Most(k - 5) + Most(k - 9)
  {
  }

  lemma {:induction false} FewRoutes(c: Coord, d: int, k: int, s: set<Route>)
    requires AllBegun(c, d, k, s) && d in DIRECTIONS
    ensures |s| <= Most(k)
    decreases if k < 0 then 0 else k + 1, 1
  {
    hide AllBegun, Going, Most;
    if k < 0 {
      NoneBegun(c, d, k, s);
    } else {
      MostNext(k);
      FirstSteps(c, d, k, s);
      FewGoing(c, d, k, s, d, 1);
      FewGoing(c, d, k, s, -d, 9);
      if d == 1 || d == -1 {
        FewGoing(c, d, k, s, 2, 5);
        FewGoing(c, d, k, s, -2, 5);
      } else {
        FewGoing(c, d, k, s, 1, 5);
        FewGoing(c, d, k, s, -1, 5);
      }
    }
  }

  lemma MostFor230()
    ensures Most(18) == 1365 && Most(23) == 9402
  {
    assert Most(0) == 1 && Most(1) == 2 && Most(2) == 3 && Most(3) == 4 && Most(4) == 5;
    assert Most(5) == 8 && Most(6) == 13 && Most(7) == 20 && Most(8) == 29 && Most(9) == 41;
    assert Most(10) == 60 && Most(11) == 90 && Most(12) == 135 && Most(13) == 199 && Most(14) == 290;
    assert Most(15) == 424 && Most(16) == 625 && Most(17) == 925 && Most(18) == 1365 && Most(19) == 2006;
    assert Most(20) == 2945 && Most(21) == 4331 && Most(22) == 6381;
  }

  /** Of the admissible routes of a task at most 9402 cost 230 or less. */
  lemma FewAdmissible(t: Task, s: set<Route>)
    requires forall o | o in s :: Admissible(t, o) && Cost(o.dirs) <= 230
    ensures |s| <= 9402
  {
    hide Most, Going, Cost, Open;
    forall o | o in s
      ensures Begun(t.start, t.direction, 23, o)
    {
      assert forall j | 0 < j < |o.path| :: Hop(t, o, j) ==> Step(o, j);
    }
    MostFor230();
    if t.direction in DIRECTIONS {
      FewRoutes(t.start, t.direction, 23, s);
    } else {
      hide AllBegun;
      FirstSteps(t.start, t.direction, 23, s);
      FewGoing(t.start, t.direction, 23, s, 1, 5);
      FewGoing(t.start, t.direction, 23, s, 2, 5);
      FewGoing(t.start, t.direction, 23, s, -1, 5);
      FewGoing(t.start, t.direction, 23, s, -2, 5);
    }
  }

  /** AStar does not give up on the way to a stop that a route of cost 230 leads to. */
  lemma NotCrowded(t: Task, stop: Coord, o: Route)
    requires Reaches(t, stop, o) && Cost(o.dirs) <= 230
    ensures !Crowded(t, stop)
  {
    hide Cost, Admissible;
    forall seen: set<Route> | AllRivals(t, stop, seen)
      ensures |seen| <= 9402
    {
      forall p | p in seen
        ensures Admissible(t, p) && Cost(p.dirs) <= 230
      {
        assert Rival(t, stop, p);
      }
      FewAdmissible(t, seen);
    }
  }
}
