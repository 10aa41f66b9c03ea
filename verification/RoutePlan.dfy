// Planning a whole round: findPath and translation of
// Lagerrobot/communication/nav_algorithm.py, on top of AStar (PathSearch.dfy).
module RoutePlan {
  import opened Prelude
  import opened PathSearch
  import opened Routes

  // ----- Walks -----

  predicate Pace(map_: Grid, o: Route, j: nat)
    requires 0 < j < |o.path| == |o.dirs|
  {
    o.dirs[j] in DIRECTIONS && o.path[j] == Toward(o.path[j - 1], o.dirs[j]) && Open(map_, o.path[j])
  }

  /** From cell to open neighbouring cell, each step noted with its absolute direction. */
  ghost predicate Walk(map_: Grid, o: Route) {
    && 0 < |o.path| == |o.dirs| && o.dirs[0] in DIRECTIONS
    && forall j {:trigger Pace(map_, o, j)} | 0 < j < |o.path| :: Pace(map_, o, j)
  }

  lemma AdmissibleIsWalk(t: Task, o: Route)
    requires Admissible(t, o) && t.direction in DIRECTIONS
    ensures Walk(t.map_, o)
  {
    forall j | 0 < j < |o.path|
      ensures Pace(t.map_, o, j)
    {
      assert Hop(t, o, j);
    }
  }

  function Join(a: Route, b: Route): Route
    requires b.path != [] && b.dirs != []
  {
    Route(a.path + b.path[1..], a.dirs + b.dirs[1..])
  }

  /** Walk b goes on where and as walk a ended. */
  predicate Meet(a: Route, b: Route) {
    && 0 < |a.path| == |a.dirs| && 0 < |b.path| == |b.dirs|
    && a.path[|a.path| - 1] == b.path[0] && a.dirs[|a.dirs| - 1] == b.dirs[0]
  }

  lemma JoinWalks(map_: Grid, a: Route, b: Route)
    requires Walk(map_, a) && Walk(map_, b) && Meet(a, b)
    ensures Walk(map_, Join(a, b))
    ensures Join(a, b).path[|Join(a, b).path| - 1] == b.path[|b.path| - 1]
  {
    var o := Join(a, b);
    hide Open, Toward;
    forall j | 0 < j < |o.path|
      ensures Pace(map_, o, j)
    {
      if j < |a.path| {
        assert Pace(map_, a, j);
      } else {
        var k := j - |a.path| + 1;
        assert Pace(map_, b, k);
        assert o.path[j] == b.path[k] && o.path[j - 1] == b.path[k - 1];
      }
    }
  }

  // ----- translation -----

  /** The direction after a turn: what the robot does with one entry of the translation. */
  function Face(facing: int, turn: int): int
    requires facing in DIRECTIONS && turn in DIRECTIONS
  {
    DIRECTIONS[(DirIndex(facing) + DirIndex(turn)) % 4]
  }

  /** The directions that a robot starting in direction `facing` takes when it follows the turns. */
  function Follow(facing: int, turns: seq<int>): (dirs: seq<int>)
    requires facing in DIRECTIONS && forall k | k in turns :: k in DIRECTIONS
    ensures |dirs| == |turns| + 1 && forall d | d in dirs :: d in DIRECTIONS
    decreases |turns|
  {
    if turns == [] then [facing]
    else
      var before := Follow(facing, turns[..|turns| - 1]);
      assert before[|before| - 1] in before;
      before + [Face(before[|before| - 1], turns[|turns| - 1])]
  }

  lemma FaceUndoesTurn(facing: int, d: int)
    requires facing in DIRECTIONS && d in DIRECTIONS
    ensures Turn(facing, d) in DIRECTIONS && Face(facing, Turn(facing, d)) == d
  {
    var i: int, j: int := DirIndex(facing), DirIndex(d);
    assert 0 <= (j - i) % 4 < 4 && (i + (j - i) % 4) % 4 == j;
    hide DirIndex;
    IndexOfDirection((j - i) % 4);
  }

  lemma IndexOfDirection(k: nat)
    requires k < 4
    ensures DIRECTIONS[k] in DIRECTIONS && DirIndex(DIRECTIONS[k]) == k
  {
  }

  /** Exactly one neighbour of c lies in the cell one step in direction d. */
  lemma AroundFacing(c: Coord, dir: int, d: int, n: Neighbour)
    requires dir in DIRECTIONS && d in DIRECTIONS
    ensures Neighbour(Toward(c, d), Turn(dir, d)) in Around(c, dir)
    ensures n in Around(c, dir) && n.at == Toward(c, d) ==> n.dir == Turn(dir, d)
  {
    var s := Around(c, dir);
    assert s[0] == Neighbour(Toward(c, -2), Turn(dir, -2)) && s[1] == Neighbour(Toward(c, 2), Turn(dir, 2))
        && s[2] == Neighbour(Toward(c, 1), Turn(dir, 1)) && s[3] == Neighbour(Toward(c, -1), Turn(dir, -1));
    hide Turn;
  }

  /** Following the turns found so far goes the first i steps of the walk. */
  ghost predicate Translated(o: Route, i: nat, turns: seq<int>) {
    && i < |o.dirs| && o.dirs[0] in DIRECTIONS
    && (forall k | k in turns :: k in DIRECTIONS) && Follow(o.dirs[0], turns) == o.dirs[..i + 1]
  }

  lemma TranslatedStep(map_: Grid, o: Route, i: nat, turns: seq<int>, turn: int)
    requires Walk(map_, o) && Translated(o, i, turns) && i + 1 < |o.dirs|
    requires o.dirs[i] in DIRECTIONS && o.dirs[i + 1] in DIRECTIONS && turn == Turn(o.dirs[i], o.dirs[i + 1])
    ensures Translated(o, i + 1, turns + [turn])
  {
    FaceUndoesTurn(o.dirs[i], o.dirs[i + 1]);
    hide Turn, Face;
    assert (turns + [turn])[..|turns|] == turns;
    assert o.dirs[..i + 2] == o.dirs[..i + 1] + [o.dirs[i + 1]];
  }

  /** translation; None when it raises an exception. */
  method Translation(map_: Grid, pathDir: seq<int>, path: seq<Coord>) returns (r: Option<seq<int>>)
    ensures Walk(map_, Route(path, pathDir)) ==>
              (r.Some? <==> forall i | 0 <= i < |path| - 1 :: Inside(map_, path[i]))
    ensures Walk(map_, Route(path, pathDir)) && r.Some? ==> Translated(Route(path, pathDir), |pathDir| - 1, r.value)
  {
    hide Inside, Around, OpenOnes, Open, Toward, Turn, Follow;
    ghost var o := Route(path, pathDir);
    var turns: seq<int> := [];
    if pathDir == [] {
      return Some([]);
    }
    assert Walk(map_, o) ==> Translated(o, 0, turns) by { TranslatedStart(o); }
    for i := 0 to |pathDir| - 1
      invariant Walk(map_, o) ==> forall j | 0 <= j < i :: Inside(map_, path[j])
      invariant Walk(map_, o) ==> Translated(o, i, turns)
    {
      assert Walk(map_, o) && i > 0 ==> Pace(map_, o, i);
      assert Walk(map_, o) ==> Pace(map_, o, i + 1);
      if pathDir[i] !in DIRECTIONS || |path| <= i + 1 {
        return None; // ValueError, IndexError
      }
      var neighbours := Neighbours(map_, path[i], pathDir[i]);
      if neighbours == None {
        return None; // IndexError
      }
      var turn := PickTurn(map_, path[i], pathDir[i], path[i + 1], neighbours.value);
      if turn == None {
        return None; // IndexError
      }
      if Walk(map_, o) {
        TranslatedStep(map_, o, i, turns, turn.value);
      }
      turns := turns + [turn.value];
    }
    r := Some(turns);
  }

  lemma TranslatedStart(o: Route)
    ensures o.dirs != [] && o.dirs[0] in DIRECTIONS ==> Translated(o, 0, [])
  {
    if o.dirs != [] { assert o.dirs[..1] == [o.dirs[0]]; }
  }

  /** The cells that a robot visits that starts at c and moves in the directions after the first. */
  function Trace(c: Coord, dirs: seq<int>): (path: seq<Coord>)
    ensures |path| == (if dirs == [] then 1 else |dirs|)
    decreases |dirs|
  {
    if |dirs| <= 1 then [c]
    else
      var before := Trace(c, dirs[..|dirs| - 1]);
      before + [Toward(before[|before| - 1], dirs[|dirs| - 1])]
  }

  lemma {:induction false} WalkIsTrace(map_: Grid, o: Route, n: nat)
    requires Walk(map_, o) && 0 < n <= |o.path|
    ensures Trace(o.path[0], o.dirs[..n]) == o.path[..n]
  {
    if n > 1 {
      WalkIsTrace(map_, o, n - 1);
      assert o.dirs[..n][..n - 1] == o.dirs[..n - 1];
      assert Pace(map_, o, n - 1);
      assert o.path[..n] == o.path[..n - 1] + [o.path[n - 1]];
    }
  }

  /** Who starts at c facing dir and follows the turns goes route o, cell by cell. */
  ghost predicate Carries(c: Coord, dir: int, turns: seq<int>, o: Route) {
    && dir in DIRECTIONS && (forall k | k in turns :: k in DIRECTIONS)
    && Follow(dir, turns) == o.dirs && Trace(c, Follow(dir, turns)) == o.path
  }

  /** Nothing of a walk is lost in its translation. */
  lemma TranslationRoundTrip(map_: Grid, o: Route, turns: seq<int>)
    requires Walk(map_, o) && Translated(o, |o.dirs| - 1, turns)
    ensures Carries(o.path[0], o.dirs[0], turns, o)
  {
    assert o.dirs[..|o.dirs|] == o.dirs && o.path[..|o.path|] == o.path;
    WalkIsTrace(map_, o, |o.path|);
  }

  /** The inner loop of translation: the turn towards `next`; that of the first neighbour when
      `next` is none of them, and None when there are none. */
  method PickTurn(map_: Grid, c: Coord, dir: int, next: Coord, ns: seq<Neighbour>) returns (r: Option<int>)
    requires dir in DIRECTIONS && ns == OpenOnes(map_, Around(c, dir))
    ensures r == None <==> ns == []
    ensures forall d | d in DIRECTIONS && next == Toward(c, d) && Open(map_, next) :: r == Some(Turn(dir, d))
  {
    var index := 0;
    for j := 0 to |ns|
      invariant 0 <= index && (index < j || index == 0)
      invariant (exists k | 0 <= k < j :: ns[k].at == next) ==> ns[index].at == next
    {
      if ns[j].at == next {
        index := j;
      }
    }
    forall d | d in DIRECTIONS && next == Toward(c, d) && Open(map_, next)
      ensures ns != [] && ns[index].dir == Turn(dir, d)
    {
      var n := Neighbour(next, Turn(dir, d));
      AroundFacing(c, dir, d, n);
      OpenOnesMember(map_, Around(c, dir), n);
      var k :| 0 <= k < |ns| && ns[k] == n;
      assert ns[k].at == next;
      OpenOnesMember(map_, Around(c, dir), ns[index]);
      AroundFacing(c, dir, d, ns[index]);
    }
    r := if ns == [] then None else Some(ns[index].dir);
  }

  // ----- findPath -----

  /** The path comes to the stops in their order. */
  ghost predicate Visits(path: seq<Coord>, stops: seq<Coord>)
    decreases |stops|
  {
    stops == [] ||
    exists k :: 0 <= k < |path| && path[k] == stops[|stops| - 1] && Visits(path[..k + 1], stops[..|stops| - 1])
  }

  lemma {:induction false} VisitsMore(path: seq<Coord>, more: seq<Coord>, stops: seq<Coord>)
    requires Visits(path, stops)
    ensures Visits(path + more, stops)
  {
    if stops != [] {
      var k :| 0 <= k < |path| && path[k] == stops[|stops| - 1] && Visits(path[..k + 1], stops[..|stops| - 1]);
      assert (path + more)[..k + 1] == path[..k + 1];
    }
  }

  lemma VisitsNext(path: seq<Coord>, more: seq<Coord>, stops: seq<Coord>, stop: Coord)
    requires Visits(path, stops) && path + more != [] && (path + more)[|path + more| - 1] == stop
    ensures Visits(path + more, stops + [stop])
  {
    var o := path + more;
    VisitsMore(path, more, stops);
    assert (stops + [stop])[..|stops|] == stops && o[..|o|] == o;
  }

  /** What findPath plans for: where the robot starts, the way it faces, and the pickup points. */
  datatype Trip = Trip(map_: Grid, items: seq<Coord>, start: Coord, dir: int)

  function End(o: Route): Coord
    requires o.path != []
  {
    o.path[|o.path| - 1]
  }

  function Facing(o: Route): int
    requires o.dirs != []
  {
    o.dirs[|o.dirs| - 1]
  }

  /** A walk that visits the stops, the last one at its end, and takes this time. */
  ghost predicate Serves(trip: Trip, stops: seq<Coord>, o: Route, time: int) {
    && Walk(trip.map_, o) && o.path[0] == trip.start && o.dirs[0] == trip.dir
    && End(o) == (if stops == [] then trip.start else stops[|stops| - 1])
    && Visits(o.path, stops) && time == Cost(o.dirs)
  }

  /** The next leg of a robot at prev that faces this way: it leaves a pickup point straight ahead. */
  function LegTask(trip: Trip, prev: Coord, direction: int): Task {
    Task(trip.map_, prev, direction, prev in trip.items && prev != trip.start)
  }

  /** Round o goes on from round a with leg b to the stop, a least one if `least`. */
  ghost predicate AddsLeg(trip: Trip, a: Route, stop: Coord, b: Route, least: bool, o: Route) {
    && a.path != [] && a.dirs != [] && b.path != [] && b.dirs != [] && o == Join(a, b)
    && Reaches(LegTask(trip, End(a), Facing(a)), stop, b)
    && (least ==> Least(LegTask(trip, End(a), Facing(a)), stop, b))
  }

  /** A round made of one admissible leg for each stop, and its time, the sum of their costs.
      With `least` each leg costs least from where, and facing as, the one before it ended. */
  ghost predicate ByLegs(trip: Trip, stops: seq<Coord>, least: bool, o: Route, time: int)
    decreases |stops|, 0
  {
    if stops == [] then o == Route([trip.start], [trip.dir]) && time == 0
    else OneMoreLeg(trip, stops[..|stops| - 1], stops[|stops| - 1], least, o, time)
  }

  ghost predicate OneMoreLeg(trip: Trip, before: seq<Coord>, stop: Coord, least: bool, o: Route, time: int)
    decreases |before|, 1
  {
    exists a: Route, s: int, b: Route ::
      ByLegs(trip, before, least, a, s) && AddsLeg(trip, a, stop, b, least, o) && time == s + Cost(b.dirs)
  }

  lemma MoreLegs(trip: Trip, stops: seq<Coord>, least: bool, a: Route, s: int, stop: Coord, b: Route, o: Route)
    requires ByLegs(trip, stops, least, a, s) && AddsLeg(trip, a, stop, b, least, o)
    ensures ByLegs(trip, stops + [stop], least, o, s + Cost(b.dirs))
  {
    assert (stops + [stop])[..|stops|] == stops;
    hide AddsLeg;
    assert OneMoreLeg(trip, stops, stop, least, o, s + Cost(b.dirs));
  }

  /** What a leg adds to what the round before it serves. */
  lemma ServesNext(trip: Trip, stops: seq<Coord>, a: Route, s: int, stop: Coord, b: Route, least: bool, o: Route)
    requires Serves(trip, stops, a, s) && AddsLeg(trip, a, stop, b, least, o) && Facing(a) in DIRECTIONS
    ensures Serves(trip, stops + [stop], o, s + Cost(b.dirs))
    ensures Facing(o) in DIRECTIONS
  {
    var t := LegTask(trip, End(a), Facing(a));
    AdmissibleIsWalk(t, b);
    JoinWalks(t.map_, a, b);
    JoinCost(a.dirs, b.dirs);
    VisitsNext(a.path, b.path[1..], stops, stop);
    assert |o.path| > 1 ==> Pace(t.map_, o, |o.path| - 1);
  }

  lemma LastLeg(trip: Trip, stops: seq<Coord>, least: bool, o: Route, time: int) returns (a: Route, s: int, b: Route)
    requires ByLegs(trip, stops, least, o, time) && stops != []
    ensures ByLegs(trip, stops[..|stops| - 1], least, a, s)
    ensures AddsLeg(trip, a, stops[|stops| - 1], b, least, o) && time == s + Cost(b.dirs)
  {
    hide AddsLeg, Cost;
    var before, stop := stops[..|stops| - 1], stops[|stops| - 1];
    assert OneMoreLeg(trip, before, stop, least, o, time);
    hide ByLegs;
    a, s, b :| ByLegs(trip, before, least, a, s) && AddsLeg(trip, a, stop, b, least, o) && time == s + Cost(b.dirs);
  }

  lemma NoLegServes(trip: Trip, least: bool, o: Route, time: int)
    requires trip.dir in DIRECTIONS && ByLegs(trip, [], least, o, time)
    ensures Serves(trip, [], o, time) && Facing(o) in DIRECTIONS
  {
  }

  /** A round is a walk that visits the stops in their order, and its time is the cost along it. */
  lemma {:induction false} ByLegsServes(trip: Trip, stops: seq<Coord>, least: bool, o: Route, time: int)
    requires trip.dir in DIRECTIONS && ByLegs(trip, stops, least, o, time)
    ensures Serves(trip, stops, o, time) && Facing(o) in DIRECTIONS
    decreases |stops|
  {
    hide ByLegs, AddsLeg, Serves;
    if stops == [] {
      NoLegServes(trip, least, o, time);
    } else {
      var before, stop := stops[..|stops| - 1], stops[|stops| - 1];
      var a, s, b := LastLeg(trip, stops, least, o, time);
      ByLegsServes(trip, before, least, a, s);
      ServesNext(trip, before, a, s, stop, b, least, o);
      assert before + [stop] == stops;
    }
  }

  /** AStar finds nothing: there is no route, or it raises IndexError or gives up on the way to one. */
  ghost predicate TaskFails(t: Task, stop: Coord) {
    || (forall o: Route :: !Reaches(t, stop, o))
    || (exists o :: OutsideRival(t, stop, o))
    || Crowded(t, stop)
  }

  ghost predicate StrandsAt(trip: Trip, stops: seq<Coord>, k: nat, a: Route, s: int) {
    && k < |stops| && ByLegs(trip, stops[..k], true, a, s) && a.path != [] && a.dirs != []
    && TaskFails(LegTask(trip, End(a), Facing(a)), stops[k])
  }

  /** Some least legs lead to a place from where AStar fails. */
  ghost predicate Strands(trip: Trip, stops: seq<Coord>) {
    exists k, a, s :: StrandsAt(trip, stops, k, a, s)
  }

  /** AStar for one leg; None when it returns -1 or raises IndexError. */
  method FindLeg(map_: Grid, start: Coord, stop: Coord, direction: int, straight: bool, pq: PriorityQueue)
    returns (r: Option<Route>, cost: int)
    requires pq.q == []
    modifies pq
    ensures r.Some? ==>
              && Least(Task(map_, start, direction, straight), stop, r.value)
              && cost == Cost(r.value.dirs) && Explored(map_, r.value.path) && pq.q == []
    ensures r == None ==> TaskFails(Task(map_, start, direction, straight), stop)
  {
    hide Least, Reaches, OutsideRival, Crowded, Explored;
    var leg, iterations := AStar(map_, start, stop, direction, straight, pq);
    if !leg.Found? {
      return None, 0;
    }
    return Some(Route(leg.path, leg.dirs)), leg.cost;
  }

  lemma ExploredJoin(map_: Grid, a: Route, b: Route)
    requires Meet(a, b) && Explored(map_, a.path) && Explored(map_, b.path)
    ensures Explored(map_, Join(a, b).path)
  {
    hide Inside;
    var path := Join(a, b).path;
    forall i | 0 <= i < |path| - 1
      ensures Inside(map_, path[i])
    {
      assert path[i] == if i < |a.path| - 1 then a.path[i] else b.path[i - (|a.path| - 1)];
    }
  }

  /** Where the planning of a round is: at the last stop so far. */
  ghost predicate OnRound(trip: Trip, stops: seq<Coord>, o: Route, time: int, prev: Coord, direction: int) {
    && ByLegs(trip, stops, true, o, time) && 0 < |o.path| == |o.dirs| && prev == End(o) && direction == Facing(o)
    && direction in DIRECTIONS && Explored(trip.map_, o.path)
  }

  /** How a leg begins and ends. */
  lemma LegShape(t: Task, stop: Coord, b: Route)
    requires Reaches(t, stop, b) && t.direction in DIRECTIONS
    ensures 0 < |b.path| == |b.dirs| && b.path[0] == t.start && b.dirs[0] == t.direction
    ensures End(b) == stop && Facing(b) in DIRECTIONS
  {
    AdmissibleIsWalk(t, b);
    assert |b.path| > 1 ==> Pace(t.map_, b, |b.path| - 1);
  }

  lemma OnRoundNext(trip: Trip, stops: seq<Coord>, o: Route, time: int, prev: Coord, direction: int,
                    stop: Coord, b: Route)
    requires OnRound(trip, stops, o, time, prev, direction)
    requires Least(LegTask(trip, prev, direction), stop, b) && Explored(trip.map_, b.path)
    ensures b.path != [] && b.dirs != [] && Join(o, b).dirs != []
    ensures OnRound(trip, stops + [stop], Join(o, b), time + Cost(b.dirs), stop, Facing(Join(o, b)))
  {
    hide ByLegs, Reaches, Explored, NotWorse, Cost;
    LegShape(LegTask(trip, prev, direction), stop, b);
    ExploredJoin(trip.map_, o, b);
    assert AddsLeg(trip, o, stop, b, true, Join(o, b));
    hide Least, AddsLeg;
    MoreLegs(trip, stops, true, o, time, stop, b, Join(o, b));
  }

  /** The round of findPath for one order of the stops; None when a leg fails. */
  method VisitInOrder(map_: Grid, items: seq<Coord>, startPos: Coord, startDir: int, stops: seq<Coord>,
                      pq: PriorityQueue)
    returns (r: Option<Route>, time: int)
    requires startDir in DIRECTIONS && pq.q == []
    modifies pq
    ensures r.Some? ==>
              && ByLegs(Trip(map_, items, startPos, startDir), stops, true, r.value, time)
              && Explored(map_, r.value.path) && pq.q == []
    ensures r == None ==> Strands(Trip(map_, items, startPos, startDir), stops)
  {
    ghost var trip := Trip(map_, items, startPos, startDir);
    time := 0;
    var direction := startDir;
    var complete := Route([startPos], [direction]);
    var prevItem := startPos;
    assert stops[..0] == [];
    assert OnRound(trip, stops[..0], complete, time, prevItem, direction);
    hide ByLegs, Least, TaskFails, Explored;
    for i := 0 to |stops|
      invariant pq.q == [] && OnRound(trip, stops[..i], complete, time, prevItem, direction)
    {
      var isPickupPoint := prevItem in items && prevItem != startPos;
      var toProduct, cost := FindLeg(map_, prevItem, stops[i], direction, isPickupPoint, pq);
      if toProduct == None {
        assert StrandsAt(trip, stops, i, complete, time);
        return None, time;
      }
      OnRoundNext(trip, stops[..i], complete, time, prevItem, direction, stops[i], toProduct.value);
      assert stops[..i + 1] == stops[..i] + [stops[i]];
      time := time + cost;
      complete := Join(complete, toProduct.value);
      prevItem := stops[i];
      direction := complete.dirs[|complete.dirs| - 1];
    }
    assert stops[..|stops|] == stops;
    r := Some(complete);
  }

  /** For each order a round of least legs and its time; round k is the first of the quickest. */
  ghost predicate Quickest(trip: Trip, orders: seq<seq<Coord>>, rounds: seq<Route>, times: seq<int>, k: nat) {
    && |rounds| == |times| == |orders| && k < |orders|
    && (forall j | 0 <= j < |orders| :: ByLegs(trip, orders[j], true, rounds[j], times[j]))
    && (forall j | 0 <= j < |orders| :: times[k] <= times[j])
    && (forall j | 0 <= j < k :: times[k] < times[j])
  }

  /** The outer loop of findPath. */
  method BestRound(map_: Grid, items: seq<Coord>, orders: seq<seq<Coord>>, startPos: Coord, startDir: int,
                   pq: PriorityQueue)
    returns (r: Option<Route>, ghost rounds: seq<Route>, ghost times: seq<int>, ghost k: nat)
    requires startDir in DIRECTIONS && pq.q == []
    modifies pq
    ensures r.Some? ==>
              && Quickest(Trip(map_, items, startPos, startDir), orders, rounds, times, k)
              && r.value == rounds[k] && Explored(map_, r.value.path)
    ensures r == None ==>
              orders == [] || exists j :: 0 <= j < |orders| && Strands(Trip(map_, items, startPos, startDir), orders[j])
  {
    hide ByLegs, Strands, Explored;
    ghost var trip := Trip(map_, items, startPos, startDir);
    rounds, times, r, k := [], [], None, 0;
    var bestTime := 0;
    for i := 0 to |orders|
      invariant pq.q == [] && |rounds| == |times| == i && (r == None <==> i == 0)
      invariant forall j | 0 <= j < i :: ByLegs(trip, orders[j], true, rounds[j], times[j])
      invariant r.Some? ==> k < i && times[k] == bestTime && r.value == rounds[k] && Explored(map_, r.value.path)
      invariant r.Some? ==> forall j | 0 <= j < i :: bestTime <= times[j]
      invariant r.Some? ==> forall j | 0 <= j < k :: bestTime < times[j]
    {
      var complete, time := VisitInOrder(map_, items, startPos, startDir, orders[i], pq);
      if complete == None {
        return None, rounds, times, k;
      }
      rounds, times := rounds + [complete.value], times + [time];
      if r == None || time < bestTime {
        bestTime, r, k := time, complete, i;
      }
    }
  }

  const STOP_POSITION := Coord(11, 12)

  /** The items in some order, and then the stop position. */
  ghost predicate IsOrder(items: seq<Coord>, stops: seq<Coord>) {
    && |stops| == |items| + 1 && stops[|items|] == STOP_POSITION
    && multiset(stops[..|items|]) == multiset(items)
  }

  lemma ItemsAreOrder(items: seq<Coord>)
    ensures IsOrder(items, items + [STOP_POSITION])
  {
    assert (items + [STOP_POSITION])[..|items|] == items;
  }

  /** findPath; `orders` are pickup_order, which comes from itertools.permutations.  The translation
      of the best round cannot fail. */
  method FindPath(map_: Grid, items: seq<Coord>, orders: seq<seq<Coord>>, startPos: Coord, startDir: int,
                  pq: PriorityQueue)
    returns (r: Option<(Route, seq<int>)>, ghost rounds: seq<Route>, ghost times: seq<int>, ghost k: nat)
    requires startDir in DIRECTIONS && pq.q == []
    requires forall stops :: stops in orders <==> IsOrder(items, stops)
    modifies pq
    ensures r.Some? ==>
              && Quickest(Trip(map_, items, startPos, startDir), orders, rounds, times, k) && r.value.0 == rounds[k]
              && IsOrder(items, orders[k])
              && Serves(Trip(map_, items, startPos, startDir), orders[k], rounds[k], times[k])
              && Carries(startPos, startDir, r.value.1, r.value.0)
    ensures r == None ==>
              exists stops :: IsOrder(items, stops) && Strands(Trip(map_, items, startPos, startDir), stops)
  {
    ItemsAreOrder(items);
    hide IsOrder, Strands, Translated, Carries, Visits, ByLegs, Inside;
    var o;
    o, rounds, times, k := BestRound(map_, items, orders, startPos, startDir, pq);
    if o == None {
      ghost var j :| 0 <= j < |orders| && Strands(Trip(map_, items, startPos, startDir), orders[j]);
      assert orders[j] in orders;
      return None, rounds, times, k;
    }
    assert orders[k] in orders;
    ByLegsServes(Trip(map_, items, startPos, startDir), orders[k], true, o.value, times[k]);
    assert o.value == Route(o.value.path, o.value.dirs);
    var turns := Translation(map_, o.value.dirs, o.value.path);
    assert forall i | 0 <= i < |o.value.path| - 1 :: Inside(map_, o.value.path[i]);
    TranslationRoundTrip(map_, o.value, turns.value);
    r := Some((o.value, turns.value));
  }
}
