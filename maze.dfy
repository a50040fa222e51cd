/**
 * The maze solver: find every route from the start cell `S` to a goal cell
 * `G`, walking up, down, left and right over cells that are not walls `#`,
 * with a queue of partial routes and ONE visited set shared by all of them.
 * A cell is marked visited when a route ending in it is taken off the queue,
 * not when it is discovered. The answer is the fewest steps of any route
 * found, which is the fewest steps of any route in the maze: breadth-first
 * order takes routes off the queue shortest first, so a cell is marked by a
 * shortest route to it (`SearchComplete`).
 */
module Maze {
  import opened Results
  import opened Grid

  type Route = seq<Cell>

  // ---------------------------------------------------------------------------
  // Cell tests
  // ---------------------------------------------------------------------------

  /** `isWall`: only ever asked of in-bounds cells. */
  predicate IsWall(g: Grid, c: Cell)
    requires InBounds(g, c)
  {
    At(g, c) == '#'
  }

  /**
   * `isCandidateCell`: inside the maze, not yet visited, not a wall. The
   * conjunction is evaluated left to right, so the wall test only reads
   * in-bounds cells.
   */
  predicate IsCandidateCell(g: Grid, visited: set<Cell>, c: Cell) {
    InBounds(g, c) && c !in visited && !IsWall(g, c)
  }

  /** A cell a route may step on. */
  predicate IsOpen(g: Grid, c: Cell) {
    InBounds(g, c) && At(g, c) != '#'
  }

  /** A cell holding the goal marker. */
  predicate IsGoal(g: Grid, c: Cell) {
    InBounds(g, c) && At(g, c) == 'G'
  }

  // ---------------------------------------------------------------------------
  // The four neighbour getters
  // ---------------------------------------------------------------------------

  datatype Direction = Up | Down | Left | Right

  /** The order in which the neighbours of the current cell are tried. */
  const Directions: seq<Direction> := [Up, Down, Left, Right]

  /** The neighbour at the fixed offset of a direction. */
  function Step(c: Cell, d: Direction): Cell {
    match d
    case Up => Cell(c.row - 1, c.column)
    case Down => Cell(c.row + 1, c.column)
    case Left => Cell(c.row, c.column - 1)
    case Right => Cell(c.row, c.column + 1)
  }

  /** Two cells that share a side. */
  predicate Adjacent(a: Cell, b: Cell) {
    || (a.row == b.row && (a.column == b.column + 1 || b.column == a.column + 1))
    || (a.column == b.column && (a.row == b.row + 1 || b.row == a.row + 1))
  }

  /** The four directions reach exactly the cells that share a side with `c`, each a different one. */
  lemma DirectionsCoverNeighbours(c: Cell, n: Cell)
    ensures Adjacent(c, n) <==> exists d :: Step(c, d) == n
    ensures forall i, j :: 0 <= i < j < |Directions| ==> Step(c, Directions[i]) != Step(c, Directions[j])
  {
    if Adjacent(c, n) {
      if n.row == c.row - 1 { assert Step(c, Up) == n; }
      else if n.row == c.row + 1 { assert Step(c, Down) == n; }
      else if n.column == c.column - 1 { assert Step(c, Left) == n; }
      else { assert Step(c, Right) == n; }
    }
  }

  /**
   * `getUpwardCell`, `getDownwardCell`, `getLeftCell`, `getRightCell`: the
   * neighbour in direction `d` when it is a candidate, otherwise nothing.
   */
  function GetCell(g: Grid, visited: set<Cell>, c: Cell, d: Direction): (next: Option<Cell>)
    ensures next.Some? <==> InBounds(g, Step(c, d)) && Step(c, d) !in visited && At(g, Step(c, d)) != '#'
    ensures next.Some? ==> next.value == Step(c, d) && Adjacent(c, next.value)
  {
    var n := Step(c, d);
    if IsCandidateCell(g, visited, n) then Some(n) else None
  }

  // ---------------------------------------------------------------------------
  // Routes
  // ---------------------------------------------------------------------------

  /** No cell occurs twice. */
  predicate Distinct(r: Route) {
    forall i, j :: 0 <= i < j < |r| ==> r[i] != r[j]
  }

  /**
   * A walk from `start`: every later cell is open and inside the maze, every
   * step goes to a side neighbour, and no cell is repeated.
   */
  predicate IsRoute(g: Grid, start: Cell, r: Route) {
    && |r| >= 1
    && r[0] == start
    && (forall i :: 1 <= i < |r| ==> IsOpen(g, r[i]))
    && (forall i :: 0 <= i < |r| - 1 ==> Adjacent(r[i], r[i + 1]))
    && Distinct(r)
  }

  /** A route still being extended: no cell after the start holds the goal. */
  predicate IsPartialRoute(g: Grid, start: Cell, r: Route) {
    && IsRoute(g, start, r)
    && (forall i :: 1 <= i < |r| ==> !IsGoal(g, r[i]))
  }

  /** A completed route: it ends on the goal, reached for the first time in its last step. */
  predicate IsSolutionRoute(g: Grid, start: Cell, r: Route) {
    && IsRoute(g, start, r)
    && |r| >= 2
    && IsGoal(g, r[|r| - 1])
    && (forall i :: 1 <= i < |r| - 1 ==> !IsGoal(g, r[i]))
  }

  /** A route is no longer than the number of cells it can use. */
  lemma RouteLengthBound(g: Grid, start: Cell, r: Route)
    requires IsRoute(g, start, r)
    ensures |r| <= |AllCells(g) + {start}|
  {
    forall i | 0 <= i < |r| ensures r[i] in AllCells(g) + {start} {
      if i > 0 { assert IsOpen(g, r[i]); }
    }
    DistinctCellsBound(r, AllCells(g) + {start});
  }

  /** Non-decreasing length. */
  predicate ShortestFirst(routes: seq<Route>) {
    forall i, j :: 0 <= i < j < |routes| ==> |routes[i]| <= |routes[j]|
  }

  /** The start has a goal cell as a side neighbour. */
  predicate StartNextToGoal(g: Grid, start: Cell) {
    exists d :: IsGoal(g, Step(start, d))
  }

  // ---------------------------------------------------------------------------
  // locateStartGoal
  // ---------------------------------------------------------------------------

  /** Where the search starts and where it is meant to end. */
  datatype Location = Location(start: Cell, goal: Cell)

  /** `a` comes strictly before `b` when the grid is read row by row, left to right. */
  predicate RowMajorBefore(a: Cell, b: Cell) {
    a.row < b.row || (a.row == b.row && a.column < b.column)
  }

  /** Some cell of the grid holds `marker`. */
  ghost predicate HasMarker(g: Grid, marker: char) {
    exists c :: InBounds(g, c) && At(g, c) == marker
  }

  /**
   * The scan stopped on `second`, the first cell holding `secondMarker`,
   * having last seen `firstMarker` at `first` before it.
   */
  ghost predicate FoundInOrder(g: Grid, first: Cell, firstMarker: char, second: Cell, secondMarker: char) {
    && InBounds(g, first) && At(g, first) == firstMarker
    && InBounds(g, second) && At(g, second) == secondMarker
    && RowMajorBefore(first, second)
    && (forall c :: InBounds(g, c) && RowMajorBefore(c, second) ==> At(g, c) != secondMarker)
    && (forall c :: InBounds(g, c) && RowMajorBefore(first, c) && RowMajorBefore(c, second) ==> At(g, c) != firstMarker)
  }

  /** `s` is the `S` cell the scan reports: the last `S` seen before it stops. */
  ghost predicate ScanStart(g: Grid, s: Cell) {
    exists goal :: FoundInOrder(g, s, 'S', goal, 'G') || FoundInOrder(g, goal, 'G', s, 'S')
  }

  /** Two distinct cells are ordered one way or the other, and the order is transitive. */
  lemma RowMajorTotal(a: Cell, b: Cell, c: Cell)
    ensures a == b || RowMajorBefore(a, b) || RowMajorBefore(b, a)
    ensures RowMajorBefore(a, b) && RowMajorBefore(b, c) ==> RowMajorBefore(a, c)
  {
  }

  /** Both scans that stop on a `G` stopped on the first `G` and report the same `S`. */
  lemma SameStopSameStart(g: Grid, s1: Cell, g1: Cell, s2: Cell, g2: Cell)
    requires FoundInOrder(g, s1, 'S', g1, 'G') && FoundInOrder(g, s2, 'S', g2, 'G')
    ensures s1 == s2
  {
    RowMajorTotal(g1, g2, g1);
    RowMajorTotal(s1, s2, g1);
    RowMajorTotal(s2, s1, g1);
  }

  /** The scan stops on the first cell holding `secondMarker`: any other such cell comes after it. */
  lemma StopsFirst(g: Grid, first: Cell, firstMarker: char, second: Cell, secondMarker: char, c: Cell)
    requires FoundInOrder(g, first, firstMarker, second, secondMarker)
    requires InBounds(g, c) && At(g, c) == secondMarker
    ensures c == second || RowMajorBefore(second, c)
  {
    RowMajorTotal(c, second, c);
  }

  /** The scan reports one `S` at most. */
  lemma ScanStartUnique(g: Grid, s1: Cell, s2: Cell)
    requires ScanStart(g, s1) && ScanStart(g, s2)
    ensures s1 == s2
  {
    var g1 :| FoundInOrder(g, s1, 'S', g1, 'G') || FoundInOrder(g, g1, 'G', s1, 'S');
    var g2 :| FoundInOrder(g, s2, 'S', g2, 'G') || FoundInOrder(g, g2, 'G', s2, 'S');
    if FoundInOrder(g, s1, 'S', g1, 'G') {
      if FoundInOrder(g, s2, 'S', g2, 'G') {
        SameStopSameStart(g, s1, g1, s2, g2);
      } else {
        StopsFirst(g, s1, 'S', g1, 'G', g2);
        StopsFirst(g, g2, 'G', s2, 'S', s1);
      }
    } else if FoundInOrder(g, s2, 'S', g2, 'G') {
      StopsFirst(g, s2, 'S', g2, 'G', g1);
      StopsFirst(g, g1, 'G', s1, 'S', s2);
    } else {
      RowMajorTotal(s1, s2, s1);
    }
  }

  /** What the scan knows about one marker after passing every cell before (`i`, `j`). */
  ghost predicate LastSeen(g: Grid, marker: char, found: Option<Cell>, i: int, j: int) {
    && (found.None? <==> forall c :: InBounds(g, c) && Scanned(c, i, j) ==> At(g, c) != marker)
    && (found.Some? ==>
          && InBounds(g, found.value) && Scanned(found.value, i, j) && At(g, found.value) == marker
          && forall c :: InBounds(g, c) && Scanned(c, i, j) && RowMajorBefore(found.value, c) ==> At(g, c) != marker)
  }

  /** Passing one more cell: the marker there, if any, becomes the one last seen. */
  lemma ScanCell(g: Grid, marker: char, found: Option<Cell>, i: int, j: int)
    requires InBounds(g, Cell(i, j))
    requires LastSeen(g, marker, found, i, j)
    ensures LastSeen(g, marker, if At(g, Cell(i, j)) == marker then Some(Cell(i, j)) else found, i, j + 1)
  {
  }

  /** Passing the end of a row. */
  lemma ScanRowEnd(g: Grid, marker: char, found: Option<Cell>, i: int)
    requires 0 <= i < |g|
    requires LastSeen(g, marker, found, i, |g[i]|)
    ensures LastSeen(g, marker, found, i + 1, 0)
  {
  }

  /** After the last row every cell has been passed. */
  lemma ScanEnd(g: Grid, marker: char, found: Option<Cell>)
    requires LastSeen(g, marker, found, |g|, 0)
    ensures found.None? <==> !HasMarker(g, marker)
  {
    assert forall c :: InBounds(g, c) ==> Scanned(c, |g|, 0);
  }

  /** The scan stops on the cell holding the second marker to turn up. */
  lemma ScanStops(g: Grid, first: Cell, firstMarker: char, here: Cell, secondMarker: char)
    requires InBounds(g, here) && At(g, here) == secondMarker && firstMarker != secondMarker
    requires LastSeen(g, firstMarker, Some(first), here.row, here.column)
    requires LastSeen(g, secondMarker, None, here.row, here.column)
    ensures FoundInOrder(g, first, firstMarker, here, secondMarker)
  {
  }

  /**
   * `locateStartGoal`: scan row by row and stop as soon as both an `S` and a
   * `G` have been seen. A later `S` replaces an earlier one until then, and
   * likewise for `G`. The source falls off the end (returns `undefined`)
   * when a marker is missing; that is `None` here.
   */
  method LocateStartGoal(g: Grid) returns (location: Option<Location>)
    ensures location.None? <==> !(HasMarker(g, 'S') && HasMarker(g, 'G'))
    ensures location.Some? ==>
      || FoundInOrder(g, location.value.start, 'S', location.value.goal, 'G')
      || FoundInOrder(g, location.value.goal, 'G', location.value.start, 'S')
  {
    var start: Option<Cell> := None;
    var goal: Option<Cell> := None;
    for i := 0 to |g|
      invariant LastSeen(g, 'S', start, i, 0)
      invariant LastSeen(g, 'G', goal, i, 0)
      invariant start.None? || goal.None?
    {
      var row := g[i];
      for j := 0 to |row|
        invariant LastSeen(g, 'S', start, i, j)
        invariant LastSeen(g, 'G', goal, i, j)
        invariant start.None? || goal.None?
      {
        var cell := row[j];
        assert InBounds(g, Cell(i, j)) && At(g, Cell(i, j)) == cell;
        ScanCell(g, 'S', start, i, j);
        ScanCell(g, 'G', goal, i, j);
        if cell == 'S' {
          start := Some(Cell(i, j));
        } else if cell == 'G' {
          goal := Some(Cell(i, j));
        }
        if start.Some? && goal.Some? {
          location := Some(Location(start.value, goal.value));
          if cell == 'S' {
            ScanStops(g, goal.value, 'G', Cell(i, j), 'S');
          } else {
            ScanStops(g, start.value, 'S', Cell(i, j), 'G');
          }
          return;
        }
      }
      ScanRowEnd(g, 'S', start, i);
      ScanRowEnd(g, 'G', goal, i);
    }
    location := None;
    ScanEnd(g, 'S', start);
    ScanEnd(g, 'G', goal);
  }

  // ---------------------------------------------------------------------------
  // findRoutes
  // ---------------------------------------------------------------------------

  /** What the loop of `findRoutes` keeps true of a route waiting in the queue. */
  ghost predicate IsQueued(g: Grid, start: Cell, visited: set<Cell>, bound: nat, r: Route) {
    && IsPartialRoute(g, start, r)
    && (forall i :: 0 <= i < |r| - 1 ==> r[i] in visited)
    && |r| <= bound
  }

  /** Extending a dequeued route, all of whose cells are visited, by a candidate neighbour of its end. */
  lemma ExtendRoute(g: Grid, start: Cell, visited: set<Cell>, r: Route, n: Cell)
    requires IsPartialRoute(g, start, r)
    requires forall i :: 0 <= i < |r| ==> r[i] in visited
    requires IsCandidateCell(g, visited, n) && Adjacent(r[|r| - 1], n)
    ensures IsGoal(g, n) ==> IsSolutionRoute(g, start, r + [n])
    ensures !IsGoal(g, n) ==> IsPartialRoute(g, start, r + [n])
    ensures |r + [n]| <= |AllCells(g) + {start}|
  {
    var e := r + [n];
    assert forall i :: 0 <= i < |r| ==> e[i] == r[i];
    assert IsRoute(g, start, e);
    RouteLengthBound(g, start, e);
  }

  /** The route one `if (cell !== null)` block adds: to the solutions when `goal`, to the queue otherwise. */
  function Extension(g: Grid, route: Route, next: Option<Cell>, goal: bool): seq<Route>
    requires next.Some? ==> InBounds(g, next.value)
  {
    if next.Some? && (At(g, next.value) == 'G') == goal then [route + [next.value]] else []
  }

  /** The routes the four blocks add, in the order up, down, left, right. */
  function Expansion(g: Grid, visited: set<Cell>, route: Route, goal: bool): seq<Route>
    requires route != []
  {
    var c := route[|route| - 1];
    Extension(g, route, GetCell(g, visited, c, Up), goal)
      + Extension(g, route, GetCell(g, visited, c, Down), goal)
      + Extension(g, route, GetCell(g, visited, c, Left), goal)
      + Extension(g, route, GetCell(g, visited, c, Right), goal)
  }

  /** What one direction contributes when a route with all cells visited is expanded. */
  lemma ExtensionFacts(g: Grid, start: Cell, visited: set<Cell>, route: Route, d: Direction)
    requires IsPartialRoute(g, start, route)
    requires forall i :: 0 <= i < |route| ==> route[i] in visited
    ensures var next := GetCell(g, visited, route[|route| - 1], d);
      && |Extension(g, route, next, false)| <= 1
      && (forall r :: r in Extension(g, route, next, false) ==>
            IsQueued(g, start, visited, |AllCells(g) + {start}|, r) && |r| == |route| + 1)
      && (forall r :: r in Extension(g, route, next, true) ==>
            IsSolutionRoute(g, start, r) && |r| == |route| + 1)
  {
    var next := GetCell(g, visited, route[|route| - 1], d);
    if next.Some? {
      ExtendRoute(g, start, visited, route, next.value);
      var e := route + [next.value];
      assert forall i :: 0 <= i < |e| - 1 ==> e[i] == route[i];
    }
  }

  /** What one loop iteration adds: valid routes one cell longer, at most four of them queued. */
  lemma ExpansionFacts(g: Grid, start: Cell, visited: set<Cell>, route: Route)
    requires IsPartialRoute(g, start, route)
    requires forall i :: 0 <= i < |route| ==> route[i] in visited
    ensures |Expansion(g, visited, route, false)| <= 4
    ensures forall r :: r in Expansion(g, visited, route, false) ==>
      IsQueued(g, start, visited, |AllCells(g) + {start}|, r) && |r| == |route| + 1
    ensures forall r :: r in Expansion(g, visited, route, true) ==>
      IsSolutionRoute(g, start, r) && |r| == |route| + 1
  {
    ExtensionFacts(g, start, visited, route, Up);
    ExtensionFacts(g, start, visited, route, Down);
    ExtensionFacts(g, start, visited, route, Left);
    ExtensionFacts(g, start, visited, route, Right);
  }

  /** The first iteration finds a goal that is a side neighbour of the start. */
  lemma GoalBesideStart(g: Grid, start: Cell)
    requires StartNextToGoal(g, start)
    ensures exists r :: r in Expansion(g, {start}, [start], true) && |r| == 2
  {
    var d :| IsGoal(g, Step(start, d));
    var n := Step(start, d);
    assert n != start by {
      match d
      case Up => case Down => case Left => case Right =>
    }
    assert IsCandidateCell(g, {start}, n);
    var e := [start] + [n];
    assert e in Extension(g, [start], GetCell(g, {start}, start, d), true);
    match d
    case Up => assert e in Expansion(g, {start}, [start], true);
    case Down => assert e in Expansion(g, {start}, [start], true);
    case Left => assert e in Expansion(g, {start}, [start], true);
    case Right => assert e in Expansion(g, {start}, [start], true);
  }

  /** One `if (cell !== null)` block: a goal cell completes a solution, any other cell a queued route. */
  method Offer(g: Grid, route: Route, next: Option<Cell>, queue: seq<Route>, solutions: seq<Route>)
    returns (queue': seq<Route>, solutions': seq<Route>)
    requires next.Some? ==> InBounds(g, next.value)
    ensures queue' == queue + Extension(g, route, next, false)
    ensures solutions' == solutions + Extension(g, route, next, true)
  {
    queue', solutions' := queue, solutions;
    if next.Some? {
      var cell := next.value;
      if g[cell.row][cell.column] == 'G' {
        solutions' := solutions + [route + [cell]];
      } else {
        queue' := queue + [route + [cell]];
      }
    }
  }

  ghost function Pow5(n: nat): (p: nat)
    ensures p >= 1
  {
    if n == 0 then 1 else 5 * Pow5(n - 1)
  }

  /**
   * The termination measure of `findRoutes`: a queued route of length `k`
   * weighs 5^(bound - k). Taking one off and queueing at most four routes one
   * cell longer lowers the total.
   */
  ghost function QueueWeight(queue: seq<Route>, bound: nat): nat {
    if queue == [] then 0
    else (if |queue[0]| <= bound then Pow5(bound - |queue[0]|) else 0) + QueueWeight(queue[1..], bound)
  }

  lemma {:induction false} QueueWeightAppend(a: seq<Route>, b: seq<Route>, bound: nat)
    ensures QueueWeight(a + b, bound) == QueueWeight(a, bound) + QueueWeight(b, bound)
  {
    if a != [] {
      QueueWeightAppend(a[1..], b, bound);
      assert (a + b)[1..] == a[1..] + b;
    } else {
      assert a + b == b;
    }
  }

  /** The weight of a batch of routes of one length is its size times the weight of one. */
  lemma {:induction false} QueueWeightUniform(added: seq<Route>, len: nat, bound: nat)
    requires len <= bound
    requires forall r :: r in added ==> |r| == len
    ensures QueueWeight(added, bound) == |added| * Pow5(bound - len)
  {
    if added != [] {
      assert added[0] in added;
      var p := Pow5(bound - len);
      QueueWeightUniform(added[1..], len, bound);
      assert QueueWeight(added, bound) == p + (|added| - 1) * p;
      Distribute(|added| - 1, p);
    }
  }

  lemma Distribute(n: nat, p: nat)
    ensures p + n * p == (n + 1) * p
  {
  }

  lemma FewerThanFive(n: nat, p: nat)
    requires n <= 4 && p >= 1
    ensures n * p < 5 * p
  {
  }

  /** At most four routes of length `len + 1` weigh less than one route of length `len`. */
  lemma AddedWeightBelow(added: seq<Route>, len: nat, bound: nat)
    requires len + 1 <= bound
    requires |added| <= 4
    requires forall r :: r in added ==> |r| == len + 1
    ensures QueueWeight(added, bound) < Pow5(bound - len)
  {
    var p := Pow5(bound - (len + 1));
    QueueWeightUniform(added, len + 1, bound);
    assert Pow5(bound - len) == 5 * p;
    FewerThanFive(|added|, p);
  }

  /** Replacing a route by at most four routes one cell longer strictly lowers the weight. */
  lemma ExpansionLowersWeight(route: Route, rest: seq<Route>, added: seq<Route>, bound: nat)
    requires |route| <= bound
    requires |added| <= 4
    requires forall r :: r in added ==> |r| == |route| + 1 <= bound
    ensures QueueWeight(rest + added, bound) < QueueWeight([route] + rest, bound)
  {
    QueueWeightAppend(rest, added, bound);
    QueueWeightAppend([route], rest, bound);
    assert QueueWeight([route], bound) == Pow5(bound - |route|);
    if added != [] {
      assert added[0] in added;
      AddedWeightBelow(added, |route|, bound);
    } else {
      assert QueueWeight(added, bound) == 0;
    }
  }

  /** Every queued route is a partial route whose cells, all but the last, are visited. */
  ghost predicate QueueValid(g: Grid, start: Cell, bound: nat, visited: set<Cell>, queue: seq<Route>) {
    forall r :: r in queue ==> IsQueued(g, start, visited, bound, r)
  }

  ghost predicate SolutionsValid(g: Grid, start: Cell, solutions: seq<Route>) {
    forall r :: r in solutions ==> IsSolutionRoute(g, start, r)
  }

  /** Cells are marked only as the end of a dequeued route, so a goal cell is never marked. */
  ghost predicate VisitedSound(g: Grid, start: Cell, visited: set<Cell>) {
    forall c :: c in visited ==> c == start || (IsOpen(g, c) && !IsGoal(g, c))
  }

  /** Before the first iteration the queue holds the seed; after it, a goal beside the start has been found. */
  ghost predicate Seeded(g: Grid, start: Cell, visited: set<Cell>, queue: seq<Route>, solutions: seq<Route>) {
    && (visited == {} ==> queue == [[start]] && solutions == [])
    && (visited != {} && StartNextToGoal(g, start) ==> exists r :: r in solutions && |r| == 2)
  }

  /** Breadth-first order: the queue spans at most two lengths, solutions come shortest first. */
  ghost predicate BreadthFirst(queue: seq<Route>, solutions: seq<Route>) {
    && ShortestFirst(queue)
    && (queue != [] ==> |queue[|queue| - 1]| <= |queue[0]| + 1)
    && ShortestFirst(solutions)
    && (queue != [] && solutions != [] ==> |solutions[|solutions| - 1]| <= |queue[0]| + 1)
  }

  /** The invariant of the `findRoutes` loop. */
  ghost predicate SearchInvariant(g: Grid, start: Cell, bound: nat, visited: set<Cell>,
                                  queue: seq<Route>, solutions: seq<Route>) {
    var valid := QueueValid(g, start, bound, visited, queue) && SolutionsValid(g, start, solutions)
      && VisitedSound(g, start, visited);
    var ordered := Seeded(g, start, visited, queue, solutions) && BreadthFirst(queue, solutions);
    valid && ordered
  }

  lemma QueueStep(g: Grid, start: Cell, bound: nat, visited: set<Cell>, route: Route, rest: seq<Route>,
                  visited': set<Cell>, added: seq<Route>)
    requires QueueValid(g, start, bound, visited, [route] + rest)
    requires visited <= visited'
    requires forall r :: r in added ==> IsQueued(g, start, visited', bound, r)
    ensures QueueValid(g, start, bound, visited', rest + added)
  {
    forall r | r in rest + added ensures IsQueued(g, start, visited', bound, r) {
      if r in rest {
        assert r in [route] + rest;
      }
    }
  }

  /** Every route behind the head of a breadth-first queue is as long as the head or one cell longer. */
  lemma QueueSpan(route: Route, rest: seq<Route>, solutions: seq<Route>)
    requires BreadthFirst([route] + rest, solutions)
    ensures forall k :: 0 <= k < |rest| ==> |route| <= |rest[k]| <= |route| + 1
  {
    var queue := [route] + rest;
    forall k | 0 <= k < |rest| ensures |route| <= |rest[k]| <= |route| + 1 {
      assert rest[k] == queue[k + 1] && queue[0] == route;
      assert |queue[k + 1]| <= |queue[|queue| - 1]|;
    }
  }

  /** Appending routes one cell longer than the dequeued head keeps the queue sorted and within two lengths. */
  lemma QueueOrderStep(route: Route, rest: seq<Route>, added: seq<Route>)
    requires forall k :: 0 <= k < |rest| ==> |route| <= |rest[k]| <= |route| + 1
    requires ShortestFirst(rest)
    requires forall r :: r in added ==> |r| == |route| + 1
    ensures ShortestFirst(rest + added)
    ensures rest + added != [] ==> |route| <= |(rest + added)[0]|
    ensures rest + added != [] ==> |(rest + added)[|rest + added| - 1]| <= |(rest + added)[0]| + 1
  {
    var queue' := rest + added;
    forall i, j | 0 <= i < j < |queue'| ensures |queue'[i]| <= |queue'[j]| {
      if j < |rest| {
        assert queue'[i] == rest[i] && queue'[j] == rest[j];
      } else if i < |rest| {
        assert queue'[i] == rest[i] && queue'[j] in added;
      } else {
        assert queue'[i] in added && queue'[j] in added;
      }
    }
    if queue' != [] {
      var last := queue'[|queue'| - 1];
      if |rest| > 0 {
        assert queue'[0] == rest[0];
      } else {
        assert queue'[0] in added;
      }
      if |added| > 0 {
        assert last in added;
      } else {
        assert last == rest[|rest| - 1];
      }
    }
  }

  /** Appending solutions one cell longer than the dequeued head keeps them shortest first. */
  lemma SolutionOrderStep(route: Route, solutions: seq<Route>, found: seq<Route>)
    requires ShortestFirst(solutions)
    requires solutions != [] ==> |solutions[|solutions| - 1]| <= |route| + 1
    requires forall r :: r in found ==> |r| == |route| + 1
    ensures ShortestFirst(solutions + found)
    ensures solutions + found != [] ==> |(solutions + found)[|solutions + found| - 1]| <= |route| + 1
  {
    var solutions' := solutions + found;
    forall i, j | 0 <= i < j < |solutions'| ensures |solutions'[i]| <= |solutions'[j]| {
      if j < |solutions| {
        assert solutions'[i] == solutions[i] && solutions'[j] == solutions[j];
      } else if i < |solutions| {
        assert solutions'[i] == solutions[i] && solutions'[j] in found;
        assert |solutions[i]| <= |solutions[|solutions| - 1]|;
      } else {
        assert solutions'[i] in found && solutions'[j] in found;
      }
    }
    if solutions' != [] {
      if |found| > 0 {
        assert solutions'[|solutions'| - 1] in found;
      } else {
        assert solutions'[|solutions'| - 1] == solutions[|solutions| - 1];
      }
    }
  }

  /** Breadth-first order survives one iteration. */
  lemma OrderStep(route: Route, rest: seq<Route>, solutions: seq<Route>, added: seq<Route>, found: seq<Route>)
    requires BreadthFirst([route] + rest, solutions)
    requires forall r :: r in added ==> |r| == |route| + 1
    requires forall r :: r in found ==> |r| == |route| + 1
    ensures BreadthFirst(rest + added, solutions + found)
  {
    QueueSpan(route, rest, solutions);
    assert ShortestFirst(rest) by {
      var queue := [route] + rest;
      forall i, j | 0 <= i < j < |rest| ensures |rest[i]| <= |rest[j]| {
        assert rest[i] == queue[i + 1] && rest[j] == queue[j + 1];
      }
    }
    QueueOrderStep(route, rest, added);
    SolutionOrderStep(route, solutions, found);
  }

  /** One iteration of the loop keeps the invariant and lowers the weight of the queue. */
  lemma IterationKeepsInvariant(g: Grid, start: Cell, bound: nat, visited: set<Cell>,
                                route: Route, rest: seq<Route>, solutions: seq<Route>, visited': set<Cell>)
    requires bound == |AllCells(g) + {start}|
    requires SearchInvariant(g, start, bound, visited, [route] + rest, solutions)
    requires route != [] && visited' == visited + {route[|route| - 1]}
    ensures SearchInvariant(g, start, bound, visited', rest + Expansion(g, visited', route, false),
                            solutions + Expansion(g, visited', route, true))
    ensures QueueWeight(rest + Expansion(g, visited', route, false), bound) < QueueWeight([route] + rest, bound)
  {
    var added := Expansion(g, visited', route, false);
    var found := Expansion(g, visited', route, true);
    assert IsQueued(g, start, visited, bound, route) by {
      assert route in [route] + rest;
    }
    assert forall i :: 0 <= i < |route| ==> route[i] in visited' by {
      forall i | 0 <= i < |route| ensures route[i] in visited' {
        if i < |route| - 1 {
          assert route[i] in visited;
        }
      }
    }
    ExpansionFacts(g, start, visited', route);
    assert QueueValid(g, start, bound, visited', rest + added) by {
      QueueStep(g, start, bound, visited, route, rest, visited', added);
    }
    assert SolutionsValid(g, start, solutions + found);
    assert VisitedSound(g, start, visited') by {
      var c := route[|route| - 1];
      assert c == start || (IsOpen(g, c) && !IsGoal(g, c));
    }
    assert Seeded(g, start, visited', rest + added, solutions + found) by {
      if visited == {} {
        assert route == [start] by {
          assert route in [[start]];
        }
        if StartNextToGoal(g, start) {
          GoalBesideStart(g, start);
        }
      } else if StartNextToGoal(g, start) {
        var r :| r in solutions && |r| == 2;
        assert r in solutions + found;
      }
    }
    assert BreadthFirst(rest + added, solutions + found) by {
      OrderStep(route, rest, solutions, added, found);
    }
    ExpansionLowersWeight(route, rest, added, bound);
  }

  /**
   * The four neighbour blocks of the loop body, tried up, down, left, right,
   * against the visited set that already holds the end of `route`.
   */
  method ExpandRoute(g: Grid, visited: set<Cell>, route: Route, queue: seq<Route>, solutions: seq<Route>)
    returns (queue': seq<Route>, solutions': seq<Route>)
    requires route != []
    ensures queue' == queue + Expansion(g, visited, route, false)
    ensures solutions' == solutions + Expansion(g, visited, route, true)
  {
    var current := route[|route| - 1];
    var up := GetCell(g, visited, current, Up);
    queue', solutions' := Offer(g, route, up, queue, solutions);
    var down := GetCell(g, visited, current, Down);
    queue', solutions' := Offer(g, route, down, queue', solutions');
    var left := GetCell(g, visited, current, Left);
    queue', solutions' := Offer(g, route, left, queue', solutions');
    var right := GetCell(g, visited, current, Right);
    queue', solutions' := Offer(g, route, right, queue', solutions');
    AppendFour(queue, Extension(g, route, up, false), Extension(g, route, down, false),
               Extension(g, route, left, false), Extension(g, route, right, false));
    AppendFour(solutions, Extension(g, route, up, true), Extension(g, route, down, true),
               Extension(g, route, left, true), Extension(g, route, right, true));
  }

  lemma AppendFour(a: seq<Route>, b: seq<Route>, c: seq<Route>, d: seq<Route>, e: seq<Route>)
    ensures a + b + c + d + e == a + (b + c + d + e)
  {
  }

  /** The invariant holds before the first iteration. */
  lemma SearchStarts(g: Grid, start: Cell)
    ensures SearchInvariant(g, start, |AllCells(g) + {start}|, {}, [[start]], [])
  {
    assert start in AllCells(g) + {start};
    assert IsQueued(g, start, {}, |AllCells(g) + {start}|, [start]);
  }

  /** When the queue runs dry, the invariant is what `FindRoutes` promises. */
  lemma SearchEnds(g: Grid, start: Cell, bound: nat, visited: set<Cell>, solutions: seq<Route>)
    requires SearchInvariant(g, start, bound, visited, [], solutions)
    ensures forall k :: 0 <= k < |solutions| ==> IsSolutionRoute(g, start, solutions[k])
    ensures ShortestFirst(solutions)
    ensures StartNextToGoal(g, start) ==> solutions != [] && |solutions[0]| == 2
  {
    forall k | 0 <= k < |solutions| ensures IsSolutionRoute(g, start, solutions[k]) {
      assert solutions[k] in solutions;
    }
    if StartNextToGoal(g, start) {
      var r :| r in solutions && |r| == 2;
      var k :| 0 <= k < |solutions| && solutions[k] == r;
      assert IsSolutionRoute(g, start, solutions[0]);
    }
  }

  // ---------------------------------------------------------------------------
  // Completeness: every route to a goal is matched by a found one no longer
  // ---------------------------------------------------------------------------

  /** The cell a route ends on. */
  function End(r: Route): Cell
    requires r != []
  {
    r[|r| - 1]
  }

  /**
   * A side neighbour `c` is accounted for within `len` cells: a goal by a
   * solution that long at most, any other cell by a route ending there that
   * has been taken off the queue or is still waiting in it.
   */
  ghost predicate Reached(g: Grid, done: seq<Route>, queue: seq<Route>, solutions: seq<Route>, c: Cell, len: int) {
    if IsGoal(g, c) then exists s :: s in solutions && |s| <= len
    else exists r :: (r in done || r in queue) && r != [] && End(r) == c && |r| <= len
  }

  /** Every open side neighbour (other than the start) of a dequeued route is accounted for one cell further. */
  ghost predicate Closed(g: Grid, start: Cell, done: seq<Route>, queue: seq<Route>, solutions: seq<Route>) {
    forall r, c :: r in done && r != [] && c != start && Adjacent(End(r), c) && IsOpen(g, c) ==>
      Reached(g, done, queue, solutions, c, |r| + 1)
  }

  /**
   * What the loop keeps true of `done`, the routes taken off the queue so
   * far: each visited cell ends one of them, none is longer than a waiting
   * route, the seed comes first, and their neighbours are accounted for.
   */
  ghost predicate Complete(g: Grid, start: Cell, visited: set<Cell>, done: seq<Route>,
                           queue: seq<Route>, solutions: seq<Route>) {
    && (forall r :: r in done ==> r != [])
    && (forall c :: c in visited ==> exists r :: r in done && r != [] && End(r) == c)
    && (forall r, q :: r in done && q in queue ==> |r| <= |q|)
    && ([start] in done || (done == [] && queue == [[start]]))
    && Closed(g, start, done, queue, solutions)
  }

  /** The neighbour in direction `d`, when it is a candidate, extends `route` in the expansion. */
  lemma InExpansion(g: Grid, visited: set<Cell>, route: Route, d: Direction)
    requires route != [] && GetCell(g, visited, End(route), d).Some?
    ensures route + [Step(End(route), d)] in Expansion(g, visited, route, IsGoal(g, Step(End(route), d)))
  {
    var e := route + [Step(End(route), d)];
    var goal := IsGoal(g, Step(End(route), d));
    assert e in Extension(g, route, GetCell(g, visited, End(route), d), goal);
    match d
    case Up => assert e in Expansion(g, visited, route, goal);
    case Down => assert e in Expansion(g, visited, route, goal);
    case Left => assert e in Expansion(g, visited, route, goal);
    case Right => assert e in Expansion(g, visited, route, goal);
  }

  /** Accounting survives when routes move from the queue to `done` and more routes and solutions are added. */
  lemma ReachedGrows(g: Grid, done: seq<Route>, queue: seq<Route>, solutions: seq<Route>,
                     done': seq<Route>, queue': seq<Route>, solutions': seq<Route>, c: Cell, len: int)
    requires forall r :: r in done || r in queue ==> r in done' || r in queue'
    requires forall s :: s in solutions ==> s in solutions'
    requires Reached(g, done, queue, solutions, c, len)
    ensures Reached(g, done', queue', solutions', c, len)
  {
  }

  /** A neighbour not yet visited is offered in the expansion: as a solution when it is a goal, else queued. */
  lemma FreshNeighbourReached(g: Grid, visited': set<Cell>, done': seq<Route>, route: Route, rest: seq<Route>,
                              solutions: seq<Route>, c: Cell)
    requires route != [] && c !in visited' && Adjacent(End(route), c) && IsOpen(g, c)
    ensures Reached(g, done', rest + Expansion(g, visited', route, false),
                    solutions + Expansion(g, visited', route, true), c, |route| + 1)
  {
    DirectionsCoverNeighbours(End(route), c);
    var d :| Step(End(route), d) == c;
    InExpansion(g, visited', route, d);
    var e := route + [c];
    assert End(e) == c && |e| == |route| + 1;
    if IsGoal(g, c) {
      assert e in solutions + Expansion(g, visited', route, true);
    } else {
      assert e in rest + Expansion(g, visited', route, false);
    }
  }

  /** The neighbours of the route just dequeued are accounted for after its expansion. */
  lemma NeighbourReached(g: Grid, start: Cell, visited: set<Cell>, done: seq<Route>, route: Route, rest: seq<Route>,
                         solutions: seq<Route>, visited': set<Cell>, c: Cell)
    requires Complete(g, start, visited, done, [route] + rest, solutions)
    requires VisitedSound(g, start, visited)
    requires route != [] && visited' == visited + {End(route)}
    requires c != start && Adjacent(End(route), c) && IsOpen(g, c)
    ensures Reached(g, done + [route], rest + Expansion(g, visited', route, false),
                    solutions + Expansion(g, visited', route, true), c, |route| + 1)
  {
    if c in visited {
      var r :| r in done && r != [] && End(r) == c;
      assert route in [route] + rest;
      assert r in done + [route];
      assert !IsGoal(g, c);
    } else {
      FreshNeighbourReached(g, visited', done + [route], route, rest, solutions, c);
    }
  }

  /** Each visited cell still ends a dequeued route once the current one joins them. */
  lemma VisitedDoneStep(visited: set<Cell>, done: seq<Route>, route: Route, visited': set<Cell>)
    requires forall c :: c in visited ==> exists r :: r in done && r != [] && End(r) == c
    requires route != [] && visited' == visited + {End(route)}
    ensures forall c :: c in visited' ==> exists r :: r in done + [route] && r != [] && End(r) == c
  {
    forall c | c in visited' ensures exists r :: r in done + [route] && r != [] && End(r) == c {
      if c in visited {
        var r :| r in done && r != [] && End(r) == c;
        assert r in done + [route];
      } else {
        assert route in done + [route];
      }
    }
  }

  /** No dequeued route is longer than a waiting one, after one more iteration. */
  lemma DoneBeforeQueueStep(done: seq<Route>, route: Route, rest: seq<Route>, added: seq<Route>)
    requires forall r, q :: r in done && q in [route] + rest ==> |r| <= |q|
    requires ShortestFirst([route] + rest)
    requires forall q :: q in added ==> |q| == |route| + 1
    ensures forall r, q :: r in done + [route] && q in rest + added ==> |r| <= |q|
  {
    var queue := [route] + rest;
    assert route in queue;
    forall r, q | r in done + [route] && q in rest + added ensures |r| <= |q| {
      if q in rest {
        var k :| 0 <= k < |rest| && rest[k] == q;
        assert queue[0] == route && queue[k + 1] == q;
      }
    }
  }

  /** Every route dequeued or waiting before the iteration is dequeued or waiting after it. */
  lemma KeptStep(done: seq<Route>, route: Route, rest: seq<Route>, added: seq<Route>)
    ensures forall r :: r in done || r in [route] + rest ==> r in done + [route] || r in rest + added
  {
    forall r | r in done || r in [route] + rest ensures r in done + [route] || r in rest + added {
      if r !in done && r != route {
        assert r in rest;
      }
    }
  }

  /** The closure of the dequeued routes survives one iteration. */
  lemma ClosedStep(g: Grid, start: Cell, visited: set<Cell>, done: seq<Route>, route: Route, rest: seq<Route>,
                   solutions: seq<Route>, visited': set<Cell>)
    requires Complete(g, start, visited, done, [route] + rest, solutions)
    requires VisitedSound(g, start, visited)
    requires route != [] && visited' == visited + {End(route)}
    ensures Closed(g, start, done + [route], rest + Expansion(g, visited', route, false),
                   solutions + Expansion(g, visited', route, true))
  {
    var added, found := Expansion(g, visited', route, false), Expansion(g, visited', route, true);
    var done', queue', solutions' := done + [route], rest + added, solutions + found;
    KeptStep(done, route, rest, added);
    forall r, c | r in done' && r != [] && c != start && Adjacent(End(r), c) && IsOpen(g, c)
      ensures Reached(g, done', queue', solutions', c, |r| + 1)
    {
      if r in done {
        ReachedGrows(g, done, [route] + rest, solutions, done', queue', solutions', c, |r| + 1);
      } else {
        NeighbourReached(g, start, visited, done, route, rest, solutions, visited', c);
      }
    }
  }

  /** One iteration keeps `Complete`, with the dequeued route appended to `done`. */
  lemma CompleteStep(g: Grid, start: Cell, visited: set<Cell>, done: seq<Route>, route: Route, rest: seq<Route>,
                     solutions: seq<Route>, visited': set<Cell>)
    requires Complete(g, start, visited, done, [route] + rest, solutions)
    requires ShortestFirst([route] + rest)
    requires VisitedSound(g, start, visited)
    requires route != [] && visited' == visited + {End(route)}
    ensures Complete(g, start, visited', done + [route], rest + Expansion(g, visited', route, false),
                     solutions + Expansion(g, visited', route, true))
  {
    var added := Expansion(g, visited', route, false);
    VisitedDoneStep(visited, done, route, visited');
    ExpansionLengths(g, visited', route);
    DoneBeforeQueueStep(done, route, rest, added);
    assert [start] in done + [route] || (done + [route] == [] && rest + added == [[start]]) by {
      if [start] !in done {
        assert route in [[start]];
      }
    }
    ClosedStep(g, start, visited, done, route, rest, solutions, visited');
  }

  /** Every route in the expansion is one cell longer than the route expanded. */
  lemma ExpansionLengths(g: Grid, visited: set<Cell>, route: Route)
    requires route != []
    ensures forall r :: r in Expansion(g, visited, route, false) ==> |r| == |route| + 1
  {
  }

  /** A route without its last cell is still a partial route. */
  lemma PrefixIsPartial(g: Grid, start: Cell, r: Route)
    requires IsRoute(g, start, r) && |r| >= 2
    requires forall i :: 1 <= i < |r| - 1 ==> !IsGoal(g, r[i])
    ensures IsPartialRoute(g, start, r[..|r| - 1])
  {
    var p := r[..|r| - 1];
    assert forall i :: 0 <= i < |p| ==> p[i] == r[i];
  }

  /** The closure of the dequeued routes, used at one route and one neighbour. */
  lemma ClosedAt(g: Grid, start: Cell, done: seq<Route>, queue: seq<Route>, solutions: seq<Route>, r: Route, c: Cell)
    requires Closed(g, start, done, queue, solutions)
    requires r in done && r != [] && c != start && Adjacent(End(r), c) && IsOpen(g, c)
    ensures Reached(g, done, queue, solutions, c, |r| + 1)
  {
  }

  /** The last step of a route: its last cell is open, a side neighbour of the one before, and not the start. */
  lemma LastStep(g: Grid, start: Cell, r: Route)
    requires IsRoute(g, start, r) && |r| >= 2
    ensures var c := r[|r| - 1]; c != start && Adjacent(r[|r| - 2], c) && IsOpen(g, c)
    ensures r[|r| - 2] == End(r[..|r| - 1])
  {
    assert r[0] != r[|r| - 1];
  }

  /** Once the queue is empty, every partial route is matched by a dequeued route to its end, no longer. */
  lemma {:induction false} DoneReaches(g: Grid, start: Cell, done: seq<Route>, solutions: seq<Route>, r: Route)
    requires [start] in done
    requires Closed(g, start, done, [], solutions)
    requires IsPartialRoute(g, start, r)
    ensures exists s :: s in done && s != [] && End(s) == End(r) && |s| <= |r|
    decreases |r|
  {
    if |r| == 1 {
      assert End([start]) == End(r);
    } else {
      var p := r[..|r| - 1];
      PrefixIsPartial(g, start, r);
      DoneReaches(g, start, done, solutions, p);
      var s :| s in done && s != [] && End(s) == End(p) && |s| <= |p|;
      LastStep(g, start, r);
      assert !IsGoal(g, End(r));
      ClosedAt(g, start, done, [], solutions, s, End(r));
    }
  }

  /** Once the queue is empty, every solution route is matched by a found one no longer. */
  lemma SearchComplete(g: Grid, start: Cell, visited: set<Cell>, done: seq<Route>, solutions: seq<Route>)
    requires Complete(g, start, visited, done, [], solutions)
    requires ShortestFirst(solutions)
    ensures forall r :: IsSolutionRoute(g, start, r) ==> solutions != [] && |solutions[0]| <= |r|
  {
    forall r | IsSolutionRoute(g, start, r) ensures solutions != [] && |solutions[0]| <= |r| {
      var p := r[..|r| - 1];
      PrefixIsPartial(g, start, r);
      DoneReaches(g, start, done, solutions, p);
      var s :| s in done && s != [] && End(s) == End(p) && |s| <= |p|;
      LastStep(g, start, r);
      ClosedAt(g, start, done, [], solutions, s, r[|r| - 1]);
      var t :| t in solutions && |t| <= |s| + 1;
      var k :| 0 <= k < |solutions| && solutions[k] == t;
    }
  }

  /** The invariant of the `findRoutes` loop, with the dequeued routes `done` as history. */
  ghost predicate Searching(g: Grid, start: Cell, bound: nat, visited: set<Cell>, done: seq<Route>,
                            queue: seq<Route>, solutions: seq<Route>) {
    var ordered := SearchInvariant(g, start, bound, visited, queue, solutions);
    var complete := Complete(g, start, visited, done, queue, solutions);
    ordered && complete
  }

  /** One iteration keeps the invariant and lowers the weight of the queue. */
  lemma SearchStep(g: Grid, start: Cell, bound: nat, visited: set<Cell>, done: seq<Route>,
                   route: Route, rest: seq<Route>, solutions: seq<Route>, visited': set<Cell>)
    requires bound == |AllCells(g) + {start}|
    requires Searching(g, start, bound, visited, done, [route] + rest, solutions)
    requires route != [] && visited' == visited + {route[|route| - 1]}
    ensures Searching(g, start, bound, visited', done + [route], rest + Expansion(g, visited', route, false),
                      solutions + Expansion(g, visited', route, true))
    ensures QueueWeight(rest + Expansion(g, visited', route, false), bound) < QueueWeight([route] + rest, bound)
  {
    IterationKeepsInvariant(g, start, bound, visited, route, rest, solutions, visited');
    CompleteStep(g, start, visited, done, route, rest, solutions, visited');
  }

  /**
   * `findRoutes`: breadth-first expansion of partial routes with one shared
   * visited set. The unused `goal` argument of the source is omitted.
   * Every route returned is a simple walk from `start` over open cells whose
   * last cell, and only that one, holds `G`; routes come out shortest first;
   * whenever some such walk exists a route is found, and the first one found
   * is no longer than any such walk in the maze, so it is a shortest one.
   */
  method FindRoutes(g: Grid, start: Cell) returns (solutions: seq<Route>)
    ensures forall k :: 0 <= k < |solutions| ==> IsSolutionRoute(g, start, solutions[k])
    ensures ShortestFirst(solutions)
    ensures StartNextToGoal(g, start) ==> solutions != [] && |solutions[0]| == 2
    ensures forall r :: IsSolutionRoute(g, start, r) ==> solutions != [] && |solutions[0]| <= |r|
  {
    var visited: set<Cell> := {};
    var queue: seq<Route> := [[start]];
    solutions := [];
    ghost var bound := |AllCells(g) + {start}|;
    ghost var done: seq<Route> := [];
    SearchStarts(g, start);
    assert Complete(g, start, visited, done, queue, solutions);
    while queue != []
      invariant Searching(g, start, bound, visited, done, queue, solutions)
      decreases QueueWeight(queue, bound)
    {
      ghost var visited0, solutions0, queue0 := visited, solutions, queue;
      var route := queue[0];
      assert route != [] by {
        assert route in queue;
      }
      queue := queue[1..];
      ghost var rest := queue;
      assert queue0 == [route] + rest;
      visited := visited + {route[|route| - 1]};
      queue, solutions := ExpandRoute(g, visited, route, queue, solutions);
      SearchStep(g, start, bound, visited0, done, route, rest, solutions0, visited);
      done := done + [route];
    }
    SearchEnds(g, start, bound, visited, solutions);
    SearchComplete(g, start, visited, done, solutions);
  }

  // ---------------------------------------------------------------------------
  // The answer: fewest steps
  // ---------------------------------------------------------------------------

  /**
   * The reduction at the end of `main`: the smallest route length minus one
   * (the start cell is not a step). The source starts from `Infinity`; here
   * "no route" is `None` instead of a number.
   */
  method ShortestSteps(routes: seq<Route>) returns (steps: Option<int>)
    ensures steps.None? <==> routes == []
    ensures steps.Some? ==> exists k :: 0 <= k < |routes| && steps.value == |routes[k]| - 1
    ensures steps.Some? ==> forall k :: 0 <= k < |routes| ==> steps.value <= |routes[k]| - 1
  {
    var minLength: Option<nat> := None;
    for k := 0 to |routes|
      invariant minLength.None? <==> k == 0
      invariant minLength.Some? ==> exists i :: 0 <= i < k && minLength.value == |routes[i]|
      invariant minLength.Some? ==> forall i :: 0 <= i < k ==> minLength.value <= |routes[i]|
    {
      if minLength.None? || |routes[k]| < minLength.value {
        minLength := Some(|routes[k]|);
      }
    }
    steps := if minLength.None? then None else Some(minLength.value - 1);
  }

  /**
   * The body of `main` from the decoded maze on: locate the markers, find
   * the routes, take the fewest steps. Reading `location.start` of an
   * `undefined` location throws in the source; that is the error here.
   * `Ok(None)` is the source's `Infinity`: no route reaches a goal.
   */
  method FewestSteps(g: Grid) returns (answer: Result<Option<int>>)
    ensures answer.Err? <==> !(HasMarker(g, 'S') && HasMarker(g, 'G'))
    ensures answer.Ok? ==> exists s :: ScanStart(g, s) && SolvedFrom(g, s, answer.value)
  {
    var location := LocateStartGoal(g);
    if location.None? {
      return Err("cannot read property 'start' of undefined");
    }
    var start := location.value.start;
    assert ScanStart(g, start) by {
      var goal := location.value.goal;
      assert FoundInOrder(g, start, 'S', goal, 'G') || FoundInOrder(g, goal, 'G', start, 'S');
    }
    var routes := FindRoutes(g, start);
    var steps := ShortestSteps(routes);
    answer := Ok(steps);
    assert SolvedFrom(g, start, steps) by {
      if StartNextToGoal(g, start) {
        assert routes[0] in routes;
      }
      if steps.Some? {
        var k :| 0 <= k < |routes| && steps.value == |routes[k]| - 1;
        assert IsSolutionRoute(g, start, routes[k]);
      }
    }
  }

  /**
   * What the fewest-steps answer promises about a start cell: a number is
   * the step count of a solution route and no solution route takes fewer
   * steps; no number means no solution route exists; a goal beside the start
   * gives one step.
   */
  ghost predicate SolvedFrom(g: Grid, start: Cell, steps: Option<int>) {
    && (steps.Some? ==> exists r :: IsSolutionRoute(g, start, r) && steps.value == |r| - 1)
    && (steps.Some? ==> forall r :: IsSolutionRoute(g, start, r) ==> steps.value <= |r| - 1)
    && (steps.None? ==> !exists r :: IsSolutionRoute(g, start, r))
    && (StartNextToGoal(g, start) ==> steps == Some(1))
  }
}
