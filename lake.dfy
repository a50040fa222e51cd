/**
 * The lake counter: a garden is a grid of land cells `.` and water cells
 * (any other character). Water cells that touch, sideways or diagonally,
 * belong to the same lake. The counter scans the garden row by row and, at
 * each water cell not yet visited, floods its lake by depth-first search,
 * marking every cell it reaches as visited.
 *
 * The source passes two JavaScript `Set`s by reference through the search;
 * here they are values threaded in and out of every call.
 */
module LakeCounting {
  import opened Results
  import opened Grid

  // ---------------------------------------------------------------------------
  // Cell tests
  // ---------------------------------------------------------------------------

  /** `isLandCell`: only ever asked of in-bounds cells. */
  predicate IsLandCell(g: Grid, c: Cell)
    requires InBounds(g, c)
  {
    At(g, c) == '.'
  }

  /** A cell inside the garden that is not land. */
  predicate IsWater(g: Grid, c: Cell) {
    InBounds(g, c) && !IsLandCell(g, c)
  }

  /** `isCandidateCell`: inside the garden, not yet visited, not land. */
  predicate IsCandidateCell(g: Grid, visited: set<Cell>, c: Cell) {
    InBounds(g, c) && c !in visited && !IsLandCell(g, c)
  }

  /** Every water cell of the garden. */
  ghost function WaterCells(g: Grid): (water: set<Cell>)
    ensures forall c :: c in water <==> IsWater(g, c)
  {
    set c | c in AllCells(g) && !IsLandCell(g, c)
  }

  // ---------------------------------------------------------------------------
  // The eight neighbour getters
  // ---------------------------------------------------------------------------

  /** The eight directions, in the order `findNearbyWaterCell` tries them. */
  datatype Compass = N | NE | E | SE | S | SW | W | NW

  /** The position of a direction in the order N, NE, E, SE, S, SW, W, NW. */
  function Order(d: Compass): (k: nat)
    ensures k < 8
  {
    match d
    case N => 0
    case NE => 1
    case E => 2
    case SE => 3
    case S => 4
    case SW => 5
    case W => 6
    case NW => 7
  }

  /** The neighbour at the fixed offset of a direction. */
  function Step(c: Cell, d: Compass): Cell {
    match d
    case N => Cell(c.row - 1, c.column)
    case NE => Cell(c.row - 1, c.column + 1)
    case E => Cell(c.row, c.column + 1)
    case SE => Cell(c.row + 1, c.column + 1)
    case S => Cell(c.row + 1, c.column)
    case SW => Cell(c.row + 1, c.column - 1)
    case W => Cell(c.row, c.column - 1)
    case NW => Cell(c.row - 1, c.column - 1)
  }

  /** Two different cells that share a side or a corner. */
  predicate Touching(a: Cell, b: Cell) {
    && a != b
    && -1 <= a.row - b.row <= 1
    && -1 <= a.column - b.column <= 1
  }

  /** The eight directions reach exactly the cells touching `c`. */
  lemma CompassCoversTouching(c: Cell, n: Cell)
    ensures Touching(c, n) <==> exists d :: Step(c, d) == n
  {
    if Touching(c, n) {
      var dr, dc := n.row - c.row, n.column - c.column;
      if dr == -1 && dc == 0 { assert Step(c, N) == n; }
      else if dr == -1 && dc == 1 { assert Step(c, NE) == n; }
      else if dr == 0 && dc == 1 { assert Step(c, E) == n; }
      else if dr == 1 && dc == 1 { assert Step(c, SE) == n; }
      else if dr == 1 && dc == 0 { assert Step(c, S) == n; }
      else if dr == 1 && dc == -1 { assert Step(c, SW) == n; }
      else if dr == 0 && dc == -1 { assert Step(c, W) == n; }
      else { assert Step(c, NW) == n; }
    }
    if exists d :: Step(c, d) == n {
      var d :| Step(c, d) == n;
      match d
      case N => case NE => case E => case SE => case S => case SW => case W => case NW =>
    }
  }

  /**
   * `getNCell` … `getNWCell`: the neighbour in direction `d` when it is a
   * candidate, otherwise nothing.
   */
  function GetCell(g: Grid, visited: set<Cell>, c: Cell, d: Compass): (next: Option<Cell>)
    ensures next.Some? <==> IsWater(g, Step(c, d)) && Step(c, d) !in visited
    ensures next.Some? ==> next.value == Step(c, d)
  {
    var n := Step(c, d);
    if IsCandidateCell(g, visited, n) then Some(n) else None
  }

  // ---------------------------------------------------------------------------
  // Walks
  // ---------------------------------------------------------------------------

  /** A non-empty sequence of cells of `cells`, each touching the next. */
  ghost predicate IsWalk(cells: set<Cell>, w: seq<Cell>) {
    && |w| >= 1
    && (forall i :: 0 <= i < |w| ==> w[i] in cells)
    && (forall i :: 0 <= i < |w| - 1 ==> Touching(w[i], w[i + 1]))
  }

  /** `b` can be reached from `a` without leaving `cells`. */
  ghost predicate Reaches(cells: set<Cell>, a: Cell, b: Cell) {
    exists w :: IsWalk(cells, w) && w[0] == a && w[|w| - 1] == b
  }

  lemma ReachesSelf(cells: set<Cell>, a: Cell)
    requires a in cells
    ensures Reaches(cells, a, a)
  {
    assert IsWalk(cells, [a]);
  }

  lemma ReachesWiden(cells: set<Cell>, more: set<Cell>, a: Cell, b: Cell)
    requires cells <= more
    requires Reaches(cells, a, b)
    ensures Reaches(more, a, b)
  {
    var w :| IsWalk(cells, w) && w[0] == a && w[|w| - 1] == b;
    assert IsWalk(more, w);
  }

  lemma ReachesPrepend(cells: set<Cell>, a: Cell, n: Cell, b: Cell)
    requires a in cells && Touching(a, n)
    requires Reaches(cells, n, b)
    ensures Reaches(cells, a, b)
  {
    var w :| IsWalk(cells, w) && w[0] == n && w[|w| - 1] == b;
    var w' := [a] + w;
    assert forall i :: 1 <= i < |w'| ==> w'[i] == w[i - 1];
    assert IsWalk(cells, w');
  }

  lemma ReachesReverse(cells: set<Cell>, a: Cell, b: Cell)
    requires Reaches(cells, a, b)
    ensures Reaches(cells, b, a)
  {
    var w :| IsWalk(cells, w) && w[0] == a && w[|w| - 1] == b;
    var r := seq(|w|, i requires 0 <= i < |w| => w[|w| - 1 - i]);
    forall i | 0 <= i < |r| - 1 ensures Touching(r[i], r[i + 1]) {
      var k := |w| - 2 - i;
      assert r[i] == w[k + 1] && r[i + 1] == w[k];
    }
    assert IsWalk(cells, r);
  }

  lemma ReachesConcat(cells: set<Cell>, a: Cell, b: Cell, c: Cell)
    requires Reaches(cells, a, b) && Reaches(cells, b, c)
    ensures Reaches(cells, a, c)
  {
    var u :| IsWalk(cells, u) && u[0] == a && u[|u| - 1] == b;
    var v :| IsWalk(cells, v) && v[0] == b && v[|v| - 1] == c;
    var w := u + v[1..];
    assert forall i :: |u| <= i < |w| ==> w[i] == v[i - |u| + 1];
    assert forall i :: 0 <= i < |w| - 1 ==> Touching(w[i], w[i + 1]) by {
      forall i | 0 <= i < |w| - 1 ensures Touching(w[i], w[i + 1]) {
        if i < |u| - 1 {
          assert w[i] == u[i] && w[i + 1] == u[i + 1];
        } else if i == |u| - 1 {
          assert w[i] == v[0] && w[i + 1] == v[1];
        } else {
          assert w[i] == v[i - |u| + 1] && w[i + 1] == v[i - |u| + 2];
        }
      }
    }
    assert IsWalk(cells, w);
  }

  // ---------------------------------------------------------------------------
  // Lakes
  // ---------------------------------------------------------------------------

  /** Every water cell touching a cell of `lake` is in `lake`. */
  ghost predicate IsClosed(g: Grid, lake: set<Cell>) {
    forall c, n {:trigger Touching(c, n)} :: c in lake && Touching(c, n) && IsWater(g, n) ==> n in lake
  }

  /** A lake: water cells, all reachable inside it from one of them, and nothing touching it left out. */
  ghost predicate IsLake(g: Grid, lake: set<Cell>) {
    && (forall c :: c in lake ==> IsWater(g, c))
    && (exists s :: s in lake && forall c :: c in lake ==> Reaches(lake, s, c))
    && IsClosed(g, lake)
  }

  /** All the cells of all the lakes. */
  ghost function Union(lakes: seq<set<Cell>>): set<Cell> {
    if lakes == [] then {} else Union(lakes[..|lakes| - 1]) + lakes[|lakes| - 1]
  }

  lemma {:induction false} UnionMember(lakes: seq<set<Cell>>, c: Cell)
    ensures c in Union(lakes) <==> exists k :: 0 <= k < |lakes| && c in lakes[k]
  {
    if lakes != [] {
      var init := lakes[..|lakes| - 1];
      UnionMember(init, c);
      assert forall k :: 0 <= k < |init| ==> init[k] == lakes[k];
    }
  }

  /** `lakes` are lakes, no two share a cell, and together they hold exactly `covered`. */
  ghost predicate IsLakesOf(g: Grid, lakes: seq<set<Cell>>, covered: set<Cell>) {
    && (forall k :: 0 <= k < |lakes| ==> IsLake(g, lakes[k]))
    && (forall j, k :: 0 <= j < k < |lakes| ==> lakes[j] !! lakes[k])
    && covered == Union(lakes)
  }

  /** A walk over water that starts in a closed set of cells never leaves it. */
  lemma {:induction false} ClosedKeepsWalk(g: Grid, lake: set<Cell>, w: seq<Cell>)
    requires IsClosed(g, lake)
    requires IsWalk(WaterCells(g), w) && w[0] in lake
    ensures forall i :: 0 <= i < |w| ==> w[i] in lake
  {
    if |w| > 1 {
      assert Touching(w[0], w[1]) && IsWater(g, w[1]);
      var rest := w[1..];
      assert IsWalk(WaterCells(g), rest);
      ClosedKeepsWalk(g, lake, rest);
      assert forall i :: 1 <= i < |w| ==> w[i] == rest[i - 1];
    }
  }

  /**
   * What the lakes mean: two water cells lie in the same lake exactly when a
   * walk over water cells, moving sideways or diagonally, joins them.
   */
  lemma SameLakeIffJoined(g: Grid, lake: set<Cell>, a: Cell, b: Cell)
    requires IsLake(g, lake) && a in lake
    ensures b in lake <==> Reaches(WaterCells(g), a, b)
  {
    var s :| s in lake && forall c :: c in lake ==> Reaches(lake, s, c);
    if b in lake {
      ReachesReverse(lake, s, a);
      ReachesConcat(lake, a, s, b);
      ReachesWiden(lake, WaterCells(g), a, b);
    }
    if Reaches(WaterCells(g), a, b) {
      var w :| IsWalk(WaterCells(g), w) && w[0] == a && w[|w| - 1] == b;
      ClosedKeepsWalk(g, lake, w);
    }
  }

  // ---------------------------------------------------------------------------
  // findNearbyWaterCell
  // ---------------------------------------------------------------------------

  /**
   * From `visited`/`lake` to `visited'`/`lake'` the search, standing on
   * `cell`, added the same new cells to both sets; every new cell is water
   * reachable from `cell` through new cells, and every water cell touching a
   * new cell has been visited.
   */
  ghost predicate Grown(g: Grid, cell: Cell, visited: set<Cell>, lake: set<Cell>,
                        visited': set<Cell>, lake': set<Cell>) {
    && visited <= visited'
    && lake' == lake + (visited' - visited)
    && (forall c :: c in visited' - visited ==> IsWater(g, c) && Reaches(visited' - visited + {cell}, cell, c))
    && (forall c, n :: c in visited' - visited && Touching(c, n) && IsWater(g, n) ==> n in visited')
  }

  lemma GrownNothing(g: Grid, cell: Cell, visited: set<Cell>, lake: set<Cell>)
    ensures Grown(g, cell, visited, lake, visited, lake)
  {
  }

  /** Two stretches of search from the same cell make one. */
  lemma GrownTrans(g: Grid, cell: Cell, v0: set<Cell>, l0: set<Cell>, v1: set<Cell>, l1: set<Cell>,
                   v2: set<Cell>, l2: set<Cell>)
    requires Grown(g, cell, v0, l0, v1, l1) && Grown(g, cell, v1, l1, v2, l2)
    ensures Grown(g, cell, v0, l0, v2, l2)
  {
    forall c | c in v2 - v0 ensures Reaches(v2 - v0 + {cell}, cell, c) {
      if c in v1 - v0 {
        ReachesWiden(v1 - v0 + {cell}, v2 - v0 + {cell}, cell, c);
      } else {
        ReachesWiden(v2 - v1 + {cell}, v2 - v0 + {cell}, cell, c);
      }
    }
  }

  /** Visiting a fresh neighbour `n` of `cell` and everything the search reaches from it. */
  lemma GrownThrough(g: Grid, cell: Cell, n: Cell, visited: set<Cell>, lake: set<Cell>,
                     visited': set<Cell>, lake': set<Cell>)
    requires Touching(cell, n) && IsWater(g, n) && n !in visited && cell in visited
    requires Grown(g, n, visited + {n}, lake + {n}, visited', lake')
    requires forall m :: Touching(n, m) && IsWater(g, m) ==> m in visited'
    ensures Grown(g, cell, visited, lake, visited', lake')
  {
    var inner := visited' - (visited + {n});
    assert visited' - visited == inner + {n};
    forall c | c in visited' - visited ensures Reaches(visited' - visited + {cell}, cell, c) {
      var cells := visited' - visited + {cell};
      if c == n {
        ReachesSelf(cells, n);
      } else {
        ReachesWiden(inner + {n}, cells, n, c);
      }
      ReachesPrepend(cells, cell, n, c);
    }
  }

  lemma {:induction false} SubsetSize(a: set<Cell>, b: set<Cell>)
    requires a <= b
    ensures |a| <= |b|
  {
    if a != {} {
      var x :| x in a;
      SubsetSize(a - {x}, b - {x});
    }
  }

  /** Every water cell in the first `done` directions from `cell` has been visited. */
  ghost predicate Covered(g: Grid, cell: Cell, visited: set<Cell>, done: nat) {
    forall d :: Order(d) < done && IsWater(g, Step(cell, d)) ==> Step(cell, d) in visited
  }

  /** Covering one more direction, the next one in the order. */
  lemma CoveredStep(g: Grid, cell: Cell, visited: set<Cell>, visited': set<Cell>, d: Compass)
    requires Covered(g, cell, visited, Order(d)) && visited <= visited'
    requires IsWater(g, Step(cell, d)) ==> Step(cell, d) in visited'
    ensures Covered(g, cell, visited', Order(d) + 1)
  {
    forall e | Order(e) < Order(d) + 1 && IsWater(g, Step(cell, e)) ensures Step(cell, e) in visited' {
      if Order(e) == Order(d) {
        assert e == d by {
          match e
          case N => case NE => case E => case SE => case S => case SW => case W => case NW =>
        }
      }
    }
  }

  /** Once all eight directions are covered, every water cell touching `cell` is visited. */
  lemma AllCovered(g: Grid, cell: Cell, visited: set<Cell>)
    requires Covered(g, cell, visited, 8)
    ensures forall n :: Touching(cell, n) && IsWater(g, n) ==> n in visited
  {
    forall n | Touching(cell, n) && IsWater(g, n) ensures n in visited {
      CompassCoversTouching(cell, n);
      var d :| Step(cell, d) == n;
    }
  }

  /**
   * One `if (cell !== null)` block of `findNearbyWaterCell`, with its
   * recursive call. `origin`/`originLake` are the sets as the enclosing
   * search found them, and `done` the directions it has already tried.
   */
  method VisitDirection(g: Grid, ghost origin: set<Cell>, ghost originLake: set<Cell>,
                        visited: set<Cell>, lake: set<Cell>, cell: Cell, d: Compass, ghost done: nat)
    returns (visited': set<Cell>, lake': set<Cell>)
    requires cell in origin && IsWater(g, cell)
    requires Grown(g, cell, origin, originLake, visited, lake)
    requires Order(d) == done
    requires Covered(g, cell, visited, done)
    ensures Grown(g, cell, origin, originLake, visited', lake')
    ensures Covered(g, cell, visited', done + 1)
    ensures |AllCells(g) - visited'| <= |AllCells(g) - visited|
    decreases |AllCells(g) - visited|, 0
  {
    var next := GetCell(g, visited, cell, d);
    if next.None? {
      CoveredStep(g, cell, visited, visited, d);
      return visited, lake;
    }
    var n := next.value;
    assert Touching(cell, n) by {
      CompassCoversTouching(cell, n);
    }
    lake' := lake + {n};
    visited' := visited + {n};
    assert AllCells(g) - visited' == (AllCells(g) - visited) - {n};
    visited', lake' := FindNearbyWaterCell(g, visited', lake', n);
    GrownThrough(g, cell, n, visited, lake, visited', lake');
    GrownTrans(g, cell, origin, originLake, visited, lake, visited', lake');
    CoveredStep(g, cell, visited, visited', d);
    SubsetSize(AllCells(g) - visited', AllCells(g) - visited);
  }

  /**
   * `findNearbyWaterCell`: try the eight neighbours of `cell` in the order
   * N, NE, E, SE, S, SW, W, NW; each water cell not yet visited is added to
   * the lake, marked visited and searched from in turn. When the search
   * returns, every water cell touching `cell` has been visited.
   */
  method FindNearbyWaterCell(g: Grid, visited: set<Cell>, lake: set<Cell>, cell: Cell)
    returns (visited': set<Cell>, lake': set<Cell>)
    requires cell in visited && IsWater(g, cell)
    ensures Grown(g, cell, visited, lake, visited', lake')
    ensures forall n :: Touching(cell, n) && IsWater(g, n) ==> n in visited'
    decreases |AllCells(g) - visited|, 1
  {
    GrownNothing(g, cell, visited, lake);
    visited', lake' := VisitDirection(g, visited, lake, visited, lake, cell, N, 0);
    visited', lake' := VisitDirection(g, visited, lake, visited', lake', cell, NE, 1);
    visited', lake' := VisitDirection(g, visited, lake, visited', lake', cell, E, 2);
    visited', lake' := VisitDirection(g, visited, lake, visited', lake', cell, SE, 3);
    visited', lake' := VisitDirection(g, visited, lake, visited', lake', cell, S, 4);
    visited', lake' := VisitDirection(g, visited, lake, visited', lake', cell, SW, 5);
    visited', lake' := VisitDirection(g, visited, lake, visited', lake', cell, W, 6);
    visited', lake' := VisitDirection(g, visited, lake, visited', lake', cell, NW, 7);
    AllCovered(g, cell, visited');
  }

  // ---------------------------------------------------------------------------
  // countLakes
  // ---------------------------------------------------------------------------

  /** Every water cell the scan has passed is visited. */
  ghost predicate ScannedWaterVisited(g: Grid, visited: set<Cell>, i: int, j: int) {
    forall c :: IsWater(g, c) && Scanned(c, i, j) ==> c in visited
  }

  /** Passing one cell, which is visited by then if it is water. */
  lemma ScanCell(g: Grid, visited: set<Cell>, visited': set<Cell>, i: int, j: int)
    requires ScannedWaterVisited(g, visited, i, j) && visited <= visited'
    requires IsWater(g, Cell(i, j)) ==> Cell(i, j) in visited'
    ensures ScannedWaterVisited(g, visited', i, j + 1)
  {
  }

  /** Passing the end of a row. */
  lemma ScanRowEnd(g: Grid, visited: set<Cell>, i: int)
    requires 0 <= i < |g|
    requires ScannedWaterVisited(g, visited, i, |g[i]|)
    ensures ScannedWaterVisited(g, visited, i + 1, 0)
  {
  }

  /** The search seeded at a fresh water cell adds exactly one new lake. */
  lemma NewLake(g: Grid, lakes: seq<set<Cell>>, visited: set<Cell>, cell: Cell,
                visited': set<Cell>, lake: set<Cell>)
    requires IsLakesOf(g, lakes, visited)
    requires IsWater(g, cell) && cell !in visited
    requires Grown(g, cell, visited + {cell}, {cell}, visited', lake)
    requires forall n :: Touching(cell, n) && IsWater(g, n) ==> n in visited'
    ensures lake == visited' - visited
    ensures IsLakesOf(g, lakes + [lake], visited')
  {
    assert lake == visited' - visited;
    assert visited' - (visited + {cell}) + {cell} == lake;
    forall c | c in lake ensures Reaches(lake, cell, c) {
      if c == cell {
        ReachesSelf(lake, cell);
      }
    }
    forall c, n | c in lake && Touching(c, n) && IsWater(g, n) ensures n in lake {
      assert n in visited';
      if n in visited {
        UnionMember(lakes, n);
        var k :| 0 <= k < |lakes| && n in lakes[k];
        assert Touching(n, c) && IsWater(g, c);
        UnionMember(lakes, c);
      }
    }
    assert IsLake(g, lake);
    var lakes' := lakes + [lake];
    forall j, k | 0 <= j < k < |lakes'| ensures lakes'[j] !! lakes'[k] {
      if k == |lakes| {
        forall c | c in lakes'[j] ensures c in visited {
          UnionMember(lakes, c);
        }
      }
    }
    assert lakes'[..|lakes|] == lakes;
  }

  /**
   * `countLakes`: scan the garden row by row; each water cell not yet visited
   * starts a new lake, which the search floods. The number of lakes is the
   * answer. The ghost `lakes` are the lakes in the order they were found:
   * they split the water cells of the garden into lakes.
   */
  method CountLakes(g: Grid) returns (count: nat, ghost lakes: seq<set<Cell>>)
    ensures count == |lakes|
    ensures IsLakesOf(g, lakes, WaterCells(g))
    ensures forall split :: IsLakesOf(g, split, WaterCells(g)) ==> count == |split|
  {
    var found: seq<set<Cell>> := [];
    var visited: set<Cell> := {};
    for i := 0 to |g|
      invariant IsLakesOf(g, found, visited)
      invariant ScannedWaterVisited(g, visited, i, 0)
    {
      var row := g[i];
      for j := 0 to |row|
        invariant IsLakesOf(g, found, visited)
        invariant ScannedWaterVisited(g, visited, i, j)
      {
        var cell := Cell(i, j);
        if !IsCandidateCell(g, visited, cell) {
          ScanCell(g, visited, visited, i, j);
          continue;
        }
        ghost var visited0 := visited;
        visited := visited + {cell};
        var lake := {cell};
        visited, lake := FindNearbyWaterCell(g, visited, lake, cell);
        NewLake(g, found, visited0, cell, visited, lake);
        ScanCell(g, visited0, visited, i, j);
        found := found + [lake];
      }
      ScanRowEnd(g, visited, i);
    }
    count := |found|;
    lakes := found;
    ScanComplete(g, found, visited);
    forall split | IsLakesOf(g, split, WaterCells(g))
      ensures count == |split|
    {
      LakeCountUnique(g, found, split);
    }
  }

  /** When the scan is over, the visited cells are the water cells. */
  lemma ScanComplete(g: Grid, lakes: seq<set<Cell>>, visited: set<Cell>)
    requires IsLakesOf(g, lakes, visited)
    requires ScannedWaterVisited(g, visited, |g|, 0)
    ensures visited == WaterCells(g)
  {
    forall c | c in visited ensures IsWater(g, c) {
      UnionMember(lakes, c);
      var k :| 0 <= k < |lakes| && c in lakes[k];
      assert IsLake(g, lakes[k]);
    }
    forall c | IsWater(g, c) ensures c in visited {
      assert Scanned(c, |g|, 0);
    }
  }

  // ---------------------------------------------------------------------------
  // The count is determined by the garden
  // ---------------------------------------------------------------------------

  /** The water cells joined to `a` by a walk over water. */
  ghost function Component(g: Grid, a: Cell): (cells: set<Cell>)
    ensures forall b :: b in cells <==> IsWater(g, b) && Reaches(WaterCells(g), a, b)
  {
    set b | b in WaterCells(g) && Reaches(WaterCells(g), a, b)
  }

  /** A lake is the set of water cells joined to any one of its cells. */
  lemma LakeIsComponent(g: Grid, lake: set<Cell>, a: Cell)
    requires IsLake(g, lake) && a in lake
    ensures lake == Component(g, a)
  {
    forall b ensures b in lake <==> b in Component(g, a) {
      SameLakeIffJoined(g, lake, a, b);
    }
  }

  /** A sequence without repeats has as many elements as the set of its elements. */
  lemma {:induction false} DistinctSize(p: seq<set<Cell>>)
    requires forall j, k :: 0 <= j < k < |p| ==> p[j] != p[k]
    ensures |set x | x in p| == |p|
  {
    if p != [] {
      var last := p[|p| - 1];
      var init := p[..|p| - 1];
      DistinctSize(init);
      assert (set x | x in p) == (set x | x in init) + {last};
      assert last !in (set x | x in init);
    }
  }

  /** A lake is one of the lakes of any split of the water cells into lakes. */
  lemma LakeInSplit(g: Grid, x: set<Cell>, q: seq<set<Cell>>)
    requires IsLake(g, x)
    requires IsLakesOf(g, q, WaterCells(g))
    ensures x in q
  {
    var a :| a in x && forall c :: c in x ==> Reaches(x, a, c);
    assert a in WaterCells(g);
    UnionMember(q, a);
    var m :| 0 <= m < |q| && a in q[m];
    LakeIsComponent(g, x, a);
    LakeIsComponent(g, q[m], a);
  }

  /** Two ways of splitting the same water cells into lakes use the same lakes. */
  lemma SameLakes(g: Grid, p: seq<set<Cell>>, q: seq<set<Cell>>)
    requires IsLakesOf(g, p, WaterCells(g)) && IsLakesOf(g, q, WaterCells(g))
    ensures (set x | x in p) <= (set x | x in q)
  {
    forall x | x in p ensures x in q {
      var k :| 0 <= k < |p| && p[k] == x;
      LakeInSplit(g, x, q);
    }
  }

  /** Lakes that share no cell and are never empty are all different. */
  lemma LakesDistinct(g: Grid, p: seq<set<Cell>>)
    requires IsLakesOf(g, p, WaterCells(g))
    ensures forall j, k :: 0 <= j < k < |p| ==> p[j] != p[k]
  {
    forall j, k | 0 <= j < k < |p| ensures p[j] != p[k] {
      assert IsLake(g, p[j]);
      var a :| a in p[j] && forall c :: c in p[j] ==> Reaches(p[j], a, c);
    }
  }

  /**
   * The number of lakes does not depend on the order of the scan or of the
   * search: any split of the water cells into lakes has the same size, the
   * number of groups of water cells joined by walks.
   */
  lemma LakeCountUnique(g: Grid, p: seq<set<Cell>>, q: seq<set<Cell>>)
    requires IsLakesOf(g, p, WaterCells(g)) && IsLakesOf(g, q, WaterCells(g))
    ensures |p| == |q|
  {
    var inP, inQ := set x | x in p, set x | x in q;
    assert inP == inQ by {
      SameLakes(g, p, q);
      SameLakes(g, q, p);
    }
    assert |p| == |inP| by {
      LakesDistinct(g, p);
      DistinctSize(p);
    }
    assert |q| == |inQ| by {
      LakesDistinct(g, q);
      DistinctSize(q);
    }
  }
}
