/** The single-prize depth-first search of `Labs/PartA/Part2/single_dfs.py`:
    a stack of (cell, path) entries, a set of visited cells, the count of
    expanded cells, and the marking of the path found with '#'. */
module MazeDfs {
  import opened Options
  import opened MazeWorld

  /** A stack entry: a cell and the path from the start that reached it. */
  datatype Entry = Entry(pos: Point, path: seq<Point>)

  /** The order in which `solve_dfs` tries the neighbours:
      (0, -1), (0, 1), (-1, 0), (1, 0). */
  const Order: seq<Direction> := [N, S, W, E]

  /** `grid[y][x]` can be read and written. */
  predicate InGrid(g: seq<seq<char>>, p: Point)
  {
    0 <= p.y < |g| && 0 <= p.x < |g[p.y]|
  }

  /** The cells `is_valid_move` accepts. */
  function OpenCells(g: seq<seq<char>>): set<Point>
    requires Covered(g)
  {
    set y, x | 0 <= y < |g| && 0 <= x < |g[0]| && g[y][x] != '%' :: Point(x, y)
  }

  lemma OpenCellsMember(g: seq<seq<char>>, p: Point)
    requires Covered(g)
    ensures p in OpenCells(g) <==> Open(g, p)
  {
    if Open(g, p) {
      assert p == Point(p.x, p.y);
    }
  }

  /** The cells of the entries on a stack. */
  function Positions(stack: seq<Entry>): set<Point>
  {
    set e | e in stack :: e.pos
  }

  lemma PositionsAppend(a: seq<Entry>, b: seq<Entry>)
    ensures Positions(a + b) == Positions(a) + Positions(b)
  {
    forall p | p in Positions(a + b) ensures p in Positions(a) + Positions(b) {
      var e :| e in a + b && e.pos == p;
    }
    forall p | p in Positions(a) + Positions(b) ensures p in Positions(a + b) {
      if p in Positions(a) {
        var e :| e in a && e.pos == p;
        assert e in a + b;
      } else {
        var e :| e in b && e.pos == p;
        assert e in a + b;
      }
    }
  }

  /** The entry's path is a walk from `s` that ends at the entry's cell. */
  predicate Reaches(g: seq<seq<char>>, s: Point, e: Entry)
    requires Covered(g)
  {
    Walk(g, e.path) && e.path[0] == s && e.path[|e.path| - 1] == e.pos
  }

  lemma WalkExtend(g: seq<seq<char>>, w: seq<Point>, n: Point)
    requires Covered(g) && Walk(g, w) && Adjacent(w[|w| - 1], n) && Open(g, n)
    ensures Walk(g, w + [n])
  {
    var v := w + [n];
    forall k | 0 < k < |v| ensures Adjacent(v[k - 1], v[k]) && Open(g, v[k]) {
      if k < |w| {
        assert v[k - 1] == w[k - 1] && v[k] == w[k];
      }
    }
  }

  /** The entries `solve_dfs` pushes when it expands `pos`, reached by
      `path`, trying the directions `dirs` in order: each valid neighbour not
      yet visited, with the path extended by it. */
  function Pushed(g: seq<seq<char>>, visited: set<Point>, pos: Point, path: seq<Point>, dirs: seq<Direction>): seq<Entry>
    requires Covered(g)
  {
    if dirs == [] then []
    else
      var n := Step(pos, dirs[|dirs| - 1]);
      Pushed(g, visited, pos, path, dirs[..|dirs| - 1]) + (if Open(g, n) && n !in visited then [Entry(n, path + [n])] else [])
  }

  /** Every pushed entry is a valid unvisited neighbour with the path
      extended by it, and every valid unvisited neighbour is pushed. */
  lemma {:induction false} PushedMeaning(g: seq<seq<char>>, visited: set<Point>, pos: Point, path: seq<Point>, dirs: seq<Direction>)
    requires Covered(g)
    ensures forall e | e in Pushed(g, visited, pos, path, dirs) ::
      e.pos !in visited && Open(g, e.pos) && Adjacent(pos, e.pos) && e.path == path + [e.pos]
    ensures forall a | a in dirs && Open(g, Step(pos, a)) && Step(pos, a) !in visited ::
      Step(pos, a) in Positions(Pushed(g, visited, pos, path, dirs))
  {
    if dirs != [] {
      var init := dirs[..|dirs| - 1];
      var a := dirs[|dirs| - 1];
      var n := Step(pos, a);
      var tail := if Open(g, n) && n !in visited then [Entry(n, path + [n])] else [];
      PushedMeaning(g, visited, pos, path, init);
      PositionsAppend(Pushed(g, visited, pos, path, init), tail);
      assert Adjacent(pos, n);
      forall b | b in dirs && Open(g, Step(pos, b)) && Step(pos, b) !in visited
        ensures Step(pos, b) in Positions(Pushed(g, visited, pos, path, dirs))
      {
        if b != a {
          assert b in init;
        } else {
          assert Entry(n, path + [n]) in tail;
        }
      }
    }
  }

  /** Every valid neighbour of a visited cell is visited or waits in the
      frontier. */
  predicate Closed(g: seq<seq<char>>, visited: set<Point>, frontier: set<Point>)
    requires Covered(g)
  {
    forall v, a | v in visited && Open(g, Step(v, a)) :: Step(v, a) in visited || Step(v, a) in frontier
  }

  /** `Order` tries all four directions. */
  lemma OrderComplete(a: Direction)
    ensures a in Order
  {
    match a
    case N => assert Order[0] == a;
    case S => assert Order[1] == a;
    case W => assert Order[2] == a;
    case E => assert Order[3] == a;
  }

  /** Popping an entry whose cell is already visited keeps the closure. */
  lemma PopKeepsClosed(g: seq<seq<char>>, visited: set<Point>, rest: seq<Entry>, e: Entry)
    requires Covered(g) && e.pos in visited && Closed(g, visited, Positions(rest + [e]))
    ensures Closed(g, visited, Positions(rest))
  {
    PositionsAppend(rest, [e]);
    assert Positions([e]) == {e.pos};
  }

  /** Expanding a cell pushes the neighbours that keep the closure. */
  lemma ExpandKeepsClosed(g: seq<seq<char>>, visited: set<Point>, rest: seq<Entry>, e: Entry)
    requires Covered(g) && e.pos in visited && Closed(g, visited - {e.pos}, Positions(rest + [e]))
    ensures Closed(g, visited, Positions(rest + Pushed(g, visited, e.pos, e.path, Order)))
  {
    var pushed := Pushed(g, visited, e.pos, e.path, Order);
    PushedMeaning(g, visited, e.pos, e.path, Order);
    PositionsAppend(rest, [e]);
    assert Positions([e]) == {e.pos};
    PositionsAppend(rest, pushed);
    forall v, a | v in visited && Open(g, Step(v, a))
      ensures Step(v, a) in visited || Step(v, a) in Positions(rest + pushed)
    {
      if v == e.pos {
        OrderComplete(a);
      } else {
        assert v in visited - {e.pos};
      }
    }
  }

  /** Every entry on the stack holds a cell of `universe` and a walk from
      the start to it. */
  predicate Frontier(g: seq<seq<char>>, s: Point, universe: set<Point>, stack: seq<Entry>)
    requires Covered(g)
  {
    forall e | e in stack :: e.pos in universe && Reaches(g, s, e)
  }

  /** The top of the stack and the rest. */
  lemma PopFacts(g: seq<seq<char>>, s: Point, universe: set<Point>, stack: seq<Entry>)
    requires Covered(g) && stack != [] && Frontier(g, s, universe, stack)
    ensures var e, rest := stack[|stack| - 1], stack[..|stack| - 1];
      && stack == rest + [e] && Frontier(g, s, universe, rest)
      && e.pos in universe && Reaches(g, s, e)
      && Positions(stack) == Positions(rest) + {e.pos}
  {
    var e, rest := stack[|stack| - 1], stack[..|stack| - 1];
    assert stack == rest + [e];
    PositionsAppend(rest, [e]);
    assert Positions([e]) == {e.pos};
  }

  /** The cells of a walk from a start inside the grid can all be marked. */
  lemma ReachesInGrid(g: seq<seq<char>>, s: Point, e: Entry)
    requires Covered(g) && InGrid(g, s) && Reaches(g, s, e)
    ensures forall p | p in e.path :: InGrid(g, p)
  {
    forall p | p in e.path ensures InGrid(g, p) {
      var k :| 0 <= k < |e.path| && e.path[k] == p;
      if k > 0 {
        assert Open(g, e.path[k]);
      }
    }
  }

  /** Pushing the neighbours of an entry on the rest of the stack keeps
      every entry a walk from the start to a valid cell. */
  lemma PushedReach(g: seq<seq<char>>, s: Point, visited: set<Point>, e: Entry, rest: seq<Entry>)
    requires Covered(g) && Reaches(g, s, e) && Frontier(g, s, OpenCells(g) + {s}, rest)
    ensures Frontier(g, s, OpenCells(g) + {s}, rest + Pushed(g, visited, e.pos, e.path, Order))
  {
    PushedMeaning(g, visited, e.pos, e.path, Order);
    forall n | n in Pushed(g, visited, e.pos, e.path, Order) ensures n.pos in OpenCells(g) && Reaches(g, s, n) {
      OpenCellsMember(g, n.pos);
      WalkExtend(g, e.path, n.pos);
    }
  }

  /** A set of cells that holds the start of a walk and every valid
      neighbour of its members holds the whole walk. */
  lemma {:induction false} ClosedHoldsWalks(g: seq<seq<char>>, closed: set<Point>, w: seq<Point>)
    requires Covered(g) && Walk(g, w) && w[0] in closed
    requires Closed(g, closed, {})
    ensures w[|w| - 1] in closed
    decreases |w|
  {
    if |w| > 1 {
      var init := w[..|w| - 1];
      assert forall k | 0 <= k < |init| :: init[k] == w[k];
      ClosedHoldsWalks(g, closed, init);
      var a :| w[|w| - 1] == Step(w[|w| - 2], a);
    }
  }

  /** The grid after `mark_solution_path(path)`: every cell on the path
      becomes '#', except the cells holding 'P' or '.'. */
  function Marked(g: seq<seq<char>>, path: seq<Point>): (m: seq<seq<char>>)
    ensures |m| == |g| && forall y | 0 <= y < |g| :: |m[y]| == |g[y]|
  {
    seq(|g|, y requires 0 <= y < |g| => seq(|g[y]|, x requires 0 <= x < |g[y]| =>
      if Point(x, y) in path && g[y][x] != 'P' && g[y][x] != '.' then '#' else g[y][x]))
  }

  /** Marking writes '#' on the path only, keeps the start, the prizes and
      every cell off the path, and leaves the valid cells valid when the
      path crosses no wall. */
  lemma MarkedMeaning(g: seq<seq<char>>, path: seq<Point>)
    ensures forall y, x | 0 <= y < |g| && 0 <= x < |g[y]| ::
      && (Marked(g, path)[y][x] != g[y][x] ==> Point(x, y) in path && Marked(g, path)[y][x] == '#')
      && (g[y][x] == 'P' || g[y][x] == '.' ==> Marked(g, path)[y][x] == g[y][x])
    ensures Covered(g) && (forall p | p in path && InGrid(g, p) :: g[p.y][p.x] != '%') ==>
      Covered(Marked(g, path)) && forall p :: Open(Marked(g, path), p) == Open(g, p)
  {
  }

  lemma MarkedEmpty(g: seq<seq<char>>)
    ensures Marked(g, []) == g
  {
    forall y | 0 <= y < |g| ensures Marked(g, [])[y] == g[y] { }
  }

  lemma MarkedStep(g: seq<seq<char>>, path: seq<Point>, p: Point)
    requires InGrid(g, p)
    ensures var m := Marked(g, path);
      Marked(g, path + [p]) ==
        if m[p.y][p.x] == 'P' || m[p.y][p.x] == '.' then m else m[p.y := m[p.y][p.x := '#']]
  {
    var m := Marked(g, path);
    var next := if m[p.y][p.x] == 'P' || m[p.y][p.x] == '.' then m else m[p.y := m[p.y][p.x := '#']];
    forall y | 0 <= y < |g| ensures Marked(g, path + [p])[y] == next[y] {
      assert forall x | 0 <= x < |g[y]| :: Marked(g, path + [p])[y][x] == next[y][x];
    }
  }

  /** `Maze(file_path)` of the single-prize search: the lines, the start and
      the prize. */
  class Maze {
    var grid: seq<seq<char>>
    var start: Option<Point>
    var prize: Option<Point>

    /** `__init__`: empty fields, then `load_maze`. */
    constructor (lines: seq<seq<char>>)
      ensures grid == lines
      ensures start == LinesLast(lines, |lines|, 'P')
      ensures prize == LinesLast(lines, |lines|, '.')
    {
      grid := [];
      start := None;
      prize := None;
      new;
      LoadMaze(lines);
    }

    /** `load_maze`: every line is appended to the grid; the last 'P' is the
        start and the last '.' the prize. */
    method LoadMaze(lines: seq<seq<char>>)
      modifies this
      ensures grid == old(grid) + lines
      ensures start == if LinesLast(lines, |lines|, 'P').Some? then LinesLast(lines, |lines|, 'P') else old(start)
      ensures prize == if LinesLast(lines, |lines|, '.').Some? then LinesLast(lines, |lines|, '.') else old(prize)
    {
      for y := 0 to |lines|
        invariant grid == old(grid) + lines[..y]
        invariant start == if LinesLast(lines, y, 'P').Some? then LinesLast(lines, y, 'P') else old(start)
        invariant prize == if LinesLast(lines, y, '.').Some? then LinesLast(lines, y, '.') else old(prize)
      {
        var row := lines[y];
        for x := 0 to |row|
          invariant grid == old(grid) + lines[..y]
          invariant start ==
            if RowLast(row, y, x, 'P').Some? then RowLast(row, y, x, 'P')
            else if LinesLast(lines, y, 'P').Some? then LinesLast(lines, y, 'P') else old(start)
          invariant prize ==
            if RowLast(row, y, x, '.').Some? then RowLast(row, y, x, '.')
            else if LinesLast(lines, y, '.').Some? then LinesLast(lines, y, '.') else old(prize)
        {
          if row[x] == 'P' {
            start := Some(Point(x, y));
          } else if row[x] == '.' {
            prize := Some(Point(x, y));
          }
        }
        grid := grid + [row];
        assert lines[..y + 1] == lines[..y] + [row];
      }
      assert lines[..|lines|] == lines;
    }

    /** `is_valid_move(x, y)`. */
    predicate IsValidMove(x: int, y: int)
      reads this
      requires Covered(grid)
    {
      Open(grid, Point(x, y))
    }

    /** `solve_dfs`: pops entries until the prize is popped, expanding each
        cell once. A found path is a walk from the start to the prize made
        of valid cells, its cost is its number of steps, and the grid is
        marked along it. Without one the result is (None, -1) and no walk
        from the start reaches the prize. Either way every expanded cell is
        counted once and is the start or a valid cell. */
    method SolveDfs() returns (path: Option<seq<Point>>, cost: int, nodesExpanded: nat, ghost expanded: set<Point>)
      requires Covered(grid) && start.Some? && InGrid(grid, start.value)
      modifies this
      ensures start == old(start) && prize == old(prize)
      ensures nodesExpanded == |expanded| && expanded <= OpenCells(old(grid)) + {start.value}
      ensures path.Some? ==>
        && prize.Some? && Walk(old(grid), path.value)
        && path.value[0] == start.value && path.value[|path.value| - 1] == prize.value
        && cost == |path.value| - 1 && grid == Marked(old(grid), path.value)
      ensures path.None? ==>
        && cost == -1 && grid == old(grid)
        && (prize.Some? ==> forall w | Walk(grid, w) && w[0] == start.value :: w[|w| - 1] != prize.value)
    {
      var found;
      found, nodesExpanded, expanded := Search();
      if found.Some? {
        ReachesInGrid(grid, start.value, found.value);
        MarkSolutionPath(found.value.path);
        return Some(found.value.path), |found.value.path| - 1, nodesExpanded, expanded;
      }
      forall w | Walk(grid, w) && w[0] == start.value ensures w[|w| - 1] in expanded {
        ClosedHoldsWalks(grid, expanded, w);
      }
      return None, -1, nodesExpanded, expanded;
    }

    /** The loop of `solve_dfs` up to the return: the entry holding the prize
        when it is popped, or, once the stack runs empty, a set of expanded
        cells that holds the start, not the prize, and every valid
        neighbour of its members. */
    method Search() returns (found: Option<Entry>, nodesExpanded: nat, ghost visited: set<Point>)
      requires Covered(grid) && start.Some?
      ensures nodesExpanded == |visited| && visited <= OpenCells(grid) + {start.value}
      ensures found.Some? ==> prize == Some(found.value.pos) && Reaches(grid, start.value, found.value)
      ensures found.None? ==>
        && start.value in visited && Closed(grid, visited, {})
        && (prize.Some? ==> prize.value !in visited)
    {
      var s := start.value;
      ghost var universe := OpenCells(grid) + {s};
      var stack := [Entry(s, [s])];
      var seen := {};
      nodesExpanded := 0;
      while stack != []
        invariant seen <= universe && nodesExpanded == |seen|
        invariant Frontier(grid, s, universe, stack)
        invariant s in seen || s in Positions(stack)
        invariant prize.Some? ==> prize.value !in seen
        invariant Closed(grid, seen, Positions(stack))
        decreases |universe - seen|, |stack|
      {
        var e := stack[|stack| - 1];
        var rest := stack[..|stack| - 1];
        PopFacts(grid, s, universe, stack);
        if e.pos in seen {
          PopKeepsClosed(grid, seen, rest, e);
          stack := rest;
          continue;
        }
        ghost var before := seen;
        assert universe - (seen + {e.pos}) == (universe - seen) - {e.pos};
        seen := seen + {e.pos};
        nodesExpanded := nodesExpanded + 1;
        if prize == Some(e.pos) {
          return Some(e), nodesExpanded, seen;
        }
        var pushed := PushNeighbours(e, seen);
        assert before == seen - {e.pos};
        ExpandKeepsClosed(grid, seen, rest, e);
        PushedReach(grid, s, seen, e, rest);
        stack := rest + pushed;
      }
      return None, nodesExpanded, seen;
    }

    /** The inner loop of `solve_dfs` over the four directions. */
    method PushNeighbours(e: Entry, visited: set<Point>) returns (pushed: seq<Entry>)
      requires Covered(grid)
      ensures pushed == Pushed(grid, visited, e.pos, e.path, Order)
    {
      pushed := [];
      for k := 0 to |Order|
        invariant pushed == Pushed(grid, visited, e.pos, e.path, Order[..k])
      {
        var n := Step(e.pos, Order[k]);
        if IsValidMove(n.x, n.y) && n !in visited {
          pushed := pushed + [Entry(n, e.path + [n])];
        }
        assert Order[..k + 1][..k] == Order[..k];
      }
      assert Order[..|Order|] == Order;
    }

    /** `mark_solution_path(path)`: '#' on every cell of the path that holds
        neither 'P' nor '.'. */
    method MarkSolutionPath(path: seq<Point>)
      requires forall p | p in path :: InGrid(grid, p)
      modifies this
      ensures grid == Marked(old(grid), path)
      ensures start == old(start) && prize == old(prize)
    {
      ghost var g0 := grid;
      MarkedEmpty(g0);
      assert path[..0] == [];
      for k := 0 to |path|
        invariant grid == Marked(g0, path[..k])
        invariant start == old(start) && prize == old(prize)
      {
        var p := path[k];
        MarkedStep(g0, path[..k], p);
        if grid[p.y][p.x] != 'P' && grid[p.y][p.x] != '.' {
          grid := grid[p.y := grid[p.y][p.x := '#']];
        }
        assert path[..k + 1] == path[..k] + [p];
      }
      assert path[..|path|] == path;
    }
  }
}
