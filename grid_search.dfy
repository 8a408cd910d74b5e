/** What the searches of `Labs/PartA/Part3/single_searchers.py` and
    `Labs/PartA/Part4/main.py` share: (row, column) coordinates, the
    Manhattan distance, the passable cells (' ' and '.'), walks over them,
    the `came_from` chains that `reconstruct_path` follows, `mark_path` with
    the joined text, and the min-priority queue that `heapq` provides. */
module GridSearch {
  import opened Options

  /** `(i, j)`: i counts lines, j counts characters along a line. */
  datatype Coord = Coord(i: int, j: int)

  function Abs(n: int): nat
  {
    if n < 0 then -n else n
  }

  /** `manhattan_distance(a, b)`. */
  function Manhattan(a: Coord, b: Coord): nat
  {
    Abs(a.i - b.i) + Abs(a.j - b.j)
  }

  /** The distance is symmetric, zero exactly between equal points, and
      obeys the triangle inequality. */
  lemma ManhattanMetric(a: Coord, b: Coord, c: Coord)
    ensures Manhattan(a, b) == Manhattan(b, a)
    ensures Manhattan(a, b) == 0 <==> a == b
    ensures Manhattan(a, c) <= Manhattan(a, b) + Manhattan(b, c)
  {
  }

  /** The k-th neighbour in the order the searches try them:
      (0, 1), (1, 0), (0, -1), (-1, 0). */
  function Neighbour(c: Coord, k: int): Coord
    requires 0 <= k < 4
  {
    if k == 0 then Coord(c.i, c.j + 1)
    else if k == 1 then Coord(c.i + 1, c.j)
    else if k == 2 then Coord(c.i, c.j - 1)
    else Coord(c.i - 1, c.j)
  }

  /** b is one step from a. */
  predicate Adjacent(a: Coord, b: Coord)
  {
    Manhattan(a, b) == 1
  }

  /** The neighbours tried are exactly the cells one step away. */
  lemma NeighbourMeaning(a: Coord, b: Coord)
    ensures Adjacent(a, b) <==> exists k | 0 <= k < 4 :: b == Neighbour(a, k)
  {
    if Adjacent(a, b) {
      if b.i == a.i + 1 {
        assert b == Neighbour(a, 1);
      } else if b.i == a.i - 1 {
        assert b == Neighbour(a, 3);
      } else if b.j == a.j + 1 {
        assert b == Neighbour(a, 0);
      } else {
        assert b == Neighbour(a, 2);
      }
    }
  }

  /** `maze[i][j]` can be read. */
  predicate InBounds(m: seq<seq<char>>, c: Coord)
  {
    0 <= c.i < |m| && 0 <= c.j < |m[c.i]|
  }

  /** A cell the searches may enter: `maze[i][j] in (' ', '.')`. */
  predicate Passable(m: seq<seq<char>>, c: Coord)
  {
    InBounds(m, c) && (m[c.i][c.j] == ' ' || m[c.i][c.j] == '.')
  }

  function PassableCells(m: seq<seq<char>>): set<Coord>
  {
    set i, j | 0 <= i < |m| && 0 <= j < |m[i]| && (m[i][j] == ' ' || m[i][j] == '.') :: Coord(i, j)
  }

  lemma PassableCellsMember(m: seq<seq<char>>, c: Coord)
    ensures c in PassableCells(m) <==> Passable(m, c)
  {
    if Passable(m, c) {
      assert c == Coord(c.i, c.j);
    }
  }

  /** The four neighbours of c can be read. */
  predicate Surrounded(m: seq<seq<char>>, c: Coord)
  {
    forall k | 0 <= k < 4 :: InBounds(m, Neighbour(c, k))
  }

  /** The searches read every neighbour without a bounds check: the start
      and every passable cell must have all four neighbours inside the
      maze, as a border of walls guarantees. */
  ghost predicate Enclosed(m: seq<seq<char>>, start: Coord)
  {
    Surrounded(m, start) && forall c | Passable(m, c) :: Surrounded(m, c)
  }

  /** `w` leads from `start` (which it does not hold) one step at a time
      over passable cells. */
  predicate Walk(m: seq<seq<char>>, start: Coord, w: seq<Coord>)
  {
    forall k | 0 <= k < |w| :: StepOk(m, start, w, k)
  }

  /** Position k of the walk is passable and one step from the cell before. */
  predicate StepOk(m: seq<seq<char>>, start: Coord, w: seq<Coord>, k: int)
    requires 0 <= k < |w|
  {
    Passable(m, w[k]) && Adjacent(Before(start, w, k), w[k])
  }

  /** The cell before position k of a walk from `start`. */
  function Before(start: Coord, w: seq<Coord>, k: int): Coord
    requires 0 <= k < |w|
  {
    if k == 0 then start else w[k - 1]
  }

  /** Every passable neighbour of a member of `s` is in `t`. */
  predicate Closed(m: seq<seq<char>>, s: set<Coord>, t: set<Coord>)
  {
    forall v, k | v in s && 0 <= k < 4 && Passable(m, Neighbour(v, k)) :: Neighbour(v, k) in t
  }

  /** A walk without its last cell is a walk. */
  lemma WalkPrefix(m: seq<seq<char>>, start: Coord, w: seq<Coord>)
    requires Walk(m, start, w) && w != []
    ensures Walk(m, start, w[..|w| - 1])
  {
    var init := w[..|w| - 1];
    forall k | 0 <= k < |init|
      ensures StepOk(m, start, init, k)
    {
      assert StepOk(m, start, w, k);
      assert init[k] == w[k];
      assert Before(start, init, k) == Before(start, w, k);
    }
  }

  /** A walk with one more passable step is a walk. */
  lemma WalkAppend(m: seq<seq<char>>, start: Coord, w: seq<Coord>, c: Coord)
    requires Walk(m, start, w) && Passable(m, c) && Adjacent(if w == [] then start else w[|w| - 1], c)
    ensures Walk(m, start, w + [c])
  {
    var v := w + [c];
    forall k | 0 <= k < |v|
      ensures StepOk(m, start, v, k)
    {
      if k < |w| {
        assert StepOk(m, start, w, k);
        assert v[k] == w[k];
        assert Before(start, v, k) == Before(start, w, k);
      } else {
        assert Before(start, v, k) == if w == [] then start else w[|w| - 1];
      }
    }
  }

  /** A set that holds the start and every passable neighbour of its
      members holds every walk from the start. */
  lemma {:induction false} ClosedHoldsWalks(m: seq<seq<char>>, s: set<Coord>, start: Coord, w: seq<Coord>)
    requires start in s && Closed(m, s, s) && Walk(m, start, w)
    ensures forall k | 0 <= k < |w| :: w[k] in s
    decreases |w|
  {
    if w != [] {
      var init := w[..|w| - 1];
      WalkPrefix(m, start, w);
      ClosedHoldsWalks(m, s, start, init);
      assert forall k | 0 <= k < |init| :: init[k] == w[k];
      var last := w[|w| - 1];
      var prev := if |w| == 1 then start else w[|w| - 2];
      assert prev in s;
      assert StepOk(m, start, w, |w| - 1);
      NeighbourMeaning(prev, last);
      var k :| 0 <= k < 4 && last == Neighbour(prev, k);
    }
  }

  // ---------------------------------------------------------------------
  // came_from and reconstruct_path
  // ---------------------------------------------------------------------

  /** `came_from` as the searches keep it: the start maps to None; every
      other cell is passable and maps to a neighbour that is also a key
      and has a lower rank, so following the entries reaches the start. */
  predicate Rooted(m: seq<seq<char>>, cameFrom: map<Coord, Option<Coord>>, start: Coord, rank: map<Coord, nat>)
  {
    && start in cameFrom && cameFrom[start] == None && cameFrom.Keys <= rank.Keys
    && forall c | c in cameFrom && c != start ::
         && cameFrom[c].Some? && cameFrom[c].value in cameFrom
         && rank[cameFrom[c].value] < rank[c]
         && Adjacent(cameFrom[c].value, c) && Passable(m, c)
  }

  /** The cells from `goal` back to the start (excluded) by `came_from`,
      in the order start to goal. */
  function Chain(m: seq<seq<char>>, cameFrom: map<Coord, Option<Coord>>, start: Coord, goal: Coord, rank: map<Coord, nat>): seq<Coord>
    requires Rooted(m, cameFrom, start, rank) && goal in cameFrom
    decreases rank[goal]
  {
    if goal == start then [] else Chain(m, cameFrom, start, cameFrom[goal].value, rank) + [goal]
  }

  /** The chain is a walk from the start to the goal over passable cells;
      each of its cells has as `came_from` entry the cell before it, or the
      start for the first; it is empty exactly when the goal is the
      start. */
  lemma {:induction false} ChainMeaning(m: seq<seq<char>>, cameFrom: map<Coord, Option<Coord>>, start: Coord, goal: Coord, rank: map<Coord, nat>)
    requires Rooted(m, cameFrom, start, rank) && goal in cameFrom
    ensures var c := Chain(m, cameFrom, start, goal, rank);
      && Walk(m, start, c)
      && (c == [] <==> goal == start)
      && (c != [] ==> c[|c| - 1] == goal)
      && forall k | 0 <= k < |c| ::
           c[k] in cameFrom && c[k] != start && cameFrom[c[k]] == Some(Before(start, c, k))
    decreases rank[goal]
  {
    if goal != start {
      var parent := cameFrom[goal].value;
      ChainMeaning(m, cameFrom, start, parent, rank);
      var c := Chain(m, cameFrom, start, parent, rank);
      assert Chain(m, cameFrom, start, goal, rank) == c + [goal];
      assert (if c == [] then start else c[|c| - 1]) == parent;
      WalkAppend(m, start, c, goal);
      ChainLinks(cameFrom, start, c, goal);
    }
  }

  lemma ChainLinks(cameFrom: map<Coord, Option<Coord>>, start: Coord, c: seq<Coord>, goal: Coord)
    requires forall k | 0 <= k < |c| ::
      c[k] in cameFrom && c[k] != start && cameFrom[c[k]] == Some(Before(start, c, k))
    requires goal in cameFrom && goal != start && cameFrom[goal] == Some(if c == [] then start else c[|c| - 1])
    ensures var d := c + [goal]; forall k | 0 <= k < |d| ::
      d[k] in cameFrom && d[k] != start && cameFrom[d[k]] == Some(Before(start, d, k))
  {
    var d := c + [goal];
    forall k | 0 <= k < |d|
      ensures d[k] in cameFrom && d[k] != start && cameFrom[d[k]] == Some(Before(start, d, k))
    {
      if k < |c| {
        assert d[k] == c[k];
        assert Before(start, d, k) == Before(start, c, k);
      } else {
        assert Before(start, d, k) == if c == [] then start else c[|c| - 1];
      }
    }
  }

  function Reversed<T>(s: seq<T>): (r: seq<T>)
    ensures |r| == |s|
  {
    if s == [] then [] else Reversed(s[1..]) + [s[0]]
  }

  lemma ReversedAppend<T>(s: seq<T>, x: T)
    ensures Reversed(s + [x]) == [x] + Reversed(s)
    decreases |s|
  {
    if s != [] {
      assert (s + [x])[1..] == s[1..] + [x];
      ReversedAppend(s[1..], x);
    } else {
      assert Reversed([x]) == Reversed([]) + [x];
    }
  }

  /** One step of `reconstruct_path`: the current cell moves from the
      chain to the collected cells. */
  lemma ChainUnwind(m: seq<seq<char>>, cameFrom: map<Coord, Option<Coord>>, start: Coord, goal: Coord, rank: map<Coord, nat>,
                    current: Coord, backwards: seq<Coord>)
    requires Rooted(m, cameFrom, start, rank) && goal in cameFrom && current in cameFrom && current != start
    requires Chain(m, cameFrom, start, goal, rank) == Chain(m, cameFrom, start, current, rank) + Reversed(backwards)
    ensures cameFrom[current].Some? && cameFrom[current].value in cameFrom
    ensures rank[cameFrom[current].value] < rank[current]
    ensures Chain(m, cameFrom, start, goal, rank) ==
      Chain(m, cameFrom, start, cameFrom[current].value, rank) + Reversed(backwards + [current])
  {
    var parent := cameFrom[current].value;
    ReversedAppend(backwards, current);
    ChainStep(m, cameFrom, start, rank, current);
    MoveToFront(Chain(m, cameFrom, start, goal, rank), Chain(m, cameFrom, start, current, rank),
      Chain(m, cameFrom, start, parent, rank), current, Reversed(backwards), Reversed(backwards + [current]));
  }

  lemma MoveToFront<T>(whole: seq<T>, front: seq<T>, init: seq<T>, x: T, back: seq<T>, back': seq<T>)
    requires whole == front + back && front == init + [x] && back' == [x] + back
    ensures whole == init + back'
  {
  }

  lemma ChainStep(m: seq<seq<char>>, cameFrom: map<Coord, Option<Coord>>, start: Coord, rank: map<Coord, nat>, current: Coord)
    requires Rooted(m, cameFrom, start, rank) && current in cameFrom && current != start
    ensures cameFrom[current].Some? && cameFrom[current].value in cameFrom
    ensures Chain(m, cameFrom, start, current, rank) == Chain(m, cameFrom, start, cameFrom[current].value, rank) + [current]
  {
  }

  /** `reconstruct_path(came_from, start, goal)`: follows `came_from` from
      the goal to the start, collecting the cells, then reverses them. The
      result is the chain to the goal. */
  method ReconstructPath(cameFrom: map<Coord, Option<Coord>>, start: Coord, goal: Coord, ghost m: seq<seq<char>>, ghost rank: map<Coord, nat>)
    returns (path: seq<Coord>)
    requires Rooted(m, cameFrom, start, rank) && goal in cameFrom
    ensures path == Chain(m, cameFrom, start, goal, rank)
  {
    var backwards := [];
    var current := goal;
    while current != start
      invariant current in cameFrom
      invariant Chain(m, cameFrom, start, goal, rank) == Chain(m, cameFrom, start, current, rank) + Reversed(backwards)
      decreases rank[current]
    {
      var parent := cameFrom[current].value;
      ChainUnwind(m, cameFrom, start, goal, rank, current, backwards);
      backwards := backwards + [current];
      current := parent;
    }
    path := Reversed(backwards);
  }

  // ---------------------------------------------------------------------
  // mark_path and the joined text
  // ---------------------------------------------------------------------

  /** The maze with every cell of `path` set to '#'. */
  function Painted(m: seq<seq<char>>, path: seq<Coord>): (r: seq<seq<char>>)
    ensures |r| == |m| && forall i | 0 <= i < |m| :: |r[i]| == |m[i]|
  {
    seq(|m|, i requires 0 <= i < |m| => seq(|m[i]|, j requires 0 <= j < |m[i]| =>
      if Coord(i, j) in path then '#' else m[i][j]))
  }

  /** Painting writes '#' on exactly the cells of the path inside the maze
      and keeps the others. */
  lemma PaintedMeaning(m: seq<seq<char>>, path: seq<Coord>)
    ensures forall c | InBounds(m, c) ::
      Painted(m, path)[c.i][c.j] == (if c in path then '#' else m[c.i][c.j])
  {
  }

  lemma PaintedEmpty(m: seq<seq<char>>)
    ensures Painted(m, []) == m
  {
    forall i | 0 <= i < |m| ensures Painted(m, [])[i] == m[i] { }
  }

  lemma PaintedStep(m: seq<seq<char>>, path: seq<Coord>, c: Coord)
    requires InBounds(m, c)
    ensures var p := Painted(m, path); Painted(m, path + [c]) == p[c.i := p[c.i][c.j := '#']]
  {
    var p := Painted(m, path);
    var q := p[c.i := p[c.i][c.j := '#']];
    forall i | 0 <= i < |m| ensures Painted(m, path + [c])[i] == q[i] {
      assert forall j | 0 <= j < |m[i]| :: Painted(m, path + [c])[i][j] == q[i][j];
    }
  }

  /** `'\n'.join(''.join(row) for row in maze)`. */
  function Join(rows: seq<seq<char>>): seq<char>
  {
    if rows == [] then []
    else if |rows| == 1 then rows[0]
    else rows[0] + ['\n'] + Join(rows[1..])
  }

  /** The index of the first '\n' of `s`, or |s| when there is none. */
  function LineEnd(s: seq<char>): (k: nat)
    ensures k <= |s| && (k < |s| ==> s[k] == '\n') && forall j | 0 <= j < k :: s[j] != '\n'
  {
    if s == [] || s[0] == '\n' then 0 else 1 + LineEnd(s[1..])
  }

  /** The lines of a text: the inverse of `Join`. */
  function Split(s: seq<char>): (r: seq<seq<char>>)
    ensures |r| > 0
    decreases |s|
  {
    var k := LineEnd(s);
    if k == |s| then [s] else [s[..k]] + Split(s[k + 1..])
  }

  lemma LineEndAppend(a: seq<char>, b: seq<char>)
    requires forall j | 0 <= j < |a| :: a[j] != '\n'
    ensures LineEnd(a + ['\n'] + b) == |a| && LineEnd(a) == |a|
    decreases |a|
  {
    if a != [] {
      assert (a + ['\n'] + b)[1..] == a[1..] + ['\n'] + b;
      LineEndAppend(a[1..], b);
    }
  }

  /** Splitting the joined rows at '\n' gives the rows back, when there is
      at least one row and no row holds a '\n' (as stripped lines do not). */
  lemma {:induction false} SplitJoin(rows: seq<seq<char>>)
    requires |rows| > 0 && forall r, j | r in rows && 0 <= j < |r| :: r[j] != '\n'
    ensures Split(Join(rows)) == rows
    decreases |rows|
  {
    LineEndAppend(rows[0], []);
    if |rows| > 1 {
      var rest := Join(rows[1..]);
      LineEndAppend(rows[0], rest);
      var s := rows[0] + ['\n'] + rest;
      assert s[..|rows[0]|] == rows[0];
      assert s[|rows[0]| + 1..] == rest;
      SplitJoin(rows[1..]);
      assert rows == [rows[0]] + rows[1..];
    }
  }

  /** `mark_path(maze, path)` of the single-prize searches: '#' on every
      cell of the path, then the rows joined by '\n'. The maze is the
      caller's own list and is not used after the call, so it is taken as
      a value. */
  method MarkPath(maze: seq<seq<char>>, path: seq<Coord>) returns (text: seq<char>)
    requires forall c | c in path :: InBounds(maze, c)
    ensures text == Join(Painted(maze, path))
  {
    var m := maze;
    PaintedEmpty(maze);
    for k := 0 to |path|
      invariant m == Painted(maze, path[..k])
    {
      var c := path[k];
      PaintedStep(maze, path[..k], c);
      m := m[c.i := m[c.i][c.j := '#']];
      assert path[..k + 1] == path[..k] + [c];
    }
    assert path[..|path|] == path;
    text := Join(m);
  }

  // ---------------------------------------------------------------------
  // The heap as a min-priority queue
  // ---------------------------------------------------------------------

  /** A heap entry `(priority, cost, cell)`; the greedy search pushes
      `(priority, cell)`, which orders exactly as `(priority, 0, cell)`. */
  datatype Entry = Entry(priority: int, cost: int, cell: Coord)

  /** Python's tuple order on entries. */
  predicate Le(a: Entry, b: Entry)
  {
    || a.priority < b.priority
    || (a.priority == b.priority && a.cost < b.cost)
    || (a.priority == b.priority && a.cost == b.cost && a.cell.i < b.cell.i)
    || (a.priority == b.priority && a.cost == b.cost && a.cell.i == b.cell.i && a.cell.j <= b.cell.j)
  }

  /** `heapq.heappop`: an entry no larger than any other, and the rest of
      the queue. */
  method PopMin(q: seq<Entry>) returns (e: Entry, rest: seq<Entry>)
    requires q != []
    ensures multiset(q) == multiset(rest) + multiset{e}
    ensures |rest| == |q| - 1 && e in q && forall x | x in rest :: x in q
    ensures forall x | x in q :: Le(e, x)
  {
    var best := 0;
    for k := 1 to |q|
      invariant 0 <= best < |q|
      invariant forall t | 0 <= t < k :: Le(q[best], q[t])
    {
      if !Le(q[best], q[k]) {
        best := k;
      }
    }
    e := q[best];
    rest := q[..best] + q[best + 1..];
    assert q == q[..best] + [e] + q[best + 1..];
  }
}
