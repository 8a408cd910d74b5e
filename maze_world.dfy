/** The maze world of `Labs/PartA/Part1/main.py`: a grid of characters read
    line by line ('%' is a wall, 'P' the agent's start, '.' a prize), a search
    state made of the agent's position and the set of prizes it has
    collected, the move of the agent one step north, south, east or west,
    and the goal test "every prize collected". */
module MazeWorld {
  import opened Options

  /** `(x, y)`: x counts characters along a line, y counts lines. */
  datatype Point = Point(x: int, y: int)

  /** `State(position, collected_prizes)`. Equality of the class compares the
      position and the set, as equality of this datatype does. */
  datatype State = State(position: Point, collected: set<Point>)

  /** `State(position)`: without a set of prizes the state starts with none. */
  function NewState(position: Point, collected: Option<set<Point>>): State
  {
    State(position, if collected.Some? then collected.value else {})
  }

  /** The four actions of `move_agent`. */
  datatype Direction = N | S | E | W

  /** The offset of each action: N = (0, -1), S = (0, 1), E = (1, 0), W = (-1, 0). */
  function Step(p: Point, a: Direction): (q: Point)
    ensures (if q.x < p.x then p.x - q.x else q.x - p.x) + (if q.y < p.y then p.y - q.y else q.y - p.y) == 1
    ensures a == N ==> q.y == p.y - 1
    ensures a == S ==> q.y == p.y + 1
    ensures a == E ==> q.x == p.x + 1
    ensures a == W ==> q.x == p.x - 1
  {
    match a
    case N => Point(p.x, p.y - 1)
    case S => Point(p.x, p.y + 1)
    case E => Point(p.x + 1, p.y)
    case W => Point(p.x - 1, p.y)
  }

  /** `is_valid_move` reads the width from the first line; it needs every
      line to be at least that long, or it raises IndexError. */
  predicate Covered(g: seq<seq<char>>)
  {
    forall y | 0 <= y < |g| :: |g[y]| >= |g[0]|
  }

  /** `is_valid_move`: inside the grid (the first line's width) and not a
      wall. */
  predicate Open(g: seq<seq<char>>, p: Point)
    requires Covered(g)
  {
    0 <= p.y < |g| && 0 <= p.x < |g[0]| && g[p.y][p.x] != '%'
  }

  /** q is one step from p. */
  predicate Adjacent(p: Point, q: Point)
  {
    exists a: Direction :: q == Step(p, a)
  }

  /** A walk: each cell after the first is one step from the one before and
      is a valid cell. */
  predicate Walk(g: seq<seq<char>>, w: seq<Point>)
    requires Covered(g)
  {
    |w| > 0 && forall k | 0 < k < |w| :: Adjacent(w[k - 1], w[k]) && Open(g, w[k])
  }

  // ---------------------------------------------------------------------
  // load_maze: the scan of the lines
  // ---------------------------------------------------------------------

  /** The prizes on the first `n` characters of line y. */
  function RowDots(row: seq<char>, y: int, n: nat): set<Point>
    requires n <= |row|
  {
    set x | 0 <= x < n && row[x] == '.' :: Point(x, y)
  }

  /** The prizes on the first k lines. */
  function Dots(lines: seq<seq<char>>, k: nat): set<Point>
    requires k <= |lines|
  {
    set y, x | 0 <= y < k && 0 <= x < |lines[y]| && lines[y][x] == '.' :: Point(x, y)
  }

  /** The last `ch` among the first n characters of line y. */
  function RowLast(row: seq<char>, y: int, n: nat, ch: char): Option<Point>
    requires n <= |row|
  {
    if n == 0 then None
    else if row[n - 1] == ch then Some(Point(n - 1, y))
    else RowLast(row, y, n - 1, ch)
  }

  /** The last `ch` of the first k lines, in reading order. */
  function LinesLast(lines: seq<seq<char>>, k: nat, ch: char): Option<Point>
    requires k <= |lines|
  {
    if k == 0 then None
    else if RowLast(lines[k - 1], k - 1, |lines[k - 1]|, ch).Some? then RowLast(lines[k - 1], k - 1, |lines[k - 1]|, ch)
    else LinesLast(lines, k - 1, ch)
  }

  /** The last `ch` of a line is one after which none follows. */
  lemma {:induction false} RowLastMeaning(row: seq<char>, y: int, n: nat, ch: char)
    requires n <= |row|
    ensures RowLast(row, y, n, ch).Some? ==>
      var p := RowLast(row, y, n, ch).value;
      p.y == y && 0 <= p.x < n && row[p.x] == ch && forall x | p.x < x < n :: row[x] != ch
    ensures RowLast(row, y, n, ch).None? <==> forall x | 0 <= x < n :: row[x] != ch
  {
    if n > 0 {
      RowLastMeaning(row, y, n - 1, ch);
    }
  }

  /** The scan keeps the last `ch` in reading order: the cell holds `ch` and
      no later cell does; there is none exactly when no line holds `ch`. */
  lemma {:induction false} LinesLastMeaning(lines: seq<seq<char>>, k: nat, ch: char)
    requires k <= |lines|
    ensures LinesLast(lines, k, ch).Some? ==>
      var p := LinesLast(lines, k, ch).value;
      && 0 <= p.y < k && 0 <= p.x < |lines[p.y]| && lines[p.y][p.x] == ch
      && (forall x | p.x < x < |lines[p.y]| :: lines[p.y][x] != ch)
      && (forall y, x | p.y < y < k && 0 <= x < |lines[y]| :: lines[y][x] != ch)
    ensures LinesLast(lines, k, ch).None? <==>
      forall y, x | 0 <= y < k && 0 <= x < |lines[y]| :: lines[y][x] != ch
  {
    if k > 0 {
      LinesLastMeaning(lines, k - 1, ch);
      RowLastMeaning(lines[k - 1], k - 1, |lines[k - 1]|, ch);
    }
  }

  lemma RowDotsStep(row: seq<char>, y: int, n: nat)
    requires n < |row|
    ensures RowDots(row, y, n + 1) == RowDots(row, y, n) + (if row[n] == '.' then {Point(n, y)} else {})
  {
    var next := RowDots(row, y, n) + (if row[n] == '.' then {Point(n, y)} else {});
    forall p | p in RowDots(row, y, n + 1) ensures p in next {
      var x :| 0 <= x < n + 1 && row[x] == '.' && p == Point(x, y);
    }
  }

  lemma DotsStep(lines: seq<seq<char>>, k: nat)
    requires k < |lines|
    ensures Dots(lines, k + 1) == Dots(lines, k) + RowDots(lines[k], k, |lines[k]|)
  {
    var next := Dots(lines, k) + RowDots(lines[k], k, |lines[k]|);
    forall p | p in Dots(lines, k + 1) ensures p in next {
      var y, x :| 0 <= y < k + 1 && 0 <= x < |lines[y]| && lines[y][x] == '.' && p == Point(x, y);
      if y == k {
        assert p in RowDots(lines[k], k, |lines[k]|);
      }
    }
    forall p | p in next ensures p in Dots(lines, k + 1) {
      if p in RowDots(lines[k], k, |lines[k]|) {
        var x :| 0 <= x < |lines[k]| && lines[k][x] == '.' && p == Point(x, k);
      }
    }
  }

  // ---------------------------------------------------------------------
  // The maze
  // ---------------------------------------------------------------------

  /** `Maze(file_path)`: the lines of the maze, the start and the prizes. */
  class Maze {
    var grid: seq<seq<char>>
    var start: Option<Point>
    var prizes: set<Point>

    /** `__init__`: empty fields, then `load_maze`; the lines are given as
        already stripped character sequences. */
    constructor (lines: seq<seq<char>>)
      ensures grid == lines
      ensures start == LinesLast(lines, |lines|, 'P')
      ensures prizes == Dots(lines, |lines|)
    {
      grid := [];
      start := None;
      prizes := {};
      new;
      LoadMaze(lines);
    }

    /** `load_maze`: every line is appended to the grid; a 'P' at (x, y) sets
        the start, a '.' adds (x, y) to the prizes. */
    method LoadMaze(lines: seq<seq<char>>)
      modifies this
      ensures grid == old(grid) + lines
      ensures prizes == old(prizes) + Dots(lines, |lines|)
      ensures start == if LinesLast(lines, |lines|, 'P').Some? then LinesLast(lines, |lines|, 'P') else old(start)
    {
      for y := 0 to |lines|
        invariant grid == old(grid) + lines[..y]
        invariant prizes == old(prizes) + Dots(lines, y)
        invariant start == if LinesLast(lines, y, 'P').Some? then LinesLast(lines, y, 'P') else old(start)
      {
        var row := lines[y];
        for x := 0 to |row|
          invariant grid == old(grid) + lines[..y]
          invariant prizes == old(prizes) + Dots(lines, y) + RowDots(row, y, x)
          invariant start ==
            if RowLast(row, y, x, 'P').Some? then RowLast(row, y, x, 'P')
            else if LinesLast(lines, y, 'P').Some? then LinesLast(lines, y, 'P') else old(start)
        {
          RowDotsStep(row, y, x);
          if row[x] == 'P' {
            start := Some(Point(x, y));
          } else if row[x] == '.' {
            prizes := prizes + {Point(x, y)};
          }
        }
        DotsStep(lines, y);
        grid := grid + [row];
        assert lines[..y + 1] == lines[..y] + [row];
      }
      assert lines[..|lines|] == lines;
    }

    /** `is_valid_move(x, y)`: inside the grid (the first line's width) and
        not a wall. */
    predicate IsValidMove(x: int, y: int)
      reads this
      requires Covered(grid)
    {
      Open(grid, Point(x, y))
    }

    /** `move_agent(state, action)`: a valid target cell becomes the position
        and, if it is a prize, joins a copy of the collected set; an invalid
        one leaves the state as it was. */
    function MoveAgent(s: State, a: Direction): (r: State)
      reads this
      requires Covered(grid)
      ensures var q := Step(s.position, a);
        && (IsValidMove(q.x, q.y) ==> r.position == q)
        && (!IsValidMove(q.x, q.y) ==> r == s)
      ensures s.collected <= r.collected
      ensures r.collected - s.collected <= prizes * {r.position}
      ensures r.position in prizes ==> r.position in r.collected || r == s
    {
      var q := Step(s.position, a);
      if IsValidMove(q.x, q.y) then
        var newCollected := s.collected;
        if q in prizes then State(q, newCollected + {q}) else State(q, newCollected)
      else s
    }

    /** `goal_test(state)`: the collected set is the maze's set of prizes. */
    predicate GoalTest(s: State)
      reads this
    {
      s.collected == prizes
    }

    /** The state after a sequence of actions. */
    function Run(s: State, actions: seq<Direction>): State
      reads this
      requires Covered(grid)
      decreases |actions|
    {
      if actions == [] then s else Run(MoveAgent(s, actions[0]), actions[1..])
    }

    /** The positions the agent stands on after each of the actions. */
    function Trace(s: State, actions: seq<Direction>): seq<Point>
      reads this
      requires Covered(grid)
      decreases |actions|
    {
      if actions == [] then []
      else var next := MoveAgent(s, actions[0]); [next.position] + Trace(next, actions[1..])
    }

    /** Starting from collected prizes only, any sequence of moves collects
        prizes only, never loses one, and ends on a valid cell or where it
        started; the prizes it adds are cells it stood on, and, when the
        starting cell is not an uncollected prize, every prize it stands on
        is collected at the end. */
    lemma {:induction false} RunKeepsPrizes(s: State, actions: seq<Direction>)
      requires Covered(grid) && s.collected <= prizes
      ensures s.collected <= Run(s, actions).collected <= prizes
      ensures var p := Run(s, actions).position; p == s.position || IsValidMove(p.x, p.y)
      ensures forall p | p in Run(s, actions).collected - s.collected :: p in Trace(s, actions)
      ensures (s.position in prizes ==> s.position in s.collected) ==>
        forall p | p in Trace(s, actions) && p in prizes :: p in Run(s, actions).collected
      decreases |actions|
    {
      if actions != [] {
        var next := MoveAgent(s, actions[0]);
        RunKeepsPrizes(next, actions[1..]);
        if next.position != s.position {
          var q := Step(s.position, actions[0]);
          assert IsValidMove(q.x, q.y);
        }
        assert Trace(s, actions) == [next.position] + Trace(next, actions[1..]);
        assert Run(s, actions) == Run(next, actions[1..]);
      }
    }

    /** For a state that has collected prizes only, the goal is reached
        exactly when every prize has been collected; the initial state of a
        maze with a prize is not a goal. */
    lemma GoalMeaning(s: State)
      requires s.collected <= prizes
      ensures GoalTest(s) <==> forall p | p in prizes :: p in s.collected
      ensures s.collected == {} ==> (GoalTest(s) <==> prizes == {})
    {
    }
  }
}
