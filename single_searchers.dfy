/** The single-prize searches of `Labs/PartA/Part3/single_searchers.py`:
    breadth-first, greedy best-first and A*, each over a frontier and a
    `came_from` map, each reconstructing and marking the path when the goal
    is popped. The A* loop is shared with each round of
    `Labs/PartA/Part4/main.py`. */
module SingleSearchers {
  import opened Options
  import opened GridSearch

  /** `(mark_path(maze, path), len(path), nodes_expanded)`. */
  datatype Solution = Solution(text: seq<char>, cost: nat, nodesExpanded: nat)

  /** `path` is a walk from the start to the goal (empty when they are the
      same cell) and the solution reports it: its length as the cost and
      the maze marked along it as the text. */
  ghost predicate Reports(maze: seq<seq<char>>, start: Coord, goal: Coord, path: seq<Coord>, r: Solution)
  {
    && Walk(maze, start, path)
    && (path == [] ==> goal == start)
    && (path != [] ==> path[|path| - 1] == goal)
    && r.cost == |path| && r.text == Join(Painted(maze, path))
  }

  /** No walk from the start over passable cells ends at the goal. */
  ghost predicate Unreachable(maze: seq<seq<char>>, start: Coord, goal: Coord)
  {
    goal != start && forall w | Walk(maze, start, w) && w != [] :: w[|w| - 1] != goal
  }

  /** The cells a search may ever hold: the passable ones and the start. */
  function Universe(maze: seq<seq<char>>, start: Coord): set<Coord>
  {
    PassableCells(maze) + {start}
  }

  /** The found chain is a walk ending at the goal; marking it gives the
      solution. */
  method Finish(maze: seq<seq<char>>, cameFrom: map<Coord, Option<Coord>>, start: Coord, goal: Coord, nodes: nat,
                ghost rank: map<Coord, nat>)
    returns (r: Solution, path: seq<Coord>)
    requires Rooted(maze, cameFrom, start, rank) && goal in cameFrom
    ensures Reports(maze, start, goal, path, r) && r.nodesExpanded == nodes
    ensures path == Chain(maze, cameFrom, start, goal, rank)
  {
    path := ReconstructPath(cameFrom, start, goal, maze, rank);
    ChainMeaning(maze, cameFrom, start, goal, rank);
    forall c | c in path ensures InBounds(maze, c) {
      var k :| 0 <= k < |path| && path[k] == c;
      assert StepOk(maze, start, path, k);
    }
    var text := MarkPath(maze, path);
    r := Solution(text, |path|, nodes);
  }

  /** Once the frontier is empty, the expanded cells hold the start and
      every passable neighbour of their members, so no walk reaches a goal
      that was never expanded. */
  lemma ExhaustedMeansUnreachable(maze: seq<seq<char>>, start: Coord, goal: Coord, expanded: set<Coord>)
    requires start in expanded && Closed(maze, expanded, expanded) && goal !in expanded
    ensures Unreachable(maze, start, goal)
  {
    forall w | Walk(maze, start, w) && w != [] ensures w[|w| - 1] != goal {
      ClosedHoldsWalks(maze, expanded, start, w);
    }
  }

  // ---------------------------------------------------------------------
  // Breadth-first and greedy best-first search
  // ---------------------------------------------------------------------

  /** The ranks follow the order in which cells got their `came_from`
      entry. */
  ghost predicate Ranked(cameFrom: map<Coord, Option<Coord>>, rank: map<Coord, nat>)
  {
    rank.Keys == cameFrom.Keys && forall c | c in rank :: rank[c] < |cameFrom.Keys|
  }

  /** Giving a new passable neighbour of a key its `came_from` entry, with
      the next rank, keeps the map rooted and ranked. */
  lemma AddEntry(maze: seq<seq<char>>, start: Coord, cameFrom: map<Coord, Option<Coord>>, rank: map<Coord, nat>,
                 current: Coord, neighbour: Coord)
    requires Rooted(maze, cameFrom, start, rank) && Ranked(cameFrom, rank)
    requires current in cameFrom && neighbour !in cameFrom && Passable(maze, neighbour) && Adjacent(current, neighbour)
    ensures var next, rank' := cameFrom[neighbour := Some(current)], rank[neighbour := |cameFrom.Keys|];
      && Rooted(maze, next, start, rank') && Ranked(next, rank')
      && next.Keys == cameFrom.Keys + {neighbour} && |next.Keys| == |cameFrom.Keys| + 1
  {
    var next, rank' := cameFrom[neighbour := Some(current)], rank[neighbour := |cameFrom.Keys|];
    assert next.Keys == cameFrom.Keys + {neighbour};
    forall c | c in next && c != start
      ensures && next[c].Some? && next[c].value in next
              && rank'[next[c].value] < rank'[c]
              && Adjacent(next[c].value, c) && Passable(maze, c)
    {
      if c != neighbour {
        assert next[c] == cameFrom[c];
      }
    }
  }

  /** The state of the loop over the directions after the first k: the
      entries of `cameFrom` are kept, the new keys are the cells of `added`,
      each a passable cell that had no entry, and every passable neighbour
      tried so far has an entry. */
  ghost predicate Discovering(maze: seq<seq<char>>, start: Coord, current: Coord, cameFrom: map<Coord, Option<Coord>>,
                              next: map<Coord, Option<Coord>>, added: seq<Coord>, rank: map<Coord, nat>, k: int)
    requires 0 <= k <= 4
  {
    && Rooted(maze, next, start, rank) && Ranked(next, rank)
    && (forall c | c in cameFrom :: c in next && next[c] == cameFrom[c])
    && (forall c | c in next :: c in cameFrom || c in added)
    && (forall c | c in added :: c in next && c !in cameFrom && Passable(maze, c))
    && |next.Keys| == |cameFrom.Keys| + |added|
    && forall t | 0 <= t < k && Passable(maze, Neighbour(current, t)) :: Neighbour(current, t) in next
  }

  lemma DiscoverStep(maze: seq<seq<char>>, start: Coord, current: Coord, cameFrom: map<Coord, Option<Coord>>,
                     next: map<Coord, Option<Coord>>, added: seq<Coord>, rank: map<Coord, nat>, k: int)
    requires 0 <= k < 4 && current in cameFrom && Discovering(maze, start, current, cameFrom, next, added, rank, k)
    ensures var neighbour := Neighbour(current, k);
      if Passable(maze, neighbour) && neighbour !in next then
        Discovering(maze, start, current, cameFrom, next[neighbour := Some(current)], added + [neighbour],
                    rank[neighbour := |next.Keys|], k + 1)
      else
        Discovering(maze, start, current, cameFrom, next, added, rank, k + 1)
  {
    var neighbour := Neighbour(current, k);
    if Passable(maze, neighbour) && neighbour !in next {
      DiscoverAdd(maze, start, current, cameFrom, next, added, rank, k, neighbour,
        next[neighbour := Some(current)], added + [neighbour], rank[neighbour := |next.Keys|]);
    }
  }

  lemma DiscoverAdd(maze: seq<seq<char>>, start: Coord, current: Coord, cameFrom: map<Coord, Option<Coord>>,
                    next: map<Coord, Option<Coord>>, added: seq<Coord>, rank: map<Coord, nat>, k: int,
                    neighbour: Coord, next': map<Coord, Option<Coord>>, added': seq<Coord>, rank': map<Coord, nat>)
    requires 0 <= k < 4 && current in cameFrom && Discovering(maze, start, current, cameFrom, next, added, rank, k)
    requires neighbour == Neighbour(current, k) && Passable(maze, neighbour) && neighbour !in next
    requires next' == next[neighbour := Some(current)] && added' == added + [neighbour] && rank' == rank[neighbour := |next.Keys|]
    ensures Discovering(maze, start, current, cameFrom, next', added', rank', k + 1)
  {
    NeighbourMeaning(current, neighbour);
    AddEntry(maze, start, next, rank, current, neighbour);
    assert next'.Keys == next.Keys + {neighbour};
    assert forall c | c in added' :: c in added || c == neighbour;
    assert forall c | c in cameFrom :: c in next && next'[c] == next[c];
  }

  /** The loop over the four directions in `single_bfs` and `single_gbfs`:
      every passable neighbour of `current` without a `came_from` entry gets
      `current` as its entry; `added` lists them in the order tried, to be
      put on the frontier in that order. */
  method Discover(maze: seq<seq<char>>, current: Coord, cameFrom: map<Coord, Option<Coord>>,
                  ghost start: Coord, ghost rank: map<Coord, nat>)
    returns (next: map<Coord, Option<Coord>>, added: seq<Coord>, ghost rank': map<Coord, nat>)
    requires current in cameFrom && Surrounded(maze, current)
    requires Rooted(maze, cameFrom, start, rank) && Ranked(cameFrom, rank)
    ensures Discovering(maze, start, current, cameFrom, next, added, rank', 4)
    ensures forall c | c in added :: next[c] == Some(current)
  {
    next, added, rank' := cameFrom, [], rank;
    for k := 0 to 4
      invariant Discovering(maze, start, current, cameFrom, next, added, rank', k)
      invariant forall c | c in added :: next[c] == Some(current)
    {
      var neighbour := Neighbour(current, k);
      assert InBounds(maze, neighbour);
      DiscoverStep(maze, start, current, cameFrom, next, added, rank', k);
      if (maze[neighbour.i][neighbour.j] == ' ' || maze[neighbour.i][neighbour.j] == '.') && neighbour !in next {
        rank' := rank'[neighbour := |next.Keys|];
        next := next[neighbour := Some(current)];
        added := added + [neighbour];
      }
    }
  }

  /** The state of `single_bfs` and `single_gbfs` between two pops:
      `came_from` is rooted at the start and holds passable cells only;
      every cell with an entry was expanded or waits on the frontier (whose
      cells are `waiting` and whose size is `pending`); each entry went on
      the frontier once, so the pops so far and the entries still waiting
      add up to the number of entries; the goal was not expanded; and every
      passable neighbour of an expanded cell has an entry. */
  ghost predicate Searching(maze: seq<seq<char>>, start: Coord, goal: Option<Coord>, cameFrom: map<Coord, Option<Coord>>,
                            rank: map<Coord, nat>, expanded: set<Coord>, waiting: set<Coord>, nodes: nat, pending: nat)
  {
    && Rooted(maze, cameFrom, start, rank) && Ranked(cameFrom, rank)
    && cameFrom.Keys <= Universe(maze, start)
    && nodes + pending == |cameFrom.Keys|
    && waiting <= cameFrom.Keys && cameFrom.Keys <= expanded + waiting && expanded <= cameFrom.Keys
    && (goal.Some? ==> goal.value !in expanded)
    && Closed(maze, expanded, cameFrom.Keys)
  }

  /** Popping `current` (not the goal) and giving its new neighbours their
      entries keeps the search state, and either some cell got its first
      entry or nothing was pushed. */
  lemma ExpandKeeps(maze: seq<seq<char>>, start: Coord, goal: Option<Coord>, cameFrom: map<Coord, Option<Coord>>,
                    rank: map<Coord, nat>, expanded: set<Coord>, waiting: set<Coord>, nodes: nat, pending: nat,
                    current: Coord, rest: set<Coord>, next: map<Coord, Option<Coord>>, added: seq<Coord>, rank': map<Coord, nat>)
    requires Searching(maze, start, goal, cameFrom, rank, expanded, waiting, nodes, pending) && pending > 0
    requires current in waiting && waiting <= rest + {current} && rest <= waiting && goal != Some(current)
    requires Discovering(maze, start, current, cameFrom, next, added, rank', 4)
    ensures Searching(maze, start, goal, next, rank', expanded + {current}, rest + Elements(added), nodes + 1, pending - 1 + |added|)
    ensures added == [] ==> next.Keys == cameFrom.Keys
    ensures added == [] || |Universe(maze, start) - next.Keys| < |Universe(maze, start) - cameFrom.Keys|
  {
    var universe := Universe(maze, start);
    forall c | c in added ensures c in universe {
      PassableCellsMember(maze, c);
    }
    assert next.Keys <= universe;
    assert cameFrom.Keys <= next.Keys;
    if added != [] {
      assert universe - next.Keys < universe - cameFrom.Keys by {
        assert added[0] in universe - cameFrom.Keys;
      }
    }
  }

  /** The cells of a sequence. */
  function Elements(q: seq<Coord>): (r: set<Coord>)
    ensures forall x :: x in r <==> x in q
  {
    set x | x in q
  }

  lemma ElementsAppend(a: seq<Coord>, b: seq<Coord>)
    ensures Elements(a + b) == Elements(a) + Elements(b)
  {
  }

  lemma ElementsPop(q: seq<Coord>)
    requires q != []
    ensures Elements(q) == Elements(q[1..]) + {q[0]}
  {
    assert q == [q[0]] + q[1..];
  }

  /** Before the first pop only the start has an entry, and it waits on
      the frontier. */
  lemma SearchStarts(maze: seq<seq<char>>, start: Coord, goal: Option<Coord>)
    ensures Searching(maze, start, goal, map[start := None], map[start := 0], {}, {start}, 0, 1)
  {
    var cameFrom: map<Coord, Option<Coord>> := map[start := None];
    assert cameFrom.Keys == {start};
  }

  /** The levels of breadth-first search: the start is on level 0 and every
      other cell with a `came_from` entry one level below its entry. */
  ghost predicate Leveled(cameFrom: map<Coord, Option<Coord>>, start: Coord, level: map<Coord, nat>)
  {
    && cameFrom.Keys <= level.Keys && start in level && level[start] == 0
    && forall c | c in cameFrom && c != start && cameFrom[c].Some? && cameFrom[c].value in level ::
         level[c] == level[cameFrom[c].value] + 1
  }

  /** The queue of `single_bfs` holds at most two adjacent levels, the lower
      one in front. */
  ghost predicate Layered(queue: seq<Coord>, level: map<Coord, nat>)
  {
    && (forall i | 0 <= i < |queue| :: queue[i] in level)
    && (forall i, j | 0 <= i <= j < |queue| :: level[queue[i]] <= level[queue[j]])
    && (queue != [] ==> level[queue[|queue| - 1]] <= level[queue[0]] + 1)
  }

  /** No walk from the start reaches a cell with a `came_from` entry in
      fewer steps than the cell's level. */
  ghost predicate Shortest(maze: seq<seq<char>>, start: Coord, cameFrom: map<Coord, Option<Coord>>, level: map<Coord, nat>)
    requires cameFrom.Keys <= level.Keys
  {
    forall w | Walk(maze, start, w) && w != [] && w[|w| - 1] in cameFrom :: level[w[|w| - 1]] <= |w|
  }

  /** The breadth-first invariant. */
  ghost predicate Levels(maze: seq<seq<char>>, start: Coord, cameFrom: map<Coord, Option<Coord>>, level: map<Coord, nat>,
                         queue: seq<Coord>)
  {
    Leveled(cameFrom, start, level) && Layered(queue, level) && Shortest(maze, start, cameFrom, level)
  }

  /** While the cells of the queue are at level `low` or above, a walk to a
      cell without an entry takes more than `low` steps: its last cell with
      an entry is not expanded (its next cell would have one), so it waits
      on the queue. */
  lemma {:induction false} FarOutside(maze: seq<seq<char>>, start: Coord, cameFrom: map<Coord, Option<Coord>>,
                                      level: map<Coord, nat>, expanded: set<Coord>, waiting: set<Coord>, low: nat, w: seq<Coord>)
    requires start in cameFrom && Leveled(cameFrom, start, level) && Shortest(maze, start, cameFrom, level)
    requires Closed(maze, expanded, cameFrom.Keys) && cameFrom.Keys <= expanded + waiting
    requires forall c | c in waiting && c in cameFrom :: low <= level[c]
    requires Walk(maze, start, w) && w != [] && w[|w| - 1] !in cameFrom
    ensures low + 1 <= |w|
    decreases |w|
  {
    var last := w[|w| - 1];
    var p := Before(start, w, |w| - 1);
    assert StepOk(maze, start, w, |w| - 1);
    NeighbourMeaning(p, last);
    var k :| 0 <= k < 4 && last == Neighbour(p, k);
    var init := w[..|w| - 1];
    if |w| > 1 {
      WalkPrefix(maze, start, w);
      assert init[|init| - 1] == p;
    }
    if p in cameFrom {
      assert p !in expanded;
      assert low <= level[p];
      if |w| > 1 {
        assert level[p] <= |init|;
      }
    } else {
      FarOutside(maze, start, cameFrom, level, expanded, waiting, low, init);
    }
  }

  /** The levels after an expansion of `current`, the front of the queue:
      the new cells are one level below it. */
  function Relevel(level: map<Coord, nat>, added: seq<Coord>, current: Coord): map<Coord, nat>
    requires current in level
  {
    level + map c | c in added :: level[current] + 1
  }

  /** An expansion of the front of the queue keeps the breadth-first
      invariant: the new cells, one level below the front, cannot be
      reached in fewer steps. */
  lemma LevelsKeep(maze: seq<seq<char>>, start: Coord, cameFrom: map<Coord, Option<Coord>>, level: map<Coord, nat>,
                   expanded: set<Coord>, queue: seq<Coord>, next: map<Coord, Option<Coord>>, added: seq<Coord>)
    requires start in cameFrom && Levels(maze, start, cameFrom, level, queue) && queue != []
    requires Closed(maze, expanded, cameFrom.Keys) && cameFrom.Keys <= expanded + Elements(queue)
    requires Elements(queue) <= cameFrom.Keys
    requires forall c | c in cameFrom && c != start :: cameFrom[c].Some? && cameFrom[c].value in cameFrom
    requires forall c | c in cameFrom :: c in next && next[c] == cameFrom[c]
    requires forall c | c in next :: c in cameFrom || c in added
    requires forall c | c in added :: c !in cameFrom && c in next && next[c] == Some(queue[0])
    ensures Levels(maze, start, next, Relevel(level, added, queue[0]), queue[1..] + added)
  {
    var current := queue[0];
    var low := level[current];
    var level' := Relevel(level, added, current);
    assert current in cameFrom && current !in added;
    forall i | 0 <= i < |queue| ensures queue[i] in level' && level'[queue[i]] == level[queue[i]] {
      assert queue[i] in Elements(queue);
    }
    forall c | c in Elements(queue) && c in cameFrom ensures low <= level[c] {
      var i :| 0 <= i < |queue| && queue[i] == c;
    }
    assert Leveled(next, start, level') by {
      forall c | c in next && c != start && next[c].Some? && next[c].value in level'
        ensures level'[c] == level'[next[c].value] + 1
      {
        if c in added {
          assert next[c].value == current;
        } else {
          assert next[c] == cameFrom[c] && next[c].value in cameFrom;
        }
      }
    }
    assert Shortest(maze, start, next, level') by {
      forall w | Walk(maze, start, w) && w != [] && w[|w| - 1] in next ensures level'[w[|w| - 1]] <= |w| {
        if w[|w| - 1] !in cameFrom {
          FarOutside(maze, start, cameFrom, level, expanded, Elements(queue), low, w);
        }
      }
    }
    LayeredKeep(queue, added, level, level', low);
  }

  lemma LayeredKeep(queue: seq<Coord>, added: seq<Coord>, level: map<Coord, nat>, level': map<Coord, nat>, low: nat)
    requires Layered(queue, level) && queue != [] && low == level[queue[0]]
    requires forall i | 0 <= i < |queue| :: queue[i] in level' && level'[queue[i]] == level[queue[i]]
    requires forall c | c in added :: c in level' && level'[c] == low + 1
    ensures Layered(queue[1..] + added, level')
  {
    var q := queue[1..] + added;
    assert forall i | 0 <= i < |q| :: low <= level'[q[i]] <= low + 1 by {
      forall i | 0 <= i < |q| ensures low <= level'[q[i]] <= low + 1 {
        if i < |queue| - 1 {
          assert q[i] == queue[i + 1];
          assert level[queue[0]] <= level[queue[i + 1]] <= level[queue[|queue| - 1]];
        } else {
          assert q[i] in added;
        }
      }
    }
    forall i, j | 0 <= i <= j < |q| ensures level'[q[i]] <= level'[q[j]] {
      if j < |queue| - 1 {
        assert q[i] == queue[i + 1] && q[j] == queue[j + 1];
      } else {
        assert q[j] in added;
      }
    }
  }

  /** Before the first pop only the start, on level 0, has an entry and
      waits on the queue. */
  lemma LevelsStart(maze: seq<seq<char>>, start: Coord)
    ensures Levels(maze, start, map[start := None], map[start := 0], [start])
  {
    var cameFrom: map<Coord, Option<Coord>> := map[start := None];
    var level := map[start := 0];
    forall w | Walk(maze, start, w) && w != [] && w[|w| - 1] in cameFrom ensures level[w[|w| - 1]] <= |w| {
    }
  }

  /** A chain of entries is as long as the level of its last cell. */
  lemma {:induction false} ChainLevel(maze: seq<seq<char>>, cameFrom: map<Coord, Option<Coord>>, start: Coord, c: Coord,
                                      rank: map<Coord, nat>, level: map<Coord, nat>)
    requires Rooted(maze, cameFrom, start, rank) && Leveled(cameFrom, start, level) && c in cameFrom
    ensures |Chain(maze, cameFrom, start, c, rank)| == level[c]
    decreases rank[c]
  {
    if c != start {
      ChainLevel(maze, cameFrom, start, cameFrom[c].value, rank, level);
    }
  }

  /** One expansion of `single_bfs` after `current`, which is not the
      goal, was popped from the front: its new neighbours get their entries
      and join the back of the queue. */
  method BfsExpand(maze: seq<seq<char>>, start: Coord, goal: Option<Coord>, queue: seq<Coord>,
                   cameFrom: map<Coord, Option<Coord>>, ghost rank: map<Coord, nat>, ghost expanded: set<Coord>,
                   ghost nodes: nat, ghost level: map<Coord, nat>)
    returns (queue': seq<Coord>, cameFrom': map<Coord, Option<Coord>>, ghost rank': map<Coord, nat>, ghost expanded': set<Coord>,
             ghost level': map<Coord, nat>)
    requires Enclosed(maze, start) && queue != [] && goal != Some(queue[0])
    requires Searching(maze, start, goal, cameFrom, rank, expanded, Elements(queue), nodes, |queue|)
    requires Levels(maze, start, cameFrom, level, queue)
    ensures Searching(maze, start, goal, cameFrom', rank', expanded', Elements(queue'), nodes + 1, |queue'|)
    ensures Levels(maze, start, cameFrom', level', queue')
    ensures var universe := Universe(maze, start);
      || |universe - cameFrom'.Keys| < |universe - cameFrom.Keys|
      || (|universe - cameFrom'.Keys| == |universe - cameFrom.Keys| && |queue'| < |queue|)
  {
    var current := queue[0];
    ElementsPop(queue);
    if current != start {
      assert Passable(maze, current);
    }
    var added;
    cameFrom', added, rank' := Discover(maze, current, cameFrom, start, rank);
    ExpandKeeps(maze, start, goal, cameFrom, rank, expanded, Elements(queue), nodes, |queue|,
                current, Elements(queue[1..]), cameFrom', added, rank');
    LevelsKeep(maze, start, cameFrom, level, expanded, queue, cameFrom', added);
    ElementsAppend(queue[1..], added);
    queue' := queue[1..] + added;
    expanded' := expanded + {current};
    level' := Relevel(level, added, current);
  }

  /** The loop of `single_bfs`: pops from the front until the frontier is
      empty or the goal is at its front. */
  method BfsSearch(maze: seq<seq<char>>, start: Coord, goal: Option<Coord>)
    returns (queue: seq<Coord>, cameFrom: map<Coord, Option<Coord>>, ghost rank: map<Coord, nat>, ghost expanded: set<Coord>, nodes: nat,
             ghost level: map<Coord, nat>)
    requires Enclosed(maze, start)
    ensures Searching(maze, start, goal, cameFrom, rank, expanded, Elements(queue), nodes, |queue|)
    ensures Levels(maze, start, cameFrom, level, queue)
    ensures queue != [] ==> goal == Some(queue[0])
  {
    queue := [start];
    cameFrom := map[start := None];
    rank := map[start := 0];
    expanded := {};
    nodes := 0;
    level := map[start := 0];
    SearchStarts(maze, start, goal);
    LevelsStart(maze, start);
    assert Elements(queue) == {start};
    while queue != [] && goal != Some(queue[0])
      invariant Searching(maze, start, goal, cameFrom, rank, expanded, Elements(queue), nodes, |queue|)
      invariant Levels(maze, start, cameFrom, level, queue)
      decreases |Universe(maze, start) - cameFrom.Keys|, |queue|
    {
      queue, cameFrom, rank, expanded, level := BfsExpand(maze, start, goal, queue, cameFrom, rank, expanded, nodes, level);
      nodes := nodes + 1;
    }
  }

  /** `single_bfs` after `read_maze`: a first-in first-out frontier; every
      cell enters it at most once, when it gets its `came_from` entry, and
      only passable cells enter. A solution reports a walk from the start to
      the goal; `None` means the goal is missing or no walk reaches it. */
  method SingleBfs(maze: seq<seq<char>>, start: Coord, goal: Option<Coord>)
    returns (r: Option<Solution>, ghost path: seq<Coord>, ghost discovered: set<Coord>)
    requires Enclosed(maze, start)
    ensures discovered <= Universe(maze, start)
    ensures r.Some? ==> goal.Some? && Reports(maze, start, goal.value, path, r.value) && r.value.nodesExpanded <= |discovered|
    ensures r.Some? ==> forall w | Walk(maze, start, w) && w != [] && w[|w| - 1] == goal.value :: |path| <= |w|
    ensures r.None? ==> goal.None? || Unreachable(maze, start, goal.value)
  {
    var queue, cameFrom, rank, expanded, nodes, level := BfsSearch(maze, start, goal);
    if queue != [] {
      var solution, found := Finish(maze, cameFrom, start, queue[0], nodes + 1, rank);
      ChainLevel(maze, cameFrom, start, queue[0], rank, level);
      return Some(solution), found, cameFrom.Keys;
    }
    assert cameFrom.Keys == expanded;
    if goal.Some? {
      ExhaustedMeansUnreachable(maze, start, goal.value, expanded);
    }
    return None, [], cameFrom.Keys;
  }

  /** The cells of the entries on a heap. */
  function QueueCells(q: seq<Entry>): (r: set<Coord>)
    ensures forall e | e in q :: e.cell in r
    ensures forall c | c in r :: exists e | e in q :: e.cell == c
  {
    set e | e in q :: e.cell
  }

  /** Popping `e` from a heap takes its cell off the heap's cells unless
      another entry holds the same cell. */
  lemma QueueCellsPop(q: seq<Entry>, e: Entry, rest: seq<Entry>)
    requires multiset(q) == multiset(rest) + multiset{e}
    ensures QueueCells(q) == QueueCells(rest) + {e.cell}
  {
    assert e in multiset(q);
    forall x | x in rest ensures x in q {
      assert x in multiset(rest);
      assert x in multiset(q);
    }
    forall c | c in QueueCells(q) ensures c in QueueCells(rest) + {e.cell} {
      var x :| x in q && x.cell == c;
      assert x in multiset(q);
      if x != e {
        assert x in multiset(rest);
      }
    }
  }

  lemma QueueCellsAppend(a: seq<Entry>, b: seq<Entry>)
    ensures QueueCells(a + b) == QueueCells(a) + QueueCells(b)
  {
    forall c | c in QueueCells(a + b) ensures c in QueueCells(a) + QueueCells(b) {
      var x :| x in a + b && x.cell == c;
    }
  }

  /** The entries `single_gbfs` pushes for the new neighbours, in the
      order tried: each cell with its distance to the goal as priority. */
  function GreedyEntries(cells: seq<Coord>, goal: Coord): (r: seq<Entry>)
    ensures |r| == |cells|
    ensures forall k | 0 <= k < |r| :: r[k] == Entry(Manhattan(cells[k], goal), 0, cells[k])
    ensures QueueCells(r) == Elements(cells)
  {
    if cells == [] then []
    else [Entry(Manhattan(cells[0], goal), 0, cells[0])] + GreedyEntries(cells[1..], goal)
  }

  /** Every entry of the greedy heap has its cell's distance to the goal as
      its priority. */
  predicate Greedy(q: seq<Entry>, goal: Coord)
  {
    forall e | e in q :: e == Entry(Manhattan(e.cell, goal), 0, e.cell)
  }

  /** On a greedy heap, the entry `heappop` returns has a cell no farther
      from the goal than any other entry's cell. */
  lemma GreedyPopsNearest(q: seq<Entry>, goal: Coord, e: Entry)
    requires Greedy(q, goal) && e in q && forall x | x in q :: Le(e, x)
    ensures forall x | x in q :: Manhattan(e.cell, goal) <= Manhattan(x.cell, goal)
  {
    forall x | x in q ensures Manhattan(e.cell, goal) <= Manhattan(x.cell, goal) {
      assert Le(e, x);
    }
  }

  /** One expansion of `single_gbfs` after `e`, whose cell is not the goal,
      was popped from the heap: the new neighbours get their entries and
      are pushed with their distance to the goal. */
  method GbfsExpand(maze: seq<seq<char>>, start: Coord, goal: Coord, queue: seq<Entry>, e: Entry, rest: seq<Entry>,
                    cameFrom: map<Coord, Option<Coord>>, ghost rank: map<Coord, nat>, ghost expanded: set<Coord>,
                    ghost nodes: nat)
    returns (queue': seq<Entry>, cameFrom': map<Coord, Option<Coord>>, ghost rank': map<Coord, nat>, ghost expanded': set<Coord>)
    requires Enclosed(maze, start) && e.cell != goal && multiset(queue) == multiset(rest) + multiset{e}
    requires Searching(maze, start, Some(goal), cameFrom, rank, expanded, QueueCells(queue), nodes, |queue|)
    requires Greedy(rest, goal)
    ensures Searching(maze, start, Some(goal), cameFrom', rank', expanded', QueueCells(queue'), nodes + 1, |queue'|)
    ensures Greedy(queue', goal)
    ensures var universe := Universe(maze, start);
      || |universe - cameFrom'.Keys| < |universe - cameFrom.Keys|
      || (|universe - cameFrom'.Keys| == |universe - cameFrom.Keys| && |queue'| < |queue|)
  {
    var current := e.cell;
    QueueCellsPop(queue, e, rest);
    assert |queue| == |rest| + 1 by {
      assert |multiset(queue)| == |multiset(rest)| + 1;
    }
    if current != start {
      assert Passable(maze, current);
    }
    var added;
    cameFrom', added, rank' := Discover(maze, current, cameFrom, start, rank);
    ExpandKeeps(maze, start, Some(goal), cameFrom, rank, expanded, QueueCells(queue), nodes, |queue|,
                current, QueueCells(rest), cameFrom', added, rank');
    var pushed := GreedyEntries(added, goal);
    QueueCellsAppend(rest, pushed);
    queue' := rest + pushed;
    expanded' := expanded + {current};
  }

  /** One round of `single_gbfs`: pop a least entry; if its cell is the
      goal, report it and leave the state as it was before the pop,
      otherwise expand it. */
  method GbfsStep(maze: seq<seq<char>>, start: Coord, goal: Coord, queue: seq<Entry>,
                  cameFrom: map<Coord, Option<Coord>>, ghost rank: map<Coord, nat>, ghost expanded: set<Coord>,
                  ghost nodes: nat)
    returns (done: bool, queue': seq<Entry>, cameFrom': map<Coord, Option<Coord>>, ghost rank': map<Coord, nat>,
             ghost expanded': set<Coord>)
    requires Enclosed(maze, start) && queue != [] && Greedy(queue, goal)
    requires Searching(maze, start, Some(goal), cameFrom, rank, expanded, QueueCells(queue), nodes, |queue|)
    ensures done ==> goal in QueueCells(queue)
    ensures done ==> queue' == queue && cameFrom' == cameFrom && rank' == rank && expanded' == expanded
    ensures !done ==> Searching(maze, start, Some(goal), cameFrom', rank', expanded', QueueCells(queue'), nodes + 1, |queue'|)
    ensures !done ==> Greedy(queue', goal)
    ensures var universe := Universe(maze, start);
      || |universe - cameFrom'.Keys| < |universe - cameFrom.Keys|
      || (|universe - cameFrom'.Keys| == |universe - cameFrom.Keys| && |queue'| < |queue|)
      || done
  {
    var e, rest := PopMin(queue);
    if e.cell == goal {
      return true, queue, cameFrom, rank, expanded;
    }
    done := false;
    queue', cameFrom', rank', expanded' := GbfsExpand(maze, start, goal, queue, e, rest, cameFrom, rank, expanded, nodes);
  }

  /** The loop of `single_gbfs`: pops a least entry until the heap is empty
      or the popped cell is the goal; in that case the state is the one
      before that pop. */
  method GbfsSearch(maze: seq<seq<char>>, start: Coord, goal: Coord)
    returns (found: bool, queue: seq<Entry>, cameFrom: map<Coord, Option<Coord>>, ghost rank: map<Coord, nat>,
             ghost expanded: set<Coord>, nodes: nat)
    requires Enclosed(maze, start)
    ensures Searching(maze, start, Some(goal), cameFrom, rank, expanded, QueueCells(queue), nodes, |queue|)
    ensures found ==> goal in QueueCells(queue)
    ensures !found ==> queue == []
  {
    queue := [Entry(Manhattan(start, goal), 0, start)];
    cameFrom := map[start := None];
    rank := map[start := 0];
    expanded := {};
    nodes := 0;
    found := false;
    SearchStarts(maze, start, Some(goal));
    assert QueueCells(queue) == {start};
    while queue != [] && !found
      invariant Searching(maze, start, Some(goal), cameFrom, rank, expanded, QueueCells(queue), nodes, |queue|)
      invariant Greedy(queue, goal)
      invariant found ==> goal in QueueCells(queue)
      decreases |Universe(maze, start) - cameFrom.Keys|, |queue|, if found then 0 else 1
    {
      found, queue, cameFrom, rank, expanded := GbfsStep(maze, start, goal, queue, cameFrom, rank, expanded, nodes);
      if !found {
        nodes := nodes + 1;
      }
    }
  }

  /** `single_gbfs` after `read_maze`: a heap ordered by the distance to
      the goal; as in `single_bfs`, a cell is pushed once, when it gets its
      `came_from` entry. The goal must exist: the first priority is its
      distance from the start. */
  method SingleGbfs(maze: seq<seq<char>>, start: Coord, goal: Coord)
    returns (r: Option<Solution>, ghost path: seq<Coord>, ghost discovered: set<Coord>)
    requires Enclosed(maze, start)
    ensures discovered <= Universe(maze, start)
    ensures r.Some? ==> Reports(maze, start, goal, path, r.value) && r.value.nodesExpanded <= |discovered|
    ensures r.None? ==> Unreachable(maze, start, goal)
  {
    var found, queue, cameFrom, rank, expanded, nodes := GbfsSearch(maze, start, goal);
    if found {
      var solution, walk := Finish(maze, cameFrom, start, goal, nodes + 1, rank);
      return Some(solution), walk, cameFrom.Keys;
    }
    assert cameFrom.Keys == expanded;
    ExhaustedMeansUnreachable(maze, start, goal, expanded);
    return None, [], cameFrom.Keys;
  }
}
