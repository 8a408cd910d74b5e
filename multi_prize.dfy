/** The multi-prize search of `Labs/PartA/Part4/main.py`: rounds of A*, each
    from the current position towards the nearest remaining prize, with the
    distance to the nearest remaining prize as the heuristic; the reached
    prizes are numbered 0, 1, 2, … in the order they are reached, and the
    walk through all of them is marked on the maze. */
module MultiPrize {
  import opened Options
  import opened GridSearch
  import opened SingleSearchers
  import opened Astar

  // ---------------------------------------------------------------------
  // heuristic
  // ---------------------------------------------------------------------

  /** A set of naturals that holds x has a least member, found by descending
      from x to smaller members. */
  lemma {:induction false} LeastExists(s: set<nat>, x: nat)
    requires x in s
    ensures exists m | m in s :: forall y | y in s :: m <= y
    decreases x
  {
    if !forall y | y in s :: x <= y {
      var y :| y in s && y < x;
      LeastExists(s, y);
    }
  }

  /** The distances from `current` to the goals. */
  function Distances(current: Coord, goals: set<Coord>): (r: set<nat>)
  {
    set g | g in goals :: Manhattan(current, g)
  }

  /** `heuristic(current, remaining_goals)`: 0 when no goal remains, else
      the distance to the nearest remaining goal. */
  function Heuristic(current: Coord, goals: set<Coord>): (r: nat)
    ensures goals == {} ==> r == 0
    ensures goals != {} ==> exists g | g in goals :: r == Manhattan(current, g)
    ensures forall g | g in goals :: r <= Manhattan(current, g)
  {
    if goals == {} then 0
    else
      var distances := Distances(current, goals);
      assert forall g | g in goals :: Manhattan(current, g) in distances;
      LeastExists(distances, Manhattan(current, Pick(goals)));
      var m :| m in distances && forall x | x in distances :: m <= x;
      m
  }

  /** The heuristic is consistent: one step changes it by at most one. */
  lemma HeuristicConsistent(a: Coord, b: Coord, goals: set<Coord>)
    requires Adjacent(a, b)
    ensures Heuristic(a, goals) <= Heuristic(b, goals) + 1
  {
    if goals != {} {
      var g :| g in goals && Heuristic(b, goals) == Manhattan(b, g);
      ManhattanMetric(a, b, g);
    }
  }

  /** A walk covers at least the distance between its ends. */
  lemma {:induction false} WalkSpansDistance(m: seq<seq<char>>, start: Coord, w: seq<Coord>)
    requires Walk(m, start, w)
    ensures Manhattan(start, if w == [] then start else w[|w| - 1]) <= |w|
    decreases |w|
  {
    if w != [] {
      var init := w[..|w| - 1];
      WalkPrefix(m, start, w);
      WalkSpansDistance(m, start, init);
      var prev := if |w| == 1 then start else w[|w| - 2];
      assert prev == if init == [] then start else init[|init| - 1];
      assert StepOk(m, start, w, |w| - 1);
      ManhattanMetric(start, prev, w[|w| - 1]);
    }
  }

  /** The heuristic is admissible: no walk from a cell to a remaining goal
      is shorter than the heuristic of the cell. */
  lemma HeuristicAdmissible(m: seq<seq<char>>, c: Coord, goals: set<Coord>, w: seq<Coord>)
    requires Walk(m, c, w) && w != [] && w[|w| - 1] in goals
    ensures Heuristic(c, goals) <= |w|
  {
    WalkSpansDistance(m, c, w);
  }

  // ---------------------------------------------------------------------
  // One round
  // ---------------------------------------------------------------------

  /** `min(remaining_goals, key=…)`: a remaining goal nearest to `pos`. Which
      of several equally near goals is taken depends on the iteration order
      of Python's set, so the model takes any of them. */
  method NearestTarget(pos: Coord, remaining: set<Coord>) returns (target: Coord)
    requires remaining != {}
    ensures target in remaining && Manhattan(pos, target) == Heuristic(pos, remaining)
    ensures forall g | g in remaining :: Manhattan(pos, target) <= Manhattan(pos, g)
  {
    ghost var d := Heuristic(pos, remaining);
    target :| target in remaining && forall g | g in remaining :: Manhattan(pos, target) <= Manhattan(pos, g);
  }

  /** The inner loop of one round: A* from `pos` with the first entry
      `(0, 0, pos)` and the heuristic of the remaining goals, until the
      target is popped or the heap is empty. `nodes` counts every pop,
      the target's included. On success `path` is the reconstructed walk
      to the target. */
  method Round(maze: seq<seq<char>>, pos: Coord, remaining: set<Coord>, target: Coord)
    returns (found: bool, path: seq<Coord>, nodes: nat)
    requires Enclosed(maze, pos)
    ensures found ==> Walk(maze, pos, path) && (path == [] <==> target == pos)
    ensures found ==> (path != [] ==> path[|path| - 1] == target) && nodes >= 1
    ensures !found ==> Unreachable(maze, pos, target) && path == []
  {
    var h := (c: Coord) => Heuristic(c, remaining);
    var queue, cameFrom, costSoFar;
    ghost var expanded;
    found, queue, cameFrom, costSoFar, expanded, nodes := AstarSearch(maze, pos, target, h, 0);
    if found {
      nodes := nodes + 1;
      path := ReconstructPath(cameFrom, pos, target, maze, costSoFar);
      ChainMeaning(maze, cameFrom, pos, target, costSoFar);
    } else {
      assert cameFrom.Keys == expanded;
      ExhaustedMeansUnreachable(maze, pos, target, expanded);
      path := [];
    }
  }

  // ---------------------------------------------------------------------
  // The state of the outer loop
  // ---------------------------------------------------------------------

  /** `prize_order` numbers the prizes of `visits`, in that order, 0, 1, 2, … */
  ghost predicate Numbered(order: map<Coord, nat>, visits: seq<Coord>)
  {
    && |order| == |visits|
    && (forall k | 0 <= k < |visits| :: visits[k] in order && order[visits[k]] == k)
    && (forall p | p in order :: p in visits)
  }

  /** The numbers run from 0 to the number of prizes less one, each used
      once. */
  lemma NumberedMeaning(order: map<Coord, nat>, visits: seq<Coord>)
    requires Numbered(order, visits)
    ensures forall p | p in order :: order[p] < |order|
    ensures forall p, q | p in order && q in order && order[p] == order[q] :: p == q
  {
    forall p | p in order ensures order[p] < |order| {
      var k :| 0 <= k < |visits| && visits[k] == p;
    }
    forall p, q | p in order && q in order && order[p] == order[q] ensures p == q {
      var k :| 0 <= k < |visits| && visits[k] == p;
      var l :| 0 <= l < |visits| && visits[l] == q;
    }
  }

  /** `prize_order[target] = len(prize_order)` on a new target numbers it
      next. */
  lemma NumberedAdd(order: map<Coord, nat>, visits: seq<Coord>, target: Coord)
    requires Numbered(order, visits) && target !in order
    ensures Numbered(order[target := |order|], visits + [target])
  {
    var order' := order[target := |order|];
    assert order'.Keys == order.Keys + {target};
    assert |order'| == |order| + 1;
    forall k | 0 <= k < |visits| + 1
      ensures (visits + [target])[k] in order' && order'[(visits + [target])[k]] == k
    {
      if k < |visits| {
        assert visits[k] in order;
      }
    }
  }

  /** Every prize is still to be searched, reached, or given up. */
  ghost predicate Partitioned(prizes: set<Coord>, remaining: set<Coord>, order: map<Coord, nat>, dropped: map<Coord, Coord>)
  {
    && (forall p | p in prizes :: p in remaining || p in order || p in dropped)
    && (forall p | p in remaining :: p in prizes && p !in order && p !in dropped)
    && (forall p | p in order :: p in prizes && p !in dropped)
    && (forall p | p in dropped :: p in prizes)
  }

  /** `full_path` is a walk from the start that ends at the current
      position, and `path_cost` is its length. */
  ghost predicate Walked(maze: seq<seq<char>>, start: Coord, pos: Coord, fullPath: seq<Coord>, pathCost: nat)
  {
    && pathCost == |fullPath|
    && Walk(maze, start, fullPath)
    && pos == (if fullPath == [] then start else fullPath[|fullPath| - 1])
  }

  /** Every numbered prize lies on the full path. */
  ghost predicate OnPath(order: map<Coord, nat>, fullPath: seq<Coord>)
  {
    forall p | p in order :: p in fullPath
  }

  /** A given-up prize is one no walk reaches from the start or the
      numbered prize where its round began. */
  ghost predicate GivenUp(maze: seq<seq<char>>, start: Coord, order: map<Coord, nat>, dropped: map<Coord, Coord>)
  {
    forall d | d in dropped :: Unreachable(maze, dropped[d], d) && (dropped[d] == start || dropped[d] in order)
  }

  /** Numbering a reached prize keeps every given-up prize given up. */
  lemma GivenUpReach(maze: seq<seq<char>>, start: Coord, order: map<Coord, nat>, dropped: map<Coord, Coord>, target: Coord)
    requires GivenUp(maze, start, order, dropped)
    ensures GivenUp(maze, start, order[target := |order|], dropped)
  {
  }

  /** A target no walk reaches from the start or a numbered prize is given
      up. */
  lemma GivenUpDrop(maze: seq<seq<char>>, start: Coord, order: map<Coord, nat>, dropped: map<Coord, Coord>,
                    target: Coord, pos: Coord)
    requires GivenUp(maze, start, order, dropped) && Unreachable(maze, pos, target) && (pos == start || pos in order)
    ensures GivenUp(maze, start, order, dropped[target := pos])
  {
  }

  /** The state before the first round. */
  lemma TourStarts(maze: seq<seq<char>>, start: Coord, prizes: set<Coord>)
    ensures Walked(maze, start, start, [], 0) && Numbered(map[], []) && ReachedInOrder([], [], [])
    ensures Partitioned(prizes, prizes, map[], map[])
  {
  }

  /** The position of a round is the start or a reached prize: it has all
      four neighbours in the maze and is not a remaining prize. */
  lemma PositionAt(maze: seq<seq<char>>, start: Coord, prizes: set<Coord>, pos: Coord, remaining: set<Coord>,
                   order: map<Coord, nat>, dropped: map<Coord, Coord>)
    requires Enclosed(maze, start) && start !in prizes && forall p | p in prizes :: Passable(maze, p)
    requires (pos == start || pos in order) && Partitioned(prizes, remaining, order, dropped)
    ensures Enclosed(maze, pos) && pos !in remaining
  {
    if pos != start {
      assert pos in prizes;
    }
  }

  /** A walk from the end of a walk extends it. */
  lemma WalkConcat(m: seq<seq<char>>, start: Coord, w: seq<Coord>, v: seq<Coord>)
    requires Walk(m, start, w) && Walk(m, if w == [] then start else w[|w| - 1], v)
    ensures Walk(m, start, w + v)
  {
    var mid := if w == [] then start else w[|w| - 1];
    var u := w + v;
    forall k | 0 <= k < |u|
      ensures StepOk(m, start, u, k)
    {
      if k < |w| {
        assert StepOk(m, start, w, k);
        assert u[k] == w[k];
        assert Before(start, u, k) == Before(start, w, k);
      } else {
        assert StepOk(m, mid, v, k - |w|);
        assert u[k] == v[k - |w|];
        assert Before(start, u, k) == Before(mid, v, k - |w|);
      }
    }
  }

  lemma WalkedExtend(maze: seq<seq<char>>, start: Coord, pos: Coord, fullPath: seq<Coord>, pathCost: nat,
                     target: Coord, path: seq<Coord>)
    requires Walked(maze, start, pos, fullPath, pathCost)
    requires Walk(maze, pos, path) && path != [] && path[|path| - 1] == target
    ensures Walked(maze, start, target, fullPath + path, pathCost + |path|)
  {
    WalkConcat(maze, start, fullPath, path);
  }

  /** The last numbered prize is reached at position `ends[|ends| - 1]` of
      the full path, and the others, recursively, on the part of the path
      before it: the prizes are numbered in the order the walk reaches
      them. */
  ghost predicate ReachedInOrder(visits: seq<Coord>, ends: seq<nat>, fullPath: seq<Coord>)
    decreases |visits|
  {
    && |ends| == |visits|
    && (visits != [] ==>
          var n := |visits| - 1;
          && ends[n] < |fullPath| && fullPath[ends[n]] == visits[n]
          && ReachedInOrder(visits[..n], ends[..n], fullPath[..ends[n]]))
  }

  /** Position k of the full path holds the prize numbered k, and the
      positions strictly grow. */
  lemma {:induction false} ReachedMeaning(visits: seq<Coord>, ends: seq<nat>, fullPath: seq<Coord>)
    requires ReachedInOrder(visits, ends, fullPath)
    ensures |ends| == |visits|
    ensures forall k | 0 <= k < |ends| :: ends[k] < |fullPath| && fullPath[ends[k]] == visits[k]
    ensures forall i, j | 0 <= i < j < |ends| :: ends[i] < ends[j]
    decreases |visits|
  {
    if visits != [] {
      var n := |visits| - 1;
      var prefix := fullPath[..ends[n]];
      ReachedMeaning(visits[..n], ends[..n], prefix);
      forall k | 0 <= k < n ensures ends[k] < ends[n] && fullPath[ends[k]] == visits[k] {
        assert ends[..n][k] == ends[k] && visits[..n][k] == visits[k];
        assert prefix[ends[k]] == fullPath[ends[k]];
      }
    }
  }

  /** Reaching the prizes in order survives steps added after them. */
  lemma ReachedGrow(visits: seq<Coord>, ends: seq<nat>, fullPath: seq<Coord>, more: seq<Coord>)
    requires ReachedInOrder(visits, ends, fullPath)
    ensures ReachedInOrder(visits, ends, fullPath + more)
  {
    if visits != [] {
      var n := |visits| - 1;
      assert (fullPath + more)[..ends[n]] == fullPath[..ends[n]];
    }
  }

  /** A prize reached one step after the path so far is numbered after
      every prize reached on it. */
  lemma ReachedNext(visits: seq<Coord>, ends: seq<nat>, fullPath: seq<Coord>, target: Coord)
    requires ReachedInOrder(visits, ends, fullPath)
    ensures ReachedInOrder(visits + [target], ends + [|fullPath|], fullPath + [target])
  {
    assert (visits + [target])[..|visits|] == visits;
    assert (ends + [|fullPath|])[..|ends|] == ends;
    assert (fullPath + [target])[..|fullPath|] == fullPath;
  }

  /** A round that ends at its target appends the target's position, the
      last of the longer path, after all earlier ones. */
  lemma ReachedExtend(visits: seq<Coord>, ends: seq<nat>, fullPath: seq<Coord>, target: Coord, path: seq<Coord>)
    requires ReachedInOrder(visits, ends, fullPath) && path != [] && path[|path| - 1] == target
    ensures ReachedInOrder(visits + [target], ends + [|fullPath + path| - 1], fullPath + path)
  {
    var before := fullPath + path[..|path| - 1];
    ReachedGrow(visits, ends, fullPath, path[..|path| - 1]);
    ReachedNext(visits, ends, before, target);
    AppendLast(fullPath, path);
  }

  lemma AppendLast(fullPath: seq<Coord>, path: seq<Coord>)
    requires path != []
    ensures fullPath + path[..|path| - 1] + [path[|path| - 1]] == fullPath + path
  {
    assert path[..|path| - 1] + [path[|path| - 1]] == path;
  }

  /** Numbered prizes reached in order all lie on the full path. */
  lemma ReachedOnPath(order: map<Coord, nat>, visits: seq<Coord>, ends: seq<nat>, fullPath: seq<Coord>)
    requires Numbered(order, visits) && ReachedInOrder(visits, ends, fullPath)
    ensures OnPath(order, fullPath)
  {
    ReachedMeaning(visits, ends, fullPath);
    forall p | p in order ensures p in fullPath {
      var k :| 0 <= k < |visits| && visits[k] == p;
      assert fullPath[ends[k]] == p;
    }
  }

  /** What holds between the rounds of the tour. */
  ghost predicate Touring(maze: seq<seq<char>>, start: Coord, prizes: set<Coord>, pos: Coord, fullPath: seq<Coord>,
                          pathCost: nat, remaining: set<Coord>, order: map<Coord, nat>, visits: seq<Coord>,
                          ends: seq<nat>, dropped: map<Coord, Coord>)
  {
    && Walked(maze, start, pos, fullPath, pathCost)
    && (pos == start || pos in order)
    && Numbered(order, visits)
    && ReachedInOrder(visits, ends, fullPath)
    && Partitioned(prizes, remaining, order, dropped)
    && GivenUp(maze, start, order, dropped)
  }

  /** A round that reaches its target keeps every invariant of the tour
      once the target is numbered next and its path appended. */
  lemma TourReach(maze: seq<seq<char>>, start: Coord, prizes: set<Coord>, pos: Coord, fullPath: seq<Coord>,
                  pathCost: nat, remaining: set<Coord>, order: map<Coord, nat>, visits: seq<Coord>,
                  ends: seq<nat>, dropped: map<Coord, Coord>, target: Coord, path: seq<Coord>)
    requires Touring(maze, start, prizes, pos, fullPath, pathCost, remaining, order, visits, ends, dropped)
    requires target in remaining && Walk(maze, pos, path) && path != [] && path[|path| - 1] == target
    ensures Touring(maze, start, prizes, target, fullPath + path, pathCost + |path|, remaining - {target},
                    order[target := |order|], visits + [target], ends + [|fullPath + path| - 1], dropped)
  {
    PartitionedMove(prizes, remaining, order, dropped, target, pos);
    WalkedExtend(maze, start, pos, fullPath, pathCost, target, path);
    NumberedAdd(order, visits, target);
    ReachedExtend(visits, ends, fullPath, target, path);
    GivenUpReach(maze, start, order, dropped, target);
  }

  /** A round that cannot reach its target gives that target up, noting
      where the round stood. */
  lemma TourDrop(maze: seq<seq<char>>, start: Coord, prizes: set<Coord>, pos: Coord, fullPath: seq<Coord>,
                 pathCost: nat, remaining: set<Coord>, order: map<Coord, nat>, visits: seq<Coord>,
                 ends: seq<nat>, dropped: map<Coord, Coord>, target: Coord)
    requires Touring(maze, start, prizes, pos, fullPath, pathCost, remaining, order, visits, ends, dropped)
    requires target in remaining && Unreachable(maze, pos, target)
    ensures Touring(maze, start, prizes, pos, fullPath, pathCost, remaining - {target},
                    order, visits, ends, dropped[target := pos])
  {
    PartitionedMove(prizes, remaining, order, dropped, target, pos);
    GivenUpDrop(maze, start, order, dropped, target, pos);
  }

  lemma PartitionedMove(prizes: set<Coord>, remaining: set<Coord>, order: map<Coord, nat>, dropped: map<Coord, Coord>,
                        target: Coord, pos: Coord)
    requires Partitioned(prizes, remaining, order, dropped) && target in remaining
    ensures Partitioned(prizes, remaining - {target}, order[target := |order|], dropped)
    ensures Partitioned(prizes, remaining - {target}, order, dropped[target := pos])
    ensures target !in order && target !in dropped
  {
  }

  // ---------------------------------------------------------------------
  // mark_path
  // ---------------------------------------------------------------------

  function Digit(d: nat): (c: char)
    requires d < 10
    ensures '0' <= c <= '9' && c as int - '0' as int == d
  {
    ('0' as int + d) as char
  }

  /** `str(n)`: the decimal digits of n, without leading zeros. */
  function NatText(n: nat): (s: string)
    ensures s != [] && forall k | 0 <= k < |s| :: '0' <= s[k] <= '9'
    ensures |s| > 1 ==> s[0] != '0'
    decreases n
  {
    if n < 10 then [Digit(n)] else NatText(n / 10) + [Digit(n % 10)]
  }

  /** The number a string of decimal digits denotes. */
  function ParseNat(s: string): nat
    requires forall k | 0 <= k < |s| :: '0' <= s[k] <= '9'
    decreases |s|
  {
    if s == [] then 0 else ParseNat(s[..|s| - 1]) * 10 + (s[|s| - 1] as int - '0' as int)
  }

  /** Reading the number text back gives the number. */
  lemma {:induction false} ParseNatText(n: nat)
    ensures ParseNat(NatText(n)) == n
    decreases n
  {
    if n >= 10 {
      ParseNatText(n / 10);
      var s := NatText(n);
      assert s[..|s| - 1] == NatText(n / 10);
    }
  }

  /** The text `mark_path` writes on a cell of the path. */
  function Label(c: Coord, order: map<Coord, nat>): string
  {
    if c in order then NatText(order[c]) else "#"
  }

  /** The maze as a grid of one-character strings. */
  function Cells(m: seq<seq<char>>): (r: seq<seq<string>>)
    ensures |r| == |m| && forall i | 0 <= i < |m| :: |r[i]| == |m[i]|
  {
    seq(|m|, i requires 0 <= i < |m| => seq(|m[i]|, j requires 0 <= j < |m[i]| => [m[i][j]]))
  }

  /** The maze with the label of every path cell written on it. */
  function Labelled(m: seq<seq<char>>, path: seq<Coord>, order: map<Coord, nat>): (r: seq<seq<string>>)
    ensures |r| == |m| && forall i | 0 <= i < |m| :: |r[i]| == |m[i]|
  {
    seq(|m|, i requires 0 <= i < |m| => seq(|m[i]|, j requires 0 <= j < |m[i]| =>
      if Coord(i, j) in path then Label(Coord(i, j), order) else [m[i][j]]))
  }

  /** A numbered prize on the path shows its number, every other path cell
      '#', and every cell off the path keeps its character. */
  lemma LabelledMeaning(m: seq<seq<char>>, path: seq<Coord>, order: map<Coord, nat>, c: Coord)
    requires InBounds(m, c)
    ensures c in path && c in order ==> ParseNat(Labelled(m, path, order)[c.i][c.j]) == order[c]
    ensures c in path && c !in order ==> Labelled(m, path, order)[c.i][c.j] == "#"
    ensures c !in path ==> Labelled(m, path, order)[c.i][c.j] == [m[c.i][c.j]]
  {
    if c in path && c in order {
      ParseNatText(order[c]);
    }
  }

  lemma LabelledEmpty(m: seq<seq<char>>, order: map<Coord, nat>)
    ensures Labelled(m, [], order) == Cells(m)
  {
    forall i | 0 <= i < |m| ensures Labelled(m, [], order)[i] == Cells(m)[i] { }
  }

  lemma LabelledStep(m: seq<seq<char>>, path: seq<Coord>, order: map<Coord, nat>, c: Coord)
    requires InBounds(m, c)
    ensures var g := Labelled(m, path, order);
      Labelled(m, path + [c], order) == g[c.i := g[c.i][c.j := Label(c, order)]]
  {
    var g := Labelled(m, path, order);
    var g' := g[c.i := g[c.i][c.j := Label(c, order)]];
    forall i | 0 <= i < |m| ensures Labelled(m, path + [c], order)[i] == g'[i] {
      assert forall j | 0 <= j < |m[i]| :: Labelled(m, path + [c], order)[i][j] == g'[i][j];
    }
  }

  /** `''.join(row)`. */
  function Concat(cells: seq<string>): string
  {
    if cells == [] then [] else cells[0] + Concat(cells[1..])
  }

  /** Each row of cells joined into one line. */
  function Rows(g: seq<seq<string>>): (r: seq<seq<char>>)
    ensures |r| == |g| && forall i | 0 <= i < |g| :: r[i] == Concat(g[i])
  {
    seq(|g|, i requires 0 <= i < |g| => Concat(g[i]))
  }

  /** `mark_path(maze, full_path, prize_order)`: the label of every cell of
      the path written on the maze (a later visit writes the same label as
      an earlier one), then the lines joined by '\n'. */
  method MarkPrizes(maze: seq<seq<char>>, fullPath: seq<Coord>, order: map<Coord, nat>) returns (text: seq<char>)
    requires forall c | c in fullPath :: InBounds(maze, c)
    ensures text == Join(Rows(Labelled(maze, fullPath, order)))
  {
    var g := Cells(maze);
    LabelledEmpty(maze, order);
    for k := 0 to |fullPath|
      invariant g == Labelled(maze, fullPath[..k], order)
    {
      var c := fullPath[k];
      LabelledStep(maze, fullPath[..k], order, c);
      var mark := if c in order then NatText(order[c]) else "#";
      g := g[c.i := g[c.i][c.j := mark]];
      assert fullPath[..k + 1] == fullPath[..k] + [c];
    }
    assert fullPath[..|fullPath|] == fullPath;
    text := Join(Rows(g));
  }

  // ---------------------------------------------------------------------
  // multi_astar
  // ---------------------------------------------------------------------

  /** One pass of the outer `while remaining_goals` loop as the source
      writes it: a round that reaches its target records it; a round that
      does not changes nothing but the count of expanded nodes, so when no
      remaining prize can be reached the next pass starts from the same
      state and the loop never ends. */
  method AsWrittenRound(maze: seq<seq<char>>, pos: Coord, remaining: set<Coord>, order: map<Coord, nat>,
                        fullPath: seq<Coord>, pathCost: nat, nodes: nat)
    returns (pos': Coord, remaining': set<Coord>, order': map<Coord, nat>, fullPath': seq<Coord>, pathCost': nat, nodes': nat)
    requires Enclosed(maze, pos) && remaining != {}
    ensures (forall g | g in remaining :: Unreachable(maze, pos, g)) ==>
      pos' == pos && remaining' == remaining && order' == order && fullPath' == fullPath && pathCost' == pathCost
    ensures remaining' == remaining || exists t | t in remaining :: remaining' == remaining - {t} && order' == order[t := |order|]
  {
    var target := NearestTarget(pos, remaining);
    var found, path, n := Round(maze, pos, remaining, target);
    nodes' := nodes + n;
    if found {
      pathCost' := pathCost + |path|;
      fullPath' := fullPath + path;
      pos' := target;
      remaining' := remaining - {target};
      order' := order[target := |order|];
    } else {
      pos', remaining', order', fullPath', pathCost' := pos, remaining, order, fullPath, pathCost;
    }
  }

  /** A maze whose only prize is walled off from the start. */
  const WalledMaze: seq<seq<char>> := ["%%%%%", "%P%.%", "%%%%%"]

  /** In `WalledMaze` the start has all its neighbours in the maze, so a
      round from it may run, and no walk from it reaches the prize at (1, 3):
      every pass of the outer loop as written leaves the prize remaining. */
  lemma WalledPrizeUnreachable()
    ensures Enclosed(WalledMaze, Coord(1, 1)) && Unreachable(WalledMaze, Coord(1, 1), Coord(1, 3))
  {
    var m := WalledMaze;
    var start := Coord(1, 1);
    assert m[0] == "%%%%%" && m[1] == "%P%.%" && m[2] == "%%%%%";
    forall c | Passable(m, c) ensures c == Coord(1, 3) {
      assert c.i == 0 || c.i == 1 || c.i == 2;
    }
    forall k | 0 <= k < 4 ensures !Passable(m, Neighbour(start, k)) {
      assert Neighbour(start, k) != Coord(1, 3);
    }
    ExhaustedMeansUnreachable(m, start, Coord(1, 3), {start});
  }

  /** One pass of the outer loop of `multi_astar`: search from the current
      position towards the nearest remaining prize; a round that reaches it
      numbers it next and appends the round's path, one that cannot gives
      it up instead of repeating forever. */
  method TourRound(maze: seq<seq<char>>, start: Coord, ghost prizes: set<Coord>, pos: Coord, path: seq<Coord>,
                   pathCost: nat, remaining: set<Coord>, prizeOrder: map<Coord, nat>, ghost visits: seq<Coord>,
                   ghost ends: seq<nat>, ghost dropped: map<Coord, Coord>)
    returns (pos': Coord, path': seq<Coord>, pathCost': nat, remaining': set<Coord>, prizeOrder': map<Coord, nat>,
             nodes: nat, ghost visits': seq<Coord>, ghost ends': seq<nat>, ghost dropped': map<Coord, Coord>)
    requires Touring(maze, start, prizes, pos, path, pathCost, remaining, prizeOrder, visits, ends, dropped)
    requires Enclosed(maze, pos) && pos !in remaining && remaining != {}
    ensures Touring(maze, start, prizes, pos', path', pathCost', remaining', prizeOrder', visits', ends', dropped')
    ensures remaining' < remaining && |prizeOrder'| <= |prizeOrder| + nodes
  {
    var target := NearestTarget(pos, remaining);
    var found, roundPath, n := Round(maze, pos, remaining, target);
    nodes := n;
    if found {
      TourReach(maze, start, prizes, pos, path, pathCost, remaining, prizeOrder, visits, ends, dropped, target, roundPath);
      pos', path', pathCost' := target, path + roundPath, pathCost + |roundPath|;
      remaining', prizeOrder' := remaining - {target}, prizeOrder[target := |prizeOrder|];
      visits', ends', dropped' := visits + [target], ends + [|path + roundPath| - 1], dropped;
    } else {
      TourDrop(maze, start, prizes, pos, path, pathCost, remaining, prizeOrder, visits, ends, dropped, target);
      pos', path', pathCost', prizeOrder' := pos, path, pathCost, prizeOrder;
      remaining' := remaining - {target};
      visits', ends', dropped' := visits, ends, dropped[target := pos];
    }
  }

  /** The outer loop of `multi_astar`, with a round that cannot reach its
      target giving that prize up instead of repeating forever. */
  method Tour(maze: seq<seq<char>>, start: Coord, prizes: seq<Coord>)
    returns (path: seq<Coord>, prizeOrder: map<Coord, nat>, pathCost: nat, nodes: nat,
             ghost visits: seq<Coord>, ghost ends: seq<nat>, ghost dropped: map<Coord, Coord>)
    requires Enclosed(maze, start) && start !in prizes && forall p | p in prizes :: Passable(maze, p)
    ensures Walk(maze, start, path) && pathCost == |path|
    ensures Numbered(prizeOrder, visits) && OnPath(prizeOrder, path) && ReachedInOrder(visits, ends, path)
    ensures Partitioned(Elements(prizes), {}, prizeOrder, dropped)
    ensures GivenUp(maze, start, prizeOrder, dropped) && nodes >= |prizeOrder|
  {
    prizeOrder := map[];
    pathCost, nodes := 0, 0;
    path := [];
    var pos := start;
    var remaining := Elements(prizes);
    visits, ends := [], [];
    dropped := map[];
    TourStarts(maze, start, remaining);
    while remaining != {}
      invariant Touring(maze, start, Elements(prizes), pos, path, pathCost, remaining, prizeOrder, visits, ends, dropped)
      invariant nodes >= |prizeOrder|
      decreases remaining
    {
      PositionAt(maze, start, Elements(prizes), pos, remaining, prizeOrder, dropped);
      var n;
      pos, path, pathCost, remaining, prizeOrder, n, visits, ends, dropped :=
        TourRound(maze, start, Elements(prizes), pos, path, pathCost, remaining, prizeOrder, visits, ends, dropped);
      nodes := nodes + n;
    }
    ReachedOnPath(prizeOrder, visits, ends, path);
  }

  /** `multi_astar` after `read_maze`, with the loop of `Tour`. The prizes
      are cells holding '.' and the start is not one of them. The result
      reports a walk from the start that passes every reached prize, its
      length as the path cost, and the marked maze; every prize is either
      numbered 0, 1, 2, … in the order reached (`visits[k]` is the prize
      numbered k, reached at position `ends[k]` of the path), or given up
      because no walk reaches it from where the search stood. */
  method MultiAstar(maze: seq<seq<char>>, start: Coord, prizes: seq<Coord>)
    returns (r: Solution, ghost fullPath: seq<Coord>, ghost order: map<Coord, nat>, ghost dropped: map<Coord, Coord>,
             ghost visits: seq<Coord>, ghost ends: seq<nat>)
    requires Enclosed(maze, start) && start !in prizes && forall p | p in prizes :: Passable(maze, p)
    ensures Walk(maze, start, fullPath) && r.cost == |fullPath|
    ensures Partitioned(Elements(prizes), {}, order, dropped)
    ensures forall p | p in order :: p in fullPath && order[p] < |order|
    ensures forall p, q | p in order && q in order && order[p] == order[q] :: p == q
    ensures |visits| == |order| == |ends| && forall p | p in order :: p in visits
    ensures forall k | 0 <= k < |visits| ::
      && visits[k] in order && order[visits[k]] == k
      && ends[k] < |fullPath| && fullPath[ends[k]] == visits[k]
    ensures forall i, j | 0 <= i < j < |ends| :: ends[i] < ends[j]
    ensures forall d | d in dropped :: Unreachable(maze, dropped[d], d)
    ensures r.nodesExpanded >= |order|
    ensures r.text == Join(Rows(Labelled(maze, fullPath, order)))
  {
    var path, prizeOrder, pathCost, nodes;
    path, prizeOrder, pathCost, nodes, visits, ends, dropped := Tour(maze, start, prizes);
    NumberedMeaning(prizeOrder, visits);
    ReachedMeaning(visits, ends, path);
    forall c | c in path ensures InBounds(maze, c) {
      var k :| 0 <= k < |path| && path[k] == c;
      assert StepOk(maze, start, path, k);
    }
    var text := MarkPrizes(maze, path, prizeOrder);
    r := Solution(text, pathCost, nodes);
    fullPath, order := path, prizeOrder;
  }
}
