/** The A* loop of `Labs/PartA/Part3/single_searchers.py` (`single_astar`),
    also run once per prize by `Labs/PartA/Part4/main.py`. The heuristic and
    the first entry's priority are parameters: the single-prize search uses
    the distance to the goal and starts at that priority, the multi-prize
    search uses the distance to the nearest remaining prize and starts at
    priority 0. There is no closed set: an entry left on the heap after its
    cell got a cheaper cost is still popped and expanded with its own cost. */
module Astar {
  import opened Options
  import opened Sets
  import opened GridSearch
  import opened SingleSearchers

  /** `came_from` and `cost_so_far` together: the same keys, rooted at the
      start with the costs as ranks (a parent's cost is below its child's),
      the start at cost 0, only cells the search may hold, and every cost
      below the number of entries. */
  ghost predicate Costed(maze: seq<seq<char>>, start: Coord, cameFrom: map<Coord, Option<Coord>>, costSoFar: map<Coord, nat>)
  {
    && Rooted(maze, cameFrom, start, costSoFar) && cameFrom.Keys == costSoFar.Keys
    && start in costSoFar && costSoFar[start] == 0
    && cameFrom.Keys <= Universe(maze, start)
    && forall c | c in costSoFar :: costSoFar[c] < |costSoFar.Keys|
  }

  /** Costs only go down, and no key is lost. */
  ghost predicate Lowered(costSoFar: map<Coord, nat>, costSoFar': map<Coord, nat>)
  {
    forall c | c in costSoFar :: c in costSoFar' && costSoFar'[c] <= costSoFar[c]
  }

  /** Every entry pushed while expanding a cell popped with cost `cost`
      carries cost `cost + 1`, which its cell had no cost or a higher one
      before and is now at least its cell's cost, and priority
      `cost + 1 + h(cell)`. */
  ghost predicate Carried(h: Coord -> nat, cost: int, costSoFar: map<Coord, nat>, costSoFar': map<Coord, nat>, pushed: seq<Entry>)
  {
    forall e | e in pushed ::
      && e.cell in costSoFar' && costSoFar'[e.cell] <= e.cost < |costSoFar'.Keys|
      && e.cost == cost + 1 && e.priority == e.cost + h(e.cell)
      && (e.cell in costSoFar ==> e.cost < costSoFar[e.cell])
  }

  /** Every key that had no cost before was pushed. */
  ghost predicate Recorded(costSoFar: map<Coord, nat>, costSoFar': map<Coord, nat>, pushed: seq<Entry>)
  {
    forall c | c in costSoFar' :: c in costSoFar || c in QueueCells(pushed)
  }

  /** Every passable neighbour among the first k directions has a cost. */
  ghost predicate Tried(maze: seq<seq<char>>, current: Coord, costSoFar: map<Coord, nat>, k: int)
  {
    forall t | 0 <= t < k && t < 4 && Passable(maze, Neighbour(current, t)) :: Neighbour(current, t) in costSoFar
  }

  /** Giving `n`, the neighbour in direction k, a cost and pushing it keeps
      every new key recorded and adds direction k to the ones tried. */
  lemma RecordedRelax(maze: seq<seq<char>>, current: Coord, costSoFar: map<Coord, nat>, costSoFar': map<Coord, nat>,
                      pushed: seq<Entry>, k: int, n: Coord, csf: map<Coord, nat>, e: Entry)
    requires Recorded(costSoFar, costSoFar', pushed) && Tried(maze, current, costSoFar', k)
    requires 0 <= k < 4 && n == Neighbour(current, k) && e.cell == n && csf.Keys == costSoFar'.Keys + {n}
    ensures Recorded(costSoFar, csf, pushed + [e]) && Tried(maze, current, csf, k + 1)
  {
    QueueCellsAppend(pushed, [e]);
  }

  /** The state of the loop over the directions after the first k, for
      `current` popped with cost `cost`: costs only go down, each new key
      was pushed, the pushed entries are carried, and every passable
      neighbour tried so far has a cost. */
  ghost predicate Relaxing(maze: seq<seq<char>>, start: Coord, h: Coord -> nat, current: Coord, cost: int,
                           cameFrom: map<Coord, Option<Coord>>, costSoFar: map<Coord, nat>,
                           cameFrom': map<Coord, Option<Coord>>, costSoFar': map<Coord, nat>, pushed: seq<Entry>, k: int)
    requires 0 <= k <= 4
  {
    && Costed(maze, start, cameFrom', costSoFar')
    && current in costSoFar' && costSoFar'[current] <= cost
    && |costSoFar.Keys| <= |costSoFar'.Keys|
    && Lowered(costSoFar, costSoFar')
    && Recorded(costSoFar, costSoFar', pushed)
    && Carried(h, cost, costSoFar, costSoFar', pushed)
    && Tried(maze, current, costSoFar', k)
  }

  /** Setting the cost of `n` to `cost + 1`, below its old cost if it had
      one, keeps the costs lowered and the pushed entries carried, with the
      entry for `n` pushed. */
  lemma CarriedRelax(h: Coord -> nat, cost: int, costSoFar: map<Coord, nat>, costSoFar': map<Coord, nat>, pushed: seq<Entry>,
                     n: Coord, csf: map<Coord, nat>)
    requires Lowered(costSoFar, costSoFar') && Carried(h, cost, costSoFar, costSoFar', pushed)
    requires 0 <= cost && (n !in costSoFar' || cost + 1 < costSoFar'[n]) && csf == costSoFar'[n := cost + 1]
    requires |costSoFar'.Keys| <= |csf.Keys| && cost + 1 < |csf.Keys|
    ensures Lowered(costSoFar, csf)
    ensures Carried(h, cost, costSoFar, csf, pushed + [Entry(cost + 1 + h(n), cost + 1, n)])
  {
    var pushed' := pushed + [Entry(cost + 1 + h(n), cost + 1, n)];
    forall e | e in pushed'
      ensures && e.cell in csf && csf[e.cell] <= e.cost < |csf.Keys|
              && e.cost == cost + 1 && e.priority == e.cost + h(e.cell)
              && (e.cell in costSoFar ==> e.cost < costSoFar[e.cell])
    {
      if e in pushed {
        assert costSoFar'[e.cell] <= e.cost < |costSoFar'.Keys|;
      } else {
        assert e == Entry(cost + 1 + h(n), cost + 1, n);
      }
    }
  }

  /** Setting the cost of a passable cell `n` to `cost + 1`, below its old
      cost if it had one, keeps every cost below the number of entries. */
  lemma CostedRelax(maze: seq<seq<char>>, start: Coord, current: Coord, cost: int, n: Coord,
                    cameFrom: map<Coord, Option<Coord>>, costSoFar: map<Coord, nat>)
    requires Costed(maze, start, cameFrom, costSoFar) && current in costSoFar && costSoFar[current] <= cost < |costSoFar.Keys|
    requires n != current && Passable(maze, n) && Adjacent(current, n) && (n !in costSoFar || cost + 1 < costSoFar[n])
    ensures var csf := costSoFar[n := cost + 1];
      && Costed(maze, start, cameFrom[n := Some(current)], csf)
      && |costSoFar.Keys| <= |csf.Keys| && cost + 1 < |csf.Keys|
  {
    var csf := costSoFar[n := cost + 1];
    assert n != start;
    RootedRelax(maze, start, current, cost, n, cameFrom, costSoFar);
    PassableCellsMember(maze, n);
    assert csf.Keys == costSoFar.Keys + {n};
    if n !in costSoFar {
      assert |csf.Keys| == |costSoFar.Keys| + 1;
    } else {
      assert csf.Keys == costSoFar.Keys;
    }
  }

  /** A cell is never its own neighbour. */
  lemma NeighbourMoves(c: Coord, k: int)
    requires 0 <= k < 4
    ensures Neighbour(c, k) != c
  {
    NeighbourMeaning(c, Neighbour(c, k));
  }

  /** Lowering the cost of `n` to `cost + 1` with `current` as its parent
      keeps the maps rooted at the start with the costs as ranks. */
  lemma RootedRelax(maze: seq<seq<char>>, start: Coord, current: Coord, cost: int, n: Coord,
                    cameFrom: map<Coord, Option<Coord>>, costSoFar: map<Coord, nat>)
    requires Rooted(maze, cameFrom, start, costSoFar) && cameFrom.Keys == costSoFar.Keys
    requires current in costSoFar && costSoFar[current] <= cost && n != current && n != start
    requires Passable(maze, n) && Adjacent(current, n) && (n !in costSoFar || cost + 1 < costSoFar[n])
    ensures Rooted(maze, cameFrom[n := Some(current)], start, costSoFar[n := cost + 1])
  {
    var cf, csf := cameFrom[n := Some(current)], costSoFar[n := cost + 1];
    forall c | c in cf && c != start
      ensures && cf[c].Some? && cf[c].value in cf
              && csf[cf[c].value] < csf[c]
              && Adjacent(cf[c].value, c) && Passable(maze, c)
    {
      if c != n {
        assert cf[c] == cameFrom[c];
        var p := cameFrom[c].value;
        assert costSoFar[p] < costSoFar[c];
      }
    }
  }

  lemma RelaxAdd(maze: seq<seq<char>>, start: Coord, h: Coord -> nat, current: Coord, cost: int,
                 cameFrom: map<Coord, Option<Coord>>, costSoFar: map<Coord, nat>,
                 cameFrom': map<Coord, Option<Coord>>, costSoFar': map<Coord, nat>, pushed: seq<Entry>, k: int,
                 n: Coord, cf: map<Coord, Option<Coord>>, csf: map<Coord, nat>, pushed': seq<Entry>)
    requires 0 <= k < 4 && cost < |costSoFar.Keys|
    requires Relaxing(maze, start, h, current, cost, cameFrom, costSoFar, cameFrom', costSoFar', pushed, k)
    requires n == Neighbour(current, k) && Passable(maze, n) && (n !in costSoFar' || cost + 1 < costSoFar'[n])
    requires cf == cameFrom'[n := Some(current)] && csf == costSoFar'[n := cost + 1]
    requires pushed' == pushed + [Entry(cost + 1 + h(n), cost + 1, n)]
    ensures Relaxing(maze, start, h, current, cost, cameFrom, costSoFar, cf, csf, pushed', k + 1)
  {
    NeighbourMoves(current, k);
    NeighbourMeaning(current, n);
    CostedRelax(maze, start, current, cost, n, cameFrom', costSoFar');
    CarriedRelax(h, cost, costSoFar, costSoFar', pushed, n, csf);
    RecordedRelax(maze, current, costSoFar, costSoFar', pushed, k, n, csf, Entry(cost + 1 + h(n), cost + 1, n));
  }

  lemma RelaxSkip(maze: seq<seq<char>>, start: Coord, h: Coord -> nat, current: Coord, cost: int,
                  cameFrom: map<Coord, Option<Coord>>, costSoFar: map<Coord, nat>,
                  cameFrom': map<Coord, Option<Coord>>, costSoFar': map<Coord, nat>, pushed: seq<Entry>, k: int)
    requires 0 <= k < 4
    requires Relaxing(maze, start, h, current, cost, cameFrom, costSoFar, cameFrom', costSoFar', pushed, k)
    requires var n := Neighbour(current, k); !Passable(maze, n) || (n in costSoFar' && cost + 1 >= costSoFar'[n])
    ensures Relaxing(maze, start, h, current, cost, cameFrom, costSoFar, cameFrom', costSoFar', pushed, k + 1)
  {
  }

  /** The direction in which `n` lies from `c`, in the order the searches
      try them, or 4 when `n` is not a neighbour of `c`. */
  function Direction(c: Coord, n: Coord): nat
  {
    if n == Neighbour(c, 0) then 0
    else if n == Neighbour(c, 1) then 1
    else if n == Neighbour(c, 2) then 2
    else if n == Neighbour(c, 3) then 3
    else 4
  }

  /** The four neighbours are distinct, so each lies in its own direction. */
  lemma DirectionOf(c: Coord, t: int)
    requires 0 <= t < 4
    ensures Direction(c, Neighbour(c, t)) == t
  {
  }

  /** The source's test for a neighbour `n` of a cell popped with cost
      `cost`: `n` is ' ' or '.' and has no cost yet, or a cost above
      `cost + 1`. */
  ghost predicate Improves(maze: seq<seq<char>>, cost: int, costSoFar: map<Coord, nat>, n: Coord)
  {
    Passable(maze, n) && (n !in costSoFar || cost + 1 < costSoFar[n])
  }

  /** `n` was re-opened from `current`: its cost is `cost + 1`, its parent
      is `current`, and an entry `(cost + 1 + h(n), cost + 1, n)` was
      pushed for it. */
  ghost predicate Reopened(h: Coord -> nat, current: Coord, cost: int,
                           cameFrom': map<Coord, Option<Coord>>, costSoFar': map<Coord, nat>, pushed: seq<Entry>, n: Coord)
  {
    && n in costSoFar' && costSoFar'[n] == cost + 1
    && n in cameFrom' && cameFrom'[n] == Some(current)
    && Entry(cost + 1 + h(n), cost + 1, n) in pushed
  }

  /** Every cell with no entry pushed keeps its cost and its parent. */
  ghost predicate Kept(cameFrom: map<Coord, Option<Coord>>, costSoFar: map<Coord, nat>,
                       cameFrom': map<Coord, Option<Coord>>, costSoFar': map<Coord, nat>, pushed: seq<Entry>)
  {
    && (forall c | c in costSoFar && c !in QueueCells(pushed) :: c in costSoFar' && costSoFar'[c] == costSoFar[c])
    && (forall c | c in cameFrom && c !in QueueCells(pushed) :: c in cameFrom' && cameFrom'[c] == cameFrom[c])
  }

  /** After the first k directions: each of them whose neighbour passes the
      test against the costs before the loop was re-opened, every pushed
      entry is for such a neighbour, and every other cell is kept. */
  ghost predicate Reopening(maze: seq<seq<char>>, h: Coord -> nat, current: Coord, cost: int,
                            cameFrom: map<Coord, Option<Coord>>, costSoFar: map<Coord, nat>,
                            cameFrom': map<Coord, Option<Coord>>, costSoFar': map<Coord, nat>, pushed: seq<Entry>, k: int)
    requires 0 <= k <= 4
  {
    && (forall t | 0 <= t < k && Improves(maze, cost, costSoFar, Neighbour(current, t)) ::
          Reopened(h, current, cost, cameFrom', costSoFar', pushed, Neighbour(current, t)))
    && (forall e | e in pushed :: Direction(current, e.cell) < k && Improves(maze, cost, costSoFar, e.cell))
    && Kept(cameFrom, costSoFar, cameFrom', costSoFar', pushed)
  }

  /** The neighbour in direction k has no entry yet, so the test the loop
      makes against the current costs is the test against the costs before
      the loop. */
  lemma ReopenGuard(maze: seq<seq<char>>, h: Coord -> nat, current: Coord, cost: int,
                    cameFrom: map<Coord, Option<Coord>>, costSoFar: map<Coord, nat>,
                    cameFrom': map<Coord, Option<Coord>>, costSoFar': map<Coord, nat>, pushed: seq<Entry>, k: int)
    requires 0 <= k < 4
    requires Reopening(maze, h, current, cost, cameFrom, costSoFar, cameFrom', costSoFar', pushed, k)
    requires Recorded(costSoFar, costSoFar', pushed)
    ensures var n := Neighbour(current, k);
      && n !in QueueCells(pushed)
      && (Improves(maze, cost, costSoFar', n) <==> Improves(maze, cost, costSoFar, n))
  {
    DirectionOf(current, k);
  }

  /** Re-opening the neighbour in direction k extends the loop's record by
      that direction. */
  lemma ReopenAdd(maze: seq<seq<char>>, h: Coord -> nat, current: Coord, cost: int,
                  cameFrom: map<Coord, Option<Coord>>, costSoFar: map<Coord, nat>,
                  cameFrom': map<Coord, Option<Coord>>, costSoFar': map<Coord, nat>, pushed: seq<Entry>, k: int,
                  n: Coord, cf: map<Coord, Option<Coord>>, csf: map<Coord, nat>, pushed': seq<Entry>)
    requires 0 <= k < 4 && 0 <= cost
    requires Reopening(maze, h, current, cost, cameFrom, costSoFar, cameFrom', costSoFar', pushed, k)
    requires n == Neighbour(current, k) && Improves(maze, cost, costSoFar, n)
    requires cf == cameFrom'[n := Some(current)] && csf == costSoFar'[n := cost + 1]
    requires pushed' == pushed + [Entry(cost + 1 + h(n), cost + 1, n)]
    ensures Reopening(maze, h, current, cost, cameFrom, costSoFar, cf, csf, pushed', k + 1)
  {
    var e := Entry(cost + 1 + h(n), cost + 1, n);
    DirectionOf(current, k);
    QueueCellsAppend(pushed, [e]);
    forall t | 0 <= t < k + 1 && Improves(maze, cost, costSoFar, Neighbour(current, t))
      ensures Reopened(h, current, cost, cf, csf, pushed', Neighbour(current, t))
    {
      if t < k {
        DirectionOf(current, t);
        assert Neighbour(current, t) != n;
      }
    }
  }

  /** Skipping the neighbour in direction k, which fails the test, extends
      the loop's record by that direction. */
  lemma ReopenSkip(maze: seq<seq<char>>, h: Coord -> nat, current: Coord, cost: int,
                   cameFrom: map<Coord, Option<Coord>>, costSoFar: map<Coord, nat>,
                   cameFrom': map<Coord, Option<Coord>>, costSoFar': map<Coord, nat>, pushed: seq<Entry>, k: int)
    requires 0 <= k < 4
    requires Reopening(maze, h, current, cost, cameFrom, costSoFar, cameFrom', costSoFar', pushed, k)
    requires !Improves(maze, cost, costSoFar, Neighbour(current, k))
    ensures Reopening(maze, h, current, cost, cameFrom, costSoFar, cameFrom', costSoFar', pushed, k + 1)
  {
  }

  /** The loop over the four directions: a passable neighbour without a
      cost, or whose cost is above `cost + 1`, gets cost `cost + 1` and
      `current` as its parent, and an entry `(cost + 1 + h, cost + 1, cell)`
      is pushed for it. */
  method Relax(maze: seq<seq<char>>, start: Coord, h: Coord -> nat, current: Coord, cost: int,
               cameFrom: map<Coord, Option<Coord>>, costSoFar: map<Coord, nat>)
    returns (cameFrom': map<Coord, Option<Coord>>, costSoFar': map<Coord, nat>, pushed: seq<Entry>)
    requires Costed(maze, start, cameFrom, costSoFar) && Surrounded(maze, current)
    requires current in costSoFar && costSoFar[current] <= cost < |costSoFar.Keys|
    ensures Relaxing(maze, start, h, current, cost, cameFrom, costSoFar, cameFrom', costSoFar', pushed, 4)
    ensures Reopening(maze, h, current, cost, cameFrom, costSoFar, cameFrom', costSoFar', pushed, 4)
  {
    cameFrom', costSoFar', pushed := cameFrom, costSoFar, [];
    for k := 0 to 4
      invariant Relaxing(maze, start, h, current, cost, cameFrom, costSoFar, cameFrom', costSoFar', pushed, k)
      invariant Reopening(maze, h, current, cost, cameFrom, costSoFar, cameFrom', costSoFar', pushed, k)
    {
      cameFrom', costSoFar', pushed := RelaxDirection(maze, start, h, current, cost, cameFrom, costSoFar, cameFrom', costSoFar', pushed, k);
    }
  }

  /** One pass of `Relax`'s loop, for the neighbour in direction k: when it
      passes the test against the costs before the loop, it gets cost
      `cost + 1`, parent `current` and a pushed entry; otherwise nothing
      changes. */
  method RelaxDirection(maze: seq<seq<char>>, start: Coord, h: Coord -> nat, current: Coord, cost: int,
                        cameFrom: map<Coord, Option<Coord>>, costSoFar: map<Coord, nat>,
                        cf: map<Coord, Option<Coord>>, csf: map<Coord, nat>, before: seq<Entry>, k: int)
    returns (cameFrom': map<Coord, Option<Coord>>, costSoFar': map<Coord, nat>, pushed: seq<Entry>)
    requires 0 <= k < 4 && Surrounded(maze, current)
    requires current in costSoFar && costSoFar[current] <= cost < |costSoFar.Keys|
    requires Relaxing(maze, start, h, current, cost, cameFrom, costSoFar, cf, csf, before, k)
    requires Reopening(maze, h, current, cost, cameFrom, costSoFar, cf, csf, before, k)
    ensures Improves(maze, cost, costSoFar, Neighbour(current, k)) ==>
      && cameFrom' == cf[Neighbour(current, k) := Some(current)]
      && costSoFar' == csf[Neighbour(current, k) := cost + 1]
      && pushed == before + [Entry(cost + 1 + h(Neighbour(current, k)), cost + 1, Neighbour(current, k))]
    ensures !Improves(maze, cost, costSoFar, Neighbour(current, k)) ==> cameFrom' == cf && costSoFar' == csf && pushed == before
    ensures Relaxing(maze, start, h, current, cost, cameFrom, costSoFar, cameFrom', costSoFar', pushed, k + 1)
    ensures Reopening(maze, h, current, cost, cameFrom, costSoFar, cameFrom', costSoFar', pushed, k + 1)
  {
    var neighbour := Neighbour(current, k);
    assert InBounds(maze, neighbour);
    ReopenGuard(maze, h, current, cost, cameFrom, costSoFar, cf, csf, before, k);
    if (maze[neighbour.i][neighbour.j] == ' ' || maze[neighbour.i][neighbour.j] == '.')
       && (neighbour !in csf || cost + 1 < csf[neighbour])
    {
      costSoFar' := csf[neighbour := cost + 1];
      pushed := before + [Entry(cost + 1 + h(neighbour), cost + 1, neighbour)];
      cameFrom' := cf[neighbour := Some(current)];
      assert Improves(maze, cost, costSoFar, neighbour);
      RelaxAdd(maze, start, h, current, cost, cameFrom, costSoFar, cf, csf, before, k, neighbour, cameFrom', costSoFar', pushed);
      ReopenAdd(maze, h, current, cost, cameFrom, costSoFar, cf, csf, before, k, neighbour, cameFrom', costSoFar', pushed);
    } else {
      cameFrom', costSoFar', pushed := cf, csf, before;
      assert !Improves(maze, cost, costSoFar, neighbour);
      RelaxSkip(maze, start, h, current, cost, cameFrom, costSoFar, cf, csf, before, k);
      ReopenSkip(maze, h, current, cost, cameFrom, costSoFar, cf, csf, before, k);
    }
  }

  // ---------------------------------------------------------------------
  // Termination: every push lowers a cost
  // ---------------------------------------------------------------------

  /** A cell's weight: its cost, or `bound` while it has none. */
  function Weight(c: Coord, costSoFar: map<Coord, nat>, bound: nat): nat
  {
    if c in costSoFar then costSoFar[c] else bound
  }

  /** Some member of a nonempty set, the same one each time. */
  ghost function Pick(cells: set<Coord>): (c: Coord)
    requires cells != {}
    ensures c in cells
  {
    var c :| c in cells; c
  }

  /** The sum of the weights of a set of cells. */
  ghost function Potential(cells: set<Coord>, costSoFar: map<Coord, nat>, bound: nat): nat
    decreases cells
  {
    if cells == {} then 0
    else
      var c := Pick(cells);
      Weight(c, costSoFar, bound) + Potential(cells - {c}, costSoFar, bound)
  }

  /** Lowering weights lowers the sum, strictly when one weight drops. */
  lemma {:induction false} PotentialDrops(cells: set<Coord>, costSoFar: map<Coord, nat>, costSoFar': map<Coord, nat>, bound: nat)
    requires forall c | c in cells :: Weight(c, costSoFar', bound) <= Weight(c, costSoFar, bound)
    ensures Potential(cells, costSoFar', bound) <= Potential(cells, costSoFar, bound)
    ensures (exists c | c in cells :: Weight(c, costSoFar', bound) < Weight(c, costSoFar, bound))
            ==> Potential(cells, costSoFar', bound) < Potential(cells, costSoFar, bound)
    decreases cells
  {
    if cells != {} {
      var c := Pick(cells);
      PotentialDrops(cells - {c}, costSoFar, costSoFar', bound);
    }
  }

  // ---------------------------------------------------------------------
  // The search
  // ---------------------------------------------------------------------

  /** Every entry on the heap is for a cell with a cost, which is at most
      the entry's cost; entry costs stay below the number of entries. */
  ghost predicate Backed(queue: seq<Entry>, costSoFar: map<Coord, nat>)
  {
    forall e | e in queue :: e.cell in costSoFar && costSoFar[e.cell] <= e.cost < |costSoFar.Keys|
  }

  /** The state of the A* loop between two pops: the maps are costed, the
      heap is backed, every cell with a cost was expanded or has an entry
      on the heap, the goal was not expanded, and every passable neighbour
      of an expanded cell has a cost. */
  ghost predicate Exploring(maze: seq<seq<char>>, start: Coord, goal: Coord, cameFrom: map<Coord, Option<Coord>>,
                            costSoFar: map<Coord, nat>, expanded: set<Coord>, queue: seq<Entry>)
  {
    && Costed(maze, start, cameFrom, costSoFar)
    && Backed(queue, costSoFar)
    && cameFrom.Keys <= expanded + QueueCells(queue) && expanded <= cameFrom.Keys
    && goal !in expanded
    && Closed(maze, expanded, cameFrom.Keys)
  }

  /** The measure of the A* loop: the potential of the cells the search may
      hold, a cell without a cost weighing as many as there are such cells. */
  ghost function Unsettled(maze: seq<seq<char>>, start: Coord, costSoFar: map<Coord, nat>): nat
  {
    Potential(Universe(maze, start), costSoFar, |Universe(maze, start)|)
  }

  /** Before the first pop only the start has a cost, 0, and one entry. */
  lemma AstarStarts(maze: seq<seq<char>>, start: Coord, goal: Coord, p0: int)
    ensures Exploring(maze, start, goal, map[start := None], map[start := 0], {}, [Entry(p0, 0, start)])
  {
    var cameFrom: map<Coord, Option<Coord>> := map[start := None];
    var costSoFar: map<Coord, nat> := map[start := 0];
    assert cameFrom.Keys == costSoFar.Keys == {start};
    assert QueueCells([Entry(p0, 0, start)]) == {start};
  }

  /** An expansion never raises the measure, and lowers it when it pushes. */
  lemma UnsettledDrops(maze: seq<seq<char>>, start: Coord, h: Coord -> nat, cost: int,
                       costSoFar: map<Coord, nat>, costSoFar': map<Coord, nat>, pushed: seq<Entry>)
    requires Lowered(costSoFar, costSoFar') && Carried(h, cost, costSoFar, costSoFar', pushed)
    requires costSoFar'.Keys <= Universe(maze, start) && forall c | c in costSoFar' :: costSoFar'[c] < |costSoFar'.Keys|
    ensures Unsettled(maze, start, costSoFar') <= Unsettled(maze, start, costSoFar)
    ensures pushed != [] ==> Unsettled(maze, start, costSoFar') < Unsettled(maze, start, costSoFar)
  {
    var universe := Universe(maze, start);
    var bound := |universe|;
    SubsetNoLarger(costSoFar'.Keys, universe);
    forall c | c in universe ensures Weight(c, costSoFar', bound) <= Weight(c, costSoFar, bound) {
      if c !in costSoFar && c in costSoFar' {
        assert costSoFar'[c] < |costSoFar'.Keys|;
      }
    }
    if pushed != [] {
      var e := pushed[0];
      assert e in pushed;
      assert Weight(e.cell, costSoFar', bound) < Weight(e.cell, costSoFar, bound);
    }
    PotentialDrops(universe, costSoFar, costSoFar', bound);
  }

  /** Entries left on the heap stay backed when costs go down, and so do
      the carried entries pushed. */
  lemma BackedKeeps(h: Coord -> nat, cost: int, costSoFar: map<Coord, nat>, costSoFar': map<Coord, nat>,
                    queue: seq<Entry>, rest: seq<Entry>, pushed: seq<Entry>)
    requires Backed(queue, costSoFar) && forall x | x in rest :: x in queue
    requires Lowered(costSoFar, costSoFar') && Carried(h, cost, costSoFar, costSoFar', pushed)
    requires |costSoFar.Keys| <= |costSoFar'.Keys|
    ensures Backed(rest + pushed, costSoFar')
  {
    forall x | x in rest + pushed ensures x.cell in costSoFar' && costSoFar'[x.cell] <= x.cost < |costSoFar'.Keys| {
      if x in rest {
        assert x in queue;
      }
    }
  }

  /** Expanding `current`, which waited on the heap, keeps every key
      expanded or waiting and every passable neighbour of an expanded cell
      a key. */
  lemma SettledKeeps(maze: seq<seq<char>>, current: Coord, keys: set<Coord>, keys': set<Coord>, expanded: set<Coord>,
                     restCells: set<Coord>, pushedCells: set<Coord>)
    requires keys <= expanded + restCells + {current} && expanded <= keys && current in keys && Closed(maze, expanded, keys)
    requires keys <= keys' && forall c | c in keys' :: c in keys || c in pushedCells
    requires forall t | 0 <= t < 4 && Passable(maze, Neighbour(current, t)) :: Neighbour(current, t) in keys'
    ensures keys' <= (expanded + {current}) + (restCells + pushedCells) && expanded + {current} <= keys'
    ensures Closed(maze, expanded + {current}, keys')
  {
  }

  /** Popping `e` (not for the goal), relaxing its neighbours and pushing
      their entries keeps the search state. */
  lemma ExploreKeeps(maze: seq<seq<char>>, start: Coord, goal: Coord, h: Coord -> nat,
                     cameFrom: map<Coord, Option<Coord>>, costSoFar: map<Coord, nat>, expanded: set<Coord>,
                     queue: seq<Entry>, e: Entry, rest: seq<Entry>,
                     cameFrom': map<Coord, Option<Coord>>, costSoFar': map<Coord, nat>, pushed: seq<Entry>)
    requires Exploring(maze, start, goal, cameFrom, costSoFar, expanded, queue)
    requires multiset(queue) == multiset(rest) + multiset{e} && e in queue && (forall x | x in rest :: x in queue)
    requires e.cell != goal
    requires Relaxing(maze, start, h, e.cell, e.cost, cameFrom, costSoFar, cameFrom', costSoFar', pushed, 4)
    ensures Exploring(maze, start, goal, cameFrom', costSoFar', expanded + {e.cell}, rest + pushed)
  {
    QueueCellsPop(queue, e, rest);
    QueueCellsAppend(rest, pushed);
    BackedKeeps(h, e.cost, costSoFar, costSoFar', queue, rest, pushed);
    SettledKeeps(maze, e.cell, cameFrom.Keys, cameFrom'.Keys, expanded, QueueCells(rest), QueueCells(pushed));
  }

  /** One round of the A* loop: pop a least entry; if its cell is the
      goal, report it and leave the state as it was before the pop,
      otherwise relax its neighbours and push their entries. */
  method AstarStep(maze: seq<seq<char>>, start: Coord, goal: Coord, h: Coord -> nat, queue: seq<Entry>,
                   cameFrom: map<Coord, Option<Coord>>, costSoFar: map<Coord, nat>, ghost expanded: set<Coord>)
    returns (done: bool, queue': seq<Entry>, cameFrom': map<Coord, Option<Coord>>, costSoFar': map<Coord, nat>,
             ghost expanded': set<Coord>)
    requires Enclosed(maze, start) && queue != []
    requires Exploring(maze, start, goal, cameFrom, costSoFar, expanded, queue)
    ensures done ==> goal in QueueCells(queue)
    ensures done ==> queue' == queue && cameFrom' == cameFrom && costSoFar' == costSoFar && expanded' == expanded
    ensures !done ==> Exploring(maze, start, goal, cameFrom', costSoFar', expanded', queue')
    ensures || done
            || Unsettled(maze, start, costSoFar') < Unsettled(maze, start, costSoFar)
            || (Unsettled(maze, start, costSoFar') == Unsettled(maze, start, costSoFar) && |queue'| < |queue|)
  {
    var e, rest := PopMin(queue);
    if e.cell == goal {
      return true, queue, cameFrom, costSoFar, expanded;
    }
    done := false;
    if e.cell != start {
      assert Passable(maze, e.cell);
    }
    var pushed;
    cameFrom', costSoFar', pushed := Relax(maze, start, h, e.cell, e.cost, cameFrom, costSoFar);
    ExploreKeeps(maze, start, goal, h, cameFrom, costSoFar, expanded, queue, e, rest, cameFrom', costSoFar', pushed);
    UnsettledDrops(maze, start, h, e.cost, costSoFar, costSoFar', pushed);
    queue' := rest + pushed;
    expanded' := expanded + {e.cell};
  }

  /** The A* loop: the first entry is `(p0, 0, start)`; pops a least entry
      until the heap is empty or the popped cell is the goal, in which case
      the state is the one before that pop. `nodes` counts the pops before
      that one, stale entries included. */
  method AstarSearch(maze: seq<seq<char>>, start: Coord, goal: Coord, h: Coord -> nat, p0: int)
    returns (found: bool, queue: seq<Entry>, cameFrom: map<Coord, Option<Coord>>, costSoFar: map<Coord, nat>,
             ghost expanded: set<Coord>, nodes: nat)
    requires Enclosed(maze, start)
    ensures Exploring(maze, start, goal, cameFrom, costSoFar, expanded, queue)
    ensures found ==> goal in QueueCells(queue)
    ensures !found ==> queue == []
  {
    queue := [Entry(p0, 0, start)];
    cameFrom := map[start := None];
    costSoFar := map[start := 0];
    expanded := {};
    nodes := 0;
    found := false;
    AstarStarts(maze, start, goal, p0);
    while queue != [] && !found
      invariant Exploring(maze, start, goal, cameFrom, costSoFar, expanded, queue)
      invariant found ==> goal in QueueCells(queue)
      decreases Unsettled(maze, start, costSoFar), |queue|, if found then 0 else 1
    {
      found, queue, cameFrom, costSoFar, expanded := AstarStep(maze, start, goal, h, queue, cameFrom, costSoFar, expanded);
      if !found {
        nodes := nodes + 1;
      }
    }
  }

  /** `single_astar` after `read_maze`: the heuristic is the distance to the
      goal and the first entry is `(0 + distance, 0, start)`. The goal must
      exist. A solution reports a walk from the start to the goal; `None`
      means no walk reaches it. */
  method SingleAstar(maze: seq<seq<char>>, start: Coord, goal: Coord)
    returns (r: Option<Solution>, ghost path: seq<Coord>)
    requires Enclosed(maze, start)
    ensures r.Some? ==> Reports(maze, start, goal, path, r.value) && r.value.nodesExpanded >= 1
    ensures r.None? ==> Unreachable(maze, start, goal)
  {
    var h := (c: Coord) => Manhattan(c, goal);
    var found, queue, cameFrom, costSoFar, expanded, nodes := AstarSearch(maze, start, goal, h, 0 + Manhattan(start, goal));
    if found {
      var solution, walk := Finish(maze, cameFrom, start, goal, nodes + 1, costSoFar);
      return Some(solution), walk;
    }
    assert cameFrom.Keys == expanded;
    ExhaustedMeansUnreachable(maze, start, goal, expanded);
    return None, [];
  }
}
