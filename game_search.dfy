/** Depth-limited minimax and the root move choice of the Part 2-B engine,
    `Labs/PartB/Part2/Part2-B/breakthrough_ai2.py`, stated over the rules of
    the game as parameters: the positions `S`, the moves `A`, the move list
    of a side, the position after a move and the terminal test. The
    Breakthrough rules are plugged in by `BreakthroughAi2Search`. */
module GameSearch {
  import opened Options
  import opened Grid
  import opened Scores

  /** What the search asks of a game: the moves of a side in a position, in
      the generator's order; the position after a move; whether the game is
      over. */
  datatype Rules<!S, !A> = Rules(moves: (Player, S) -> seq<A>, next: (S, A) -> S, over: S -> bool)

  /** A heuristic as the search calls it: `heuristic(state, player)`. */
  type Heuristic<!S> = (S, Player) -> real

  /** `minimax(state, depth, is_maximizing, player, heuristic)`: the heuristic
      of `player` at depth 0 or on a finished game; otherwise the running
      `max` over the player's moves starting from -inf, or the running `min`
      over the opponent's moves starting from +inf, one ply deeper. */
  function Minimax<S, A>(g: Rules<S, A>, s: S, depth: nat, isMax: bool, player: Player, h: Heuristic<S>): ExtReal
    decreases depth, 0
  {
    if g.over(s) || depth == 0 then Fin(h(s, player))
    else if isMax then FirstMax(Values(g, s, g.moves(player, s), depth - 1, false, player, h)).best
    else FirstMin(Values(g, s, g.moves(Opponent(player), s), depth - 1, true, player, h)).best
  }

  /** The values of the positions the moves `ms` lead to, in move order. */
  function Values<S, A>(g: Rules<S, A>, s: S, ms: seq<A>, depth: nat, isMax: bool, player: Player, h: Heuristic<S>)
    : (vals: seq<ExtReal>)
    ensures |vals| == |ms|
    decreases depth, 1
  {
    seq(|ms|, i requires 0 <= i < |ms| => Minimax(g, g.next(s, ms[i]), depth, isMax, player, h))
  }

  /** The value the loop of `minimax` computes over any list of moves is
      -inf (maximizer) or +inf (minimizer) when there is no move; otherwise
      it is reached by one of the moves and bounds all of them: from above
      for the maximizer, from below for the minimizer. */
  lemma ChildrenMeaning<S, A>(g: Rules<S, A>, s: S, ms: seq<A>, depth: nat, isMax: bool, player: Player, h: Heuristic<S>)
    ensures var vals := Values(g, s, ms, depth, !isMax, player, h);
      var v := if isMax then FirstMax(vals).best else FirstMin(vals).best;
      && (ms == [] ==> v == if isMax then NegInf else PosInf)
      && (forall a | a in ms ::
            var w := Minimax(g, g.next(s, a), depth, !isMax, player, h);
            if isMax then !Below(v, w) else !Below(w, v))
      && (ms != [] ==> exists a | a in ms :: v == Minimax(g, g.next(s, a), depth, !isMax, player, h))
  {
    var vals := Values(g, s, ms, depth, !isMax, player, h);
    if isMax { FirstMaxSpec(vals); } else { FirstMinSpec(vals); }
    var v := if isMax then FirstMax(vals).best else FirstMin(vals).best;
    forall a | a in ms
      ensures var w := Minimax(g, g.next(s, a), depth, !isMax, player, h);
        if isMax then !Below(v, w) else !Below(w, v)
    {
      var i :| 0 <= i < |ms| && ms[i] == a;
      assert vals[i] == Minimax(g, g.next(s, a), depth, !isMax, player, h);
    }
    if ms != [] {
      var c := if isMax then FirstMax(vals) else FirstMin(vals);
      var k := if c.index.Some? then c.index.value else 0;
      assert v == vals[k];
      assert ms[k] in ms;
    }
  }

  /** The value of a leaf is the heuristic; an inner node's value is the
      loop's value over the moves of the side to move (ChildrenMeaning). */
  lemma MinimaxMeaning<S, A>(g: Rules<S, A>, s: S, depth: nat, isMax: bool, player: Player, h: Heuristic<S>)
    ensures g.over(s) || depth == 0 ==> Minimax(g, s, depth, isMax, player, h) == Fin(h(s, player))
    ensures !g.over(s) && depth > 0 ==>
      var mover := if isMax then player else Opponent(player);
      var ms := g.moves(mover, s);
      var v := Minimax(g, s, depth, isMax, player, h);
      && (ms == [] ==> v == if isMax then NegInf else PosInf)
      && (forall a | a in ms ::
            var w := Minimax(g, g.next(s, a), depth - 1, !isMax, player, h);
            if isMax then !Below(v, w) else !Below(w, v))
      && (ms != [] ==> exists a | a in ms :: v == Minimax(g, g.next(s, a), depth - 1, !isMax, player, h))
  {
    if !g.over(s) && depth > 0 {
      var mover := if isMax then player else Opponent(player);
      var vals := Values(g, s, g.moves(mover, s), depth - 1, !isMax, player, h);
      assert Minimax(g, s, depth, isMax, player, h) == if isMax then FirstMax(vals).best else FirstMin(vals).best;
      ChildrenMeaning(g, s, g.moves(mover, s), depth - 1, isMax, player, h);
    }
  }

  /** The recursive search `minimax`: a leaf returns the heuristic, an inner
      node generates the moves of the side to move and runs its loop. */
  method MinimaxSearch<S, A>(g: Rules<S, A>, s: S, depth: nat, isMax: bool, player: Player, h: Heuristic<S>)
    returns (value: ExtReal)
    ensures value == Minimax(g, s, depth, isMax, player, h)
    decreases depth, 0
  {
    if g.over(s) || depth == 0 {
      return Fin(h(s, player));
    }
    if isMax {
      var moves := g.moves(player, s);
      value := MaxOfChildren(g, s, moves, depth - 1, player, h);
    } else {
      var moves := g.moves(Opponent(player), s);
      value := MinOfChildren(g, s, moves, depth - 1, player, h);
    }
  }

  /** The maximizing loop of `minimax`: `max_eval` starts at -inf and becomes
      `max(max_eval, eval)` for each child, searched as a minimizing node. */
  method MaxOfChildren<S, A>(g: Rules<S, A>, s: S, moves: seq<A>, depth: nat, player: Player, h: Heuristic<S>)
    returns (value: ExtReal)
    ensures value == FirstMax(Values(g, s, moves, depth, false, player, h)).best
    decreases depth, 1
  {
    ghost var vals := Values(g, s, moves, depth, false, player, h);
    value := NegInf;
    var i := 0;
    while i < |moves|
      invariant i <= |moves|
      invariant value == FirstMax(vals[..i]).best
    {
      var eval := MinimaxSearch(g, g.next(s, moves[i]), depth, false, player, h);
      FirstMaxStep(vals, i);
      value := Max(value, eval);
      i := i + 1;
    }
    assert vals[..i] == vals;
  }

  /** The minimizing loop of `minimax`: `min_eval` starts at +inf and becomes
      `min(min_eval, eval)` for each child, searched as a maximizing node. */
  method MinOfChildren<S, A>(g: Rules<S, A>, s: S, moves: seq<A>, depth: nat, player: Player, h: Heuristic<S>)
    returns (value: ExtReal)
    ensures value == FirstMin(Values(g, s, moves, depth, true, player, h)).best
    decreases depth, 1
  {
    ghost var vals := Values(g, s, moves, depth, true, player, h);
    value := PosInf;
    var i := 0;
    while i < |moves|
      invariant i <= |moves|
      invariant value == FirstMin(vals[..i]).best
    {
      var eval := MinimaxSearch(g, g.next(s, moves[i]), depth, true, player, h);
      FirstMinStep(vals, i);
      value := Min(value, eval);
      i := i + 1;
    }
    assert vals[..i] == vals;
  }

  // ---------------------------------------------------------------------
  // best_move
  // ---------------------------------------------------------------------

  /** The value of each root move: the minimizing search one ply deeper. */
  function RootValues<S, A>(g: Rules<S, A>, s: S, player: Player, depth: nat, h: Heuristic<S>): (vals: seq<ExtReal>)
    requires depth >= 1
    ensures |vals| == |g.moves(player, s)|
  {
    Values(g, s, g.moves(player, s), depth - 1, false, player, h)
  }

  /** What `best_move` returns: the move at the first index whose value
      strictly beats every earlier one and -inf. */
  function BestAction<S, A>(g: Rules<S, A>, s: S, player: Player, depth: nat, h: Heuristic<S>): Option<A>
    requires depth >= 1
  {
    ItemAt(g.moves(player, s), FirstMax(RootValues(g, s, player, depth, h)).index)
  }

  /** `best_move` returns no move exactly when every root value is -inf (in
      particular when the player has no move); otherwise the generated move
      at an index k whose value is not -inf, at least every other root value
      and strictly above the values of all earlier moves. */
  lemma BestActionMeaning<S, A>(g: Rules<S, A>, s: S, player: Player, depth: nat, h: Heuristic<S>)
    requires depth >= 1
    ensures var vals := RootValues(g, s, player, depth, h);
      var best := BestAction(g, s, player, depth, h);
      && (best.None? <==> forall i | 0 <= i < |vals| :: vals[i] == NegInf)
      && (g.moves(player, s) == [] ==> best.None?)
      && (best.Some? ==>
            exists k | 0 <= k < |vals| ::
              && best.value == g.moves(player, s)[k]
              && vals[k] != NegInf
              && (forall i | 0 <= i < |vals| :: !Below(vals[k], vals[i]))
              && (forall i | 0 <= i < k :: Below(vals[i], vals[k])))
  {
    var vals := RootValues(g, s, player, depth, h);
    FirstMaxSpec(vals);
  }

  /** A chosen move is worth exactly the value minimax gives the position. */
  lemma BestActionAttainsMinimax<S, A>(g: Rules<S, A>, s: S, player: Player, depth: nat, h: Heuristic<S>)
    requires depth >= 1 && !g.over(s)
    requires BestAction(g, s, player, depth, h).Some?
    ensures var a := BestAction(g, s, player, depth, h).value;
      a in g.moves(player, s)
      && Minimax(g, g.next(s, a), depth - 1, false, player, h) == Minimax(g, s, depth, true, player, h)
  {
    var vals := RootValues(g, s, player, depth, h);
    FirstMaxSpec(vals);
    var k := FirstMax(vals).index.value;
    assert Minimax(g, s, depth, true, player, h) == FirstMax(vals).best == vals[k];
  }

  /** `best_move(state, player, depth, heuristic)`: scan the moves in order
      and keep the first one whose value is strictly greater than the best
      so far, starting from -inf and no move. */
  method BestMove<S, A>(g: Rules<S, A>, s: S, player: Player, depth: nat, h: Heuristic<S>) returns (best: Option<A>)
    requires depth >= 1
    ensures best == BestAction(g, s, player, depth, h)
  {
    var moves := g.moves(player, s);
    ghost var vals := RootValues(g, s, player, depth, h);
    var bestVal := NegInf;
    ghost var index: Option<nat> := None;
    best := None;
    var i := 0;
    while i < |moves|
      invariant i <= |moves|
      invariant FirstMax(vals[..i]) == Choice(bestVal, index)
      invariant index.Some? ==> index.value < i
      invariant best == ItemAt(moves, index)
    {
      var value := MinimaxSearch(g, g.next(s, moves[i]), depth - 1, false, player, h);
      FirstMaxStep(vals, i);
      if Below(bestVal, value) {
        bestVal := value;
        best := Some(moves[i]);
        index := Some(i);
      }
      i := i + 1;
    }
    assert vals[..i] == vals;
  }
}
