/** The depth-limited minimax of the Part 2-A engine,
    `Labs/PartB/Part2/Part2-A/breakthrough_ai.py`, which returns the value of
    a position together with the move that reaches it. It is stated over the
    rules of the game as parameters (positions `S`, moves `M`); the
    Breakthrough rules are plugged in by `BreakthroughAi`. */
module MoveSearch {
  import opened Options
  import opened Grid
  import opened Scores

  /** What this search asks of a game: the moves of a side in a position, in
      the generator's order; the position after a side plays a move; and the
      winner, once the game is over. */
  datatype Game<!S, !M> = Game(moves: (S, Player) -> seq<M>, apply: (S, M, Player) -> S, winner: S -> Option<Player>)

  /** A heuristic as the search calls it: `heuristic(state, maximizing_player)`. */
  type Heuristic<!S> = (S, Player) -> real

  /** The score of a won game; a lost game scores its negation. */
  const WinScore: real := 10000.0

  /** The pair `(value, move)`; the move is None at a leaf. */
  datatype Scored<M> = Scored(value: ExtReal, move: Option<M>)

  /** `minimax(state, depth, current_player, maximizing_player, heuristic)`:
      a finished game scores +-10000 for `maximizing_player`; depth 0 gives
      the heuristic; a side without a move loses; otherwise the first move
      with the strictly best child value, the maximum on the turns of
      `maximizing_player` and the minimum on the others. */
  function Minimax<S, M>(g: Game<S, M>, s: S, depth: nat, current: Player, maxPlayer: Player, h: Heuristic<S>)
    : Scored<M>
    decreases depth, 0
  {
    match g.winner(s)
    case Some(w) => Scored(Fin(if w == maxPlayer then WinScore else -WinScore), None)
    case None =>
      if depth == 0 then Scored(Fin(h(s, maxPlayer)), None)
      else
        var ms := g.moves(s, current);
        if ms == [] then Scored(Fin(if current == maxPlayer then -WinScore else WinScore), None)
        else
          var vals := Values(g, s, ms, depth - 1, current, maxPlayer, h);
          var c := if current == maxPlayer then FirstMax(vals) else FirstMin(vals);
          Scored(c.best, ItemAt(ms, c.index))
  }

  /** The values of the positions after `current` plays each of `ms`, each
      searched with the opponent to move. */
  function Values<S, M>(g: Game<S, M>, s: S, ms: seq<M>, depth: nat, current: Player, maxPlayer: Player, h: Heuristic<S>)
    : (vals: seq<ExtReal>)
    ensures |vals| == |ms|
    decreases depth, 1
  {
    seq(|ms|, i requires 0 <= i < |ms| => Minimax(g, g.apply(s, ms[i], current), depth, Opponent(current), maxPlayer, h).value)
  }

  /** Every value the search returns is finite: +-10000, a heuristic value,
      or a child's value. */
  lemma {:induction false} MinimaxFinite<S, M>(g: Game<S, M>, s: S, depth: nat, current: Player, maxPlayer: Player, h: Heuristic<S>)
    ensures Minimax(g, s, depth, current, maxPlayer, h).value.Fin?
    decreases depth
  {
    if g.winner(s).None? && depth > 0 && g.moves(s, current) != [] {
      var ms := g.moves(s, current);
      var vals := Values(g, s, ms, depth - 1, current, maxPlayer, h);
      forall i | 0 <= i < |ms| ensures vals[i].Fin? {
        MinimaxFinite(g, g.apply(s, ms[i], current), depth - 1, Opponent(current), maxPlayer, h);
      }
      if current == maxPlayer {
        FirstMaxSpec(vals);
        assert vals[0] != NegInf;
      } else {
        FirstMinSpec(vals);
        assert vals[0] != PosInf;
      }
    }
  }

  /** An inner node with at least one move returns a move: the first one
      whose child value is the best (greatest for `maximizing_player`, least
      for the other side), and that value is the node's value. */
  lemma MinimaxChoice<S, M>(g: Game<S, M>, s: S, depth: nat, current: Player, maxPlayer: Player, h: Heuristic<S>)
    requires g.winner(s).None? && depth > 0 && g.moves(s, current) != []
    ensures var ms := g.moves(s, current);
      var r := Minimax(g, s, depth, current, maxPlayer, h);
      var vals := Values(g, s, ms, depth - 1, current, maxPlayer, h);
      && r.move.Some?
      && exists k | 0 <= k < |ms| ::
           && r.move.value == ms[k]
           && r.value == vals[k]
           && (current == maxPlayer ==>
                 (forall i | 0 <= i < |ms| :: !Below(vals[k], vals[i]))
                 && (forall i | 0 <= i < k :: Below(vals[i], vals[k])))
           && (current != maxPlayer ==>
                 (forall i | 0 <= i < |ms| :: !Below(vals[i], vals[k]))
                 && (forall i | 0 <= i < k :: Below(vals[k], vals[i])))
  {
    var ms := g.moves(s, current);
    var vals := Values(g, s, ms, depth - 1, current, maxPlayer, h);
    forall i | 0 <= i < |ms| ensures vals[i].Fin? {
      MinimaxFinite(g, g.apply(s, ms[i], current), depth - 1, Opponent(current), maxPlayer, h);
    }
    if current == maxPlayer {
      FirstMaxSpec(vals);
      assert vals[0] != NegInf;
    } else {
      FirstMinSpec(vals);
      assert vals[0] != PosInf;
    }
  }

  /** The recursive search `minimax` with the loops of the source. */
  method MinimaxSearch<S, M>(g: Game<S, M>, s: S, depth: nat, current: Player, maxPlayer: Player, h: Heuristic<S>)
    returns (value: ExtReal, move: Option<M>)
    ensures Scored(value, move) == Minimax(g, s, depth, current, maxPlayer, h)
    decreases depth, 0
  {
    var winner := g.winner(s);
    if depth == 0 || winner.Some? {
      if winner.Some? {
        if winner.value == maxPlayer {
          return Fin(WinScore), None;
        }
        return Fin(-WinScore), None;
      }
      return Fin(h(s, maxPlayer)), None;
    }
    var moves := g.moves(s, current);
    if moves == [] {
      if current == maxPlayer {
        return Fin(-WinScore), None;
      }
      return Fin(WinScore), None;
    }
    if current == maxPlayer {
      value, move := MaxLoop(g, s, moves, depth - 1, current, maxPlayer, h);
    } else {
      value, move := MinLoop(g, s, moves, depth - 1, current, maxPlayer, h);
    }
  }

  /** The maximizing loop: `best_value` starts at -inf and `best_move` at
      None; a strictly greater child value replaces both. */
  method MaxLoop<S, M>(g: Game<S, M>, s: S, moves: seq<M>, depth: nat, current: Player, maxPlayer: Player, h: Heuristic<S>)
    returns (bestValue: ExtReal, bestMove: Option<M>)
    ensures var c := FirstMax(Values(g, s, moves, depth, current, maxPlayer, h));
      bestValue == c.best && bestMove == ItemAt(moves, c.index)
    decreases depth, 1
  {
    ghost var vals := Values(g, s, moves, depth, current, maxPlayer, h);
    bestValue, bestMove := NegInf, None;
    ghost var index: Option<nat> := None;
    var i := 0;
    while i < |moves|
      invariant i <= |moves|
      invariant FirstMax(vals[..i]) == Choice(bestValue, index)
      invariant index.Some? ==> index.value < i
      invariant bestMove == ItemAt(moves, index)
    {
      var next := g.apply(s, moves[i], current);
      var value, _ := MinimaxSearch(g, next, depth, Opponent(current), maxPlayer, h);
      FirstMaxStep(vals, i);
      if Below(bestValue, value) {
        bestValue, bestMove := value, Some(moves[i]);
        index := Some(i);
      }
      i := i + 1;
    }
    assert vals[..i] == vals;
  }

  /** The minimizing loop: `best_value` starts at +inf and `best_move` at
      None; a strictly smaller child value replaces both. */
  method MinLoop<S, M>(g: Game<S, M>, s: S, moves: seq<M>, depth: nat, current: Player, maxPlayer: Player, h: Heuristic<S>)
    returns (bestValue: ExtReal, bestMove: Option<M>)
    ensures var c := FirstMin(Values(g, s, moves, depth, current, maxPlayer, h));
      bestValue == c.best && bestMove == ItemAt(moves, c.index)
    decreases depth, 1
  {
    ghost var vals := Values(g, s, moves, depth, current, maxPlayer, h);
    bestValue, bestMove := PosInf, None;
    ghost var index: Option<nat> := None;
    var i := 0;
    while i < |moves|
      invariant i <= |moves|
      invariant FirstMin(vals[..i]) == Choice(bestValue, index)
      invariant index.Some? ==> index.value < i
      invariant bestMove == ItemAt(moves, index)
    {
      var next := g.apply(s, moves[i], current);
      var value, _ := MinimaxSearch(g, next, depth, Opponent(current), maxPlayer, h);
      FirstMinStep(vals, i);
      if Below(value, bestValue) {
        bestValue, bestMove := value, Some(moves[i]);
        index := Some(i);
      }
      i := i + 1;
    }
    assert vals[..i] == vals;
  }
}
