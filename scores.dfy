/** Search scores: Python floats extended with `math.inf` / `float('inf')`,
    the strict comparison the source uses, and the running-best loops of the
    engines (`if value > best_value: ...`) as folds over the child values. */
module Scores {
  import opened Options

  /** A heuristic's tie-break draw: `random.random()` lies in [0, 1). */
  type Unit = t: real | 0.0 <= t < 1.0

  /** A score: a finite real or one of the two infinities. */
  datatype ExtReal = NegInf | Fin(v: real) | PosInf

  /** Python's `a < b` on floats that may be infinite. */
  predicate Below(a: ExtReal, b: ExtReal)
  {
    (a.NegInf? && !b.NegInf?) || (a.Fin? && (b.PosInf? || (b.Fin? && a.v < b.v)))
  }

  lemma BelowIsStrictTotal(a: ExtReal, b: ExtReal, c: ExtReal)
    ensures !Below(a, a)
    ensures Below(a, b) ==> !Below(b, a)
    ensures Below(a, b) && Below(b, c) ==> Below(a, c)
    ensures a == b || Below(a, b) || Below(b, a)
  {
  }

  /** Python's `max(a, b)`: the first argument unless the second is larger. */
  function Max(a: ExtReal, b: ExtReal): (r: ExtReal)
    ensures (r == a || r == b) && !Below(r, a) && !Below(r, b)
  {
    if Below(a, b) then b else a
  }

  /** Python's `min(a, b)`: the first argument unless the second is smaller. */
  function Min(a: ExtReal, b: ExtReal): (r: ExtReal)
    ensures (r == a || r == b) && !Below(a, r) && !Below(b, r)
  {
    if Below(b, a) then b else a
  }

  /** The best value seen so far and the index where it was first reached. */
  datatype Choice = Choice(best: ExtReal, index: Option<nat>)

  /** The entry at an optional index, if there is one: the move a running-best
      loop keeps beside its value. */
  function ItemAt<T>(xs: seq<T>, k: Option<nat>): Option<T>
  {
    if k.Some? && k.value < |xs| then Some(xs[k.value]) else None
  }

  /** The maximizing loop: start from -inf, and replace the best value (and
      remember the index) only when a value is strictly greater. */
  function FirstMax(vals: seq<ExtReal>): Choice
  {
    if vals == [] then Choice(NegInf, None)
    else
      var c := FirstMax(vals[..|vals| - 1]);
      if Below(c.best, vals[|vals| - 1]) then Choice(vals[|vals| - 1], Some(|vals| - 1)) else c
  }

  /** The minimizing loop: start from +inf, replace only on strictly smaller. */
  function FirstMin(vals: seq<ExtReal>): Choice
  {
    if vals == [] then Choice(PosInf, None)
    else
      var c := FirstMin(vals[..|vals| - 1]);
      if Below(vals[|vals| - 1], c.best) then Choice(vals[|vals| - 1], Some(|vals| - 1)) else c
  }

  /** One more step of the maximizing loop over a prefix: the best value is
      the running `max`, and the index moves only on a strictly greater value. */
  lemma FirstMaxStep(vals: seq<ExtReal>, i: nat)
    requires i < |vals|
    ensures var c := FirstMax(vals[..i]);
      FirstMax(vals[..i + 1]) == if Below(c.best, vals[i]) then Choice(vals[i], Some(i)) else c
    ensures FirstMax(vals[..i + 1]).best == Max(FirstMax(vals[..i]).best, vals[i])
  {
    assert vals[..i + 1][..i] == vals[..i];
  }

  /** One more step of the minimizing loop over a prefix. */
  lemma FirstMinStep(vals: seq<ExtReal>, i: nat)
    requires i < |vals|
    ensures var c := FirstMin(vals[..i]);
      FirstMin(vals[..i + 1]) == if Below(vals[i], c.best) then Choice(vals[i], Some(i)) else c
    ensures FirstMin(vals[..i + 1]).best == Min(FirstMin(vals[..i]).best, vals[i])
  {
    assert vals[..i + 1][..i] == vals[..i];
  }

  /** FirstMax finds the first occurrence of the greatest value, and reports
      no index exactly when every value is -inf (in particular when there is
      no value at all). */
  lemma {:induction false} FirstMaxSpec(vals: seq<ExtReal>)
    ensures var c := FirstMax(vals);
      && (forall i | 0 <= i < |vals| :: !Below(c.best, vals[i]))
      && (c.index.None? <==> forall i | 0 <= i < |vals| :: vals[i] == NegInf)
      && (c.index.None? ==> c.best == NegInf)
      && (c.index.Some? ==>
            var k := c.index.value;
            && k < |vals| && c.best == vals[k] && c.best != NegInf
            && forall i | 0 <= i < k :: Below(vals[i], vals[k]))
  {
    if vals != [] {
      var n := |vals|;
      var pre := vals[..n - 1];
      FirstMaxSpec(pre);
      var c := FirstMax(pre);
      forall i | 0 <= i < n - 1 ensures vals[i] == pre[i] { }
      forall a: ExtReal, b: ExtReal, d: ExtReal ensures Below(a, b) && Below(b, d) ==> Below(a, d) {
        BelowIsStrictTotal(a, b, d);
      }
      if Below(c.best, vals[n - 1]) {
        forall i | 0 <= i < n - 1 ensures Below(vals[i], vals[n - 1]) {
          BelowIsStrictTotal(vals[i], c.best, vals[n - 1]);
        }
      } else {
        BelowIsStrictTotal(c.best, vals[n - 1], c.best);
      }
    }
  }

  /** FirstMin finds the first occurrence of the least value, and reports no
      index exactly when every value is +inf. */
  lemma {:induction false} FirstMinSpec(vals: seq<ExtReal>)
    ensures var c := FirstMin(vals);
      && (forall i | 0 <= i < |vals| :: !Below(vals[i], c.best))
      && (c.index.None? <==> forall i | 0 <= i < |vals| :: vals[i] == PosInf)
      && (c.index.None? ==> c.best == PosInf)
      && (c.index.Some? ==>
            var k := c.index.value;
            && k < |vals| && c.best == vals[k] && c.best != PosInf
            && forall i | 0 <= i < k :: Below(vals[k], vals[i]))
  {
    if vals != [] {
      var n := |vals|;
      var pre := vals[..n - 1];
      FirstMinSpec(pre);
      var c := FirstMin(pre);
      forall i | 0 <= i < n - 1 ensures vals[i] == pre[i] { }
      forall a: ExtReal, b: ExtReal, d: ExtReal ensures Below(a, b) && Below(b, d) ==> Below(a, d) {
        BelowIsStrictTotal(a, b, d);
      }
      if Below(vals[n - 1], c.best) {
        forall i | 0 <= i < n - 1 ensures Below(vals[n - 1], vals[i]) {
          BelowIsStrictTotal(vals[n - 1], c.best, vals[i]);
        }
      } else {
        BelowIsStrictTotal(c.best, vals[n - 1], c.best);
      }
    }
  }

  /** A finite tie-break never reorders two different integer parts. */
  lemma TieBreakKeepsOrder(a: int, s: Unit, b: int, t: Unit)
    requires a < b
    ensures (a as real) + s < (b as real) + t
  {
  }
}
