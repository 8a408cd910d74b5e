/** Lists built block by block, as the engines' nested loops build them, and
    strict orders on lists: the move generators promise their lists in a
    fixed enumeration order. */
module Ordering {

  /** The blocks of `t` one after the other: t[0] + t[1] + ... */
  function Flat<T>(t: seq<seq<T>>): seq<T>
  {
    if t == [] then [] else Flat(t[..|t| - 1]) + t[|t| - 1]
  }

  /** The list of the first i + 1 blocks. */
  lemma FlatStep<T>(t: seq<seq<T>>, i: nat)
    requires i < |t|
    ensures Flat(t[..i + 1]) == Flat(t[..i]) + t[i]
  {
    assert t[..i + 1][..i] == t[..i];
  }

  /** Every element of a block is in the list. */
  lemma {:induction false} FlatMember<T>(t: seq<seq<T>>, k: nat, x: T)
    requires k < |t| && x in t[k]
    ensures x in Flat(t)
  {
    var n := |t|;
    if k < n - 1 {
      FlatMember(t[..n - 1], k, x);
    }
  }

  /** Every element of the list comes from one of the blocks. */
  lemma {:induction false} FlatOrigin<T>(t: seq<seq<T>>, x: T)
    requires x in Flat(t)
    ensures exists k :: 0 <= k < |t| && x in t[k]
  {
    var n := |t|;
    if x !in t[n - 1] {
      FlatOrigin(t[..n - 1], x);
      var k :| 0 <= k < n - 1 && x in t[..n - 1][k];
      assert x in t[k];
    }
  }

  /** A strict order `lt` holds between every earlier and later element. */
  predicate Sorted<T>(s: seq<T>, lt: (T, T) -> bool)
  {
    forall i, j | 0 <= i < j < |s| :: lt(s[i], s[j])
  }

  lemma SortedAppend<T>(s: seq<T>, t: seq<T>, lt: (T, T) -> bool)
    requires Sorted(s, lt) && Sorted(t, lt)
    requires forall x, y | x in s && y in t :: lt(x, y)
    ensures Sorted(s + t, lt)
  {
    forall i, j | 0 <= i < j < |s + t| ensures lt((s + t)[i], (s + t)[j]) {
      if j < |s| {
        assert (s + t)[i] == s[i] && (s + t)[j] == s[j];
      } else if i >= |s| {
        assert (s + t)[i] == t[i - |s|] && (s + t)[j] == t[j - |s|];
      } else {
        assert (s + t)[i] in s && (s + t)[j] in t;
      }
    }
  }

  /** Sorted blocks, each wholly before every later block, make a sorted list. */
  lemma {:induction false} FlatSorted<T>(t: seq<seq<T>>, lt: (T, T) -> bool)
    requires forall k | 0 <= k < |t| :: Sorted(t[k], lt)
    requires forall k1, k2, x, y | 0 <= k1 < k2 < |t| && x in t[k1] && y in t[k2] :: lt(x, y)
    ensures Sorted(Flat(t), lt)
  {
    var n := |t|;
    if n > 0 {
      var pre := t[..n - 1];
      FlatSorted(pre, lt);
      forall x, y | x in Flat(pre) && y in t[n - 1] ensures lt(x, y) {
        FlatOrigin(pre, x);
        var k :| 0 <= k < n - 1 && x in pre[k];
        assert x in t[k];
      }
      SortedAppend(Flat(pre), t[n - 1], lt);
    }
  }
}
