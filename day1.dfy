/**
 * Day 1: find `n` distinct members of a set of integers that add up to a
 * target. The set is walked through a double-ended iterator over its
 * members in ascending order; two members are found with a two-pointer
 * scan, more by fixing the smallest one and searching a copy of the rest.
 */
module NSum {

  import opened Wrappers

  predicate Ascending(items: seq<int>) {
    forall i, j :: 0 <= i < j < |items| ==> items[i] < items[j]
  }

  /** A `BTreeSet` iterator: the members in `[lo, hi)` not yet taken from either end. */
  class SetIter {
    const items: seq<int>
    var lo: nat
    var hi: nat

    ghost predicate Valid()
      reads this
    {
      lo <= hi <= |items| && Ascending(items)
    }

    constructor (items: seq<int>)
      requires Ascending(items)
      ensures this.items == items && lo == 0 && hi == |items| && Valid()
    {
      this.items := items;
      lo, hi := 0, |items|;
    }

    /** `next`: the smallest member left. */
    method Next() returns (r: Option<int>)
      requires Valid()
      modifies this`lo
      ensures Valid()
      ensures old(lo) < hi ==> r == Some(items[old(lo)]) && lo == old(lo) + 1
      ensures old(lo) == hi ==> r == None && lo == old(lo)
    {
      if lo < hi {
        r := Some(items[lo]);
        lo := lo + 1;
      } else {
        r := None;
      }
    }

    /** `next_back`: the largest member left. */
    method NextBack() returns (r: Option<int>)
      requires Valid()
      modifies this`hi
      ensures Valid()
      ensures lo < old(hi) ==> r == Some(items[old(hi) - 1]) && hi == old(hi) - 1
      ensures lo == old(hi) ==> r == None && hi == old(hi)
    {
      if lo < hi {
        r := Some(items[hi - 1]);
        hi := hi - 1;
      } else {
        r := None;
      }
    }

    /** `clone`: an independent iterator over the same members left. */
    method Clone() returns (c: SetIter)
      requires Valid()
      ensures fresh(c) && c.Valid()
      ensures c.items == items && c.lo == lo && c.hi == hi
    {
      c := new SetIter(items);
      c.lo, c.hi := lo, hi;
    }
  }

  function Sum(v: seq<int>): int {
    if v == [] then 0 else Sum(v[..|v| - 1]) + v[|v| - 1]
  }

  lemma SumSnoc(v: seq<int>, x: int)
    ensures Sum(v + [x]) == Sum(v) + x
  {
    assert (v + [x])[..|v|] == v;
  }

  /**
   * Reference definition: some `n` members of `items[lo..hi]` add up to
   * `target` (take the member at `lo` or skip it).
   */
  function Reach(items: seq<int>, lo: nat, hi: nat, n: nat, target: int): bool
    requires hi <= |items|
    decreases hi - lo, n
  {
    if n == 0 then target == 0
    else if lo >= hi then false
    else Reach(items, lo + 1, hi, n - 1, target - items[lo]) || Reach(items, lo + 1, hi, n, target)
  }

  /** One member reaches the target exactly when the target is in the window. */
  lemma {:induction false} ReachOne(items: seq<int>, lo: nat, hi: nat, target: int)
    requires hi <= |items|
    ensures Reach(items, lo, hi, 1, target) <==> exists j :: lo <= j < hi && items[j] == target
    decreases hi - lo
  {
    if lo < hi {
      ReachOne(items, lo + 1, hi, target);
    }
  }

  /** Two members reach the target exactly when some pair of distinct positions does. */
  lemma {:induction false} ReachTwo(items: seq<int>, lo: nat, hi: nat, target: int)
    requires hi <= |items|
    ensures Reach(items, lo, hi, 2, target) <==> exists i, j :: lo <= i < j < hi && items[i] + items[j] == target
    decreases hi - lo
  {
    if lo < hi {
      ReachOne(items, lo + 1, hi, target - items[lo]);
      ReachTwo(items, lo + 1, hi, target);
    }
  }

  /**
   * The order `find_n_sum` returns members in: the pair ascending, then each
   * further member smaller than all before it.
   */
  predicate Staggered(v: seq<int>) {
    && |v| >= 2
    && v[0] < v[1]
    && forall i, j :: 0 <= i < j < |v| && 2 <= j ==> v[j] < v[i]
  }

  /** Staggered members are pairwise distinct. */
  lemma StaggeredDistinct(v: seq<int>, i: nat, j: nat)
    requires Staggered(v) && i < j < |v|
    ensures v[i] != v[j]
  {
  }

  /** Every member of `v` is one of `items[lo..hi]`. */
  predicate Within(items: seq<int>, lo: nat, hi: nat, v: seq<int>)
    requires lo <= hi <= |items|
  {
    forall i :: 0 <= i < |v| ==> v[i] in items[lo..hi]
  }

  /** `v` is a find of `n` members of `items[lo..hi]` adding up to `target`, in `find_n_sum`'s order. */
  predicate Found(items: seq<int>, lo: nat, hi: nat, n: nat, target: int, v: seq<int>)
    requires lo <= hi <= |items|
  {
    |v| == n && Sum(v) == target && Staggered(v) && Within(items, lo, hi, v)
  }

  /** No pair in `[lo, hi)` that reaches `target` lies outside positions `a` to `b`. */
  ghost predicate PairsInside(items: seq<int>, lo: nat, hi: nat, a: nat, b: nat, target: int)
    requires hi <= |items|
  {
    forall i, j :: lo <= i < j < hi && items[i] + items[j] == target ==> a <= i && j <= b
  }

  /** A front member too small even with the largest partner left can be dropped. */
  lemma SkipHead(items: seq<int>, lo: nat, hi: nat, a: nat, b: nat, target: int)
    requires hi <= |items| && Ascending(items) && a < b < hi
    requires PairsInside(items, lo, hi, a, b, target) && items[a] + items[b] < target
    ensures PairsInside(items, lo, hi, a + 1, b, target)
  {
  }

  /** A back member too large even with the smallest partner left can be dropped. */
  lemma SkipTail(items: seq<int>, lo: nat, hi: nat, a: nat, b: nat, target: int)
    requires hi <= |items| && Ascending(items) && lo <= a < b < hi
    requires PairsInside(items, lo, hi, a, b, target) && items[a] + items[b] > target
    ensures PairsInside(items, lo, hi, a, b - 1, target)
  {
  }

  /** A pair at positions `a < b` that adds up is a find, so two members reach the target. */
  lemma PairFound(items: seq<int>, lo: nat, hi: nat, a: nat, b: nat, target: int)
    requires hi <= |items| && Ascending(items) && lo <= a < b < hi && items[a] + items[b] == target
    ensures Reach(items, lo, hi, 2, target)
    ensures Found(items, lo, hi, 2, target, [items[a], items[b]])
  {
    ReachTwo(items, lo, hi, target);
    var h, t := items[a], items[b];
    assert [h, t][..1] == [h];
    assert Sum([h, t]) == h + t by {
      SumSnoc([], h);
      SumSnoc([h], t);
      assert [] + [h] == [h] && [h] + [t] == [h, t];
    }
    assert items[lo..hi][a - lo] == h && items[lo..hi][b - lo] == t;
  }

  /** With no positions left between `a` and `b`, no pair reaches the target. */
  lemma NoPair(items: seq<int>, lo: nat, hi: nat, a: nat, b: nat, target: int)
    requires hi <= |items| && PairsInside(items, lo, hi, a, b, target) && b <= a
    ensures !Reach(items, lo, hi, 2, target)
  {
    ReachTwo(items, lo, hi, target);
  }

  /**
   * The state of the two-pointer scan over the window `[lo0, hi0)`: `head`
   * was taken from position `a`, `tail` from position `b`, the iterator has
   * `[lo, hi)` left, and any pair that adds up lies between `a` and `b`.
   */
  ghost predicate Scanning(items: seq<int>, lo0: nat, hi0: nat, lo: nat, hi: nat, a: nat, b: nat,
                           head: Option<int>, tail: Option<int>, target: int)
  {
    && lo0 <= lo <= hi <= hi0 <= |items| && lo0 <= a
    && (head.Some? ==> a + 1 == lo && head.value == items[a])
    && (tail.Some? ==> b == hi && b < hi0 && tail.value == items[b])
    && (head.None? || tail.None? ==> b <= a)
    && PairsInside(items, lo0, hi0, a, b, target)
  }

  /** What is left of the scan: the window still to take, and one for a pair still in hand. */
  function Left(lo: nat, hi: nat, head: Option<int>, tail: Option<int>): int {
    hi - lo + (if head.Some? && tail.Some? then 1 else 0)
  }

  /** One step of the scan on a pair that misses: drop the front if it is short, the back if it is over. */
  method Narrow(it: SetIter, h: int, t: int, target: int, ghost lo0: nat, ghost hi0: nat, ghost a: nat, ghost b: nat)
    returns (head: Option<int>, tail: Option<int>, ghost a2: nat, ghost b2: nat)
    requires it.Valid() && Scanning(it.items, lo0, hi0, it.lo, it.hi, a, b, Some(h), Some(t), target)
    requires h + t != target
    modifies it`lo, it`hi
    ensures it.Valid() && Scanning(it.items, lo0, hi0, it.lo, it.hi, a2, b2, head, tail, target)
    ensures Left(it.lo, it.hi, head, tail) + 1 == Left(old(it.lo), old(it.hi), Some(h), Some(t))
  {
    head, tail, a2, b2 := Some(h), Some(t), a, b;
    if h + t < target {
      SkipHead(it.items, lo0, hi0, a, b, target);
      a2 := a + 1;
      head := it.Next();
    } else {
      SkipTail(it.items, lo0, hi0, a, b, target);
      b2 := b - 1;
      tail := it.NextBack();
    }
  }

  /** The `n == 2` arm of `find_n_sum`: close in from both ends until the pair adds up. */
  method PairSum(it: SetIter, target: int) returns (r: Option<seq<int>>, ghost steps: nat)
    requires it.Valid()
    modifies it`lo, it`hi
    ensures r.Some? <==> Reach(it.items, old(it.lo), old(it.hi), 2, target)
    ensures r.Some? ==> Found(it.items, old(it.lo), old(it.hi), 2, target, r.value)
    ensures steps <= old(it.hi) - old(it.lo)
  {
    steps := 0;
    ghost var lo0, hi0 := it.lo, it.hi;
    ghost var a: nat, b: nat := lo0, if lo0 < hi0 then hi0 - 1 else lo0;
    var head := it.Next();
    var tail := it.NextBack();
    while head.Some? && tail.Some?
      invariant it.Valid() && Scanning(it.items, lo0, hi0, it.lo, it.hi, a, b, head, tail, target)
      invariant steps + Left(it.lo, it.hi, head, tail) <= hi0 - lo0
      decreases Left(it.lo, it.hi, head, tail)
    {
      steps := steps + 1;
      var h, t := head.value, tail.value;
      if h + t == target {
        PairFound(it.items, lo0, hi0, a, b, target);
        return Some([h, t]), steps;
      }
      head, tail, a, b := Narrow(it, h, t, target, lo0, hi0, a, b);
    }
    NoPair(it.items, lo0, hi0, a, b, target);
    return None, steps;
  }

  /**
   * Putting a member below a staggered find from the window after it keeps
   * the result staggered and inside the larger window.
   */
  lemma ExtendSmallest(items: seq<int>, lo: nat, hi: nat, k: nat, h: int, n: nat, target: int, v: seq<int>)
    requires hi <= |items| && Ascending(items) && lo <= k < hi && h == items[k]
    requires Found(items, k + 1, hi, n, target - h, v)
    ensures Found(items, lo, hi, n + 1, target, v + [h])
  {
    SumSnoc(v, h);
    var w := v + [h];
    forall i | 0 <= i < |w| ensures w[i] in items[lo..hi] && (i < |v| ==> items[k] < w[i]) {
      if i < |v| {
        var m :| k + 1 <= m < hi && items[m] == v[i];
        assert items[lo..hi][m - lo] == v[i];
      } else {
        assert items[lo..hi][k - lo] == items[k];
      }
    }
  }

  /**
   * The state of the search for `n >= 3` members over `[lo0, hi0)`: `head`
   * was taken from just before `lo`, and a find exists in the window exactly
   * when one exists from `head` on.
   */
  ghost predicate Picking(items: seq<int>, lo0: nat, hi0: nat, lo: nat, head: Option<int>, n: nat, target: int) {
    && lo0 <= lo <= hi0 <= |items|
    && (head.Some? ==> lo0 < lo && head.value == items[lo - 1]
                       && (Reach(items, lo0, hi0, n, target) <==> Reach(items, lo - 1, hi0, n, target)))
    && (head.None? ==> lo == hi0 && !Reach(items, lo0, hi0, n, target))
  }

  /** A find for the rest below `head` makes a find for the whole window. */
  lemma Picked(items: seq<int>, lo0: nat, hi0: nat, lo: nat, h: int, n: nat, target: int)
    requires n >= 1 && Picking(items, lo0, hi0, lo, Some(h), n, target)
    requires Reach(items, lo, hi0, n - 1, target - h)
    ensures Reach(items, lo0, hi0, n, target)
  {
  }

  /** No find for the rest below `head`: move `head` on to the next member. */
  method PassOver(it: SetIter, h: int, n: nat, target: int, ghost lo0: nat, ghost hi0: nat) returns (head: Option<int>)
    requires n >= 1 && it.Valid() && it.hi == hi0 && Picking(it.items, lo0, hi0, it.lo, Some(h), n, target)
    requires !Reach(it.items, it.lo, hi0, n - 1, target - h)
    modifies it`lo
    ensures it.Valid() && it.hi == hi0 && Picking(it.items, lo0, hi0, it.lo, head, n, target)
    ensures it.lo == old(it.lo) + (if head.Some? then 1 else 0)
  {
    ghost var lo := it.lo;
    assert Reach(it.items, lo - 1, hi0, n, target) <==> Reach(it.items, lo, hi0, n, target);
    assert lo == hi0 ==> !Reach(it.items, lo, hi0, n, target);
    head := it.Next();
  }

  /**
   * `SetIterator::find_n_sum`: `None` below two members; a two-pointer scan
   * for two; for more, each member in turn as the smallest, with the rest
   * searched on a copy of the iterator.
   */
  method FindNSum(it: SetIter, n: nat, target: int) returns (r: Option<seq<int>>)
    requires it.Valid()
    modifies it`lo, it`hi
    decreases n
    ensures n <= 1 ==> r == None
    ensures n >= 2 ==> (r.Some? <==> Reach(it.items, old(it.lo), old(it.hi), n, target))
    ensures r.Some? ==> Found(it.items, old(it.lo), old(it.hi), n, target, r.value)
  {
    if n <= 1 {
      return None;
    } else if n == 2 {
      ghost var steps;
      r, steps := PairSum(it, target);
      return;
    }
    ghost var lo0, hi0 := it.lo, it.hi;
    var head := it.Next();
    while head.Some?
      invariant it.Valid() && it.hi == hi0 && Picking(it.items, lo0, hi0, it.lo, head, n, target)
      decreases hi0 - it.lo + (if head.Some? then 1 else 0)
    {
      var h := head.value;
      var rest := it.Clone();
      var found := FindNSum(rest, n - 1, target - h);
      if found.Some? {
        Picked(it.items, lo0, hi0, it.lo, h, n, target);
        ExtendSmallest(it.items, lo0, hi0, it.lo - 1, h, n - 1, target, found.value);
        return Some(found.value + [h]);
      }
      head := PassOver(it, h, n, target, lo0, hi0);
    }
    return None;
  }
}
