/**
 * The path generator of the bit-packed grid (`Each`) and the hit count that
 * ANDs its lanes with the grid's lanes (`count_hits`).
 *
 * `Each` walks a slope: every step goes `down` rows and `left` columns. It
 * keeps the walk's bit position inside the current lane in `idx` and its
 * column in `cursor`; when the column passes the stride it is wrapped back by
 * one stride, once per step. `Walk` is that recurrence on whole positions,
 * counted from the first bit the iterator emits.
 */
module BitPath {
  import opened Wrappers
  import opened Arith
  import opened BitSet
  import opened BitGrid

  /** The parameters of an `Each`: start column, columns and rows per step, row length. */
  datatype Slope = Slope(from: nat, left: nat, down: nat, stride: nat)

  /** A point of the walk: the bit position relative to the first emitted bit, and the column counter. */
  datatype Point = Point(pos: int, col: int)

  /**
   * The slopes whose walk never moves backwards and always reaches the end of
   * a lane: with a positive stride at least one row per step, with a zero
   * stride at least one column per step.
   */
  predicate Safe(p: Slope) {
    if p.stride == 0 then p.left >= 1 else p.down >= 1
  }

  /** The slopes the walk tracks exactly: a real row length, a start column inside it, at most one wrap per step. */
  predicate Tracks(p: Slope) {
    p.stride >= 1 && p.down >= 1 && p.from < p.stride && p.left <= p.stride
  }

  /** How far one step moves before the column is wrapped. */
  function Jump(p: Slope): nat {
    p.down * p.stride + p.left
  }

  /** One turn of the loop in `Each::next`. */
  function Step(p: Slope, q: Point): Point {
    if q.col + p.left >= p.stride then Point(q.pos + Jump(p) - p.stride, q.col + p.left - p.stride)
    else Point(q.pos + Jump(p), q.col + p.left)
  }

  /** The `k`-th point of the walk; the first is position 0 at column `from`. */
  function Walk(p: Slope, k: nat): Point {
    if k == 0 then Point(0, p.from) else Step(p, Walk(p, k - 1))
  }

  /** Some point of the walk lies on bit `pos`. */
  ghost predicate OnPath(p: Slope, pos: int) {
    exists j: nat :: Walk(p, j).pos == pos
  }

  /** Some point of the walk with index in `[lo, hi)` lies on bit `pos`. */
  ghost predicate OnPathBetween(p: Slope, lo: nat, hi: nat, pos: int) {
    exists j: nat :: lo <= j < hi && Walk(p, j).pos == pos
  }

  /** On a safe slope a step never moves backwards, and the column stays a natural number. */
  lemma StepForward(p: Slope, q: Point)
    requires Safe(p) && q.col >= 0
    ensures q.pos <= Step(p, q).pos && Step(p, q).col >= 0
  {
    if p.stride >= 1 {
      MulAtLeast(p.down, p.stride);
    }
  }

  /** On a safe slope positions never decrease along the walk and never go below 0. */
  lemma {:induction false} WalkMono(p: Slope, j: nat, k: nat)
    requires Safe(p) && j <= k
    ensures 0 <= Walk(p, j).pos <= Walk(p, k).pos && Walk(p, k).col >= 0
  {
    if k > 0 {
      if j < k {
        WalkMono(p, j, k - 1);
      } else {
        WalkMono(p, 0, k - 1);
      }
      StepForward(p, Walk(p, k - 1));
    }
  }

  /** Adding point `hi` to a range of points adds exactly its position. */
  lemma OnPathSnoc(p: Slope, lo: nat, hi: nat, pos: int)
    requires lo <= hi
    ensures OnPathBetween(p, lo, hi + 1, pos) <==> OnPathBetween(p, lo, hi, pos) || Walk(p, hi).pos == pos
  {
    if Walk(p, hi).pos == pos {
      assert lo <= hi < hi + 1 && Walk(p, hi).pos == pos;
    }
  }

  /**
   * When the points before `lo` lie in front of `base` and point `hi` lies at
   * or past the lane that starts at `base`, the bits of that lane on the walk
   * are exactly those of the points in `[lo, hi)`.
   */
  lemma LaneMarks(p: Slope, lo: nat, hi: nat, base: int, b: int)
    requires Safe(p) && lo <= hi && 0 <= b < LaneBits
    requires lo == 0 || Walk(p, lo - 1).pos < base
    requires base + LaneBits <= Walk(p, hi).pos
    ensures OnPath(p, base + b) <==> OnPathBetween(p, lo, hi, base + b)
  {
    if OnPath(p, base + b) {
      var j: nat :| Walk(p, j).pos == base + b;
      if j < lo {
        WalkMono(p, j, lo - 1);
      } else if hi <= j {
        WalkMono(p, hi, j);
      }
    }
  }

  /**
   * `Each`: the path iterator. `idx` is the position of the next point inside
   * the current lane and `cursor` its column; the ghost state counts the lanes
   * emitted and the points marked so far.
   */
  class Each {
    var idx: nat
    var cursor: nat
    const left: nat
    const down: nat
    const stride: nat
    ghost const from: nat
    ghost var lanes: nat
    ghost var k: nat

    ghost function Path(): Slope {
      Slope(from, left, down, stride)
    }

    /**
     * The next point is point `k` of the walk, in the lane after the `lanes`
     * emitted, and every earlier point lies in an emitted lane.
     */
    ghost predicate Valid()
      reads this
    {
      && Safe(Path())
      && Walk(Path(), k) == Point(LaneBits * lanes + idx, cursor)
      && (k == 0 || Walk(Path(), k - 1).pos < LaneBits * lanes)
    }

    /** `Grid::each`: the walk starts at bit 0 of the first lane, whatever column `from` names. */
    constructor (from: nat, left: nat, down: nat, stride: nat)
      requires Safe(Slope(from, left, down, stride))
      ensures Valid() && Path() == Slope(from, left, down, stride)
      ensures lanes == 0 && k == 0 && idx == 0 && cursor == from
    {
      idx := 0;
      cursor := from;
      this.left := left;
      this.down := down;
      this.stride := stride;
      this.from := from;
      lanes := 0;
      k := 0;
    }

    /**
     * `Each::next`: always a lane, never the end. Bit `b` of the lane is set
     * iff the walk passes through position `b` of it. The first lane has
     * bit 0 set.
     */
    method Next() returns (r: Option<seq<bool>>)
      requires Valid()
      modifies this`idx, this`cursor, this`lanes, this`k
      ensures Valid() && lanes == old(lanes) + 1
      ensures r.Some? && |r.value| == LaneBits
      ensures forall b :: 0 <= b < LaneBits ==> (r.value[b] <==> OnPath(Path(), LaneBits * old(lanes) + b))
      ensures old(lanes) == 0 ==> r.value[0]
    {
      var next := Zeros(LaneBits);
      ghost var p := Path();
      ghost var base := LaneBits * lanes;
      ghost var lo := k;
      while idx < LaneBits
        modifies this`idx, this`cursor, this`k
        invariant lo <= k && Walk(p, k) == Point(base + idx, cursor)
        invariant k == 0 || Walk(p, k - 1).pos < base + LaneBits
        invariant lo == 0 || Walk(p, lo - 1).pos < base
        invariant Marked(p, lo, k, base, next)
        decreases LaneBits - idx, cursor
      {
        MarkPoint(p, lo, k, base, next, idx);
        next := next[idx := true];
        Stroll(p, base);
      }
      forall b | 0 <= b < LaneBits
        ensures next[b] <==> OnPath(p, base + b)
      {
        LaneMarks(p, lo, k, base, b);
      }
      if base == 0 {
        assert Walk(p, 0).pos == base + 0;
      }
      idx := idx - LaneBits;
      lanes := lanes + 1;
      r := Some(next);
    }

    /**
     * The body of the loop in `Each::next`: stroll down and left, and wrap the
     * column back once if it passed the stride. This moves to the next point
     * of the walk, forward or, standing still, with the column a stride back.
     */
    method Stroll(ghost p: Slope, ghost base: int)
      requires p == Path() && Safe(p) && Walk(p, k) == Point(base + idx, cursor)
      modifies this`idx, this`cursor, this`k
      ensures k == old(k) + 1 && Walk(p, k) == Point(base + idx, cursor)
      ensures Walk(p, k - 1).pos == base + old(idx)
      ensures idx > old(idx) || (idx == old(idx) && cursor < old(cursor))
    {
      NextStep(p, k, base, idx, cursor);
      idx := idx + down * stride + left;
      cursor := cursor + left;
      if cursor >= stride {
        cursor := cursor - stride;
        idx := idx - stride;
      }
      k := k + 1;
    }

    /**
     * `each.take(n).collect()`: the next `n` lanes back to back, which mark
     * exactly the walk's positions from the first lane not yet emitted.
     */
    method Collect(n: nat) returns (path: seq<bool>)
      requires Valid()
      modifies this`idx, this`cursor, this`lanes, this`k
      ensures Valid() && lanes == old(lanes) + n
      ensures path == Marks(Path(), LaneBits * old(lanes), LaneBits * n)
    {
      path := [];
      for i := 0 to n
        invariant Valid() && lanes == old(lanes) + i
        invariant path == Marks(Path(), LaneBits * old(lanes), LaneBits * i)
      {
        var lane := Next();
        MarksAppend(Path(), LaneBits * old(lanes), LaneBits * i, lane.value);
        path := path + lane.value;
      }
    }
  }

  /** The lane `next` marks exactly the points in `[lo, hi)` that lie in the lane starting at `base`. */
  ghost predicate Marked(p: Slope, lo: nat, hi: nat, base: int, next: seq<bool>) {
    |next| == LaneBits && forall b :: 0 <= b < LaneBits ==> (next[b] <==> OnPathBetween(p, lo, hi, base + b))
  }

  /** Marking the bit of point `hi` extends the marked range by that point. */
  lemma MarkPoint(p: Slope, lo: nat, hi: nat, base: int, next: seq<bool>, i: int)
    requires lo <= hi && 0 <= i < LaneBits && Walk(p, hi).pos == base + i
    requires Marked(p, lo, hi, base, next)
    ensures Marked(p, lo, hi + 1, base, next[i := true])
  {
    var marked := next[i := true];
    forall b | 0 <= b < LaneBits
      ensures marked[b] <==> OnPathBetween(p, lo, hi + 1, base + b)
    {
      OnPathSnoc(p, lo, hi, base + b);
    }
  }

  /**
   * One turn of the loop in `Each::next` follows the walk: the index does not
   * underflow, and the turn either moves forward or, standing still, moves
   * the column back by a stride.
   */
  lemma NextStep(p: Slope, k: nat, base: int, idx: nat, cursor: nat)
    requires Safe(p) && Walk(p, k) == Point(base + idx, cursor)
    ensures cursor + p.left >= p.stride ==> idx + p.down * p.stride + p.left >= p.stride
    ensures Walk(p, k + 1) == Step(p, Point(base + idx, cursor))
    ensures Walk(p, k + 1).pos > base + idx || (Walk(p, k + 1).pos == base + idx && Walk(p, k + 1).col < cursor)
  {
    if p.stride >= 1 {
      MulAtLeast(p.down, p.stride);
      if p.down >= 2 {
        MulAtLeast(p.down, p.stride);
        assert p.down * p.stride == (p.down - 1) * p.stride + p.stride;
        MulAtLeast(p.down - 1, p.stride);
      }
    }
  }

  /** Bits `start .. start + n` of the walk's mask. */
  ghost function Marks(p: Slope, start: int, n: nat): (m: seq<bool>)
    ensures |m| == n
  {
    seq(n, b requires 0 <= b < n => OnPath(p, start + b))
  }

  /** A lane that marks the walk's bits after the first `n` extends the mask by a lane. */
  lemma MarksAppend(p: Slope, start: int, n: nat, lane: seq<bool>)
    requires |lane| == LaneBits
    requires forall b :: 0 <= b < LaneBits ==> (lane[b] <==> OnPath(p, start + n + b))
    ensures Marks(p, start, n) + lane == Marks(p, start, n + LaneBits)
  {
    var m := Marks(p, start, n + LaneBits);
    forall b | 0 <= b < n + LaneBits
      ensures (Marks(p, start, n) + lane)[b] == m[b]
    {
      if b >= n {
        assert start + n + (b - n) == start + b;
      }
    }
  }

  /** `Grid::each`: a fresh iterator over the walk of the given slope with the grid's stride. */
  method EachOf(grid: Grid, from: nat, left: nat, down: nat) returns (e: Each)
    requires Safe(Slope(from, left, down, grid.stride))
    ensures fresh(e) && e.Valid() && e.lanes == 0
    ensures e.Path() == Slope(from, left, down, grid.stride)
  {
    e := new Each(from, left, down, grid.stride);
  }

  /**
   * `count_hits`: takes as many path lanes as the grid has and counts the bits
   * set in both, after `bit_and` has cleared the path bits the grid lacks.
   * The count is at most either side's.
   */
  method CountHits(grid: Grid, each: Each) returns (hits: nat)
    requires grid.Valid() && each.Valid()
    modifies each`idx, each`cursor, each`lanes, each`k
    ensures hits == BitCount(BitAnd(Marks(each.Path(), LaneBits * old(each.lanes), |grid.bits|), grid.bits))
    ensures hits <= BitCount(grid.bits)
    ensures hits <= BitCount(Marks(each.Path(), LaneBits * old(each.lanes), |grid.bits|))
  {
    var path := each.Collect(grid.Len());
    path := BitAnd(path, grid.bits);
    hits := BitCount(path);
    BitAndCount(Marks(each.Path(), LaneBits * old(each.lanes), |grid.bits|), grid.bits);
  }

  /**
   * The count `main` prints, `count_hits(&grid, grid.each(0, left, down))`:
   * the grid bits that lie on the walk from bit 0.
   */
  method SlopeHits(grid: Grid, left: nat, down: nat) returns (hits: nat)
    requires grid.Valid() && Safe(Slope(0, left, down, grid.stride))
    ensures hits == BitCount(BitAnd(Marks(Slope(0, left, down, grid.stride), 0, |grid.bits|), grid.bits))
  {
    var each := EachOf(grid, 0, left, down);
    hits := CountHits(grid, each);
  }

  /** On a tracked slope the column counter stays inside the row. */
  lemma {:induction false} WalkCol(p: Slope, k: nat)
    requires Tracks(p)
    ensures 0 <= Walk(p, k).col < p.stride
  {
    if k > 0 {
      WalkCol(p, k - 1);
    }
  }

  /** On a tracked slope every step moves forward by at least one bit. */
  lemma WalkStep(p: Slope, k: nat)
    requires Tracks(p)
    ensures Walk(p, k).pos < Walk(p, k + 1).pos
  {
    WalkCol(p, k);
    MulAtLeast(p.down, p.stride);
  }

  /** On a tracked slope distinct points lie on distinct bits, in order. */
  lemma {:induction false} WalkStrict(p: Slope, j: nat, k: nat)
    requires Tracks(p) && j < k
    ensures Walk(p, j).pos < Walk(p, k).pos
  {
    WalkStep(p, k - 1);
    if j < k - 1 {
      WalkStrict(p, j, k - 1);
    }
  }

  /**
   * On a tracked slope point `k` is `k * down` rows down, in column
   * `(from + k * left) % stride`, counted from bit `from` of the first row:
   * the walk steps through the rows as a slope on a horizontally repeating
   * grid does.
   */
  lemma {:induction false} WalkOnPath(p: Slope, k: nat)
    requires Tracks(p)
    ensures Walk(p, k).col == (p.from + k * p.left) % p.stride
    ensures Walk(p, k).pos == k * (p.down * p.stride) + (p.from + k * p.left) % p.stride - p.from
  {
    if k == 0 {
      DivModUnique(p.from, p.stride, 0, p.from);
    } else {
      var a := p.from + (k - 1) * p.left;
      WalkOnPath(p, k - 1);
      MulPred(k, p.left);
      MulPred(k, p.down * p.stride);
      assert p.from + k * p.left == a + p.left;
      ModStep(a, p.left, p.stride);
    }
  }

  /**
   * With no row per step the walk can stand still for ever: on stride 1,
   * one column left and no row down, every step wraps back to bit 0, so
   * `Each::next` never leaves its loop.
   */
  lemma {:induction false} FlatSlopeStalls(k: nat)
    ensures Walk(Slope(0, 1, 0, 1), k) == Point(0, 0)
  {
    if k > 0 {
      FlatSlopeStalls(k - 1);
    }
  }

  /**
   * With no row per step a wrap moves the walk backwards: on stride 2 from
   * column 1, one column left wraps to bit -1, which `idx` (unsigned)
   * cannot hold.
   */
  lemma FlatSlopeFallsBack()
    ensures Walk(Slope(1, 1, 0, 2), 1).pos == -1
  {
  }

  /** How many of the first `n` grid bits are set and on the walk. */
  ghost function MaskCount(p: Slope, bits: seq<bool>, n: nat): nat {
    if n == 0 then 0
    else MaskCount(p, bits, n - 1) + (if n - 1 < |bits| && bits[n - 1] && OnPath(p, n - 1) then 1 else 0)
  }

  /** How many of the first `k` points of the walk lie on set grid bits. */
  function HitsAlong(p: Slope, bits: seq<bool>, k: nat): nat {
    if k == 0 then 0 else HitsAlong(p, bits, k - 1) + HitAt(bits, Walk(p, k - 1).pos)
  }

  /** One if `pos` is a set grid bit, else zero. */
  function HitAt(bits: seq<bool>, pos: int): nat {
    if 0 <= pos < |bits| && bits[pos] then 1 else 0
  }

  /** The AND of the first `n` mask bits with the grid bits counts the set bits on the walk. */
  lemma {:induction false} AndCount(p: Slope, bits: seq<bool>, n: nat)
    requires n <= |bits|
    ensures BitCount(BitAnd(Marks(p, 0, n), bits[..n])) == MaskCount(p, bits, n)
  {
    if n > 0 {
      AndCount(p, bits, n - 1);
      var a := BitAnd(Marks(p, 0, n), bits[..n]);
      assert a[..n - 1] == BitAnd(Marks(p, 0, n - 1), bits[..n - 1]);
    }
  }

  /** Bits past the grid add nothing. */
  lemma {:induction false} MaskCountPast(p: Slope, bits: seq<bool>, n: nat)
    requires |bits| <= n
    ensures MaskCount(p, bits, n) == MaskCount(p, bits, |bits|)
  {
    if n > |bits| {
      MaskCountPast(p, bits, n - 1);
    }
  }

  /** Between point `k` and point `k + 1` of a tracked walk no bit is on the walk. */
  lemma {:induction false} MaskCountGap(p: Slope, bits: seq<bool>, k: nat, n: nat)
    requires Tracks(p) && 0 <= Walk(p, k).pos < n <= Walk(p, k + 1).pos
    ensures MaskCount(p, bits, n) == MaskCount(p, bits, Walk(p, k).pos + 1)
  {
    if n > Walk(p, k).pos + 1 {
      MaskCountGap(p, bits, k, n - 1);
      if OnPath(p, n - 1) {
        var j: nat :| Walk(p, j).pos == n - 1;
        if j <= k {
          if j < k {
            WalkStrict(p, j, k);
          }
        } else if j > k + 1 {
          WalkStrict(p, k + 1, j);
        }
      }
    }
  }

  /** Up to point `k` of a tracked walk, counting by bits and counting by points agree. */
  lemma {:induction false} PrefixHits(p: Slope, bits: seq<bool>, k: nat)
    requires Tracks(p)
    ensures Walk(p, k).pos >= 0
    ensures MaskCount(p, bits, Walk(p, k).pos) == HitsAlong(p, bits, k)
  {
    WalkMono(p, 0, k);
    if k > 0 {
      PrefixHits(p, bits, k - 1);
      MaskCountStep(p, bits, k - 1);
    }
  }

  /** From one point of the walk to the next, the count by bits grows by the first point's hit. */
  lemma MaskCountStep(p: Slope, bits: seq<bool>, j: nat)
    requires Tracks(p)
    ensures 0 <= Walk(p, j).pos < Walk(p, j + 1).pos
    ensures MaskCount(p, bits, Walk(p, j + 1).pos) == MaskCount(p, bits, Walk(p, j).pos) + HitAt(bits, Walk(p, j).pos)
  {
    WalkMono(p, 0, j);
    WalkStep(p, j);
    MaskCountGap(p, bits, j, Walk(p, j + 1).pos);
    MaskCountPoint(p, bits, j);
  }

  /** The bit of a point of the walk counts iff it is set. */
  lemma MaskCountPoint(p: Slope, bits: seq<bool>, k: nat)
    requires 0 <= Walk(p, k).pos
    ensures MaskCount(p, bits, Walk(p, k).pos + 1) == MaskCount(p, bits, Walk(p, k).pos) + HitAt(bits, Walk(p, k).pos)
  {
    assert OnPath(p, Walk(p, k).pos);
  }

  /**
   * Over a tracked slope, the mask's AND with the grid counts the points of
   * the walk that lie on set bits, for any number of points that reaches
   * past the grid.
   */
  lemma MaskHits(p: Slope, bits: seq<bool>, k: nat)
    requires Tracks(p) && |bits| <= Walk(p, k).pos
    ensures BitCount(BitAnd(Marks(p, 0, |bits|), bits)) == HitsAlong(p, bits, k)
  {
    AndCount(p, bits, |bits|);
    assert bits[..|bits|] == bits;
    PrefixHits(p, bits, k);
    MaskCountPast(p, bits, Walk(p, k).pos);
  }
}
