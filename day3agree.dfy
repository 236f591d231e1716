/**
 * The two day 3 solvers side by side: they accept the same input, and on it
 * the bit-packed path count equals the tree count along the tile route.
 * Also the counting expressions the two benchmarks wrap.
 */
module Agreement {

  import opened Wrappers
  import opened Arith
  import opened Text
  import opened BitSet
  import BitGrid
  import BitPath
  import TileGrid

  /** A line of the bit grid is a regular line of the tile grid, and back. */
  lemma RowLineTiles(line: string, w: nat)
    ensures BitGrid.RowLine(line, w) <==> TileGrid.TileRow(line) && ByteLen(line) == w
  {
    if TileGrid.TileRow(line) {
      TileGrid.TileRowLength(line);
    }
  }

  /** The bit grid's well-formed lines are exactly the tile grid's regular lines. */
  lemma WellFormedRegular(lines: seq<string>)
    ensures BitGrid.WellFormed(lines) <==> TileGrid.Regular(lines)
  {
    var w := BitGrid.Stride(lines);
    assert w == TileGrid.Width(lines);
    forall i | 0 <= i < |lines| ensures BitGrid.RowLine(lines[i], w) <==> TileGrid.TileRow(lines[i]) && ByteLen(lines[i]) == w {
      RowLineTiles(lines[i], w);
    }
  }

  /** Both parsers accept the same lines. */
  lemma SameAcceptance(lines: seq<string>)
    ensures BitGrid.ParseFailure(lines).None? <==> TileGrid.ParseLines(lines).Ok?
  {
    BitGrid.ParseFailureNone(lines);
    TileGrid.ParseOk(lines);
    WellFormedRegular(lines);
  }

  /**
   * They need not agree on the error: the bit grid checks each line in full
   * before the next, the tile grid checks every length before any character.
   */
  lemma ErrorOrder()
    ensures BitGrid.ParseFailure(["x", ".."]) == Some(BitGrid.InvalidChar('x'))
    ensures TileGrid.ParseLines(["x", ".."]) == Err(TileGrid.Irregular(1, 2))
  {
    assert BitGrid.FirstInvalid("x") == 0;
    assert ByteLen("..") == 2 by {
      assert ".."[..1] == ".";
      assert "."[..0] == [];
    }
    assert ByteLen("x") == 1 by {
      assert "x"[..0] == [];
    }
  }

  /** The walk that `each(0, left, down)` marks on a grid of stride `w`. */
  function PathOf(left: nat, down: nat, w: nat): BitPath.Slope {
    BitPath.Slope(0, left, down, w)
  }

  /** Conditions under which the path and the route visit the same cells. */
  predicate Comparable(lines: seq<string>, left: nat, down: nat) {
    BitGrid.WellFormed(lines) && BitGrid.Stride(lines) >= 1 && down >= 1 && left <= BitGrid.Stride(lines)
  }

  /** The tile board of well-formed lines, with its shape. */
  lemma BoardShape(lines: seq<string>)
    requires BitGrid.WellFormed(lines) && BitGrid.Stride(lines) >= 1
    ensures AllOfLength(TileGrid.RowsOf(lines), BitGrid.Stride(lines))
    ensures TileGrid.BoardOf(lines) == TileGrid.Board(TileGrid.Coord(BitGrid.Stride(lines), |lines|), Flatten(TileGrid.RowsOf(lines)))
    ensures TileGrid.BoardOf(lines).Valid()
  {
    BitGrid.WellFormedRows(lines);
    FlattenLength(TileGrid.RowsOf(lines), BitGrid.Stride(lines));
  }

  /** Step `k` inside the grid: the path bit and the route tile agree on whether there is a tree. */
  lemma StepHit(lines: seq<string>, left: nat, down: nat, k: nat)
    requires Comparable(lines, left, down) && k * down < |lines|
    ensures TileGrid.Walkable(TileGrid.BoardOf(lines), TileGrid.Coord(left, down))
    ensures BitPath.HitAt(BitGrid.Image(lines), BitPath.Walk(PathOf(left, down, BitGrid.Stride(lines)), k).pos)
         == TileGrid.HitAt(TileGrid.BoardOf(lines), TileGrid.Coord(left, down), k)
  {
    var w := BitGrid.Stride(lines);
    var p := PathOf(left, down, w);
    BoardShape(lines);
    BitPath.WalkOnPath(p, k);
    var x := MulNat(k, left);
    var i := MulNat(k, down);
    var j := x % w;
    var row := MulNat(i, w);
    MulAssoc(k, down, w);
    assert BitPath.Walk(p, k).pos == row + j;
    BitGrid.ImageCell(lines, i, j);
    var c := TileGrid.Coord(x, i);
    assert TileGrid.RouteAt(TileGrid.Coord(left, down), k) == c;
    TileGrid.CellOfRows(TileGrid.RowsOf(lines), w, c);
  }

  /** Once the route has left the grid, the path is in the clear padding past the rows. */
  lemma PastRows(lines: seq<string>, left: nat, down: nat, k: nat)
    requires Comparable(lines, left, down) && |lines| <= k * down
    ensures BitPath.HitAt(BitGrid.Image(lines), BitPath.Walk(PathOf(left, down, BitGrid.Stride(lines)), k).pos) == 0
  {
    var w := BitGrid.Stride(lines);
    var p := PathOf(left, down, w);
    BitPath.WalkOnPath(p, k);
    var i := MulNat(k, down);
    MulAssoc(k, down, w);
    MulMono(|lines|, i, w);
    var pos := BitPath.Walk(p, k).pos;
    assert |lines| * w <= pos;
    if pos < |BitGrid.Image(lines)| {
      BitGrid.ImagePadding(lines, pos);
    }
  }

  /** While the route is inside the grid, path and route meet the same trees. */
  lemma {:induction false} PrefixAgree(lines: seq<string>, left: nat, down: nat, n: nat)
    requires Comparable(lines, left, down) && n <= TileGrid.RouteLen(|lines|, down)
    ensures TileGrid.Walkable(TileGrid.BoardOf(lines), TileGrid.Coord(left, down))
    ensures BitPath.HitsAlong(PathOf(left, down, BitGrid.Stride(lines)), BitGrid.Image(lines), n)
         == TileGrid.TreesUpTo(TileGrid.BoardOf(lines), TileGrid.Coord(left, down), n)
  {
    if n == 0 {
      BoardShape(lines);
    } else {
      PrefixAgree(lines, left, down, n - 1);
      AgreeStep(lines, left, down, n - 1);
    }
  }

  /** One more step inside the grid adds the same hit to both counts. */
  lemma AgreeStep(lines: seq<string>, left: nat, down: nat, j: nat)
    requires Comparable(lines, left, down) && j < TileGrid.RouteLen(|lines|, down)
    ensures TileGrid.Walkable(TileGrid.BoardOf(lines), TileGrid.Coord(left, down))
    ensures j + 1 <= TileGrid.RouteLen(|lines|, down)
    ensures BitPath.HitsAlong(PathOf(left, down, BitGrid.Stride(lines)), BitGrid.Image(lines), j + 1)
         == BitPath.HitsAlong(PathOf(left, down, BitGrid.Stride(lines)), BitGrid.Image(lines), j)
          + BitPath.HitAt(BitGrid.Image(lines), BitPath.Walk(PathOf(left, down, BitGrid.Stride(lines)), j).pos)
    ensures TileGrid.TreesUpTo(TileGrid.BoardOf(lines), TileGrid.Coord(left, down), j + 1)
         == TileGrid.TreesUpTo(TileGrid.BoardOf(lines), TileGrid.Coord(left, down), j)
          + BitPath.HitAt(BitGrid.Image(lines), BitPath.Walk(PathOf(left, down, BitGrid.Stride(lines)), j).pos)
  {
    BoardShape(lines);
    TileGrid.RouteSpan(|lines|, down, j);
    StepHit(lines, left, down, j);
  }

  /** After the route has left the grid, the path meets no further trees. */
  lemma {:induction false} TailClear(lines: seq<string>, left: nat, down: nat, n: nat)
    requires Comparable(lines, left, down) && TileGrid.RouteLen(|lines|, down) <= n
    ensures BitPath.HitsAlong(PathOf(left, down, BitGrid.Stride(lines)), BitGrid.Image(lines), n)
         == BitPath.HitsAlong(PathOf(left, down, BitGrid.Stride(lines)), BitGrid.Image(lines), TileGrid.RouteLen(|lines|, down))
  {
    if n > TileGrid.RouteLen(|lines|, down) {
      TailClear(lines, left, down, n - 1);
      TileGrid.RouteSpan(|lines|, down, n - 1);
      PastRows(lines, left, down, n - 1);
    }
  }

  /** The walk advances at least one bit per point. */
  lemma {:induction false} WalkAtLeast(p: BitPath.Slope, k: nat)
    requires BitPath.Tracks(p)
    ensures BitPath.Walk(p, k).pos >= k
  {
    if k > 0 {
      WalkAtLeast(p, k - 1);
      BitPath.WalkStep(p, k - 1);
    }
  }

  /**
   * The two solvers agree: on the same well-formed lines, the bits set both
   * in the grid and on the path of `each(0, left, down)` number exactly the
   * trees on `route((left, down))`.
   */
  lemma SameHits(lines: seq<string>, left: nat, down: nat)
    requires Comparable(lines, left, down)
    ensures TileGrid.Walkable(TileGrid.BoardOf(lines), TileGrid.Coord(left, down))
    ensures BitCount(BitAnd(BitPath.Marks(PathOf(left, down, BitGrid.Stride(lines)), 0, |BitGrid.Image(lines)|), BitGrid.Image(lines)))
         == TileGrid.TreesOnRoute(TileGrid.BoardOf(lines), TileGrid.Coord(left, down))
  {
    var p := PathOf(left, down, BitGrid.Stride(lines));
    var image := BitGrid.Image(lines);
    var n := TileGrid.RouteLen(|lines|, down);
    var k := if n > |image| then n else |image|;
    WalkAtLeast(p, k);
    BitPath.MaskHits(p, image, k);
    TailClear(lines, left, down, k);
    PrefixAgree(lines, left, down, n);
  }

  /** Both parses of the same text, walked along the same slope, count the same trees. */
  method CrossCheck(s: string, left: nat, down: nat) returns (bits: nat, tiles: nat)
    requires BitGrid.ParseFailure(Lines(s)).None? && BitGrid.Stride(Lines(s)) >= 1
    requires down >= 1 && left <= BitGrid.Stride(Lines(s))
    ensures bits == tiles
  {
    var lines := Lines(s);
    BitGrid.ParseFailureNone(lines);
    SameAcceptance(lines);
    var packed := BitGrid.Parse(s);
    var plain := TileGrid.Parse(s);
    bits := BitPath.SlopeHits(packed.value, left, down);
    SameHits(lines, left, down);
    tiles := TileGrid.CountTrees(plain.value, TileGrid.Coord(left, down));
  }

  /** The count `benches/d3bitset.rs` times: the path of `each(0, 3, 1)` over `len()` lanes, ANDed and counted. */
  method BitsetBench(grid: BitGrid.Grid) returns (hits: nat)
    requires grid.Valid()
    ensures hits == BitCount(BitAnd(BitPath.Marks(PathOf(3, 1, grid.stride), 0, |grid.bits|), grid.bits))
    ensures hits <= BitCount(grid.bits)
  {
    var each := BitPath.EachOf(grid, 0, 3, 1);
    var path := each.Collect(grid.Len());
    hits := BitCount(BitAnd(path, grid.bits));
    BitAndCount(path, grid.bits);
  }

  /** The count `benches/d3dumb.rs` times: the trees on `route((3, 1))`. */
  method DumbBench(grid: TileGrid.Grid) returns (hits: nat)
    requires grid.Valid() && (grid.size.y == 0 || grid.size.x >= 1)
    ensures hits == TileGrid.TreesOnRoute(grid.Value(), TileGrid.Coord(3, 1))
    ensures hits <= TileGrid.RouteLen(grid.size.y, 1)
  {
    hits := TileGrid.CountTrees(grid, TileGrid.Coord(3, 1));
  }
}
