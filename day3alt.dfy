/**
 * The straightforward day 3 solver: a map of open squares and trees stored
 * row by row in a vector of tiles, read from text in two passes, shown back
 * as text, and walked along a slope whose trees are counted.
 */
module TileGrid {

  import opened Wrappers
  import opened Arith
  import opened Text

  datatype Tile = Open | Tree

  datatype ParseError =
    | Irregular(first: nat, found: nat)  // two lines of different byte lengths
    | InvalidTile(c: char)               // a character that is neither '.' nor '#'

  datatype Coord = Coord(x: nat, y: nat)

  predicate IsTile(c: char) {
    c == '.' || c == '#'
  }

  /** The tile a valid character stands for. */
  function TileAt(c: char): Tile {
    if c == '#' then Tree else Open
  }

  /** `Tile::try_from(char)`. */
  function TileOf(c: char): (r: Result<Tile, ParseError>)
    ensures r.Ok? <==> IsTile(c)
    ensures r.Ok? ==> r.value == TileAt(c)
    ensures r.Err? ==> r.error == InvalidTile(c)
  {
    match c
    case '.' => Ok(Open)
    case '#' => Ok(Tree)
    case _ => Err(InvalidTile(c))
  }

  /** `Display for Tile`: the character that reads back as the same tile. */
  function TileChar(t: Tile): (c: char)
    ensures TileOf(c) == Ok(t)
  {
    match t
    case Open => '.'
    case Tree => '#'
  }

  function Area(size: Coord): nat {
    size.x * size.y
  }

  /**
   * `Grid::index`: row-major position of `c`; the column wraps around the
   * width, the row must lie inside the grid.
   */
  function IndexOf(size: Coord, c: Coord): (i: nat)
    requires size.x >= 1 && c.y < size.y
    ensures i < Area(size)
    ensures i / size.x == c.y && i % size.x == c.x % size.x
  {
    MulLess(c.y, size.y, size.x, c.x % size.x);
    DivModUnique(c.y * size.x + c.x % size.x, size.x, c.y, c.x % size.x);
    c.y * size.x + c.x % size.x
  }

  /** Every slot of the grid is the index of the coordinate it decomposes into. */
  lemma SlotOf(size: Coord, k: nat) returns (c: Coord)
    requires size.x >= 1 && k < Area(size)
    ensures c.x < size.x && c.y < size.y
    ensures k == c.y * size.x + c.x
    ensures IndexOf(size, c) == k
  {
    RowCol(k, size.x);
    MulCancel(k / size.x, size.y, size.x);
    c := Coord(k % size.x, k / size.x);
  }

  /** Moving one full width to the right lands on the same slot. */
  lemma IndexWraps(size: Coord, c: Coord)
    requires size.x >= 1 && c.y < size.y
    ensures IndexOf(size, Coord(c.x + size.x, c.y)) == IndexOf(size, c)
  {
    ModAdd(c.x, size.x, size.x);
    DivModUnique(c.x % size.x + size.x, size.x, 1, c.x % size.x);
  }

  /** A grid as a value: its size and its tiles in row-major order. */
  datatype Board = Board(size: Coord, tiles: seq<Tile>) {
    predicate Valid() {
      |tiles| == Area(size)
    }
  }

  /** The tile at `c` of a board. */
  function Cell(b: Board, c: Coord): Tile
    requires b.Valid() && b.size.x >= 1 && c.y < b.size.y
  {
    b.tiles[IndexOf(b.size, c)]
  }

  /** A board laid out from equally long rows shows row `c.y`, column `c.x` modulo the width. */
  lemma CellOfRows(rows: seq<seq<Tile>>, w: nat, c: Coord)
    requires AllOfLength(rows, w) && w >= 1 && c.y < |rows|
    ensures Board(Coord(w, |rows|), Flatten(rows)).Valid()
    ensures Cell(Board(Coord(w, |rows|), Flatten(rows)), c) == rows[c.y][c.x % w]
  {
    FlattenAt(rows, w, c.y, c.x % w);
  }

  class Grid {
    const size: Coord
    const tiles: array<Tile>

    ghost predicate Valid() {
      tiles.Length == Area(size)
    }

    ghost function Value(): (b: Board)
      reads tiles
      ensures b.Valid() <==> Valid()
    {
      Board(size, tiles[..])
    }

    /** `Grid::new`: every tile starts as `Tile::default()`, which is open. */
    constructor (size: Coord)
      ensures this.size == size && Valid() && fresh(tiles)
      ensures tiles[..] == seq(Area(size), _ => Open)
    {
      this.size := size;
      tiles := new Tile[Area(size)](_ => Open);
    }

    /** `Grid::get`. */
    function Get(c: Coord): (t: Tile)
      reads tiles
      requires Valid() && size.x >= 1 && c.y < size.y
      ensures t == Cell(Value(), c)
    {
      tiles[IndexOf(size, c)]
    }

    /** `Grid::set`: only the slot `c` maps to changes. */
    method Set(c: Coord, t: Tile)
      requires Valid() && size.x >= 1 && c.y < size.y
      modifies tiles
      ensures tiles[..] == old(tiles[..])[IndexOf(size, c) := t]
      ensures Get(c) == t
      ensures forall d: Coord :: d.y < size.y && IndexOf(size, d) != IndexOf(size, c) ==> Get(d) == old(Get(d))
    {
      tiles[IndexOf(size, c)] := t;
    }

    /** `Display for Grid`: each row's tiles, then a line feed. */
    method Render() returns (s: string)
      requires Valid()
      ensures s == Shown(Value())
    {
      ghost var b := Value();
      s := [];
      for y := 0 to size.y
        invariant s == Terminated(ShownRows(b)[..y])
      {
        ghost var init := s;
        for x := 0 to size.x
          invariant s == init + ShownRow(b, y)[..x]
        {
          SnocSlice(init, ShownRow(b, y), x);
          s := s + [TileChar(Get(Coord(x, y)))];
        }
        ShownSnoc(b, y);
        s := s + "\n";
      }
      assert ShownRows(b)[..size.y] == ShownRows(b);
    }
  }

  lemma SnocSlice<T>(p: seq<T>, row: seq<T>, x: nat)
    requires x < |row|
    ensures p + row[..x] + [row[x]] == p + row[..x + 1]
  {
    assert row[..x + 1] == row[..x] + [row[x]];
  }

  /** Writing row `y` after the rows before it, with its line feed. */
  lemma ShownSnoc(b: Board, y: nat)
    requires b.Valid() && y < b.size.y
    ensures Terminated(ShownRows(b)[..y + 1]) == Terminated(ShownRows(b)[..y]) + ShownRow(b, y)[..b.size.x] + "\n"
  {
    var rows := ShownRows(b);
    assert rows[..y + 1][..y] == rows[..y];
    assert ShownRow(b, y)[..b.size.x] == ShownRow(b, y);
  }

  /** Row `y` as text. */
  function ShownRow(b: Board, y: nat): (row: string)
    requires b.Valid() && y < b.size.y
    ensures |row| == b.size.x
  {
    seq(b.size.x, x requires 0 <= x < b.size.x => TileChar(Cell(b, Coord(x, y))))
  }

  function ShownRows(b: Board): (rows: seq<string>)
    requires b.Valid()
    ensures |rows| == b.size.y
  {
    seq(b.size.y, y requires 0 <= y < b.size.y => ShownRow(b, y))
  }

  /** The text `Display for Grid` writes. */
  function Shown(b: Board): (s: string)
    requires b.Valid()
    ensures s == [] <==> b.size.y == 0
    ensures s != [] ==> s[|s| - 1] == '\n'
  {
    Terminated(ShownRows(b))
  }

  // ---------------------------------------------------------------- parsing

  /** The width the first pass settles on: the byte length of the first line, or 0 when there is none. */
  function Width(lines: seq<string>): nat {
    if lines == [] then 0 else ByteLen(lines[0])
  }

  /** The byte length of the first line from `i` on that is not `w` bytes long. */
  function IrregularFrom(lines: seq<string>, w: nat, i: nat): (r: Option<nat>)
    ensures r.Some? ==> r.value != w
    decreases |lines| - i
  {
    if i >= |lines| then None
    else if ByteLen(lines[i]) != w then Some(ByteLen(lines[i]))
    else IrregularFrom(lines, w, i + 1)
  }

  /** The first character of `line` from column `x` on that is not a tile. */
  function InvalidIn(line: string, x: nat): (r: Option<char>)
    ensures r.Some? ==> !IsTile(r.value)
    decreases |line| - x
  {
    if x >= |line| then None
    else if TileOf(line[x]).Err? then Some(line[x])
    else InvalidIn(line, x + 1)
  }

  /** The first character that is not a tile, reading the lines from `y` on in order. */
  function InvalidFrom(lines: seq<string>, y: nat): (r: Option<char>)
    ensures r.Some? ==> !IsTile(r.value)
    decreases |lines| - y
  {
    if y >= |lines| then None
    else if InvalidIn(lines[y], 0).Some? then InvalidIn(lines[y], 0)
    else InvalidFrom(lines, y + 1)
  }

  function RowTiles(line: string): (row: seq<Tile>)
    ensures |row| == |line|
  {
    seq(|line|, x requires 0 <= x < |line| => TileAt(line[x]))
  }

  function RowsOf(lines: seq<string>): (rows: seq<seq<Tile>>)
    ensures |rows| == |lines|
  {
    seq(|lines|, y requires 0 <= y < |lines| => RowTiles(lines[y]))
  }

  /** The board that lines of tiles describe. */
  function BoardOf(lines: seq<string>): Board {
    Board(Coord(Width(lines), |lines|), Flatten(RowsOf(lines)))
  }

  /**
   * `FromStr for Grid`: a difference in line length is reported before any
   * bad character, and both name the first offender.
   */
  function ParseSpec(s: string): Result<Board, ParseError> {
    ParseLines(Lines(s))
  }

  function ParseLines(lines: seq<string>): Result<Board, ParseError> {
    var w := Width(lines);
    var irregular := IrregularFrom(lines, w, 0);
    var invalid := InvalidFrom(lines, 0);
    if irregular.Some? then Err(Irregular(w, irregular.value))
    else if invalid.Some? then Err(InvalidTile(invalid.value))
    else Ok(BoardOf(lines))
  }

  predicate TileRow(line: string) {
    forall x :: 0 <= x < |line| ==> IsTile(line[x])
  }

  /** Lines the parser accepts: all as long as the first, all made of tiles. */
  predicate Regular(lines: seq<string>) {
    && (forall y :: 0 <= y < |lines| ==> ByteLen(lines[y]) == Width(lines))
    && (forall y :: 0 <= y < |lines| ==> TileRow(lines[y]))
  }

  lemma {:induction false} IrregularNone(lines: seq<string>, w: nat, i: nat)
    ensures IrregularFrom(lines, w, i) == None <==> forall j :: i <= j < |lines| ==> ByteLen(lines[j]) == w
    decreases |lines| - i
  {
    if i < |lines| {
      IrregularNone(lines, w, i + 1);
    }
  }

  lemma {:induction false} InvalidInNone(line: string, x: nat)
    ensures InvalidIn(line, x) == None <==> forall j :: x <= j < |line| ==> IsTile(line[j])
    decreases |line| - x
  {
    if x < |line| {
      InvalidInNone(line, x + 1);
    }
  }

  lemma {:induction false} InvalidNone(lines: seq<string>, y: nat)
    ensures InvalidFrom(lines, y) == None <==> forall j :: y <= j < |lines| ==> TileRow(lines[j])
    decreases |lines| - y
  {
    if y < |lines| {
      InvalidInNone(lines[y], 0);
      InvalidNone(lines, y + 1);
    }
  }

  /** A row of tiles is ASCII, so its byte length is its length. */
  lemma TileRowLength(line: string)
    requires TileRow(line)
    ensures ByteLen(line) == |line|
  {
    ByteLenAscii(line);
  }

  /** Regular lines of tiles are all `Width` characters long. */
  lemma RegularWidth(lines: seq<string>)
    requires Regular(lines)
    ensures AllOfLength(lines, Width(lines))
  {
    forall y | 0 <= y < |lines| ensures |lines[y]| == Width(lines) {
      TileRowLength(lines[y]);
    }
  }

  /** The parser succeeds exactly on regular lines, and then gives a well-formed board. */
  lemma ParseOk(lines: seq<string>)
    ensures ParseLines(lines).Ok? <==> Regular(lines)
    ensures ParseLines(lines).Ok? ==> ParseLines(lines).value.Valid()
  {
    var w := Width(lines);
    IrregularNone(lines, w, 0);
    InvalidNone(lines, 0);
    if Regular(lines) {
      RegularWidth(lines);
      assert AllOfLength(RowsOf(lines), w);
      FlattenLength(RowsOf(lines), w);
      assert Area(Coord(w, |lines|)) == |lines| * w;
    }
  }

  /** On success, the tile in column `c.x` of line `c.y` is the one its character names. */
  lemma ParsedCell(lines: seq<string>, c: Coord)
    requires ParseLines(lines).Ok?
    requires c.y < |lines| && c.x < |lines[c.y]|
    ensures ParseLines(lines).value.Valid() && ParseLines(lines).value.size.x >= 1
    ensures TileOf(lines[c.y][c.x]) == Ok(Cell(ParseLines(lines).value, c))
  {
    var w := Width(lines);
    ParseOk(lines);
    RegularWidth(lines);
    assert AllOfLength(RowsOf(lines), w);
    CellOfRows(RowsOf(lines), w, c);
    DivModUnique(c.x, w, 0, c.x);
  }

  /** The tiles decoded once line `y` has been read up to column `x`; the rest are still open. */
  ghost function Decoded(lines: seq<string>, w: nat, y: nat, x: nat): (rows: seq<seq<Tile>>)
    ensures |rows| == |lines| && AllOfLength(rows, w)
  {
    seq(|lines|, r requires 0 <= r < |lines| =>
      seq(w, c requires 0 <= c < w =>
        if (r < y || (r == y && c < x)) && c < |lines[r]| then TileAt(lines[r][c]) else Open))
  }

  lemma DecodedStart(lines: seq<string>, w: nat)
    ensures Flatten(Decoded(lines, w, 0, 0)) == seq(Area(Coord(w, |lines|)), _ => Open)
  {
    FlattenUniform(Decoded(lines, w, 0, 0), w, Open);
  }

  /** Setting the tile of line `y`, column `x` advances the decoding by one character. */
  lemma DecodedStep(lines: seq<string>, w: nat, y: nat, x: nat)
    requires y < |lines| && x < |lines[y]| && x < w
    ensures IndexOf(Coord(w, |lines|), Coord(x, y)) < |Flatten(Decoded(lines, w, y, x))|
    ensures Flatten(Decoded(lines, w, y, x))[IndexOf(Coord(w, |lines|), Coord(x, y)) := TileAt(lines[y][x])]
         == Flatten(Decoded(lines, w, y, x + 1))
  {
    var rows := Decoded(lines, w, y, x);
    DivModUnique(x, w, 0, x);
    assert IndexOf(Coord(w, |lines|), Coord(x, y)) == y * w + x;
    FlattenUpdate(rows, w, y, x, TileAt(lines[y][x]));
    var next := Decoded(lines, w, y, x + 1);
    var upd := rows[y := rows[y][x := TileAt(lines[y][x])]];
    forall r | 0 <= r < |lines| ensures upd[r] == next[r] {
      assert forall c :: 0 <= c < w ==> upd[r][c] == next[r][c];
    }
    assert upd == next;
  }

  lemma DecodedRow(lines: seq<string>, w: nat, y: nat)
    requires y < |lines|
    ensures Decoded(lines, w, y, |lines[y]|) == Decoded(lines, w, y + 1, 0)
  {
    var a, b := Decoded(lines, w, y, |lines[y]|), Decoded(lines, w, y + 1, 0);
    forall r | 0 <= r < |lines| ensures a[r] == b[r] {
      assert forall c :: 0 <= c < w ==> a[r][c] == b[r][c];
    }
  }

  lemma DecodedAll(lines: seq<string>, w: nat)
    requires AllOfLength(lines, w)
    ensures Decoded(lines, w, |lines|, 0) == RowsOf(lines)
  {
    var a, b := Decoded(lines, w, |lines|, 0), RowsOf(lines);
    forall r | 0 <= r < |lines| ensures a[r] == b[r] {
      assert forall c :: 0 <= c < w ==> a[r][c] == b[r][c];
    }
  }

  /** The first pass of `FromStr for Grid`: the width, unless some line has another byte length. */
  method MeasureWidth(lines: seq<string>) returns (r: Result<nat, ParseError>)
    ensures IrregularFrom(lines, Width(lines), 0).Some? ==>
      r == Err(Irregular(Width(lines), IrregularFrom(lines, Width(lines), 0).value))
    ensures IrregularFrom(lines, Width(lines), 0).None? ==> r == Ok(Width(lines))
  {
    var width: Option<nat> := None;
    for i := 0 to |lines|
      invariant width.None? <==> i == 0
      invariant width.Some? ==> width.value == Width(lines)
      invariant width.Some? ==> IrregularFrom(lines, width.value, 0) == IrregularFrom(lines, width.value, i)
    {
      var w := ByteLen(lines[i]);
      match width {
        case Some(w0) =>
          if w0 != w {
            return Err(Irregular(w0, w));
          }
        case None =>
          width := Some(w);
      }
    }
    return Ok(if width.Some? then width.value else 0);
  }

  /** One iteration of the second pass: decode every character of line `y` into its slot. */
  method DecodeLine(grid: Grid, lines: seq<string>, y: nat) returns (r: Result<(), ParseError>)
    requires y < |lines| && ByteLen(lines[y]) == grid.size.x && grid.size.y == |lines|
    requires grid.Valid() && grid.tiles[..] == Flatten(Decoded(lines, grid.size.x, y, 0))
    modifies grid.tiles
    ensures InvalidIn(lines[y], 0).Some? ==> r == Err(InvalidTile(InvalidIn(lines[y], 0).value))
    ensures InvalidIn(lines[y], 0).None? ==> r.Ok? && grid.tiles[..] == Flatten(Decoded(lines, grid.size.x, y + 1, 0))
  {
    var line := lines[y];
    for x := 0 to |line|
      invariant grid.tiles[..] == Flatten(Decoded(lines, grid.size.x, y, x))
      invariant InvalidIn(line, 0) == InvalidIn(line, x)
    {
      var tile :- TileOf(line[x]);
      DecodedStep(lines, grid.size.x, y, x);
      grid.Set(Coord(x, y), tile);
    }
    DecodedRow(lines, grid.size.x, y);
    return Ok(());
  }

  /**
   * `FromStr for Grid`: the first pass fixes the width and rejects lines of
   * another byte length, the second decodes each character into its slot.
   */
  method Parse(s: string) returns (r: Result<Grid, ParseError>)
    ensures ParseSpec(s).Err? ==> r.Err? && r.error == ParseSpec(s).error
    ensures ParseSpec(s).Ok? ==> r.Ok? && r.value.Valid() && r.value.Value() == ParseSpec(s).value
  {
    var lines := Lines(s);
    var height := |lines|;
    var w :- MeasureWidth(lines);
    IrregularNone(lines, w, 0);
    var grid := new Grid(Coord(w, height));
    DecodedStart(lines, w);
    for y := 0 to |lines|
      invariant grid.size == Coord(w, height) && grid.Valid() && fresh(grid.tiles)
      invariant grid.tiles[..] == Flatten(Decoded(lines, w, y, 0))
      invariant InvalidFrom(lines, 0) == InvalidFrom(lines, y)
    {
      var _ :- DecodeLine(grid, lines, y);
    }
    InvalidNone(lines, 0);
    RegularWidth(lines);
    DecodedAll(lines, w);
    return Ok(grid);
  }

  // ------------------------------------------------------ display round trip

  /** The board's tiles, row by row. */
  ghost function CellRows(b: Board): (rows: seq<seq<Tile>>)
    requires b.Valid()
    ensures |rows| == b.size.y && AllOfLength(rows, b.size.x)
  {
    seq(b.size.y, y requires 0 <= y < b.size.y =>
      seq(b.size.x, x requires 0 <= x < b.size.x => Cell(b, Coord(x, y))))
  }

  /** Reading a board row by row and concatenating the rows gives back its tiles. */
  lemma CellRowsFlatten(b: Board)
    requires b.Valid()
    ensures Flatten(CellRows(b)) == b.tiles
  {
    var rows, w, h := CellRows(b), b.size.x, b.size.y;
    FlattenLength(rows, w);
    forall k | 0 <= k < |b.tiles| ensures Flatten(rows)[k] == b.tiles[k] {
      var c := SlotOf(b.size, k);
      FlattenAt(rows, w, c.y, c.x);
    }
  }

  /** What `Display for Grid` writes is read back as the same grid, unless it has columns but no rows. */
  lemma ShownParses(b: Board)
    requires b.Valid() && (b.size.y >= 1 || b.size.x == 0)
    ensures ParseSpec(Shown(b)) == Ok(b)
  {
    var rows := ShownRows(b);
    ShownRegular(b);
    LinesOfTerminated(rows);
    ParseOk(rows);
    ShownTiles(b);
    CellRowsFlatten(b);
    assert BoardOf(rows) == b;
  }

  /** The shown rows are plain lines of tiles, all as wide as the board. */
  lemma ShownRegular(b: Board)
    requires b.Valid() && (b.size.y >= 1 || b.size.x == 0)
    ensures forall y :: 0 <= y < b.size.y ==> PlainRow(ShownRows(b)[y])
    ensures Regular(ShownRows(b)) && Width(ShownRows(b)) == b.size.x
  {
    var rows := ShownRows(b);
    forall y | 0 <= y < |rows| ensures PlainRow(rows[y]) && TileRow(rows[y]) && ByteLen(rows[y]) == b.size.x {
      assert TileRow(rows[y]);
      TileRowLength(rows[y]);
    }
  }

  /** The shown rows decode back to the board's rows of tiles. */
  lemma ShownTiles(b: Board)
    requires b.Valid()
    ensures RowsOf(ShownRows(b)) == CellRows(b)
  {
    var rows, cells := RowsOf(ShownRows(b)), CellRows(b);
    forall y | 0 <= y < b.size.y ensures rows[y] == cells[y] {
      forall x | 0 <= x < b.size.x ensures rows[y][x] == cells[y][x] {
      }
    }
  }

  /** A parsed grid is shown as its input lines, each followed by a line feed. */
  lemma ParsedShown(s: string)
    requires ParseSpec(s).Ok?
    ensures ParseSpec(s).value.Valid()
    ensures Shown(ParseSpec(s).value) == Terminated(Lines(s))
  {
    var lines, b := Lines(s), ParseSpec(s).value;
    ParseOk(lines);
    RegularWidth(lines);
    var rows := ShownRows(b);
    forall y | 0 <= y < |lines| ensures rows[y] == lines[y] {
      forall x | 0 <= x < |lines[y]| ensures rows[y][x] == lines[y][x] {
        ParsedCell(lines, Coord(x, y));
      }
    }
    assert rows == lines;
  }

  // ------------------------------------------------------------------ routes

  /** The `k`-th coordinate of the route with the given step. */
  function RouteAt(step: Coord, k: nat): Coord {
    Coord(k * step.x, k * step.y)
  }

  /** How many coordinates a route with vertical step `sy` visits in a grid of height `h`. */
  function RouteLen(h: nat, sy: nat): nat
    requires sy >= 1
    decreases h
  {
    if h == 0 then 0 else 1 + RouteLen(if h >= sy then h - sy else 0, sy)
  }

  /** The route visits step `k` exactly when that step's row is inside the grid. */
  lemma {:induction false} RouteSpan(h: nat, sy: nat, k: nat)
    requires sy >= 1
    ensures k < RouteLen(h, sy) <==> k * sy < h
    decreases h
  {
    if h > 0 && k > 0 {
      MulPred(k, sy);
      RouteSpan(if h >= sy then h - sy else 0, sy, k - 1);
    }
  }

  /** The route length is the height divided by the step, rounded up. */
  lemma {:induction false} RouteLenCeil(h: nat, sy: nat)
    requires sy >= 1
    ensures RouteLen(h, sy) == (h + sy - 1) / sy
    decreases h
  {
    if h == 0 {
      DivModUnique(sy - 1, sy, 0, sy - 1);
    } else if h >= sy {
      RouteLenCeil(h - sy, sy);
      var q, r := (h - 1) / sy, (h - 1) % sy;
      DivModUnique(h - 1, sy, q, r);
      DivModUnique(h + sy - 1, sy, q + 1, r);
    } else {
      DivModUnique(h + sy - 1, sy, 1, h - 1);
    }
  }

  /** `Route`: a walk from (0, 0) by a fixed step, for as long as its row is inside the grid. */
  class Route {
    const size: Coord
    const step: Coord
    var coord: Coord
    ghost var k: nat

    ghost predicate Valid()
      reads this
    {
      coord == RouteAt(step, k)
    }

    constructor (size: Coord, step: Coord)
      ensures this.size == size && this.step == step
      ensures Valid() && k == 0
    {
      this.size := size;
      this.step := step;
      coord := Coord(0, 0);
      k := 0;
    }

    /** `Iterator for Route`: the current coordinate while its row is inside the grid, after that nothing, for good. */
    method Next() returns (r: Option<Coord>)
      requires Valid()
      modifies this`coord, this`k
      ensures Valid()
      ensures old(coord).y < size.y ==> r == Some(RouteAt(step, old(k))) && k == old(k) + 1
      ensures old(coord).y < size.y ==> coord.y == old(coord).y + step.y
      ensures old(coord).y >= size.y ==> r == None && k == old(k)
    {
      if coord.y < size.y {
        r := Some(coord);
        MulPred(k + 1, step.x);
        MulPred(k + 1, step.y);
        coord := Coord(coord.x + step.x, coord.y + step.y);
        k := k + 1;
      } else {
        r := None;
      }
    }
  }

  /** A route can be walked on `b` without a panic: no rows, or a width to wrap around and a step down. */
  predicate Walkable(b: Board, step: Coord) {
    b.Valid() && (b.size.y == 0 || (b.size.x >= 1 && step.y >= 1))
  }

  function HitAt(b: Board, step: Coord, k: nat): nat
    requires b.Valid() && b.size.x >= 1 && k * step.y < b.size.y
  {
    if Cell(b, RouteAt(step, k)) == Tree then 1 else 0
  }

  /** The trees among the first `n` coordinates of the route. */
  function TreesUpTo(b: Board, step: Coord, n: nat): (t: nat)
    requires b.Valid() && b.size.x >= 1 && step.y >= 1 && n <= RouteLen(b.size.y, step.y)
    ensures t <= n
  {
    if n == 0 then 0
    else
      RouteSpan(b.size.y, step.y, n - 1);
      TreesUpTo(b, step, n - 1) + HitAt(b, step, n - 1)
  }

  /** `route(step).filter(|t| t == Tree).count()`. */
  function TreesOnRoute(b: Board, step: Coord): (t: nat)
    requires Walkable(b, step)
    ensures b.size.y >= 1 ==> t <= RouteLen(b.size.y, step.y)
    ensures b.size.y == 0 ==> t == 0
  {
    if b.size.y == 0 then 0 else TreesUpTo(b, step, RouteLen(b.size.y, step.y))
  }

  /** The count `n` covers the first `k` coordinates of the route, all inside the grid. */
  ghost predicate Counted(b: Board, step: Coord, k: nat, n: nat) {
    && Walkable(b, step)
    && (b.size.y >= 1 ==> k <= RouteLen(b.size.y, step.y) && n == TreesUpTo(b, step, k))
    && (b.size.y == 0 ==> n == 0)
  }

  /** Coordinate `k` is inside the grid: counting it extends the count by one coordinate. */
  lemma CountedStep(b: Board, step: Coord, k: nat, n: nat)
    requires Counted(b, step, k, n) && RouteAt(step, k).y < b.size.y
    ensures b.size.x >= 1 && k * step.y < b.size.y
    ensures Counted(b, step, k + 1, n + (if Cell(b, RouteAt(step, k)) == Tree then 1 else 0))
  {
    RouteSpan(b.size.y, step.y, k);
  }

  /** Coordinate `k` is past the last row: the count is the route's. */
  lemma CountedDone(b: Board, step: Coord, k: nat, n: nat)
    requires Counted(b, step, k, n) && RouteAt(step, k).y >= b.size.y
    ensures n == TreesOnRoute(b, step)
  {
    if b.size.y >= 1 {
      RouteSpan(b.size.y, step.y, k);
    }
  }

  /** Counting the trees by driving a `Route` and looking each coordinate up with `get`. */
  method CountTrees(grid: Grid, step: Coord) returns (n: nat)
    requires grid.Valid() && Walkable(grid.Value(), step)
    ensures n == TreesOnRoute(grid.Value(), step)
  {
    ghost var b := grid.Value();
    var route := new Route(grid.size, step);
    n := 0;
    while true
      invariant route.size == grid.size && route.step == step && route.Valid()
      invariant Counted(b, step, route.k, n)
      decreases if route.coord.y < grid.size.y then grid.size.y - route.coord.y else 0
    {
      ghost var k := route.k;
      var c := route.Next();
      if c.None? {
        CountedDone(b, step, k, n);
        break;
      }
      CountedStep(b, step, k, n);
      var tile := grid.Get(c.value);
      if tile == Tree {
        n := n + 1;
      }
    }
  }

  /** The slopes `main` walks, as (right, down). */
  const Slopes: seq<Coord> := [Coord(1, 1), Coord(3, 1), Coord(5, 1), Coord(7, 1), Coord(1, 2)]

  /** `fold(1, |acc, hs| acc * hs)`: zero exactly when some count is zero. */
  function Product(hits: seq<nat>): (p: nat)
    ensures p == 0 <==> exists i :: 0 <= i < |hits| && hits[i] == 0
  {
    if hits == [] then 1 else Product(hits[..|hits| - 1]) * hits[|hits| - 1]
  }

  lemma ProductSnoc(hits: seq<nat>, n: nat)
    ensures Product(hits + [n]) == Product(hits) * n
  {
    assert (hits + [n])[..|hits|] == hits;
  }

  /** The tree count on each of `main`'s slopes, in order. */
  function SlopeHits(b: Board): (hits: seq<nat>)
    requires b.Valid() && (b.size.y == 0 || b.size.x >= 1)
    ensures |hits| == |Slopes|
    ensures forall i :: 0 <= i < |hits| ==> hits[i] <= RouteLen(b.size.y, Slopes[i].y)
    ensures b.size.y == 0 ==> Product(hits) == 0
  {
    seq(|Slopes|, i requires 0 <= i < |Slopes| => TreesOnRoute(b, Slopes[i]))
  }

  /** `main`'s tally: count the trees on each slope in turn and fold the counts into a product from 1. */
  method Tally(grid: Grid) returns (hits: seq<nat>, product: nat)
    requires grid.Valid() && (grid.size.y == 0 || grid.size.x >= 1)
    ensures hits == SlopeHits(grid.Value())
    ensures product == Product(hits)
  {
    ghost var b := grid.Value();
    hits, product := [], 1;
    for i := 0 to |Slopes|
      invariant hits == SlopeHits(b)[..i]
      invariant product == Product(hits)
    {
      var n := CountTrees(grid, Slopes[i]);
      SlopeHitsSnoc(b, i);
      ProductSnoc(hits, n);
      hits, product := hits + [n], product * n;
    }
    assert hits == SlopeHits(b)[..|Slopes|];
  }

  lemma SlopeHitsSnoc(b: Board, i: nat)
    requires b.Valid() && (b.size.y == 0 || b.size.x >= 1) && i < |Slopes|
    ensures SlopeHits(b)[..i] + [TreesOnRoute(b, Slopes[i])] == SlopeHits(b)[..i + 1]
  {
  }
}
