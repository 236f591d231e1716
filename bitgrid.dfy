/**
 * The bit-packed grid of `src/bin/day3.rs` (whose grid, parser and path
 * generator `benches/d3bitset.rs` repeats unchanged): rows of `.`/`#`
 * packed one bit per cell, row `i` at bits `[i * stride, (i + 1) * stride)`,
 * in a vector of 256-bit lanes that grows ahead of each row; its parser and
 * its strided rendering.
 */
module BitGrid {

  import opened Wrappers
  import opened Text
  import opened Arith
  import opened BitSet

  /** `BITS_PER_LANE`: a lane is `[u64; 4]`. */
  const LaneBits: nat := 256

  /** The two ways `parse_line` fails; the message text is not modelled. */
  datatype ParseError =
    | Irregular(length: nat, stride: nat)
    | InvalidChar(c: char)

  predicate ValidChar(c: char) {
    c == '.' || c == '#'
  }

  /** The bits one line stands for: `#` is set, everything else is clear. */
  function RowBits(line: string): seq<bool> {
    seq(|line|, j requires 0 <= j < |line| => line[j] == '#')
  }

  function RowsOf(lines: seq<string>): seq<seq<bool>> {
    seq(|lines|, i requires 0 <= i < |lines| => RowBits(lines[i]))
  }

  /** The position of the first character that is neither `.` nor `#`, or `|line|`. */
  function FirstInvalid(line: string): (i: nat)
    ensures i <= |line|
    ensures forall j :: 0 <= j < i ==> ValidChar(line[j])
    ensures i < |line| ==> !ValidChar(line[i])
  {
    if line == [] || !ValidChar(line[0]) then 0 else 1 + FirstInvalid(line[1..])
  }

  /**
   * What `parse_line` reports for one line: first the byte length against
   * the stride, then the first bad character.
   */
  function LineError(line: string, stride: nat): Option<ParseError> {
    if ByteLen(line) != stride then Some(Irregular(ByteLen(line), stride))
    else
      var i := FirstInvalid(line);
      if i < |line| then Some(InvalidChar(line[i])) else None
  }

  /** A line `parse_line` accepts: `stride` characters, each `.` or `#`. */
  predicate RowLine(line: string, stride: nat) {
    |line| == stride && forall j :: 0 <= j < |line| ==> ValidChar(line[j])
  }

  /** `parse_line` accepts exactly the lines of `stride` dots and hashes. */
  lemma LineErrorNone(line: string, stride: nat)
    ensures LineError(line, stride).None? <==> RowLine(line, stride)
  {
    ByteLenAscii(line);
    if forall j :: 0 <= j < |line| ==> ValidChar(line[j]) {
      assert IsAscii(line);
    }
  }

  /** The error of the first line, in input order, that `parse_line` rejects. */
  function ScanErrors(lines: seq<string>, stride: nat): Option<ParseError> {
    if lines == [] then None
    else if LineError(lines[0], stride).Some? then LineError(lines[0], stride)
    else ScanErrors(lines[1..], stride)
  }

  /** No line fails exactly when every line is a row of `stride` dots and hashes. */
  lemma {:induction false} ScanErrorsNone(lines: seq<string>, stride: nat)
    ensures ScanErrors(lines, stride).None? <==> forall i :: 0 <= i < |lines| ==> RowLine(lines[i], stride)
  {
    if lines != [] {
      ScanErrorsNone(lines[1..], stride);
      LineErrorNone(lines[0], stride);
      if forall i :: 0 <= i < |lines| ==> RowLine(lines[i], stride) {
        assert forall i :: 0 <= i < |lines| - 1 ==> lines[1..][i] == lines[i + 1];
      } else if ScanErrors(lines, stride).None? {
        forall i | 0 <= i < |lines| ensures RowLine(lines[i], stride) {
          if i > 0 {
            assert lines[i] == lines[1..][i - 1];
          }
        }
      }
    }
  }

  /** The stride `from_str` takes: the byte length of the first line, or 0 without lines. */
  function Stride(lines: seq<string>): nat {
    if lines == [] then 0 else ByteLen(lines[0])
  }

  /** The error `Grid::from_str` returns for these lines, if any. */
  function ParseFailure(lines: seq<string>): Option<ParseError> {
    ScanErrors(lines, Stride(lines))
  }

  /** Lines `from_str` accepts: each one a row of `.`/`#` as long as the first. */
  predicate WellFormed(lines: seq<string>) {
    forall i :: 0 <= i < |lines| ==> RowLine(lines[i], Stride(lines))
  }

  /** `from_str` fails exactly on the lines that are not well formed. */
  lemma ParseFailureNone(lines: seq<string>)
    ensures ParseFailure(lines).None? <==> WellFormed(lines)
  {
    ScanErrorsNone(lines, Stride(lines));
  }

  /**
   * The bits in the whole lanes that hold the first `end` bits: `end`
   * rounded up to a multiple of `LaneBits`, lane by lane.
   */
  function LaneSpan(end: nat): nat {
    if end == 0 then 0 else if end <= LaneBits then LaneBits else LaneBits + LaneSpan(end - LaneBits)
  }

  /** `LaneSpan` is the resize of `next_row`: `1 + (end - 1) / BITS_PER_LANE` lanes. */
  lemma {:induction false} LaneSpanFormula(end: nat)
    requires end >= 1
    ensures LaneSpan(end) == LaneBits * (1 + (end - 1) / LaneBits)
  {
    if end <= LaneBits {
      DivModUnique(end - 1, LaneBits, 0, end - 1);
    } else {
      LaneSpanFormula(end - LaneBits);
      var q := (end - LaneBits - 1) / LaneBits;
      var r := (end - LaneBits - 1) % LaneBits;
      assert end - 1 == (q + 1) * LaneBits + r;
      DivModUnique(end - 1, LaneBits, q + 1, r);
    }
  }

  /** The span covers `end`, by less than a lane, and is a whole number of lanes. */
  lemma {:induction false} LaneSpanBounds(end: nat)
    ensures end <= LaneSpan(end) < end + LaneBits
    ensures end >= 1 ==> LaneBits <= LaneSpan(end)
    ensures LaneSpan(LaneSpan(end)) == LaneSpan(end)
  {
    if end > LaneBits {
      LaneSpanBounds(end - LaneBits);
      assert LaneSpan(end) - LaneBits == LaneSpan(end - LaneBits);
    }
  }

  lemma {:induction false} LaneSpanMono(a: nat, b: nat)
    requires a <= b
    ensures LaneSpan(a) <= LaneSpan(b)
  {
    if a > LaneBits {
      LaneSpanMono(a - LaneBits, b - LaneBits);
    } else if a > 0 {
      LaneSpanBounds(b);
    }
  }

  /** The number of bits a grid of `h` rows of `w` bits ends up with. */
  function ImageSpan(w: nat, h: nat): nat {
    if h == 0 || w == 0 then LaneBits else LaneSpan(w * h + w)
  }

  lemma ImageSpanBounds(w: nat, h: nat)
    ensures w * h <= ImageSpan(w, h) && LaneBits <= ImageSpan(w, h)
    ensures LaneSpan(ImageSpan(w, h)) == ImageSpan(w, h)
    ensures w >= 1 && h >= 1 ==> ImageSpan(w, h) == LaneSpan(w * h + w)
  {
    LaneSpanBounds(w * h + w);
  }

  /** The lanes of a parsed grid: the rows back to back, then clear padding. */
  function Image(lines: seq<string>): (bits: seq<bool>)
    requires WellFormed(lines)
    ensures Stride(lines) * |lines| <= |bits|
  {
    var w := Stride(lines);
    WellFormedRows(lines);
    FlattenLength(RowsOf(lines), w);
    ImageSpanBounds(w, |lines|);
    MulComm(|lines|, w);
    Flatten(RowsOf(lines)) + Zeros(ImageSpan(w, |lines|) - w * |lines|)
  }

  lemma WellFormedRows(lines: seq<string>)
    requires WellFormed(lines)
    ensures AllOfLength(RowsOf(lines), Stride(lines))
    ensures forall i :: 0 <= i < |lines| ==> |lines[i]| == Stride(lines)
  {
  }

  /**
   * A parsed grid holds exactly the input: the bit of row `i`, column `j`
   * sits at `i * stride + j` and is set iff that character is `#`.
   */
  lemma ImageCell(lines: seq<string>, i: nat, j: nat)
    requires WellFormed(lines) && i < |lines| && j < Stride(lines)
    ensures i * Stride(lines) + j < |lines| * Stride(lines) <= |Image(lines)|
    ensures Image(lines)[i * Stride(lines) + j] <==> lines[i][j] == '#'
  {
    var w := Stride(lines);
    WellFormedRows(lines);
    FlattenAt(RowsOf(lines), w, i, j);
  }

  /** In front of the padding the lanes hold the rows. */
  lemma ImageRows(lines: seq<string>)
    requires WellFormed(lines)
    ensures Image(lines)[..Stride(lines) * |lines|] == Flatten(RowsOf(lines))
  {
    WellFormedRows(lines);
    FlattenLength(RowsOf(lines), Stride(lines));
  }

  /** Past the rows the lanes are clear. */
  lemma ImagePadding(lines: seq<string>, k: nat)
    requires WellFormed(lines) && |lines| * Stride(lines) <= k < |Image(lines)|
    ensures !Image(lines)[k]
  {
    WellFormedRows(lines);
    FlattenLength(RowsOf(lines), Stride(lines));
  }

  ghost predicate LanesValid(bits: seq<bool>, stride: nat, cursor: nat) {
    && LaneSpan(|bits|) == |bits|
    && LaneBits <= |bits|
    && cursor <= |bits|
    && (forall k :: cursor <= k < |bits| ==> !bits[k])
    && (stride >= 1 ==> |bits| <= LaneSpan(cursor + 2 * stride))
  }

  /** The grid of `day3.rs`: lanes flattened into `bits`, `stride` bits per row, `cursor` the end of the last row. */
  class Grid {
    var bits: seq<bool>
    var stride: nat
    var cursor: nat

    /**
     * The lanes are whole, hold every row written so far, are clear past
     * `cursor`, and are no longer than the next `next_row` resizes them to.
     */
    ghost predicate Valid()
      reads this
    {
      LanesValid(bits, stride, cursor)
    }

    /** `Grid::len`: the number of lanes. */
    function Len(): (n: nat)
      reads this
      requires Valid()
      ensures n >= 1 && LaneBits * n == |bits|
    {
      LaneSpanFormula(|bits|);
      DivModUnique(|bits|, LaneBits, 1 + (|bits| - 1) / LaneBits, 0);
      |bits| / LaneBits
    }

    /** `Grid::new`: one clear lane, no rows yet. */
    constructor (stride: nat)
      ensures Valid()
      ensures this.stride == stride && cursor == 0 && bits == Zeros(LaneBits)
    {
      bits := Zeros(LaneBits);
      this.stride := stride;
      cursor := 0;
    }

    /**
     * `Grid::next_row`: hands out the row at the old cursor, moves the cursor
     * on by one stride and resizes the lanes so that they reach the end of the
     * row after it. The resize never shrinks and adds clear lanes only.
     */
    method NextRow() returns (row: GridRow)
      requires Valid() && stride >= 1
      modifies this`bits, this`cursor
      ensures Valid() && stride == old(stride)
      ensures cursor == old(cursor) + stride && cursor + stride <= |bits|
      ensures |bits| == LaneSpan(cursor + stride)
      ensures bits == old(bits) + Zeros(|bits| - old(|bits|))
      ensures fresh(row) && row.grid == this && row.offset == old(cursor) && row.stride == stride
    {
      var offset := cursor;
      Grow(bits, stride, cursor);
      cursor := cursor + stride;
      LaneSpanFormula(cursor + stride);
      bits := Resize(bits, LaneBits * (1 + (cursor + stride - 1) / LaneBits));
      row := new GridRow(this, offset, stride);
    }
  }

  /** The resize of `next_row` only adds clear lanes, and keeps the lanes valid for the moved cursor. */
  lemma Grow(bits: seq<bool>, stride: nat, cursor: nat)
    requires LanesValid(bits, stride, cursor) && stride >= 1
    ensures |bits| <= LaneSpan(cursor + 2 * stride)
    ensures cursor + 2 * stride <= LaneSpan(cursor + 2 * stride)
    ensures LanesValid(Resize(bits, LaneSpan(cursor + 2 * stride)), stride, cursor + stride)
  {
    var c2 := cursor + stride;
    LaneSpanBounds(c2 + stride);
    LaneSpanMono(c2 + stride, c2 + 2 * stride);
    var r := Resize(bits, LaneSpan(c2 + stride));
    assert r == bits + Zeros(|r| - |bits|);
  }

  /** `Vec::resize` with clear lanes: truncate, or pad with clear bits. */
  function Resize(bits: seq<bool>, n: nat): (r: seq<bool>)
    ensures |r| == n
    ensures n >= |bits| ==> r == bits + Zeros(n - |bits|)
    ensures n < |bits| ==> r == bits[..n]
  {
    if n <= |bits| then bits[..n] else bits + Zeros(n - |bits|)
  }

  /** `GridRow`: a window of `stride` bits at `offset` into the lanes of `grid`. */
  class GridRow {
    const grid: Grid
    const offset: nat
    const stride: nat

    constructor (grid: Grid, offset: nat, stride: nat)
      ensures this.grid == grid && this.offset == offset && this.stride == stride
    {
      this.grid := grid;
      this.offset := offset;
      this.stride := stride;
    }

    /** `GridRow::bit_set`: sets bit `bit` of this row and nothing else. */
    method BitSet(bit: nat)
      requires offset + bit < |grid.bits|
      modifies grid`bits
      ensures grid.bits == old(grid.bits)[offset + bit := true]
    {
      grid.bits := grid.bits[offset + bit := true];
    }
  }

  /** The lanes after writing `line` as a row at `offset`: every `#` sets its bit, the rest stay as they were. */
  function Overlay(bits: seq<bool>, offset: nat, line: string): (r: seq<bool>)
    ensures |r| == |bits|
  {
    seq(|bits|, k requires 0 <= k < |bits| => bits[k] || (offset <= k < offset + |line| && line[k - offset] == '#'))
  }

  /**
   * `parse_line`: rejects a line whose byte length is not the stride, then
   * walks its characters, setting the row's bit for every `#` and stopping at
   * the first character that is neither `.` nor `#`. On success exactly the
   * row's `#` bits have been set.
   */
  method ParseLine(line: string, row: GridRow) returns (r: Result<(), ParseError>)
    requires row.offset + row.stride <= |row.grid.bits|
    modifies row.grid`bits
    ensures r.Err? <==> LineError(line, row.stride).Some?
    ensures r.Err? ==> r.error == LineError(line, row.stride).value
    ensures r.Ok? ==> RowLine(line, row.stride)
    ensures r.Ok? ==> row.grid.bits == Overlay(old(row.grid.bits), row.offset, line)
  {
    LineErrorNone(line, row.stride);
    var length := ByteLen(line);
    var stride := row.stride;
    if length != stride {
      return Err(Irregular(length, stride));
    }
    ghost var orig := row.grid.bits;
    var idx := 0;
    while idx < stride && idx < |line|
      invariant idx <= stride && idx <= |line|
      invariant forall j :: 0 <= j < idx ==> ValidChar(line[j])
      invariant row.grid.bits == Overlay(orig, row.offset, line[..idx])
    {
      var c := line[idx];
      if c == '.' {
      } else if c == '#' {
        row.BitSet(idx);
      } else {
        return Err(InvalidChar(c));
      }
      assert row.grid.bits == Overlay(orig, row.offset, line[..idx + 1]);
      idx := idx + 1;
    }
    assert line[..idx] == line;
    return Ok(());
  }

  /**
   * `Grid::from_str`: the stride is the first line's byte length and every
   * line is parsed into a fresh row, in order; the first failing line's error
   * is returned and no grid. No lines give `Grid::new(0)`. A first line that is
   * empty makes `next_row` subtract one from a zero sum, so it is excluded.
   */
  method Parse(s: string) returns (r: Result<Grid, ParseError>)
    requires Lines(s) != [] ==> ByteLen(Lines(s)[0]) >= 1
    ensures r.Err? <==> ParseFailure(Lines(s)).Some?
    ensures r.Err? ==> r.error == ParseFailure(Lines(s)).value
    ensures r.Ok? ==> fresh(r.value) && r.value.Valid()
    ensures r.Ok? ==> r.value.stride == Stride(Lines(s)) && r.value.cursor == Stride(Lines(s)) * |Lines(s)|
    ensures r.Ok? ==> WellFormed(Lines(s)) && r.value.bits == Image(Lines(s))
  {
    var lines := Lines(s);
    if lines == [] {
      var grid := new Grid(0);
      assert Flatten(RowsOf(lines)) == [];
      return Ok(grid);
    }
    var stride := ByteLen(lines[0]);
    var grid := new Grid(stride);
    assert Flatten(RowsOf(lines[..0])) + grid.bits == grid.bits;
    var res := ParseRow(grid, lines[0], lines, 0);
    if res.Err? {
      ScanFrom(lines, stride, 0);
      return Err(res.error);
    }
    var i := 1;
    while i < |lines|
      invariant 1 <= i <= |lines|
      invariant fresh(grid)
      invariant grid.Valid() && grid.stride == stride && Sized(grid.bits, grid.cursor, stride, lines, i)
    {
      res := ParseRow(grid, lines[i], lines, i);
      if res.Err? {
        ScanFrom(lines, stride, i);
        return Err(res.error);
      }
      i := i + 1;
    }
    ParseFailureNone(lines);
    ImageOf(lines, grid.bits, grid.cursor);
    return Ok(grid);
  }

  /**
   * The lanes after `n` turns of `from_str`: rows `..n` passed and sit in
   * order in front of the cursor, with clear bits behind it.
   */
  ghost predicate Loaded(bits: seq<bool>, cursor: nat, stride: nat, lines: seq<string>, n: nat) {
    && n <= |lines| && cursor == stride * n && cursor <= |bits|
    && (forall j :: 0 <= j < n ==> RowLine(lines[j], stride))
    && bits == Flatten(RowsOf(lines[..n])) + Zeros(|bits| - cursor)
  }

  /** `Loaded`, with the lanes sized by the last `next_row` to reach one row past the cursor. */
  ghost predicate Sized(bits: seq<bool>, cursor: nat, stride: nat, lines: seq<string>, n: nat) {
    Loaded(bits, cursor, stride, lines, n) && |bits| == LaneSpan(cursor + stride)
  }

  /** Lanes holding every row, sized by the last `next_row`, are the image of the lines. */
  lemma ImageOf(lines: seq<string>, bits: seq<bool>, cursor: nat)
    requires Stride(lines) >= 1 && |lines| >= 1
    requires Sized(bits, cursor, Stride(lines), lines, |lines|)
    ensures WellFormed(lines) && bits == Image(lines)
  {
    var w, h := Stride(lines), |lines|;
    assert lines[..h] == lines;
    ImageSpanBounds(w, h);
    assert Image(lines) == Flatten(RowsOf(lines)) + Zeros(|bits| - w * h);
  }

  /**
   * `parse_line(line, grid.next_row())`, the step `from_str` takes per line:
   * with rows `..i` already in the lanes, line `i` is either rejected with
   * its error or becomes row `i`, behind which the lanes stay clear.
   */
  method ParseRow(grid: Grid, line: string, ghost lines: seq<string>, ghost i: nat) returns (r: Result<(), ParseError>)
    requires grid.Valid() && grid.stride >= 1
    requires i < |lines| && line == lines[i] && Loaded(grid.bits, grid.cursor, grid.stride, lines, i)
    modifies grid`bits, grid`cursor
    ensures grid.stride == old(grid.stride)
    ensures r.Err? <==> LineError(line, grid.stride).Some?
    ensures r.Err? ==> r.error == LineError(line, grid.stride).value
    ensures r.Ok? ==> RowLine(line, grid.stride)
    ensures r.Ok? ==> grid.Valid() && Sized(grid.bits, grid.cursor, grid.stride, lines, i + 1)
  {
    ghost var before := grid.bits;
    var row := grid.NextRow();
    ghost var grown := grid.bits;
    r := ParseLine(line, row);
    if r.Ok? {
      MulSucc(grid.stride, i);
      RowStep(lines, i, grid.stride, before, grown, grid.bits);
    }
  }

  /**
   * One turn of `from_str`: the lanes that held rows `..i` and clear bits,
   * resized by `next_row` and overwritten by `parse_line` with row `i`, hold
   * rows `..i + 1` and clear bits, and are valid for the moved cursor.
   */
  lemma RowStep(lines: seq<string>, i: nat, stride: nat, before: seq<bool>, grown: seq<bool>, filled: seq<bool>)
    requires stride >= 1 && i < |lines| && RowLine(lines[i], stride)
    requires stride * i <= |before| <= |grown|
    requires before == Flatten(RowsOf(lines[..i])) + Zeros(|before| - stride * i)
    requires grown == before + Zeros(|grown| - |before|)
    requires |grown| == LaneSpan(stride * i + stride + stride)
    requires filled == Overlay(grown, stride * i, lines[i])
    ensures stride * (i + 1) <= |filled|
    ensures filled == Flatten(RowsOf(lines[..i + 1])) + Zeros(|filled| - stride * (i + 1))
    ensures LanesValid(filled, stride, stride * (i + 1))
  {
    var c := stride * i;
    assert stride * (i + 1) == c + stride;
    LaneSpanBounds(c + stride + stride);
    LaneSpanMono(c + stride + stride, c + stride + 2 * stride);
    assert grown[..c] == Flatten(RowsOf(lines[..i]));
    FillRow(lines, i, stride, grown, filled);
  }

  /** The first error of the lines from `i` on is the first error overall when the lines before `i` pass. */
  lemma {:induction false} ScanFrom(lines: seq<string>, stride: nat, i: nat)
    requires i < |lines|
    requires forall j :: 0 <= j < i ==> RowLine(lines[j], stride)
    requires LineError(lines[i], stride).Some?
    ensures ScanErrors(lines, stride) == LineError(lines[i], stride)
  {
    if i > 0 {
      LineErrorNone(lines[0], stride);
      assert forall j :: 0 <= j < i - 1 ==> lines[1..][j] == lines[j + 1];
      ScanFrom(lines[1..], stride, i - 1);
    }
  }

  /**
   * Writing line `i` into freshly resized lanes gives the first `i + 1` rows
   * followed by clear bits.
   */
  lemma FillRow(lines: seq<string>, i: nat, stride: nat, grown: seq<bool>, filled: seq<bool>)
    requires i < |lines| && RowLine(lines[i], stride)
    requires stride * i + stride <= |grown| == |filled|
    requires grown[..stride * i] == Flatten(RowsOf(lines[..i]))
    requires forall k :: stride * i <= k < |grown| ==> !grown[k]
    requires filled == Overlay(grown, stride * i, lines[i])
    ensures filled == Flatten(RowsOf(lines[..i + 1])) + Zeros(|filled| - stride * (i + 1))
    ensures forall k :: stride * (i + 1) <= k < |filled| ==> !filled[k]
  {
    var c := stride * i;
    MulSucc(stride, i);
    assert lines[..i + 1][..i] == lines[..i] && lines[..i + 1][i] == lines[i];
    FlattenRowsSnoc(lines[..i + 1]);
    OverlayRow(grown, c, lines[i]);
  }

  /** Overlaying a row of `.` and `#` on clear bits at the end of the rows appends the row. */
  lemma OverlayRow(grown: seq<bool>, c: nat, line: string)
    requires c + |line| <= |grown| && forall k :: c <= k < |grown| ==> !grown[k]
    ensures Overlay(grown, c, line) == grown[..c] + RowBits(line) + Zeros(|grown| - (c + |line|))
  {
    var filled := Overlay(grown, c, line);
    var want := grown[..c] + RowBits(line) + Zeros(|grown| - (c + |line|));
    forall k | 0 <= k < |filled|
      ensures filled[k] == want[k]
    {
      if k < c {
        assert want[k] == grown[k];
      } else if k < c + |line| {
        assert want[k] == RowBits(line)[k - c];
      } else {
        assert want[k] == false;
      }
    }
  }

  /** The characters `StridedFmt` writes for bits: `#` for set, `.` for clear. */
  function BitChars(bits: seq<bool>): (s: string)
    ensures |s| == |bits|
  {
    seq(|bits|, i requires 0 <= i < |bits| => if bits[i] then '#' else '.')
  }

  /**
   * What `StridedFmt::fmt` writes: one character per bit, and a line feed
   * before every bit at a positive multiple of the stride. With stride 0 the
   * remainder of the second bit is a division by zero, hence the requirement.
   */
  function Strided(bits: seq<bool>, stride: nat): string
    requires stride >= 1 || |bits| <= 1
  {
    if bits == [] then []
    else
      var n := |bits| - 1;
      Strided(bits[..n], stride) + (if n > 0 && n % stride == 0 then "\n" else "") + [if bits[n] then '#' else '.']
  }

  /** `StridedFmt::fmt`, one bit per iteration. */
  method Render(bits: seq<bool>, stride: nat) returns (s: string)
    requires stride >= 1 || |bits| <= 1
    ensures s == Strided(bits, stride)
  {
    s := [];
    for bit := 0 to |bits|
      invariant s == Strided(bits[..bit], stride)
    {
      if bit > 0 && bit % stride == 0 {
        s := s + "\n";
      }
      s := s + [if bits[bit] then '#' else '.'];
      assert bits[..bit + 1][..bit] == bits[..bit];
    }
    assert bits[..|bits|] == bits;
  }

  /** Every bit gives one character, and there is a line feed per positive multiple of the stride. */
  lemma {:induction false} StridedLength(bits: seq<bool>, stride: nat)
    requires stride >= 1 && |bits| >= 1
    ensures |Strided(bits, stride)| == |bits| + (|bits| - 1) / stride
  {
    var n := |bits| - 1;
    if n > 0 {
      StridedLength(bits[..n], stride);
      DivStep(n, stride);
    }
  }

  /** Dropping the line feeds leaves one `#` or `.` per bit. */
  lemma {:induction false} StridedChars(bits: seq<bool>, stride: nat)
    requires stride >= 1 || |bits| <= 1
    ensures NoLineFeeds(Strided(bits, stride)) == BitChars(bits)
  {
    if bits != [] {
      var n := |bits| - 1;
      StridedChars(bits[..n], stride);
      var sep: string := if n > 0 && n % stride == 0 then "\n" else "";
      DropSeparator(Strided(bits[..n], stride), sep, if bits[n] then '#' else '.');
      BitCharsSnoc(bits);
    }
  }

  /** A separating line feed, if any, disappears and a plain character stays. */
  lemma DropSeparator(init: string, sep: string, c: char)
    requires sep == "" || sep == "\n"
    requires c != '\n'
    ensures NoLineFeeds(init + sep + [c]) == NoLineFeeds(init) + [c]
  {
    NoLineFeedsAppend(init + sep, [c]);
    NoLineFeedsAppend(init, sep);
    assert NoLineFeeds(sep) == [] by {
      if sep != [] {
        assert sep[..0] == [];
      }
    }
    assert NoLineFeeds([c]) == [c] by {
      assert [c][..0] == [];
    }
  }

  lemma BitCharsSnoc(bits: seq<bool>)
    requires bits != []
    ensures BitChars(bits) == BitChars(bits[..|bits| - 1]) + [if bits[|bits| - 1] then '#' else '.']
  {
    var n := |bits| - 1;
    var rhs := BitChars(bits[..n]) + [if bits[n] then '#' else '.'];
    forall i | 0 <= i < |bits|
      ensures BitChars(bits)[i] == rhs[i]
    {
    }
  }

  function NoLineFeeds(s: string): string {
    if s == [] then [] else NoLineFeeds(s[..|s| - 1]) + (if s[|s| - 1] == '\n' then [] else [s[|s| - 1]])
  }

  lemma {:induction false} NoLineFeedsAppend(a: string, b: string)
    ensures NoLineFeeds(a + b) == NoLineFeeds(a) + NoLineFeeds(b)
  {
    if b == [] {
      assert a + b == a;
    } else {
      var n := |b| - 1;
      assert (a + b)[..|a + b| - 1] == a + b[..n];
      NoLineFeedsAppend(a, b[..n]);
    }
  }

  /**
   * Rendering the rows of a parsed grid, without its padding, gives the input
   * lines joined by line feeds, so reading them back gives the same lines and
   * hence the same grid. The padding lanes are not part of this: they render
   * as further rows of `.`.
   */
  lemma RenderRoundTrip(lines: seq<string>)
    requires WellFormed(lines) && Stride(lines) >= 1
    ensures Strided(Image(lines)[..Stride(lines) * |lines|], Stride(lines)) == Joined(lines)
    ensures Lines(Strided(Image(lines)[..Stride(lines) * |lines|], Stride(lines))) == lines
  {
    var w := Stride(lines);
    ImageRows(lines);
    StridedRows(lines, w);
    forall i | 0 <= i < |lines|
      ensures PlainRow(lines[i])
    {
      RowPlain(lines[i], w);
    }
    LinesOfJoined(lines);
  }

  /** A row of `.` and `#` holds no line feed and no carriage return. */
  lemma RowPlain(line: string, w: nat)
    requires RowLine(line, w)
    ensures PlainRow(line)
  {
    assert forall j :: 0 <= j < |line| ==> ValidChar(line[j]);
  }

  /** A row of `.` and `#` reads back from its bits. */
  lemma RowChars(line: string, w: nat)
    requires RowLine(line, w)
    ensures BitChars(RowBits(line)) == line
  {
    forall j | 0 <= j < |line| ensures BitChars(RowBits(line))[j] == line[j] {
      assert ValidChar(line[j]);
    }
  }

  /** The bits of one more line follow the bits of the lines before it. */
  lemma FlattenRowsSnoc(lines: seq<string>)
    requires lines != []
    ensures Flatten(RowsOf(lines)) == Flatten(RowsOf(lines[..|lines| - 1])) + RowBits(lines[|lines| - 1])
  {
    assert RowsOf(lines)[..|lines| - 1] == RowsOf(lines[..|lines| - 1]);
  }

  /** Rows of `.` and `#` of one length render back to themselves. */
  lemma {:induction false} StridedRows(lines: seq<string>, w: nat)
    requires w >= 1 && forall i :: 0 <= i < |lines| ==> RowLine(lines[i], w)
    ensures |Flatten(RowsOf(lines))| == |lines| * w
    ensures Strided(Flatten(RowsOf(lines)), w) == Joined(lines)
  {
    FlattenLength(RowsOf(lines), w);
    if lines != [] {
      var n := |lines| - 1;
      var init, line := lines[..n], lines[n];
      StridedRows(init, w);
      var prev := Flatten(RowsOf(init));
      var row := RowBits(line);
      FlattenRowsSnoc(lines);
      DivModUnique(|prev|, w, n, 0);
      if n > 0 {
        MulAtLeast(n, w);
      }
      StridedAppendRow(prev, row, w, w);
      assert row[..w] == row;
      RowChars(line, w);
      assert Strided(Flatten(RowsOf(lines)), w) == Joined(init) + (if n > 0 then "\n" else "") + line;
    }
  }

  /**
   * Appending the first `m` bits of a row after whole rows writes a line
   * feed (unless there are no rows before) and then their characters.
   */
  lemma {:induction false} StridedAppendRow(prev: seq<bool>, row: seq<bool>, w: nat, m: nat)
    requires w >= 1 && |prev| % w == 0 && |row| == w && m <= w
    ensures Strided(prev + row[..m], w) == if m == 0 then Strided(prev, w)
      else Strided(prev, w) + (if |prev| > 0 then "\n" else "") + BitChars(row[..m])
    decreases m, 1
  {
    if m == 0 {
      assert prev + row[..m] == prev;
    } else if m == 1 {
      StridedAppendFirst(prev, row, w);
    } else {
      StridedAppendMore(prev, row, w, m);
    }
  }

  /** The first bit of a row: a line feed unless it is the first row, then its character. */
  lemma StridedAppendFirst(prev: seq<bool>, row: seq<bool>, w: nat)
    requires w >= 1 && |prev| % w == 0 && |row| == w
    ensures Strided(prev + row[..1], w) == Strided(prev, w) + (if |prev| > 0 then "\n" else "") + BitChars(row[..1])
  {
    var all := prev + row[..1];
    assert all[..|prev|] == prev && all[|prev|] == row[0];
    assert BitChars(row[..1]) == [if row[0] then '#' else '.'];
  }

  /** A later bit of a row: just its character. */
  lemma {:induction false} StridedAppendMore(prev: seq<bool>, row: seq<bool>, w: nat, m: nat)
    requires w >= 1 && |prev| % w == 0 && |row| == w && 2 <= m <= w
    ensures Strided(prev + row[..m], w) == Strided(prev, w) + (if |prev| > 0 then "\n" else "") + BitChars(row[..m])
    decreases m, 0
  {
    StridedAppendRow(prev, row, w, m - 1);
    var all := prev + row[..m];
    var n := |prev| + (m - 1);
    assert all[..n] == prev + row[..m - 1] && all[n] == row[m - 1];
    RowCol(|prev|, w);
    DivModUnique(n, w, |prev| / w, m - 1);
    assert row[..m][..m - 1] == row[..m - 1];
    BitCharsSnoc(row[..m]);
  }
}
