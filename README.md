# xmascode: days 1 to 3, modelled in Dafny

This project models the core of the Advent of Code 2020 solutions in the
Rust repository `xmascode`, and proves properties of that model:

- **Day 1** (`src/bin/day1.rs`): `find_n_sum` looks for `n` distinct members
  of a `BTreeSet<i64>` that add up to a target. It walks a double-ended
  iterator over the set in ascending order. A pair is found with a
  two-pointer scan. For more members it fixes each member in turn as the
  smallest and searches a clone of the iterator for the rest.
- **Day 2** (`src/bin/day2.rs`): a `peg` grammar reads lines of the form
  `1-3 a: abcde` into a policy and a password. A password is valid when
  exactly one of the two 1-based positions holds the policy's character.
  `main` counts the valid lines.
- **Day 3, bit-packed** (`src/bin/day3.rs`): the map is packed into 256-bit
  lanes, one bit per cell, with row `i` at bits `[i * stride, (i + 1) * stride)`.
  `Each` generates the lanes of a slope's path. `count_hits` ANDs those lanes
  with the grid's lanes and counts the set bits.
- **Day 3, plain** (`src/bin/day3alt.rs`): the map is a vector of `Tile`s
  read in two passes. `Route` walks coordinates by a fixed step, the column
  wrapping around the width. The trees on five slopes are counted and
  multiplied.
- **Benchmarks**: `benches/d3bitset.rs` and `benches/d3dumb.rs` repeat the two
  day 3 programs unchanged, without `main` and the `Display` impls. Each adds
  one timed counting expression (the bitset copy drops `count_hits` and
  inlines it). The shared code is modelled once. Each
  benchmark's expression is its own method in `Agreement`.

Modules: `Wrappers` (Option, Result), `Arith` (lemmas about `*`, `/`, `%`),
`Text` (`str::len` as UTF-8 bytes, `str::lines`, row-major flattening),
`BitSet` (bit count and AND on `seq<bool>`), `BitGrid` and `BitPath` (day 3
bit-packed), `TileGrid` (day 3 plain), `Agreement` (the two day 3 solvers
compared, plus the benchmark expressions), `NSum` (day 1) and `Passwords`
(day 2).

Design choices:

- **State that the source updates in place becomes classes.** These are the
  bit grid and its row handle, the `Each` and `Route` iterators, the tile grid
  over an `array<Tile>`, and the set iterator of day 1.
- **Every method is proved against a function.**
  - The bit grid's lanes are one flat `seq<bool>` whose length is a multiple
    of 256. It is specified by `Image`, a function of the input lines.
  - A lane from `Each` is specified by `OnPath`: some point of the walk
    `Walk` lands on that bit.
  - The tile grid is specified by the value `Board`.
  - `find_n_sum` is specified by the reference relation `Reach`: take the
    next member or skip it.
  - The day 2 parser is specified by its inverse, the line `Layout` built
    from a policy, blanks and a password.
- **Panics are modelled in two ways.** A panic the source can reach on
  malformed input is modelled as a `None` value. Those are the `unwrap` of
  the parse, and the `start() - 1` underflow in debug builds. The other
  panics (`%` by zero, a stride of zero) become preconditions, listed below.

## Model

| member | source | states |
|---|---|---|
| Text.ByteLenAscii | src/bin/day3.rs:130-132 | `len()` counts UTF-8 bytes. It equals the character count exactly when the line is ASCII. A line with a multi-byte character has more bytes than characters: it can still pass the byte-length check, and is then refused for that character. |
| Text.ByteLen | src/bin/day3.rs:130 | `str::len`: the UTF-8 byte length, between the character count and four times it. |
| Text.LinesAppend | src/bin/day3.rs:151 | `lines()` of text ending in a line feed, followed by more text, is the lines of the first part followed by the lines of the second. |
| Text.Lines | src/bin/day3.rs:151 | `str::lines`: no lines exactly for empty text, and no line contains a line feed. |
| Text.LinesOfRow | src/bin/day3.rs:151 | A row with no line feed and no final carriage return is one line, with or without a line feed after it. |
| Text.LinesOfTerminated | src/bin/day3alt.rs:97-106 | Text that writes each such row followed by a line feed splits back into exactly those rows. |
| Text.LinesOfJoined | src/bin/day3.rs:12-23 | Rows separated by line feeds, the last one non-empty, split back into exactly those rows. |
| Text.FlattenAt | src/bin/day3alt.rs:90-93 | Row-major flattening of `w`-wide rows has length `rows * w`. Position `i * w + j` holds row `i`, column `j`. |
| Text.FlattenUpdate | src/bin/day3alt.rs:81-84 | Writing position `i * w + j` of the flat vector is writing column `j` of row `i`. |
| Text.FlattenUniform | src/bin/day3alt.rs:69-75 | Rows that all hold one value flatten to `rows * w` copies of it. |
| BitSet.BitCountZeros | src/bin/day3.rs:63 | Default (all clear) lanes count zero. |
| BitSet.BitCountMono | src/bin/day3.rs:173 | If every set bit of one sequence is set in another, its count is no larger. |
| BitSet.BitAndCount | src/bin/day3.rs:173 | The count of an AND is at most the count of either operand. |
| BitSet.BitCountSet | src/bin/day3.rs:53-56 | Setting a clear bit raises the count by exactly one. |
| BitSet.BitCountAppend | src/bin/day3.rs:173 | The count of a concatenation is the sum of the counts. |
| BitGrid.FirstInvalid | src/bin/day3.rs:139-146 | The first character that is neither `.` nor `#`; every character before it is valid. |
| BitGrid.LineErrorNone | src/bin/day3.rs:129-149 | `parse_line` accepts exactly the lines of `stride` bytes made only of `.` and `#`. |
| BitGrid.ScanErrorsNone | src/bin/day3.rs:155-158 | No line fails exactly when every line is such a row. |
| BitGrid.ScanFrom | src/bin/day3.rs:155-158 | When the rows before it are good, the first bad line's error is the error `?` propagates. |
| BitGrid.ParseFailureNone | src/bin/day3.rs:151-163 | `from_str` fails exactly on input whose lines are not all rows as long (in bytes) as the first. |
| BitGrid.LaneSpanFormula | src/bin/day3.rs:77 | The lanes sized to hold `end` bits are `256 * (1 + (end - 1) / 256)` bits: the `resize` of `next_row`. |
| BitGrid.LaneSpanBounds | src/bin/day3.rs:77 | That size is at least `end`, below `end + 256`, at least one lane, and resizing again changes nothing. |
| BitGrid.LaneSpanMono | src/bin/day3.rs:77 | A later end never needs fewer lanes. |
| BitGrid.ImageSpanBounds | src/bin/day3.rs:151-163 | The lanes after parsing hold every row, are at least one lane long, and are a whole number of lanes. |
| BitGrid.Image | src/bin/day3.rs:151-163 | The lanes a well-formed input parses to hold at least `stride * rows` bits. |
| BitGrid.WellFormedRows | src/bin/day3.rs:129-138 | Every line of accepted input has `stride` characters. |
| BitGrid.ImageCell | src/bin/day3.rs:139-143 | Bit `i * stride + j` of the parsed grid is set exactly when line `i` has `#` at column `j`. |
| BitGrid.ImageRows | src/bin/day3.rs:151-158 | The first `stride * rows` bits are the rows' bits, one after another. |
| BitGrid.ImagePadding | src/bin/day3.rs:77 | Every bit past the last row is clear. |
| BitGrid.Grid.Len | src/bin/day3.rs:70-72 | `len()` counts lanes: at least one, and `256 * len()` is the number of bits. |
| BitGrid.Grid.constructor | src/bin/day3.rs:62-64 | `Grid::new`: one clear lane, the given stride, cursor 0. |
| BitGrid.Grid.NextRow | src/bin/day3.rs:74-83 | The cursor advances by one stride. The lanes grow by clear bits to the size that holds one row past the new cursor. The returned row starts at the old cursor. The grid invariant is kept. |
| BitGrid.Grow | src/bin/day3.rs:75-77 | That resize only grows, never truncates, and keeps the bits past the cursor clear. |
| BitGrid.GridRow.BitSet | src/bin/day3.rs:53-56 | Sets exactly bit `offset + bit` of the lanes. |
| BitGrid.OverlayRow | src/bin/day3.rs:139-147 | Setting a line's `#` bits on clear lanes after `offset` gives the earlier bits, then the line's bits, then clear bits. |
| BitGrid.ParseLine | src/bin/day3.rs:129-149 | `parse_line` fails exactly when the length is wrong or a character is invalid, with that error. On success the line's bits are written at the row's offset. |
| BitGrid.ParseRow | src/bin/day3.rs:155-157 | `next_row` followed by `parse_line`. On success the lanes hold the first `i + 1` lines, clear after them, and are sized for the next row. |
| BitGrid.RowStep | src/bin/day3.rs:155-157 | The lane state after writing line `i` is the state for `i + 1` lines. |
| BitGrid.FillRow | src/bin/day3.rs:139-147 | Writing line `i` after the first `i` rows extends the rows by it and leaves the rest clear. |
| BitGrid.ImageOf | src/bin/day3.rs:151-159 | After the last row, the lanes are exactly the image of the input. |
| BitGrid.Parse | src/bin/day3.rs:127-165 | `from_str` fails exactly when the input is malformed, with the first line's error. On success: stride = first line's byte length, cursor = `stride * rows`, lanes = the image. Empty input gives an empty grid. |
| BitGrid.Render | src/bin/day3.rs:13-22 | `StridedFmt` writes each bit as `#` or `.`, with a line feed before each bit (other than bit 0) at a multiple of the stride. |
| BitGrid.StridedLength | src/bin/day3.rs:13-22 | The text has one character per bit plus `(bits - 1) / stride` line feeds. |
| BitGrid.StridedChars | src/bin/day3.rs:19 | Without its line feeds, the text is one `#`/`.` per bit, in order. |
| BitGrid.RenderRoundTrip | src/bin/day3.rs:12-23 | The rendered rows of a parsed grid are the input lines joined by line feeds, and `lines()` of that text gives back the input. |
| BitGrid.StridedRows | src/bin/day3.rs:15-20 | Rendering the bits of well-formed rows writes the rows separated by line feeds. |
| BitGrid.StridedAppendRow | src/bin/day3.rs:16-19 | After whole rows, the first `m` bits of the next row render as a line feed (unless it is the first row) and their characters. |
| BitGrid.RowChars | src/bin/day3.rs:139-143 | The characters of a valid line's bits are the line. |
| BitPath.StepForward | src/bin/day3.rs:102-107 | On a slope that moves, one turn of the loop never moves the position back. |
| BitPath.WalkMono | src/bin/day3.rs:100-108 | Positions along the walk never decrease and stay non-negative. |
| BitPath.WalkCol | src/bin/day3.rs:103-107 | On a tracked slope the column stays inside `[0, stride)`. |
| BitPath.WalkStep | src/bin/day3.rs:102-107 | Each step moves strictly forward. |
| BitPath.WalkStrict | src/bin/day3.rs:102-107 | Distinct points of the walk lie on distinct bits, in order. |
| BitPath.WalkOnPath | src/bin/day3.rs:102-107 | Point `k` is at column `(from + k * left) % stride` and at bit `k * down * stride + column - from`: row `k * down`, wrapped. |
| BitPath.FlatSlopeStalls | src/bin/day3.rs:100-108 | With `down = 0` and `left = stride = 1` the walk never moves, so `next` would never leave its loop. |
| BitPath.FlatSlopeFallsBack | src/bin/day3.rs:106 | With `down = 0` a wrap can move the position before the start, a `usize` underflow in the source. |
| BitPath.OnPathSnoc | src/bin/day3.rs:100-101 | A range of walk indices extended by one covers exactly one more point. |
| BitPath.LaneMarks | src/bin/day3.rs:100-109 | Only the points marked during a lane's `next` call can lie in that lane. |
| BitPath.MarkPoint | src/bin/day3.rs:101 | `bit_set(idx)` marks exactly one more point of the walk. |
| BitPath.NextStep | src/bin/day3.rs:102-107 | One loop turn computes the next point of the walk, and the lane-relative position never underflows. |
| BitPath.Each.constructor | src/bin/day3.rs:66-68 | The iterator starts at bit 0, column `from`, with no lanes emitted. |
| BitPath.Each.Stroll | src/bin/day3.rs:102-107 | One turn of the loop is one step of `Walk`, and it makes progress. |
| BitPath.Each.Next | src/bin/day3.rs:98-111 | Always `Some`: the next 256-bit lane, whose bit `b` is set exactly when some point of the walk lies on that bit of the path. The first lane has bit 0 set. |
| BitPath.MarksAppend | src/bin/day3.rs:171 | Appending the next lane extends the collected path by 256 bits. |
| BitPath.Each.Collect | src/bin/day3.rs:171 | `take(n).collect()` yields the path's marks over the next `n` lanes. |
| BitPath.EachOf | src/bin/day3.rs:66-68 | `Grid::each` yields the walk of `(from, left, down, stride)` from lane 0. |
| BitPath.CountHits | src/bin/day3.rs:170-174 | `count_hits` is the count of the AND of the path's marks over `len()` lanes with the grid, so at most the set bits of either. |
| BitPath.SlopeHits | src/bin/day3.rs:185 | The count `main` prints, for any slope that moves. |
| BitPath.AndCount | src/bin/day3.rs:173 | ANDing the first `n` marks with the grid counts the set grid bits that lie on the walk. |
| BitPath.MaskCountPast | src/bin/day3.rs:173 | Bits past the grid add nothing to that count. |
| BitPath.MaskCountGap | src/bin/day3.rs:102-107 | No bit strictly between two consecutive points lies on the walk. |
| BitPath.MaskCountStep | src/bin/day3.rs:173 | From one point to the next, the count grows by the hit at the first point. |
| BitPath.PrefixHits | src/bin/day3.rs:173 | Up to point `k`, counting by bits equals counting the points on set bits. |
| BitPath.MaskHits | src/bin/day3.rs:170-174 | The AND count over the grid is the number of walk points that land on set grid bits. |
| TileGrid.TileOf | src/bin/day3alt.rs:37-47 | `try_from(char)`: `.` is open, `#` is a tree, anything else is an error naming the character. |
| TileGrid.TileChar | src/bin/day3alt.rs:19-26 | `Display for Tile` writes a character that parses back to the same tile. |
| TileGrid.IndexOf | src/bin/day3alt.rs:90-93 | `index`: row `c.y` (which must be inside the grid) and column `c.x` modulo the width, inside the vector. |
| TileGrid.SlotOf | src/bin/day3alt.rs:90-93 | Every slot of the vector is the index of a coordinate inside the grid. |
| TileGrid.IndexWraps | src/bin/day3alt.rs:92 | Moving one width to the right lands on the same slot. |
| TileGrid.CellOfRows | src/bin/day3alt.rs:90-93 | On a board laid out from equal rows, `get(c)` is row `c.y` at column `c.x % width`. |
| TileGrid.Grid.constructor | src/bin/day3alt.rs:69-75 | `Grid::new`: `width * height` open tiles. |
| TileGrid.Grid.Get | src/bin/day3alt.rs:77-79 | `get` reads the tile at the coordinate's slot. |
| TileGrid.Grid.Set | src/bin/day3alt.rs:81-84 | `set` writes that slot and changes no other tile. |
| TileGrid.Grid.Render | src/bin/day3alt.rs:97-106 | `Display for Grid` writes every row's tiles, each row followed by a line feed. |
| TileGrid.Shown | src/bin/day3alt.rs:97-106 | The text `Display for Grid` writes: empty exactly when the grid has no rows, otherwise ending in a line feed. |
| TileGrid.ShownSnoc | src/bin/day3alt.rs:99-104 | Each outer turn appends one row and its line feed. |
| TileGrid.IrregularFrom | src/bin/day3alt.rs:117-129 | Reports the byte length of the first line whose length differs from the first line's. |
| TileGrid.IrregularNone | src/bin/day3alt.rs:117-129 | No such line exactly when all lines have the first line's byte length. |
| TileGrid.InvalidInNone | src/bin/day3alt.rs:134-135 | No bad character in a line exactly when it is all tiles. |
| TileGrid.InvalidNone | src/bin/day3alt.rs:133-137 | No bad character in any line exactly when all lines are all tiles. |
| TileGrid.TileRowLength | src/bin/day3alt.rs:118 | A line of tiles has as many bytes as characters. |
| TileGrid.RegularWidth | src/bin/day3alt.rs:131-132 | Accepted lines all have the width's number of characters. |
| TileGrid.ParseOk | src/bin/day3alt.rs:113-141 | `from_str` succeeds exactly on lines all as long as the first and all made of tiles, and then yields a consistent grid. |
| TileGrid.ParsedCell | src/bin/day3alt.rs:133-137 | Each cell of the parsed grid is the tile of its character. |
| TileGrid.DecodedStart | src/bin/day3alt.rs:132 | Before the second pass every tile is open. |
| TileGrid.DecodedStep | src/bin/day3alt.rs:135-136 | `set((x, y), tile)` advances the decoded state by one character. |
| TileGrid.DecodedRow | src/bin/day3alt.rs:133-137 | The end of a line is the start of the next. |
| TileGrid.DecodedAll | src/bin/day3alt.rs:133-138 | After every line, the tiles are the lines' tiles row by row. |
| TileGrid.MeasureWidth | src/bin/day3alt.rs:115-131 | The first pass yields the first line's byte length, or the irregular-input error for the first line that differs. |
| TileGrid.DecodeLine | src/bin/day3alt.rs:134-137 | One line of the second pass: the error for its first bad character, else the tiles advanced by the whole line. |
| TileGrid.Parse | src/bin/day3alt.rs:113-141 | `from_str` returns the error of the reference parse, else a grid whose value is the reference board. |
| TileGrid.CellRowsFlatten | src/bin/day3alt.rs:97-106 | Reading a board row by row and concatenating gives back its tiles. |
| TileGrid.ShownTiles | src/bin/day3alt.rs:99-104 | The rows of the displayed text parse to the board's rows. |
| TileGrid.ShownRegular | src/bin/day3alt.rs:97-106 | The displayed rows are all as wide as the board and made of tiles. |
| TileGrid.ShownParses | src/bin/day3alt.rs:97-141 | Parsing the displayed text gives back the same board (when it has a row, or no width). |
| TileGrid.ParsedShown | src/bin/day3alt.rs:97-141 | Displaying a parsed grid writes the input's lines, each followed by a line feed. |
| TileGrid.RouteSpan | src/bin/day3alt.rs:162-172 | The route yields step `k` exactly when `k * step.y` is less than the height: that row is inside the grid. |
| TileGrid.RouteLenCeil | src/bin/day3alt.rs:162-172 | The route has `ceil(height / step.y)` coordinates. |
| TileGrid.Route.constructor | src/bin/day3alt.rs:153-155 | `Route::new` starts at (0, 0). |
| TileGrid.Route.Next | src/bin/day3alt.rs:162-172 | Yields coordinate `k * step` while its row is inside the grid and then advances, else `None` without moving. |
| TileGrid.TreesUpTo | src/bin/day3alt.rs:193-195 | Trees among the first `n` coordinates: at most `n`. |
| TileGrid.TreesOnRoute | src/bin/day3alt.rs:193-195 | The trees on the route: none on an empty grid, at most the route's length. |
| TileGrid.CountedStep | src/bin/day3alt.rs:193-195 | A coordinate inside the grid adds its tree, if any, to the count. |
| TileGrid.CountedDone | src/bin/day3alt.rs:163-171 | Once the route has left the grid, the count is the route's tree count. |
| TileGrid.CountTrees | src/bin/day3alt.rs:193-195 | `route(step).filter(tree).count()` is the number of trees on the route. |
| TileGrid.Product | src/bin/day3alt.rs:197-200 | The product of the counts is zero exactly when some count is zero. |
| TileGrid.ProductSnoc | src/bin/day3alt.rs:197-200 | Folding one more count multiplies the product by it. |
| TileGrid.SlopeHits | src/bin/day3alt.rs:185-195 | One count per slope of `main`, each at most the number of coordinates its route visits. A map with no rows gives a product of 0. |
| TileGrid.SlopeHitsSnoc | src/bin/day3alt.rs:193-195 | Counting the next slope extends the counts by its trees. |
| TileGrid.Tally | src/bin/day3alt.rs:185-200 | `main` computes the five counts and their product from 1. |
| Agreement.RowLineTiles | src/bin/day3.rs:129-147 | A line the bit grid accepts is a line of tiles of that byte length, and back. |
| Agreement.WellFormedRegular | src/bin/day3.rs:151-158 | The two parsers' acceptance conditions are the same. |
| Agreement.SameAcceptance | src/bin/day3.rs:127-165 | `day3.rs` and `day3alt.rs` accept exactly the same input. |
| Agreement.ErrorOrder | src/bin/day3alt.rs:117-137 | They can report different errors for the same input. The tile grid checks every length first. |
| Agreement.BoardShape | src/bin/day3alt.rs:132-137 | The board parsed from accepted lines is `stride` wide, one row per line. |
| Agreement.StepHit | src/bin/day3.rs:102-107 | At each step inside the grid, the path's bit is set exactly when the route's tile is a tree. |
| Agreement.PastRows | src/bin/day3.rs:173 | Past the last row the path only meets clear padding. |
| Agreement.AgreeStep | src/bin/day3.rs:102-107 | One more step inside the grid adds the same hit to both counts. |
| Agreement.PrefixAgree | src/bin/day3alt.rs:193-195 | While the route is inside the grid, path and route meet the same trees. |
| Agreement.TailClear | src/bin/day3.rs:171-173 | After the route has left the grid, the path meets no more set bits. |
| Agreement.WalkAtLeast | src/bin/day3.rs:102 | The walk advances at least one bit per point. |
| Agreement.SameHits | src/bin/day3.rs:170-174 | For the same lines and a slope `(left, down)` with `down >= 1` and `left <= stride`, the bit-packed count equals the tree count on the route. |
| Agreement.CrossCheck | src/bin/day3.rs:185 | Parsing the same text both ways and counting the same slope gives the same number. |
| Agreement.BitsetBench | benches/d3bitset.rs:150-157 | The timed expression: the AND count of `each(0, 3, 1)` over `len()` lanes, at most the grid's set bits. |
| Agreement.DumbBench | benches/d3dumb.rs:156-163 | The timed expression: the trees on `route((3, 1))`, at most the route's length. |
| NSum.SetIter.constructor | src/bin/day1.rs:77 | `items.iter()`: every member of the set, ascending. |
| NSum.SetIter.Next | src/bin/day1.rs:22 | `next`: the smallest member left, or `None` when none is left. |
| NSum.SetIter.NextBack | src/bin/day1.rs:23 | `next_back`: the largest member left, or `None`. |
| NSum.SetIter.Clone | src/bin/day1.rs:45 | `clone`: an independent iterator over the same members left. |
| NSum.SumSnoc | src/bin/day1.rs:46 | Pushing a member adds it to the sum. |
| NSum.ReachOne | src/bin/day1.rs:16-54 | The reference relation for one member: the target is in the window. |
| NSum.ReachTwo | src/bin/day1.rs:21-40 | The reference relation for two: some pair of distinct positions adds up to the target. |
| NSum.StaggeredDistinct | src/bin/day1.rs:44-47 | The members of a find are pairwise distinct. |
| NSum.SkipHead | src/bin/day1.rs:32-34 | A front member whose sum with the largest partner left is short can be dropped. |
| NSum.SkipTail | src/bin/day1.rs:35-37 | A back member whose sum with the smallest partner left is over can be dropped. |
| NSum.PairFound | src/bin/day1.rs:29-31 | A pair that adds up is a find, in ascending order. |
| NSum.NoPair | src/bin/day1.rs:24 | Once one end is exhausted, no pair adds up. |
| NSum.Narrow | src/bin/day1.rs:32-37 | One miss drops exactly one end and keeps every pair that could still add up. |
| NSum.PairSum | src/bin/day1.rs:21-40 | For `n = 2`: `Some` exactly when two distinct members add up to the target, and then those two ascending. Loop turns (`ITERATIONS`) are at most the window size. |
| NSum.ExtendSmallest | src/bin/day1.rs:45-47 | A find from the members after `h`, with `h` pushed, is a find of one more member. |
| NSum.Picked | src/bin/day1.rs:45-47 | A find from the members after `h` means the whole window has a find. |
| NSum.PassOver | src/bin/day1.rs:49 | If no find starts at `h`, moving to the next member loses nothing. |
| NSum.FindNSum | src/bin/day1.rs:16-54 | `None` for `n <= 1`. For `n >= 2`, `Some` exactly when `n` distinct members add up to the target, and then those members: the pair ascending, each later one smaller than all before it. |
| Passwords.Run | src/bin/day2.rs:15-18 | A greedy repetition: the longest prefix of matching characters, stopped by a non-match or the end. |
| Passwords.RunOf | src/bin/day2.rs:15-18 | A run followed by a non-match is read exactly. |
| Passwords.DigitChar | src/bin/day2.rs:22 | A decimal digit character and its value. |
| Passwords.Decimal | src/bin/day2.rs:22 | The decimal text of a number is non-empty digits. |
| Passwords.DecimalCanonical | src/bin/day2.rs:22 | That text has no leading zero, and has two or more digits from 10 up. |
| Passwords.ValueOfDecimal | src/bin/day2.rs:22 | `parse` of the decimal text gives the number back. |
| Passwords.ValueAtLeast | src/bin/day2.rs:22 | Canonical text of two or more digits is at least 10. |
| Passwords.DecimalOfValue | src/bin/day2.rs:22 | Canonical digit text is the decimal text of its value. |
| Passwords.IntegerOfMany | src/bin/day2.rs:21-22 | Two or more digits not starting with `0` are read by the first branch, up to the first non-digit. |
| Passwords.IntegerOfDecimal | src/bin/day2.rs:21-22 | `integer` reads the decimal text of any `usize` back, leaving the rest. |
| Passwords.IntegerIsDecimal | src/bin/day2.rs:21-22 | Whatever `integer` reads is a `usize` written in canonical decimal. |
| Passwords.LeadingZero | src/bin/day2.rs:22 | With a leading `0` only the single digit is read: `05-` gives 0 and leaves `5-`. |
| Passwords.Integer | src/bin/day2.rs:21-22 | The `integer` rule: fails unless the input starts with a digit. On success the value fits a `usize`, at least one character is consumed, and the rest is a suffix of the input. Unless the first digit is `0`, the rest does not start with a digit (the repetition is greedy). |
| Passwords.ParsePolicy | src/bin/day2.rs:23-24 | The `policy` rule: on success both bounds fit a `usize`, the policy character is not a blank, and the rest is a strictly shorter suffix of the input. |
| Passwords.ParseTail | src/bin/day2.rs:26 | The part of `root` after the policy: on success the password is non-empty, contains no blank, and ends the input. |
| Passwords.ParseLine | src/bin/day2.rs:25-26 | The `root` rule: on success the policy's bounds fit a `usize`, its character is not a blank, and the password is non-empty, blank-free and ends the line. |
| Passwords.ParsePolicyLayout | src/bin/day2.rs:23-24 | `policy` reads back any `start-end`, blanks and a non-blank character. |
| Passwords.ParseTailLayout | src/bin/day2.rs:25-26 | After the policy, `root` reads back optional blanks, `:`, optional blanks and a non-blank password ending the line. |
| Passwords.ParseLayout | src/bin/day2.rs:13-28 | `root` reads back the policy and password of every line laid out from valid parts. |
| Passwords.PolicyShape | src/bin/day2.rs:23-24 | Whatever `policy` accepts is laid out that way. |
| Passwords.TailShape | src/bin/day2.rs:25-26 | Whatever the rest of `root` accepts is laid out that way. |
| Passwords.LineShape | src/bin/day2.rs:13-28 | Every line `root` accepts is the layout of its policy, some blanks and its password, so parse and layout are inverse. |
| Passwords.Positional | src/bin/day2.rs:44-50 | With both bounds at least 1, the count is the matches at positions `start` and `end` (1-based), counted once when they coincide. |
| Passwords.Check | src/bin/day2.rs:46-49 | The filter closure: it panics (`None`) unless `start >= 1` and either `i` is `start - 1` or `end >= 1`. Otherwise it keeps `(i, c)` exactly when `i + 1` is `start` or `end` (1-based) and `c` is the policy character. |
| Passwords.Occurrences | src/bin/day2.rs:44-50 | The filtered count: at most the password's length. It never panics when both bounds are at least 1. A positive count means the policy character occurs in the password. |
| Passwords.IsValid | src/bin/day2.rs:44-53 | `occurences == 1`: defined whenever both bounds are at least 1. A valid password contains the policy character. |
| Passwords.ExactlyOne | src/bin/day2.rs:44-51 | With distinct positions, the password is valid exactly when one of them holds the character. |
| Passwords.SamePosition | src/bin/day2.rs:44-51 | With equal positions, it is valid exactly when that position holds the character. |
| Passwords.OccurrencesPanic | src/bin/day2.rs:47 | The filter panics exactly when some character's test underflows. |
| Passwords.Underflow | src/bin/day2.rs:47 | It underflows exactly when the password is non-empty and `start` is 0, or when `end` is 0 and the `start` test does not decide every character. |
| Passwords.Verdict | src/bin/day2.rs:38-53 | One line's outcome: a panic (`None`) when the grammar refuses the line (`unwrap`). Never a panic for a parsed line whose bounds are both at least 1. |
| Passwords.VerdictsAppend | src/bin/day2.rs:37-39 | Lines are judged one at a time: the verdicts on two runs of lines are the verdicts on each run, in turn. |
| Passwords.TallyBound | src/bin/day2.rs:35-54 | The count never exceeds the number of lines. |
| Passwords.TallyPanic | src/bin/day2.rs:37-47 | The program panics exactly when some line fails to parse or its check underflows. |
| Passwords.TallyStops | src/bin/day2.rs:37-54 | A panic on a line ends the whole count. |
| Passwords.TallyStep | src/bin/day2.rs:51-53 | A valid line adds one to the count, an invalid one nothing. |
| Passwords.CountValid | src/bin/day2.rs:30-56 | `main`'s counter is the tally of the lines' verdicts, `None` where the source panics. |

## Left out

- File reading, command-line arguments, `println!` output and the `main`
  wrappers are not modelled. Input text or lines are parameters, and the
  printed values are method results.
- The `Display for Grid` header and footer of `day3.rs` (`Rows (stride = ...) [` and `]`) are not
  modelled. Only the strided body that `StridedFmt` writes is.
- The criterion harness, `black_box` and the timing of the benchmarks are
  not modelled. Neither is the bitset benchmark's collecting of the path
  before the timed closure: both timed counts are modelled as plain methods.
- The `ITERATIONS` atomic counter of day 1 is not modelled as shared state.
  It is the ghost `steps` result of `NSum.PairSum`.
- `NSum.FindNSum`: `n` is a `u8` and the values are `i64` in the source. The
  model uses unbounded integers and does not model overflow of `target - h`
  or `h + t`.
- Integer widths: `usize` is unbounded in the model. Overflow of
  `cursor + stride`, of `size.x * size.y`, of the route's coordinates and of
  the product fold is not modelled. Only the `usize` bound of day 2's
  `integer` rule (the parse failure above `2^64 - 1`) is modelled.
- `Passwords.Check`: models a debug build, where `start() - 1` and
  `end() - 1` panic on 0. A release build wraps instead, and that case is
  not modelled.
- `BufRead::lines` of day 2 and its I/O errors are not modelled. The lines
  are a parameter.
- The `peg` library itself is not modelled. Its error values are not
  modelled, and a failed parse is `None`.
- `bitset_core` is modelled by its effect only: a flat `seq<bool>` with
  `bit_set`, `bit_and`, `bit_count` and `bit_test`. The layout of bits
  inside `u64` words is not modelled.
- The text of the `ParseError` messages is not modelled. The model keeps the
  numbers and the character they report.
- Panics the source could hit are preconditions, not modelled behaviour:
  - `BitGrid.Parse` requires a non-empty first line. A stride of 0 makes
    `next_row` underflow.
  - `BitGrid.Render` and `BitGrid.Strided` require a stride of at least 1
    (or at most one bit). `bit % 0` panics.
  - `BitPath.EachOf` and `Each` require a slope that moves. With `down = 0`
    the loop may never end or may underflow (`FlatSlopeStalls`,
    `FlatSlopeFallsBack`).
  - `TileGrid.CountTrees` and `TreesOnRoute` require `step.y >= 1` on a
    grid with rows; `Tally`, `SlopeHits` and `Agreement.DumbBench` only
    walk steps that meet it. With `step.y = 0` the route never
    leaves row 0, so the source's count never ends.
  - `TileGrid.Grid.Get` and `Set` require a width of at least 1 and a row
    inside the grid: the `assert!` and the `%` of `index`.
- `Agreement.SameHits` compares the two solvers only for `down >= 1` and
  `left <= stride`. For a larger `left` the bit walk wraps at most one stride
  per step, so it does not follow the tile route. That case is left
  unrelated.
- The `Each` iterator is infinite. Only the lanes taken by `take(len())` are
  modelled, through `Collect`.
