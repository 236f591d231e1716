/**
 * Text as the grid parsers see it: Rust's `str::len` (the UTF-8 byte length),
 * `str::lines`, and the flattening of equally long rows into one sequence.
 */
module Text {

  import opened Arith

  /** The number of bytes UTF-8 uses for `c`. */
  function Utf8Width(c: char): (n: nat)
    ensures 1 <= n <= 4
    ensures n == 1 <==> (c as int) < 0x80
  {
    if (c as int) < 0x80 then 1
    else if (c as int) < 0x800 then 2
    else if (c as int) < 0x1_0000 then 3
    else 4
  }

  predicate IsAscii(s: string) {
    forall i :: 0 <= i < |s| ==> (s[i] as int) < 0x80
  }

  /** Rust `str::len`: the length of `s` in bytes, not in characters. */
  function ByteLen(s: string): (n: nat)
    ensures |s| <= n <= 4 * |s|
  {
    if s == [] then 0 else ByteLen(s[..|s| - 1]) + Utf8Width(s[|s| - 1])
  }

  /** Bytes and characters agree exactly on ASCII text. */
  lemma {:induction false} ByteLenAscii(s: string)
    ensures ByteLen(s) == |s| <==> IsAscii(s)
  {
    if s != [] {
      var n := |s| - 1;
      ByteLenAscii(s[..n]);
      if IsAscii(s) {
        assert IsAscii(s[..n]) by {
          forall i | 0 <= i < n ensures (s[..n][i] as int) < 0x80 {
            assert s[..n][i] == s[i];
          }
        }
      } else if ByteLen(s) == |s| {
        assert ByteLen(s[..n]) == n && Utf8Width(s[n]) == 1;
        forall i | 0 <= i < |s| ensures (s[i] as int) < 0x80 {
          if i < n {
            assert s[..n][i] == s[i];
          }
        }
      }
    }
  }

  /** The position of the first line feed in `s`, or `|s|` when there is none. */
  function NewlineAt(s: string): (i: nat)
    ensures i <= |s|
    ensures forall j :: 0 <= j < i ==> s[j] != '\n'
    ensures i < |s| ==> s[i] == '\n'
  {
    if s == [] || s[0] == '\n' then 0 else 1 + NewlineAt(s[1..])
  }

  /** Drops one carriage return that precedes a line feed. */
  function StripCr(line: string): string {
    if |line| > 0 && line[|line| - 1] == '\r' then line[..|line| - 1] else line
  }

  /**
   * Rust `str::lines`: split at each line feed, drop a carriage return just
   * before it, and yield no empty line after a final line feed.
   */
  function Lines(s: string): (ls: seq<string>)
    ensures |ls| == 0 <==> s == []
    ensures forall i :: 0 <= i < |ls| ==> NoNewline(ls[i])
    decreases |s|
  {
    if s == [] then []
    else
      var i := NewlineAt(s);
      if i == |s| then [s] else [StripCr(s[..i])] + Lines(s[i + 1..])
  }

  predicate NoNewline(line: string) {
    forall j :: 0 <= j < |line| ==> line[j] != '\n'
  }

  /** A row that `Lines` gives back unchanged: no line feed, no final carriage return. */
  predicate PlainRow(line: string) {
    NoNewline(line) && (|line| > 0 ==> line[|line| - 1] != '\r')
  }

  /** Every row followed by a line feed. */
  function Terminated(rows: seq<string>): (s: string)
    ensures rows == [] ==> s == []
  {
    if rows == [] then [] else Terminated(rows[..|rows| - 1]) + rows[|rows| - 1] + "\n"
  }

  /** The rows separated by line feeds, with none after the last. */
  function Joined(rows: seq<string>): string {
    if rows == [] then []
    else if |rows| == 1 then rows[0]
    else Joined(rows[..|rows| - 1]) + "\n" + rows[|rows| - 1]
  }

  lemma {:induction false} LinesAppend(a: string, b: string)
    requires a == [] || a[|a| - 1] == '\n'
    ensures Lines(a + b) == Lines(a) + Lines(b)
    decreases |a|
  {
    if a == [] {
      assert a + b == b;
    } else {
      LinesHead(a, b);
      var i := NewlineAt(a);
      var rest := a[i + 1..];
      var line := StripCr(a[..i]);
      LinesSplit(a);
      LinesAppend(rest, b);
      ConsAppend(line, Lines(rest), Lines(b));
    }
  }

  lemma ConsAppend<T>(x: T, p: seq<T>, q: seq<T>)
    ensures [x] + (p + q) == ([x] + p) + q
  {
  }

  /** The first line of text that ends in a line feed is not changed by what follows. */
  lemma LinesHead(a: string, b: string)
    requires a != [] && a[|a| - 1] == '\n'
    ensures NewlineAt(a) < |a|
    ensures Lines(a + b) == [StripCr(a[..NewlineAt(a)])] + Lines(a[NewlineAt(a) + 1..] + b)
    ensures a[NewlineAt(a) + 1..] == [] || a[|a| - 1] == '\n'
  {
    var i := NewlineAt(a);
    assert i < |a|;
    NewlineAtPrefix(a, b);
    LinesSplit(a + b);
    assert (a + b)[..i] == a[..i];
    assert (a + b)[i + 1..] == a[i + 1..] + b;
  }

  /** A line feed inside `s` ends its first line. */
  lemma LinesSplit(s: string)
    requires NewlineAt(s) < |s|
    ensures Lines(s) == [StripCr(s[..NewlineAt(s)])] + Lines(s[NewlineAt(s) + 1..])
  {
  }

  lemma {:induction false} NewlineAtPrefix(a: string, b: string)
    requires NewlineAt(a) < |a|
    ensures NewlineAt(a + b) == NewlineAt(a)
    decreases |a|
  {
    if a[0] != '\n' {
      assert (a + b)[1..] == a[1..] + b;
      NewlineAtPrefix(a[1..], b);
    }
  }

  lemma {:induction false} LinesOfRow(r: string)
    requires PlainRow(r)
    ensures r != [] ==> Lines(r) == [r]
    ensures Lines(r + "\n") == [r]
  {
    NewlineAtAbsent(r);
    var s := r + "\n";
    NewlineAtPrefix(s, []);
    assert s[..|r|] == r;
    assert s[|r| + 1..] == [];
  }

  lemma {:induction false} NewlineAtAbsent(r: string)
    requires NoNewline(r)
    ensures NewlineAt(r) == |r|
    ensures NewlineAt(r + "\n") == |r|
    decreases |r|
  {
    if r != [] {
      assert (r + "\n")[1..] == r[1..] + "\n";
      NewlineAtAbsent(r[1..]);
    }
  }

  /** Rows written one per line are read back by `Lines` unchanged. */
  lemma {:induction false} LinesOfTerminated(rows: seq<string>)
    requires forall i :: 0 <= i < |rows| ==> PlainRow(rows[i])
    ensures Lines(Terminated(rows)) == rows
  {
    if rows != [] {
      var init, last := rows[..|rows| - 1], rows[|rows| - 1];
      LinesOfTerminated(init);
      assert Terminated(rows) == Terminated(init) + (last + "\n");
      LinesAppend(Terminated(init), last + "\n");
      LinesOfRow(last);
    }
  }

  lemma {:induction false} JoinedAsTerminated(rows: seq<string>)
    requires rows != []
    ensures Joined(rows) == Terminated(rows[..|rows| - 1]) + rows[|rows| - 1]
  {
    if |rows| > 1 {
      var init := rows[..|rows| - 1];
      JoinedAsTerminated(init);
      assert init[..|init| - 1] == rows[..|rows| - 2];
    }
  }

  /** Rows separated by line feeds are read back by `Lines` unchanged when the last is not empty. */
  lemma {:induction false} LinesOfJoined(rows: seq<string>)
    requires forall i :: 0 <= i < |rows| ==> PlainRow(rows[i])
    requires rows != [] ==> rows[|rows| - 1] != []
    ensures Lines(Joined(rows)) == rows
  {
    if rows != [] {
      var init, last := rows[..|rows| - 1], rows[|rows| - 1];
      JoinedAsTerminated(rows);
      LinesOfTerminated(init);
      LinesAppend(Terminated(init), last);
      LinesOfRow(last);
    }
  }

  /** The rows concatenated in order. */
  function Flatten<T>(rows: seq<seq<T>>): seq<T> {
    if rows == [] then [] else Flatten(rows[..|rows| - 1]) + rows[|rows| - 1]
  }

  predicate AllOfLength<T>(rows: seq<seq<T>>, w: nat) {
    forall i :: 0 <= i < |rows| ==> |rows[i]| == w
  }

  lemma {:induction false} FlattenLength<T>(rows: seq<seq<T>>, w: nat)
    requires AllOfLength(rows, w)
    ensures |Flatten(rows)| == |rows| * w
  {
    if rows != [] {
      FlattenLength(rows[..|rows| - 1], w);
      assert |rows| * w == (|rows| - 1) * w + w;
    }
  }

  /** Row `i` of equally long rows occupies `[i * w, (i + 1) * w)` of the flattening. */
  lemma {:induction false} FlattenAt<T>(rows: seq<seq<T>>, w: nat, i: nat, j: nat)
    requires AllOfLength(rows, w)
    requires i < |rows| && j < w
    ensures i * w + j < |Flatten(rows)| == |rows| * w
    ensures Flatten(rows)[i * w + j] == rows[i][j]
  {
    var n := |rows| - 1;
    var init := rows[..n];
    FlattenLength(rows, w);
    FlattenLength(init, w);
    assert Flatten(rows) == Flatten(init) + rows[n];
    if i < n {
      MulLess(i, n, w, j);
      FlattenAt(init, w, i, j);
    } else {
      MulLess(i, |rows|, w, j);
    }
  }

  lemma UpdateLeft<T>(a: seq<T>, b: seq<T>, k: nat, v: T)
    requires k < |a|
    ensures (a + b)[k := v] == a[k := v] + b
  {
  }

  lemma UpdateRight<T>(a: seq<T>, b: seq<T>, k: nat, v: T)
    requires |a| <= k < |a| + |b|
    ensures (a + b)[k := v] == a + b[k - |a| := v]
  {
  }

  /** Writing cell `j` of row `i` in place is the same as writing index `i * w + j` of the flattening. */
  lemma {:induction false} FlattenUpdate<T>(rows: seq<seq<T>>, w: nat, i: nat, j: nat, v: T)
    requires AllOfLength(rows, w)
    requires i < |rows| && j < w
    ensures i * w + j < |Flatten(rows)|
    ensures Flatten(rows)[i * w + j := v] == Flatten(rows[i := rows[i][j := v]])
    decreases |rows|, 1
  {
    FlattenAt(rows, w, i, j);
    if i < |rows| - 1 {
      FlattenUpdateInit(rows, w, i, j, v);
    } else {
      FlattenUpdateLast(rows, w, j, v);
    }
  }

  lemma {:induction false} FlattenUpdateInit<T>(rows: seq<seq<T>>, w: nat, i: nat, j: nat, v: T)
    requires AllOfLength(rows, w)
    requires i < |rows| - 1 && j < w
    ensures i * w + j < |Flatten(rows[..|rows| - 1])|
    ensures Flatten(rows)[i * w + j := v] == Flatten(rows[i := rows[i][j := v]])
    decreases |rows|, 0
  {
    var n := |rows| - 1;
    var init, last := rows[..n], rows[n];
    var upd := rows[i := rows[i][j := v]];
    FlattenUpdate(init, w, i, j, v);
    assert upd[..n] == init[i := init[i][j := v]];
    assert upd[n] == last;
    UpdateLeft(Flatten(init), last, i * w + j, v);
  }

  lemma {:induction false} FlattenUpdateLast<T>(rows: seq<seq<T>>, w: nat, j: nat, v: T)
    requires AllOfLength(rows, w) && |rows| >= 1 && j < w
    ensures (|rows| - 1) * w + j < |Flatten(rows)|
    ensures Flatten(rows)[(|rows| - 1) * w + j := v] == Flatten(rows[|rows| - 1 := rows[|rows| - 1][j := v]])
  {
    var n := |rows| - 1;
    var init, last := rows[..n], rows[n];
    var upd := rows[n := last[j := v]];
    FlattenAt(rows, w, n, j);
    FlattenLength(init, w);
    assert upd[..n] == init;
    UpdateRight(Flatten(init), last, n * w + j, v);
  }

  lemma RunAppend<T>(a: nat, b: nat, v: T)
    ensures seq(a, _ => v) + seq(b, _ => v) == seq(a + b, _ => v)
  {
  }

  /** Rows that hold only `v` flatten to a run of `v`. */
  lemma {:induction false} FlattenUniform<T>(rows: seq<seq<T>>, w: nat, v: T)
    requires AllOfLength(rows, w)
    requires forall i :: 0 <= i < |rows| ==> rows[i] == seq(w, _ => v)
    ensures Flatten(rows) == seq(|rows| * w, _ => v)
  {
    if rows != [] {
      var n := |rows| - 1;
      FlattenUniform(rows[..n], w, v);
      assert Flatten(rows) == Flatten(rows[..n]) + rows[n];
      RunAppend(n * w, w, v);
      MulSucc(w, n);
      MulComm(w, n);
      MulComm(w, n + 1);
    }
  }
}
