/** Facts about multiplication, division and remainder that the grid proofs use: support lemmas only, modelling no code of their own. */
module Arith {

  /** Division and remainder are determined by a decomposition `a == q * s + r` with `0 <= r < s`. */
  lemma DivModUnique(a: int, s: int, q: int, r: int)
    requires s > 0 && 0 <= r < s && a == q * s + r
    ensures a / s == q && a % s == r
  {
    var d := a / s - q;
    assert d * s == r - a % s;
    MulSign(d, s);
  }

  lemma MulSign(d: int, s: int)
    requires s > 0
    ensures d >= 1 ==> d * s >= s
    ensures d <= -1 ==> d * s <= -s
  {
    if d >= 1 {
      assert d * s == (d - 1) * s + s;
    } else if d <= -1 {
      assert d * s == (d + 1) * s - s;
    }
  }

  /** Multiplying by a positive number keeps a strict order in both directions. */
  lemma MulCancel(a: int, b: int, w: int)
    requires w > 0 && a * w < b * w
    ensures a < b
  {
    MulSign(a - b, w);
    assert (a - b) * w == a * w - b * w;
  }

  lemma MulComm(a: int, b: int)
    ensures a * b == b * a
  {
  }

  lemma MulSucc(a: int, i: int)
    ensures a * (i + 1) == a * i + a
  {
  }

  lemma MulLess(i: nat, n: nat, w: nat, j: nat)
    requires i < n && j < w
    ensures i * w + j < n * w
  {
    assert (i + 1) * w <= n * w;
  }

  lemma MulAtLeast(d: nat, s: nat)
    requires d >= 1
    ensures d * s >= s
  {
  }

  /** Adding `left <= s` to a remainder wraps at most once. */
  lemma ModStep(a: int, left: nat, s: int)
    requires s > 0 && left <= s
    ensures (a + left) % s == if a % s + left >= s then a % s + left - s else a % s + left
  {
    var q, r := a / s, a % s;
    if r + left >= s {
      DivModUnique(a + left, s, q + 1, r + left - s);
    } else {
      DivModUnique(a + left, s, q, r + left);
    }
  }

  /** Adding any `left` to a remainder: the result is the remainder of the sum. */
  lemma ModAdd(a: int, left: int, s: int)
    requires s > 0
    ensures (a + left) % s == (a % s + left) % s
  {
    var q := a / s;
    var b := a % s + left;
    DivModUnique(a + left, s, q + b / s, b % s);
  }

  /** Successive numbers: `n / s` grows by one exactly at multiples of `s`. */
  lemma DivStep(n: nat, s: nat)
    requires n >= 1 && s >= 1
    ensures n / s == (n - 1) / s + (if n % s == 0 then 1 else 0)
  {
    var q, r := (n - 1) / s, (n - 1) % s;
    if r + 1 == s {
      DivModUnique(n, s, q + 1, 0);
    } else {
      DivModUnique(n, s, q, r + 1);
    }
  }

  lemma RowCol(k: nat, w: nat)
    requires w >= 1
    ensures k == (k / w) * w + k % w && 0 <= k % w < w
  {
  }

  lemma MulPred(k: int, a: int)
    ensures k * a == (k - 1) * a + a
  {
  }

  lemma MulAssoc(a: int, b: int, c: int)
    ensures a * (b * c) == (a * b) * c
  {
  }

  /** The product of two naturals, as a natural. */
  lemma MulNat(a: nat, b: nat) returns (c: nat)
    ensures c == a * b
  {
    c := a * b;
  }

  lemma MulMono(a: nat, b: nat, w: nat)
    requires a <= b
    ensures a * w <= b * w
  {
  }
}
