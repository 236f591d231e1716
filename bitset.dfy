/**
 * The slice operations of `bitset_core::BitSet` that the bit grid uses, on a
 * flat sequence of bits. Lanes (`[u64; 4]`) are consecutive blocks of 256
 * bits; the order of bits inside a word is the library's and does not matter
 * here, because storage and path masks use the same one.
 */
module BitSet {

  /** `bit_count`: the number of set bits. */
  function BitCount(a: seq<bool>): (n: nat)
    ensures n <= |a|
  {
    if a == [] then 0 else BitCount(a[..|a| - 1]) + (if a[|a| - 1] then 1 else 0)
  }

  /** `bit_and` of two equally long bit slices. */
  function BitAnd(a: seq<bool>, b: seq<bool>): (r: seq<bool>)
    requires |a| == |b|
    ensures |r| == |a|
  {
    seq(|a|, i requires 0 <= i < |a| => a[i] && b[i])
  }

  function Zeros(n: nat): (z: seq<bool>)
    ensures |z| == n
  {
    seq(n, _ => false)
  }

  lemma {:induction false} BitCountZeros(n: nat)
    ensures BitCount(Zeros(n)) == 0
  {
    if n > 0 {
      assert Zeros(n)[..n - 1] == Zeros(n - 1);
      BitCountZeros(n - 1);
    }
  }

  /** Counting is monotone: a slice whose set bits are all set in `a` has no more of them. */
  lemma {:induction false} BitCountMono(r: seq<bool>, a: seq<bool>)
    requires |r| == |a|
    requires forall i :: 0 <= i < |r| && r[i] ==> a[i]
    ensures BitCount(r) <= BitCount(a)
  {
    if r != [] {
      BitCountMono(r[..|r| - 1], a[..|a| - 1]);
    }
  }

  /** `bit_and` never counts more than either operand. */
  lemma BitAndCount(a: seq<bool>, b: seq<bool>)
    requires |a| == |b|
    ensures BitCount(BitAnd(a, b)) <= BitCount(a)
    ensures BitCount(BitAnd(a, b)) <= BitCount(b)
  {
    BitCountMono(BitAnd(a, b), a);
    BitCountMono(BitAnd(a, b), b);
  }

  /** Setting one clear bit adds one to the count. */
  lemma {:induction false} BitCountSet(a: seq<bool>, q: nat)
    requires q < |a| && !a[q]
    ensures BitCount(a[q := true]) == BitCount(a) + 1
  {
    var n := |a| - 1;
    if q == n {
      assert a[q := true][..n] == a[..n];
    } else {
      assert a[q := true][..n] == a[..n][q := true];
      BitCountSet(a[..n], q);
    }
  }

  lemma {:induction false} BitCountAppend(a: seq<bool>, b: seq<bool>)
    ensures BitCount(a + b) == BitCount(a) + BitCount(b)
  {
    if b == [] {
      assert a + b == a;
    } else {
      assert (a + b)[..|a + b| - 1] == a + b[..|b| - 1];
      BitCountAppend(a, b[..|b| - 1]);
    }
  }
}
