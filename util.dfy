/**
 * Machine integer types and sequence helpers shared by the renderer model:
 * the unsigned widths the Rust code uses, the flattening that `flat_map` and
 * `cartesian_product` perform, and the division facts behind linear indices.
 */
module Util {

  /** An unsigned 8-bit value (Rust `u8`). */
  type Byte = x: int | 0 <= x < 0x100

  /** An unsigned 32-bit value (Rust `u32`). */
  type U32 = x: int | 0 <= x < 0x1_0000_0000

  const U32_MAX: nat := 0xFFFF_FFFF

  /** Division and remainder by n > 0 are determined by the decomposition k == q * n + r. */
  lemma DivModUnique(k: int, n: int, q: int, r: int)
    requires n > 0 && 0 <= r < n && k == q * n + r
    ensures k / n == q && k % n == r
  {
    var q', r' := k / n, k % n;
    assert k == q' * n + r' && 0 <= r' < n;
    if q' > q {
      assert q' * n >= (q + 1) * n by { MulMonotone(q + 1, q', n); }
      assert false;
    } else if q' < q {
      assert q * n >= (q' + 1) * n by { MulMonotone(q' + 1, q, n); }
      assert false;
    }
  }

  /** k is (k / n) * n + k % n, with the remainder below n. */
  lemma DivModDecompose(k: nat, n: nat)
    requires n > 0
    ensures k == (k / n) * n + k % n && 0 <= k % n < n && 0 <= k / n <= k
  {
    var q := k / n;
    assert k == q * n + k % n;
    if q < 0 {
      MulMonotone(q, -1, n);
    } else {
      MulMonotone(1, n, q);
      assert n * q == q * n;
    }
  }

  lemma MulMonotone(a: int, b: int, n: int)
    requires a <= b && n >= 0
    ensures a * n <= b * n
  {
    assert b * n - a * n == (b - a) * n;
  }

  /** The cell (k / n, k % n) of a grid with n columns lies inside it whenever k < rows * n. */
  lemma DivBelow(k: nat, n: nat, rows: nat)
    requires n > 0 && k < rows * n
    ensures k / n < rows
  {
    if k / n >= rows {
      MulMonotone(rows, k / n, n);
    }
  }

  /** The Rust range `lo..hi` as a sequence. */
  function Range(lo: nat, hi: nat): seq<nat>
    requires lo <= hi
  {
    seq(hi - lo, i requires 0 <= i < hi - lo => lo + i)
  }

  /** The elements of `s` in the opposite order (Rust `.rev()`). */
  function Reverse<T>(s: seq<T>): seq<T>
  {
    seq(|s|, i requires 0 <= i < |s| => s[|s| - 1 - i])
  }

  /** Concatenation of all the inner sequences, in order. */
  function Flatten<T>(ss: seq<seq<T>>): seq<T>
  {
    if |ss| == 0 then [] else ss[0] + Flatten(ss[1..])
  }

  /** Element k of a flattening of rows of length n > 0 is element k % n of row k / n. */
  lemma FlattenIndex<T>(ss: seq<seq<T>>, n: nat, k: nat)
    requires forall i :: 0 <= i < |ss| ==> |ss[i]| == n
    requires n > 0 && k < |ss| * n
    ensures k / n < |ss| && k % n < n && |Flatten(ss)| == |ss| * n
    ensures Flatten(ss)[k] == ss[k / n][k % n]
  {
    var q, r := k / n, k % n;
    DivModDecompose(k, n);
    DivBelow(k, n, |ss|);
    FlattenAt(ss, n, q, r);
  }

  lemma {:induction false} FlattenLength<T>(ss: seq<seq<T>>, n: nat)
    requires forall i :: 0 <= i < |ss| ==> |ss[i]| == n
    ensures |Flatten(ss)| == |ss| * n
  {
    if |ss| > 0 {
      FlattenLength(ss[1..], n);
      assert |ss| * n == n + (|ss| - 1) * n;
    }
  }

  lemma {:induction false} FlattenAt<T>(ss: seq<seq<T>>, n: nat, q: nat, r: nat)
    requires forall i :: 0 <= i < |ss| ==> |ss[i]| == n
    requires q < |ss| && r < n
    ensures |Flatten(ss)| == |ss| * n
    ensures q * n + r < |Flatten(ss)| && Flatten(ss)[q * n + r] == ss[q][r]
  {
    FlattenLength(ss, n);
    MulMonotone(q + 1, |ss|, n);
    assert Flatten(ss) == ss[0] + Flatten(ss[1..]);
    if q > 0 {
      FlattenAt(ss[1..], n, q - 1, r);
      assert q * n + r == n + ((q - 1) * n + r);
    }
  }
}
