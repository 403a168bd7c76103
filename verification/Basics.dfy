/** Small definitions that several modules share. */
module Basics {

  datatype Option<T> = None | Some(value: T)

  /** A byte as a number. */
  type Byte = x: int | 0 <= x < 256

  function Min(a: nat, b: nat): nat { if a < b then a else b }

  function Max(a: nat, b: nat): nat { if b > a then b else a }

  function Pow2(e: nat): (p: int)
    ensures p > 0
  {
    if e == 0 then 1 else 2 * Pow2(e - 1)
  }

  /** The rows of a table of width n lie one behind the other. */
  lemma Row(a: nat, b: nat, n: nat)
    ensures a < b ==> a * n + n <= b * n
  {
    if a < b { assert (a + 1) * n <= b * n; }
  }

  lemma ModUnique(q: nat, r: nat, n: nat)
    requires r < n
    ensures (q * n + r) % n == r && (q * n + r) / n == q
  {
    var x := q * n + r;
    Row(q, x / n, n);
    Row(x / n, q, n);
  }

  lemma MulMod(k: int, y: nat)
    requires y > 0
    ensures k * y % y == 0
  {
    var q, r := k * y / y, k * y % y;
    MulBound(k - q, y);
    assert (k - q) * y == r;
  }

  lemma MulBound(a: int, y: nat)
    ensures a >= 1 ==> a * y >= y
    ensures a <= -1 ==> a * y + y <= 0
  {}

  lemma Associate<T>(a: seq<T>, b: seq<T>, c: seq<T>)
    ensures (a + b) + c == a + (b + c)
  {}
}
