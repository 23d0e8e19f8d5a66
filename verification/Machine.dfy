/** Go's fixed-width integers: conversions that wrap, division that truncates, and the
    overflow-checked uint64 operations of math/safemath.go. */
module Machine {
  const TWO_63: int := 0x8000_0000_0000_0000
  const TWO_64: int := 0x1_0000_0000_0000_0000
  const MAX_INT64: int := 0x7fff_ffff_ffff_ffff
  const MIN_INT64: int := -0x8000_0000_0000_0000
  const MAX_UINT64: int := 0xffff_ffff_ffff_ffff

  type int64 = x: int | -0x8000_0000_0000_0000 <= x <= 0x7fff_ffff_ffff_ffff
  type uint64 = x: int | 0 <= x <= 0xffff_ffff_ffff_ffff

  predicate Fits(x: int) {
    MIN_INT64 <= x <= MAX_INT64
  }

  /** The int64 that Go computes when the exact result of +, -, * or a conversion is x. */
  function Wrap(x: int): (r: int64)
    ensures Fits(x) ==> r == x
  {
    (x + TWO_63) % TWO_64 - TWO_63
  }

  /** Two integers that the machine cannot tell apart. */
  ghost predicate Congruent(x: int, y: int) {
    exists k: int :: x == y + TWO_64 * k
  }

  lemma WrapCongruent(x: int)
    ensures Congruent(Wrap(x), x)
  {
    var q := (x + TWO_63) / TWO_64;
    assert Wrap(x) == x + TWO_64 * (-q);
  }

  /** uint64(x) */
  function ToUint64(x: int): (r: uint64)
    ensures 0 <= x <= MAX_UINT64 ==> r == x
  {
    x % TWO_64
  }

  /** Go's n / m on int64: rounds toward zero, and only MinInt64 / -1 wraps. */
  function TruncDiv(n: int64, m: int64): (r: int64)
    requires m != 0
    ensures n >= 0 && m > 0 ==> r == n / m
  {
    var x: int := n;
    var y: int := m;
    Wrap(if x >= 0 then x / y else -((-x) / y))
  }

  datatype Checked = Exact(value: uint64) | Overflow

  /** The first of Go's two results. */
  function Stored(c: Checked): uint64 {
    match c
    case Exact(value) => value
    case Overflow => 0
  }

  function CheckedAddU64(a: uint64, b: uint64): Checked {
    if a + b > MAX_UINT64 then Overflow else Exact(a + b)
  }

  function CheckedSubU64(a: uint64, b: uint64): Checked {
    if a < b then Overflow else Exact(a - b)
  }
}
