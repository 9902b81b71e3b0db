/**
 * `add`, `multiply` and `memory_intensive`: plain `i32` arithmetic. Rust's
 * `+`, `*` and `sum` panic on overflow in a debug build and wrap in a release
 * build; the model excludes overflow by preconditions and shows, with `Wrap`,
 * that both builds agree wherever those preconditions hold.
 */
module Arithmetic {
  import opened FixedWidth

  predicate InI32(x: int) { I32_MIN <= x <= I32_MAX }

  /** Two's-complement wrap-around of a release build. */
  function Wrap(x: int): (r: i32)
    ensures (r as int - x) % U32_MODULUS == 0
    ensures InI32(x) ==> r as int == x
  {
    ((x - I32_MIN) % U32_MODULUS + I32_MIN) as i32
  }

  /** `add(a, b)`, for arguments whose sum is an `i32`. */
  function Add(a: i32, b: i32): (r: i32)
    requires InI32(a as int + b as int)
    ensures r as int == a as int + b as int
    ensures r == Wrap(a as int + b as int)
  {
    a + b
  }

  /** `multiply(a, b)`, for arguments whose product is an `i32`. */
  function Multiply(a: i32, b: i32): (r: i32)
    requires InI32(a as int * b as int)
    ensures r as int == a as int * b as int
    ensures r == Wrap(a as int * b as int)
  {
    a * b
  }

  /** A release build wraps `add(2147483647, 1)` to the smallest `i32`; a
      debug build panics, and `Add` does not accept it. */
  lemma AddOverflowWraps()
    ensures !InI32(I32_MAX + 1)
    ensures Wrap(I32_MAX + 1) as int == I32_MIN
  {
  }

  /** `size as i32`: keeps the low 32 bits of a (32-bit) `usize` and reads
      them as signed. */
  function AsI32(size: nat): (n: int)
    requires size < U32_MODULUS
    ensures InI32(n)
    ensures (n - size) % U32_MODULUS == 0
    ensures size <= I32_MAX ==> n == size
    ensures size > I32_MAX ==> n < 0 && n == size - U32_MODULUS
  {
    if size <= I32_MAX then size else size - U32_MODULUS
  }

  /** Length of the range `0..size as i32`: empty when the cast is negative. */
  function RangeLength(size: nat): (n: nat)
    requires size < U32_MODULUS
    ensures n <= size
    ensures size <= I32_MAX ==> n == size
    ensures size > I32_MAX ==> n == 0
  {
    var end := AsI32(size);
    if end <= 0 then 0 else end
  }

  /** 0 + 1 + ... + (n - 1), which Gauss's formula gives in closed form. */
  function SumBelow(n: nat): (r: nat)
    ensures 2 * r == n * (n - 1)
  {
    if n == 0 then 0 else SumBelow(n - 1) + (n - 1)
  }

  lemma {:induction false} SumBelowMonotone(m: nat, n: nat)
    requires m <= n
    ensures SumBelow(m) <= SumBelow(n)
    decreases n - m
  {
    if m < n {
      SumBelowMonotone(m, n - 1);
    }
  }

  /** The sum fits in an `i32` exactly for ranges of at most 65536 elements. */
  lemma SumBelowFitsExactly(n: nat)
    ensures SumBelow(n) <= I32_MAX <==> n <= 65536
  {
    assert SumBelow(65536) == 2147450880;
    assert SumBelow(65537) == 2147516416;
    if n <= 65536 {
      SumBelowMonotone(n, 65536);
    } else {
      SumBelowMonotone(65537, n);
    }
  }

  /** `memory_intensive(size)`: collect `0..size as i32` into a vector, then sum
      it, for sizes whose sum does not overflow `i32`. */
  method MemoryIntensive(size: nat) returns (total: i32)
    requires size < U32_MODULUS
    requires SumBelow(RangeLength(size)) <= I32_MAX
    ensures total as int == SumBelow(RangeLength(size))
  {
    var len := RangeLength(size);
    var vec := new i32[len];
    for i := 0 to len
      invariant forall k :: 0 <= k < i ==> vec[k] as int == k
    {
      vec[i] := i as i32;
    }
    total := 0;
    for i := 0 to len
      invariant forall k :: 0 <= k < len ==> vec[k] as int == k
      invariant total as int == SumBelow(i)
    {
      SumBelowMonotone(i + 1, len);
      total := total + vec[i];
    }
  }

  /** The result of `memory_intensive` in closed form: size * (size - 1) / 2
      for every size whose sum fits, and 0 for size 0 and for every size the
      cast makes negative. */
  lemma MemoryIntensiveResult(size: nat)
    requires size < U32_MODULUS
    ensures SumBelow(RangeLength(size)) == RangeLength(size) * (RangeLength(size) - 1) / 2
    ensures size <= 65536 ==> 2 * SumBelow(RangeLength(size)) == size * (size - 1)
    ensures SumBelow(RangeLength(size)) <= I32_MAX <==> size <= 65536 || size > I32_MAX
    ensures size == 0 || size > I32_MAX ==> SumBelow(RangeLength(size)) == 0
  {
    SumBelowFitsExactly(RangeLength(size));
  }

  lemma MemoryIntensiveExamples()
    ensures SumBelow(RangeLength(5)) == 10
    ensures SumBelow(RangeLength(0)) == 0
    ensures SumBelow(RangeLength(65536)) == 2147450880
  {
    assert 2 * SumBelow(65536) == 65536 * 65535;
  }
}
