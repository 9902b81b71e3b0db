/**
 * `hash_string`: the djb2 hash of a string's UTF-8 bytes, computed in
 * 32-bit unsigned arithmetic that wraps around.
 */
module Hashing {
  import opened FixedWidth
  import opened Unicode

  /** The starting value of the hash. */
  const SEED: u32 := 5381

  /** `u32::wrapping_add`. */
  function WrappingAdd(a: u32, b: u32): u32
  {
    ((a as int + b as int) % U32_MODULUS) as u32
  }

  /** `h << 5` on a `u32`: the bits shifted past bit 31 are lost. */
  function ShiftLeft5(h: u32): u32
  {
    (h as int * 32 % U32_MODULUS) as u32
  }

  /** One djb2 step as the algorithm is usually stated: h * 33 + b modulo 2^32. */
  function Step(h: u32, b: byte): u32
  {
    ((33 * h as int + b as int) % U32_MODULUS) as u32
  }

  /** Reducing modulo 2^32 before an addition changes nothing. */
  lemma ModAddLeft(a: int, c: int)
    ensures (a % U32_MODULUS + c) % U32_MODULUS == (a + c) % U32_MODULUS
  {
    var q := a / U32_MODULUS;
    assert a == q * U32_MODULUS + a % U32_MODULUS;
  }

  /** The loop body of `hash_string`, `((h << 5) wrapping+ h) wrapping+ b`,
      is one djb2 step. */
  lemma ShiftAddIsStep(h: u32, b: byte)
    ensures WrappingAdd(WrappingAdd(ShiftLeft5(h), h), b as int as u32) == Step(h, b)
  {
    ModAddLeft(h as int * 32, h as int);
    ModAddLeft(h as int * 33, b as int);
  }

  /** Left fold of `Step` over `bs`, starting from `seed`. Wrapping at every
      step gives the same result as evaluating the polynomial exactly and
      reducing once at the end. */
  function HashFrom(seed: u32, bs: seq<byte>): (h: u32)
    ensures h as int == Polynomial(seed as int, bs) % U32_MODULUS
  {
    if bs == [] then seed
    else
      var init, last := bs[..|bs| - 1], bs[|bs| - 1];
      ModMulAdd(Polynomial(seed as int, init), last as int);
      Step(HashFrom(seed, init), last)
  }

  /** The djb2 hash of a byte string: 5381 * 33^n + b0 * 33^(n-1) + ... + b(n-1)
      modulo 2^32. */
  function Djb2(bs: seq<byte>): (h: u32)
    ensures h as int == Polynomial(5381, bs) % U32_MODULUS
  {
    HashFrom(SEED, bs)
  }

  /** `hash_string(s)`: the loop over `s.bytes()`, as the source writes it. */
  method HashString(s: string) returns (h: u32)
    ensures h == Djb2(Encode(s))
  {
    var bytes := Encode(s);
    h := SEED;
    for i := 0 to |bytes|
      invariant h == HashFrom(SEED, bytes[..i])
    {
      ShiftAddIsStep(h, bytes[i]);
      assert bytes[..i + 1][..i] == bytes[..i];
      h := WrappingAdd(WrappingAdd(ShiftLeft5(h), h), bytes[i] as int as u32);
    }
    assert bytes[..|bytes|] == bytes;
  }

  /** The hash without any wrap-around: Horner's rule for the polynomial
      seed * 33^n + b0 * 33^(n-1) + ... + b(n-1). */
  function Polynomial(seed: int, bs: seq<byte>): int
  {
    if bs == [] then seed else 33 * Polynomial(seed, bs[..|bs| - 1]) + bs[|bs| - 1] as int
  }

  lemma ModMulAdd(p: int, c: int)
    ensures (33 * (p % U32_MODULUS) + c) % U32_MODULUS == (33 * p + c) % U32_MODULUS
  {
    var q := p / U32_MODULUS;
    assert p == q * U32_MODULUS + p % U32_MODULUS;
    assert 33 * p + c == 33 * q * U32_MODULUS + (33 * (p % U32_MODULUS) + c);
    ModMultiple(33 * q, 33 * (p % U32_MODULUS) + c);
  }

  lemma ModMultiple(k: int, x: int)
    ensures (k * U32_MODULUS + x) % U32_MODULUS == x % U32_MODULUS
  {
  }

  /** Hashing can be resumed: the hash of `a + b` continues from the hash of `a`. */
  lemma {:induction false} HashFromAppend(seed: u32, a: seq<byte>, b: seq<byte>)
    ensures HashFrom(seed, a + b) == HashFrom(HashFrom(seed, a), b)
  {
    if b == [] {
      assert a + b == a;
    } else {
      var ab := a + b;
      assert ab[..|ab| - 1] == a + b[..|b| - 1];
      HashFromAppend(seed, a, b[..|b| - 1]);
    }
  }

  /** The hash of a concatenation of strings continues from the hash of the
      first one over the bytes of the second. */
  lemma HashStringAppend(s: string, t: string)
    ensures Djb2(Encode(s + t)) == HashFrom(Djb2(Encode(s)), Encode(t))
  {
    EncodeAppend(s, t);
    HashFromAppend(SEED, Encode(s), Encode(t));
  }

  lemma HashExamples()
    ensures Djb2(Encode("")) == 5381
    ensures Djb2(Encode("a")) == 177670
    ensures Djb2(Encode("ab")) == 5863208
    ensures Djb2(Encode("ba")) == 5863240
  {
    assert Encode("a") == [97];
    assert Encode("ab") == [97, 98];
    assert Encode("ba") == [98, 97];
  }
}
