/** Go's integer kinds, their value ranges, and the two's-complement
    wrap-around arithmetic that Go performs on them. */
module Kinds {

  /** A Go integer type: `int8` is Kind(true, 8), `uint64` is Kind(false, 64).
      The platform-sized `int`, `uint` and `uintptr` are Kind(true, w),
      Kind(false, w) and Kind(false, w) for the platform's word width w. */
  datatype Kind = Kind(signed: bool, width: nat)

  /** The widths of the types admitted by the `Integer` constraint. */
  predicate ValidWidth(w: nat) {
    w == 8 || w == 16 || w == 32 || w == 64
  }

  predicate ValidKind(k: Kind) {
    ValidWidth(k.width)
  }

  function Pow2(n: nat): (r: nat)
    ensures r >= 1
  {
    if n == 0 then 1 else 2 * Pow2(n - 1)
  }

  lemma {:induction false} Pow2Monotone(a: nat, b: nat)
    requires a <= b
    ensures Pow2(a) <= Pow2(b)
    decreases b
  {
    if a < b {
      Pow2Monotone(a, b - 1);
    }
  }

  /** 2^w: the number of values of a w-bit kind. */
  function Modulus(k: Kind): (m: nat)
    requires ValidKind(k)
    ensures m >= 4
  {
    Pow2Monotone(2, k.width);
    Pow2(k.width)
  }

  /** 2^(w-1): the magnitude of the most negative value of a signed kind. */
  function Half(k: Kind): (h: nat)
    requires ValidKind(k)
    ensures h >= 2 && 2 * h == Modulus(k)
  {
    Pow2Monotone(1, k.width - 1);
    Pow2(k.width - 1)
  }

  function MinValue(k: Kind): int
    requires ValidKind(k)
  {
    if k.signed then -(Half(k) as int) else 0
  }

  function MaxValue(k: Kind): int
    requires ValidKind(k)
  {
    if k.signed then Half(k) - 1 else Modulus(k) - 1
  }

  /** x is a value of kind k. */
  predicate InRange(k: Kind, x: int)
    requires ValidKind(k)
  {
    MinValue(k) <= x <= MaxValue(k)
  }

  lemma {:induction false} MultipleAtLeast(d: nat, m: nat)
    requires d >= 1
    ensures d * m >= m
    decreases d
  {
    if d > 1 {
      MultipleAtLeast(d - 1, m);
      assert d * m == (d - 1) * m + m;
    }
  }

  /** A nonzero multiple of m is at least m away from zero. */
  lemma MultipleApart(d: int, m: int)
    requires m > 0 && d != 0
    ensures d * m >= m || d * m <= -m
  {
    if d > 0 {
      MultipleAtLeast(d, m);
    } else {
      MultipleAtLeast(-d, m);
      assert d * m == -((-d) * m);
    }
  }

  /** The only multiple of m strictly between -m and m is zero. */
  lemma SmallMultiple(d: int, m: int)
    requires m > 0 && -m < d * m < m
    ensures d == 0
  {
    if d != 0 {
      MultipleApart(d, m);
    }
  }

  lemma DivMod(y: int, m: int)
    requires m > 0
    ensures y == (y / m) * m + y % m && 0 <= y % m < m
  {
  }

  /** Euclidean remainder is the unique representative of x in [0, m). */
  lemma ModUnique(x: int, m: int, q: int)
    requires m > 0 && 0 <= x + q * m < m
    ensures x % m == x + q * m
  {
    DivMod(x, m);
    var d := x / m;
    var r := x % m;
    assert (d + q) * m == d * m + q * m;
    SmallMultiple(d + q, m);
  }

  lemma ModSmall(x: int, m: int)
    requires m > 0
    ensures 0 <= x < m ==> x % m == x
  {
    if 0 <= x < m {
      ModUnique(x, m, 0);
    }
  }

  /** The value of kind k that Go stores for the exact integer x: x reduced
      modulo 2^w into the kind's range (truncation to w bits, then
      two's-complement reinterpretation for signed kinds). */
  function Wrap(k: Kind, x: int): (r: int)
    requires ValidKind(k)
    ensures InRange(k, r)
    ensures InRange(k, x) ==> r == x
  {
    if k.signed then
      ModSmall(x + Half(k), Modulus(k));
      (x + Half(k)) % Modulus(k) - Half(k)
    else
      ModSmall(x, Modulus(k));
      x % Modulus(k)
  }

  /** Wrap(k, x) is the only value of k congruent to x modulo 2^w. */
  lemma WrapUnique(k: Kind, x: int, q: int)
    requires ValidKind(k) && InRange(k, x + q * Modulus(k))
    ensures Wrap(k, x) == x + q * Modulus(k)
  {
    if k.signed {
      ModUnique(x + Half(k), Modulus(k), q);
    } else {
      ModUnique(x, Modulus(k), q);
    }
  }

  /** Wrapping moves x by a whole number of multiples of 2^w. */
  lemma WrapShift(k: Kind, x: int) returns (q: int)
    requires ValidKind(k)
    ensures Wrap(k, x) == x + q * Modulus(k)
  {
    var m := Modulus(k);
    var y := if k.signed then x + Half(k) else x;
    DivMod(y, m);
    var d := y / m;
    q := -d;
    assert q * m == -(d * m);
    assert Wrap(k, x) == y % m - (y - x);
  }

  /** Wrapping either leaves x alone or moves it by at least 2^w. */
  lemma WrapApart(k: Kind, x: int)
    requires ValidKind(k)
    ensures Wrap(k, x) == x || Wrap(k, x) - x >= Modulus(k) || x - Wrap(k, x) >= Modulus(k)
  {
    var q := WrapShift(k, x);
    if q != 0 {
      MultipleApart(q, Modulus(k));
    }
  }

  /** Go's unary minus on a value of kind k. */
  function Neg(k: Kind, x: int): int
    requires ValidKind(k)
  {
    Wrap(k, -x)
  }

  /** Go's bitwise complement `^x`: in two's complement, ^x is -x - 1. */
  function Not(k: Kind, x: int): int
    requires ValidKind(k)
  {
    Wrap(k, -x - 1)
  }

  /** The source's signedness test: the complement of zero is negative. */
  predicate IsSigned(k: Kind)
    requires ValidKind(k)
  {
    Not(k, 0) < 0
  }

  /** The complement-of-zero test recognises exactly the signed kinds, where
      ^0 is -1; for unsigned kinds ^0 is the all-ones maximum. */
  lemma IsSignedCorrect(k: Kind)
    requires ValidKind(k)
    ensures IsSigned(k) <==> k.signed
    ensures k.signed ==> Not(k, 0) == -1
    ensures !k.signed ==> Not(k, 0) == MaxValue(k)
  {
    if !k.signed {
      WrapUnique(k, -1, 1);
    }
  }

  /** A nonzero value equals its own negation exactly when it is the most
      negative value of a signed kind, or 2^(w-1) of an unsigned kind. */
  lemma NegSelf(k: Kind, b: int)
    requires ValidKind(k) && InRange(k, b) && b != 0
    ensures Neg(k, b) == b <==> (if k.signed then b == MinValue(k) else b == Half(k))
  {
    if k.signed {
      if b == MinValue(k) {
        WrapUnique(k, -b, -1);
      }
    } else {
      WrapUnique(k, -b, 1);
    }
  }
}
