/** Go's integer division, which truncates toward zero (unlike Dafny's
    Euclidean `/`), and its trap condition. */
module Division {
  import opened Kinds

  function Abs(x: int): nat {
    if x < 0 then -x else x
  }

  /** a divided by b, rounded toward zero. */
  function TDiv(a: int, b: int): (q: int)
    requires b != 0
    ensures Abs(q) * Abs(b) <= Abs(a) < (Abs(q) + 1) * Abs(b)
    ensures q > 0 ==> (a < 0) == (b < 0)
    ensures q < 0 ==> (a < 0) != (b < 0)
  {
    DivMod(Abs(a), Abs(b));
    var n := Abs(a) / Abs(b);
    if (a < 0) == (b < 0) then n else -n
  }

  /** The quotient is determined by the truncation property of TDiv. */
  lemma TDivUnique(a: int, b: int, q: int)
    requires b != 0
    requires Abs(q) * Abs(b) <= Abs(a) < (Abs(q) + 1) * Abs(b)
    requires q > 0 ==> (a < 0) == (b < 0)
    requires q < 0 ==> (a < 0) != (b < 0)
    ensures TDiv(a, b) == q
  {
    var t := TDiv(a, b);
    var n := Abs(b);
    assert (Abs(q) - Abs(t)) * n == Abs(q) * n - Abs(t) * n;
    assert (Abs(q) + 1) * n == Abs(q) * n + n;
    assert (Abs(t) + 1) * n == Abs(t) * n + n;
    SmallMultiple(Abs(q) - Abs(t), n);
  }

  /** Truncating division leaves a remainder smaller than the divisor. */
  lemma TDivRemainder(x: int, d: int)
    requires d != 0
    ensures Abs(x - TDiv(x, d) * d) < Abs(d)
  {
  }

  lemma MultipleNonneg(d: nat, m: nat)
    ensures d * m >= 0
  {
  }

  /** Dividing an exact multiple recovers the factor. */
  lemma TDivMultiple(q: int, b: int)
    requires b != 0
    ensures TDiv(q * b, b) == q
  {
    ProductSign(q, b);
    assert (Abs(q) + 1) * Abs(b) == Abs(q) * Abs(b) + Abs(b);
    TDivUnique(q * b, b, q);
  }

  lemma ProductSign(x: int, y: int)
    requires y != 0
    ensures Abs(x * y) == Abs(x) * Abs(y)
    ensures x > 0 ==> (x * y < 0) == (y < 0)
    ensures x < 0 ==> (x * y < 0) != (y < 0)
  {
    if x < 0 {
      assert x * y == -((-x) * y);
    }
    if y < 0 {
      assert x * y == -(x * (-y));
    }
    if x < 0 && y < 0 {
      assert x * y == (-x) * (-y);
    }
    if x > 0 && y > 0 {
      MultipleAtLeast(x, y);
    } else if x < 0 && y > 0 {
      MultipleAtLeast(-x, y);
    } else if x > 0 && y < 0 {
      MultipleAtLeast(x, -y);
    } else if x < 0 && y < 0 {
      MultipleAtLeast(-x, -y);
    }
  }

  /** The quotient is no larger in magnitude than the dividend, and at most
      half of it when the divisor is at least 2 in magnitude. */
  lemma TDivBounds(a: int, b: int)
    requires b != 0
    ensures Abs(TDiv(a, b)) <= Abs(a)
    ensures Abs(b) >= 2 ==> 2 * Abs(TDiv(a, b)) <= Abs(a)
  {
    FactorBound(Abs(TDiv(a, b)), Abs(b), Abs(a));
  }

  lemma FactorBound(q: nat, n: nat, x: nat)
    requires n >= 1 && q * n <= x
    ensures q <= x
    ensures n >= 2 ==> 2 * q <= x
  {
    MultipleAtLeast(n, q);
    assert q * n == n * q;
    if n >= 2 {
      assert q * n == q * 2 + q * (n - 2);
      MultipleNonneg(q, n - 2);
    }
  }

  /** Go's `a / b` on values of kind k. The precondition is the trap
      condition of the hardware division: a zero divisor, or the most
      negative value divided by -1. Under it the quotient is a value of k. */
  function Quo(k: Kind, a: int, b: int): (q: int)
    requires ValidKind(k) && InRange(k, a) && InRange(k, b) && b != 0
    requires !(k.signed && a == MinValue(k) && b == -1)
    ensures InRange(k, q)
  {
    TDivBounds(a, b);
    TDiv(a, b)
  }
}
