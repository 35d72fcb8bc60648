/** The checked arithmetic kernel: Add, Sub, Mul and Div on one integer kind,
    deciding overflow from same-width wrapped results only. */
module Arith {
  import opened Kinds
  import opened Errors
  import opened Division

  /** Operands of a binary operation on kind k. */
  predicate Operands(k: Kind, a: int, b: int) {
    ValidKind(k) && InRange(k, a) && InRange(k, b)
  }

  /** The outcome an exact operation promises for the exact result x. */
  function Checked(k: Kind, x: int): Result
    requires ValidKind(k)
  {
    if InRange(k, x) then Ok(x) else Err(Overflow)
  }

  // ---------------------------------------------------------------- Add

  /** `Add`: wrapped sum, overflow judged by the signs of operands and result. */
  function Add(k: Kind, a: int, b: int): (r: Result)
    requires Operands(k, a, b)
    ensures r.Ok? ==> InRange(k, r.value)
    ensures r.Err? ==> r.error == Overflow
  {
    var c := Wrap(k, a + b);
    if IsSigned(k) then
      if (a > 0 && b > 0 && c < 0) || (a < 0 && b < 0 && c > 0) then Err(Overflow) else Ok(c)
    else
      if c < a then Err(Overflow) else Ok(c)
  }

  /** Where the exact sum leaves the range, the wrapped sum is one modulus away. */
  lemma WrapSumOrDifference(k: Kind, x: int)
    requires ValidKind(k)
    requires MinValue(k) - Modulus(k) <= x <= MaxValue(k) + Modulus(k)
    ensures x > MaxValue(k) ==> Wrap(k, x) == x - Modulus(k)
    ensures x < MinValue(k) ==> Wrap(k, x) == x + Modulus(k)
  {
    if x > MaxValue(k) {
      WrapUnique(k, x, -1);
    } else if x < MinValue(k) {
      WrapUnique(k, x, 1);
    }
  }

  /** Add returns the exact sum when it is a value of k and Overflow when it
      is not, except for the one signed pair handled by AddMinMinEscapes.
      For unsigned kinds the test `c < a` is exactly the overflow test. */
  lemma AddCorrect(k: Kind, a: int, b: int)
    requires Operands(k, a, b)
    requires !(k.signed && a == MinValue(k) && b == MinValue(k))
    ensures Add(k, a, b) == Checked(k, a + b)
    ensures !k.signed ==> (Wrap(k, a + b) < a <==> !InRange(k, a + b))
  {
    IsSignedCorrect(k);
    WrapSumOrDifference(k, a + b);
  }

  /** The wrapped sum of the most negative value with itself is 0, which
      neither sign test catches, so Add reports success with 0. */
  lemma AddMinMinEscapes(k: Kind)
    requires ValidKind(k) && k.signed
    ensures !InRange(k, MinValue(k) + MinValue(k))
    ensures Add(k, MinValue(k), MinValue(k)) == Ok(0)
  {
    IsSignedCorrect(k);
    WrapSumOrDifference(k, MinValue(k) + MinValue(k));
  }

  /** The complete behaviour of Add as written. */
  lemma AddAsWritten(k: Kind, a: int, b: int)
    requires Operands(k, a, b)
    ensures Add(k, a, b) == if k.signed && a == MinValue(k) && b == MinValue(k) then Ok(0) else Checked(k, a + b)
  {
    if k.signed && a == MinValue(k) && b == MinValue(k) {
      AddMinMinEscapes(k);
    } else {
      AddCorrect(k, a, b);
    }
  }

  /** Add with the negative-overflow test corrected to `c >= 0`. */
  function AddFixed(k: Kind, a: int, b: int): (r: Result)
    requires Operands(k, a, b)
    ensures r == Checked(k, a + b)
  {
    IsSignedCorrect(k);
    WrapSumOrDifference(k, a + b);
    var c := Wrap(k, a + b);
    if IsSigned(k) then
      if (a > 0 && b > 0 && c < 0) || (a < 0 && b < 0 && c >= 0) then Err(Overflow) else Ok(c)
    else
      if c < a then Err(Overflow) else Ok(c)
  }

  /** The correction changes nothing outside the escaping pair. */
  lemma AddFixedAgrees(k: Kind, a: int, b: int)
    requires Operands(k, a, b)
    ensures AddFixed(k, a, b) == Add(k, a, b) <==> !(k.signed && a == MinValue(k) && b == MinValue(k))
  {
    AddAsWritten(k, a, b);
  }

  // ---------------------------------------------------------------- Sub

  /** `Sub`: wrapped difference; signed overflow judged by signs, unsigned
      underflow by `a < b`. */
  function Sub(k: Kind, a: int, b: int): (r: Result)
    requires Operands(k, a, b)
    ensures r.Ok? ==> InRange(k, r.value)
    ensures r.Err? ==> r.error == Overflow
  {
    var c := Wrap(k, a - b);
    if IsSigned(k) then
      if (a > 0 && b < 0 && c < 0) || (a < 0 && b > 0 && c > 0) then Err(Overflow) else Ok(c)
    else
      if a < b then Err(Overflow) else Ok(c)
  }

  /** Sub returns the exact difference when it is a value of k and Overflow
      when it is not, except for 0 minus the most negative value; for
      unsigned kinds it fails exactly when a < b. */
  lemma SubCorrect(k: Kind, a: int, b: int)
    requires Operands(k, a, b)
    requires !(k.signed && a == 0 && b == MinValue(k))
    ensures Sub(k, a, b) == Checked(k, a - b)
    ensures !k.signed ==> (Sub(k, a, b).Err? <==> a < b)
  {
    IsSignedCorrect(k);
    WrapSumOrDifference(k, a - b);
  }

  /** 0 minus the most negative value wraps back to the most negative value;
      as the minuend is neither positive nor negative, Sub reports success. */
  lemma SubZeroMinEscapes(k: Kind)
    requires ValidKind(k) && k.signed
    ensures !InRange(k, 0 - MinValue(k))
    ensures Sub(k, 0, MinValue(k)) == Ok(MinValue(k))
  {
    IsSignedCorrect(k);
    WrapSumOrDifference(k, 0 - MinValue(k));
  }

  /** The complete behaviour of Sub as written. */
  lemma SubAsWritten(k: Kind, a: int, b: int)
    requires Operands(k, a, b)
    ensures Sub(k, a, b) == if k.signed && a == 0 && b == MinValue(k) then Ok(MinValue(k)) else Checked(k, a - b)
  {
    if k.signed && a == 0 && b == MinValue(k) {
      SubZeroMinEscapes(k);
    } else {
      SubCorrect(k, a, b);
    }
  }

  /** Sub with the positive-overflow test corrected to `a >= 0`. */
  function SubFixed(k: Kind, a: int, b: int): (r: Result)
    requires Operands(k, a, b)
    ensures r == Checked(k, a - b)
  {
    IsSignedCorrect(k);
    WrapSumOrDifference(k, a - b);
    var c := Wrap(k, a - b);
    if IsSigned(k) then
      if (a >= 0 && b < 0 && c < 0) || (a < 0 && b > 0 && c > 0) then Err(Overflow) else Ok(c)
    else
      if a < b then Err(Overflow) else Ok(c)
  }

  /** The correction changes nothing outside the escaping pair. */
  lemma SubFixedAgrees(k: Kind, a: int, b: int)
    requires Operands(k, a, b)
    ensures SubFixed(k, a, b) == Sub(k, a, b) <==> !(k.signed && a == 0 && b == MinValue(k))
  {
    SubAsWritten(k, a, b);
  }

  // ---------------------------------------------------------------- Mul

  /** The hazardous signed pair of Mul: -1 and the most negative value, in
      either order, as the source detects it (`^T(0)` and `x == -x`). */
  predicate MulHazard(k: Kind, a: int, b: int)
    requires ValidKind(k)
  {
    IsSigned(k) && ((a == Not(k, 0) && b == Neg(k, b)) || (b == Not(k, 0) && a == Neg(k, a)))
  }

  /** Once the zero operands and the hazardous pair are excluded, the trial
      division `c / a` of Mul never traps. */
  lemma MulDivisionTrapFree(k: Kind, a: int, b: int)
    requires Operands(k, a, b) && a != 0 && b != 0 && !MulHazard(k, a, b)
    ensures !(k.signed && Wrap(k, a * b) == MinValue(k) && a == -1)
  {
    IsSignedCorrect(k);
    if k.signed && a == -1 {
      NegSelf(k, b);
      if b != MinValue(k) {
        assert a * b == -b;
      }
    }
  }

  /** `Mul`: zero short-circuit, the signed -1 * MinInt pre-check, then the
      wrapped product verified by trial division. */
  function Mul(k: Kind, a: int, b: int): (r: Result)
    requires Operands(k, a, b)
    ensures r.Ok? ==> InRange(k, r.value)
    ensures r.Err? ==> r.error == Overflow
  {
    if a == 0 || b == 0 then Ok(0)
    else if MulHazard(k, a, b) then Err(Overflow)
    else
      var c := Wrap(k, a * b);
      MulDivisionTrapFree(k, a, b);
      if Quo(k, c, a) != b then Err(Overflow) else Ok(c)
  }

  /** The trial division `c / a != b` is sound and complete: apart from the
      pairs Mul settles before it, it fails exactly when the exact product
      is not a value of k. */
  lemma TrialDivisionCorrect(k: Kind, a: int, b: int)
    requires Operands(k, a, b) && a != 0 && b != 0 && !MulHazard(k, a, b)
    ensures !(k.signed && Wrap(k, a * b) == MinValue(k) && a == -1)
    ensures Quo(k, Wrap(k, a * b), a) == b <==> InRange(k, a * b)
  {
    MulDivisionTrapFree(k, a, b);
    var c := Wrap(k, a * b);
    if InRange(k, a * b) {
      assert a * b == b * a;
      TDivMultiple(b, a);
    } else {
      // c is at least 2^w away from a * b, but c - (c / a) * a is smaller
      // than |a|, which is below 2^w.
      WrapApart(k, a * b);
      TDivRemainder(c, a);
    }
  }

  /** Mul returns the exact product when it is a value of k and Overflow when
      it is not, for every pair of operands: zero operands give 0, and -1
      times the most negative value fails in either order. */
  lemma MulCorrect(k: Kind, a: int, b: int)
    requires Operands(k, a, b)
    ensures Mul(k, a, b) == Checked(k, a * b)
  {
    IsSignedCorrect(k);
    if a == 0 || b == 0 {
    } else if MulHazard(k, a, b) {
      NegSelf(k, a);
      NegSelf(k, b);
    } else {
      TrialDivisionCorrect(k, a, b);
    }
  }

  // ---------------------------------------------------------------- Div

  /** `Div`: division by zero, the signed MinInt / -1 overflow, otherwise
      Go's truncating quotient. */
  function Div(k: Kind, a: int, b: int): (r: Result)
    requires Operands(k, a, b)
    ensures r.Ok? ==> InRange(k, r.value)
    ensures r == Err(DivisionByZero) <==> b == 0
  {
    if b == 0 then Err(DivisionByZero)
    else if IsSigned(k) && b == Not(k, 0) && a != 0 && a == Neg(k, a) then Err(Overflow)
    else
      DivTrapFree(k, a, b);
      Ok(Quo(k, a, b))
  }

  /** The test `b == ^0 && a != 0 && a == -a` singles out MinInt / -1, so the
      division Div performs never traps. */
  lemma DivTrapFree(k: Kind, a: int, b: int)
    requires Operands(k, a, b) && b != 0
    ensures (IsSigned(k) && b == Not(k, 0) && a != 0 && a == Neg(k, a))
        <==> (k.signed && b == -1 && a == MinValue(k))
  {
    IsSignedCorrect(k);
    if a != 0 {
      NegSelf(k, a);
    }
  }

  /** Div fails with DivisionByZero exactly when b is 0, with Overflow
      exactly for a signed MinInt / -1, and otherwise returns the quotient
      rounded toward zero, which is then always a value of k. */
  lemma DivCorrect(k: Kind, a: int, b: int)
    requires Operands(k, a, b)
    ensures b == 0 ==> Div(k, a, b) == Err(DivisionByZero)
    ensures b != 0 ==> Div(k, a, b) == Checked(k, TDiv(a, b))
    ensures Div(k, a, b) == Err(Overflow) <==> (k.signed && b == -1 && a == MinValue(k))
  {
    if b != 0 {
      DivTrapFree(k, a, b);
      if k.signed && b == -1 && a == MinValue(k) {
        TDivMultiple(-a, b);
        assert -a * b == a;
      }
    }
  }
}
