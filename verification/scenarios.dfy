/** Concrete cases the package's own tests and examples describe, derived
    from the general lemmas. */
module Scenarios {
  import opened Kinds
  import opened Errors
  import opened Arith
  import opened Conversion

  const I8 := Kind(true, 8)
  const U8 := Kind(false, 8)
  const U16 := Kind(false, 16)
  const I64 := Kind(true, 64)
  const U64 := Kind(false, 64)

  lemma {:induction false} Pow2Add(a: nat, b: nat)
    ensures Pow2(a + b) == Pow2(a) * Pow2(b)
    decreases b
  {
    if b > 0 {
      Pow2Add(a, b - 1);
    }
  }

  lemma Widths()
    ensures Half(I8) == 128 && Modulus(U8) == 256 && Modulus(U16) == 65536
    ensures Half(I64) == 0x8000_0000_0000_0000
    ensures Modulus(U64) == 0x1_0000_0000_0000_0000
  {
    Pow2Add(16, 15);
    Pow2Add(16, 16);
    Pow2Add(32, 31);
    Pow2Add(32, 32);
  }

  /** Overflow at the edges of int8 and uint8, and ordinary results. */
  lemma ArithmeticScenarios()
    ensures Add(I8, 1, 2) == Ok(3)
    ensures Add(I8, 127, 1) == Err(Overflow)
    ensures Add(I8, -128, -1) == Err(Overflow)
    ensures Add(U8, 255, 1) == Err(Overflow)
    ensures Sub(I8, -128, 1) == Err(Overflow)
    ensures Sub(I8, 127, -1) == Err(Overflow)
    ensures Sub(U8, 0, 1) == Err(Overflow)
    ensures Mul(I8, 127, 2) == Err(Overflow)
    ensures Mul(I8, -1, -128) == Err(Overflow)
    ensures Mul(I8, -128, -1) == Err(Overflow)
    ensures Div(I8, -128, -1) == Err(Overflow)
    ensures Div(I8, 100, 0) == Err(DivisionByZero)
    ensures Div(I8, 100, 4) == Ok(25)
    ensures Div(I8, -7, 2) == Ok(-3)
    ensures Mul(I8, 10, 10) == Ok(100)
    ensures Mul(I64, 10, 0) == Ok(0)
  {
    Widths();
    AddCorrect(I8, 1, 2);
    AddCorrect(I8, 127, 1);
    AddCorrect(I8, -128, -1);
    AddCorrect(U8, 255, 1);
    SubCorrect(I8, -128, 1);
    SubCorrect(I8, 127, -1);
    SubCorrect(U8, 0, 1);
    MulCorrect(I8, 127, 2);
    MulCorrect(I8, -1, -128);
    MulCorrect(I8, -128, -1);
    DivCorrect(I8, -128, -1);
    DivCorrect(I8, 100, 0);
    DivCorrect(I8, 100, 4);
    DivCorrect(I8, -7, 2);
    MulCorrect(I8, 10, 10);
    MulCorrect(I64, 10, 0);
  }

  /** The same edges for int64 and uint64. */
  lemma Wide64Scenarios()
    ensures Add(I64, MaxValue(I64), 1) == Err(Overflow)
    ensures Add(I64, MinValue(I64), -1) == Err(Overflow)
    ensures Add(U64, MaxValue(U64), 1) == Err(Overflow)
    ensures Sub(I64, MinValue(I64), 1) == Err(Overflow)
    ensures Sub(U64, 0, 1) == Err(Overflow)
    ensures Mul(I64, MinValue(I64), -1) == Err(Overflow)
    ensures Mul(I64, -1, MinValue(I64)) == Err(Overflow)
    ensures Mul(I64, MaxValue(I64), 2) == Err(Overflow)
    ensures Div(I64, MinValue(I64), -1) == Err(Overflow)
  {
    AddCorrect(I64, MaxValue(I64), 1);
    AddCorrect(I64, MinValue(I64), -1);
    AddCorrect(U64, MaxValue(U64), 1);
    SubCorrect(I64, MinValue(I64), 1);
    SubCorrect(U64, 0, 1);
    MulCorrect(I64, MinValue(I64), -1);
    MulCorrect(I64, -1, MinValue(I64));
    MulCorrect(I64, MaxValue(I64), 2);
    DivCorrect(I64, MinValue(I64), -1);
  }

  /** The conversions the tests reject, and two they accept. */
  lemma ConversionScenarios()
    ensures Convert(I8, U8, 255) == Err(Truncation)
    ensures Convert(I64, U64, Half(I64)) == Err(Truncation)
    ensures Convert(U64, I64, -1) == Err(Truncation)
    ensures Convert(U8, U16, 256) == Err(Truncation)
    ensures Convert(I8, I64, 200) == Err(Truncation)
    ensures Convert(I8, I64, 100) == Ok(100)
    ensures Convert(U64, I64, 10) == Ok(10)
    ensures ConvertAny(U8, 64, Int64(42)) == Ok(42)
    ensures ConvertAny(I64, 64, Other) == Err(InvalidType)
  {
    Widths();
    ConvertCorrect(I8, U8, 255);
    ConvertCorrect(I64, U64, Half(I64));
    ConvertCorrect(U64, I64, -1);
    ConvertCorrect(U8, U16, 256);
    ConvertCorrect(I8, I64, 200);
    ConvertCorrect(I8, I64, 100);
    ConvertCorrect(U64, I64, 10);
    ConvertAnyCorrect(U8, 64, Int64(42));
  }
}
