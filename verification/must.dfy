/** The panicking `Must*` wrappers. A wrapper panics exactly when its checked
    variant returns an error; only the returning path is modelled, so each
    wrapper requires its checked variant to succeed. */
module Must {
  import opened Kinds
  import opened Errors
  import opened Division
  import opened Arith
  import opened Conversion

  /** `MustAdd`: the exact sum, except that the escaping pair MinInt + MinInt
      returns 0 without panicking. */
  function MustAdd(k: Kind, a: int, b: int): (r: int)
    requires Operands(k, a, b) && Add(k, a, b).Ok?
    ensures InRange(k, r)
    ensures if k.signed && a == MinValue(k) && b == MinValue(k) then r == 0 else r == a + b
  {
    AddAsWritten(k, a, b);
    Add(k, a, b).value
  }

  /** `MustSub`: the exact difference, except that the escaping pair
      0 - MinInt returns MinInt without panicking. */
  function MustSub(k: Kind, a: int, b: int): (r: int)
    requires Operands(k, a, b) && Sub(k, a, b).Ok?
    ensures InRange(k, r)
    ensures if k.signed && a == 0 && b == MinValue(k) then r == MinValue(k) else r == a - b
  {
    SubAsWritten(k, a, b);
    Sub(k, a, b).value
  }

  /** `MustMul`: the exact product. */
  function MustMul(k: Kind, a: int, b: int): (r: int)
    requires Operands(k, a, b) && Mul(k, a, b).Ok?
    ensures r == a * b
  {
    MulCorrect(k, a, b);
    Mul(k, a, b).value
  }

  /** `MustDiv`: the quotient rounded toward zero of a nonzero divisor. */
  function MustDiv(k: Kind, a: int, b: int): (r: int)
    requires Operands(k, a, b) && Div(k, a, b).Ok?
    ensures b != 0 && r == TDiv(a, b)
  {
    DivCorrect(k, a, b);
    Div(k, a, b).value
  }

  /** `MustConvert`: v itself, now a value of the target kind. */
  function MustConvert(to: Kind, from: Kind, v: int): (r: int)
    requires ValidKind(to) && ValidKind(from) && InRange(from, v)
    requires Convert(to, from, v).Ok?
    ensures r == v && InRange(to, r)
  {
    ConvertCorrect(to, from, v);
    Convert(to, from, v).value
  }

  /** `MustConvertAny`: the boxed integer itself, now a value of the target
      kind. */
  function MustConvertAny(to: Kind, word: nat, v: Boxed): (r: int)
    requires ValidKind(to) && ValidWord(word) && WellTyped(word, v)
    requires ConvertAny(to, word, v).Ok?
    ensures !v.Other? && r == v.x && InRange(to, r)
  {
    ConvertAnyCorrect(to, word, v);
    ConvertAny(to, word, v).value
  }
}
