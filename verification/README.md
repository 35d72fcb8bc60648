# safemath in Dafny

A model of the Go package `safemath`: overflow-checked `Add`, `Sub`, `Mul`
and `Div` over every Go integer type, the lossless conversion `Convert`, the
type-switch dispatcher `ConvertAny`, and the panicking `Must*` wrappers.

A Go integer type is a `Kind(signed, width)` with width 8, 16, 32 or 64; the
platform-sized `int`, `uint` and `uintptr` take the platform word width as a
parameter (32 or 64). Values are mathematical integers inside the kind's
range. Go's fixed-width arithmetic is `Kinds.Wrap` (reduction modulo 2^w into
the kind's range), unary minus is `Kinds.Neg`, the complement `^x` is
`Kinds.Not`, and the package's `isSigned` test (`^zero < 0`) is
`Kinds.IsSigned` (its meaning is proved in `Kinds.IsSignedCorrect`). Go's
conversions `To(v)` and `From(to)` are `Conversion.Cast`, which is the same
reduction into the target kind. The signed pre-check of `Mul` (`a == ^T(0)
&& b == -b`, or the same with the operands swapped) is `Arith.MulHazard`,
built from `Not` and `Neg` exactly as the source writes it. Go's `/` truncates toward zero, so it is its own function,
`Division.TDiv`; `Division.Quo` is Go's `/` on a kind, with the hardware trap
condition (zero divisor, or the most negative value divided by -1) as its
precondition, so that every division the package performs carries a proof
that it cannot trap.

Every checked operation returns an `Errors.Result`: `Ok(value)` or
`Err(error)` with one of `Overflow`, `Truncation`, `DivisionByZero`,
`InvalidType`. All lemmas hold for every valid kind, not a particular width.

Files: `errors.dfy` (error sentinels and results), `kinds.dfy` (kinds,
ranges, wrap-around), `division.dfy` (truncating division), `arith.dfy`
(Add, Sub, Mul, Div), `conversion.dfy` (Convert, ConvertAny), `must.dfy`
(wrappers), `scenarios.dfy` (the concrete cases of the package's tests).

## Model

| member | source | states |
|---|---|---|
| Kinds.Wrap | safemath.go:18 | the value Go stores for an exact result is a value of the kind, and is the exact result whenever that fits |
| Kinds.IsSignedCorrect | safemath.go:10-14 | `^zero < 0` holds exactly for signed kinds; `^T(0)` is -1 for signed kinds and the all-ones maximum for unsigned ones |
| Kinds.NegSelf | safemath.go:69 | a nonzero value equals its own negation exactly when it is MinInt of a signed kind (2^(w-1) of an unsigned kind) |
| Division.TDiv | safemath.go:98 | Go's quotient: magnitude is the floor of the magnitudes' quotient, sign is the product of signs, remainder smaller than the divisor |
| Division.TDivUnique | safemath.go:98 | the truncation property determines the quotient: any q with that property is Go's quotient |
| Division.TDivMultiple | safemath.go:77 | dividing an exact product by one factor gives the other factor back |
| Division.Quo | safemath.go:98 | a division that cannot trap yields a value of the kind |
| Arith.Add | safemath.go:17-34 | a success carries a value of the kind; the only error is Overflow |
| Arith.AddCorrect | safemath.go:17-34 | outside the pair MinInt + MinInt, Add returns the exact sum when it fits and Overflow when it does not; for unsigned kinds `c < a` is exactly the overflow test |
| Arith.AddMinMinEscapes | safemath.go:22 | MinInt + MinInt overflows, yet Add returns 0 with no error |
| Arith.AddAsWritten | safemath.go:17-34 | the complete behaviour of Add, escape included |
| Arith.AddFixed | safemath.go:22 | with `c >= 0` in the negative test, Add returns the exact sum or Overflow for every pair |
| Arith.AddFixedAgrees | safemath.go:22 | the corrected Add differs from the original only on MinInt + MinInt |
| Arith.Sub | safemath.go:37-55 | a success carries a value of the kind; the only error is Overflow |
| Arith.SubCorrect | safemath.go:37-55 | outside the pair 0 - MinInt, Sub returns the exact difference when it fits and Overflow when it does not; unsigned Sub fails exactly when a < b |
| Arith.SubZeroMinEscapes | safemath.go:44 | 0 - MinInt overflows, yet Sub returns MinInt with no error |
| Arith.SubAsWritten | safemath.go:37-55 | the complete behaviour of Sub, escape included |
| Arith.SubFixed | safemath.go:44 | with `a >= 0` in the positive test, Sub returns the exact difference or Overflow for every pair |
| Arith.SubFixedAgrees | safemath.go:44 | the corrected Sub differs from the original only on 0 - MinInt |
| Arith.Mul | safemath.go:58-82 | a success carries a value of the kind; the only error is Overflow |
| Arith.MulDivisionTrapFree | safemath.go:63-77 | after the zero and -1 * MinInt pre-checks, the trial division `c/a` never divides MinInt by -1 |
| Arith.TrialDivisionCorrect | safemath.go:74-81 | the test `c/a != b` on the wrapped product fails exactly when the exact product does not fit |
| Arith.MulCorrect | safemath.go:58-82 | Mul returns the exact product when it fits and Overflow otherwise, for every pair: zero operands give 0, -1 times MinInt fails in either order |
| Arith.Div | safemath.go:85-99 | a success carries a value of the kind; the result is Err(DivisionByZero) exactly when b is 0 |
| Arith.DivTrapFree | safemath.go:90-98 | the test `b == ^0 && a != 0 && a == -a` holds exactly for a signed MinInt / -1, so the division on line 98 never traps |
| Arith.DivCorrect | safemath.go:85-99 | DivisionByZero exactly when b is 0, Overflow exactly for signed MinInt / -1, otherwise the truncated quotient |
| Conversion.Convert | safemath.go:102-124 | a success is a value of the target kind that casts back to v; every failure is Truncation |
| Conversion.ConvertCorrect | safemath.go:102-124 | Convert succeeds exactly when v fits the target kind, and then returns v itself |
| Conversion.SameWidthRoundTrip | safemath.go:105-121 | between signed and unsigned kinds of one width every value survives the cast back, so the sign tests are what rejects sign crossings |
| Conversion.ConvertAny | safemath.go:129-156 | each of the eleven integer types forwards to Convert from that type; any other value gives InvalidType |
| Conversion.ConvertAnyCorrect | safemath.go:126-156 | ConvertAny succeeds exactly on a supported integer that fits, returning it; InvalidType exactly for unsupported types; an integer that does not fit gives Truncation |
| Must.MustAdd | safemath.go:159-166 | a value of the kind: 0 for the escaping MinInt + MinInt, the exact sum otherwise |
| Must.MustSub | safemath.go:169-176 | a value of the kind: MinInt for the escaping 0 - MinInt, the exact difference otherwise |
| Must.MustMul | safemath.go:179-186 | the exact product |
| Must.MustDiv | safemath.go:189-196 | the truncated quotient by a nonzero divisor |
| Must.MustConvert | safemath.go:199-206 | v itself, a value of the target kind |
| Must.MustConvertAny | safemath.go:209-216 | the boxed integer itself, a value of the target kind |
| Scenarios.ArithmeticScenarios | safemath_test.go:10-268 | the int8, uint8 and ordinary cases of the arithmetic tests |
| Scenarios.Wide64Scenarios | safemath_test.go:41-267 | the int64 and uint64 overflow cases of the arithmetic tests |
| Scenarios.ConversionScenarios | safemath_test.go:280-345 | the rejected and accepted conversions of the conversion tests |

## Findings

| source | as written | input that shows it | evidently intended | confidence | as-written member | corrected member |
|---|---|---|---|---|---|---|
| safemath.go:22 | negative overflow tested as `c > 0` | `Add[int8](-128, -128)`: the wrapped sum is 0, so it returns `(0, nil)` | `c >= 0`, returning Overflow | high; not executed | Arith.AddMinMinEscapes | Arith.AddFixed |
| safemath.go:44 | positive overflow tested with `a > 0` | `Sub[int8](0, -128)`: the wrapped difference is -128, so it returns `(-128, nil)` | `a >= 0`, returning Overflow | high; not executed | Arith.SubZeroMinEscapes | Arith.SubFixed |

The `Must*` wrappers model the package as it is, so `Must.MustAdd` and
`Must.MustSub` call the original `Add` and `Sub` and inherit both escapes;
their contracts say so.

## Left out

- Panics: the `Must*` wrappers are modelled on their returning path only, as a precondition that the checked variant succeeds; a panic is the failing checked result.
- The runtime type switch over `any`: replaced by the closed datatype `Conversion.Boxed`; named integer types such as `type MyInt int`, and every non-integer, are its `Other` case. Reflection is not modelled.
- The platform word width of `int`, `uint` and `uintptr` is a parameter (32 or 64), not a fixed architecture.
- The zero value Go returns beside every error is not kept in `Errors.Result`; callers never use it.
- Error message strings: only the identity of each error is modelled. `errors.go` declares Overflow, Truncation and DivisionByZero; the `ErrInvalidType` that `ConvertAny` returns is not declared in the shown `errors.go`, and is modelled as the fourth error case.
- Division.Quo: the precondition excludes MinInt / -1, which the Go language defines to produce MinInt without a trap; the package's own comments treat that division as a hazard and never perform it, and the model keeps it as a precondition so the absence of that division is proved.
- Conversion.ConvertAny: the doc comment says a value that does not fit gives an invalid-type error; the code gives Truncation, and the model follows the code.
- Generic instantiation over named types (`~int` and friends) behaves as the underlying kind and is not modelled separately.
