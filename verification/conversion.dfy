/** The safe conversion kernel `Convert` and the dynamic dispatcher
    `ConvertAny`. */
module Conversion {
  import opened Kinds
  import opened Errors

  /** Go's conversion `To(v)` between integer types: keep the low bits of v
      and read them in the target kind. */
  function Cast(to: Kind, v: int): int
    requires ValidKind(to)
  {
    Wrap(to, v)
  }

  /** `Convert[To, From]`: cast, reject sign crossings, then reject casts that
      do not survive the cast back to From. */
  function Convert(to: Kind, from: Kind, v: int): (r: Result)
    requires ValidKind(to) && ValidKind(from) && InRange(from, v)
    ensures r.Ok? ==> InRange(to, r.value) && Cast(from, r.value) == v
    ensures r.Err? ==> r.error == Truncation
  {
    var t := Cast(to, v);
    if IsSigned(from) && !IsSigned(to) && v < 0 then Err(Truncation)
    else if !IsSigned(from) && IsSigned(to) && t < 0 then Err(Truncation)
    else if Cast(from, t) != v then Err(Truncation)
    else Ok(t)
  }

  /** The range of a kind contains the range of every kind of the same
      signedness and no greater width. */
  lemma RangeWidens(small: Kind, large: Kind, x: int)
    requires ValidKind(small) && ValidKind(large)
    requires small.signed == large.signed && small.width <= large.width
    requires InRange(small, x)
    ensures InRange(large, x)
  {
    Pow2Monotone(small.width, large.width);
    Pow2Monotone(small.width - 1, large.width - 1);
  }

  /** Convert succeeds exactly when v is a value of the target kind; the
      result is then v itself. Every failure is Truncation. */
  lemma ConvertCorrect(to: Kind, from: Kind, v: int)
    requires ValidKind(to) && ValidKind(from) && InRange(from, v)
    ensures Convert(to, from, v) == (if InRange(to, v) then Ok(v) else Err(Truncation))
  {
    IsSignedCorrect(to);
    IsSignedCorrect(from);
    var t := Cast(to, v);
    if from.signed == to.signed {
      // One range contains the other: either v fits To, or t fits From and
      // the round trip returns t.
      if from.width <= to.width {
        RangeWidens(from, to, v);
      } else {
        RangeWidens(to, from, t);
      }
    } else if from.signed {
      // A nonnegative v fits To when To is at least as wide; when To is
      // narrower, To's whole range lies inside From's.
      if to.width >= from.width {
        Pow2Monotone(from.width - 1, to.width);
      } else {
        Pow2Monotone(to.width, from.width - 1);
      }
    } else {
      // A nonnegative t fits From when From is at least as wide; when From
      // is narrower, From's whole range lies inside To's.
      if from.width >= to.width {
        Pow2Monotone(to.width - 1, from.width);
      } else {
        Pow2Monotone(from.width, to.width - 1);
      }
    }
  }

  /** Why the sign tests are needed: between a signed and an unsigned kind of
      the same width, every value survives the round-trip cast, including the
      ones that change sign. */
  lemma SameWidthRoundTrip(to: Kind, from: Kind, v: int)
    requires ValidKind(to) && ValidKind(from) && to.width == from.width
    requires InRange(from, v)
    ensures Cast(from, Cast(to, v)) == v
  {
    var q := WrapShift(to, v);
    ShiftBack(to, from, v, q);
    WrapUnique(from, Cast(to, v), -q);
  }

  lemma ShiftBack(to: Kind, from: Kind, v: int, q: int)
    requires ValidKind(to) && ValidKind(from) && to.width == from.width
    requires Cast(to, v) == v + q * Modulus(to)
    ensures Cast(to, v) + (-q) * Modulus(from) == v
  {
    var m := Modulus(from);
    assert Modulus(to) == m;
    assert (-q) * m == -(q * m);
  }

  // ---------------------------------------------------------------- ConvertAny

  /** A Go `any` holding a value: one case per type of the `Integer`
      constraint, and `Other` for everything else (strings, floats, named
      integer types such as `type MyInt int`). */
  datatype Boxed =
    | Int(x: int) | Int8(x: int) | Int16(x: int) | Int32(x: int) | Int64(x: int)
    | Uint(x: int) | Uint8(x: int) | Uint16(x: int) | Uint32(x: int) | Uint64(x: int)
    | Uintptr(x: int)
    | Other

  /** The platform word width of `int`, `uint` and `uintptr`. */
  predicate ValidWord(word: nat) {
    word == 32 || word == 64
  }

  /** The kind of a supported boxed value on a platform of the given word. */
  function KindOf(word: nat, v: Boxed): Kind
    requires !v.Other?
  {
    match v
    case Int(_) => Kind(true, word)
    case Int8(_) => Kind(true, 8)
    case Int16(_) => Kind(true, 16)
    case Int32(_) => Kind(true, 32)
    case Int64(_) => Kind(true, 64)
    case Uint(_) => Kind(false, word)
    case Uint8(_) => Kind(false, 8)
    case Uint16(_) => Kind(false, 16)
    case Uint32(_) => Kind(false, 32)
    case Uint64(_) => Kind(false, 64)
    case Uintptr(_) => Kind(false, word)
  }

  /** The boxed value is a value of its own type. */
  predicate WellTyped(word: nat, v: Boxed)
    requires ValidWord(word)
  {
    v.Other? || InRange(KindOf(word, v), v.x)
  }

  /** `ConvertAny[To]`: the type switch over the eleven integer types. */
  function ConvertAny(to: Kind, word: nat, v: Boxed): (r: Result)
    requires ValidKind(to) && ValidWord(word) && WellTyped(word, v)
    ensures v.Other? ==> r == Err(InvalidType)
    ensures !v.Other? ==> r == Convert(to, KindOf(word, v), v.x)
  {
    match v
    case Int(x) => Convert(to, Kind(true, word), x)
    case Int8(x) => Convert(to, Kind(true, 8), x)
    case Int16(x) => Convert(to, Kind(true, 16), x)
    case Int32(x) => Convert(to, Kind(true, 32), x)
    case Int64(x) => Convert(to, Kind(true, 64), x)
    case Uint(x) => Convert(to, Kind(false, word), x)
    case Uint8(x) => Convert(to, Kind(false, 8), x)
    case Uint16(x) => Convert(to, Kind(false, 16), x)
    case Uint32(x) => Convert(to, Kind(false, 32), x)
    case Uint64(x) => Convert(to, Kind(false, 64), x)
    case Uintptr(x) => Convert(to, Kind(false, word), x)
    case Other => Err(InvalidType)
  }

  /** ConvertAny succeeds exactly on a supported value that fits the target
      kind, returning it unchanged. InvalidType is reserved for unsupported
      types: an integer that does not fit gives Truncation. */
  lemma ConvertAnyCorrect(to: Kind, word: nat, v: Boxed)
    requires ValidKind(to) && ValidWord(word) && WellTyped(word, v)
    ensures ConvertAny(to, word, v).Ok? <==> !v.Other? && InRange(to, v.x)
    ensures ConvertAny(to, word, v).Ok? ==> ConvertAny(to, word, v).value == v.x
    ensures ConvertAny(to, word, v) == Err(InvalidType) <==> v.Other?
    ensures !v.Other? && !InRange(to, v.x) ==> ConvertAny(to, word, v) == Err(Truncation)
  {
    if !v.Other? {
      ConvertCorrect(to, KindOf(word, v), v.x);
    }
  }
}
