/**
 * The few pieces of JavaScript semantics the route handlers lean on: the
 * number `parseInt` yields, strict equality `===` between primitives, and
 * `Array.prototype.slice(start)` as ECMA-262 defines it.
 */
module Js {

  /** A number as `parseInt` produces it: an integer, or NaN when, after
      leading white space and an optional sign, no digit follows. Unbounded
      integers also stand for the infinities `parseInt` returns on very long
      digit strings: `slice` treats those exactly as it treats any integer
      beyond the length. */
  datatype Number = NaN | Int(value: int)

  /** The primitive values that meet in a strict-equality comparison. */
  datatype Primitive = Num(n: Number) | Bool(b: bool)

  function Min(a: int, b: int): int { if a <= b then a else b }

  function Max(a: int, b: int): int { if a <= b then b else a }

  /** `a === b`: operands of different types are never equal, numbers
      compare by value, and NaN is unequal to everything, itself included. */
  predicate StrictEquals(a: Primitive, b: Primitive)
    ensures StrictEquals(a, b) <==> a == b && a != Num(NaN)
  {
    match a
    case Num(x) => b.Num? && x.Int? && b.n.Int? && x.value == b.n.value
    case Bool(x) => b.Bool? && x == b.b
  }

  /** Unary minus; the negation of NaN is NaN. */
  function Negate(x: Number): Number
  {
    match x
    case NaN => NaN
    case Int(k) => Int(-k)
  }

  /** `s.slice(start)` with no end argument: ToIntegerOrInfinity turns NaN
      into 0, a negative start counts back from the end and is clamped at
      the front, a positive one is clamped at the length. */
  function SliceFrom<T>(s: seq<T>, start: Number): (r: seq<T>)
    ensures |r| <= |s| && r == s[|s| - |r|..]
    ensures start.NaN? || start == Int(0) ==> r == s
    ensures start.Int? && start.value < 0 ==> |r| == Min(-start.value, |s|)
    ensures start.Int? && start.value > 0 ==> |r| == |s| - Min(start.value, |s|)
  {
    var relativeStart := if start.NaN? then 0 else start.value;
    var k := if relativeStart < 0 then Max(|s| + relativeStart, 0) else Min(relativeStart, |s|);
    s[k..]
  }
}
