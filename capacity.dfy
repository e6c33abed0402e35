/** Coercion of the value handed to the cache's constructor and to its
    capacity setter (LRUCache.js:19 and LRUCache.js:38-42).

    The setter runs `c >>>= 0`, which is ECMAScript's ToUint32 (section 7.1.7
    of ECMA-262): an integral number is reduced modulo 2^32 to a non-negative
    result, and NaN, the infinities and anything that does not convert to a
    number give 0. A result of 0 is then raised to 1. */
module CapacityCoercion {

  const Uint32Modulus: int := 0x1_0000_0000
  const MaxCapacity: int := Uint32Modulus - 1

  /** `LRUCache.prototype.defaultCapacity` */
  const DefaultCapacity: nat := 3

  /** A capacity argument, reduced to what the two coercions in the cache
      (truthiness in the constructor, ToUint32 in the setter) can tell apart. */
  datatype CapacityInput =
    | Absent                    // `undefined`: no argument was passed
    | Integer(n: int)           // a number with an integral value
    | Fraction(n: int)          // a finite number that is not integral; `n` is its truncation toward zero
    | NotInteger(truthy: bool)  // NaN, null (falsy); the infinities, a non-numeric string (truthy)

  /** A finite number: ToUint32 works on its truncation `n`. */
  predicate Finite(x: CapacityInput)
  {
    x.Integer? || x.Fraction?
  }

  /** ToUint32 of the input: the unique value in [0, 2^32) congruent to the
      truncation of a finite input, and 0 for everything else. */
  function ToUint32(x: CapacityInput): (r: nat)
    ensures r < Uint32Modulus
    ensures Finite(x) ==> (x.n - r) % Uint32Modulus == 0
    ensures !Finite(x) ==> r == 0
  {
    match x
    case Integer(n) => n % Uint32Modulus
    case Fraction(n) => n % Uint32Modulus
    case _ => 0
  }

  /** The capacity the setter stores for an argument (LRUCache.js:40-42). */
  function NormalizeCapacity(x: CapacityInput): (c: nat)
    ensures 1 <= c <= MaxCapacity
    ensures Finite(x) && 1 <= x.n <= MaxCapacity ==> c == x.n
    ensures Finite(x) && x.n % Uint32Modulus != 0 ==> (x.n - c) % Uint32Modulus == 0
    ensures !Finite(x) || x.n % Uint32Modulus == 0 ==> c == 1
  {
    var u := ToUint32(x);
    if u < 1 then 1 else u
  }

  /** JavaScript truthiness of the argument, as decided by `capacity || ...`. */
  predicate Truthy(x: CapacityInput)
  {
    match x
    case Absent => false
    case Integer(n) => n != 0
    case Fraction(_) => true
    case NotInteger(t) => t
  }

  /** The capacity a new cache starts with: a falsy argument is replaced by
      the default before it reaches the setter (LRUCache.js:18-19). */
  function InitialCapacity(x: CapacityInput): (c: nat)
    ensures 1 <= c <= MaxCapacity
    ensures !Truthy(x) ==> c == DefaultCapacity
    ensures Truthy(x) ==> c == NormalizeCapacity(x)
  {
    NormalizeCapacity(if Truthy(x) then x else Integer(DefaultCapacity))
  }

  /** The setter's documented cases (tests.js:16-38), and what ToUint32 does
      to values outside [1, 2^32). */
  lemma NormalizeCapacityExamples()
    ensures NormalizeCapacity(Integer(5)) == 5
    ensures NormalizeCapacity(Integer(0)) == 1
    ensures NormalizeCapacity(Integer(17)) == 17
    ensures NormalizeCapacity(Fraction(3)) == 3
    ensures NormalizeCapacity(NotInteger(false)) == 1
    ensures NormalizeCapacity(NotInteger(true)) == 1
    ensures NormalizeCapacity(Integer(-1)) == MaxCapacity
    ensures NormalizeCapacity(Integer(Uint32Modulus)) == 1
    ensures NormalizeCapacity(Integer(Uint32Modulus + 7)) == 7
  {
  }

  /** The constructor's cases (tests.js:11-14): no argument, 0 and NaN fall
      back to the default; Infinity is truthy and so reaches the setter. */
  lemma InitialCapacityExamples()
    ensures InitialCapacity(Absent) == DefaultCapacity
    ensures InitialCapacity(Integer(0)) == DefaultCapacity
    ensures InitialCapacity(NotInteger(false)) == DefaultCapacity
    ensures InitialCapacity(NotInteger(true)) == 1
    ensures InitialCapacity(Integer(5)) == 5
    ensures InitialCapacity(Fraction(0)) == 1
    ensures InitialCapacity(Integer(-1)) == MaxCapacity
  {
  }
}
