/** Euro amounts to integer cents. */
module Money {

  const MAX_INT32: int := 0x7FFF_FFFF
  const MIN_INT32: int := -0x8000_0000

  /** math.Round: to the nearest integer, halves away from zero. */
  function Round(x: real): int
  {
    if x >= 0.0 then (x + 0.5).Floor else -(0.5 - x).Floor
  }

  predicate InInt32(n: int)
  {
    MIN_INT32 <= n <= MAX_INT32
  }

  predicate InInt64(n: int)
  {
    -0x8000_0000_0000_0000 <= n <= 0x7FFF_FFFF_FFFF_FFFF
  }

  /** A float64; finite ones are exact reals. */
  datatype Float = Finite(value: real) | Infinite(positive: bool) | NotANumber

  /** math.Round(x * 100) */
  function RoundedCents(x: Float): Float
  {
    if x.Finite? then Finite(Round(x.value * 100.0) as real) else x
  }

  /** x > bound, which does not hold of NaN. */
  predicate Above(x: Float, bound: int)
  {
    match x
    case Finite(v) => v > bound as real
    case Infinite(positive) => positive
    case NotANumber => false
  }

  /** x < bound, which does not hold of NaN. */
  predicate Below(x: Float, bound: int)
  {
    match x
    case Finite(v) => v < bound as real
    case Infinite(positive) => !positive
    case NotANumber => false
  }

  /** The range check of both conversions. */
  predicate OutOfRange(cents: Float)
  {
    Above(cents, MAX_INT32) || Below(cents, MIN_INT32)
  }

  /** What int() makes of a value that is no number is up to the processor; on amd64 it is the minimum int64. */
  const INT_OF_NAN: int := -0x8000_0000_0000_0000

  function ToInt(x: Float): int
  {
    if x.Finite? then x.value.Floor else INT_OF_NAN
  }

  /** What passes the range check fits 32 bits exactly when it is a number. */
  lemma RangeCheckIff(x: Float)
    requires !OutOfRange(RoundedCents(x))
    ensures InInt32(ToInt(RoundedCents(x))) <==> x != NotANumber
    ensures x.Finite? ==> ToInt(RoundedCents(x)) == Round(x.value * 100.0)
  {
  }

  /** The importer's conversion: an amount out of range becomes 0. */
  function EuroToCents(eur: Float): int
  {
    var cents := RoundedCents(eur);
    if OutOfRange(cents) then 0 else ToInt(cents)
  }

  /** A converted payment fits 32 bits exactly when the file states a number. */
  lemma EuroToCentsFitsIff(eur: Float)
    ensures InInt32(EuroToCents(eur)) <==> eur != NotANumber
    ensures eur.Infinite? ==> EuroToCents(eur) == 0
    ensures EuroToCents(NotANumber) == INT_OF_NAN
  {
    if !OutOfRange(RoundedCents(eur)) { RangeCheckIff(eur); }
  }

  /** 100 * v lies strictly within half a cent of the 32-bit range. */
  predicate InRange(v: real)
  {
    -2_147_483_648.5 < 100.0 * v < 2_147_483_647.5
  }

  /** cents is the integer nearest to 100 * v; a tie goes away from zero. */
  predicate Nearest(v: real, cents: int)
  {
    var diff := 100.0 * v - cents as real;
    && -0.5 <= diff <= 0.5
    && (v >= 0.0 ==> diff < 0.5) && (v <= 0.0 ==> diff > -0.5)
  }

  lemma RoundIsNearest(v: real, cents: int)
    ensures Nearest(v, cents) <==> cents == Round(v * 100.0)
  {
    assert Nearest(v, Round(v * 100.0));
    if Nearest(v, cents) { NearestUnique(v, cents, Round(v * 100.0)); }
  }

  lemma NearestUnique(v: real, a: int, b: int)
    requires Nearest(v, a) && Nearest(v, b)
    ensures a == b
  {
  }

  /** The range check passes exactly the numbers in range, and NaN. */
  lemma OutOfRangeIff(x: Float)
    ensures OutOfRange(RoundedCents(x)) <==> x.Infinite? || (x.Finite? && !InRange(x.value))
  {
  }

  /** An amount in range becomes the nearest cent, any other number 0. */
  predicate PaidAs(eur: Float, cents: int)
  {
    match eur
    case Finite(v) => if InRange(v) then Nearest(v, cents) else cents == 0
    case Infinite(_) => cents == 0
    case NotANumber => cents == -0x8000_0000_0000_0000
  }

  lemma EuroToCentsIff(eur: Float, cents: int)
    ensures PaidAs(eur, cents) <==> cents == EuroToCents(eur)
  {
    OutOfRangeIff(eur);
    if !OutOfRange(RoundedCents(eur)) { RangeCheckIff(eur); }
    if eur.Finite? { RoundIsNearest(eur.value, cents); }
  }
}
