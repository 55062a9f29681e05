/** The element types a halftone image is instantiated with, their value ranges,
    and the arithmetic each image operator performs on a single cell.

    Cells are kept as mathematical integers; a `bool` cell is 0 (false) or 1 (true),
    which is how C++ promotes `bool` in arithmetic. */
module Pixel {

  /** The three integer instantiations of `Image<T>`: `bool`, `char` (taken to be signed,
      8 bits) and `short` (signed, 16 bits). */
  datatype Kind = Bool | Char | Short

  /** `std::numeric_limits<T>::min()` */
  function Min(k: Kind): int {
    match k
    case Bool => 0
    case Char => -128
    case Short => -32768
  }

  /** `std::numeric_limits<T>::max()` */
  function Max(k: Kind): int {
    match k
    case Bool => 1
    case Char => 127
    case Short => 32767
  }

  /** The values a cell of type `T` can hold. */
  predicate InRange(k: Kind, v: int) {
    Min(k) <= v <= Max(k)
  }

  /** The number of values of the type: 2^8 for `char`, 2^16 for `short`. */
  function Modulus(k: Kind): int {
    Max(k) - Min(k) + 1
  }

  function FromBool(b: bool): int {
    if b then 1 else 0
  }

  /** The saturating clamp `isIn`: what lies above the type's maximum becomes the maximum,
      what lies below its minimum becomes the minimum, and anything else is kept. */
  function IsIn(k: Kind, v: int): (r: int)
    ensures InRange(k, r)
    ensures v > Max(k) ==> r == Max(k)
    ensures v < Min(k) ==> r == Min(k)
    ensures InRange(k, v) ==> r == v
  {
    if v > Max(k) then Max(k) else if v < Min(k) then Min(k) else v
  }

  /** The implicit conversion of an `int` to the element type: to `bool` every non-zero value
      is true; to `char` or `short` the value is kept modulo 2^width (two's complement). */
  function Narrow(k: Kind, v: int): (r: int)
    ensures InRange(k, r)
    ensures InRange(k, v) ==> r == v
    ensures k == Bool ==> (r == 1 <==> v != 0)
    ensures k != Bool ==> (v - r) % Modulus(k) == 0
  {
    if k == Bool then FromBool(v != 0) else Min(k) + (v - Min(k)) % Modulus(k)
  }

  /** One cell of `+`, elementwise or with a scalar. For `bool` the `int` sum is converted back
      to `bool`; for `char` and `short` the sum is formed in a wider integer and clamped by `isIn`. */
  function Sum(k: Kind, a: int, b: int): (r: int)
    requires InRange(k, a) && InRange(k, b)
    ensures InRange(k, r)
  {
    if k == Bool then Narrow(k, a + b) else IsIn(k, a + b)
  }

  /** One cell of `*` with a scalar: for `bool` the `int` product converted back to `bool`;
      for `char` and `short` the product formed in `int` and clamped by `isIn`. */
  function Scale(k: Kind, a: int, n: int): (r: int)
    requires InRange(k, a) && InRange(k, n)
    ensures InRange(k, r)
  {
    if k == Bool then Narrow(k, a * n) else IsIn(k, a * n)
  }

  /** One cell of the elementwise `*`: `std::multiplies<T>` yields the product already
      converted to `T`, and `isIn` of a `T` value is that value. */
  function Product(k: Kind, a: int, b: int): (r: int)
    requires InRange(k, a) && InRange(k, b)
    ensures InRange(k, r)
  {
    IsIn(k, Narrow(k, a * b))
  }

  /** One cell of `operator!` and of `InvertRectangle`: logical NOT for `bool`,
      and `-x` converted back to the type for `char` and `short`. */
  function Flip(k: Kind, v: int): (r: int)
    requires InRange(k, v)
    ensures InRange(k, r)
  {
    if k == Bool then 1 - v else Narrow(k, -v)
  }

  // ---------------------------------------------------------------------------
  // The clamp

  /** `isIn` picks the in-range value nearest to its argument. */
  lemma IsInNearest(k: Kind, v: int, w: int)
    requires InRange(k, w)
    ensures var d := IsIn(k, v) - v; var e := w - v;
      (if d < 0 then -d else d) <= (if e < 0 then -e else e)
  {
  }

  /** Clamping preserves order and clamping twice is clamping once. */
  lemma IsInMonotone(k: Kind, v: int, w: int)
    requires v <= w
    ensures IsIn(k, v) <= IsIn(k, w)
    ensures IsIn(k, IsIn(k, v)) == IsIn(k, v)
  {
  }

  // ---------------------------------------------------------------------------
  // Conversion to the element type

  /** The converted value is the only value of the type congruent to the argument: the
      conversion to `char` and `short` is exactly two's-complement wrap-around. */
  lemma NarrowUnique(k: Kind, v: int, w: int)
    requires k != Bool
    requires InRange(k, w) && (v - w) % Modulus(k) == 0
    ensures w == Narrow(k, v)
  {
  }

  // ---------------------------------------------------------------------------
  // Addition

  /** `bool` addition is logical OR. */
  lemma SumBoolIsOr(a: bool, b: bool)
    ensures Sum(Bool, FromBool(a), FromBool(b)) == FromBool(a || b)
  {
  }

  /** `char` and `short` addition saturates at the bounds and never wraps around. */
  lemma SumSaturates(k: Kind, a: int, b: int)
    requires k != Bool && InRange(k, a) && InRange(k, b)
    ensures a + b > Max(k) ==> Sum(k, a, b) == Max(k)
    ensures a + b < Min(k) ==> Sum(k, a, b) == Min(k)
    ensures InRange(k, a + b) ==> Sum(k, a, b) == a + b
  {
  }

  /** Cell addition does not depend on the order of its operands. */
  lemma SumCommutes(k: Kind, a: int, b: int)
    requires InRange(k, a) && InRange(k, b)
    ensures Sum(k, a, b) == Sum(k, b, a)
  {
  }

  /** A `char` cell of 100 plus 50 gives 127, and -100 plus -50 gives -128. */
  lemma SumCharExample()
    ensures Sum(Char, 100, 50) == 127
    ensures Sum(Char, -100, -50) == -128
  {
  }

  // ---------------------------------------------------------------------------
  // Multiplication

  /** `bool` multiplication, with a scalar or elementwise, is logical AND. */
  lemma MultiplyBoolIsAnd(a: bool, b: bool)
    ensures Scale(Bool, FromBool(a), FromBool(b)) == FromBool(a && b)
    ensures Product(Bool, FromBool(a), FromBool(b)) == FromBool(a && b)
  {
  }

  /** `char` and `short` multiplication by a scalar saturates and never wraps around. */
  lemma ScaleSaturates(k: Kind, a: int, n: int)
    requires k != Bool && InRange(k, a) && InRange(k, n)
    ensures a * n > Max(k) ==> Scale(k, a, n) == Max(k)
    ensures a * n < Min(k) ==> Scale(k, a, n) == Min(k)
    ensures InRange(k, a * n) ==> Scale(k, a, n) == a * n
  {
  }

  /** The elementwise product is not saturated: the clamp in it never changes the value,
      and each cell is the product wrapped around to the type. */
  lemma ProductWraps(k: Kind, a: int, b: int)
    requires k != Bool && InRange(k, a) && InRange(k, b)
    ensures Narrow(k, a * b) == Product(k, a, b)
    ensures (a * b - Product(k, a, b)) % Modulus(k) == 0
    ensures InRange(k, a * b) ==> Product(k, a, b) == a * b
  {
  }

  /** For `char`, 100 times 2 gives -56 elementwise but 127 with a scalar. */
  lemma ProductCharExample()
    ensures Product(Char, 100, 2) == -56
    ensures Scale(Char, 100, 2) == 127
  {
  }

  // ---------------------------------------------------------------------------
  // Negation

  /** Negation and NOT are involutions on every value of the type, the minimum included. */
  lemma FlipInvolution(k: Kind, v: int)
    requires InRange(k, v)
    ensures Flip(k, Flip(k, v)) == v
  {
  }

  /** For `bool` the flip is logical NOT. */
  lemma FlipBoolIsNot(b: bool)
    ensures Flip(Bool, FromBool(b)) == FromBool(!b)
  {
  }

  /** For `char` and `short` the flip is arithmetic negation, except that the minimum,
      whose negation does not fit, wraps back to itself. */
  lemma FlipNegates(k: Kind, v: int)
    requires k != Bool && InRange(k, v)
    ensures v != Min(k) ==> Flip(k, v) == -v
    ensures v == Min(k) ==> Flip(k, v) == Min(k)
  {
  }
}
