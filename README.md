# Halftone image model

A Dafny model of the `Image<T>` class of the halftone library (`include/halftone.h`).
An image is a height × width grid of cells. This model covers the three integer
instantiations `bool`, `char` (taken as signed 8-bit, [-128, 127]) and `short`
(signed 16-bit, [-32768, 32767]).

- `pixel.dfy`, module `Pixel`: the pixel kind (`Kind = Bool | Char | Short`) and its
  limits `Min`/`Max`. It holds the clamp `isIn` (`IsIn`) and the implicit conversion of an
  `int` back to `T` (`Narrow`). For `bool`, `Narrow` gives true for any non-zero value.
  For `char` and `short` it wraps in two's complement. It also holds the cell arithmetic
  of each operator (`Sum`, `Scale`, `Product`, `Flip`) and the lemmas about them.
  A `bool` cell is stored as 0 or 1, the value C++ promotes it to in arithmetic.
- `image.dfy`, module `Halftone`: the class `Image`. It has a constant `kind` (the
  template argument), mutable `width` and `height`, and an `array2<int>` for `content_`.
  It carries the object invariant `Valid()`: the array has the image's dimensions and
  every cell holds a value of `T`. The class has the constructors, copy, `Swap`,
  copy-and-swap assignment, the accessors and `==`/`!=`. Each operator builds a fresh
  result cell by cell in nested loops, as the source does. `InvertRectangle` changes
  the content in place. The exceptions `invalid_argument` and `out_of_range` are results
  (`Result.Fail`, `Outcome.Raised`) that carry the source's messages. The operators are
  `const` in the source. Here they are methods without a `modifies` clause, so the
  operands provably stay as they were.

Three behaviours of the code are easy to miss, and the model follows the code in each:

- Elementwise `*` is not saturating. `std::multiplies<T>` returns a value already
  converted to `T`, so the clamp that follows (include/halftone.h:188-193) never changes
  it. For `char`, 100 × 2 gives -56 elementwise, while the scalar `*` gives 127
  (`ProductCharExample`).
- `InvertRectangle` exists only for `bool` and `short` (and `float`). No `char` version
  exists, so the method requires `kind != Char`.
- Negating the minimum (`-(-128)` for `char`) wraps back to the minimum, because the
  `int` result is converted back to `T`. Negation is still an involution on every value
  (`FlipInvolution`).

## Model

| member | source | states |
|---|---|---|
| `Pixel.IsIn` | include/halftone.h:454-462 | the result is `max(T)` above the maximum, `min(T)` below the minimum, the value itself otherwise, and always lies in `[min(T), max(T)]` |
| `Pixel.IsInNearest` | include/halftone.h:456-462 | `isIn(v)` is the value of `T` nearest to `v` |
| `Pixel.IsInMonotone` | include/halftone.h:456-462 | clamping preserves order and is idempotent |
| `Pixel.Narrow` | include/halftone.h:352-372 | converting an `int` to `T` gives a value of `T`: non-zero means true for `bool`; a value congruent modulo 2^8 or 2^16 for `char` and `short`; a value already in range is kept |
| `Pixel.NarrowUnique` | include/halftone.h:368 | the conversion to `char`/`short` is exactly two's-complement wrap-around: it is the only in-range value congruent to the argument |
| `Pixel.Sum` | include/halftone.h:199-256 | a cell of `+` is a value of `T` |
| `Pixel.SumBoolIsOr` | include/halftone.h:205-210 | `bool` addition, elementwise or scalar, is logical OR |
| `Pixel.SumSaturates` | include/halftone.h:213-256 | `char`/`short` addition gives `max(T)` when the true sum is above it, `min(T)` when below, and the exact sum otherwise; it never wraps |
| `Pixel.SumCommutes` | include/halftone.h:221 | cell addition does not depend on operand order |
| `Pixel.SumCharExample` | include/halftone.h:340-350 | `char` 100 + 50 gives 127 and -100 + -50 gives -128 |
| `Pixel.Scale` | include/halftone.h:258-303 | a cell of scalar `*` is a value of `T` |
| `Pixel.ScaleSaturates` | include/halftone.h:258-292 | `char`/`short` scalar multiply saturates at both bounds and is exact in between |
| `Pixel.MultiplyBoolIsAnd` | include/halftone.h:294-303 | `bool` multiplication, scalar or elementwise, is logical AND |
| `Pixel.Product` | include/halftone.h:185-195 | a cell of elementwise `*` is a value of `T` |
| `Pixel.ProductWraps` | include/halftone.h:187-193 | the clamp in elementwise `*` is dead: each `char`/`short` cell is the product wrapped to `T`, not saturated |
| `Pixel.ProductCharExample` | include/halftone.h:187-193 | `char` 100 × 2 gives -56 elementwise but 127 with a scalar |
| `Pixel.Flip` | include/halftone.h:352-383 | a negated or NOT-ed cell is a value of `T` |
| `Pixel.FlipInvolution` | include/halftone.h:352-383 | negation and NOT are involutions on every value of `T`, the minimum included |
| `Pixel.FlipBoolIsNot` | include/halftone.h:374-383 | for `bool` the flip is logical NOT |
| `Pixel.FlipNegates` | include/halftone.h:363-372 | for `char`/`short` the flip is `-x`, except that the minimum maps to itself |
| `Halftone.OnInvertedSide` | include/halftone.h:52 | cell (i, j) is on the inverted side exactly when (j-x1)(y2-y1) - (i-y1)(x2-x1) >= 0, over mathematical integers; the same test anchored at (x2, y2) agrees, and a cell left alone is strictly on the side the reversed line would invert |
| `Halftone.Inverted` | include/halftone.h:50-56 | a cell's value after inversion is of type `T`, and it changes only on the non-negative side of the line |
| `Halftone.NegatedGrid` | include/halftone.h:352-383 | the grid `operator!` produces keeps the shape and holds values of `T` |
| `Halftone.InvertedGrid` | include/halftone.h:50-56 | the grid `InvertRectangle` leaves keeps the shape and holds values of `T` |
| `Halftone.Image.Cells` | include/halftone.h:14 | the content read as `height` rows of `width` cells of `T` |
| `Halftone.Image.constructor` | include/halftone.h:94-99 | the default image is 0 × 0 |
| `Halftone.Image.Sized` | include/halftone.h:101-110 | a sized image without random filling has the given dimensions and every cell zero (false) |
| `Halftone.Image.Copy` | include/halftone.h:148-153 | the copy has the same kind, dimensions and cells, in content of its own |
| `Halftone.Image.At` | include/halftone.h:174-177 | reading an in-bounds cell gives a value of `T` |
| `Halftone.Image.Set` | include/halftone.h:169-172 | writing through the accessor changes that one cell and no other |
| `Halftone.Image.Swap` | include/halftone.h:155-160 | width, height and content are exchanged with the other image |
| `Halftone.Image.Assign` | include/halftone.h:162-167 | afterwards this image equals `other`, has fresh content, and `other` keeps its dimensions and cells even when it is this image |
| `Halftone.Image.Equals` | include/halftone.h:444-447 | equality compares content dimensions and every cell; it is reflexive, and equal valid images have equal height and width |
| `Halftone.Image.NotEquals` | include/halftone.h:449-452 | `!=` is the negation of `==` and is irreflexive |
| `Halftone.Image.Times` | include/halftone.h:179-197 | throws `invalid_argument` exactly when heights or widths differ; otherwise a fresh image of the same size with each cell `Product` of the two cells |
| `Halftone.Image.Plus` | include/halftone.h:199-256 | throws `invalid_argument` exactly when heights or widths differ; otherwise a fresh image of the same size with each cell `Sum` of the two cells |
| `Halftone.Image.TimesScalar` | include/halftone.h:258-303 | a fresh image of the same size with each cell `Scale` of the cell and the scalar |
| `Halftone.Image.PlusScalar` | include/halftone.h:305-350 | a fresh image of the same size with each cell `Sum` of the cell and the scalar |
| `Halftone.Image.Negated` | include/halftone.h:352-383 | a fresh image of the same size with each cell flipped, whose grid is `NegatedGrid` of this one |
| `Halftone.Image.InvertRectangle` | include/halftone.h:41-92 | throws `out_of_range` and changes nothing exactly when a coordinate lies outside the image; otherwise flips exactly the cells on the non-negative side of the line, in place, keeps the dimensions, and leaves the grid `InvertedGrid` of the old one |
| `Halftone.EqualsIffSameCells` | include/halftone.h:444-447 | `==` holds exactly when height, width and the grids of cells are equal |
| `Halftone.EqualsIsEquivalence` | include/halftone.h:444-447 | equality is symmetric and transitive |
| `Halftone.EndpointsAreInverted` | include/halftone.h:52 | both given points are always flipped |
| `Halftone.CoincidentPointsInvertAll` | include/halftone.h:52 | when the two points coincide every cell is flipped |
| `Halftone.InvertedTwice` | include/halftone.h:50-56 | inverting a cell twice with the same coordinates restores it |
| `Halftone.NegatedGridTwice` | include/halftone.h:352-383 | negating any image grid twice gives it back |
| `Halftone.InvertedGridTwice` | include/halftone.h:50-56 | inverting any image grid twice with the same coordinates gives it back |
| `Halftone.DiagonalExample` | include/halftone.h:52 | on a 2 × 2 image, inverting along (0,0)-(1,1) flips every cell except (1,0) |
| `Halftone.InvertTwice` | include/halftone.h:41-92 | two identical `InvertRectangle` calls on a `bool` or `short` image restore its grid |
| `Halftone.NegateTwice` | include/halftone.h:352-383 | `!(!x)` is an image equal to `x` |

## Left out

- The `float` instantiation and all its specialisations: floating-point arithmetic is not modelled.
- `RandomFilling` and the `random_filling == true` branch of the constructor: they depend on `time`, `srand` and `rand`, so the sized constructor takes no filling flag.
- `FillFactor`: it returns a `double`, it divides by zero on an empty image, and its `T`-typed accumulator wraps for `char` and `short`, while for `bool` it becomes true once any cell is true.
- `operator<<`: stream output only.
- `Matrix<T>` (`matrix.h`) is not part of this model. It is taken to be a plain height × width grid. Its new cells are zero, its copy is a deep copy, its `Swap` exchanges content, `==` is structural (dimensions and every cell) and `!=` is the negation of `==`.
- `Halftone.Image.Assign`: returns nothing, where `operator=` returns `*this` for chaining.
- `Halftone.OnInvertedSide`: uses mathematical integers. The source computes in `int` and assumes no overflow, which holds while width and height stay below about 46 000.
- `Halftone.Image.Valid`: does not capture that an image owns its content exclusively. Two `Image` objects may share one `array2`, which the C++ class rules out because `content_` is private and copied by value. Every operation of the model gives a result content of its own, so none of them creates such sharing.
- `Halftone.Image.Sized`: requires non-negative height and width. What the C++ constructor does with a negative size depends on `Matrix<T>`, which is not part of this model.
- `Pixel.Narrow`: assumes `char` is signed and that conversion to a signed type wraps in two's complement. Before C++20 the language leaves this implementation-defined.
- The destructor is left out: it is the default, and there is no explicit memory management to model.
