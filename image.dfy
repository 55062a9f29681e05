/** The halftone image: a height × width grid of cells of one pixel kind, with value
    semantics, elementwise and scalar arithmetic, negation and half-plane inversion. */
module Halftone {
  import opened Pixel

  /** The two exceptions the image throws. */
  datatype Error = InvalidArgument(what: string) | OutOfRange(what: string)

  const SizeMismatch := "Images have different sizes"
  const BadCoordinates := "Invalid rectangle coordinates"

  /** The value of an operator that returns an image or throws. */
  datatype Result<T> = Ok(value: T) | Fail(error: Error)

  /** The outcome of an operation that returns nothing or throws. */
  datatype Outcome = Done | Raised(error: Error)

  /** The test of `InvertRectangle` that cell (i, j) lies on the non-negative side of the line
      through (x1, y1) and (x2, y2), computed here without `int` overflow. */
  function OnInvertedSide(x1: int, y1: int, x2: int, y2: int, i: int, j: int): (r: bool)
    // the test depends on the line, not on which of its two points anchors it
    ensures r <==> (j - x2) * (y2 - y1) - (i - y2) * (x2 - x1) >= 0
    // a cell left alone lies strictly on the side that the reversed line inverts
    ensures !r ==> (j - x2) * (y1 - y2) - (i - y2) * (x1 - x2) > 0
  {
    (j - x1) * (y2 - y1) - (i - y1) * (x2 - x1) >= 0
  }

  /** The new value of cell (i, j), holding v, after `InvertRectangle(x1, y1, x2, y2)`. */
  function Inverted(k: Kind, x1: int, y1: int, x2: int, y2: int, i: int, j: int, v: int): (r: int)
    requires InRange(k, v)
    ensures InRange(k, r)
    ensures r != v ==> OnInvertedSide(x1, y1, x2, y2, i, j)
  {
    if OnInvertedSide(x1, y1, x2, y2, i, j) then Flip(k, v) else v
  }

  /** The value an image's content stands for: its rows, each a sequence of cells. */
  type Grid = seq<seq<int>>

  /** Every cell of the grid holds a value of the kind. */
  ghost predicate CellsIn(k: Kind, g: Grid) {
    forall i, j :: 0 <= i < |g| && 0 <= j < |g[i]| ==> InRange(k, g[i][j])
  }

  /** Two grids are equal when they have the same rows of the same lengths and agree cell by cell. */
  lemma {:induction false} GridEquality(a: Grid, b: Grid)
    requires |a| == |b|
    requires forall i :: 0 <= i < |a| ==> |a[i]| == |b[i]|
    requires forall i, j :: 0 <= i < |a| && 0 <= j < |a[i]| ==> a[i][j] == b[i][j]
    ensures a == b
  {
    forall i | 0 <= i < |a|
      ensures a[i] == b[i]
    {
      assert forall j :: 0 <= j < |a[i]| ==> a[i][j] == b[i][j];
    }
  }

  /** The grid `operator!` produces: every cell flipped. */
  ghost function NegatedGrid(k: Kind, g: Grid): (r: Grid)
    requires CellsIn(k, g)
    ensures |r| == |g| && CellsIn(k, r)
    ensures forall i :: 0 <= i < |g| ==> |r[i]| == |g[i]|
  {
    seq(|g|, i requires 0 <= i < |g| => seq(|g[i]|, j requires 0 <= j < |g[i]| => Flip(k, g[i][j])))
  }

  /** The grid `InvertRectangle(x1, y1, x2, y2)` leaves: the cells on the non-negative side
      of the line flipped, the others kept. */
  ghost function InvertedGrid(k: Kind, x1: int, y1: int, x2: int, y2: int, g: Grid): (r: Grid)
    requires CellsIn(k, g)
    ensures |r| == |g| && CellsIn(k, r)
    ensures forall i :: 0 <= i < |g| ==> |r[i]| == |g[i]|
  {
    seq(|g|, i requires 0 <= i < |g| =>
      seq(|g[i]|, j requires 0 <= j < |g[i]| => Inverted(k, x1, y1, x2, y2, i, j, g[i][j])))
  }

  class Image {
    /** The template argument `T`. */
    const kind: Kind
    var width: int
    var height: int
    /** The content matrix, row index first. */
    var content: array2<int>

    /** The content has the image's height and width, and every cell holds a value of `T`. */
    ghost predicate Valid()
      reads this, content
    {
      content.Length0 == height && content.Length1 == width &&
      forall i, j :: 0 <= i < height && 0 <= j < width ==> InRange(kind, content[i, j])
    }

    /** The content as a grid of `height` rows of `width` cells. */
    ghost function Cells(): (g: Grid)
      reads this, content
      requires Valid()
      ensures |g| == height && CellsIn(kind, g)
      ensures forall i :: 0 <= i < height ==> |g[i]| == width
      ensures forall i, j :: 0 <= i < height && 0 <= j < width ==> g[i][j] == content[i, j]
    {
      var a := content;
      seq(a.Length0, i requires 0 <= i < a.Length0 reads a =>
        seq(a.Length1, j requires 0 <= j < a.Length1 reads a => a[i, j]))
    }

    /** `Image()`: the empty 0 × 0 image. */
    constructor (kind: Kind)
      ensures Valid() && this.kind == kind && fresh(content)
      ensures height == 0 && width == 0
    {
      this.kind := kind;
      width, height := 0, 0;
      content := new int[0, 0];
    }

    /** `Image(height, width, false)`: a height × width image whose cells are all zero (false). */
    constructor Sized(kind: Kind, height: int, width: int)
      requires height >= 0 && width >= 0
      ensures Valid() && this.kind == kind && fresh(content)
      ensures this.height == height && this.width == width
      ensures forall i, j :: 0 <= i < height && 0 <= j < width ==> content[i, j] == 0
    {
      this.kind := kind;
      this.width, this.height := width, height;
      content := new int[height, width]((i, j) => 0);
    }

    /** `Image(const Image&)`: a deep copy with its own content. */
    constructor Copy(other: Image)
      requires other.Valid()
      ensures Valid() && kind == other.kind && fresh(content)
      ensures height == other.height && width == other.width
      ensures forall i, j :: 0 <= i < height && 0 <= j < width ==> content[i, j] == other.content[i, j]
    {
      var cells := new int[other.height, other.width];
      for i := 0 to other.height
        invariant forall r, c :: 0 <= r < i && 0 <= c < other.width ==> cells[r, c] == other.content[r, c]
      {
        for j := 0 to other.width
          invariant forall r, c :: 0 <= r < i && 0 <= c < other.width ==> cells[r, c] == other.content[r, c]
          invariant forall c :: 0 <= c < j ==> cells[i, c] == other.content[i, c]
        {
          cells[i, j] := other.content[i, j];
        }
      }
      kind, width, height, content := other.kind, other.width, other.height, cells;
    }

    /** The read-only `operator()(row, column)`; the caller keeps the indices in bounds. */
    function At(row: int, column: int): (v: int)
      reads this, content
      requires Valid() && 0 <= row < height && 0 <= column < width
      ensures InRange(kind, v)
    {
      content[row, column]
    }

    /** A write through the reference returned by `operator()(row, column)`. */
    method Set(row: int, column: int, v: int)
      requires Valid() && 0 <= row < height && 0 <= column < width && InRange(kind, v)
      modifies content
      ensures Valid() && content[row, column] == v
      ensures forall i, j :: 0 <= i < height && 0 <= j < width && (i, j) != (row, column) ==>
        content[i, j] == old(content[i, j])
    {
      content[row, column] := v;
    }

    /** `Swap`: exchanges width, height and content with `other`. */
    method Swap(other: Image)
      requires Valid() && other.Valid() && other.kind == kind
      modifies this, other
      ensures Valid() && other.Valid()
      ensures width == old(other.width) && height == old(other.height) && content == old(other.content)
      ensures other.width == old(width) && other.height == old(height) && other.content == old(content)
    {
      var w := width;
      width := other.width;
      other.width := w;
      var h := height;
      height := other.height;
      other.height := h;
      var c := content;
      content := other.content;
      other.content := c;
    }

    /** `operator=`, copy and swap: afterwards this image equals `other`, which keeps its value
        (also when `other` is this image). */
    method Assign(other: Image)
      requires Valid() && other.Valid() && other.kind == kind
      modifies this
      ensures Valid() && fresh(content) && Equals(other)
      ensures height == old(other.height) && width == old(other.width)
      ensures forall i, j :: 0 <= i < height && 0 <= j < width ==> content[i, j] == old(other.content[i, j])
      ensures other.height == old(other.height) && other.width == old(other.width)
      ensures forall i, j :: 0 <= i < other.height && 0 <= j < other.width ==>
        other.content[i, j] == old(other.content[i, j])
    {
      var copy := new Image.Copy(other);
      Swap(copy);
    }

    /** `operator==`: the content matrices agree in their dimensions and in every cell. */
    predicate Equals(other: Image)
      reads this, content, other, other.content
      ensures this == other ==> Equals(other)
      ensures Equals(other) && Valid() && other.Valid() ==>
        height == other.height && width == other.width
    {
      content.Length0 == other.content.Length0 && content.Length1 == other.content.Length1 &&
      forall i, j :: 0 <= i < content.Length0 && 0 <= j < content.Length1 ==>
        content[i, j] == other.content[i, j]
    }

    /** `operator!=`: the content matrices differ. */
    predicate NotEquals(other: Image)
      reads this, content, other, other.content
      ensures NotEquals(other) <==> !Equals(other)
      ensures NotEquals(other) ==> this != other
    {
      !Equals(other)
    }

    /** Elementwise `operator*`: throws `invalid_argument` on a size mismatch; otherwise each
        cell is the product converted to `T`. */
    method Times(other: Image) returns (res: Result<Image>)
      requires Valid() && other.Valid() && other.kind == kind
      ensures res.Fail? <==> height != other.height || width != other.width
      ensures res.Fail? ==> res.error == InvalidArgument(SizeMismatch)
      ensures res.Ok? ==> fresh(res.value) && fresh(res.value.content) && res.value.Valid()
      ensures res.Ok? ==> res.value.kind == kind && res.value.height == height && res.value.width == width
      ensures res.Ok? ==> forall i, j :: 0 <= i < height && 0 <= j < width ==>
        res.value.content[i, j] == Product(kind, content[i, j], other.content[i, j])
    {
      if height != other.height || width != other.width {
        return Fail(InvalidArgument(SizeMismatch));
      }
      var result := new Image.Sized(kind, height, width);
      for i := 0 to height
        modifies result.content
        invariant result.Valid()
        invariant forall r, c :: 0 <= r < i && 0 <= c < width ==>
          result.content[r, c] == Product(kind, content[r, c], other.content[r, c])
      {
        for j := 0 to width
          modifies result.content
          invariant result.Valid()
          invariant forall r, c :: 0 <= r < i && 0 <= c < width ==>
            result.content[r, c] == Product(kind, content[r, c], other.content[r, c])
          invariant forall c :: 0 <= c < j ==>
            result.content[i, c] == Product(kind, content[i, c], other.content[i, c])
        {
          // std::multiplies<T> yields a T; the clamp that follows is isIn of that T value
          var res := Narrow(kind, content[i, j] * other.content[i, j]);
          result.content[i, j] := IsIn(kind, res);
        }
      }
      return Ok(result);
    }

    /** Elementwise `operator+`: throws `invalid_argument` on a size mismatch; otherwise each
        cell is the sum, OR for `bool` and saturated for `char` and `short`. */
    method Plus(other: Image) returns (res: Result<Image>)
      requires Valid() && other.Valid() && other.kind == kind
      ensures res.Fail? <==> height != other.height || width != other.width
      ensures res.Fail? ==> res.error == InvalidArgument(SizeMismatch)
      ensures res.Ok? ==> fresh(res.value) && fresh(res.value.content) && res.value.Valid()
      ensures res.Ok? ==> res.value.kind == kind && res.value.height == height && res.value.width == width
      ensures res.Ok? ==> forall i, j :: 0 <= i < height && 0 <= j < width ==>
        res.value.content[i, j] == Sum(kind, content[i, j], other.content[i, j])
    {
      if height != other.height || width != other.width {
        return Fail(InvalidArgument(SizeMismatch));
      }
      var result := new Image.Sized(kind, height, width);
      for i := 0 to height
        modifies result.content
        invariant result.Valid()
        invariant forall r, c :: 0 <= r < i && 0 <= c < width ==>
          result.content[r, c] == Sum(kind, content[r, c], other.content[r, c])
      {
        for j := 0 to width
          modifies result.content
          invariant result.Valid()
          invariant forall r, c :: 0 <= r < i && 0 <= c < width ==>
            result.content[r, c] == Sum(kind, content[r, c], other.content[r, c])
          invariant forall c :: 0 <= c < j ==>
            result.content[i, c] == Sum(kind, content[i, c], other.content[i, c])
        {
          result.content[i, j] := Sum(kind, content[i, j], other.content[i, j]);
        }
      }
      return Ok(result);
    }

    /** `operator*` with a scalar: AND for `bool`, the saturated product for `char` and `short`. */
    method TimesScalar(num: int) returns (result: Image)
      requires Valid() && InRange(kind, num)
      ensures fresh(result) && fresh(result.content) && result.Valid()
      ensures result.kind == kind && result.height == height && result.width == width
      ensures forall i, j :: 0 <= i < height && 0 <= j < width ==>
        result.content[i, j] == Scale(kind, content[i, j], num)
    {
      result := new Image.Sized(kind, height, width);
      for i := 0 to height
        modifies result.content
        invariant result.Valid()
        invariant forall r, c :: 0 <= r < i && 0 <= c < width ==>
          result.content[r, c] == Scale(kind, content[r, c], num)
      {
        for j := 0 to width
          modifies result.content
          invariant result.Valid()
          invariant forall r, c :: 0 <= r < i && 0 <= c < width ==>
            result.content[r, c] == Scale(kind, content[r, c], num)
          invariant forall c :: 0 <= c < j ==> result.content[i, c] == Scale(kind, content[i, c], num)
        {
          result.content[i, j] := Scale(kind, content[i, j], num);
        }
      }
    }

    /** `operator+` with a scalar: OR for `bool`, the saturated sum for `char` and `short`. */
    method PlusScalar(num: int) returns (result: Image)
      requires Valid() && InRange(kind, num)
      ensures fresh(result) && fresh(result.content) && result.Valid()
      ensures result.kind == kind && result.height == height && result.width == width
      ensures forall i, j :: 0 <= i < height && 0 <= j < width ==>
        result.content[i, j] == Sum(kind, content[i, j], num)
    {
      result := new Image.Sized(kind, height, width);
      for i := 0 to height
        modifies result.content
        invariant result.Valid()
        invariant forall r, c :: 0 <= r < i && 0 <= c < width ==>
          result.content[r, c] == Sum(kind, content[r, c], num)
      {
        for j := 0 to width
          modifies result.content
          invariant result.Valid()
          invariant forall r, c :: 0 <= r < i && 0 <= c < width ==>
            result.content[r, c] == Sum(kind, content[r, c], num)
          invariant forall c :: 0 <= c < j ==> result.content[i, c] == Sum(kind, content[i, c], num)
        {
          result.content[i, j] := Sum(kind, content[i, j], num);
        }
      }
    }

    /** `operator!`: NOT for `bool`, `-x` converted back to the type for `char` and `short`. */
    method Negated() returns (result: Image)
      requires Valid()
      ensures fresh(result) && fresh(result.content) && result.Valid()
      ensures result.kind == kind && result.height == height && result.width == width
      ensures forall i, j :: 0 <= i < height && 0 <= j < width ==>
        result.content[i, j] == Flip(kind, content[i, j])
      ensures result.Cells() == NegatedGrid(kind, Cells())
    {
      result := new Image.Sized(kind, height, width);
      for i := 0 to height
        modifies result.content
        invariant result.Valid()
        invariant forall r, c :: 0 <= r < i && 0 <= c < width ==> result.content[r, c] == Flip(kind, content[r, c])
      {
        for j := 0 to width
          modifies result.content
          invariant result.Valid()
          invariant forall r, c :: 0 <= r < i && 0 <= c < width ==> result.content[r, c] == Flip(kind, content[r, c])
          invariant forall c :: 0 <= c < j ==> result.content[i, c] == Flip(kind, content[i, c])
        {
          result.content[i, j] := Flip(kind, content[i, j]);
        }
      }
      GridEquality(result.Cells(), NegatedGrid(kind, Cells()));
    }

    /** `InvertRectangle`, defined for `bool` and `short` only: throws `out_of_range`, changing
        nothing, unless both points lie in the image; otherwise flips in place exactly the cells
        on the non-negative side of the line through them. */
    method InvertRectangle(x1: int, y1: int, x2: int, y2: int) returns (outcome: Outcome)
      requires Valid() && kind != Char
      modifies content
      ensures Valid()
      ensures outcome.Raised? <==>
        !(0 <= x1 < width && 0 <= y1 < height && 0 <= x2 < width && 0 <= y2 < height)
      ensures outcome.Raised? ==> outcome.error == OutOfRange(BadCoordinates) && unchanged(content)
      ensures outcome.Done? ==> forall i, j :: 0 <= i < height && 0 <= j < width ==>
        content[i, j] == Inverted(kind, x1, y1, x2, y2, i, j, old(content[i, j]))
      ensures outcome.Done? ==> Cells() == InvertedGrid(kind, x1, y1, x2, y2, old(Cells()))
    {
      if x1 < 0 || x1 >= width || y1 < 0 || y1 >= height ||
         x2 < 0 || x2 >= width || y2 < 0 || y2 >= height {
        return Raised(OutOfRange(BadCoordinates));
      }
      for i := 0 to height
        invariant Valid()
        invariant forall r, c :: 0 <= r < i && 0 <= c < width ==>
          content[r, c] == Inverted(kind, x1, y1, x2, y2, r, c, old(content[r, c]))
        invariant forall r, c :: i <= r < height && 0 <= c < width ==> content[r, c] == old(content[r, c])
      {
        for j := 0 to width
          invariant Valid()
          invariant forall r, c :: 0 <= r < i && 0 <= c < width ==>
            content[r, c] == Inverted(kind, x1, y1, x2, y2, r, c, old(content[r, c]))
          invariant forall c :: 0 <= c < j ==>
            content[i, c] == Inverted(kind, x1, y1, x2, y2, i, c, old(content[i, c]))
          invariant forall r, c :: 0 <= r < height && 0 <= c < width && (r > i || (r == i && c >= j)) ==>
            content[r, c] == old(content[r, c])
        {
          if OnInvertedSide(x1, y1, x2, y2, i, j) {
            content[i, j] := Flip(kind, content[i, j]);
          }
        }
      }
      GridEquality(Cells(), InvertedGrid(kind, x1, y1, x2, y2, old(Cells())));
      return Done;
    }
  }

  // ---------------------------------------------------------------------------
  // Equality

  /** `==` is equality of the images' dimensions and of their grids. */
  lemma {:induction false} EqualsIffSameCells(a: Image, b: Image)
    requires a.Valid() && b.Valid()
    ensures a.Equals(b) <==> a.height == b.height && a.width == b.width && a.Cells() == b.Cells()
  {
    if a.Equals(b) {
      GridEquality(a.Cells(), b.Cells());
    }
  }

  /** Equality is symmetric and transitive. */
  lemma EqualsIsEquivalence(a: Image, b: Image, c: Image)
    ensures a.Equals(b) <==> b.Equals(a)
    ensures a.Equals(b) && b.Equals(c) ==> a.Equals(c)
  {
  }

  // ---------------------------------------------------------------------------
  // Half-plane inversion

  /** Both given points lie on the inverted side, so both are always flipped. */
  lemma EndpointsAreInverted(x1: int, y1: int, x2: int, y2: int)
    ensures OnInvertedSide(x1, y1, x2, y2, y1, x1)
    ensures OnInvertedSide(x1, y1, x2, y2, y2, x2)
  {
  }

  /** When the two points coincide every cell is flipped. */
  lemma CoincidentPointsInvertAll(x: int, y: int, i: int, j: int)
    ensures OnInvertedSide(x, y, x, y, i, j)
  {
  }

  /** Inverting twice with the same coordinates restores every cell. */
  lemma InvertedTwice(k: Kind, x1: int, y1: int, x2: int, y2: int, i: int, j: int, v: int)
    requires InRange(k, v)
    ensures Inverted(k, x1, y1, x2, y2, i, j, Inverted(k, x1, y1, x2, y2, i, j, v)) == v
  {
  }

  /** Negating a grid twice gives it back: `!(!x) == x` for every image. */
  lemma {:induction false} NegatedGridTwice(k: Kind, g: Grid)
    requires CellsIn(k, g)
    ensures NegatedGrid(k, NegatedGrid(k, g)) == g
  {
    var n := NegatedGrid(k, NegatedGrid(k, g));
    forall i, j | 0 <= i < |g| && 0 <= j < |g[i]|
      ensures n[i][j] == g[i][j]
    {
      FlipInvolution(k, g[i][j]);
    }
    GridEquality(n, g);
  }

  /** Inverting a grid twice with the same coordinates gives it back. */
  lemma {:induction false} InvertedGridTwice(k: Kind, x1: int, y1: int, x2: int, y2: int, g: Grid)
    requires CellsIn(k, g)
    ensures InvertedGrid(k, x1, y1, x2, y2, InvertedGrid(k, x1, y1, x2, y2, g)) == g
  {
    var n := InvertedGrid(k, x1, y1, x2, y2, InvertedGrid(k, x1, y1, x2, y2, g));
    forall i, j | 0 <= i < |g| && 0 <= j < |g[i]|
      ensures n[i][j] == g[i][j]
    {
      InvertedTwice(k, x1, y1, x2, y2, i, j, g[i][j]);
    }
    GridEquality(n, g);
  }

  /** On a 2 × 2 image, inverting along (0, 0)-(1, 1) flips every cell except row 1, column 0. */
  lemma DiagonalExample(i: int, j: int)
    requires 0 <= i < 2 && 0 <= j < 2
    ensures OnInvertedSide(0, 0, 1, 1, i, j) <==> !(i == 1 && j == 0)
  {
  }

  /** Inverting a `bool` or `short` image twice with the same coordinates restores it. */
  method InvertTwice(img: Image, x1: int, y1: int, x2: int, y2: int)
    requires img.Valid() && img.kind != Char
    modifies img.content
    ensures img.Valid() && img.Cells() == old(img.Cells())
  {
    var first := img.InvertRectangle(x1, y1, x2, y2);
    var second := img.InvertRectangle(x1, y1, x2, y2);
    if first.Done? {
      InvertedGridTwice(img.kind, x1, y1, x2, y2, old(img.Cells()));
    }
  }

  /** Negating an image twice gives an image equal to it. */
  method NegateTwice(img: Image) returns (twice: Image)
    requires img.Valid()
    ensures twice.Valid() && twice.Equals(img)
  {
    var once := img.Negated();
    twice := once.Negated();
    NegatedGridTwice(img.kind, img.Cells());
    EqualsIffSameCells(twice, img);
  }
}
