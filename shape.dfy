/**
 The geometry values of the capture pipeline: anchors, points, sizes, lines and
 rectangles over integer coordinates (the `T = int` instance of the templates).
 Every C++ member is a `const` accessor or builds a fresh value, so each type is a
 datatype and each member a function on it.
 */
module Shape {
  import opened TruncatedDivision

  /** The edge a coordinate is measured from. */
  datatype LayoutAnchor = ScreenStart | ScreenEnd | IntersectStart | IntersectEnd

  /** A horizontal and a vertical `LayoutAnchor`; the two-argument constructor and the
      `h()`/`v()` accessors are the datatype's own. */
  datatype Anchor = Anchor(h: LayoutAnchor, v: LayoutAnchor) {

    /** `operator==(const Anchor &)`: equal exactly when they are the same anchor. */
    function Equals(other: Anchor): (r: bool)
      ensures r <==> this == other
    {
      h == other.h && v == other.v
    }

    /** `operator==(const LayoutAnchor &)`: comparing with a single `LayoutAnchor` is
        comparing with the anchor that the implicit one-argument constructor builds. */
    function EqualsLayout(other: LayoutAnchor): (r: bool)
      ensures r <==> Equals(Anchor(other, other))
    {
      h == other && v == other
    }
  }

  /** `Anchor(LayoutAnchor both)`: the anchor that is `both` on each axis, and the only
      anchor that compares equal to `both`. */
  function UniformAnchor(both: LayoutAnchor): (a: Anchor)
    ensures a.h == both && a.v == both
    ensures forall l :: a.EqualsLayout(l) <==> l == both
  {
    Anchor(both, both)
  }

  /** The one-argument constructor is implicit, so `a == l` may be read either way:
      through the `LayoutAnchor` overload or through the converted anchor. */
  lemma EqualsLayoutIsConversion(a: Anchor, l: LayoutAnchor)
    ensures a.EqualsLayout(l) <==> a.Equals(UniformAnchor(l))
    ensures a.EqualsLayout(l) <==> a == UniformAnchor(l)
  {
  }

  /** `Anchor()`: measured from the screen start on both axes. */
  function DefaultAnchor(): (a: Anchor)
    ensures a.EqualsLayout(ScreenStart)
    ensures a == UniformAnchor(ScreenStart)
  {
    Anchor(ScreenStart, ScreenStart)
  }

  /** A point; the three-argument constructor `Point(x, y, anchor)` and the accessors
      `x()`, `y()`, `anchor()` are the datatype's own. */
  datatype Point = Point(x: int, y: int, anchor: Anchor) {

    /** `operator+`: defined only between points of the same anchor (the source
        asserts it); adds coordinate-wise and keeps the shared anchor. */
    function Plus(other: Point): (r: Point)
      requires anchor.Equals(other.anchor)
      ensures r.x == x + other.x && r.y == y + other.y
      ensures r.anchor == anchor && r.anchor == other.anchor
    {
      Point(x + other.x, y + other.y, anchor)
    }

    /** `operator-`: defined only between points of the same anchor; subtracts
        coordinate-wise and keeps the shared anchor. */
    function Minus(other: Point): (r: Point)
      requires anchor.Equals(other.anchor)
      ensures r.x == x - other.x && r.y == y - other.y
      ensures r.anchor == anchor && r.anchor == other.anchor
    {
      Point(x - other.x, y - other.y, anchor)
    }
  }

  /** `Point(T x, T y)`: the given coordinates, measured from the screen start. */
  function MakePoint(x: int, y: int): (p: Point)
    ensures p.x == x && p.y == y
    ensures p.anchor.EqualsLayout(ScreenStart) && p.anchor == DefaultAnchor()
  {
    Point(x, y, UniformAnchor(ScreenStart))
  }

  /** `Point()` value-initialised (`Point<int>()`, `Point<int>{}`): the defaulted
      constructor is not user-provided, so the coordinates are zeroed and the anchor
      is default-constructed; this is the origin `Point(0, 0)` builds. */
  function ValueInitialisedPoint(): (p: Point)
    ensures p == MakePoint(0, 0)
    ensures p.x == 0 && p.y == 0 && p.anchor.EqualsLayout(ScreenStart)
  {
    Point(0, 0, DefaultAnchor())
  }

  /** Subtracting what was added gives the point back. */
  lemma PlusMinusInverse(p: Point, q: Point)
    requires p.anchor.Equals(q.anchor)
    ensures p.Plus(q).anchor.Equals(q.anchor)
    ensures p.Plus(q).Minus(q) == p
  {
  }

  /** Adding back what was subtracted gives the point back. */
  lemma MinusPlusInverse(p: Point, q: Point)
    requires p.anchor.Equals(q.anchor)
    ensures p.Minus(q).anchor.Equals(q.anchor)
    ensures p.Minus(q).Plus(q) == p
  {
  }

  /** Addition of same-anchor points is commutative and associative. */
  lemma PlusCommutativeAssociative(p: Point, q: Point, s: Point)
    requires p.anchor.Equals(q.anchor) && q.anchor.Equals(s.anchor)
    ensures p.Plus(q) == q.Plus(p)
    ensures p.Plus(q).anchor.Equals(s.anchor) && p.anchor.Equals(q.Plus(s).anchor)
    ensures p.Plus(q).Plus(s) == p.Plus(q.Plus(s))
  {
  }

  /** `-` undoes `+` exactly: the offset that carries `q` to `p` exists, and it is
      `p - q` and nothing else. */
  lemma MinusIsOffset(p: Point, q: Point)
    requires p.anchor.Equals(q.anchor)
    ensures exists d: Point :: q.anchor.Equals(d.anchor) && q.Plus(d) == p
    ensures forall d: Point :: q.anchor.Equals(d.anchor) ==> (q.Plus(d) == p <==> d == p.Minus(q))
  {
    var d := p.Minus(q);
    assert q.anchor.Equals(d.anchor) && q.Plus(d) == p;
  }

  /** A point minus itself is the origin of its own anchor. */
  lemma MinusSelf(p: Point)
    ensures p.anchor.Equals(p.anchor)
    ensures p.Minus(p) == Point(0, 0, p.anchor)
  {
  }

  /** A width and a height; the constructor and the accessors are the datatype's own. */
  datatype Size = Size(width: int, height: int) {

    /** `operator!=`: true exactly when the sizes differ, that is, when the widths
        differ or the heights differ. */
    function NotEquals(other: Size): (r: bool)
      ensures r <==> this != other
    {
      width != other.width || height != other.height
    }

    /** `operator-`: component-wise difference. */
    function Minus(other: Size): (r: Size)
      ensures r.width == width - other.width && r.height == height - other.height
    {
      Size(width - other.width, height - other.height)
    }

    /** `operator/`: each component divided by `k` with the C++ integer division,
        which rounds toward zero; division by zero is excluded. */
    function Divide(k: int): (r: Size)
      requires k != 0
      ensures IsTruncQuotient(width, k, r.width) && IsTruncQuotient(height, k, r.height)
      ensures Abs(r.width) <= Abs(width) && Abs(r.height) <= Abs(height)
    {
      Size(TruncDiv(width, k), TruncDiv(height, k))
    }
  }

  /** Two sizes differ exactly when their difference is not the zero size. */
  lemma NotEqualsIffNonZeroDifference(s: Size, t: Size)
    ensures s.NotEquals(t) <==> s.Minus(t) != Size(0, 0)
  {
  }

  /** The quotient `Divide` computes is the only one rounding toward zero. */
  lemma DivideUnique(s: Size, k: int, q: Size)
    requires k != 0
    requires IsTruncQuotient(s.width, k, q.width) && IsTruncQuotient(s.height, k, q.height)
    ensures s.Divide(k) == q
  {
    TruncQuotientUnique(s.width, k, q.width, s.Divide(k).width);
    TruncQuotientUnique(s.height, k, q.height, s.Divide(k).height);
  }

  /** Dividing the negated size gives the negated quotient (rounding toward zero is
      symmetric), and dividing by one changes nothing. */
  lemma DivideSymmetric(s: Size, k: int)
    requires k != 0
    ensures Size(-s.width, -s.height).Divide(k) == Size(-s.Divide(k).width, -s.Divide(k).height)
    ensures s.Divide(1) == s
  {
    TruncDivNegate(s.width, k);
    TruncDivNegate(s.height, k);
    TruncDivCharacterised(s.width, 1, s.width);
    TruncDivCharacterised(s.height, 1, s.height);
  }

  /** A segment between two points; the constructor and `p1()`, `p2()` are the
      datatype's own. */
  datatype Line = Line(p1: Point, p2: Point) {

    /** `reversed()`: the same segment traversed from the other end. */
    function Reversed(): (r: Line)
      ensures r.p1 == p2 && r.p2 == p1
    {
      Line(p2, p1)
    }
  }

  /** Reversing twice gives back the original line; a line is its own reversal
      exactly when its endpoints coincide. */
  lemma ReversedInvolution(l: Line)
    ensures l.Reversed().Reversed() == l
    ensures l.Reversed() == l <==> l.p1 == l.p2
  {
  }

  /** A rectangle given by its top-left and bottom-right corners, taken as given:
      the corners are not reordered and need not share an anchor. */
  datatype Rect = Rect(topLeft: Point, bottomRight: Point) {

    /** `top_left()`: the stored top-left corner, anchor included, which is the
        point at (`Left()`, `Top()`). */
    function TopLeft(): (p: Point)
      ensures p == topLeft
      ensures p.x == Left() && p.y == Top()
    {
      topLeft
    }

    /** `bottom_right()`: the stored bottom-right corner, anchor included, which is
        the point at (`Right()`, `Bottom()`). */
    function BottomRight(): (p: Point)
      ensures p == bottomRight
      ensures p.x == Right() && p.y == Bottom()
    {
      bottomRight
    }

    /** `left()`: the x of the top-left corner. */
    function Left(): (l: int)
      ensures l == topLeft.x
    {
      topLeft.x
    }

    /** `top()`: the y of the top-left corner. */
    function Top(): (t: int)
      ensures t == topLeft.y
    {
      topLeft.y
    }

    /** `right()`: the x of the bottom-right corner. */
    function Right(): (r: int)
      ensures r == bottomRight.x
    {
      bottomRight.x
    }

    /** `bottom()`: the y of the bottom-right corner. */
    function Bottom(): (b: int)
      ensures b == bottomRight.y
    {
      bottomRight.y
    }

    /** `width()`: the horizontal extent, so that `Left() + Width() == Right()`. */
    function Width(): (w: int)
      ensures Left() + w == Right()
    {
      bottomRight.x - topLeft.x
    }

    /** `height()`: the vertical extent, so that `Top() + Height() == Bottom()`. */
    function Height(): (h: int)
      ensures Top() + h == Bottom()
    {
      bottomRight.y - topLeft.y
    }

    /** `size()`: the width and the height together. */
    function Extent(): (s: Size)
      ensures s.width == Width() && s.height == Height()
    {
      Size(Width(), Height())
    }
  }

  /** The accessors read the corners: left and top from the top-left point, right
      and bottom from the bottom-right point. */
  lemma RectEdges(tl: Point, br: Point)
    ensures Rect(tl, br).Left() == tl.x && Rect(tl, br).Top() == tl.y
    ensures Rect(tl, br).Right() == br.x && Rect(tl, br).Bottom() == br.y
  {
  }

  /** The size of a rectangle is the size at its bottom-right corner minus the size at
      its top-left corner, and it has no negative component exactly when the
      corners are in order. */
  lemma RectSizeAsDifference(r: Rect)
    ensures r.Extent() == Size(r.Right(), r.Bottom()).Minus(Size(r.Left(), r.Top()))
    ensures (r.Extent().width >= 0 && r.Extent().height >= 0)
            <==> (r.Left() <= r.Right() && r.Top() <= r.Bottom())
  {
  }
}
