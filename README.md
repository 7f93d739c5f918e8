# Geometry values of the capture pipeline

This project models the geometry value layer of the native capture pipeline,
`native/src/types/shape.h`. There are five value types: `Anchor`, `Point`, `Size`,
`Line` and `Rect`. The templates are taken at `T = int`. Every member of these types is
either a `const` accessor or builds a fresh value. So each type is a Dafny `datatype`
(module `Shape`, file `shape.dfy`), and each member is a function on it.

- `LayoutAnchor` is an enumeration of four edges. An `Anchor` pairs a horizontal one
  with a vertical one. The source has two `operator==` overloads: one against an
  `Anchor` and one against a single `LayoutAnchor`. Because the one-argument `Anchor`
  constructor is implicit, the two overloads agree (`EqualsLayoutIsConversion`).
- `Point` `+` and `-` assert that both operands have the same anchor. In the model
  that assertion is a `requires` clause.
- `Size` `/` uses C++ integer division, which truncates toward zero. Dafny's `/` is
  Euclidean, so module `TruncatedDivision` (file `truncated_division.dfy`) defines the
  C++ operator. It also gives a specification of that operator that does not say how
  it is computed (`IsTruncQuotient`) and proves that exactly one quotient meets it.
  Division by zero is undefined in C++, so it is excluded by `requires k != 0`.
- `Rect::top_left()` and `Rect::bottom_right()` are declared to return `T`, but their
  bodies return the corner `Point<T>`. Because templates are instantiated lazily, this
  compiles until one of them is called. The model returns the `Point`.
- A `Rect` keeps its corners exactly as given. The corners are never reordered, so its
  width and height can be negative.

## Model

| member | source | states |
|---|---|---|
| `Shape.Anchor.Equals` | native/src/types/shape.h:36 | comparing the two components is exactly equality of anchors |
| `Shape.Anchor.EqualsLayout` | native/src/types/shape.h:37 | true iff both the horizontal and the vertical anchor equal the given `LayoutAnchor` |
| `Shape.UniformAnchor` | native/src/types/shape.h:25-27 | `Anchor(both)` sets both components to `both` and is the only anchor that compares equal to `both` |
| `Shape.EqualsLayoutIsConversion` | native/src/types/shape.h:25-37 | comparing with a `LayoutAnchor` is the same as comparing with the anchor the implicit constructor builds from it |
| `Shape.DefaultAnchor` | native/src/types/shape.h:29-31 | `Anchor()` is `ScreenStart` on both axes |
| `Shape.MakePoint` | native/src/types/shape.h:55-58 | `Point(x, y)` keeps x and y and takes the default `ScreenStart` anchor |
| `Shape.ValueInitialisedPoint` | native/src/types/shape.h:60 | a value-initialised `Point()` is the origin that `Point(0, 0)` builds: zero coordinates, `ScreenStart` on both axes |
| `Shape.Point.Plus` | native/src/types/shape.h:68-71 | defined only for equal anchors; adds x and y separately; the result has the shared anchor |
| `Shape.Point.Minus` | native/src/types/shape.h:73-76 | defined only for equal anchors; subtracts x and y separately; the result has the shared anchor |
| `Shape.PlusMinusInverse` | native/src/types/shape.h:68-76 | `(p + q) - q == p` |
| `Shape.MinusPlusInverse` | native/src/types/shape.h:68-76 | `(p - q) + q == p` |
| `Shape.PlusCommutativeAssociative` | native/src/types/shape.h:68-71 | for points of one anchor, `+` is commutative and associative, although the source takes the anchor from the left operand |
| `Shape.MinusIsOffset` | native/src/types/shape.h:68-76 | for points of one anchor, some offset `d` with `q + d == p` exists, and it is exactly `p - q` |
| `Shape.MinusSelf` | native/src/types/shape.h:73-76 | `p - p` is the origin with `p`'s anchor |
| `Shape.Size.NotEquals` | native/src/types/shape.h:116-118 | true iff the widths differ or the heights differ, that is, iff the sizes are different values |
| `Shape.Size.Minus` | native/src/types/shape.h:120 | subtracts the widths and the heights separately |
| `Shape.NotEqualsIffNonZeroDifference` | native/src/types/shape.h:116-120 | `s != t` holds exactly when `s - t` is not the zero size |
| `Shape.Size.Divide` | native/src/types/shape.h:121 | requires a non-zero divisor; each component is the quotient rounded toward zero and is no larger in magnitude than before |
| `Shape.DivideUnique` | native/src/types/shape.h:121 | any size whose components are quotients rounded toward zero is the result of `Divide` |
| `Shape.DivideSymmetric` | native/src/types/shape.h:121 | dividing the negated size gives the negated result, and dividing by 1 gives the size back |
| `TruncatedDivision.TruncDiv` | native/src/types/shape.h:121 | the C++ `/` on `int`: the remainder is smaller than the divisor in magnitude and has the dividend's sign; the quotient's magnitude is the floor of the magnitudes' quotient; its sign is the product of the operands' signs |
| `TruncatedDivision.TruncQuotientExists` | native/src/types/shape.h:121 | every division by a non-zero divisor has a quotient rounded toward zero |
| `TruncatedDivision.TruncQuotientUnique` | native/src/types/shape.h:121 | at most one quotient rounds toward zero |
| `TruncatedDivision.TruncDivCharacterised` | native/src/types/shape.h:121 | a quotient rounds toward zero iff it equals `TruncDiv` |
| `TruncatedDivision.TruncDivNegate` | native/src/types/shape.h:121 | negating the dividend or the divisor negates the quotient |
| `TruncatedDivision.TruncDivVersusEuclidean` | native/src/types/shape.h:121 | for a positive divisor, C++ and Dafny's Euclidean `/` agree unless the dividend is negative and not a multiple of the divisor; then C++ gives one more (`-7 / 2` is `-3`, not `-4`) |
| `Shape.Line.Reversed` | native/src/types/shape.h:147 | swaps the two endpoints |
| `Shape.ReversedInvolution` | native/src/types/shape.h:138-147 | reversing twice gives the original line back; a line equals its reversal iff its endpoints coincide |
| `Shape.Rect.TopLeft` | native/src/types/shape.h:166 | returns the stored top-left corner unchanged, anchor included; it is the point at (`left`, `top`) |
| `Shape.Rect.BottomRight` | native/src/types/shape.h:167 | returns the stored bottom-right corner unchanged, anchor included; it is the point at (`right`, `bottom`) |
| `Shape.Rect.Left` | native/src/types/shape.h:169 | `left()` is the x of the top-left corner |
| `Shape.Rect.Top` | native/src/types/shape.h:170 | `top()` is the y of the top-left corner |
| `Shape.Rect.Right` | native/src/types/shape.h:171 | `right()` is the x of the bottom-right corner |
| `Shape.Rect.Bottom` | native/src/types/shape.h:172 | `bottom()` is the y of the bottom-right corner |
| `Shape.RectEdges` | native/src/types/shape.h:160-172 | `left`/`top` are the x/y of the top-left corner given to the constructor; `right`/`bottom` are the x/y of the bottom-right corner |
| `Shape.Rect.Width` | native/src/types/shape.h:174 | `left + width == right` |
| `Shape.Rect.Height` | native/src/types/shape.h:175 | `top + height == bottom` |
| `Shape.Rect.Extent` | native/src/types/shape.h:177 | `size()` is `Size(width(), height())` |
| `Shape.RectSizeAsDifference` | native/src/types/shape.h:174-177 | `size()` is the bottom-right size minus the top-left size; it has no negative component iff the corners are in order |

## Left out

- Integer width of `T`: coordinates are unbounded integers. Signed overflow in `+`, `-`, `width()` and `height()` is undefined behaviour in C++ and is not modelled. Neither is `INT_MIN / -1` in `Size::operator/`.
- `Point() = default` (native/src/types/shape.h:60) under default-initialisation (`Point<int> p;`): it leaves `x` and `y` indeterminate, so only the anchor would be determined. It is not modelled. The value-initialised form is modelled as `ValueInitialisedPoint`.
- Shape.Point.Plus: the equal-anchor `assert` becomes a `requires`. In a release build (`NDEBUG`) the assertion disappears and `+` then returns the left operand's anchor for any operands; that behaviour is not modelled.
- Shape.Point.Minus: the same as for `Plus`. Under `NDEBUG`, `-` returns the left operand's anchor for operands with different anchors, which is not modelled.
- Floating point: `Point::operator*(double)`, `Point::distance`, `Line::pointAt` and `Line::length` (native/src/types/shape.h:78-88, 143-145).
- OpenCV conversions: `Size(const cv::Size_<T>&)` and `toCVSize()` (native/src/types/shape.h:106-113). They wrap a library that is not part of this model.
- JSON serialisation and printing macros (`EXTENDED_JSON_TYPE_*`). They are defined in `util/json_utils.h`, which is not part of this model.
- Defaulted copy-assignment operators: they only copy a value, which Dafny datatypes do by construction.
- `native/src/core/native_api.cpp`: pipeline start/join wiring over runners, connections and scene components whose sources are not part of this model.
- `native/src/util/thread_util.h` (threads, atomics, timers) and `native/src/util/misc.h` (clock, file I/O, assertion macro): concurrency and I/O.
