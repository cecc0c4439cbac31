# SimpleRaytracer core in Dafny

A model of the arithmetic core of SimpleRaytracer, a small Python 2 ray tracer.
It covers two parts:

- **The `Vector` class (vector.py).** A wrapper around a list of numbers. Every
  operation returns a new vector.
- **Primary rays (raytracer.py).**
  - `Ray` keeps its start point and the normalised difference of its two points.
  - `Scene.createImage` walks the display column by column.
  - For each pixel it builds a ray from the viewpoint through a point of the
    image plane, then sets the pixel to the colour that `Ray.trace` returns.

Modules:

- `Outcomes` (outcomes.dfy): a `Result` for the operations that can raise.
  `ZeroDivisionError` becomes `ZeroDivision` and `IndexError` becomes
  `IndexOutOfRange`.
- `Roots` (roots.dfy): `math.sqrt` is a parameter `sqrt: real -> real`.
  `IsSqrt` is its contract: for `x >= 0` it returns the non-negative root.
  Facts about such a root live here.
- `Sums` (sums.dfy): Python's `sum` is a left fold from zero, over the sum of
  squares that both magnitude functions take the root of.
- `Vectors` (vector.dfy): `Vector`, the constructor's two calling forms, `zip`,
  and every operation except `theta`, with their algebraic laws.
- `Rays` (ray.dfy): `Ray.magnitude` and `Ray.normalise` are loops over
  plain lists, proved equal to the `Vector` versions. `New` is the `Ray`
  constructor.
- `Scenes` (scene.dfy): the scene records, the image-plane target of each
  pixel, and the two rendering loops.
  - The display becomes a `Frame`: a map from pixel to colour, plus the order of
    the `set_at` calls.
  - The random colours of `Ray.trace` come from a stream `draws`. The k-th trace
    uses draws 3k, 3k+1 and 3k+2.

Components are `real`, so `add`, `subtract`, `multiply`, `dot` and `cross` are
exact.

## Model

| member | source | states |
|---|---|---|
| Vectors.Construct | vector.py:4-8 | With no arguments, `args[0]` raises IndexError. A first argument that is a list becomes the components as is. Otherwise the scalar arguments become the components, in order. |
| Vectors.ConstructForms | vector.py:4-8 | `Vector([x0, x1, ...])` and `Vector(x0, x1, ...)` build the same vector. |
| Vectors.Zip | vector.py:17-24 | `zip` is as long as the shorter list. Its i-th pair holds the i-th component of each list. |
| Vectors.ZipForms | vector.py:17-24 | The products that `dot` sums and the results of `add` and `subtract` are the sum, difference or product of the pairs `zip` yields. So they are as long as the shorter operand. |
| Vectors.Magnitude | vector.py:9-10 | `magnitude` is the root of the sum of the squared components; for a genuine square root it is never negative. |
| Vectors.Dot | vector.py:17-18 | `dot` sums the products of the pairs `zip` yields, so an operand without components gives 0. |
| Vectors.Add | vector.py:21-22 | `add` adds the pairs `zip` yields, so the sum is as long as the shorter operand. |
| Vectors.Subtract | vector.py:23-24 | `subtract` takes the difference of the pairs `zip` yields, so it is as long as the shorter operand. |
| Vectors.Multiply | vector.py:25-26 | `multiply` scales every component by the scalar and keeps the length. |
| Vectors.MagnitudeFacts | vector.py:9-10 | The magnitude is non-negative. Its square is the sum of squares. It is zero exactly on the all-zero vector. |
| Vectors.MagnitudeSquared | vector.py:9-18 | The magnitude squared equals the vector dotted with itself. |
| Vectors.DotSelfIsSumOfSquares | vector.py:9-18 | `v.dot(v)` is the sum of squares under `magnitude`'s root, and is never negative. |
| Vectors.Normalise | vector.py:11-12 | A non-empty all-zero vector raises ZeroDivisionError, and nothing else does. The result has the same length. Scaled back by the magnitude, it gives the original. A non-empty result has magnitude 1. The empty vector normalises to itself. |
| Vectors.NormalisedIsUnit | vector.py:11-12 | Dividing each component by a non-zero magnitude gives a vector of magnitude 1. Multiplying it by that magnitude restores the original. |
| Vectors.NormaliseDotSelf | vector.py:11-18 | A normalised vector dotted with the original gives the original's magnitude. |
| Vectors.NormaliseIdempotent | vector.py:11-12 | Normalising a normalised vector changes nothing. |
| Vectors.Cross | vector.py:13-16 | An operand with fewer than three components raises IndexError, and otherwise the result is a 3-vector. It is orthogonal to both operands: each dot product with it is zero. |
| Vectors.CrossAnticommutative | vector.py:13-16 | `a.cross(b)` is `b.cross(a)` multiplied by -1. |
| Vectors.CrossSelfIsZero | vector.py:13-16 | A vector crossed with itself is all zeros. |
| Vectors.CrossReadsFirstThree | vector.py:13-16 | For operands of at least three components, the cross product equals that of their first three components: anything past index 2 is ignored. |
| Vectors.CrossLagrange | vector.py:13-16 | For 3-vectors, the squared length of `a.cross(b)` is `|a|^2 |b|^2 - (a . b)^2` (Lagrange's identity), so the product is zero only for parallel operands. |
| Vectors.CrossRightHanded | vector.py:13-16 | `a`, `b`, `a.cross(b)` form a right-handed triple: their determinant equals the squared length of the product and is never negative, which fixes the operand order. |
| Vectors.CrossOfBasis | vector.py:13-16 | The first basis vector crossed with the second gives the third. |
| Vectors.DotWithTriple | vector.py:17-18 | Against a 3-vector, `dot` reads exactly the first three components of the other operand. |
| Vectors.DotCommutative | vector.py:17-18 | `a.dot(b) == b.dot(a)`. |
| Vectors.DotTruncates | vector.py:17-18 | `dot` only sees the components both operands have. |
| Vectors.DotScale | vector.py:17-26 | Scaling one operand by `s` scales the dot product by `s`. |
| Vectors.DotAddDistributes | vector.py:17-22 | For equal-length `a` and `b`, `(a + b) . c == a . c + b . c`. |
| Vectors.AddSubtractRoundTrip | vector.py:21-24 | `a.subtract(b).add(b)` is `a` cut to the shorter length. For equal lengths it is exactly `a`. |
| Vectors.SubtractZeroIff | vector.py:23-24 | The difference is all zeros exactly when the operands agree on every component they share. |
| Vectors.SubtractSelfIsZero | vector.py:23-24 | `a.subtract(a)` keeps the length of `a` and is all zeros. |
| Vectors.AddCommutative | vector.py:21-22 | `a.add(b) == b.add(a)`. |
| Vectors.SubtractIsAddNegated | vector.py:21-26 | Subtracting `b` is the same as adding `b` multiplied by -1. |
| Vectors.ScaleRoundTrip | vector.py:25-26 | Multiplying by `c` and then by `d`, where `c*d == 1`, returns the vector unchanged. |
| Vectors.MultiplyCompose | vector.py:25-26 | Multiplying by `s` and then by `t` is multiplying by `s*t`. |
| Vectors.MagnitudeOfMultiply | vector.py:25-26 | Multiplying by `s` scales the magnitude by the absolute value of `s`. |
| Vectors.Divide | vector.py:27-28 | A zero scalar raises ZeroDivisionError, even for the empty vector, and nothing else does. Otherwise the result has the same length, and multiplying it by the scalar gives the original. |
| Vectors.DivideUndoesMultiply | vector.py:25-28 | For `s != 0`, `v.multiply(s).divide(s) == v`. |
| Sums.SumSqZeroIff | vector.py:10 | The sum of squares is zero exactly on the all-zero list. |
| Sums.SumSqPrefix | raytracer.py:85 | Adding one more component to the index-by-index sum adds that component's square. |
| Roots.SqrtZeroIff | vector.py:10 | The root of a non-negative number is zero exactly when the number is. It is positive otherwise. |
| Roots.SqrtScale | vector.py:10 | The root of `c*c*x` is the absolute value of `c` times the root of `x`. |
| Rays.Magnitude | raytracer.py:84-85 | The loop computes the same value as `Vector.magnitude`. The value is non-negative, and zero exactly on the all-zero list. |
| Rays.Normalise | raytracer.py:86-88 | A non-empty all-zero list raises ZeroDivisionError, and nothing else does. Otherwise the result equals `Vector.normalise` of the same list. |
| Rays.Distance | raytracer.py:83-87 | The distance between the ray's two points is the magnitude of their difference over `zip`; it is never negative for a genuine square root. |
| Rays.New | raytracer.py:80-83 | Construction raises ZeroDivisionError exactly when the two points share at least one component and agree on every shared one; points with no component in common give an empty `delta` without raising. `position` is `point_a`. `delta` is as long as the shorter point. `delta` times the distance between the points is `point_a - point_b`. A non-empty `delta` has magnitude 1, and the distance is then positive. |
| Scenes.Eye | raytracer.py:31 | The viewpoint is passed to the ray as the three-element list `[x, y, z]`. |
| Scenes.Target | raytracer.py:27-31 | The image-plane point of pixel `(xval, yval)` is a three-element list whose z is `image.z`, for every pixel; its spacing is fixed by `Scenes.TargetSteps`. |
| Scenes.TargetSteps | raytracer.py:27-31 | Pixel `(0, 0)` aims at `(image.x - res_x/2, image.y - res_y/2)`; one column further moves x by exactly `image.width/res_x`, one row further moves y by exactly `1.0/res_y`. |
| Scenes.TargetXIncreasing | raytracer.py:27-31 | With a positive image width, the target's x grows strictly with the column. |
| Scenes.TargetYIncreasing | raytracer.py:28-31 | The target's y grows strictly with the row. |
| Scenes.TargetXWithinImage | raytracer.py:27-31 | With a positive image width, over the columns of the display x stays in `[image.x - res_x/2, image.x - res_x/2 + image.width)`. |
| Scenes.TargetYWithinUnitBand | raytracer.py:28-31 | Over the rows of the display, y stays in `[image.y - res_y/2, image.y - res_y/2 + 1)`, whatever the width. |
| Scenes.TargetAxesIndependent | raytracer.py:27-31 | y does not depend on the width, the horizontal resolution or the column. x does not depend on the row or the vertical resolution. |
| Scenes.TargetInjective | raytracer.py:27-31 | With a positive width, distinct pixels aim at distinct points. |
| Scenes.EyeOffPlane | raytracer.py:31 | Every target has z equal to `image.z`. So when the image plane does not pass through the viewpoint, no pixel aims at the viewpoint. |
| Scenes.Trace | raytracer.py:89-90 | `trace` returns a colour whose red, green and blue are in `[0, 255)` and whose alpha is 0. |
| Scenes.PixelAtIndex | raytracer.py:29-30 | Pixel `(xval, yval)` is the `xval*res_y + yval`-th pixel drawn. |
| Scenes.PixelAtOnDisplay | raytracer.py:29-30 | The k-th pixel drawn is on the display exactly when k is below `res_x*res_y`, and its index is k. |
| Scenes.PixelAtOrdered | raytracer.py:29-30 | A later draw is in a later column, or lower in the same column. |
| Scenes.ColumnMajorVisitsEachPixelOnce | raytracer.py:29-32 | That draw order visits every pixel of the display exactly once, and nothing else. Pixels go column by column, and top to bottom within a column. |
| Scenes.DrawStep | raytracer.py:30-32 | Drawing the next pixel extends the drawn region by that pixel, with its trace colour. |
| Scenes.ColumnDone | raytracer.py:29-30 | After a column's last row, drawing continues at the top of the next column. |
| Scenes.DrawColumn | raytracer.py:30-32 | The inner loop raises ZeroDivisionError exactly when some row of the column aims at the viewpoint. Otherwise the whole column is drawn. |
| Scenes.CreateImage | raytracer.py:25-32 | A zero resolution raises ZeroDivisionError, and so does a pixel that aims at the viewpoint; nothing else raises. Otherwise every pixel of the display, and nothing else, is set once, in column-major order. The colour of pixel `(x, y)` comes from trace call number `x*res_y + y`. |

## Left out

- Display and events: opening the display, `set_at`, `display.update`, the event loop, `sys.exit` and the `wait` busy-loop are pygame I/O. `CreateImage` returns the pixel map and the order of writes instead.
- Timing: the `time.time()` flush throttle does not change what is drawn.
- Randomness: `random.randrange(255)` is the stream parameter `draws`, constrained to `[0, 255)`.
- `Ray.scene`: the back-reference to the scene is never read, so `Ray` does not hold it.
- Module-level script: the fixed scene at raytracer.py:93-100 is a script that opens a window.
- Default arguments: the `Plane` and `LightSource` default arguments are not modelled. Unset coordinates are `Unset`, and the colour is explicit.
- `Vector.theta`: it needs `math.acos`, a transcendental float function.
- Floating point: all numbers are exact reals. `math.sqrt` is a parameter satisfying `Roots.IsSqrt`, so rounding and NaN or infinity are not modelled.
- Vectors.Construct: a call mixing lists and scalars is `Err(NotAScalar)`. Python would build a vector with a list component, which later arithmetic rejects.
- Scenes.CreateImage: on an error, the pixels drawn before it are not returned. Python leaves them on the display when the exception propagates.
- Scenes.Target: `image.width` is a real. A Python 2 integer width would make `width/res_x` floor division; the fixed scene's width is 6.4.
- Scenes.Scene: resolutions are natural numbers, because pygame rejects negative display sizes.
- Rendering pipeline: ray/sphere intersection, shading and lighting do not exist in raytracer.py. `trace` returns a random colour, and the spheres, planes and lights are stored but never read.
