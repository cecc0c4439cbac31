/**
 * The scene records of raytracer.py and the per-pixel loop of
 * `Scene.createImage`: for every pixel it builds the primary ray from the
 * viewpoint through a point of the image plane, and writes the colour
 * `Ray.trace` returns to the display.
 */
module Scenes {
  import opened Outcomes
  import Roots
  import Vectors
  import Rays

  /** `pygame.Color(r, g, b, a)`. */
  datatype Color = Color(r: int, g: int, b: int, a: int)

  /** A plane fixes one coordinate; the others are left unset (`None`). */
  datatype Coordinate = Unset | At(value: real)

  datatype Sphere = Sphere(x: real, y: real, z: real, radius: real, color: Color)
  datatype Plane = Plane(x: Coordinate, y: Coordinate, z: Coordinate, color: Color)
  datatype LightSource = LightSource(x: Coordinate, y: Coordinate, z: Coordinate)
  datatype Image = Image(x: real, y: real, z: real, width: real)
  datatype Viewpoint = Viewpoint(x: real, y: real, z: real)

  /**
   * A scene. The resolution is what the display is opened with, so it is a
   * pair of natural numbers; spheres, planes and lights are stored but not
   * read by the rendering loop.
   */
  datatype Scene = Scene(
    resX: nat, resY: nat,
    spheres: seq<Sphere>, planes: seq<Plane>, lights: seq<LightSource>,
    viewpoint: Viewpoint, image: Image)

  /** The viewpoint as the list `[x, y, z]` the ray is built from. */
  function Eye(v: Viewpoint): (p: seq<real>)
    ensures |p| == 3
  {
    [v.x, v.y, v.z]
  }

  /** Where the pixel columns start, with `res_x/2` halved by Python 2 integer division: `image.x - res_x/2`. */
  function Left(image: Image, resX: nat): real {
    image.x - (resX / 2) as real
  }

  /** Where the pixel rows start: `image.y - res_y/2`. */
  function Top(image: Image, resY: nat): real {
    image.y - (resY / 2) as real
  }

  /**
   * The image-plane point of pixel `(xval, yval)`. Steps are
   * `image.width/res_x` across and `1.0/res_y` down, measured from
   * `(image.x - res_x/2, image.y - res_y/2)`, where the halving is Python 2
   * integer division. Both steps divide by the resolution, which must not be
   * zero.
   */
  function Target(image: Image, resX: nat, resY: nat, xval: nat, yval: nat): (p: seq<real>)
    requires resX > 0 && resY > 0
    ensures |p| == 3
    ensures p[2] == image.z
  {
    var deltax := image.width / resX as real;
    var deltay := 1.0 / resY as real;
    [Left(image, resX) + xval as real * deltax, Top(image, resY) + yval as real * deltay, image.z]
  }

  // Arithmetic on real steps

  lemma StepNonNegative(k: nat, d: real)
    requires d >= 0.0
    ensures k as real * d >= 0.0
  {
  }

  lemma StepIncreasing(j: nat, k: nat, d: real)
    requires j < k && d > 0.0
    ensures j as real * d < k as real * d
  {
    var gap := (k - j) as real;
    assert gap >= 1.0;
    assert gap * d > 0.0;
    assert k as real * d == j as real * d + gap * d;
  }

  /** `k` steps of `w/n` with `k < n` stay below `w`. */
  lemma StepsBelowSpan(k: nat, n: nat, w: real)
    requires k < n && w > 0.0
    ensures k as real * (w / n as real) < w
  {
    var d := w / n as real;
    assert d > 0.0;
    StepIncreasing(k, n, d);
    assert n as real * d == w;
  }

  /**
   * Pixel `(0, 0)` aims at `(Left, Top)`, and each further column moves x by
   * `image.width/res_x` and each further row moves y by `1.0/res_y`.
   */
  lemma TargetSteps(image: Image, resX: nat, resY: nat, xval: nat, yval: nat)
    requires resX > 0 && resY > 0
    ensures Target(image, resX, resY, 0, 0)[0] == Left(image, resX)
    ensures Target(image, resX, resY, 0, 0)[1] == Top(image, resY)
    ensures Target(image, resX, resY, xval + 1, yval)[0] - Target(image, resX, resY, xval, yval)[0]
      == image.width / resX as real
    ensures Target(image, resX, resY, xval, yval + 1)[1] - Target(image, resX, resY, xval, yval)[1]
      == 1.0 / resY as real
  {
  }

  /** The x coordinate of the target moves strictly right as `xval` grows, when the image has positive width. */
  lemma TargetXIncreasing(image: Image, resX: nat, resY: nat, x1: nat, x2: nat, y1: nat, y2: nat)
    requires resX > 0 && resY > 0
    requires image.width > 0.0 && x1 < x2
    ensures Target(image, resX, resY, x1, y1)[0] < Target(image, resX, resY, x2, y2)[0]
  {
    StepIncreasing(x1, x2, image.width / resX as real);
  }

  /** The y coordinate of the target moves strictly down the rows as `yval` grows. */
  lemma TargetYIncreasing(image: Image, resX: nat, resY: nat, x1: nat, x2: nat, y1: nat, y2: nat)
    requires resX > 0 && resY > 0
    requires y1 < y2
    ensures Target(image, resX, resY, x1, y1)[1] < Target(image, resX, resY, x2, y2)[1]
  {
    StepIncreasing(y1, y2, 1.0 / resY as real);
  }

  /** Over the columns of the display, x covers `[Left, Left + image.width)`. */
  lemma TargetXWithinImage(image: Image, resX: nat, resY: nat, xval: nat, yval: nat)
    requires resX > 0 && resY > 0
    requires image.width > 0.0 && xval < resX
    ensures Left(image, resX) <= Target(image, resX, resY, xval, yval)[0] < Left(image, resX) + image.width
  {
    StepNonNegative(xval, image.width / resX as real);
    StepsBelowSpan(xval, resX, image.width);
  }

  /**
   * Over the rows of the display, y covers `[Top, Top + 1)`: the row step is
   * `1.0/res_y`, whatever the image width.
   */
  lemma TargetYWithinUnitBand(image: Image, resX: nat, resY: nat, xval: nat, yval: nat)
    requires resX > 0 && resY > 0
    requires yval < resY
    ensures Top(image, resY) <= Target(image, resX, resY, xval, yval)[1] < Top(image, resY) + 1.0
  {
    StepNonNegative(yval, 1.0 / resY as real);
    StepsBelowSpan(yval, resY, 1.0);
  }

  /**
   * The y coordinate depends on neither the image width nor the horizontal
   * resolution nor the column, and x depends on neither the row nor the
   * vertical resolution.
   */
  lemma TargetAxesIndependent(image: Image, image': Image, resX: nat, resX': nat, resY: nat, resY': nat,
                              xval: nat, xval': nat, yval: nat, yval': nat)
    requires resX > 0 && resY > 0 && resX' > 0 && resY' > 0
    ensures image'.y == image.y && resY' == resY && yval' == yval ==>
      Target(image', resX', resY', xval', yval')[1] == Target(image, resX, resY, xval, yval)[1]
    ensures image'.x == image.x && image'.width == image.width && resX' == resX && xval' == xval ==>
      Target(image', resX', resY', xval', yval')[0] == Target(image, resX, resY, xval, yval)[0]
  {
  }

  /** With a positive width, distinct pixels aim at distinct points. */
  lemma TargetInjective(image: Image, resX: nat, resY: nat, x1: nat, y1: nat, x2: nat, y2: nat)
    requires resX > 0 && resY > 0 && image.width > 0.0
    requires (x1, y1) != (x2, y2)
    ensures Target(image, resX, resY, x1, y1) != Target(image, resX, resY, x2, y2)
  {
    var p, q := Target(image, resX, resY, x1, y1), Target(image, resX, resY, x2, y2);
    if x1 < x2 {
      TargetXIncreasing(image, resX, resY, x1, x2, y1, y2);
      assert p[0] != q[0];
    } else if x2 < x1 {
      TargetXIncreasing(image, resX, resY, x2, x1, y2, y1);
      assert p[0] != q[0];
    } else if y1 < y2 {
      TargetYIncreasing(image, resX, resY, x1, x2, y1, y2);
      assert p[1] != q[1];
    } else {
      TargetYIncreasing(image, resX, resY, x2, x1, y2, y1);
      assert p[1] != q[1];
    }
  }

  /** An image plane that does not pass through the viewpoint is never hit by it. */
  lemma EyeOffPlane(scene: Scene, xval: nat, yval: nat)
    requires scene.resX > 0 && scene.resY > 0
    requires scene.image.z != scene.viewpoint.z
    ensures Target(scene.image, scene.resX, scene.resY, xval, yval) != Eye(scene.viewpoint)
  {
    assert Eye(scene.viewpoint)[2] != Target(scene.image, scene.resX, scene.resY, xval, yval)[2];
  }

  // Colours and the order pixels are drawn in

  /** `random.randrange(255)` yields values in `[0, 255)`. */
  ghost predicate RandRange255(draws: nat -> int) {
    forall k: nat :: 0 <= draws(k) < 255
  }

  /**
   * `Ray.trace`: a random colour with alpha 0. The random source is the stream
   * `draws`; the `call`-th trace consumes its three draws in red, green, blue
   * order.
   */
  function Trace(draws: nat -> int, call: nat): (c: Color)
    requires RandRange255(draws)
    ensures 0 <= c.r < 255 && 0 <= c.g < 255 && 0 <= c.b < 255 && c.a == 0
  {
    Color(draws(3 * call), draws(3 * call + 1), draws(3 * call + 2), 0)
  }

  /** The number of pixels drawn before `(xval, yval)`: columns outside, rows inside. */
  function PixelIndex(xval: nat, yval: nat, resY: nat): nat {
    xval * resY + yval
  }

  /** The pixel drawn `k`-th. */
  function PixelAt(k: nat, resY: nat): (p: (int, int))
    requires resY > 0
    ensures p.0 >= 0 && p.1 >= 0
  {
    (k / resY, k % resY)
  }

  ghost predicate OnDisplay(p: (int, int), resX: nat, resY: nat) {
    0 <= p.0 < resX && 0 <= p.1 < resY
  }

  lemma MulMonotone(a: int, b: int, n: nat)
    requires a <= b
    ensures a * n <= b * n
  {
    assert b * n - a * n == (b - a) * n;
  }

  /** Each pixel's index is where it is drawn. */
  lemma PixelAtIndex(xval: nat, yval: nat, resY: nat)
    requires resY > 0 && yval < resY
    ensures PixelAt(PixelIndex(xval, yval, resY), resY) == (xval, yval)
  {
    var k := xval * resY + yval;
    var q, r := k / resY, k % resY;
    assert k == q * resY + r && 0 <= r < resY;
    if q < xval {
      MulMonotone(q + 1, xval, resY);
    } else if xval < q {
      MulMonotone(xval + 1, q, resY);
    }
  }

  /** The pixel drawn `k`-th lies on the display exactly when `k` is below the pixel count. */
  lemma PixelAtOnDisplay(k: nat, resX: nat, resY: nat)
    requires resY > 0
    ensures k < resX * resY <==> OnDisplay(PixelAt(k, resY), resX, resY)
    ensures PixelIndex(PixelAt(k, resY).0, PixelAt(k, resY).1, resY) == k
  {
    var q, r := k / resY, k % resY;
    assert k == q * resY + r;
    if k < resX * resY {
      if q >= resX {
        MulMonotone(resX, q, resY);
      }
    }
    if OnDisplay(PixelAt(k, resY), resX, resY) {
      MulMonotone(q, resX - 1, resY);
      assert (resX - 1) * resY == resX * resY - resY;
    }
  }

  /** Later positions in the draw order are later columns, or later rows of the same column. */
  lemma PixelAtOrdered(i: nat, j: nat, resY: nat)
    requires resY > 0 && i < j
    ensures var p, q := PixelAt(i, resY), PixelAt(j, resY);
      p.0 < q.0 || (p.0 == q.0 && p.1 < q.1)
  {
    var xi, yi, xj, yj := i / resY, i % resY, j / resY, j % resY;
    assert i == xi * resY + yi && j == xj * resY + yj;
    if xj < xi {
      MulMonotone(xj + 1, xi, resY);
    }
  }

  /**
   * A draw order that lists the `k`-th pixel at position `k` visits every
   * pixel of the display exactly once, column after column and row after row
   * within a column.
   */
  lemma ColumnMajorVisitsEachPixelOnce(writes: seq<(int, int)>, resX: nat, resY: nat)
    requires resY > 0
    requires |writes| == resX * resY
    requires forall k :: 0 <= k < |writes| ==> writes[k] == PixelAt(k, resY)
    ensures forall i, j :: 0 <= i < j < |writes| ==> writes[i] != writes[j]
    ensures forall p :: p in writes <==> OnDisplay(p, resX, resY)
    ensures forall i, j :: 0 <= i < j < |writes| ==>
      writes[i].0 < writes[j].0 || (writes[i].0 == writes[j].0 && writes[i].1 < writes[j].1)
  {
    forall i, j | 0 <= i < j < |writes|
      ensures writes[i].0 < writes[j].0 || (writes[i].0 == writes[j].0 && writes[i].1 < writes[j].1)
    {
      PixelAtOrdered(i, j, resY);
    }
    forall p | OnDisplay(p, resX, resY)
      ensures p in writes
    {
      var k := PixelIndex(p.0, p.1, resY);
      PixelAtIndex(p.0, p.1, resY);
      PixelAtOnDisplay(k, resX, resY);
      assert writes[k] == p;
    }
    forall p | p in writes
      ensures OnDisplay(p, resX, resY)
    {
      var k :| 0 <= k < |writes| && writes[k] == p;
      PixelAtOnDisplay(k, resX, resY);
    }
  }

  // The rendering loop

  /** What the loop leaves behind: the colour set at each pixel, and the order of the `set_at` calls. */
  datatype Frame = Frame(pixels: map<(int, int), Color>, writes: seq<(int, int)>)

  /** Some pixel of the display aims at the viewpoint itself. */
  ghost predicate EyeOnDisplay(scene: Scene)
    requires scene.resX > 0 && scene.resY > 0
  {
    exists xval: nat, yval: nat :: xval < scene.resX && yval < scene.resY &&
      Target(scene.image, scene.resX, scene.resY, xval, yval) == Eye(scene.viewpoint)
  }

  /** Some row of column `xval` aims at the viewpoint itself. */
  ghost predicate EyeInColumn(scene: Scene, xval: nat)
    requires scene.resX > 0 && scene.resY > 0
  {
    exists yval: nat :: yval < scene.resY &&
      Target(scene.image, scene.resX, scene.resY, xval, yval) == Eye(scene.viewpoint)
  }

  /** Every pixel in the first `xval` columns, and the first `yval` rows of column `xval`. */
  ghost predicate DrawnBefore(p: (int, int), xval: int, yval: int, resY: nat) {
    (0 <= p.0 < xval && 0 <= p.1 < resY) || (p.0 == xval && 0 <= p.1 < yval)
  }

  /** What has been drawn after the first `|writes|` pixels. */
  ghost predicate DrawnSoFar(scene: Scene, draws: nat -> int, frame: Frame, xval: nat, yval: nat)
    requires scene.resX > 0 && scene.resY > 0
    requires RandRange255(draws)
  {
    && |frame.writes| == PixelIndex(xval, yval, scene.resY)
    && (forall k :: 0 <= k < |frame.writes| ==> frame.writes[k] == PixelAt(k, scene.resY))
    && (forall p :: p in frame.pixels <==> DrawnBefore(p, xval, yval, scene.resY))
    && (forall p :: p in frame.pixels ==> frame.pixels[p] == Trace(draws, PixelIndex(p.0, p.1, scene.resY)))
    && (forall x: nat, y: nat :: (x < xval && y < scene.resY) || (x == xval && y < yval) ==>
          Target(scene.image, scene.resX, scene.resY, x, y) != Eye(scene.viewpoint))
  }

  /** Drawing pixel `(xval, yval)` as the next one extends what has been drawn by that pixel. */
  lemma DrawStep(scene: Scene, draws: nat -> int, frame: Frame, xval: nat, yval: nat)
    requires RandRange255(draws)
    requires scene.resX > 0 && scene.resY > 0 && yval < scene.resY
    requires DrawnSoFar(scene, draws, frame, xval, yval)
    requires Target(scene.image, scene.resX, scene.resY, xval, yval) != Eye(scene.viewpoint)
    ensures DrawnSoFar(scene, draws,
      Frame(frame.pixels[(xval, yval) := Trace(draws, |frame.writes|)], frame.writes + [(xval, yval)]),
      xval, yval + 1)
  {
    PixelAtIndex(xval, yval, scene.resY);
  }

  /** After the last row of a column, drawing continues at the top of the next column. */
  lemma ColumnDone(scene: Scene, draws: nat -> int, frame: Frame, xval: nat)
    requires RandRange255(draws)
    requires scene.resX > 0 && scene.resY > 0
    requires DrawnSoFar(scene, draws, frame, xval, scene.resY)
    ensures DrawnSoFar(scene, draws, frame, xval + 1, 0)
  {
    assert PixelIndex(xval, scene.resY, scene.resY) == PixelIndex(xval + 1, 0, scene.resY);
  }

  /** The inner loop of `createImage`: every row of column `xval`, top to bottom. */
  method DrawColumn(scene: Scene, draws: nat -> int, sqrt: real -> real, xval: nat, frame: Frame)
    returns (r: Result<Frame>)
    requires Roots.IsSqrt(sqrt)
    requires RandRange255(draws)
    requires scene.resX > 0 && scene.resY > 0 && xval < scene.resX
    requires DrawnSoFar(scene, draws, frame, xval, 0)
    ensures r.Err? <==> EyeInColumn(scene, xval)
    ensures r.Err? ==> r.error == ZeroDivision
    ensures r.Ok? ==> DrawnSoFar(scene, draws, r.value, xval + 1, 0)
  {
    var resX, resY := scene.resX, scene.resY;
    var eye := Eye(scene.viewpoint);
    var pixels, writes := frame.pixels, frame.writes;
    var yval: nat := 0;
    while yval < resY
      invariant yval <= resY
      invariant DrawnSoFar(scene, draws, Frame(pixels, writes), xval, yval)
    {
      var target := Target(scene.image, resX, resY, xval, yval);
      var ray := Rays.New(eye, target, sqrt);
      assert eye[..3] == eye && target[..3] == target;
      if ray.Err? {
        return Err(ray.error);
      }
      DrawStep(scene, draws, Frame(pixels, writes), xval, yval);
      pixels := pixels[(xval, yval) := Trace(draws, |writes|)];
      writes := writes + [(xval, yval)];
      yval := yval + 1;
    }
    ColumnDone(scene, draws, Frame(pixels, writes), xval);
    r := Ok(Frame(pixels, writes));
  }

  /**
   * `Scene.createImage` without the display: one ray per pixel, column by
   * column and row by row within a column, each pixel set to the colour its
   * trace returns. The steps divide by the resolution, and building a ray
   * divides by its length, so a zero resolution, or a pixel whose target is
   * the viewpoint, raises ZeroDivisionError.
   */
  method CreateImage(scene: Scene, draws: nat -> int, sqrt: real -> real) returns (r: Result<Frame>)
    requires Roots.IsSqrt(sqrt)
    requires RandRange255(draws)
    ensures scene.resX == 0 || scene.resY == 0 ==> r == Err(ZeroDivision)
    ensures scene.resX > 0 && scene.resY > 0 ==> (r.Err? <==> EyeOnDisplay(scene))
    ensures r.Err? ==> r.error == ZeroDivision
    ensures r.Ok? ==> forall p :: p in r.value.pixels <==> OnDisplay(p, scene.resX, scene.resY)
    ensures r.Ok? ==> forall p :: OnDisplay(p, scene.resX, scene.resY) ==>
      p in r.value.pixels && r.value.pixels[p] == Trace(draws, PixelIndex(p.0, p.1, scene.resY))
    ensures r.Ok? ==> |r.value.writes| == scene.resX * scene.resY
    ensures r.Ok? ==> forall k :: 0 <= k < |r.value.writes| ==> r.value.writes[k] == PixelAt(k, scene.resY)
  {
    var resX, resY := scene.resX, scene.resY;
    if resX == 0 || resY == 0 {
      return Err(ZeroDivision);
    }
    var frame := Frame(map[], []);
    var xval: nat := 0;
    while xval < resX
      invariant xval <= resX
      invariant DrawnSoFar(scene, draws, frame, xval, 0)
    {
      var next := DrawColumn(scene, draws, sqrt, xval, frame);
      if next.Err? {
        return Err(next.error);
      }
      frame := next.value;
      xval := xval + 1;
    }
    r := Ok(frame);
  }
}
