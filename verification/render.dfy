/**
 * From pixels to rays and from rendered colours to the image: the pixel
 * index decomposition of `Scene.render`, the camera's pixel offsets in
 * `build_ray`, the per-pixel render, and the loop that writes the rendered
 * colours into the image bottom row first.
 */
module Render {
  import opened Wrappers
  import opened Vectors
  import opened Geometry
  import opened Shading

  // --------------------------------------------------------------- camera

  /** A camera: eye, viewing frame, and the view's half extents and pixel sizes. */
  datatype Camera = Camera(e: Vec3, f: Vec3, s: Vec3, u: Vec3, width: nat, height: nat,
                           halfWidth: real, halfHeight: real, pixelWidth: real, pixelHeight: real)

  /**
   * `Camera.__init__` with `compute_pixel_size`; `tan` is `np.tan`. The
   * aspect ratio divides the width by the height as Python floats, so a
   * zero height raises `ZeroDivisionError`. The pixel sizes divide numpy
   * values by one less than the width and the height, so a width or a
   * height of one gives an infinite (or NaN) pixel size rather than an
   * error. The model returns None in all three cases: a camera only
   * exists here when its pixel sizes are finite.
   */
  function NewCamera(e: Vec3, up: Vec3, c: Vec3, fieldOfView: real, width: nat, height: nat,
                     tan: real -> real, sqrt: real -> real): (cam: Option<Camera>)
    ensures cam.None? <==> height <= 1 || width == 1
    ensures cam.Some? ==> cam.value.e == e && cam.value.width == width && cam.value.height == height
  {
    if height == 0 || width == 1 || height == 1 then None
    else
      var f := Normalize(Sub(c, e), sqrt);
      var s := Normalize(Cross(f, up), sqrt);
      var u := Cross(s, f);
      var alpha := fieldOfView / 2.0;
      var ratio := width as real / height as real;
      var halfHeight := tan(alpha);
      var halfWidth := ratio * halfHeight;
      Some(Camera(e, f, s, u, width, height, halfWidth, halfHeight,
                  halfWidth / (width - 1) as real * 2.0, halfHeight / (height - 1) as real * 2.0))
  }

  /** The side vector and the up vector of the camera are both orthogonal to the viewing direction and to each other. */
  lemma CameraFrameOrthogonal(e: Vec3, up: Vec3, c: Vec3, fieldOfView: real, width: nat, height: nat,
                              tan: real -> real, sqrt: real -> real)
    requires NewCamera(e, up, c, fieldOfView, width, height, tan, sqrt).Some?
    ensures var cam := NewCamera(e, up, c, fieldOfView, width, height, tan, sqrt).value;
            Dot(cam.s, cam.f) == 0.0 && Dot(cam.u, cam.f) == 0.0 && Dot(cam.u, cam.s) == 0.0
  {
    var cam := NewCamera(e, up, c, fieldOfView, width, height, tan, sqrt).value;
    CrossOrthogonal(cam.f, up);
    DotSymmetric(Cross(cam.f, up), cam.f);
    NormalizeOrthogonal(Cross(cam.f, up), cam.f, sqrt);
    CrossOrthogonal(cam.s, cam.f);
  }

  /** The offset of pixel `k` along an axis of half extent `half` and pixel size `step`. */
  function AxisOffset(k: int, step: real, half: real): real {
    k as real * step - half
  }

  /** The sideways offset of column `x` in `build_ray`. */
  function XOffset(cam: Camera, x: int): real {
    AxisOffset(x, cam.pixelWidth, cam.halfWidth)
  }

  /** The upward offset of row `y` in `build_ray`. */
  function YOffset(cam: Camera, y: int): real {
    AxisOffset(y, cam.pixelHeight, cam.halfHeight)
  }

  /** Three unit vectors, orthogonal to each other: a viewing direction `f`, a side vector `s` and an up vector `u`. */
  predicate Orthonormal(f: Vec3, s: Vec3, u: Vec3) {
    && IsUnit(f) && IsUnit(s) && IsUnit(u)
    && Dot(s, f) == 0.0 && Dot(u, f) == 0.0 && Dot(u, s) == 0.0
  }

  /**
   * `dir` is a unit vector pointing forward along `f` whose components
   * along `s` and `u` are `dx` and `dy` times its forward component: it
   * goes through the point `(dx, dy)` of the image plane one unit ahead.
   */
  predicate AimsAt(dir: Vec3, f: Vec3, s: Vec3, u: Vec3, dx: real, dy: real) {
    && IsUnit(dir)
    && Dot(dir, f) > 0.0
    && Dot(dir, s) == dx * Dot(dir, f)
    && Dot(dir, u) == dy * Dot(dir, f)
  }

  /**
   * `build_ray`: the ray from the eye through pixel `(x, y)`. In an
   * orthonormal camera frame its direction goes through the pixel's
   * offsets on the image plane.
   */
  function BuildRay(cam: Camera, x: int, y: int, sqrt: real -> real): (ray: Ray)
    ensures ray.origin == cam.e
    ensures IsSqrt(sqrt) && Orthonormal(cam.f, cam.s, cam.u) ==>
              AimsAt(ray.direction, cam.f, cam.s, cam.u, XOffset(cam, x), YOffset(cam, y))
  {
    var xComp := Scale(cam.s, XOffset(cam, x));
    var yComp := Scale(cam.u, YOffset(cam, y));
    RayThroughFrame(cam.f, cam.s, cam.u, XOffset(cam, x), YOffset(cam, y), sqrt);
    MakeRay(cam.e, Add(Add(cam.f, xComp), yComp), sqrt)
  }

  /** Normalising `f + X s + Y u` in an orthonormal frame gives a direction through `(X, Y)`. */
  lemma RayThroughFrame(f: Vec3, s: Vec3, u: Vec3, dx: real, dy: real, sqrt: real -> real)
    ensures IsSqrt(sqrt) && Orthonormal(f, s, u) ==>
              AimsAt(Normalize(Add(Add(f, Scale(s, dx)), Scale(u, dy)), sqrt), f, s, u, dx, dy)
  {
    var d := Add(Add(f, Scale(s, dx)), Scale(u, dy));
    if IsSqrt(sqrt) && Orthonormal(f, s, u) {
      FrameCoordinates(f, s, u, dx, dy);
      assert d != Zero;
      var n := Norm(d, sqrt);
      NormalizedComponent(d, f, sqrt);
      NormalizedComponent(d, s, sqrt);
      NormalizedComponent(d, u, sqrt);
      assert dx / n == dx * (1.0 / n);
      assert dy / n == dy * (1.0 / n);
    }
  }

  /** In an orthonormal frame, `f + X s + Y u` has coordinates `1`, `X` and `Y`. */
  lemma FrameCoordinates(f: Vec3, s: Vec3, u: Vec3, dx: real, dy: real)
    requires Orthonormal(f, s, u)
    ensures var d := Add(Add(f, Scale(s, dx)), Scale(u, dy));
            Dot(d, f) == 1.0 && Dot(d, s) == dx && Dot(d, u) == dy
  {
    DotSymmetric(s, f);
    DotSymmetric(u, f);
    DotSymmetric(u, s);
    FrameComponent(f, s, u, dx, dy, f);
    FrameComponent(f, s, u, dx, dy, s);
    FrameComponent(f, s, u, dx, dy, u);
  }

  /** The component of `f + X s + Y u` along `w`. */
  lemma FrameComponent(f: Vec3, s: Vec3, u: Vec3, dx: real, dy: real, w: Vec3)
    ensures Dot(Add(Add(f, Scale(s, dx)), Scale(u, dy)), w) == Dot(f, w) + dx * Dot(s, w) + dy * Dot(u, w)
  {
    DotAdd(Add(f, Scale(s, dx)), Scale(u, dy), w);
    DotAdd(f, Scale(s, dx), w);
    DotScale(s, w, dx);
    DotScale(u, w, dy);
  }

  /** The component of a normalised non-zero vector along `w` is its own component divided by its length. */
  lemma NormalizedComponent(d: Vec3, w: Vec3, sqrt: real -> real)
    requires IsSqrt(sqrt) && d != Zero
    ensures Norm(d, sqrt) > 0.0 && Dot(Normalize(d, sqrt), w) == Dot(d, w) / Norm(d, sqrt)
  {
    NormFacts(d, sqrt);
    var n := Norm(d, sqrt);
    DotScale(d, w, 1.0 / n);
    assert Dot(d, w) * (1.0 / n) == Dot(d, w) / n;
  }

  /**
   * Unless the camera looks along its up vector, `Camera.__init__` builds
   * an orthonormal frame.
   */
  lemma NewCameraOrthonormal(e: Vec3, up: Vec3, c: Vec3, fieldOfView: real, width: nat, height: nat,
                             tan: real -> real, sqrt: real -> real)
    requires NewCamera(e, up, c, fieldOfView, width, height, tan, sqrt).Some?
    requires IsSqrt(sqrt) && Cross(Sub(c, e), up) != Zero
    ensures var cam := NewCamera(e, up, c, fieldOfView, width, height, tan, sqrt).value;
            Orthonormal(cam.f, cam.s, cam.u)
  {
    var cam := NewCamera(e, up, c, fieldOfView, width, height, tan, sqrt).value;
    var g := Sub(c, e);
    var k := 1.0 / Norm(g, sqrt);
    assert cam.f == Scale(g, k);
    CrossScale(g, up, k);
    assert Cross(cam.f, up) != Zero by {
      if Cross(cam.f, up) == Zero {
        assert Scale(Cross(g, up), k) == Zero;
        ScaleZero(Cross(g, up), k);
      }
    }
    CameraFrameOrthogonal(e, up, c, fieldOfView, width, height, tan, sqrt);
    CrossLength(cam.s, cam.f);
  }

  /** Scaling by a non-zero factor only gives Zero for Zero. */
  lemma ScaleZero(v: Vec3, k: real)
    requires k != 0.0 && Scale(v, k) == Zero
    ensures v == Zero
  {
  }

  /** With `n` steps of `2 h / n`, offsets `k` steps from either end are opposite. */
  lemma SymmetricSteps(n: real, h: real, step: real, k: real)
    requires n != 0.0 && step == h / n * 2.0
    ensures k * step - h == -((n - k) * step - h)
  {
    assert n * step == 2.0 * h;
    assert (n - k) * step == n * step - k * step;
  }

  /**
   * The offsets of a camera span the view symmetrically: the first column
   * is at `-halfWidth`, the last at `halfWidth`, and columns at the same
   * distance from either edge have opposite offsets; likewise for rows.
   */
  lemma OffsetsSymmetric(e: Vec3, up: Vec3, c: Vec3, fieldOfView: real, width: nat, height: nat,
                         tan: real -> real, sqrt: real -> real, x: int, y: int)
    requires NewCamera(e, up, c, fieldOfView, width, height, tan, sqrt).Some?
    ensures var cam := NewCamera(e, up, c, fieldOfView, width, height, tan, sqrt).value;
            && XOffset(cam, x) == -XOffset(cam, width - 1 - x)
            && YOffset(cam, y) == -YOffset(cam, height - 1 - y)
            && XOffset(cam, width - 1) == cam.halfWidth
            && YOffset(cam, height - 1) == cam.halfHeight
  {
    var cam := NewCamera(e, up, c, fieldOfView, width, height, tan, sqrt).value;
    assert cam.pixelWidth == cam.halfWidth / (width - 1) as real * 2.0;
    assert cam.pixelHeight == cam.halfHeight / (height - 1) as real * 2.0;
    AxisOffsets(width, cam.halfWidth, cam.pixelWidth, x);
    AxisOffsets(height, cam.halfHeight, cam.pixelHeight, y);
  }

  /** Along one axis of `n` pixels, offsets `k` steps from either end are opposite, and the last one is `h`. */
  lemma AxisOffsets(n: int, h: real, step: real, k: int)
    requires n != 1 && step == h / (n - 1) as real * 2.0
    ensures AxisOffset(k, step, h) == -AxisOffset(n - 1 - k, step, h)
    ensures AxisOffset(n - 1, step, h) == h
  {
    SymmetricSteps((n - 1) as real, h, step, k as real);
    SymmetricSteps((n - 1) as real, h, step, 0.0);
  }

  // ---------------------------------------------------------------- pixels

  /**
   * `Scene.render`'s decomposition of a pixel index: the column is the
   * remainder and the row is `int(pixel / width)`, truncating the quotient.
   */
  function PixelCoords(pixel: int, width: nat, height: nat): (xy: (int, int))
    requires 0 <= pixel < width * height
    ensures 0 <= xy.0 < width && 0 <= xy.1 < height
    ensures pixel == xy.1 * width + xy.0
  {
    FloorQuotient(pixel, width);
    RowBound(pixel, width, height);
    (pixel % width, Trunc(pixel as real / width as real))
  }

  lemma MulStrict(a: real, b: real, k: real)
    requires a < b && 0.0 < k
    ensures a * k < b * k
  {
    MulPositive(b - a, k);
  }

  lemma MulMonotoneReal(a: real, b: real, k: real)
    requires a <= b && 0.0 < k
    ensures a * k <= b * k
  {
    NonNegativeProduct(b - a, k);
  }

  /** The truncated real quotient of naturals is their integer quotient. */
  lemma FloorQuotient(p: nat, w: nat)
    requires w > 0
    ensures Trunc(p as real / w as real) == p / w
  {
    var q, z, wr := p / w, p as real / w as real, w as real;
    assert z * wr == p as real;
    assert q * w <= p < (q + 1) * w;
    assert (q * w) as real == q as real * wr;
    assert ((q + 1) * w) as real == (q as real + 1.0) * wr;
    if z < q as real {
      MulStrict(z, q as real, wr);
    }
    if q as real + 1.0 <= z {
      MulMonotoneReal(q as real + 1.0, z, wr);
    }
    assert q as real <= z < q as real + 1.0;
  }

  lemma RowBound(p: nat, w: nat, h: nat)
    requires p < w * h
    ensures p / w < h
  {
  }

  /** The colour of camera pixel `(x, y)`: its ray shaded from depth 0 with the default maximum depth. */
  function CameraColor(scene: Scene, cam: Camera, x: int, y: int, sqrt: real -> real): Vec3 {
    Shade(scene, BuildRay(cam, x, y, sqrt), 0, REFLECTION_DEPTH, sqrt)
  }

  /** The colour rendered for a pixel index. */
  function PixelColor(scene: Scene, cam: Camera, pixel: int, sqrt: real -> real): Vec3
    requires 0 <= pixel < scene.width * scene.height
  {
    var xy := PixelCoords(pixel, scene.width, scene.height);
    CameraColor(scene, cam, xy.0, xy.1, sqrt)
  }

  /** `Scene.render`: decompose the index, build the ray and shoot it. */
  method RenderPixel(scene: Scene, cam: Camera, pixel: int, sqrt: real -> real) returns (color: Vec3)
    requires 0 <= pixel < scene.width * scene.height
    ensures color == PixelColor(scene, cam, pixel, sqrt)
  {
    var x := pixel % scene.width;
    var y := Trunc(pixel as real / scene.width as real);
    var ray := BuildRay(cam, x, y, sqrt);
    color := ShootRay(scene, ray, 0, REFLECTION_DEPTH, sqrt);
    assert color == CameraColor(scene, cam, x, y, sqrt);
  }

  /** The pool's map over all pixel indexes, done in index order. */
  method RenderPixels(scene: Scene, cam: Camera, sqrt: real -> real) returns (pixels: seq<Vec3>)
    ensures |pixels| == scene.width * scene.height
    ensures forall k :: 0 <= k < |pixels| ==> pixels[k] == PixelColor(scene, cam, k, sqrt)
  {
    pixels := [];
    for k := 0 to scene.width * scene.height
      invariant |pixels| == k
      invariant forall i :: 0 <= i < k ==> pixels[i] == PixelColor(scene, cam, i, sqrt)
    {
      var color := RenderPixel(scene, cam, k, sqrt);
      pixels := pixels + [color];
    }
  }

  // ----------------------------------------------------------------- image

  /**
   * The index of the rendered colour the assembly loop puts at column `i`,
   * row `j` of the image; it is always an index of a rendered colour.
   */
  function ImageIndex(width: nat, height: nat, i: int, j: int): (k: int)
    requires 0 <= i < width && 0 <= j < height
    ensures 0 <= k < width * height
  {
    IndexBound(height - 1 - j, i, width, height);
    (height - 1 - j) * width + i
  }

  lemma IndexBound(r: int, i: int, width: nat, height: nat)
    requires 0 <= r < height && 0 <= i < width
    ensures 0 <= r * width + i < width * height
  {
    NonNegativeIntProduct(r, width);
    MulMonotone(r, height - 1, width);
    assert (height - 1) * width + width == width * height;
  }

  /** The colour shown at an image position is the one rendered for that position's column and, counted from the other end, its row. */
  lemma ImageIndexCoords(width: nat, height: nat, i: int, j: int)
    requires 0 <= i < width && 0 <= j < height
    ensures PixelCoords(ImageIndex(width, height, i, j), width, height) == (i, height - 1 - j)
  {
    DivModUnique(height - 1 - j, i, width);
    FloorQuotient(ImageIndex(width, height, i, j), width);
  }

  /** Every rendered colour has a position in the image: the one its coordinates give, flipped upside down. */
  lemma ImageIndexOnto(width: nat, height: nat, k: int)
    requires 0 <= k < width * height
    ensures var xy := PixelCoords(k, width, height);
            ImageIndex(width, height, xy.0, height - 1 - xy.1) == k
  {
  }

  lemma NonNegativeIntProduct(a: int, b: int)
    requires 0 <= a && 0 <= b
    ensures 0 <= a * b
  {
  }

  lemma MulMonotone(a: int, b: int, k: nat)
    requires a <= b
    ensures a * k <= b * k
  {
    assert b * k - a * k == (b - a) * k;
    NonNegativeIntProduct(b - a, k);
  }

  /** `r * w + i` with `0 <= i < w` has quotient `r` and remainder `i`. */
  lemma DivModUnique(r: int, i: int, w: nat)
    requires 0 <= i < w
    ensures (r * w + i) / w == r && (r * w + i) % w == i
  {
    var n := r * w + i;
    var q, m := n / w, n % w;
    assert (q - r) * w == i - m by {
      assert n == q * w + m;
      assert (q - r) * w == q * w - r * w;
    }
    if q > r {
      MulMonotone(1, q - r, w);
    } else if q < r {
      MulMonotone(1, r - q, w);
    }
  }

  /** Distinct positions receive distinct colours. */
  lemma ImageIndexInjective(width: nat, height: nat, i: int, j: int, i': int, j': int)
    requires 0 <= i < width && 0 <= j < height && 0 <= i' < width && 0 <= j' < height
    requires ImageIndex(width, height, i, j) == ImageIndex(width, height, i', j')
    ensures i == i' && j == j'
  {
    DivModUnique(height - 1 - j, i, width);
    DivModUnique(height - 1 - j', i', width);
  }

  /** The colour after the last one of a row goes to the first column of the row below. */
  lemma NextRow(width: nat, height: nat, y: int)
    requires 0 < width && 0 < y < height
    ensures ImageIndex(width, height, 0, y - 1) == ImageIndex(width, height, width - 1, y) + 1
  {
    assert (height - 1 - (y - 1)) * width == (height - 1 - y) * width + width;
  }

  /** The bottom-right position receives the last colour. */
  lemma LastIndex(width: nat, height: nat)
    requires 0 < width && 0 < height
    ensures ImageIndex(width, height, width - 1, 0) + 1 == width * height
  {
    assert (height - 1) * width + width == width * height;
  }

  lemma EmptyProduct(width: nat, height: nat)
    requires width * height == 0
    ensures width == 0 || height == 0
  {
    if width > 0 && height > 0 {
      MulMonotone(1, height, width);
    }
  }

  /**
   * The assembly loop: starting at PIL's top-left corner (column 0, row
   * `height - 1` of the camera), each colour goes to the next column, and
   * after the last column to the start of the row below.
   */
  method AssembleImage(pixels: seq<Vec3>, width: nat, height: nat) returns (image: array2<Vec3>)
    requires |pixels| == width * height
    ensures fresh(image) && image.Length0 == width && image.Length1 == height
    ensures forall i, j :: 0 <= i < width && 0 <= j < height ==>
              image[i, j] == pixels[ImageIndex(width, height, i, j)]
  {
    image := new Vec3[width, height]((i, j) => Zero);
    var x, y := 0, height - 1;
    if |pixels| == 0 {
      EmptyProduct(width, height);
    }
    for k := 0 to |pixels|
      invariant k < |pixels| ==> 0 <= x < width && 0 <= y < height && k == ImageIndex(width, height, x, y)
      invariant k == |pixels| ==> width == 0 || y < 0
      invariant forall i, j :: 0 <= i < width && 0 <= j < height ==>
                  image[i, j] == if j > y || (j == y && i < x) then pixels[ImageIndex(width, height, i, j)] else Zero
    {
      image[x, y] := pixels[k];
      x := x + 1;
      if x == width {
        if y > 0 {
          NextRow(width, height, y);
        } else {
          LastIndex(width, height);
        }
        x := 0;
        y := y - 1;
      }
    }
  }

  /**
   * Rendering a scene: every position `(i, j)` of the image shows the colour
   * of the ray through camera pixel `(i, height - 1 - j)`, so the image row
   * `j` is the camera row counted from the other end.
   */
  method RenderImage(scene: Scene, cam: Camera, sqrt: real -> real) returns (image: array2<Vec3>)
    ensures fresh(image) && image.Length0 == scene.width && image.Length1 == scene.height
    ensures forall i, j :: 0 <= i < scene.width && 0 <= j < scene.height ==>
              image[i, j] == CameraColor(scene, cam, i, scene.height - 1 - j, sqrt)
  {
    var pixels := RenderPixels(scene, cam, sqrt);
    image := AssembleImage(pixels, scene.width, scene.height);
    forall i, j | 0 <= i < scene.width && 0 <= j < scene.height
      ensures image[i, j] == CameraColor(scene, cam, i, scene.height - 1 - j, sqrt)
    {
      var k := ImageIndex(scene.width, scene.height, i, j);
      ImageIndexCoords(scene.width, scene.height, i, j);
      assert image[i, j] == pixels[k] == PixelColor(scene, cam, k, sqrt);
    }
  }
}
