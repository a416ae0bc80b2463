# Geometry kernels of CS4120_ComputerGraphics, modelled in Dafny

This project models four independent pieces of geometry code from a
computer-graphics course repository. Arithmetic is over exact `real`s,
an idealisation of the Python floats.

- **Ray tracer** (`ThreadedRayTracer/multiprocessing_raytracer.py`). The model covers:
  - rays, materials and the checkerboard texture;
  - ray/sphere, ray/plane and ray/triangle (Möller–Trumbore) intersection;
  - surface normals and mirror reflection;
  - the first-hit scan of `check_intersection`;
  - the recursive shading of `shoot_ray`, with its ambient term, Lambert lights and reflection depth;
  - the camera and the pixel-to-ray offsets of `build_ray`;
  - the pixel index decomposition of `Scene.render`;
  - the loop that writes the rendered colours into the image.

  These are modules `Vectors`, `Geometry`, `Shading` and `Render`. `np.sqrt`/`np.linalg.norm` and `np.tan` are function parameters. Lemmas that need a real square root require `IsSqrt(sqrt)`: for `x >= 0`, `sqrt(x) >= 0` and `sqrt(x) * sqrt(x) == x`.
- **Cohen–Sutherland line clipping** (`LineClipping/lineClipping.py`, module `LineClipping`). The model covers:
  - region codes as `bv4`;
  - normalisation of the clip rectangle;
  - the trivial accept/reject test `lineCase`;
  - the clipping loop `calcNewLine`, over a `Point` class whose `coords` and `reCode` fields the loop updates in place;
  - the pairing of clicked points into lines.
- **Curves** (`bspline/bsplineViewer.py`, module `BSpline`). The model covers:
  - the clamped knot vector of `calc_knot_vector`;
  - the knot-span search and the sampling loops of `draw_curve`;
  - de Boor's recursion;
  - de Casteljau's recursion with its loop building the reduced list.
- **Point-cloud viewer** (`OGLViewer/oglViewer.py`, module `PointCloud`). The model covers:
  - the viewer state (`model_data`, `points`, `bounding_box`, `obj_origin`, `scale`) as a class `PointViewer`;
  - the import loop, on pre-parsed rows;
  - the bounding box and its midpoint;
  - the uniform scale that maps the cloud into `[-1, 1]^3`.

Python exceptions become `Err` results or `None`, and the state they leave behind is stated:
- `ZeroDivisionError` in `draw_curve` and, for a zero image height, in the camera;
- `IndexError` in the viewer for empty data or a row with fewer than three numbers.

Methods that loop in the source are methods here, each proved equal to a specification function:
- `CheckIntersection` equals `FirstHit`;
- `LambertShading` equals `Lighting`;
- `ShootRay` equals `Shade`;
- `RenderPixels` equals `PixelColor`;
- `Casteljau` equals `BezierPoint`;
- `SampleSpline` equals `SplineSample`.

The lemmas then state what the source promises about those functions.

## Model

All paths are relative to the repository root.

| member | source | states |
|---|---|---|
| Vectors.Normalize | ThreadedRayTracer/multiprocessing_raytracer.py:317-323 | `normalize_rows`: a zero norm gives the zero vector. Otherwise the result is `v / norm(v)`. With a true square root the result is zero exactly for the zero vector, and any other vector becomes a unit vector. |
| Vectors.NormalizeIdempotent | ThreadedRayTracer/multiprocessing_raytracer.py:317-323 | Normalising a normalised vector changes nothing. |
| Vectors.NormalizeOfUnit | ThreadedRayTracer/multiprocessing_raytracer.py:317-323 | A unit vector is its own normalisation. |
| Vectors.NormalizeOrthogonal | ThreadedRayTracer/multiprocessing_raytracer.py:317-323 | Normalising keeps a vector orthogonal to whatever it was orthogonal to. |
| Geometry.MakeRay | ThreadedRayTracer/multiprocessing_raytracer.py:196-205 | `Ray.__init__` keeps the origin. A non-zero direction is stored as a unit vector, and normalising the stored direction again changes nothing. |
| Geometry.PointAt | ThreadedRayTracer/multiprocessing_raytracer.py:210-212 | `point_at_parameter`: the point is `dist` times the direction away from the origin. For a unit direction, its projection on the direction is exactly `dist`. |
| Geometry.PlainMaterial | ThreadedRayTracer/multiprocessing_raytracer.py:155-166 | `Material` with its default coefficients: ambient 0.2, specular 0.5, lambert 0.8. |
| Geometry.CheckedMaterial | ThreadedRayTracer/multiprocessing_raytracer.py:172-186 | `CheckedMaterial` with colours (200,200,200) and black. Its coefficients are ambient 0.5, specular 0 and lambert 0.8, and its check size is 1. |
| Geometry.Trunc | ThreadedRayTracer/multiprocessing_raytracer.py:191 | `astype(int)` truncates toward zero: the result is within 1 of the input and never on the far side of the input from zero. |
| Geometry.ColorAt | ThreadedRayTracer/multiprocessing_raytracer.py:168-193 | `color_at`: a plain material returns its colour. A checked material returns one of its two colours. |
| Geometry.CheckerAtLatticePoints | ThreadedRayTracer/multiprocessing_raytracer.py:188-193 | At an integer point `(i, j, k)`, the checker shows the other colour exactly when `abs(i) + abs(j) + abs(k)` is odd. So (0,0,0) is the base colour and (1,0,0) the other colour. The check size has no effect there. |
| Geometry.CheckerSymmetric | ThreadedRayTracer/multiprocessing_raytracer.py:188-193 | At every point, flipping the sign of any one coordinate keeps the colour. Changing the check size also keeps it, because line 190 discards its product. |
| Geometry.CheckerAlternates | ThreadedRayTracer/multiprocessing_raytracer.py:188-193 | On the non-negative side of the x axis, one unit step along x always switches colour. |
| Geometry.SphereIntersection | ThreadedRayTracer/multiprocessing_raytracer.py:231-239 | The sphere's `intersection_parameter` is `None` exactly when the discriminant is negative; a hit is at most `v`, the parameter closest to the centre. SphereRoot, SphereHitOnSurface, SphereHitNearest, SphereMiss and SphereFromInside state the rest. |
| Geometry.PlaneIntersection | ThreadedRayTracer/multiprocessing_raytracer.py:262-270 | The plane's `intersection_parameter` is `None` exactly when `direction . normal` is zero (`if b:`). PlaneHitOnPlane and PlaneMiss state what a hit and a miss mean. |
| Geometry.TriangleIntersection | ThreadedRayTracer/multiprocessing_raytracer.py:297-310 | The triangle's `intersection_parameter` is `None` when `dvu == 0`. TriangleHitInside and TriangleHitComplete state that it returns exactly the parameters where the line meets the triangle. |
| Geometry.IntersectionParameter | ThreadedRayTracer/multiprocessing_raytracer.py:231-310 | Dispatch to the shape's own `intersection_parameter`; no contract of its own. PositiveHit, FirstHit and the Sphere, Plane and Triangle lemmas state its properties. |
| Geometry.SphereDistance | ThreadedRayTracer/multiprocessing_raytracer.py:233-235 | The squared distance from the centre to the point at `s`, written around `v`, the parameter closest to the centre. This is the quadratic behind the discriminant. |
| Geometry.SphereRoot | ThreadedRayTracer/multiprocessing_raytracer.py:231-239 | A sphere hit means the discriminant is non-negative. The returned parameter is the near root `v - sqrt(disc)`, which is at most `v`. |
| Geometry.SphereHitOnSurface | ThreadedRayTracer/multiprocessing_raytracer.py:231-239 | For a unit ray, the returned parameter is a point on the sphere. |
| Geometry.SphereHitNearest | ThreadedRayTracer/multiprocessing_raytracer.py:231-239 | Every other point of the ray's line that lies on the sphere has a parameter at least the returned one. |
| Geometry.SphereMiss | ThreadedRayTracer/multiprocessing_raytracer.py:231-239 | `None`, that is a negative discriminant, means every point of the ray's line is outside the sphere. |
| Geometry.SphereFromInside | ThreadedRayTracer/multiprocessing_raytracer.py:231-239 | From inside a sphere the sphere is always hit, but at a negative parameter, which the first-hit scan ignores. |
| Geometry.PlaneHitOnPlane | ThreadedRayTracer/multiprocessing_raytracer.py:262-270 | A plane hit at `t` gives `(point_at_parameter(t) - point) . normal == 0`. |
| Geometry.PlaneMiss | ThreadedRayTracer/multiprocessing_raytracer.py:262-270 | `None`, that is `direction . normal == 0`, means every point of the ray keeps the origin's offset from the plane. |
| Geometry.CramerSolution | ThreadedRayTracer/multiprocessing_raytracer.py:299-308 | Cramer's rule for `w + t d = r u + s v`. The three quotients computed in `intersection_parameter` solve the system whenever `dvu != 0`. |
| Geometry.TriangleHitInside | ThreadedRayTracer/multiprocessing_raytracer.py:297-310 | A triangle hit at `t` comes with `0 <= r`, `0 <= s` and `r + s <= 1` such that `origin + t d = a + r u + s v`. |
| Geometry.TriangleHitComplete | ThreadedRayTracer/multiprocessing_raytracer.py:297-310 | Conversely, when `dvu != 0` and the ray's line meets the triangle at `t` with barycentric `r` and `s` in range, the intersection returns exactly `t`. |
| Geometry.NormalAt | ThreadedRayTracer/multiprocessing_raytracer.py:241-314 | `normal_at` of Sphere (241-243), Plane (272-274) and Triangle (312-314). Away from the centre, the sphere normal is a unit vector with a positive component along `p - center`. The plane returns its stored normal. The triangle normal is orthogonal to both edges; for a non-degenerate triangle it is a unit vector pointing against `u x v`, as the `* (-1)` makes it. |
| Geometry.OutwardNormal | ThreadedRayTracer/multiprocessing_raytracer.py:241-243 | The sphere's `normalize_rows(p - center)`: away from the centre, a unit vector pointing outwards. |
| Geometry.FlippedNormal | ThreadedRayTracer/multiprocessing_raytracer.py:312-314 | The triangle's `normalize_rows(cross(u, v)) * (-1)`: orthogonal to both edges, and for `u x v != 0` a unit vector with a negative component along `u x v`. |
| Geometry.NormalIndependentOfPoint | ThreadedRayTracer/multiprocessing_raytracer.py:272-314 | Plane and triangle normals do not depend on the query point. |
| Geometry.Reflect | ThreadedRayTracer/multiprocessing_raytracer.py:326-329 | `reflection`: `d - 2 (d . n̂) n̂` with `n̂` the normalised normal; no contract of its own. ReflectNormal, ReflectLength, ReflectTangent and ReflectInvolution state its properties. |
| Geometry.ReflectNormal | ThreadedRayTracer/multiprocessing_raytracer.py:326-329 | `reflection` negates the component along the normal: `reflect(d, n) . n̂ == -(d . n̂)`. |
| Geometry.ReflectLength | ThreadedRayTracer/multiprocessing_raytracer.py:326-329 | Reflection preserves the squared length. |
| Geometry.ReflectTangent | ThreadedRayTracer/multiprocessing_raytracer.py:326-329 | Reflection keeps every component orthogonal to the normal. |
| Geometry.ReflectInvolution | ThreadedRayTracer/multiprocessing_raytracer.py:326-329 | Reflecting twice in the same normal gives the original vector. |
| Shading.PositiveHit | ThreadedRayTracer/multiprocessing_raytracer.py:100-101 | The test `hit_dist and hit_dist > 0`: present exactly when the intersection parameter exists and is strictly positive, and then it is that parameter. |
| Shading.FirstHit | ThreadedRayTracer/multiprocessing_raytracer.py:98-103 | A hit found by the scan has a positive distance and an object from the scene's list. |
| Shading.FirstHitIsFirst | ThreadedRayTracer/multiprocessing_raytracer.py:98-103 | The scan returns `None` exactly when no object has a positive distance. Otherwise it returns the first such object in list order, together with that object's distance. |
| Shading.FirstHitNotNearest | ThreadedRayTracer/multiprocessing_raytracer.py:98-103 | Two parallel planes at distances 5 and 2, listed far first: the scan returns the far one. The first hit in list order wins, not the nearest. |
| Shading.CheckIntersection | ThreadedRayTracer/multiprocessing_raytracer.py:90-103 | The loop that updates `intersection` computes the first-hit scan. |
| Shading.AmbientTerm | ThreadedRayTracer/multiprocessing_raytracer.py:67-71 | At depth 0 the ambient term is `material_color * ambient`. At depth > 0 it is multiplied into the black colour, so it is zero. |
| Shading.Lighting | ThreadedRayTracer/multiprocessing_raytracer.py:73-82 | The Lambert light loop as a function over the light list; no contract of its own. LightingInDarkness, LightingNonNegative and LambertShading state its properties. |
| Shading.LocalColor | ThreadedRayTracer/multiprocessing_raytracer.py:59-82 | The colour at a hit before reflection: ambient term plus Lambert shading; no contract of its own. AmbientTerm and LocalColorNonNegative state its properties. |
| Shading.Shade | ThreadedRayTracer/multiprocessing_raytracer.py:41-88 | `shoot_ray` as a recursive function; no contract of its own. ShadeBlack, ReflectionStopsAtDefaultDepth, ShadeNonNegative and ShootRay state its properties. |
| Shading.LightingInDarkness | ThreadedRayTracer/multiprocessing_raytracer.py:73-82 | A light whose shadow ray hits something, or that has `normal . dir <= 0`, adds nothing. |
| Shading.LambertShading | ThreadedRayTracer/multiprocessing_raytracer.py:73-82 | The light loop adds, in list order, the Lambert term of every light that shines on the point. |
| Shading.LightingNonNegative | ThreadedRayTracer/multiprocessing_raytracer.py:73-82 | Lambert shading of non-negative colours with a non-negative coefficient stays non-negative. |
| Shading.LocalColorNonNegative | ThreadedRayTracer/multiprocessing_raytracer.py:59-82 | With non-negative material colours and coefficients, the colour before reflection is non-negative. |
| Shading.ShadeBlack | ThreadedRayTracer/multiprocessing_raytracer.py:48-55 | `shoot_ray` returns black at or beyond the maximum depth, and when no object has a positive distance. |
| Shading.ReflectionStopsAtDefaultDepth | ThreadedRayTracer/multiprocessing_raytracer.py:84-86 | Below the top level, the reflected ray is shaded with the default maximum `REFLECTION_DEPTH` = 2 and is black. A larger maximum given to the caller buys no second reflection. |
| Shading.ShadeNonNegative | ThreadedRayTracer/multiprocessing_raytracer.py:41-88 | In a scene of non-negative materials, every shaded colour is non-negative. |
| Shading.ShootRay | ThreadedRayTracer/multiprocessing_raytracer.py:41-88 | The method with its light loop and its recursion computes `Shade`. Termination follows from each recursive call going one level deeper with the default maximum. |
| Render.NewCamera | ThreadedRayTracer/multiprocessing_raytracer.py:108-146 | The camera is `None` exactly when the height is at most 1 or the width is 1. A zero height is where `compute_pixel_size` raises `ZeroDivisionError`; a width or height of 1 is where it divides by zero in numpy. Otherwise the camera keeps the eye and the image size. |
| Render.NewCameraOrthonormal | ThreadedRayTracer/multiprocessing_raytracer.py:122-124 | Unless the camera looks along its up vector, `f`, `s` and `u` are unit vectors and pairwise orthogonal. |
| Render.CameraFrameOrthogonal | ThreadedRayTracer/multiprocessing_raytracer.py:122-124 | The camera's `f`, `s` and `u` are pairwise orthogonal. |
| Render.AxisOffsets | ThreadedRayTracer/multiprocessing_raytracer.py:145-151 | Along an axis of `n` pixels, offsets `k` steps from either end are opposite, and the last offset is the half extent. |
| Render.OffsetsSymmetric | ThreadedRayTracer/multiprocessing_raytracer.py:137-152 | `build_ray`'s offsets run from `-half_width` at column 0 to `half_width` at the last column, symmetric about the centre. Rows behave the same way. |
| Render.BuildRay | ThreadedRayTracer/multiprocessing_raytracer.py:148-152 | Every pixel ray starts at the eye. In an orthonormal camera frame its direction is a unit vector pointing forward, and its components along `s` and `u` are the pixel's offsets `x * pixel_width - half_width` and `y * pixel_height - half_height` times its forward component. |
| Render.RayThroughFrame | ThreadedRayTracer/multiprocessing_raytracer.py:150-152 | Normalising `f + X s + Y u` in an orthonormal frame gives a unit direction through the image-plane point `(X, Y)`, the property `build_ray` relies on. |
| Render.PixelCoords | ThreadedRayTracer/multiprocessing_raytracer.py:31-34 | For `0 <= pixel < width*height`, `render` gets `0 <= x < width`, `0 <= y < height` and `pixel == y*width + x`. |
| Render.FloorQuotient | ThreadedRayTracer/multiprocessing_raytracer.py:34 | `int(pixel / width)` on non-negative numbers is the integer quotient. |
| Render.RenderPixel | ThreadedRayTracer/multiprocessing_raytracer.py:31-39 | `render` shades the camera ray through the pixel's coordinates. |
| Render.RenderPixels | ThreadedRayTracer/multiprocessing_raytracer.py:361 | The map over `range(width*height)` gives one colour per pixel, in index order. |
| Render.ImageIndex | ThreadedRayTracer/multiprocessing_raytracer.py:364-371 | The index of the colour the assembly loop writes at image position `(i, j)` is in range. |
| Render.ImageIndexCoords | ThreadedRayTracer/multiprocessing_raytracer.py:364-371 | Image position `(i, j)` receives the colour rendered for camera pixel `(i, height-1-j)`. |
| Render.ImageIndexOnto | ThreadedRayTracer/multiprocessing_raytracer.py:364-371 | Every colour index is written somewhere, at `(k mod width, height-1-k div width)`. |
| Render.ImageIndexInjective | ThreadedRayTracer/multiprocessing_raytracer.py:364-371 | No two image positions receive the same colour index. With the previous row, every position is written exactly once. |
| Render.NextRow | ThreadedRayTracer/multiprocessing_raytracer.py:368-371 | After the last column of a row, the next colour goes to column 0 of the row below. |
| Render.AssembleImage | ThreadedRayTracer/multiprocessing_raytracer.py:364-371 | The loop stepping `x` and `y` writes colour `ImageIndex(i, j)` at every position `(i, j)` of a fresh image. |
| Render.RenderImage | ThreadedRayTracer/multiprocessing_raytracer.py:359-371 | Each position `(i, j)` of the final image shows the colour of camera pixel `(i, height-1-j)`. |
| LineClipping.NormalizeClipRegion | LineClipping/lineClipping.py:27-31 | The result is `[[min x, max y], [max x, min y]]`. It is normalised and contains exactly the points of the rectangle the two corners span. |
| LineClipping.NormalizeClipRegionCanonical | LineClipping/lineClipping.py:27-31 | The order of the corners does not matter, and normalising twice gives the same result as normalising once. |
| LineClipping.RegionCode | LineClipping/lineClipping.py:24 | The code is 0 exactly for points inside the closed rectangle. For a normalised rectangle it never has both horizontal bits or both vertical bits set. |
| LineClipping.RegionCodeBits | LineClipping/lineClipping.py:24 | Each of the four bits is set exactly when the point is beyond its side: 1 left, 2 right, 4 above the top, 8 below the bottom. |
| LineClipping.Point.constructor | LineClipping/lineClipping.py:21-24 | A new point stores its coordinates and their region code. |
| LineClipping.LineCase | LineClipping/lineClipping.py:72-88 | The result is -1 exactly when the codes share a bit, and 0 exactly when both codes are 0. Otherwise it is the bitwise OR of the codes, which lies in 1..15. |
| LineClipping.TrivialAccept | LineClipping/lineClipping.py:72-88 | Line case 0: every point of the segment is inside the rectangle. |
| LineClipping.TrivialReject | LineClipping/lineClipping.py:72-88 | Line case -1: no point of the segment is inside the rectangle. |
| LineClipping.ClipToBoundary | LineClipping/lineClipping.py:127-141 | The clipped endpoint is a point of the line through the original, never-updated endpoints `(x1, y1)` and `(x2, y2)`. |
| LineClipping.VerticalCrossing | LineClipping/lineClipping.py:127-133 | Clipping against a vertical side gives the point of the line with that `x`. |
| LineClipping.HorizontalCrossing | LineClipping/lineClipping.py:135-141 | Clipping against a horizontal side gives the point of the line with that `y`. |
| LineClipping.CrossingPoint | LineClipping/lineClipping.py:127-141 | The interpolation formulas hit the chosen boundary coordinate exactly. |
| LineClipping.InsideBetween | LineClipping/lineClipping.py:114-116 | Between two points inside the rectangle, the whole segment is inside. This is the accept exit of the loop. |
| LineClipping.OutsideBetween | LineClipping/lineClipping.py:117-118 | Between two points beyond the same side, the whole segment is outside. This is the reject exit of the loop. |
| LineClipping.CodeOfPointBetween | LineClipping/lineClipping.py:143 | A point between two points of the segment has no code bit that both of them lack. |
| LineClipping.ClipStep | LineClipping/lineClipping.py:117-149 | One clipping step. Its division is by a non-zero difference. The new endpoint moves toward the other endpoint. Every point it skips is outside the rectangle. The two codes together lose a side, which is why the loop ends. |
| LineClipping.ClipDropsSide | LineClipping/lineClipping.py:143-149 | The recomputed code gains no side and loses the side that was clipped against. |
| LineClipping.CalcNewLine | LineClipping/lineClipping.py:91-153 | The loop terminates. It returns `[]` exactly when no point of the segment is inside the rectangle. Otherwise it returns two endpoints with code 0 on the segment, and these are its first and last visible points. The input points are not modified. |
| LineClipping.LinePairs | LineClipping/lineClipping.py:52 | Lines are points (3,4), (5,6), and so on. There are `(len-2) div 2` of them, and an unpaired last point forms no line. |
| LineClipping.Evens | LineClipping/lineClipping.py:52 | `points[0::2]`: half the length rounded up, with the even-indexed elements in order. |
| LineClipping.Odds | LineClipping/lineClipping.py:52 | `points[1::2]`: half the length rounded down, with the odd-indexed elements in order. |
| LineClipping.Zip | LineClipping/lineClipping.py:52 | `zip` pairs elements up to the shorter length. |
| BSpline.CalcKnotVector | bspline/bsplineViewer.py:298-306 | The result is `None` exactly when `len(cp) - 1 < degree`. Otherwise it is a knot vector of length `len(cp) + degree`, with `kv[i] == clamp(i - degree + 1, 0, len(cp) - degree + 1)`. |
| BSpline.KnotVectorShape | bspline/bsplineViewer.py:303-306 | The knot vector is non-decreasing. It starts with `degree` zeros and ends with `degree` copies of its maximum `len(cp) - degree + 1`. Consecutive knots differ by 0 or 1. |
| BSpline.KnotMax | bspline/bsplineViewer.py:251 | `max(knotvector)` is `len(kv) - 2*degree + 1`. |
| BSpline.Max | bspline/bsplineViewer.py:251 | `max`: an element of the list that is no smaller than any element. |
| BSpline.FindSpan | bspline/bsplineViewer.py:255-261 | The span search always sets `r`. At `t == max` it is `len(kv) - degree - 1`. Below the maximum it is the first `j` with `kv[j] <= t < kv[j+1]`. In both cases `degree - 1 <= r <= len(kv) - degree - 1`. |
| BSpline.KnotSpan | bspline/bsplineViewer.py:255-261 | The closed form of the span search: `top + degree - 2` at the top knot, `floor(t) + degree - 1` below it; no contract of its own. FindSpan, SpanIsFirst and SpanBounds state that it is the index the loop finds. |
| BSpline.SpanIsFirst | bspline/bsplineViewer.py:255-261 | No index before `floor(t) + degree - 1` satisfies `kv[j] <= t < kv[j+1]`. |
| BSpline.SpanBounds | bspline/bsplineViewer.py:255-263 | The span index stays in `degree-1 .. len(cp)-1`, so `deboor` indexes the control points and knots in bounds. |
| BSpline.Alpha | bspline/bsplineViewer.py:279-282 | `alpha` is 0 on a zero knot span and 0 at the span's left knot, and 1 at its right knot when the span is non-empty. For `t` inside the span, `alpha` lies in `[0, 1]`. |
| BSpline.DeBoor | bspline/bsplineViewer.py:275-285 | `deboor`'s recursion; no contract of its own. DeBoorConstant, DeBoorWithin, DeBoorAtLeft and DeBoorAtRight state its properties. |
| BSpline.DeBoorConstant | bspline/bsplineViewer.py:275-285 | If the control points that a call reaches all equal `P`, `deboor` returns `P`. |
| BSpline.DeBoorWithin | bspline/bsplineViewer.py:275-285 | With sorted knots and `t` inside the span, `deboor` stays in every axis-aligned box that holds the control points it reaches. |
| BSpline.DeBoorAtLeft | bspline/bsplineViewer.py:275-285 | When the knots at the left of the reached range equal `t`, `deboor` returns the leftmost control point `cp[i-j]`. |
| BSpline.DeBoorAtRight | bspline/bsplineViewer.py:275-285 | When the knots at the right of the reached range equal `t`, `deboor` returns `cp[i]`. |
| BSpline.Reduce | bspline/bsplineViewer.py:291-293 | The reduced list has exactly one point fewer. Each point is the `(1-t, t)` combination of two neighbours. |
| BSpline.Casteljau | bspline/bsplineViewer.py:288-295 | The loop and the recursion compute the Bézier point of the list. |
| BSpline.BezierPoint | bspline/bsplineViewer.py:288-295 | de Casteljau's recursion as a function; no contract of its own. Casteljau, BezierAtZero, BezierAtOne, BezierConstant and BezierWithin state its properties. |
| BSpline.BezierAtZero | bspline/bsplineViewer.py:288-295 | At `t = 0` the result is the first point. |
| BSpline.BezierAtOne | bspline/bsplineViewer.py:288-295 | At `t = 1` the result is the last point. |
| BSpline.BezierConstant | bspline/bsplineViewer.py:288-295 | If all points equal `P`, the result is `P` for every `t`. |
| BSpline.BezierWithin | bspline/bsplineViewer.py:288-295 | For `0 <= t <= 1`, the result lies in every axis-aligned box that holds the points. |
| BSpline.Parameter | bspline/bsplineViewer.py:251 | `t = max * (i / m)` lies in `[0, max]`. It is 0 for the first sample and `max` for the last. |
| BSpline.SplineEndpoints | bspline/bsplineViewer.py:250-263 | The clamped spline starts at the first control point and ends at the last one. |
| BSpline.SplineWithin | bspline/bsplineViewer.py:250-263 | Every spline point lies in every axis-aligned box that holds the control points. |
| BSpline.SplineSampleEnds | bspline/bsplineViewer.py:250-264 | The first de Boor sample is the first control point, and the last sample is the last control point. |
| BSpline.BezierSampleEnds | bspline/bsplineViewer.py:267-270 | The first Bézier sample is the first control point, and the last sample is the last control point. |
| BSpline.SplineStep | bspline/bsplineViewer.py:251-264 | One de Boor sample: the parameter, the span search and `deboor` give the spline point at that parameter. |
| BSpline.SampleSpline | bspline/bsplineViewer.py:247-264 | De Boor mode raises on `m == 0`. Otherwise it produces `m + 1` samples, or none when `m < 0`, in order. |
| BSpline.SampleBezier | bspline/bsplineViewer.py:266-270 | Bézier mode raises on `n == 0`. Otherwise it produces `n + 1` samples, or none when `n < 0`, in order. |
| BSpline.DrawCurve | bspline/bsplineViewer.py:242-272 | `draw_curve` raises exactly when the chosen mode divides by zero. De Boor mode gives `m + 1` points when a knot vector exists and none otherwise. Bézier mode gives `n + 1` points when there are at least two control points and none otherwise. A non-empty curve runs from the first control point to the last. |
| PointCloud.ToPoints | OGLViewer/oglViewer.py:159 | One homogeneous point `(x, y, z, 1)` per row, in order. |
| PointCloud.ColumnMin | OGLViewer/oglViewer.py:167 | `min` over a column is at most every entry and equal to one of them. |
| PointCloud.ColumnMax | OGLViewer/oglViewer.py:167 | `max` over a column is at least every entry and equal to one of them. |
| PointCloud.BoundingBox | OGLViewer/oglViewer.py:165-168 | The box fails with `IndexError` exactly when the data is empty or a row has fewer than three numbers. Otherwise `min <= max` on each axis, every row lies in the box, and each face is attained by some row. |
| PointCloud.Origin | OGLViewer/oglViewer.py:173-177 | The origin is equidistant from the two faces on each axis. |
| PointCloud.OriginInside | OGLViewer/oglViewer.py:173-177 | The origin of a well-formed box lies inside it. |
| PointCloud.LargestExtent | OGLViewer/oglViewer.py:183-187 | The largest extent is at least each `abs(extent)` and equal to one of them. |
| PointCloud.ScaleFactor | OGLViewer/oglViewer.py:187 | There is no finite scale exactly when the largest extent is 0. Otherwise `scale > 0` and `scale * largest extent == 2`. |
| PointCloud.FitsUnitCube | OGLViewer/oglViewer.py:58-60 | A row inside the box, translated by `-obj_origin` and scaled by `scale` as the display does, lands in `[-1, 1]` on each axis. |
| PointCloud.CloudFitsUnitCube | OGLViewer/oglViewer.py:58-60 | Every row of the data lands in `[-1, 1]^3` once its bounding box and scale exist. |
| PointCloud.ToPointsAppend | OGLViewer/oglViewer.py:156-159 | Appending rows appends their points. |
| PointCloud.FirstShortRow | OGLViewer/oglViewer.py:157-159 | The index of the first row with fewer than three entries, on which the point construction at line 159 raises `IndexError`, or the number of rows if none does. The rows before it all have three coordinates. |
| PointCloud.PointViewer.constructor | OGLViewer/oglViewer.py:12-17 | The module's initial state: empty lists, no box, no origin and scale 0. |
| PointCloud.PointViewer.ComputeBoundingBox | OGLViewer/oglViewer.py:165-177 | On well-formed data, stores the bounding box and its midpoint. On failure it reports `IndexError` and leaves both unchanged. Nothing else changes. |
| PointCloud.PointViewer.ComputeScale | OGLViewer/oglViewer.py:180-187 | With a box and a non-zero extent, stores `2 / largest extent`. With no box it raises `IndexError`. With a zero extent it reports the infinite scale. In both failure cases the scale is unchanged. |
| PointCloud.PointViewer.AppendRows | OGLViewer/oglViewer.py:156-159 | Each row appends one entry to `model_data` and one point to `points`, in lockstep. A short row is appended to `model_data` before the point construction at line 159 raises `IndexError` for it, so `points` is one shorter. |
| PointCloud.PointViewer.ImportData | OGLViewer/oglViewer.py:154-161 | Appends the rows, then computes the box, the origin and the scale, and reports the first error. A short row or an empty cloud (`IndexError`) leaves the box, the origin and the scale as they were; a zero extent (`InfiniteScale`) leaves the scale as it was. The viewer's lists stay in lockstep exactly when every row has three coordinates. |

## Left out

- The `multiprocessing.Pool.map` over the pixels is concurrency. `RenderPixels` renders the pixels sequentially, and the map returns its results in index order anyway.
- PIL is left out: image creation, `show`, and the `int()` conversion of colour channels in `putpixel`. The image is an `array2` of colours, and `int()` truncation and channel clamping are not modelled. Timing and `print` are also left out.
- Floating point is left out. All arithmetic is exact `real` arithmetic, so rounding, `inf` and `NaN` are not modelled.
- `np.sqrt`, `np.linalg.norm` and `np.tan` are function parameters. Lemmas assume only what `IsSqrt` states about the square root; nothing is assumed about `tan`.
- Vectors.Normalize: returns the zero vector for a zero norm. numpy divides by zero there and yields `NaN`s.
- Render.NewCamera: returns `None` for a width or height of 1. There the source does not raise: numpy stores an infinite or NaN pixel size and the camera is built. Exact reals have no infinity, so the model has no camera there. Only a zero height raises `ZeroDivisionError` in the source.
- Render.NewCameraOrthonormal: does not cover a camera looking along its up vector. There `cross(f, up)` is zero and numpy normalises it to NaN.
- Render.NewCamera: takes the image size as parameters. The source reads it from the global `scene` and registers itself in `scene.camera`; `Scene.render` also reads the global `camera`, which here is a parameter of `RenderPixel`.
- `Scene.__init__` and the construction of the example scene in the main block are plain data. `Scene` is a datatype.
- The Tk canvas, its buttons and mouse handling are UI. This includes `drawPoints`, `drawBox`, the drawing in `drawLines`, `mouseEvent` appending to `pointList`, and `quit`. Only the pairing of points into lines (`LinePairs`) is modelled.
- LineClipping.NormalizeClipRegion: takes the two corners separately. The source takes a list, but `mouseEvent` always passes exactly two corners.
- The `line_case` argument of `calcNewLine` is unused in the source and also unused in `CalcNewLine`.
- The glfw window, keyboard and mouse handlers, the render loop and the `print_*` helpers are UI. Of them, only the guard `degree > 2` before a decrement (line 178) is kept, as the precondition `2 <= degree`.
- BSpline.DrawCurve: returns the list of curve points. The source assigns the global `bspline_points` instead, and raises `ZeroDivisionError` where the result is `Err`. `mode` is a `bool`.
- BSpline.SplineStep, BSpline.SampleSpline and BSpline.SampleBezier: split the body of `draw_curve` into one method per sample and one per mode. The order of computation is that of the source.
- OpenGL and GLUT are left out: `init`, VBOs, `display`, `reshape`, the input callbacks and `main`. The effect of the display's scale and translation on the points is stated by `FitsUnitCube`.
- File reading and float parsing in `import_data` are I/O. The model receives the rows already parsed into numbers, and the final `print("test")` is dropped.
- PointCloud.PointViewer.ComputeScale: for a zero largest extent it reports `InfiniteScale` and keeps the old scale. numpy instead stores `inf` in `scale` with a warning.
- PointCloud.PointViewer.ComputeBoundingBox: on rows of different lengths, looks only at the first three columns. These are the only columns the source reads from `zip`, so the result is the same.
