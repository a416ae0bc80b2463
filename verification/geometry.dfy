/**
 * Rays, materials and the three kinds of scene object of the ray tracer,
 * with their intersection tests, their surface normals and the mirror
 * reflection of a direction.
 */
module Geometry {
  import opened Wrappers
  import opened Vectors

  /** A half line; the direction is normalised by `MakeRay`. */
  datatype Ray = Ray(origin: Vec3, direction: Vec3)

  /** The `Ray` constructor: it stores the normalised direction. */
  function MakeRay(origin: Vec3, direction: Vec3, sqrt: real -> real): (r: Ray)
    ensures r.origin == origin
    ensures IsSqrt(sqrt) && direction != Zero ==> IsUnit(r.direction)
    ensures IsSqrt(sqrt) ==> Normalize(r.direction, sqrt) == r.direction
  {
    NormalizeIdempotent(direction, sqrt);
    Ray(origin, Normalize(direction, sqrt))
  }

  /** `point_at_parameter`: the point `dist` along the ray. */
  function PointAt(ray: Ray, dist: real): (p: Vec3)
    ensures IsUnit(ray.direction) ==> Dot(Sub(p, ray.origin), ray.direction) == dist
    ensures Sub(p, ray.origin) == Scale(ray.direction, dist)
  {
    DotScale(ray.direction, ray.direction, dist);
    Add(ray.origin, Scale(ray.direction, dist))
  }

  /** Squared distance between two points. */
  function DistSq(a: Vec3, b: Vec3): real {
    Dot(Sub(a, b), Sub(a, b))
  }

  // ---------------------------------------------------------------- materials

  /**
   * A plain material has one colour everywhere; the checked material
   * alternates between two colours on unit cells.
   */
  datatype Material =
    | Plain(color: Vec3, ambient: real, specular: real, lambert: real)
    | Checked(baseColor: Vec3, otherColor: Vec3, ambient: real, specular: real, lambert: real, checkSize: real)

  /** `Material(color)` with its default coefficients. */
  function PlainMaterial(color: Vec3): (m: Material)
    ensures m.Plain? && m.color == color
    ensures m.ambient == 0.2 && m.specular == 0.5 && m.lambert == 0.8
  {
    Plain(color, 0.2, 0.5, 0.8)
  }

  /** `CheckedMaterial()` with its default coefficients and colours. */
  function CheckedMaterial(): (m: Material)
    ensures m.Checked? && m.baseColor == Vec3(200.0, 200.0, 200.0) && m.otherColor == Zero
    ensures m.ambient == 0.5 && m.specular == 0.0 && m.lambert == 0.8 && m.checkSize == 1.0
  {
    Checked(Vec3(200.0, 200.0, 200.0), Zero, 0.5, 0.0, 0.8, 1.0)
  }

  function Abs(r: real): real { if r < 0.0 then -r else r }

  /** numpy's `astype(int)`: truncation toward zero. */
  function Trunc(r: real): (i: int)
    ensures Abs(r - i as real) < 1.0
    ensures 0.0 <= r ==> 0 <= i && i as real <= r
    ensures r <= 0.0 ==> i <= 0 && r <= i as real
  {
    if r >= 0.0 then r.Floor else -((-r).Floor)
  }

  /** The sum of the truncated `|p| + 0.5` components, whose parity picks the colour. */
  function CheckerIndex(p: Vec3): int {
    Trunc(Abs(p.x) + 0.5) + Trunc(Abs(p.y) + 0.5) + Trunc(Abs(p.z) + 0.5)
  }

  /**
   * `color_at`. The checked material scales nothing: the source computes
   * `p * (1.0 / check_size)` and discards the product, so `checkSize` is
   * never used.
   */
  function ColorAt(m: Material, p: Vec3): (c: Vec3)
    ensures m.Plain? ==> c == m.color
    ensures m.Checked? ==> c == m.baseColor || c == m.otherColor
  {
    match m
    case Plain(color, _, _, _) => color
    case Checked(base, other, _, _, _, _) =>
      if CheckerIndex(p) % 2 != 0 then other else base
  }

  /**
   * Points with integer coordinates take the other colour exactly when the
   * sum of the coordinates' magnitudes is odd; the pattern is symmetric in
   * each axis, and it does not depend on the cell size.
   */
  lemma CheckerAtLatticePoints(m: Material, i: int, j: int, k: int)
    requires m.Checked?
    ensures var n := (if i < 0 then -i else i) + (if j < 0 then -j else j) + (if k < 0 then -k else k);
            ColorAt(m, Vec3(i as real, j as real, k as real)) == if n % 2 != 0 then m.otherColor else m.baseColor
    ensures ColorAt(m, Vec3(i as real, j as real, k as real)) == ColorAt(m.(checkSize := 2.0), Vec3(i as real, j as real, k as real))
  {
    LatticeTrunc(i);
    LatticeTrunc(j);
    LatticeTrunc(k);
  }

  /**
   * Anywhere in space, the checker colour is unchanged by flipping the sign
   * of any coordinate and by any cell size.
   */
  lemma CheckerSymmetric(m: Material, p: Vec3, size: real)
    requires m.Checked?
    ensures ColorAt(m, Vec3(-p.x, p.y, p.z)) == ColorAt(m, p)
    ensures ColorAt(m, Vec3(p.x, -p.y, p.z)) == ColorAt(m, p)
    ensures ColorAt(m, Vec3(p.x, p.y, -p.z)) == ColorAt(m, p)
    ensures ColorAt(m.(checkSize := size), p) == ColorAt(m, p)
  {
  }

  lemma LatticeTrunc(i: int)
    ensures Trunc(Abs(i as real) + 0.5) == if i < 0 then -i else i
  {
  }

  /**
   * On the non-negative side of an axis, moving one unit along it always
   * switches to the other colour of the checker.
   */
  lemma CheckerAlternates(m: Material, p: Vec3)
    requires m.Checked? && m.baseColor != m.otherColor
    requires 0.0 <= p.x
    ensures ColorAt(m, Vec3(p.x + 1.0, p.y, p.z)) != ColorAt(m, p)
    ensures ColorAt(m, Vec3(-p.x, p.y, p.z)) == ColorAt(m, p)
  {
    var q := Vec3(p.x + 1.0, p.y, p.z);
    assert Trunc(Abs(q.x) + 0.5) == Trunc(Abs(p.x) + 0.5) + 1;
    assert CheckerIndex(q) == CheckerIndex(p) + 1;
  }

  // ------------------------------------------------------------------ shapes

  datatype Shape =
    | Sphere(center: Vec3, radius: real, material: Material)
    | Plane(point: Vec3, normal: Vec3, material: Material)
    | Triangle(a: Vec3, b: Vec3, c: Vec3, material: Material)

  /** The triangle's edge from `a` to `b`. */
  function EdgeU(t: Shape): Vec3
    requires t.Triangle?
  {
    Sub(t.b, t.a)
  }

  /** The triangle's edge from `a` to `c`. */
  function EdgeV(t: Shape): Vec3
    requires t.Triangle?
  {
    Sub(t.c, t.a)
  }

  /** `intersection_parameter`: the ray distance of a hit, or None. */
  function IntersectionParameter(shape: Shape, ray: Ray, sqrt: real -> real): Option<real> {
    match shape
    case Sphere(center, radius, _) => SphereIntersection(center, radius, ray, sqrt)
    case Plane(point, normal, _) => PlaneIntersection(point, normal, ray)
    case Triangle(_, _, _, _) => TriangleIntersection(shape, ray)
  }

  /** Ray parameter of the point closest to the centre (for a unit direction). */
  function SphereMidpoint(center: Vec3, ray: Ray): real {
    Dot(Sub(center, ray.origin), ray.direction)
  }

  /** Discriminant of the ray/sphere quadratic. */
  function SphereDiscriminant(center: Vec3, radius: real, ray: Ray): real {
    var co := Sub(center, ray.origin);
    var v := SphereMidpoint(center, ray);
    v * v - Dot(co, co) + radius * radius
  }

  /** Closer root of the ray/sphere quadratic, when it has a root. */
  function SphereIntersection(center: Vec3, radius: real, ray: Ray, sqrt: real -> real): (d: Option<real>)
    ensures d.None? <==> SphereDiscriminant(center, radius, ray) < 0.0
    ensures IsSqrt(sqrt) && d.Some? ==> d.value <= SphereMidpoint(center, ray)
  {
    var discriminant := SphereDiscriminant(center, radius, ray);
    if discriminant < 0.0 then None else Some(SphereMidpoint(center, ray) - sqrt(discriminant))
  }

  /** Distance at which the ray meets the plane, None when it runs parallel. */
  function PlaneIntersection(point: Vec3, normal: Vec3, ray: Ray): (d: Option<real>)
    ensures d.None? <==> Dot(ray.direction, normal) == 0.0
  {
    var a := Dot(Sub(ray.origin, point), normal);
    var b := Dot(ray.direction, normal);
    if b != 0.0 then Some(-a / b) else None
  }

  /** Determinant of the Moller-Trumbore system: zero when the ray is parallel to the triangle. */
  function TriangleDet(t: Shape, ray: Ray): real
    requires t.Triangle?
  {
    Dot(Cross(ray.direction, EdgeV(t)), EdgeU(t))
  }

  /** Moller-Trumbore: the hit distance when the hit lies inside the triangle. */
  function TriangleIntersection(t: Shape, ray: Ray): (d: Option<real>)
    requires t.Triangle?
    ensures TriangleDet(t, ray) == 0.0 ==> d.None?
  {
    var w := Sub(ray.origin, t.a);
    var dv := Cross(ray.direction, EdgeV(t));
    var dvu := Dot(dv, EdgeU(t));
    if dvu == 0.0 then None
    else
      var wu := Cross(w, EdgeU(t));
      var r := Dot(dv, w) / dvu;
      var s := Dot(wu, ray.direction) / dvu;
      if 0.0 <= r <= 1.0 && 0.0 <= s <= 1.0 && r + s <= 1.0 then Some(Dot(wu, EdgeV(t)) / dvu) else None
  }

  // ------------------------------------------------------------ sphere facts

  /**
   * Squared distance from the centre to the point `s` along a unit ray,
   * written around the ray parameter `v` closest to the centre.
   */
  lemma SphereDistance(center: Vec3, ray: Ray, s: real)
    requires IsUnit(ray.direction)
    ensures DistSq(PointAt(ray, s), center)
            == (s - SphereMidpoint(center, ray)) * (s - SphereMidpoint(center, ray))
               + Dot(Sub(center, ray.origin), Sub(center, ray.origin))
               - SphereMidpoint(center, ray) * SphereMidpoint(center, ray)
  {
    var co := Sub(center, ray.origin);
    var d := ray.direction;
    var v := Dot(co, d);
    var e := Sub(PointAt(ray, s), center);
    assert e == Sub(Scale(d, s), co);
    assert Dot(e, e) == (d.x * s - co.x) * (d.x * s - co.x) + (d.y * s - co.y) * (d.y * s - co.y) + (d.z * s - co.z) * (d.z * s - co.z);
    assert v == co.x * d.x + co.y * d.y + co.z * d.z;
    assert Dot(co, co) == co.x * co.x + co.y * co.y + co.z * co.z;
    ExpandDistance(d.x, d.y, d.z, co.x, co.y, co.z, s);
  }

  lemma ExpandDistance(dx: real, dy: real, dz: real, cx: real, cy: real, cz: real, s: real)
    requires dx * dx + dy * dy + dz * dz == 1.0
    ensures var v := cx * dx + cy * dy + cz * dz;
            (dx * s - cx) * (dx * s - cx) + (dy * s - cy) * (dy * s - cy) + (dz * s - cz) * (dz * s - cz)
            == (s - v) * (s - v) + (cx * cx + cy * cy + cz * cz) - v * v
  {
    var v := cx * dx + cy * dy + cz * dz;
    assert (dx * s - cx) * (dx * s - cx) + (dy * s - cy) * (dy * s - cy) + (dz * s - cz) * (dz * s - cz)
      == s * s * (dx * dx + dy * dy + dz * dz) - 2.0 * s * v + (cx * cx + cy * cy + cz * cz);
  }

  /** What a reported sphere hit is made of: the midpoint minus the root of the discriminant. */
  lemma SphereRoot(center: Vec3, radius: real, ray: Ray, sqrt: real -> real)
    requires IsSqrt(sqrt)
    requires SphereIntersection(center, radius, ray, sqrt).Some?
    ensures 0.0 <= SphereDiscriminant(center, radius, ray)
    ensures 0.0 <= sqrt(SphereDiscriminant(center, radius, ray))
    ensures sqrt(SphereDiscriminant(center, radius, ray)) * sqrt(SphereDiscriminant(center, radius, ray))
            == SphereDiscriminant(center, radius, ray)
    ensures SphereIntersection(center, radius, ray, sqrt).value
            == SphereMidpoint(center, ray) - sqrt(SphereDiscriminant(center, radius, ray))
  {
  }

  /** A reported sphere hit lies on the sphere's surface. */
  lemma SphereHitOnSurface(center: Vec3, radius: real, ray: Ray, sqrt: real -> real)
    requires IsSqrt(sqrt) && IsUnit(ray.direction)
    requires SphereIntersection(center, radius, ray, sqrt).Some?
    ensures DistSq(PointAt(ray, SphereIntersection(center, radius, ray, sqrt).value), center) == radius * radius
  {
    SphereRoot(center, radius, ray, sqrt);
    SurfacePoint(center, radius, ray, sqrt(SphereDiscriminant(center, radius, ray)),
                 SphereIntersection(center, radius, ray, sqrt).value);
  }

  /** The point `q` before the midpoint, where `q` is a root of the discriminant, is on the sphere. */
  lemma SurfacePoint(center: Vec3, radius: real, ray: Ray, q: real, t: real)
    requires IsUnit(ray.direction)
    requires q * q == SphereDiscriminant(center, radius, ray) && t == SphereMidpoint(center, ray) - q
    ensures DistSq(PointAt(ray, t), center) == radius * radius
  {
    SphereDistance(center, ray, t);
    RootOnSurface(t, SphereMidpoint(center, ray), q, SphereDiscriminant(center, radius, ray),
                  Dot(Sub(center, ray.origin), Sub(center, ray.origin)), radius * radius,
                  DistSq(PointAt(ray, t), center));
  }

  /** `v - q` solves `(s - v)^2 = q^2`. */
  lemma RootOnSurface(t: real, v: real, q: real, disc: real, cc: real, rr: real, dist2: real)
    requires q * q == disc && disc == v * v - cc + rr && t == v - q
    requires dist2 == (t - v) * (t - v) + cc - v * v
    ensures dist2 == rr
  {
    assert (t - v) * (t - v) == q * q;
  }

  /** The reported hit is the nearer of the two surface points along the ray. */
  lemma SphereHitNearest(center: Vec3, radius: real, ray: Ray, sqrt: real -> real, s: real)
    requires IsSqrt(sqrt) && IsUnit(ray.direction)
    requires SphereIntersection(center, radius, ray, sqrt).Some?
    requires DistSq(PointAt(ray, s), center) == radius * radius
    ensures SphereIntersection(center, radius, ray, sqrt).value <= s
  {
    SphereRoot(center, radius, ray, sqrt);
    NearerPoint(center, radius, ray, sqrt(SphereDiscriminant(center, radius, ray)),
                SphereIntersection(center, radius, ray, sqrt).value, s);
  }

  /** No point of the sphere lies on the ray before the smaller root `t`. */
  lemma NearerPoint(center: Vec3, radius: real, ray: Ray, q: real, t: real, s: real)
    requires IsUnit(ray.direction)
    requires 0.0 <= q && q * q == SphereDiscriminant(center, radius, ray) && t == SphereMidpoint(center, ray) - q
    requires DistSq(PointAt(ray, s), center) == radius * radius
    ensures t <= s
  {
    SphereDistance(center, ray, s);
    NearerRoot(s, t, SphereMidpoint(center, ray), q, SphereDiscriminant(center, radius, ray),
               Dot(Sub(center, ray.origin), Sub(center, ray.origin)), radius * radius,
               DistSq(PointAt(ray, s), center));
  }

  /** Both roots of `(s - v)^2 = q^2` lie at or beyond `v - q`. */
  lemma NearerRoot(s: real, hit: real, v: real, q: real, disc: real, cc: real, rr: real, dist2: real)
    requires hit == v - q && 0.0 <= q && q * q == disc && disc == v * v - cc + rr
    requires dist2 == (s - v) * (s - v) + cc - v * v && dist2 == rr
    ensures hit <= s
  {
    assert (s - v) * (s - v) == q * q;
    RootBounds(s - v, q);
  }

  /** When no hit is reported, no point of the ray's line touches the sphere. */
  lemma SphereMiss(center: Vec3, radius: real, ray: Ray, sqrt: real -> real, s: real)
    requires IsUnit(ray.direction)
    requires SphereIntersection(center, radius, ray, sqrt).None?
    ensures DistSq(PointAt(ray, s), center) > radius * radius
  {
    SphereDistance(center, ray, s);
    Square(s - SphereMidpoint(center, ray));
  }

  /**
   * A ray that starts inside the sphere gets a negative distance, so the
   * scene's intersection test never reports the sphere it starts in.
   */
  lemma SphereFromInside(center: Vec3, radius: real, ray: Ray, sqrt: real -> real)
    requires IsSqrt(sqrt)
    requires DistSq(ray.origin, center) < radius * radius
    ensures SphereIntersection(center, radius, ray, sqrt).Some?
    ensures SphereIntersection(center, radius, ray, sqrt).value < 0.0
  {
    var co := Sub(center, ray.origin);
    var v := SphereMidpoint(center, ray);
    assert Dot(co, co) == DistSq(ray.origin, center);
    Square(v);
    var q := sqrt(SphereDiscriminant(center, radius, ray));
    assert q * q > v * v;
    if v >= q {
      SquareIncreasing(q, v);
    }
  }

  // ------------------------------------------------------------- plane facts

  /** A reported plane hit lies on the plane. */
  lemma PlaneHitOnPlane(point: Vec3, normal: Vec3, ray: Ray)
    requires PlaneIntersection(point, normal, ray).Some?
    ensures Dot(Sub(PointAt(ray, PlaneIntersection(point, normal, ray).value), point), normal) == 0.0
  {
    PlaneOffset(point, normal, ray, PlaneIntersection(point, normal, ray).value);
    CancelledOffset(Dot(Sub(PointAt(ray, PlaneIntersection(point, normal, ray).value), point), normal),
                    Dot(Sub(ray.origin, point), normal), Dot(ray.direction, normal),
                    PlaneIntersection(point, normal, ray).value);
  }

  /** The offset from the plane changes linearly along the ray. */
  lemma PlaneOffset(point: Vec3, normal: Vec3, ray: Ray, s: real)
    ensures Dot(Sub(PointAt(ray, s), point), normal) == Dot(Sub(ray.origin, point), normal) + s * Dot(ray.direction, normal)
  {
    assert Sub(PointAt(ray, s), point) == Add(Sub(ray.origin, point), Scale(ray.direction, s));
    DotAdd(Sub(ray.origin, point), Scale(ray.direction, s), normal);
    DotScale(ray.direction, normal, s);
  }

  lemma CancelledOffset(x: real, a: real, b: real, t: real)
    requires b != 0.0 && t == -a / b && x == a + t * b
    ensures x == 0.0
  {
  }

  /** When no hit is reported, the ray keeps a constant offset from the plane. */
  lemma PlaneMiss(point: Vec3, normal: Vec3, ray: Ray, s: real)
    requires PlaneIntersection(point, normal, ray).None?
    ensures Dot(Sub(PointAt(ray, s), point), normal) == Dot(Sub(ray.origin, point), normal)
  {
    PlaneOffset(point, normal, ray, s);
  }

  // ---------------------------------------------------------- triangle facts

  /**
   * One coordinate of Cramer's rule, over the components of `d x v` (`c`)
   * and `w x u` (`e`) and the four triple products built from them.
   */
  lemma CramerComponent(wx: real, wy: real, wz: real, dx: real, dy: real, dz: real,
                        ux: real, uy: real, uz: real, vx: real, vy: real, vz: real,
                        cx: real, cy: real, cz: real, ex: real, ey: real, ez: real,
                        det: real, r: real, s: real, t: real)
    requires cx == dy * vz - dz * vy && cy == dz * vx - dx * vz && cz == dx * vy - dy * vx
    requires ex == wy * uz - wz * uy && ey == wz * ux - wx * uz && ez == wx * uy - wy * ux
    requires det == cx * ux + cy * uy + cz * uz
    requires r == cx * wx + cy * wy + cz * wz
    requires s == ex * dx + ey * dy + ez * dz
    requires t == ex * vx + ey * vy + ez * vz
    ensures wx * det + dx * t == ux * r + vx * s
  {
  }

  /** Cramer's rule for `w + t d = r u + s v`, multiplied through by the determinant: the x coordinate. */
  lemma CramerX(w: Vec3, d: Vec3, u: Vec3, v: Vec3)
    ensures w.x * Dot(Cross(d, v), u) + d.x * Dot(Cross(w, u), v) == u.x * Dot(Cross(d, v), w) + v.x * Dot(Cross(w, u), d)
  {
    CramerComponent(w.x, w.y, w.z, d.x, d.y, d.z, u.x, u.y, u.z, v.x, v.y, v.z,
                    Cross(d, v).x, Cross(d, v).y, Cross(d, v).z, Cross(w, u).x, Cross(w, u).y, Cross(w, u).z,
                    Dot(Cross(d, v), u), Dot(Cross(d, v), w), Dot(Cross(w, u), d), Dot(Cross(w, u), v));
  }

  /** The y coordinate of Cramer's rule. */
  lemma CramerY(w: Vec3, d: Vec3, u: Vec3, v: Vec3)
    ensures w.y * Dot(Cross(d, v), u) + d.y * Dot(Cross(w, u), v) == u.y * Dot(Cross(d, v), w) + v.y * Dot(Cross(w, u), d)
  {
    CramerComponent(w.y, w.z, w.x, d.y, d.z, d.x, u.y, u.z, u.x, v.y, v.z, v.x,
                    Cross(d, v).y, Cross(d, v).z, Cross(d, v).x, Cross(w, u).y, Cross(w, u).z, Cross(w, u).x,
                    Dot(Cross(d, v), u), Dot(Cross(d, v), w), Dot(Cross(w, u), d), Dot(Cross(w, u), v));
  }

  /** The z coordinate of Cramer's rule. */
  lemma CramerZ(w: Vec3, d: Vec3, u: Vec3, v: Vec3)
    ensures w.z * Dot(Cross(d, v), u) + d.z * Dot(Cross(w, u), v) == u.z * Dot(Cross(d, v), w) + v.z * Dot(Cross(w, u), d)
  {
    CramerComponent(w.z, w.x, w.y, d.z, d.x, d.y, u.z, u.x, u.y, v.z, v.x, v.y,
                    Cross(d, v).z, Cross(d, v).x, Cross(d, v).y, Cross(w, u).z, Cross(w, u).x, Cross(w, u).y,
                    Dot(Cross(d, v), u), Dot(Cross(d, v), w), Dot(Cross(w, u), d), Dot(Cross(w, u), v));
  }

  /** With a non-zero determinant, Cramer's rule solves `w + t d = r u + s v`. */
  lemma CramerSolution(w: Vec3, d: Vec3, u: Vec3, v: Vec3)
    requires Dot(Cross(d, v), u) != 0.0
    ensures Add(w, Scale(d, Dot(Cross(w, u), v) / Dot(Cross(d, v), u)))
            == Add(Scale(u, Dot(Cross(d, v), w) / Dot(Cross(d, v), u)), Scale(v, Dot(Cross(w, u), d) / Dot(Cross(d, v), u)))
  {
    CramerX(w, d, u, v);
    CramerY(w, d, u, v);
    CramerZ(w, d, u, v);
    ScaledSolution(w.x, d.x, u.x, v.x, Dot(Cross(d, v), u), Dot(Cross(d, v), w), Dot(Cross(w, u), d), Dot(Cross(w, u), v));
    ScaledSolution(w.y, d.y, u.y, v.y, Dot(Cross(d, v), u), Dot(Cross(d, v), w), Dot(Cross(w, u), d), Dot(Cross(w, u), v));
    ScaledSolution(w.z, d.z, u.z, v.z, Dot(Cross(d, v), u), Dot(Cross(d, v), w), Dot(Cross(w, u), d), Dot(Cross(w, u), v));
  }

  /**
   * A reported triangle hit is the point `a + r u + s v` of the triangle,
   * with barycentric weights `r, s >= 0` and `r + s <= 1`.
   */
  lemma TriangleHitInside(t: Shape, ray: Ray)
    requires t.Triangle? && TriangleIntersection(t, ray).Some?
    ensures exists r: real, s: real ::
              && 0.0 <= r && 0.0 <= s && r + s <= 1.0
              && PointAt(ray, TriangleIntersection(t, ray).value) == Add(t.a, Add(Scale(EdgeU(t), r), Scale(EdgeV(t), s)))
  {
    CramerSolution(Sub(ray.origin, t.a), ray.direction, EdgeU(t), EdgeV(t));
    ShiftedSolution(t.a, ray.origin, Scale(ray.direction, TriangleIntersection(t, ray).value),
                    Add(Scale(EdgeU(t), Dot(Cross(ray.direction, EdgeV(t)), Sub(ray.origin, t.a)) / TriangleDet(t, ray)),
                        Scale(EdgeV(t), Dot(Cross(Sub(ray.origin, t.a), EdgeU(t)), ray.direction) / TriangleDet(t, ray))));
  }

  /** Moving the origin of `w` back to `a`. */
  lemma ShiftedSolution(a: Vec3, o: Vec3, e: Vec3, y: Vec3)
    requires Add(Sub(o, a), e) == y
    ensures Add(o, e) == Add(a, y)
  {
  }

  lemma ScaledSolution(w: real, d: real, u: real, v: real, det: real, rn: real, sn: real, tn: real)
    requires det != 0.0
    requires w * det + d * tn == u * rn + v * sn
    ensures w + d * (tn / det) == u * (rn / det) + v * (sn / det)
  {
    var k := 1.0 / det;
    assert (w * det + d * tn) * k == (u * rn + v * sn) * k;
    assert det * k == 1.0;
  }

  /** `w` as the combination the vector equation of a hit gives. */
  lemma SolutionComponents(w: Vec3, d: Vec3, u: Vec3, v: Vec3, r: real, s: real, t: real)
    requires Add(w, Scale(d, t)) == Add(Scale(u, r), Scale(v, s))
    ensures w == Sub(Add(Scale(u, r), Scale(v, s)), Scale(d, t))
  {
    var lhs, rhs := Add(w, Scale(d, t)), Add(Scale(u, r), Scale(v, s));
    assert lhs.x == rhs.x && lhs.y == rhs.y && lhs.z == rhs.z;
    assert lhs.x == w.x + d.x * t && rhs.x == u.x * r + v.x * s;
    assert lhs.y == w.y + d.y * t && rhs.y == u.y * r + v.y * s;
    assert lhs.z == w.z + d.z * t && rhs.z == u.z * r + v.z * s;
  }

  /** The first coefficient of a solution, recovered with the normal of `d` and `v`. */
  lemma SolutionR(w: Vec3, d: Vec3, u: Vec3, v: Vec3, r: real, s: real, t: real)
    requires w == Sub(Add(Scale(u, r), Scale(v, s)), Scale(d, t))
    ensures Dot(Cross(d, v), w) == r * Dot(Cross(d, v), u)
  {
    var c1 := Cross(d, v);
    CrossOrthogonal(d, v);
    DotSub(Add(Scale(u, r), Scale(v, s)), Scale(d, t), c1);
    DotAdd(Scale(u, r), Scale(v, s), c1);
    DotScale(c1, u, r);
    DotScaleZero(v, c1, s);
    DotScaleZero(d, c1, t);
  }

  /** Crossing a solution with `u` leaves only the `v` and `d` terms. */
  lemma SolutionCross(w: Vec3, d: Vec3, u: Vec3, v: Vec3, r: real, s: real, t: real)
    requires w == Sub(Add(Scale(u, r), Scale(v, s)), Scale(d, t))
    ensures Cross(w, u) == Sub(Scale(Cross(v, u), s), Scale(Cross(d, u), t))
  {
    CrossSub(Add(Scale(u, r), Scale(v, s)), Scale(d, t), u);
    CrossAdd(Scale(u, r), Scale(v, s), u);
    CrossScale(u, u, r);
    CrossScale(v, u, s);
    CrossScale(d, u, t);
    CrossSelf(u);
    assert Scale(Zero, r) == Zero;
  }

  /** The second coefficient of a solution crossed with `u`, scaled by the determinant. */
  lemma SolutionS(cw: Vec3, d: Vec3, u: Vec3, v: Vec3, s: real, t: real)
    requires cw == Sub(Scale(Cross(v, u), s), Scale(Cross(d, u), t))
    ensures Dot(cw, d) == s * Dot(Cross(d, v), u)
  {
    CrossOrthogonal(d, u);
    DotSub(Scale(Cross(v, u), s), Scale(Cross(d, u), t), d);
    DotScale(Cross(v, u), d, s);
    DotScaleZero(Cross(d, u), d, t);
    TripleCyclic(v, u, d);
    Rescaled(Dot(cw, d), s, Dot(Cross(v, u), d), Dot(Cross(d, v), u));
  }

  lemma Rescaled(x: real, k: real, p: real, q: real)
    requires x == k * p && p == q
    ensures x == k * q
  {
  }

  /** The distance of a solution crossed with `u`, scaled by the determinant. */
  lemma SolutionT(cw: Vec3, d: Vec3, u: Vec3, v: Vec3, s: real, t: real)
    requires cw == Sub(Scale(Cross(v, u), s), Scale(Cross(d, u), t))
    ensures Dot(cw, v) == t * Dot(Cross(d, v), u)
  {
    CrossOrthogonal(v, u);
    DotSub(Scale(Cross(v, u), s), Scale(Cross(d, u), t), v);
    DotScaleZero(Cross(v, u), v, s);
    DotScale(Cross(d, u), v, t);
    TripleCyclic(d, u, v);
    CrossSwap(d, v);
    DotScale(Cross(d, v), u, -1.0);
    Negated(Dot(cw, v), t, Dot(Cross(d, u), v), Dot(Cross(d, v), u));
  }

  lemma Negated(x: real, k: real, p: real, q: real)
    requires x == 0.0 - k * p && p == -1.0 * q
    ensures x == k * q
  {
  }

  /**
   * Conversely, when the ray is not parallel to the triangle and passes
   * through a point `a + r u + s v` of it at distance `dist`, that
   * distance is reported.
   */
  lemma TriangleHitComplete(t: Shape, ray: Ray, dist: real, r: real, s: real)
    requires t.Triangle? && TriangleDet(t, ray) != 0.0
    requires 0.0 <= r && 0.0 <= s && r + s <= 1.0
    requires PointAt(ray, dist) == Add(t.a, Add(Scale(EdgeU(t), r), Scale(EdgeV(t), s)))
    ensures TriangleIntersection(t, ray) == Some(dist)
  {
    var w := Sub(ray.origin, t.a);
    var d, u, v := ray.direction, EdgeU(t), EdgeV(t);
    var det := Dot(Cross(d, v), u);
    assert Add(w, Scale(d, dist)) == Add(Scale(u, r), Scale(v, s));
    SolutionComponents(w, d, u, v, r, s, dist);
    SolutionR(w, d, u, v, r, s, dist);
    SolutionCross(w, d, u, v, r, s, dist);
    SolutionS(Cross(w, u), d, u, v, s, dist);
    SolutionT(Cross(w, u), d, u, v, s, dist);
    Quotient(Dot(Cross(d, v), w), r, det);
    Quotient(Dot(Cross(w, u), d), s, det);
    Quotient(Dot(Cross(w, u), v), dist, det);
  }

  lemma Quotient(n: real, q: real, det: real)
    requires det != 0.0 && n == q * det
    ensures n / det == q
  {
  }

  // ----------------------------------------------------------------- normals

  /** `normal_at`: the outward normal of a sphere, the stored plane normal, the triangle's fixed normal. */
  function NormalAt(shape: Shape, p: Vec3, sqrt: real -> real): (n: Vec3)
    ensures IsSqrt(sqrt) && shape.Sphere? && p != shape.center ==> IsUnit(n) && Dot(n, Sub(p, shape.center)) > 0.0
    ensures shape.Plane? ==> n == shape.normal
    ensures shape.Triangle? ==> Dot(n, EdgeU(shape)) == 0.0 && Dot(n, EdgeV(shape)) == 0.0
    ensures IsSqrt(sqrt) && shape.Triangle? && Cross(EdgeU(shape), EdgeV(shape)) != Zero ==>
              IsUnit(n) && Dot(n, Cross(EdgeU(shape), EdgeV(shape))) < 0.0
  {
    match shape
    case Sphere(center, _, _) => OutwardNormal(p, center, sqrt)
    case Plane(_, normal, _) => normal
    case Triangle(_, _, _, _) => FlippedNormal(EdgeU(shape), EdgeV(shape), sqrt)
  }

  /** The sphere's normal at `p`: away from the centre, a unit vector pointing outwards. */
  function OutwardNormal(p: Vec3, center: Vec3, sqrt: real -> real): (n: Vec3)
    ensures IsSqrt(sqrt) && p != center ==> IsUnit(n) && Dot(n, Sub(p, center)) > 0.0
  {
    NormalizeAligned(Sub(p, center), sqrt);
    Normalize(Sub(p, center), sqrt)
  }

  /** The negated unit normal `-(u x v) / |u x v|`: orthogonal to both edges, pointing against `u x v`. */
  function FlippedNormal(u: Vec3, v: Vec3, sqrt: real -> real): (n: Vec3)
    ensures Dot(n, u) == 0.0 && Dot(n, v) == 0.0
    ensures IsSqrt(sqrt) && Cross(u, v) != Zero ==> IsUnit(n) && Dot(n, Cross(u, v)) < 0.0
  {
    var m := Normalize(Cross(u, v), sqrt);
    CrossOrthogonal(u, v);
    NormalizeOrthogonal(Cross(u, v), u, sqrt);
    NormalizeOrthogonal(Cross(u, v), v, sqrt);
    NormalizeAligned(Cross(u, v), sqrt);
    DotScale(m, u, -1.0);
    DotScale(m, v, -1.0);
    DotScale(m, Cross(u, v), -1.0);
    DotScale(m, Scale(m, -1.0), -1.0);
    DotScale(m, m, -1.0);
    Scale(m, -1.0)
  }

  /** Planes and triangles have the same normal at every point. */
  lemma NormalIndependentOfPoint(shape: Shape, p: Vec3, q: Vec3, sqrt: real -> real)
    requires !shape.Sphere?
    ensures NormalAt(shape, p, sqrt) == NormalAt(shape, q, sqrt)
  {
  }

  // -------------------------------------------------------------- reflection

  /** `reflection`: mirror `d` in the plane whose normal is `n`. */
  function Reflect(d: Vec3, n: Vec3, sqrt: real -> real): Vec3 {
    var m := Normalize(n, sqrt);
    Sub(d, Scale(m, 2.0 * Dot(d, m)))
  }

  /** Reflection reverses the component of `d` along the normal. */
  lemma ReflectNormal(d: Vec3, n: Vec3, sqrt: real -> real)
    requires IsSqrt(sqrt) && n != Zero
    ensures Dot(Reflect(d, n, sqrt), Normalize(n, sqrt)) == -Dot(d, Normalize(n, sqrt))
  {
    var m := Normalize(n, sqrt);
    var c := 2.0 * Dot(d, m);
    DotSub(d, Scale(m, c), m);
    DotScale(m, m, c);
    FlippedComponent(Dot(Reflect(d, n, sqrt), m), Dot(d, m), Dot(Scale(m, c), m), c, Dot(m, m));
  }

  lemma FlippedComponent(x: real, a: real, b: real, c: real, mm: real)
    requires x == a - b && b == c * mm && mm == 1.0 && c == 2.0 * a
    ensures x == -a
  {
  }

  /** Reflection keeps the length of `d`. */
  lemma ReflectLength(d: Vec3, n: Vec3, sqrt: real -> real)
    requires IsSqrt(sqrt) && n != Zero
    ensures Dot(Reflect(d, n, sqrt), Reflect(d, n, sqrt)) == Dot(d, d)
  {
    var m := Normalize(n, sqrt);
    var k := Dot(d, m);
    var c := 2.0 * k;
    var e := Scale(m, c);
    var r := Sub(d, e);
    DotSub(d, e, r);
    DotSub(d, e, d);
    DotSub(d, e, e);
    DotScale(d, m, c);
    DotScale(m, d, c);
    DotSymmetric(m, d);
    DotScale(m, e, c);
    DotScale(m, m, c);
    KeptLength(Dot(r, r), Dot(d, d), Dot(d, e), Dot(e, d), Dot(e, e), Dot(m, e), Dot(m, m), k, c);
  }

  lemma KeptLength(x: real, dd: real, de: real, ed: real, ee: real, me: real, mm: real, k: real, c: real)
    requires x == (dd - de) - (ed - ee)
    requires de == c * k && ed == c * k && ee == c * me && me == c * mm
    requires mm == 1.0 && c == 2.0 * k
    ensures x == dd
  {
  }

  /** Reflection keeps the components of `d` along the surface. */
  lemma ReflectTangent(d: Vec3, n: Vec3, sqrt: real -> real, tangent: Vec3)
    requires Dot(tangent, n) == 0.0
    ensures Dot(Reflect(d, n, sqrt), tangent) == Dot(d, tangent)
  {
    var m := Normalize(n, sqrt);
    DotSymmetric(tangent, n);
    NormalizeOrthogonal(n, tangent, sqrt);
    DotSub(d, Scale(m, 2.0 * Dot(d, m)), tangent);
    DotScaleZero(m, tangent, 2.0 * Dot(d, m));
  }

  /** Reflecting twice in the same surface gives back the original direction. */
  lemma ReflectInvolution(d: Vec3, n: Vec3, sqrt: real -> real)
    requires IsSqrt(sqrt) && n != Zero
    ensures Reflect(Reflect(d, n, sqrt), n, sqrt) == d
  {
    var m := Normalize(n, sqrt);
    var k := Dot(d, m);
    var r := Reflect(d, n, sqrt);
    ReflectNormal(d, n, sqrt);
    assert 2.0 * Dot(r, m) == -(2.0 * k);
    SubScaleCancel(d, m, 2.0 * k);
  }
}
