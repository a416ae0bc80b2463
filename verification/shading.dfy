/**
 * The scene logic of the ray tracer: the first-hit scan over the object
 * list (`check_intersection`) and the bounded recursive shading of a ray
 * (`shoot_ray`), each as a specification function and as the loop-based
 * method proved equal to it.
 */
module Shading {
  import opened Wrappers
  import opened Vectors
  import opened Geometry

  /** The default and maximum reflection depth. */
  const REFLECTION_DEPTH: nat := 2

  /** How far a hit point is pushed off the surface along its normal. */
  const EPSILON: real := 0.00001

  /** The objects and the point lights of a scene (the image is produced separately). */
  datatype Scene = Scene(width: nat, height: nat, objects: seq<Shape>, lights: seq<Vec3>)

  /** An object together with the ray distance at which it was hit. */
  datatype Hit = Hit(obj: Shape, dist: real)

  /** The distance of a hit that counts: present and strictly positive. */
  function PositiveHit(shape: Shape, ray: Ray, sqrt: real -> real): (d: Option<real>)
    ensures d.Some? <==> IntersectionParameter(shape, ray, sqrt).Some? && IntersectionParameter(shape, ray, sqrt).value > 0.0
    ensures d.Some? ==> d == IntersectionParameter(shape, ray, sqrt)
  {
    match IntersectionParameter(shape, ray, sqrt)
    case Some(dist) => if dist > 0.0 then Some(dist) else None
    case None => None
  }

  // ---------------------------------------------------------- first hit

  /**
   * `check_intersection` as a function: the scan keeps the first object in
   * list order with a positive distance and ignores every later one.
   */
  function FirstHit(objects: seq<Shape>, ray: Ray, sqrt: real -> real): (h: Option<Hit>)
    decreases |objects|
    ensures h.Some? ==> h.value.dist > 0.0 && h.value.obj in objects
  {
    if |objects| == 0 then None
    else
      var previous := FirstHit(objects[..|objects| - 1], ray, sqrt);
      if previous.Some? then previous
      else
        var last := objects[|objects| - 1];
        match PositiveHit(last, ray, sqrt)
        case Some(dist) => Some(Hit(last, dist))
        case None => None
  }

  /**
   * The scan reports nothing exactly when no object has a positive
   * distance; otherwise it reports some object `i` with its distance, and
   * no object before `i` has a positive distance.
   */
  lemma {:induction false} FirstHitIsFirst(objects: seq<Shape>, ray: Ray, sqrt: real -> real)
    ensures FirstHit(objects, ray, sqrt).None? <==> forall i :: 0 <= i < |objects| ==> PositiveHit(objects[i], ray, sqrt).None?
    ensures FirstHit(objects, ray, sqrt).Some? ==>
              exists i :: 0 <= i < |objects|
                && objects[i] == FirstHit(objects, ray, sqrt).value.obj
                && PositiveHit(objects[i], ray, sqrt) == Some(FirstHit(objects, ray, sqrt).value.dist)
                && forall j :: 0 <= j < i ==> PositiveHit(objects[j], ray, sqrt).None?
    decreases |objects|
  {
    if |objects| > 0 {
      var init := objects[..|objects| - 1];
      FirstHitIsFirst(init, ray, sqrt);
      assert forall i :: 0 <= i < |init| ==> init[i] == objects[i];
      var h := FirstHit(objects, ray, sqrt);
      if FirstHit(init, ray, sqrt).Some? {
        var i :| 0 <= i < |init| && init[i] == h.value.obj && PositiveHit(init[i], ray, sqrt) == Some(h.value.dist)
                 && forall j :: 0 <= j < i ==> PositiveHit(init[j], ray, sqrt).None?;
        assert objects[i] == init[i];
      } else if h.Some? {
        assert PositiveHit(objects[|objects| - 1], ray, sqrt) == Some(h.value.dist);
      }
    }
  }

  /**
   * The first hit is not the nearest one: with two planes facing the ray,
   * the farther one listed first is reported.
   */
  lemma FirstHitNotNearest(sqrt: real -> real)
    ensures var ray := Ray(Zero, Vec3(0.0, 0.0, 1.0));
            var far := Plane(Vec3(0.0, 0.0, 5.0), Vec3(0.0, 0.0, 1.0), CheckedMaterial());
            var near := Plane(Vec3(0.0, 0.0, 2.0), Vec3(0.0, 0.0, 1.0), CheckedMaterial());
            && FirstHit([far, near], ray, sqrt) == Some(Hit(far, 5.0))
            && PositiveHit(near, ray, sqrt) == Some(2.0)
  {
    var ray := Ray(Zero, Vec3(0.0, 0.0, 1.0));
    var far := Plane(Vec3(0.0, 0.0, 5.0), Vec3(0.0, 0.0, 1.0), CheckedMaterial());
    var near := Plane(Vec3(0.0, 0.0, 2.0), Vec3(0.0, 0.0, 1.0), CheckedMaterial());
    assert [far, near][..1] == [far];
    assert [far][..0] == [];
  }

  /** `check_intersection`: scan the object list and keep the first positive hit. */
  method CheckIntersection(objects: seq<Shape>, ray: Ray, sqrt: real -> real) returns (intersection: Option<Hit>)
    ensures intersection == FirstHit(objects, ray, sqrt)
  {
    intersection := None;
    for i := 0 to |objects|
      invariant intersection == FirstHit(objects[..i], ray, sqrt)
    {
      assert objects[..i + 1][..i] == objects[..i];
      var hitDist := IntersectionParameter(objects[i], ray, sqrt);
      if hitDist.Some? && hitDist.value > 0.0 && intersection.None? {
        intersection := Some(Hit(objects[i], hitDist.value));
      }
    }
    assert objects[..|objects|] == objects;
  }

  // ------------------------------------------------------------ shading

  /**
   * The ambient term: the material colour times the ambient coefficient at
   * depth 0; at greater depths the source multiplies it into the still
   * black colour, so it contributes nothing.
   */
  function AmbientTerm(materialColor: Vec3, ambient: real, depth: nat): (c: Vec3)
    ensures depth == 0 ==> c == Scale(materialColor, ambient)
    ensures depth > 0 ==> c == Zero
  {
    if depth == 0 then Add(Zero, Scale(materialColor, ambient))
    else Mul(Scale(materialColor, ambient), Zero)
  }

  /** The unit direction from a hit point towards a light. */
  function ToLight(light: Vec3, point: Vec3, sqrt: real -> real): Vec3 {
    Normalize(Sub(light, point), sqrt)
  }

  /** A light shines on the point when its shadow ray hits nothing and it faces the surface. */
  predicate Illuminates(scene: Scene, light: Vec3, point: Vec3, normal: Vec3, sqrt: real -> real) {
    var dir := ToLight(light, point, sqrt);
    FirstHit(scene.objects, MakeRay(point, dir, sqrt), sqrt).None? && Dot(normal, dir) > 0.0
  }

  /**
   * The colour after the lights in `lights` have been visited, in order,
   * starting from `base`: each light that shines on the point adds the
   * Lambert term `materialColor * lambert * (normal . dir)`.
   */
  function Lighting(scene: Scene, lights: seq<Vec3>, base: Vec3, point: Vec3, normal: Vec3,
                    materialColor: Vec3, lambert: real, sqrt: real -> real): Vec3
    decreases |lights|
  {
    if |lights| == 0 then base
    else
      var color := Lighting(scene, lights[..|lights| - 1], base, point, normal, materialColor, lambert, sqrt);
      var light := lights[|lights| - 1];
      if Illuminates(scene, light, point, normal, sqrt) then
        Add(color, Scale(Scale(materialColor, lambert), Dot(normal, ToLight(light, point, sqrt))))
      else color
  }

  /** A light whose shadow ray is blocked, or that is behind the surface, adds nothing. */
  lemma {:induction false} LightingInDarkness(scene: Scene, lights: seq<Vec3>, base: Vec3, point: Vec3, normal: Vec3,
                                              materialColor: Vec3, lambert: real, sqrt: real -> real)
    requires forall l :: l in lights ==> !Illuminates(scene, l, point, normal, sqrt)
    ensures Lighting(scene, lights, base, point, normal, materialColor, lambert, sqrt) == base
    decreases |lights|
  {
    if |lights| > 0 {
      assert lights[|lights| - 1] in lights;
      LightingInDarkness(scene, lights[..|lights| - 1], base, point, normal, materialColor, lambert, sqrt);
    }
  }

  /** The point a hit is shaded at: the hit point pushed `EPSILON` along the normal. */
  function ShadedPoint(ray: Ray, hit: Hit, sqrt: real -> real): Vec3 {
    var p := PointAt(ray, hit.dist);
    Add(p, Scale(NormalAt(hit.obj, p, sqrt), EPSILON))
  }

  /** The colour at a hit without its reflection: ambient plus the Lambert terms. */
  function LocalColor(scene: Scene, ray: Ray, hit: Hit, depth: nat, sqrt: real -> real): Vec3 {
    var normal := NormalAt(hit.obj, PointAt(ray, hit.dist), sqrt);
    var point := ShadedPoint(ray, hit, sqrt);
    var m := hit.obj.material;
    var materialColor := ColorAt(m, point);
    Lighting(scene, scene.lights, AmbientTerm(materialColor, m.ambient, depth), point, normal, materialColor, m.lambert, sqrt)
  }

  /** The mirror ray leaving the shaded point. */
  function ReflectedRay(ray: Ray, hit: Hit, sqrt: real -> real): Ray {
    var normal := NormalAt(hit.obj, PointAt(ray, hit.dist), sqrt);
    MakeRay(ShadedPoint(ray, hit, sqrt), Normalize(Reflect(ray.direction, normal, sqrt), sqrt), sqrt)
  }

  /**
   * `shoot_ray`: black once the depth reaches the maximum or when nothing
   * is hit; otherwise the local colour plus the specular share of the
   * reflected ray's colour. The reflected ray is shaded one level deeper
   * with the default maximum `REFLECTION_DEPTH`, whatever maximum this call
   * was given, which is why the recursion always ends.
   */
  function Shade(scene: Scene, ray: Ray, depth: nat, maxDepth: nat, sqrt: real -> real): Vec3
    decreases if maxDepth == REFLECTION_DEPTH then 0 else 1, REFLECTION_DEPTH - depth
  {
    if depth >= maxDepth then Zero
    else
      match FirstHit(scene.objects, ray, sqrt)
      case None => Zero
      case Some(hit) =>
        var reflected := Shade(scene, ReflectedRay(ray, hit, sqrt), depth + 1, REFLECTION_DEPTH, sqrt);
        Add(LocalColor(scene, ray, hit, depth, sqrt), Scale(reflected, hit.obj.material.specular))
  }

  /** A ray at or beyond the maximum depth, or one that hits nothing, is black. */
  lemma ShadeBlack(scene: Scene, ray: Ray, depth: nat, maxDepth: nat, sqrt: real -> real)
    requires depth >= maxDepth || forall o :: o in scene.objects ==> PositiveHit(o, ray, sqrt).None?
    ensures Shade(scene, ray, depth, maxDepth, sqrt) == Zero
  {
    if depth < maxDepth {
      FirstHitIsFirst(scene.objects, ray, sqrt);
    }
  }

  /**
   * Below the top level, the reflected ray is already at the default
   * maximum depth, so a larger maximum passed to the top-level call buys no
   * second reflection: the colour is the local colour alone.
   */
  lemma ReflectionStopsAtDefaultDepth(scene: Scene, ray: Ray, depth: nat, maxDepth: nat, sqrt: real -> real)
    requires 1 <= depth < maxDepth
    requires FirstHit(scene.objects, ray, sqrt).Some?
    ensures Shade(scene, ray, depth, maxDepth, sqrt)
            == Add(LocalColor(scene, ray, FirstHit(scene.objects, ray, sqrt).value, depth, sqrt),
                   Scale(Zero, FirstHit(scene.objects, ray, sqrt).value.obj.material.specular))
  {
  }

  // ----------------------------------------------------- colour positivity

  predicate NonNegative(v: Vec3) { 0.0 <= v.x && 0.0 <= v.y && 0.0 <= v.z }

  /** Colours and coefficients of a material are all non-negative. */
  predicate MaterialNonNegative(m: Material) {
    && 0.0 <= m.ambient && 0.0 <= m.specular && 0.0 <= m.lambert
    && match m
       case Plain(color, _, _, _) => NonNegative(color)
       case Checked(base, other, _, _, _, _) => NonNegative(base) && NonNegative(other)
  }

  lemma ScaleNonNegative(v: Vec3, k: real)
    requires NonNegative(v) && 0.0 <= k
    ensures NonNegative(Scale(v, k))
  {
    NonNegativeProduct(v.x, k);
    NonNegativeProduct(v.y, k);
    NonNegativeProduct(v.z, k);
  }

  lemma {:induction false} LightingNonNegative(scene: Scene, lights: seq<Vec3>, base: Vec3, point: Vec3, normal: Vec3,
                                               materialColor: Vec3, lambert: real, sqrt: real -> real)
    requires NonNegative(base) && NonNegative(materialColor) && 0.0 <= lambert
    ensures NonNegative(Lighting(scene, lights, base, point, normal, materialColor, lambert, sqrt))
    decreases |lights|
  {
    if |lights| > 0 {
      var light := lights[|lights| - 1];
      LightingNonNegative(scene, lights[..|lights| - 1], base, point, normal, materialColor, lambert, sqrt);
      ScaleNonNegative(materialColor, lambert);
      if Illuminates(scene, light, point, normal, sqrt) {
        ScaleNonNegative(Scale(materialColor, lambert), Dot(normal, ToLight(light, point, sqrt)));
      }
    }
  }

  lemma LocalColorNonNegative(scene: Scene, ray: Ray, hit: Hit, depth: nat, sqrt: real -> real)
    requires MaterialNonNegative(hit.obj.material)
    ensures NonNegative(LocalColor(scene, ray, hit, depth, sqrt))
  {
    var m := hit.obj.material;
    var point := ShadedPoint(ray, hit, sqrt);
    var materialColor := ColorAt(m, point);
    assert NonNegative(materialColor);
    ScaleNonNegative(materialColor, m.ambient);
    LightingNonNegative(scene, scene.lights, AmbientTerm(materialColor, m.ambient, depth), point,
                        NormalAt(hit.obj, PointAt(ray, hit.dist), sqrt), materialColor, m.lambert, sqrt);
  }

  /** With non-negative materials every shaded colour is non-negative. */
  lemma {:induction false} ShadeNonNegative(scene: Scene, ray: Ray, depth: nat, maxDepth: nat, sqrt: real -> real)
    requires forall o :: o in scene.objects ==> MaterialNonNegative(o.material)
    ensures NonNegative(Shade(scene, ray, depth, maxDepth, sqrt))
    decreases if maxDepth == REFLECTION_DEPTH then 0 else 1, REFLECTION_DEPTH - depth
  {
    if depth < maxDepth && FirstHit(scene.objects, ray, sqrt).Some? {
      var hit := FirstHit(scene.objects, ray, sqrt).value;
      var reflected := Shade(scene, ReflectedRay(ray, hit, sqrt), depth + 1, REFLECTION_DEPTH, sqrt);
      assert Shade(scene, ray, depth, maxDepth, sqrt)
             == Add(LocalColor(scene, ray, hit, depth, sqrt), Scale(reflected, hit.obj.material.specular));
      LocalColorNonNegative(scene, ray, hit, depth, sqrt);
      ShadeNonNegative(scene, ReflectedRay(ray, hit, sqrt), depth + 1, REFLECTION_DEPTH, sqrt);
      ScaleNonNegative(reflected, hit.obj.material.specular);
    }
  }

  // ------------------------------------------------------------- shoot_ray

  /** The light loop of `shoot_ray`: visit each light in order and add its Lambert term when it shines on the point. */
  method LambertShading(scene: Scene, base: Vec3, point: Vec3, normal: Vec3, materialColor: Vec3, lambert: real,
                        sqrt: real -> real) returns (color: Vec3)
    ensures color == Lighting(scene, scene.lights, base, point, normal, materialColor, lambert, sqrt)
  {
    color := base;
    for i := 0 to |scene.lights|
      invariant color == Lighting(scene, scene.lights[..i], base, point, normal, materialColor, lambert, sqrt)
    {
      assert scene.lights[..i + 1][..i] == scene.lights[..i];
      var light := scene.lights[i];
      var toLight := Normalize(Sub(light, point), sqrt);
      var shadowRay := MakeRay(point, toLight, sqrt);
      var blocker := CheckIntersection(scene.objects, shadowRay, sqrt);
      if blocker.None? {
        var intensity := Dot(normal, toLight);
        if intensity > 0.0 {
          color := Add(color, Scale(Scale(materialColor, lambert), intensity));
        }
      }
    }
    assert scene.lights[..|scene.lights|] == scene.lights;
  }

  /** `shoot_ray`: ambient term, the light loop, then one recursive call for the reflection. */
  method ShootRay(scene: Scene, ray: Ray, depth: nat, maxDepth: nat, sqrt: real -> real) returns (color: Vec3)
    ensures color == Shade(scene, ray, depth, maxDepth, sqrt)
    decreases if maxDepth == REFLECTION_DEPTH then 0 else 1, REFLECTION_DEPTH - depth
  {
    color := Zero;
    if depth >= maxDepth {
      return;
    }
    var intersection := CheckIntersection(scene.objects, ray, sqrt);
    if intersection.None? {
      return;
    }
    var hit := intersection.value;
    var obj, hitDist := hit.obj, hit.dist;
    var intersectionPoint := PointAt(ray, hitDist);
    var normal := NormalAt(obj, intersectionPoint, sqrt);
    intersectionPoint := Add(intersectionPoint, Scale(normal, EPSILON));
    assert intersectionPoint == ShadedPoint(ray, hit, sqrt);
    var materialColor := ColorAt(obj.material, intersectionPoint);
    // ambient lighting
    if depth == 0 {
      color := Add(color, Scale(materialColor, obj.material.ambient));
    } else if depth > 0 {
      color := Mul(Scale(materialColor, obj.material.ambient), color);
    }
    assert color == AmbientTerm(materialColor, obj.material.ambient, depth);
    // Lambert shading
    color := LambertShading(scene, color, intersectionPoint, normal, materialColor, obj.material.lambert, sqrt);
    assert color == LocalColor(scene, ray, hit, depth, sqrt);
    // reflection
    var reflectedRay := MakeRay(intersectionPoint, Normalize(Reflect(ray.direction, normal, sqrt), sqrt), sqrt);
    assert reflectedRay == ReflectedRay(ray, hit, sqrt);
    var reflectedColor := ShootRay(scene, reflectedRay, depth + 1, REFLECTION_DEPTH, sqrt);
    color := Add(color, Scale(reflectedColor, obj.material.specular));
  }
}
