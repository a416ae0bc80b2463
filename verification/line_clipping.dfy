/**
 * Cohen–Sutherland line clipping: region codes of points against a clip
 * rectangle, the normalisation of the rectangle's two corners, the trivial
 * accept/reject classification of a line, the loop that clips a line's
 * endpoints to the rectangle, and the pairing of clicked points into lines.
 */
module LineClipping {
  import opened Vectors

  /** A point of the canvas, `[x, y]`. */
  datatype Coord = Coord(x: real, y: real)

  /**
   * A clip region as a two-element list of corners. After normalisation the
   * first corner is `[min x, max y]` and the second `[max x, min y]`.
   */
  datatype ClipRegion = ClipRegion(first: Coord, second: Coord)

  predicate Normalized(cr: ClipRegion) {
    cr.first.x <= cr.second.x && cr.second.y <= cr.first.y
  }

  /** The closed rectangle of a normalised region. */
  predicate Inside(p: Coord, cr: ClipRegion) {
    cr.first.x <= p.x <= cr.second.x && cr.second.y <= p.y <= cr.first.y
  }

  function Min(a: real, b: real): real { if a <= b then a else b }

  function Max(a: real, b: real): real { if a <= b then b else a }

  /**
   * `normalizeClipRegion` on the two corners of the rectangle: whatever the
   * order of the corners, the result is normalised and contains exactly the
   * points of the rectangle they span.
   */
  function NormalizeClipRegion(p: Coord, q: Coord): (cr: ClipRegion)
    ensures Normalized(cr)
    ensures forall z :: Inside(z, cr) <==>
              ((p.x <= z.x <= q.x || q.x <= z.x <= p.x) && (p.y <= z.y <= q.y || q.y <= z.y <= p.y))
  {
    var ll := Coord(Min(p.x, q.x), Min(p.y, q.y));
    var ur := Coord(Max(p.x, q.x), Max(p.y, q.y));
    ClipRegion(Coord(ll.x, ur.y), Coord(ur.x, ll.y))
  }

  /** The order of the corners does not matter, and normalising again changes nothing. */
  lemma NormalizeClipRegionCanonical(p: Coord, q: Coord)
    ensures NormalizeClipRegion(p, q) == NormalizeClipRegion(q, p)
    ensures var cr := NormalizeClipRegion(p, q);
            NormalizeClipRegion(cr.first, cr.second) == cr
  {
  }

  // --------------------------------------------------------- region codes

  /**
   * The region code of `Point.__init__`: 8 below the bottom edge, 4 above
   * the top edge, 2 right of the right edge, 1 left of the left edge.
   */
  function RegionCode(p: Coord, cr: ClipRegion): (code: bv4)
    ensures code == 0 <==> Inside(p, cr)
    ensures Normalized(cr) ==> code & 3 != 3 && code & 12 != 12
  {
    (if p.y < cr.second.y then 8 else 0) + (if p.y > cr.first.y then 4 else 0)
      + (if p.x > cr.second.x then 2 else 0) + (if p.x < cr.first.x then 1 else 0)
  }

  /** Each bit of the code records one side of the rectangle the point lies beyond. */
  lemma RegionCodeBits(p: Coord, cr: ClipRegion)
    ensures RegionCode(p, cr) & 1 != 0 <==> p.x < cr.first.x
    ensures RegionCode(p, cr) & 2 != 0 <==> p.x > cr.second.x
    ensures RegionCode(p, cr) & 4 != 0 <==> p.y > cr.first.y
    ensures RegionCode(p, cr) & 8 != 0 <==> p.y < cr.second.y
  {
  }

  /** A point with its region code; the clipping loop updates both in place. */
  class Point {
    var coords: Coord
    var reCode: bv4

    constructor(co: Coord, cr: ClipRegion)
      ensures coords == co && reCode == RegionCode(co, cr)
    {
      coords := co;
      reCode := RegionCode(co, cr);
    }
  }

  /**
   * `lineCase`: -1 when both codes share a side (the line is invisible),
   * otherwise the union of the codes (0 when the line is wholly inside).
   */
  function LineCase(p: Point, q: Point): (lc: int)
    reads p, q
    ensures lc == -1 <==> p.reCode & q.reCode != 0
    ensures lc == 0 <==> p.reCode == 0 && q.reCode == 0
    ensures lc != -1 ==> lc == (p.reCode | q.reCode) as int && 0 <= lc < 16
  {
    var union := p.reCode | q.reCode;
    var sect := p.reCode & q.reCode;
    if sect != 0 then -1 else union as int
  }

  // ------------------------------------------------------- the segment

  /** The affine interpolation `u + t (v - u)`. */
  function Lerp(u: real, v: real, t: real): real { u + t * (v - u) }

  /** The point at parameter `t` on the line through `a` (at 0) and `b` (at 1). */
  function At(a: Coord, b: Coord, t: real): Coord {
    Coord(Lerp(a.x, b.x, t), Lerp(a.y, b.y, t))
  }

  lemma SameSignProducts(x: real, y: real, d: real)
    requires 0.0 <= x && 0.0 <= y
    ensures (0.0 <= x * d && 0.0 <= y * d) || (x * d <= 0.0 && y * d <= 0.0)
  {
    if 0.0 <= d {
      NonNegativeProduct(x, d);
      NonNegativeProduct(y, d);
    } else {
      NonNegativeProduct(x, -d);
      NonNegativeProduct(y, -d);
      assert x * -d == -(x * d) && y * -d == -(y * d);
    }
  }

  /** An interpolated value at a parameter between two others lies between the values there. */
  lemma LerpBetween(u: real, v: real, s: real, e: real, t: real)
    requires s <= t <= e || e <= t <= s
    ensures Min(Lerp(u, v, s), Lerp(u, v, e)) <= Lerp(u, v, t) <= Max(Lerp(u, v, s), Lerp(u, v, e))
  {
    if s <= t <= e {
      LerpDifference(u, v, t, s);
      LerpDifference(u, v, e, t);
      SameSignProducts(t - s, e - t, v - u);
    } else {
      LerpDifference(u, v, s, t);
      LerpDifference(u, v, t, e);
      SameSignProducts(s - t, t - e, v - u);
    }
  }

  lemma LerpDifference(u: real, v: real, t: real, s: real)
    ensures Lerp(u, v, t) - Lerp(u, v, s) == (t - s) * (v - u)
  {
  }

  /** Between equal values the interpolation is constant. */
  lemma LerpFlat(u: real, t: real)
    ensures Lerp(u, u, t) == u
  {
    assert t * (u - u) == t * 0.0 == 0.0;
  }

  /** The parameter where the interpolation between `u` and `v` reaches `c`. */
  function CrossParameter(u: real, v: real, c: real): real
    requires u != v
  {
    (c - u) / (v - u)
  }

  /**
   * The interpolation formula of `calcNewLine`: the value between `w` and
   * `z` at the parameter where the interpolation between `u` and `v`
   * reaches `c`.
   */
  function CrossAt(u: real, v: real, w: real, z: real, c: real): real
    requires u != v
  {
    w + (z - w) * (c - u) / (v - u)
  }

  /** The distance from `c` of an interpolated value, measured from the parameter where it reaches `c`. */
  lemma LerpFromCrossing(u: real, v: real, c: real, t: real)
    requires u != v
    ensures Lerp(u, v, t) - c == (t - CrossParameter(u, v, c)) * (v - u)
  {
    var d := v - u;
    var tn := CrossParameter(u, v, c);
    assert tn * d == c - u;
    assert (t - tn) * d == t * d - tn * d;
  }

  lemma NegativeFactor(x: real, d: real)
    requires x * d < 0.0
    ensures (x < 0.0 && 0.0 < d) || (0.0 < x && d < 0.0)
  {
    if 0.0 <= x && 0.0 <= d {
      NonNegativeProduct(x, d);
    } else if x <= 0.0 && d <= 0.0 {
      NonNegativeProduct(-x, -d);
    }
  }

  /**
   * `tn` separates `s` (where `(s - tn) d` is negative) from `e` (where
   * `(e - tn) d` is not): it lies between them, strictly away from `s`.
   */
  lemma Separated(s: real, e: real, tn: real, d: real)
    requires (s - tn) * d < 0.0 <= (e - tn) * d
    ensures s != e
    ensures s < e ==> s < tn <= e
    ensures e < s ==> e <= tn < s
  {
    NegativeFactor(s - tn, d);
    if 0.0 < d {
      if e < tn {
        MulPositive(tn - e, d);
      }
    } else {
      if tn < e {
        MulPositive(e - tn, -d);
      }
    }
  }

  /** Every parameter from `s` up to (not including) `tn` is on the same side of `tn` as `s`. */
  lemma SameSide(s: real, tn: real, d: real, t: real)
    requires (s - tn) * d < 0.0
    requires s <= t < tn || tn < t <= s
    ensures (t - tn) * d < 0.0
  {
    NegativeFactor(s - tn, d);
    if 0.0 < d {
      MulPositive(tn - t, d);
      assert (tn - t) * d == -((t - tn) * d);
    } else {
      MulPositive(t - tn, -d);
      assert (t - tn) * -d == -((t - tn) * d);
    }
  }

  /**
   * Clipping against `c` from below: the value is below `c` at `s` and not
   * at `e`, so the line is not flat, it crosses `c` at a parameter between
   * `e` and `s` (but not `s`), and stays below `c` from `s` to there.
   */
  lemma CrossingFromBelow(u: real, v: real, s: real, e: real, c: real)
    requires Lerp(u, v, s) < c <= Lerp(u, v, e)
    ensures u != v
    ensures var tn := CrossParameter(u, v, c);
            && Lerp(u, v, tn) == c
            && (s < e ==> s < tn <= e) && (e < s ==> e <= tn < s)
            && forall t :: (s <= t < tn || tn < t <= s) ==> Lerp(u, v, t) < c
  {
    if u == v {
      LerpFlat(u, s);
      LerpFlat(u, e);
    }
    var tn := CrossParameter(u, v, c);
    LerpFromCrossing(u, v, c, s);
    LerpFromCrossing(u, v, c, e);
    LerpFromCrossing(u, v, c, tn);
    Separated(s, e, tn, v - u);
    forall t | s <= t < tn || tn < t <= s
      ensures Lerp(u, v, t) < c
    {
      LerpFromCrossing(u, v, c, t);
      SameSide(s, tn, v - u, t);
    }
  }

  /** Clipping against `c` from above, the mirror image of `CrossingFromBelow`. */
  lemma CrossingFromAbove(u: real, v: real, s: real, e: real, c: real)
    requires Lerp(u, v, s) > c >= Lerp(u, v, e)
    ensures u != v
    ensures var tn := CrossParameter(u, v, c);
            && Lerp(u, v, tn) == c
            && (s < e ==> s < tn <= e) && (e < s ==> e <= tn < s)
            && forall t :: (s <= t < tn || tn < t <= s) ==> Lerp(u, v, t) > c
  {
    if u == v {
      LerpFlat(u, s);
      LerpFlat(u, e);
    }
    var tn := CrossParameter(u, v, c);
    LerpFromCrossing(u, v, c, s);
    LerpFromCrossing(u, v, c, e);
    LerpFromCrossing(u, v, c, tn);
    assert (s - tn) * -(v - u) == -((s - tn) * (v - u));
    assert (e - tn) * -(v - u) == -((e - tn) * (v - u));
    Separated(s, e, tn, -(v - u));
    forall t | s <= t < tn || tn < t <= s
      ensures Lerp(u, v, t) > c
    {
      LerpFromCrossing(u, v, c, t);
      SameSide(s, tn, -(v - u), t);
      assert (t - tn) * -(v - u) == -((t - tn) * (v - u));
    }
  }

  /** At the parameter where the first coordinate reaches `c`, the second is given by `CrossAt`. */
  lemma CrossingPoint(u: real, v: real, c: real, w: real, z: real)
    requires u != v
    ensures Lerp(u, v, CrossParameter(u, v, c)) == c
    ensures Lerp(w, z, CrossParameter(u, v, c)) == CrossAt(u, v, w, z, c)
  {
    LerpFromCrossing(u, v, c, CrossParameter(u, v, c));
  }

  /** Where the line `a`–`b` meets the vertical line at `c`. */
  lemma VerticalCrossing(a: Coord, b: Coord, c: real)
    requires a.x != b.x
    ensures At(a, b, CrossParameter(a.x, b.x, c)) == Coord(c, CrossAt(a.x, b.x, a.y, b.y, c))
  {
    CrossingPoint(a.x, b.x, c, a.y, b.y);
  }

  /** Where the line `a`–`b` meets the horizontal line at `c`. */
  lemma HorizontalCrossing(a: Coord, b: Coord, c: real)
    requires a.y != b.y
    ensures At(a, b, CrossParameter(a.y, b.y, c)) == Coord(CrossAt(a.y, b.y, a.x, b.x, c), c)
  {
    CrossingPoint(a.y, b.y, c, a.x, b.x);
  }

  // ------------------------------------------------------------ clipping

  /** The parameter on the line `a`–`b` of the rectangle edge named by the lowest bit of `code`. */
  function BoundaryParameter(code: bv4, a: Coord, b: Coord, cr: ClipRegion): real
    requires code & 3 != 0 ==> a.x != b.x
    requires code & 3 == 0 ==> a.y != b.y
  {
    if code & 1 != 0 then CrossParameter(a.x, b.x, cr.first.x)
    else if (code >> 1) & 1 != 0 then CrossParameter(a.x, b.x, cr.second.x)
    else if (code >> 2) & 1 != 0 then CrossParameter(a.y, b.y, cr.first.y)
    else CrossParameter(a.y, b.y, cr.second.y)
  }

  /**
   * The new endpoint of one clipping step of `calcNewLine`: where the line
   * through the original endpoints `a` and `b` meets the rectangle edge
   * named by the lowest bit of the outside endpoint's code: the point of
   * that line at the edge's parameter.
   */
  function ClipToBoundary(code: bv4, a: Coord, b: Coord, cr: ClipRegion): (c: Coord)
    requires code & 3 != 0 ==> a.x != b.x
    requires code & 3 == 0 ==> a.y != b.y
    ensures c == At(a, b, BoundaryParameter(code, a, b, cr))
  {
    if code & 1 != 0 then
      VerticalCrossing(a, b, cr.first.x);
      Coord(cr.first.x, CrossAt(a.x, b.x, a.y, b.y, cr.first.x))
    else if (code >> 1) & 1 != 0 then
      VerticalCrossing(a, b, cr.second.x);
      Coord(cr.second.x, CrossAt(a.x, b.x, a.y, b.y, cr.second.x))
    else if (code >> 2) & 1 != 0 then
      HorizontalCrossing(a, b, cr.first.y);
      Coord(CrossAt(a.y, b.y, a.x, b.x, cr.first.y), cr.first.y)
    else
      HorizontalCrossing(a, b, cr.second.y);
      Coord(CrossAt(a.y, b.y, a.x, b.x, cr.second.y), cr.second.y)
  }

  /** The number of sides recorded in a code. */
  function Bits(code: bv4): nat {
    (if code & 1 != 0 then 1 else 0) + (if code & 2 != 0 then 1 else 0)
      + (if code & 4 != 0 then 1 else 0) + (if code & 8 != 0 then 1 else 0)
  }

  /** A code whose sides are among another's, missing at least one, has fewer sides. */
  lemma FewerBits(a: bv4, b: bv4)
    requires a & !b == 0 && b & !a != 0
    ensures Bits(a) < Bits(b)
  {
  }

  /**
   * A point between two others lies beyond a side of the rectangle only if
   * one of them does, so its code has no side that both of theirs lack.
   */
  lemma CodeOfPointBetween(a: Coord, b: Coord, cr: ClipRegion, s: real, e: real, t: real)
    requires s <= t <= e || e <= t <= s
    ensures RegionCode(At(a, b, t), cr) & !(RegionCode(At(a, b, s), cr) | RegionCode(At(a, b, e), cr)) == 0
  {
    LerpBetween(a.x, b.x, s, e, t);
    LerpBetween(a.y, b.y, s, e, t);
  }

  /**
   * One step of the clipping loop, on the line `a`–`b`, moving the endpoint
   * at parameter `s` (code `cs`, not zero) towards the other endpoint at `e`
   * (code `ce`, sharing no side with `cs`): the division is by a non-zero
   * difference, the new parameter lies between `e` and `s` but not at `s`,
   * every point skipped over is outside the rectangle, and the two codes
   * together record fewer sides than before.
   */
  lemma ClipStep(a: Coord, b: Coord, cr: ClipRegion, s: real, e: real)
    requires Normalized(cr)
    requires RegionCode(At(a, b, s), cr) != 0
    requires RegionCode(At(a, b, s), cr) & RegionCode(At(a, b, e), cr) == 0
    ensures var cs := RegionCode(At(a, b, s), cr);
            && (cs & 3 != 0 ==> a.x != b.x)
            && (cs & 3 == 0 ==> a.y != b.y)
    ensures var cs, ce := RegionCode(At(a, b, s), cr), RegionCode(At(a, b, e), cr);
            var tn := BoundaryParameter(cs, a, b, cr);
            && (s < e ==> s < tn <= e) && (e < s ==> e <= tn < s)
            && (forall t :: (s <= t < tn || tn < t <= s) ==> !Inside(At(a, b, t), cr))
            && Bits(RegionCode(At(a, b, tn), cr) | ce) < Bits(cs | ce)
  {
    var cs, ce := RegionCode(At(a, b, s), cr), RegionCode(At(a, b, e), cr);
    RegionCodeBits(At(a, b, s), cr);
    RegionCodeBits(At(a, b, e), cr);
    if cs & 1 != 0 {
      CrossingFromBelow(a.x, b.x, s, e, cr.first.x);
    } else if (cs >> 1) & 1 != 0 {
      CrossingFromAbove(a.x, b.x, s, e, cr.second.x);
    } else if (cs >> 2) & 1 != 0 {
      CrossingFromAbove(a.y, b.y, s, e, cr.first.y);
    } else {
      CrossingFromBelow(a.y, b.y, s, e, cr.second.y);
    }
    var tn := BoundaryParameter(cs, a, b, cr);
    var cn := RegionCode(At(a, b, tn), cr);
    ClipDropsSide(a, b, cr, s, e, tn);
    FewerBits(cn | ce, cs | ce);
  }

  /** The clipped endpoint has no side the two endpoints lacked, and not the side it was clipped against. */
  lemma ClipDropsSide(a: Coord, b: Coord, cr: ClipRegion, s: real, e: real, tn: real)
    requires Normalized(cr)
    requires RegionCode(At(a, b, s), cr) != 0
    requires RegionCode(At(a, b, s), cr) & RegionCode(At(a, b, e), cr) == 0
    requires var cs := RegionCode(At(a, b, s), cr);
             && (cs & 3 != 0 ==> a.x != b.x) && (cs & 3 == 0 ==> a.y != b.y)
             && tn == BoundaryParameter(cs, a, b, cr)
    requires s <= tn <= e || e <= tn <= s
    requires var cs := RegionCode(At(a, b, s), cr);
             && (cs & 1 != 0 ==> At(a, b, tn).x == cr.first.x)
             && (cs & 3 == 2 ==> At(a, b, tn).x == cr.second.x)
             && (cs & 7 == 4 ==> At(a, b, tn).y == cr.first.y)
             && (cs & 15 == 8 ==> At(a, b, tn).y == cr.second.y)
    ensures var cs, ce := RegionCode(At(a, b, s), cr), RegionCode(At(a, b, e), cr);
            var cn := RegionCode(At(a, b, tn), cr);
            (cn | ce) & !(cs | ce) == 0 && (cs | ce) & !(cn | ce) != 0
  {
    CodeOfPointBetween(a, b, cr, s, e, tn);
    RegionCodeBits(At(a, b, s), cr);
    RegionCodeBits(At(a, b, tn), cr);
  }

  /** Where the segment `a`–`b` (parameters 0 to 1) meets the rectangle. */
  ghost predicate Visible(a: Coord, b: Coord, cr: ClipRegion, t: real) {
    0.0 <= t <= 1.0 && Inside(At(a, b, t), cr)
  }

  /** The rectangle is convex: between two points inside it, the segment stays inside. */
  lemma InsideBetween(a: Coord, b: Coord, cr: ClipRegion, s: real, e: real, t: real)
    requires Inside(At(a, b, s), cr) && Inside(At(a, b, e), cr)
    requires s <= t <= e
    ensures Inside(At(a, b, t), cr)
  {
    CodeOfPointBetween(a, b, cr, s, e, t);
  }

  /** Points sharing a side of the rectangle: the segment between them is outside it. */
  lemma OutsideBetween(a: Coord, b: Coord, cr: ClipRegion, s: real, e: real, t: real)
    requires RegionCode(At(a, b, s), cr) & RegionCode(At(a, b, e), cr) != 0
    requires s <= t <= e
    ensures !Inside(At(a, b, t), cr)
  {
    RegionCodeBits(At(a, b, s), cr);
    RegionCodeBits(At(a, b, e), cr);
    LerpBetween(a.x, b.x, s, e, t);
    LerpBetween(a.y, b.y, s, e, t);
  }

  /**
   * `calcNewLine`: clips copies of the line's endpoints until both are
   * inside (accept) or both lie beyond one side (reject). The result is
   * empty exactly when no point of the segment is inside the rectangle;
   * otherwise it is the visible part of the segment, from its first to its
   * last visible point, both with code 0. The line's own points are not
   * changed (nothing is in the method's frame).
   */
  method CalcNewLine(line0: Point, line1: Point, lineCase: int, clipRegion: ClipRegion) returns (newLine: seq<Coord>)
    requires Normalized(clipRegion)
    ensures var a, b := line0.coords, line1.coords;
            newLine == [] <==> forall t :: !Visible(a, b, clipRegion, t)
    ensures newLine != [] ==>
              && |newLine| == 2
              && RegionCode(newLine[0], clipRegion) == 0 && RegionCode(newLine[1], clipRegion) == 0
              && exists t1, t2 :: && 0.0 <= t1 <= t2 <= 1.0
                                  && newLine[0] == At(line0.coords, line1.coords, t1)
                                  && newLine[1] == At(line0.coords, line1.coords, t2)
                                  && forall t :: Visible(line0.coords, line1.coords, clipRegion, t) <==> t1 <= t <= t2
  {
    var a, b := line0.coords, line1.coords;
    var p1 := new Point(Coord(a.x, a.y), clipRegion);
    var p2 := new Point(Coord(b.x, b.y), clipRegion);
    var lineClipping := false;
    ghost var t1, t2 := 0.0, 1.0;
    assert At(a, b, 0.0) == a && At(a, b, 1.0) == b;
    while true
      invariant p1 != p2
      invariant 0.0 <= t1 <= t2 <= 1.0
      invariant p1.coords == At(a, b, t1) && p2.coords == At(a, b, t2)
      invariant p1.reCode == RegionCode(p1.coords, clipRegion) && p2.reCode == RegionCode(p2.coords, clipRegion)
      invariant forall t :: Visible(a, b, clipRegion, t) ==> t1 <= t <= t2
      decreases Bits(p1.reCode | p2.reCode)
    {
      if p1.reCode | p2.reCode == 0 {
        lineClipping := true;
        break;
      }
      if p1.reCode & p2.reCode != 0 {
        break;
      }
      var pOut := if p1.reCode != 0 then p1 else p2;
      ghost var s, e := if pOut == p1 then t1 else t2, if pOut == p1 then t2 else t1;
      ClipStep(a, b, clipRegion, s, e);
      ghost var tn := BoundaryParameter(pOut.reCode, a, b, clipRegion);
      var c := ClipToBoundary(pOut.reCode, a, b, clipRegion);
      var newCode := RegionCode(c, clipRegion);
      if pOut.reCode == p1.reCode {
        p1.coords := c;
        p1.reCode := newCode;
        t1 := tn;
      } else {
        p2.coords := c;
        p2.reCode := newCode;
        t2 := tn;
      }
    }
    if lineClipping {
      newLine := [p1.coords, p2.coords];
      assert Visible(a, b, clipRegion, t1);
      forall t | t1 <= t <= t2
        ensures Visible(a, b, clipRegion, t)
      {
        InsideBetween(a, b, clipRegion, t1, t2, t);
      }
    } else {
      newLine := [];
      forall t | t1 <= t <= t2
        ensures !Visible(a, b, clipRegion, t)
      {
        OutsideBetween(a, b, clipRegion, t1, t2, t);
      }
    }
  }

  /** A line `lineCase` accepts is inside the rectangle from end to end. */
  lemma TrivialAccept(p: Point, q: Point, cr: ClipRegion)
    requires p.reCode == RegionCode(p.coords, cr) && q.reCode == RegionCode(q.coords, cr)
    requires LineCase(p, q) == 0
    ensures forall t :: 0.0 <= t <= 1.0 ==> Inside(At(p.coords, q.coords, t), cr)
  {
    assert At(p.coords, q.coords, 0.0) == p.coords && At(p.coords, q.coords, 1.0) == q.coords;
    forall t | 0.0 <= t <= 1.0
      ensures Inside(At(p.coords, q.coords, t), cr)
    {
      InsideBetween(p.coords, q.coords, cr, 0.0, 1.0, t);
    }
  }

  /** A line `lineCase` rejects has no point inside the rectangle. */
  lemma TrivialReject(p: Point, q: Point, cr: ClipRegion)
    requires p.reCode == RegionCode(p.coords, cr) && q.reCode == RegionCode(q.coords, cr)
    requires LineCase(p, q) == -1
    ensures forall t :: !Visible(p.coords, q.coords, cr, t)
  {
    assert At(p.coords, q.coords, 0.0) == p.coords && At(p.coords, q.coords, 1.0) == q.coords;
    forall t | 0.0 <= t <= 1.0
      ensures !Inside(At(p.coords, q.coords, t), cr)
    {
      OutsideBetween(p.coords, q.coords, cr, 0.0, 1.0, t);
    }
  }

  // --------------------------------------------------------------- lines

  /**
   * `drawLines` pairs the points after the first two (the rectangle's
   * corners): the third with the fourth, the fifth with the sixth, and so
   * on; an unpaired last point forms no line.
   */
  function LinePairs<T>(points: seq<T>): (lines: seq<(T, T)>)
    ensures |lines| == if |points| < 2 then 0 else (|points| - 2) / 2
    ensures forall i :: 0 <= i < |lines| ==> lines[i] == (points[2 + 2 * i], points[3 + 2 * i])
  {
    if |points| < 2 then [] else Zip(Evens(points[2..]), Odds(points[2..]))
  }

  /** `points[0::2]`. */
  function Evens<T>(points: seq<T>): (r: seq<T>)
    ensures |r| == (|points| + 1) / 2
    ensures forall i :: 0 <= i < |r| ==> r[i] == points[2 * i]
  {
    if |points| == 0 then [] else [points[0]] + Odds(points[1..])
  }

  /** `points[1::2]`. */
  function Odds<T>(points: seq<T>): (r: seq<T>)
    ensures |r| == |points| / 2
    ensures forall i :: 0 <= i < |r| ==> r[i] == points[2 * i + 1]
  {
    if |points| == 0 then [] else Evens(points[1..])
  }

  /** `zip`: pairs up to the length of the shorter list. */
  function Zip<T>(xs: seq<T>, ys: seq<T>): (r: seq<(T, T)>)
    ensures |r| == if |xs| <= |ys| then |xs| else |ys|
    ensures forall i :: 0 <= i < |r| ==> r[i] == (xs[i], ys[i])
  {
    if |xs| == 0 || |ys| == 0 then [] else [(xs[0], ys[0])] + Zip(xs[1..], ys[1..])
  }
}
