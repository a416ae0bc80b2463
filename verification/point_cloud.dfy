/**
 * Normalisation of the point viewer's cloud: the rows read from a file are
 * kept in `model_data` and, as homogeneous points, in `points`; the
 * axis-aligned bounding box of the rows, its midpoint and a uniform scale
 * factor then place the cloud in the cube [-1, 1]^3 around the origin.
 * Rows arrive already parsed into reals.
 */
module PointCloud {
  import opened Wrappers
  import opened Vectors

  type Row = seq<real>

  /** A point `(x, y, z, 1)` in homogeneous coordinates. */
  datatype Point4 = Point4(x: real, y: real, z: real, w: real)

  /** `bounding_box`: the corner of least and the corner of largest coordinates. */
  datatype Box = Box(lo: Vec3, hi: Vec3)

  /** The Python exceptions the normalisation can raise. */
  datatype CloudError = IndexError | InfiniteScale

  /** Every row has the three coordinates the viewer reads. */
  predicate HasCoordinates(rows: seq<Row>) {
    forall k :: 0 <= k < |rows| ==> |rows[k]| >= 3
  }

  /** The homogeneous point of a row. */
  function ToPoint(row: Row): Point4
    requires |row| >= 3
  {
    Point4(row[0], row[1], row[2], 1.0)
  }

  function ToPoints(rows: seq<Row>): (ps: seq<Point4>)
    requires HasCoordinates(rows)
    ensures |ps| == |rows|
    ensures forall k :: 0 <= k < |rows| ==> ps[k] == ToPoint(rows[k])
  {
    seq(|rows|, k requires 0 <= k < |rows| => ToPoint(rows[k]))
  }

  // ---------------------------------------------------------- bounding box

  /** `min` over column `c` of the rows. */
  function ColumnMin(rows: seq<Row>, c: nat): (m: real)
    requires |rows| > 0 && forall k :: 0 <= k < |rows| ==> c < |rows[k]|
    ensures forall k :: 0 <= k < |rows| ==> m <= rows[k][c]
    ensures exists k :: 0 <= k < |rows| && m == rows[k][c]
    decreases |rows|
  {
    if |rows| == 1 then rows[0][c]
    else
      var rest := ColumnMin(rows[1..], c);
      assert forall k :: 1 <= k < |rows| ==> rows[k] == rows[1..][k - 1];
      if rows[0][c] <= rest then rows[0][c] else rest
  }

  /** `max` over column `c` of the rows. */
  function ColumnMax(rows: seq<Row>, c: nat): (m: real)
    requires |rows| > 0 && forall k :: 0 <= k < |rows| ==> c < |rows[k]|
    ensures forall k :: 0 <= k < |rows| ==> rows[k][c] <= m
    ensures exists k :: 0 <= k < |rows| && m == rows[k][c]
    decreases |rows|
  {
    if |rows| == 1 then rows[0][c]
    else
      var rest := ColumnMax(rows[1..], c);
      assert forall k :: 1 <= k < |rows| ==> rows[k] == rows[1..][k - 1];
      if rows[0][c] >= rest then rows[0][c] else rest
  }

  predicate InBox(row: Row, box: Box)
    requires |row| >= 3
  {
    && box.lo.x <= row[0] <= box.hi.x
    && box.lo.y <= row[1] <= box.hi.y
    && box.lo.z <= row[2] <= box.hi.z
  }

  /**
   * The box of the column-wise minima and maxima of the first three
   * columns. Python's `zip` cuts every row to the shortest one, so the box
   * is missing (an IndexError) when there are no rows or a row has fewer
   * than three entries. Otherwise its corners are ordered, every row lies
   * in it, and each face touches some row.
   */
  function BoundingBox(rows: seq<Row>): (b: Result<Box, CloudError>)
    ensures b.Err? <==> |rows| == 0 || !HasCoordinates(rows)
    ensures b.Err? ==> b.error == IndexError
    ensures b.Ok? ==>
      && b.value.lo.x <= b.value.hi.x && b.value.lo.y <= b.value.hi.y && b.value.lo.z <= b.value.hi.z
      && (forall k :: 0 <= k < |rows| ==> InBox(rows[k], b.value))
    ensures b.Ok? ==>
      && (exists k :: 0 <= k < |rows| && rows[k][0] == b.value.lo.x)
      && (exists k :: 0 <= k < |rows| && rows[k][0] == b.value.hi.x)
      && (exists k :: 0 <= k < |rows| && rows[k][1] == b.value.lo.y)
      && (exists k :: 0 <= k < |rows| && rows[k][1] == b.value.hi.y)
      && (exists k :: 0 <= k < |rows| && rows[k][2] == b.value.lo.z)
      && (exists k :: 0 <= k < |rows| && rows[k][2] == b.value.hi.z)
  {
    if |rows| == 0 || !HasCoordinates(rows) then Err(IndexError)
    else
      var lo := Vec3(ColumnMin(rows, 0), ColumnMin(rows, 1), ColumnMin(rows, 2));
      var hi := Vec3(ColumnMax(rows, 0), ColumnMax(rows, 1), ColumnMax(rows, 2));
      assert rows[0][0] <= rows[0][0] && rows[0][1] <= rows[0][1] && rows[0][2] <= rows[0][2];
      Ok(Box(lo, hi))
  }

  /** `obj_origin`: the point halfway between the two corners on every axis. */
  function Origin(box: Box): (o: Vec3)
    ensures o.x - box.lo.x == box.hi.x - o.x
    ensures o.y - box.lo.y == box.hi.y - o.y
    ensures o.z - box.lo.z == box.hi.z - o.z
  {
    Vec3(box.lo.x + (box.hi.x - box.lo.x) / 2.0,
         box.lo.y + (box.hi.y - box.lo.y) / 2.0,
         box.lo.z + (box.hi.z - box.lo.z) / 2.0)
  }

  /** With ordered corners, the origin lies inside the box. */
  lemma OriginInside(box: Box)
    requires box.lo.x <= box.hi.x && box.lo.y <= box.hi.y && box.lo.z <= box.hi.z
    ensures InBox([Origin(box).x, Origin(box).y, Origin(box).z], box)
  {
  }

  // ----------------------------------------------------------------- scale

  function Abs(r: real): real { if r < 0.0 then -r else r }

  /** `max(scaleX, scaleY, scaleZ)`: the largest extent of the box along an axis. */
  function LargestExtent(box: Box): (e: real)
    ensures e >= Abs(box.hi.x - box.lo.x) && e >= Abs(box.hi.y - box.lo.y) && e >= Abs(box.hi.z - box.lo.z)
    ensures e == Abs(box.hi.x - box.lo.x) || e == Abs(box.hi.y - box.lo.y) || e == Abs(box.hi.z - box.lo.z)
  {
    var scaleX := Abs(box.hi.x - box.lo.x);
    var scaleY := Abs(box.hi.y - box.lo.y);
    var scaleZ := Abs(box.hi.z - box.lo.z);
    if scaleX >= scaleY && scaleX >= scaleZ then scaleX
    else if scaleY >= scaleZ then scaleY
    else scaleZ
  }

  /**
   * `scale`: 2 divided by the largest extent, so the largest extent is
   * scaled to exactly 2. When every extent is zero numpy divides by zero
   * and stores infinity; the model reports that case as missing.
   */
  function ScaleFactor(box: Box): (s: Option<real>)
    ensures s.None? <==> LargestExtent(box) == 0.0
    ensures s.Some? ==> s.value > 0.0 && s.value * LargestExtent(box) == 2.0
  {
    var largest := LargestExtent(box);
    if largest == 0.0 then None
    else
      assert largest > 0.0;
      Some(2.0 / largest)
  }

  /** A coordinate after the display's translation by `-mid` and scaling by `s`. */
  function Normalized(v: real, mid: real, s: real): real { (v - mid) * s }

  /** A coordinate in [lo, hi], moved by the midpoint and scaled, lies in [-1, 1]. */
  lemma CenteredScaled(v: real, lo: real, hi: real, mid: real, largest: real, s: real)
    requires lo <= v <= hi && hi - lo <= largest && mid - lo == hi - mid
    requires s > 0.0 && s * largest == 2.0
    ensures -1.0 <= Normalized(v, mid, s) <= 1.0
  {
    var d := v - mid;
    var h := largest / 2.0;
    assert -h <= d <= h;
    NonNegativeProduct(h - d, s);
    NonNegativeProduct(h + d, s);
    assert h * s == 1.0;
    assert (h - d) * s == h * s - d * s;
    assert (h + d) * s == h * s + d * s;
  }

  /**
   * Translating by `-obj_origin` and then scaling by `scale`, as the display
   * does first, puts every row of the box in the cube [-1, 1]^3.
   */
  lemma FitsUnitCube(row: Row, box: Box, s: real)
    requires |row| >= 3 && InBox(row, box) && ScaleFactor(box) == Some(s)
    ensures -1.0 <= Normalized(row[0], Origin(box).x, s) <= 1.0
    ensures -1.0 <= Normalized(row[1], Origin(box).y, s) <= 1.0
    ensures -1.0 <= Normalized(row[2], Origin(box).z, s) <= 1.0
  {
    var o := Origin(box);
    var largest := LargestExtent(box);
    CenteredScaled(row[0], box.lo.x, box.hi.x, o.x, largest, s);
    CenteredScaled(row[1], box.lo.y, box.hi.y, o.y, largest, s);
    CenteredScaled(row[2], box.lo.z, box.hi.z, o.z, largest, s);
  }

  /** Every row of the cloud lands in [-1, 1]^3 once the box and the scale exist. */
  lemma CloudFitsUnitCube(rows: seq<Row>, box: Box, s: real, k: int)
    requires BoundingBox(rows) == Ok(box) && ScaleFactor(box) == Some(s)
    requires 0 <= k < |rows|
    ensures |rows[k]| >= 3
    ensures -1.0 <= Normalized(rows[k][0], Origin(box).x, s) <= 1.0
    ensures -1.0 <= Normalized(rows[k][1], Origin(box).y, s) <= 1.0
    ensures -1.0 <= Normalized(rows[k][2], Origin(box).z, s) <= 1.0
  {
    FitsUnitCube(rows[k], box, s);
  }

  // ---------------------------------------------------------------- viewer

  /** Appending rows appends their points. */
  lemma ToPointsAppend(a: seq<Row>, b: seq<Row>)
    requires HasCoordinates(a) && HasCoordinates(b)
    ensures HasCoordinates(a + b)
    ensures ToPoints(a + b) == ToPoints(a) + ToPoints(b)
  {
  }

  /** The index of the first row with fewer than three entries, or the number of rows. */
  function FirstShortRow(rows: seq<Row>): (f: nat)
    ensures f <= |rows|
    ensures HasCoordinates(rows[..f])
    ensures f < |rows| ==> |rows[f]| < 3
    ensures f == |rows| <==> HasCoordinates(rows)
    decreases |rows|
  {
    if |rows| == 0 then 0
    else if |rows[0]| < 3 then 0
    else
      var f := FirstShortRow(rows[1..]);
      assert forall k :: 1 <= k < |rows| ==> rows[k] == rows[1..][k - 1];
      assert rows[..f + 1] == [rows[0]] + rows[1..][..f];
      f + 1
  }

  /** The module-level state of the viewer that the import and the normalisation update. */
  class PointViewer {
    var modelData: seq<Row>
    var points: seq<Point4>
    var boundingBox: Option<Box>
    var objOrigin: Option<Vec3>
    var scale: real

    /** The two lists hold the same rows, the second as homogeneous points. */
    ghost predicate Valid()
      reads this
    {
      HasCoordinates(modelData) && points == ToPoints(modelData)
    }

    constructor()
      ensures modelData == [] && points == []
      ensures boundingBox == None && objOrigin == None && scale == 0.0
      ensures Valid()
    {
      modelData := [];
      points := [];
      boundingBox := None;
      objOrigin := None;
      scale := 0.0;
    }

    /** `compute_bounding_box`: the box of the rows and its midpoint; an IndexError leaves both as they were. */
    method ComputeBoundingBox() returns (outcome: Result<(), CloudError>)
      modifies this
      ensures modelData == old(modelData) && points == old(points) && scale == old(scale)
      ensures BoundingBox(modelData).Ok? ==>
        && outcome.Ok?
        && boundingBox == Some(BoundingBox(modelData).value)
        && objOrigin == Some(Origin(BoundingBox(modelData).value))
      ensures BoundingBox(modelData).Err? ==>
        outcome == Err(IndexError) && boundingBox == old(boundingBox) && objOrigin == old(objOrigin)
    {
      var box := BoundingBox(modelData);
      if box.Err? {
        return Err(box.error);
      }
      boundingBox := Some(box.value);
      var minArray := box.value.lo;
      var maxArray := box.value.hi;
      var midX := minArray.x + (maxArray.x - minArray.x) / 2.0;
      var midY := minArray.y + (maxArray.y - minArray.y) / 2.0;
      var midZ := minArray.z + (maxArray.z - minArray.z) / 2.0;
      assert Vec3(midX, midY, midZ) == Origin(box.value);
      objOrigin := Some(Vec3(midX, midY, midZ));
      outcome := Ok(());
      assert box == BoundingBox(modelData);
    }

    /** `compute_scale`: 2 over the largest extent of the box, which must have been computed. */
    method ComputeScale() returns (outcome: Result<(), CloudError>)
      modifies this
      ensures modelData == old(modelData) && points == old(points)
      ensures boundingBox == old(boundingBox) && objOrigin == old(objOrigin)
      ensures boundingBox.None? ==> outcome == Err(IndexError) && scale == old(scale)
      ensures boundingBox.Some? && ScaleFactor(boundingBox.value).None? ==>
        outcome == Err(InfiniteScale) && scale == old(scale)
      ensures boundingBox.Some? && ScaleFactor(boundingBox.value).Some? ==>
        outcome.Ok? && scale == ScaleFactor(boundingBox.value).value
    {
      if boundingBox.None? {
        return Err(IndexError);
      }
      var s := ScaleFactor(boundingBox.value);
      if s.None? {
        return Err(InfiniteScale);
      }
      scale := s.value;
      outcome := Ok(());
    }

    /**
     * The reading loop of `import_data` on rows already parsed: each row is
     * appended to `model_data` and its homogeneous point to `points`; for a
     * row with fewer than three entries the point construction raises
     * `IndexError` after the first of the two appends and stops the import.
     */
    method AppendRows(rows: seq<Row>) returns (outcome: Result<(), CloudError>)
      modifies this
      ensures boundingBox == old(boundingBox) && objOrigin == old(objOrigin) && scale == old(scale)
      ensures var f := FirstShortRow(rows);
        f < |rows| ==>
          && outcome == Err(IndexError)
          && modelData == old(modelData) + rows[..f + 1]
          && points == old(points) + ToPoints(rows[..f])
      ensures HasCoordinates(rows) ==>
        && outcome.Ok?
        && modelData == old(modelData) + rows
        && points == old(points) + ToPoints(rows)
      ensures old(Valid()) ==> (Valid() <==> HasCoordinates(rows))
    {
      for k := 0 to |rows|
        invariant k <= FirstShortRow(rows)
        invariant HasCoordinates(rows[..k])
        invariant modelData == old(modelData) + rows[..k]
        invariant points == old(points) + ToPoints(rows[..k])
        invariant boundingBox == old(boundingBox) && objOrigin == old(objOrigin) && scale == old(scale)
      {
        modelData := modelData + [rows[k]];
        if |rows[k]| < 3 {
          assert rows[..k + 1] == rows[..k] + [rows[k]];
          assert modelData[|modelData| - 1] == rows[k];
          return Err(IndexError);
        }
        points := points + [Point4(rows[k][0], rows[k][1], rows[k][2], 1.0)];
        assert rows[..k + 1] == rows[..k] + [rows[k]];
        assert ToPoints(rows[..k + 1]) == ToPoints(rows[..k]) + [ToPoint(rows[k])];
      }
      assert rows[..|rows|] == rows;
      if old(Valid()) {
        ToPointsAppend(old(modelData), rows);
      }
      outcome := Ok(());
    }

    /**
     * `import_data`: the rows are appended, and after a complete import the
     * box, the origin and the scale are computed again for all the rows.
     */
    method ImportData(rows: seq<Row>) returns (outcome: Result<(), CloudError>)
      modifies this
      ensures var f := FirstShortRow(rows);
        f < |rows| ==>
          && outcome == Err(IndexError)
          && modelData == old(modelData) + rows[..f + 1]
          && points == old(points) + ToPoints(rows[..f])
          && boundingBox == old(boundingBox) && objOrigin == old(objOrigin) && scale == old(scale)
      ensures HasCoordinates(rows) ==>
        && modelData == old(modelData) + rows
        && points == old(points) + ToPoints(rows)
      ensures HasCoordinates(rows) && BoundingBox(modelData).Ok? ==>
        && boundingBox == Some(BoundingBox(modelData).value)
        && objOrigin == Some(Origin(BoundingBox(modelData).value))
        && (outcome.Ok? <==> ScaleFactor(boundingBox.value).Some?)
        && (outcome.Ok? ==> scale == ScaleFactor(boundingBox.value).value)
        && (outcome.Err? ==> outcome == Err(InfiniteScale))
      ensures HasCoordinates(rows) && BoundingBox(modelData).Err? ==>
        && outcome == Err(IndexError)
        && boundingBox == old(boundingBox) && objOrigin == old(objOrigin) && scale == old(scale)
      ensures outcome == Err(InfiniteScale) ==> scale == old(scale)
      ensures old(Valid()) ==> (Valid() <==> HasCoordinates(rows))
    {
      outcome := AppendRows(rows);
      if outcome.Err? {
        return;
      }
      outcome := ComputeBoundingBox();
      if outcome.Err? {
        return;
      }
      outcome := ComputeScale();
    }
  }
}
