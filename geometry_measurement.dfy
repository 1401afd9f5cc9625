/** Measurement of drawn geometries and placement of their labels
    (MapUtil.measureGeometry, getLabelPosition and the calculate* wrappers).
    Reprojection and turf's length, area and centroid are primitives this
    model does not compute. */
module GeometryMeasurement {
  import opened JsValues
  import opened CoordinateNormalizer
  import opened GeodesicArcGenerator
  import opened MeasurementFormatting

  datatype GeometryKind = Circle | LineString | Polygon | OtherGeometry

  /** A drawn geometry: its kind, its vertices ({lon, lat} objects) and the
      code of the projection they are given in. */
  datatype Geometry = Geometry(kind: GeometryKind, coordinates: seq<Point>, proj: string)

  /** The primitives the measurements rest on, each including the proj4
      reprojection to latitude/longitude: the great-circle arc, turf's line
      length and polygon area in meters, and turf's centroid. A primitive
      that throws yields None. */
  datatype Primitives = Primitives(
    arc: ArcPrimitive,
    lineDistance: (Line, string) -> Option<real>,
    polygonArea: (Line, string) -> Option<real>,
    polygonCentroid: (Line, string) -> Option<Point>)

  /** calculatePolylineDistance catches any failure and answers 0. */
  function CalculatePolylineDistance(p: Primitives, coords: Line, proj: string): (d: real)
    ensures p.lineDistance(coords, proj).None? ==> d == 0.0
    ensures p.lineDistance(coords, proj).Some? ==> d == p.lineDistance(coords, proj).value
  {
    match p.lineDistance(coords, proj)
    case None => 0.0
    case Some(meters) => meters
  }

  /** calculatePolygonArea catches nothing: a failure escapes. */
  function CalculatePolygonArea(p: Primitives, coords: Line, proj: string): (r: Completion<real>)
    ensures r.Returned? || r == Threw
    ensures r == Threw <==> p.polygonArea(coords, proj).None?
  {
    match p.polygonArea(coords, proj)
    case None => Threw
    case Some(meters) => Returned(meters)
  }

  /** calculatePolygonCenter catches nothing either. */
  function CalculatePolygonCenter(p: Primitives, coords: Line, proj: string): (r: Completion<Point>)
    ensures r.Returned? || r == Threw
    ensures r == Threw <==> p.polygonCentroid(coords, proj).None?
  {
    match p.polygonCentroid(coords, proj)
    case None => Threw
    case Some(center) => Returned(center)
  }

  /** measureGeometry: Circle is refused first; every other geometry is
      tessellated before the measurement type is looked at, so a failing
      tessellation escapes even where the answer would have been `false`. */
  function MeasureGeometry(p: Primitives, geometry: Geometry, measurementType: MeasurementType)
    : (r: Completion<real>)
    ensures r != ReturnedNull
    ensures geometry.kind == Circle ==> r == ReturnedFalse
    ensures r.Returned? ==>
              (geometry.kind == LineString && measurementType == Distance)
              || (geometry.kind == Polygon && measurementType == Area)
    ensures geometry.kind != Circle && GeodesicArcs(geometry.coordinates, p.arc) == Threw ==> r == Threw
    ensures geometry.kind != Circle && GeodesicArcs(geometry.coordinates, p.arc).Returned? ==>
              var arcs := GeodesicArcs(geometry.coordinates, p.arc).value;
              && (geometry.kind == LineString && measurementType == Distance ==>
                    r == Returned(CalculatePolylineDistance(p, arcs, geometry.proj)))
              && (geometry.kind == Polygon && measurementType == Area ==>
                    r == CalculatePolygonArea(p, arcs, geometry.proj))
              && ((!(geometry.kind == LineString && measurementType == Distance)
                   && !(geometry.kind == Polygon && measurementType == Area)) ==> r == ReturnedFalse)
  {
    if geometry.kind == Circle then ReturnedFalse
    else
      match GeodesicArcs(geometry.coordinates, p.arc)
      case Returned(coords) =>
        if measurementType == Distance then
          if geometry.kind == LineString then Returned(CalculatePolylineDistance(p, coords, geometry.proj))
          else ReturnedFalse
        else if measurementType == Area then
          if geometry.kind == Polygon then CalculatePolygonArea(p, coords, geometry.proj)
          else ReturnedFalse
        else ReturnedFalse
      case _ => Threw
  }

  /** getLabelPosition: the end of a line or the centroid of a polygon, in
      both cases constrained into [-180, 180] x [-90, 90]. */
  function GetLabelPosition(p: Primitives, geometry: Geometry): (r: Completion<Point>)
    ensures r != ReturnedNull
    ensures r.Returned? ==> -180.0 <= r.value.lon <= 180.0 && -90.0 <= r.value.lat <= 90.0
    ensures geometry.kind != LineString && geometry.kind != Polygon ==> r == ReturnedFalse
    ensures geometry.kind == LineString ==>
              if geometry.coordinates == [] then r == ReturnedFalse
              else r == ConstrainCoordinates(PairOf(geometry.coordinates[|geometry.coordinates| - 1]), true)
                   && r.Returned?
    ensures geometry.kind == Polygon ==>
              (r == Threw <==>
                 GeodesicArcs(geometry.coordinates, p.arc) == Threw
                 || (GeodesicArcs(geometry.coordinates, p.arc).Returned?
                     && p.polygonCentroid(GeodesicArcs(geometry.coordinates, p.arc).value, geometry.proj).None?))
    ensures geometry.kind == Polygon && r != Threw ==>
              r == ConstrainCoordinates(
                     PairOf(p.polygonCentroid(GeodesicArcs(geometry.coordinates, p.arc).value, geometry.proj).value),
                     true)
  {
    GeodesicThrowsIff(geometry.coordinates, p.arc);
    if geometry.kind == LineString then
      if geometry.coordinates == [] then ReturnedFalse
      else ConstrainCoordinates(PairOf(geometry.coordinates[|geometry.coordinates| - 1]), true)
    else if geometry.kind == Polygon then
      match GeodesicArcs(geometry.coordinates, p.arc)
      case Returned(coords) =>
        (match CalculatePolygonCenter(p, coords, geometry.proj)
         case Returned(center) => ConstrainCoordinates(PairOf(center), true)
         case _ => Threw)
      case _ => Threw
    else
      ReturnedFalse
  }

  /** With an arc library that does not throw, a line whose first segment
      moves is always measured; its distance is 0 when the distance
      primitive fails. */
  lemma LineDistanceAlwaysMeasured(p: Primitives, geometry: Geometry)
    requires forall a, b :: p.arc(a, b).Some?
    requires geometry.kind == LineString
    requires |geometry.coordinates| < 2 || geometry.coordinates[0] != geometry.coordinates[1]
    ensures MeasureGeometry(p, geometry, Distance).Returned?
  {
    GeodesicThrowsIffTotalArc(geometry.coordinates, p.arc);
  }
}
