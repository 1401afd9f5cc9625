/** Geodesic tessellation of a polyline (MapUtil.generateGeodesicArcsForLineString):
    one great-circle arc per pair of consecutive points, each moved by whole
    turns so that it continues from where the line so far ended. */
module GeodesicArcGenerator {
  import opened JsValues
  import opened CoordinateNormalizer

  /** What `new GreatCircle(start, end).Arc(100, {offset: 180}).geometries`
      yields, as lists of points: at least one piece (more when the arc
      crosses the antimeridian), each with at least one point. */
  type ArcLines = pieces: seq<Line> | |pieces| > 0 && AllNonEmpty(pieces)
    witness [[Point(0.0, 0.0)]]

  /** The great-circle primitive, which this model does not compute; None
      where the library throws (for instance on antipodal end points). */
  type ArcPrimitive = (Point, Point) -> Option<ArcLines>

  /** The multiple of 360 added to a piece's longitudes, from the sign of the
      line's last longitude so far and of the piece's first longitude. */
  function PieceShift(lastLon: real, pieceStart: real): (shift: int)
    ensures shift == 1 <==> pieceStart <= 0.0 && lastLon >= 0.0
    ensures shift == -1 <==> pieceStart > 0.0 && lastLon < 0.0
    ensures shift == 0 <==> (pieceStart <= 0.0 && lastLon < 0.0) || (pieceStart > 0.0 && lastLon >= 0.0)
  {
    var initialShift := if lastLon < 0.0 then -1 else 1;
    if pieceStart <= 0.0 then
      (if initialShift <= 0 then 0 else initialShift)
    else
      (if initialShift <= 0 then initialShift else 0)
  }

  /** Every piece moved by its own PieceShift turns. */
  function ShiftPieces(lastLon: real, pieces: ArcLines): (r: ArcLines)
    ensures |r| == |pieces|
    ensures forall i :: 0 <= i < |pieces| ==>
              r[i] == ShiftLine(pieces[i], (360 * PieceShift(lastLon, pieces[i][0].lon)) as real)
  {
    seq(|pieces|, i requires 0 <= i < |pieces| =>
          ShiftLine(pieces[i], (360 * PieceShift(lastLon, pieces[i][0].lon)) as real))
  }

  /** One line out of the pieces: the first piece alone, or all of them
      joined by deconstrainArcCoordinates. */
  function MergedArc(pieces: ArcLines): (line: Line)
    ensures |line| > 0
  {
    if |pieces| >= 2 then Deconstrained(pieces).line else pieces[0]
  }

  /** What segment i, from start to end, appends to the line acc built so
      far; Threw where the arc library throws or where the source reads the
      last point of an empty line. */
  function SegmentArc(acc: Line, i: nat, start: Point, end: Point, arc: ArcPrimitive): Completion<Line>
  {
    if start == end then Returned([])
    else if arc(start, end).None? then Threw
    else
      var arcLines := arc(start, end).value;
      if i >= 1 && acc == [] then Threw
      else
        var pieces :=
          if i >= 1 && LastLon(acc) != arcLines[0][0].lon then ShiftPieces(LastLon(acc), arcLines)
          else arcLines;
        Returned(MergedArc(pieces))
  }

  /** The line after the first n segments (of coords[0..n]). */
  function GeodesicPrefix(coords: seq<Point>, n: nat, arc: ArcPrimitive): Completion<Line>
    requires n < |coords|
  {
    if n == 0 then Returned([])
    else
      match GeodesicPrefix(coords, n - 1, arc)
      case Returned(acc) =>
        (match SegmentArc(acc, n - 1, coords[n - 1], coords[n], arc)
         case Returned(piece) => Returned(acc + piece)
         case _ => Threw)
      case _ => Threw
  }

  /** The value generateGeodesicArcsForLineString computes. */
  function GeodesicArcs(coords: seq<Point>, arc: ArcPrimitive): (r: Completion<Line>)
    ensures |coords| < 2 ==> r == Returned([])
  {
    if |coords| < 2 then Returned([]) else GeodesicPrefix(coords, |coords| - 1, arc)
  }

  method GenerateGeodesicArcsForLineString(coords: seq<Point>, arc: ArcPrimitive) returns (r: Completion<Line>)
    ensures r == GeodesicArcs(coords, arc)
  {
    var lineCoords: Line := [];
    var i := 0;
    while i < |coords| - 1
      invariant |coords| == 0 ==> i == 0 && lineCoords == []
      invariant |coords| > 0 ==> i < |coords| && GeodesicPrefix(coords, i, arc) == Returned(lineCoords)
    {
      var start := coords[i];
      var end := coords[i + 1];

      // the arc primitive cannot take two points in the same place
      if start == end {
        assert lineCoords + [] == lineCoords;
        i := i + 1;
        continue;
      }

      var generated := arc(start, end);
      if generated.None? {
        // the arc library threw
        assert SegmentArc(lineCoords, i, start, end, arc) == Threw;
        SegmentThrows(coords, i, arc);
        return Threw;
      }
      var arcLines := generated.value;

      if i >= 1 && lineCoords == [] {
        // reading the last point of an empty line throws a TypeError
        assert SegmentArc(lineCoords, i, start, end, arc) == Threw;
        SegmentThrows(coords, i, arc);
        return Threw;
      }
      if i >= 1 && lineCoords[|lineCoords| - 1].lon != arcLines[0][0].lon {
        arcLines := ShiftPieces(lineCoords[|lineCoords| - 1].lon, arcLines);
      }

      var arcCoords := arcLines[0];
      if |arcLines| >= 2 {
        var stitched := DeconstrainArcCoordinates(arcLines);
        arcCoords := stitched.line;
      }
      assert SegmentArc(lineCoords, i, start, end, arc) == Returned(arcCoords);
      lineCoords := lineCoords + arcCoords;
      i := i + 1;
    }
    return Returned(lineCoords);
  }

  /** A segment that throws makes the whole assembly throw. */
  lemma SegmentThrows(coords: seq<Point>, i: nat, arc: ArcPrimitive)
    requires i + 1 < |coords| && GeodesicPrefix(coords, i, arc).Returned?
    requires SegmentArc(GeodesicPrefix(coords, i, arc).value, i, coords[i], coords[i + 1], arc) == Threw
    ensures GeodesicPrefix(coords, |coords| - 1, arc) == Threw
  {
    assert GeodesicPrefix(coords, i + 1, arc) == Threw;
    ThrowStays(coords, i + 1, |coords| - 1, arc);
  }

  /** Once a segment has thrown, nothing after it runs. */
  lemma {:induction false} ThrowStays(coords: seq<Point>, m: nat, n: nat, arc: ArcPrimitive)
    requires m <= n < |coords| && GeodesicPrefix(coords, m, arc) == Threw
    ensures GeodesicPrefix(coords, n, arc) == Threw
  {
    if m < n {
      ThrowStays(coords, m, n - 1, arc);
    }
  }

  // ---------------------------------------------------------------------
  // When the assembly throws
  // ---------------------------------------------------------------------

  /** Some segment among the first n has distinct end points. */
  predicate SomeMovingBefore(coords: seq<Point>, n: nat)
    requires n < |coords|
  {
    exists j :: 0 <= j < n && coords[j] != coords[j + 1]
  }

  /** Segment j is where the assembly throws if it gets that far: its end
      points differ and either the arc library fails on them or, past the
      first segment, no earlier segment has added a point. */
  predicate FailsAt(coords: seq<Point>, j: nat, arc: ArcPrimitive)
    requires j + 1 < |coords|
  {
    coords[j] != coords[j + 1] &&
    (arc(coords[j], coords[j + 1]).None? || (j >= 1 && !SomeMovingBefore(coords, j)))
  }

  /** Some segment among the first n fails. */
  predicate SomeFailureBefore(coords: seq<Point>, n: nat, arc: ArcPrimitive)
    requires n < |coords|
  {
    exists j :: 0 <= j < n && FailsAt(coords, j, arc)
  }

  /** The first n segments return exactly when none of them fails, and the
      line so far is empty exactly when all of them are degenerate. */
  lemma {:induction false} PrefixOutcome(coords: seq<Point>, n: nat, arc: ArcPrimitive)
    requires n < |coords|
    ensures GeodesicPrefix(coords, n, arc) == Threw || GeodesicPrefix(coords, n, arc).Returned?
    ensures GeodesicPrefix(coords, n, arc) == Threw <==> SomeFailureBefore(coords, n, arc)
    ensures GeodesicPrefix(coords, n, arc).Returned? ==>
              (GeodesicPrefix(coords, n, arc).value == [] <==> !SomeMovingBefore(coords, n))
  {
    if n > 0 {
      PrefixOutcome(coords, n - 1, arc);
      if SomeFailureBefore(coords, n - 1, arc) {
        var j :| 0 <= j < n - 1 && FailsAt(coords, j, arc);
        assert FailsAt(coords, j, arc);
      } else if coords[n - 1] == coords[n] {
        assert !FailsAt(coords, n - 1, arc);
        assert GeodesicPrefix(coords, n - 1, arc).value + [] == GeodesicPrefix(coords, n - 1, arc).value;
        assert SomeMovingBefore(coords, n) ==> SomeMovingBefore(coords, n - 1);
      } else {
        assert SomeMovingBefore(coords, n);
        if FailsAt(coords, n - 1, arc) {
          assert SomeFailureBefore(coords, n, arc);
        } else {
          assert !SomeFailureBefore(coords, n, arc);
        }
      }
    }
  }

  /** The assembly throws exactly when some segment fails: the arc library
      throws on it, or it is the first segment with distinct end points and
      not the first segment of the line, so the last point is read from an
      empty line. */
  lemma GeodesicThrowsIff(coords: seq<Point>, arc: ArcPrimitive)
    ensures GeodesicArcs(coords, arc).Returned? || GeodesicArcs(coords, arc) == Threw
    ensures GeodesicArcs(coords, arc) == Threw <==>
              |coords| >= 2 && SomeFailureBefore(coords, |coords| - 1, arc)
  {
    if |coords| >= 2 {
      PrefixOutcome(coords, |coords| - 1, arc);
    }
  }

  /** With an arc library that never throws, the assembly throws exactly when
      the first segment is degenerate and a later one is not. */
  lemma GeodesicThrowsIffTotalArc(coords: seq<Point>, arc: ArcPrimitive)
    requires forall p, q :: arc(p, q).Some?
    ensures GeodesicArcs(coords, arc) == Threw <==>
              |coords| >= 3 && coords[0] == coords[1] && SomeMovingBefore(coords, |coords| - 1)
  {
    if |coords| >= 2 {
      PrefixOutcome(coords, |coords| - 1, arc);
      var n := |coords| - 1;
      if coords[0] == coords[1] && SomeMovingBefore(coords, n) {
        var j :| 0 <= j < n && coords[j] != coords[j + 1];
        var k := FirstMoving(coords, j);
        assert FailsAt(coords, k, arc);
      }
      if SomeFailureBefore(coords, n, arc) {
        var j :| 0 <= j < n && FailsAt(coords, j, arc);
        assert j >= 1 && !SomeMovingBefore(coords, j);
        assert coords[0] == coords[1];
      }
    }
  }

  /** The first segment with distinct end points, at or before segment j. */
  lemma {:induction false} FirstMoving(coords: seq<Point>, j: nat) returns (k: nat)
    requires j + 1 < |coords| && coords[j] != coords[j + 1]
    ensures k <= j && coords[k] != coords[k + 1] && !SomeMovingBefore(coords, k)
  {
    if SomeMovingBefore(coords, j) {
      var i :| 0 <= i < j && coords[i] != coords[i + 1];
      k := FirstMoving(coords, i);
    } else {
      k := j;
    }
  }

  // ---------------------------------------------------------------------
  // How many points the assembly produces
  // ---------------------------------------------------------------------

  /** The points the merged arc of these pieces has: the first piece whole,
      every later piece less its first point. */
  function ArcPointCount(pieces: ArcLines): nat
  {
    |pieces[0]| + TailCount(pieces[1..])
  }

  /** Sum of ArcPointCount over the non-degenerate segments among the first n. */
  function ExpectedCount(coords: seq<Point>, n: nat, arc: ArcPrimitive): nat
    requires n < |coords|
  {
    if n == 0 then 0
    else ExpectedCount(coords, n - 1, arc)
         + (match (if coords[n - 1] == coords[n] then None else arc(coords[n - 1], coords[n]))
            case Some(pieces) => ArcPointCount(pieces)
            case None => 0)
  }

  lemma {:induction false} TailCountByLengths(a: seq<Line>, b: seq<Line>)
    requires AllNonEmpty(a) && AllNonEmpty(b) && |a| == |b|
    requires forall i :: 0 <= i < |a| ==> |a[i]| == |b[i]|
    ensures TailCount(a) == TailCount(b)
  {
    if a != [] {
      TailCountByLengths(a[..|a| - 1], b[..|b| - 1]);
    }
  }

  lemma MergedArcCount(pieces: ArcLines)
    ensures |MergedArc(pieces)| == ArcPointCount(pieces)
  {
    if |pieces| >= 2 {
      DeconstrainedShape(pieces);
    }
  }

  lemma ShiftKeepsCount(lastLon: real, pieces: ArcLines)
    ensures ArcPointCount(ShiftPieces(lastLon, pieces)) == ArcPointCount(pieces)
  {
    var shifted := ShiftPieces(lastLon, pieces);
    TailCountByLengths(shifted[1..], pieces[1..]);
  }

  lemma {:induction false} PrefixCount(coords: seq<Point>, n: nat, arc: ArcPrimitive)
    requires n < |coords|
    requires GeodesicPrefix(coords, n, arc).Returned?
    ensures |GeodesicPrefix(coords, n, arc).value| == ExpectedCount(coords, n, arc)
  {
    if n > 0 {
      PrefixCount(coords, n - 1, arc);
      var acc := GeodesicPrefix(coords, n - 1, arc).value;
      var start, end := coords[n - 1], coords[n];
      if start != end {
        var arcLines := arc(start, end).value;
        MergedArcCount(arcLines);
        if n - 1 >= 1 && acc != [] {
          ShiftKeepsCount(LastLon(acc), arcLines);
          MergedArcCount(ShiftPieces(LastLon(acc), arcLines));
        }
      }
    }
  }

  /** Every non-degenerate segment adds its whole merged arc and a degenerate
      one adds nothing: no point at a join is dropped. */
  lemma GeodesicCount(coords: seq<Point>, arc: ArcPrimitive)
    requires |coords| >= 2 && GeodesicArcs(coords, arc).Returned?
    ensures |GeodesicArcs(coords, arc).value| == ExpectedCount(coords, |coords| - 1, arc)
  {
    PrefixCount(coords, |coords| - 1, arc);
  }

  /** The line after fewer segments is a prefix of the line after more. */
  lemma {:induction false} PrefixGrows(coords: seq<Point>, m: nat, n: nat, arc: ArcPrimitive)
    requires m <= n < |coords| && GeodesicPrefix(coords, n, arc).Returned?
    ensures GeodesicPrefix(coords, m, arc).Returned?
    ensures GeodesicPrefix(coords, m, arc).value <= GeodesicPrefix(coords, n, arc).value
  {
    if m < n {
      PrefixGrows(coords, m, n - 1, arc);
    }
  }
}
