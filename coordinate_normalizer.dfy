/** Normalisation of [lon, lat] pairs into [-180, 180] x [-90, 90], and the
    reverse step for polylines split at the antimeridian
    (MapUtil.constrainCoordinates and MapUtil.deconstrainArcCoordinates). */
module CoordinateNormalizer {
  import opened JsValues

  datatype Point = Point(lon: real, lat: real)

  type Line = seq<Point>

  // ---------------------------------------------------------------------
  // Number arithmetic as the source performs it
  // ---------------------------------------------------------------------

  /** Truncation toward zero. */
  function Trunc(q: real): (t: int)
    ensures q >= 0.0 ==> t as real <= q < t as real + 1.0
    ensures q < 0.0 ==> t as real - 1.0 < q <= t as real
  {
    if q >= 0.0 then q.Floor else -((-q).Floor)
  }

  /** The two axes constrainCoordinates folds; each has its own half period. */
  datatype Axis = Longitude | Latitude

  function HalfPeriod(axis: Axis): (h: real)
    ensures h > 0.0
  {
    match axis
    case Longitude => 180.0
    case Latitude => 90.0
  }

  /** `x % h` on numbers: the remainder of division truncated toward zero,
      which keeps the sign of x (Dafny's own `%` is Euclidean). */
  function JsRem(x: real, axis: Axis): (r: real)
    ensures x >= 0.0 ==> 0.0 <= r < HalfPeriod(axis)
    ensures x <= 0.0 ==> -HalfPeriod(axis) < r <= 0.0
    ensures r == 0.0 <==> (x / HalfPeriod(axis)).Floor as real == x / HalfPeriod(axis)
  {
    var h := HalfPeriod(axis);
    x - (Trunc(x / h) as real) * h
  }

  /** What `%` leaves off is a whole number of half periods, so together
      with the sign and bound of `JsRem` the remainder is fully determined. */
  lemma JsRemIsRemainder(x: real, axis: Axis)
    ensures ((x - JsRem(x, axis)) / HalfPeriod(axis)).Floor as real == (x - JsRem(x, axis)) / HalfPeriod(axis)
  {
    var h := HalfPeriod(axis);
    var t := Trunc(x / h) as real;
    assert x - JsRem(x, axis) == t * h;
    assert (t * h) / h == t;
  }

  /** The odd/even fold of one axis: `scale = floor(x / h)` decides on which
      side of the seam the remainder is placed. The parity test `scale % 2 != 0`
      agrees between truncating and Euclidean remainders. */
  function WrapAxis(x: real, axis: Axis): (r: real)
    ensures -HalfPeriod(axis) <= r <= HalfPeriod(axis)
    ensures Abs(x) <= HalfPeriod(axis) ==> r == x
  {
    var h := HalfPeriod(axis);
    if Abs(x) > h then
      var scale := (x / h).Floor;
      if x < 0.0 then
        if scale % 2 != 0 then JsRem(x, axis) else h - Abs(JsRem(x, axis))
      else
        if scale % 2 != 0 then 0.0 - (h - Abs(JsRem(x, axis))) else JsRem(x, axis)
    else
      x
  }

  /** a and b are the same place on a circle of circumference `period`. */
  predicate Congruent(a: real, b: real, period: real)
    requires period > 0.0
  {
    var q := (a - b) / period;
    q.Floor as real == q
  }

  lemma CongruentBy(a: real, b: real, axis: Axis, k: int)
    requires a - b == (2 * k) as real * HalfPeriod(axis)
    ensures Congruent(a, b, 2.0 * HalfPeriod(axis))
  {
    var p := 2.0 * HalfPeriod(axis);
    assert (a - b) / p == k as real;
  }

  /** The remainder once the truncated quotient is known. */
  lemma JsRemByQuotient(x: real, axis: Axis, t: int)
    requires Trunc(x / HalfPeriod(axis)) == t
    ensures JsRem(x, axis) == x - t as real * HalfPeriod(axis)
  {
  }

  lemma WrapAbove(x: real, axis: Axis)
    requires x > HalfPeriod(axis)
    ensures Congruent(WrapAxis(x, axis), x, 2.0 * HalfPeriod(axis))
  {
    var h := HalfPeriod(axis);
    var s := (x / h).Floor;
    assert 0.0 < x / h;
    JsRemByQuotient(x, axis, s);
    if s % 2 != 0 {
      var k := -(s + 1) / 2;
      assert WrapAxis(x, axis) == x - (s as real) * h - h;
      assert (2 * k) as real * h == -(s as real) * h - h;
      CongruentBy(WrapAxis(x, axis), x, axis, k);
    } else {
      var k := -s / 2;
      assert WrapAxis(x, axis) == x - (s as real) * h;
      assert (2 * k) as real * h == -(s as real) * h;
      CongruentBy(WrapAxis(x, axis), x, axis, k);
    }
  }

  lemma WrapBelowExact(x: real, axis: Axis)
    requires x < -HalfPeriod(axis) && JsRem(x, axis) == 0.0
    ensures Congruent(WrapAxis(x, axis), x + HalfPeriod(axis), 2.0 * HalfPeriod(axis))
  {
    var h := HalfPeriod(axis);
    var s := (x / h).Floor;
    assert s as real == x / h;
    assert x == (s as real) * h;
    if s % 2 != 0 {
      var k := -(s + 1) / 2;
      assert WrapAxis(x, axis) == 0.0;
      assert (2 * k) as real * h == -(s as real) * h - h;
      CongruentBy(WrapAxis(x, axis), x + h, axis, k);
    } else {
      var k := -s / 2;
      assert WrapAxis(x, axis) == h;
      assert (2 * k) as real * h == -(s as real) * h;
      CongruentBy(WrapAxis(x, axis), x + h, axis, k);
    }
  }

  lemma WrapBelow(x: real, axis: Axis)
    requires x < -HalfPeriod(axis) && JsRem(x, axis) != 0.0
    ensures Congruent(WrapAxis(x, axis), x, 2.0 * HalfPeriod(axis))
  {
    var h := HalfPeriod(axis);
    var s := (x / h).Floor;
    var t := s + 1;
    assert x / h < 0.0 && s as real != x / h;
    JsRemByQuotient(x, axis, t);
    if s % 2 != 0 {
      var k := -t / 2;
      assert WrapAxis(x, axis) == x - (t as real) * h;
      assert (2 * k) as real * h == -(t as real) * h;
      CongruentBy(WrapAxis(x, axis), x, axis, k);
    } else {
      var k := -(t - 1) / 2;
      assert WrapAxis(x, axis) == x - (t as real) * h + h;
      assert (2 * k) as real * h == -(t as real) * h + h;
      CongruentBy(WrapAxis(x, axis), x, axis, k);
    }
  }

  /** The fold moves a coordinate by whole turns, so it names the same place,
      except for a negative exact multiple of the half period beyond the seam
      (-360 becomes 180, -540 becomes 0): there the result is half a turn away. */
  lemma WrapAxisCongruent(x: real, axis: Axis)
    ensures !(x < -HalfPeriod(axis) && JsRem(x, axis) == 0.0) ==>
              Congruent(WrapAxis(x, axis), x, 2.0 * HalfPeriod(axis))
    ensures x < -HalfPeriod(axis) && JsRem(x, axis) == 0.0 ==>
              Congruent(WrapAxis(x, axis), x + HalfPeriod(axis), 2.0 * HalfPeriod(axis))
  {
    var h := HalfPeriod(axis);
    if Abs(x) <= h {
      CongruentBy(WrapAxis(x, axis), x, axis, 0);
    } else if x > 0.0 {
      WrapAbove(x, axis);
    } else if JsRem(x, axis) == 0.0 {
      WrapBelowExact(x, axis);
    } else {
      WrapBelow(x, axis);
    }
  }

  /** The clamp applied to latitude when constrainY is set. */
  function ClampLatitude(y: real): (r: real)
    ensures -90.0 <= r <= 90.0
    ensures -90.0 <= y <= 90.0 ==> r == y
    ensures y > 90.0 ==> r == 90.0
    ensures y < -90.0 ==> r == -90.0
  {
    if y > 0.0 then (if 90.0 < y then 90.0 else y)
    else (if -90.0 > y then -90.0 else y)
  }

  // ---------------------------------------------------------------------
  // constrainCoordinates
  // ---------------------------------------------------------------------

  /** The argument is an array of exactly two numbers. */
  predicate IsNumberPair(coords: JsAny)
  {
    coords.Arr? && |coords.items| == 2 && coords.items[0].Num? && coords.items[1].Num?
  }

  function ConstrainCoordinates(coords: JsAny, constrainY: bool): (r: Completion<Point>)
    // `typeof null` is "object", so `null.length` throws
    ensures r == Threw <==> coords == JsNull
    ensures r.Returned? <==> IsNumberPair(coords)
    ensures r == ReturnedFalse <==> coords != JsNull && !IsNumberPair(coords)
    ensures r.Returned? ==> -180.0 <= r.value.lon <= 180.0 && -90.0 <= r.value.lat <= 90.0
    ensures r.Returned? && Abs(coords.items[0].n) <= 180.0 ==> r.value.lon == coords.items[0].n
    ensures r.Returned? && Abs(coords.items[1].n) <= 90.0 ==> r.value.lat == coords.items[1].n
    ensures r.Returned? && constrainY ==> r.value.lat == ClampLatitude(coords.items[1].n)
  {
    if coords == JsNull then Threw
    else if !IsNumberPair(coords) then ReturnedFalse
    else
      var x := coords.items[0].n;
      var y := coords.items[1].n;
      Returned(Point(WrapAxis(x, Longitude),
                     if constrainY then ClampLatitude(y) else WrapAxis(y, Latitude)))
  }

  /** The pair array passed on to constrainCoordinates for a point. */
  function PairOf(p: Point): JsAny { Arr([Num(p.lon), Num(p.lat)]) }

  /** Constraining an already constrained pair changes nothing. */
  lemma ConstrainIdempotent(coords: JsAny, constrainY: bool)
    requires ConstrainCoordinates(coords, constrainY).Returned?
    ensures ConstrainCoordinates(PairOf(ConstrainCoordinates(coords, constrainY).value), constrainY)
            == ConstrainCoordinates(coords, constrainY)
  {
  }

  lemma ConstrainExamples()
    ensures ConstrainCoordinates(PairOf(Point(200.0, 100.0)), true) == Returned(Point(-160.0, 90.0))
    ensures ConstrainCoordinates(PairOf(Point(-200.0, -100.0)), true) == Returned(Point(160.0, -90.0))
    ensures ConstrainCoordinates(PairOf(Point(170.0, 45.0)), true) == Returned(Point(170.0, 45.0))
    ensures ConstrainCoordinates(PairOf(Point(0.0, 100.0)), false) == Returned(Point(0.0, -80.0))
    ensures ConstrainCoordinates(PairOf(Point(-360.0, 0.0)), true) == Returned(Point(180.0, 0.0))
    ensures ConstrainCoordinates(Arr([Num(1.0)]), true) == ReturnedFalse
  {
    assert (200.0 / 180.0).Floor == 1;
    assert (-200.0 / 180.0).Floor == -2;
    assert (100.0 / 90.0).Floor == 1;
    assert (-360.0 / 180.0).Floor == -2;
  }

  // ---------------------------------------------------------------------
  // deconstrainArcCoordinates
  // ---------------------------------------------------------------------

  /** What deconstrainArcCoordinates hands back: with fewer than two pieces
      the input array itself, otherwise the single joined line. */
  datatype Stitched = Unsplit(pieces: seq<Line>) | Joined(line: Line)

  function ShiftLon(p: Point, delta: real): Point { p.(lon := p.lon + delta) }

  function ShiftLine(line: Line, delta: real): (r: Line)
    ensures |r| == |line|
    ensures forall i :: 0 <= i < |line| ==> r[i] == ShiftLon(line[i], delta)
  {
    seq(|line|, i requires 0 <= i < |line| => ShiftLon(line[i], delta))
  }

  /** The shift a later piece receives, from the longitude the first piece
      ends at and the longitude the later piece starts at. */
  function SeamShift(referenceEnd: real, lineStart: real): (d: real)
    ensures d == -360.0 <==> referenceEnd <= 0.0 && lineStart >= 0.0
    ensures d == 360.0 <==> referenceEnd > 0.0 && lineStart <= 0.0
    ensures d == 0.0 <==> (referenceEnd <= 0.0 && lineStart < 0.0) || (referenceEnd > 0.0 && lineStart > 0.0)
  {
    if referenceEnd <= 0.0 then (if lineStart >= 0.0 then -360.0 else 0.0)
    else (if lineStart <= 0.0 then 360.0 else 0.0)
  }

  predicate AllNonEmpty(lines: seq<Line>)
  {
    forall i :: 0 <= i < |lines| ==> |lines[i]| > 0
  }

  /** What one later piece contributes: all its points but the first, which
      repeats the previous piece's end, shifted as one. */
  function Tail(referenceEnd: real, line: Line): Line
    requires |line| > 0
  {
    ShiftLine(line, SeamShift(referenceEnd, line[0].lon))[1..]
  }

  /** The contributions of the later pieces, in order, all against the same
      reference end. */
  function JoinTails(referenceEnd: real, lines: seq<Line>): Line
    requires AllNonEmpty(lines)
  {
    if lines == [] then []
    else JoinTails(referenceEnd, lines[..|lines| - 1]) + Tail(referenceEnd, lines[|lines| - 1])
  }

  function LastLon(line: Line): real
    requires |line| > 0
  {
    line[|line| - 1].lon
  }

  /** The value deconstrainArcCoordinates computes. */
  function Deconstrained(lines: seq<Line>): Stitched
    requires |lines| >= 2 ==> AllNonEmpty(lines)
  {
    if |lines| < 2 then Unsplit(lines)
    else Joined(lines[0] + JoinTails(LastLon(lines[0]), lines[1..]))
  }

  /** One pass of the loop: the line's points after the first, moved by a
      whole turn when it starts on the other side of 0 from the reference
      end, appended to the line so far. */
  method AppendShifted(deconstrainedLine: Line, referenceLineEnd: Point, line: Line) returns (next: Line)
    requires |line| > 0
    ensures next == deconstrainedLine + Tail(referenceLineEnd.lon, line)
  {
    var lineStart := line[0];
    TailByBranch(referenceLineEnd.lon, line);
    if referenceLineEnd.lon <= 0.0 {
      if lineStart.lon >= 0.0 {
        var shiftedLine := ShiftLine(line, -360.0);
        // remove the first point, which repeats the previous end
        next := deconstrainedLine + shiftedLine[1..];
      } else {
        next := deconstrainedLine + line[1..];
      }
    } else {
      if lineStart.lon <= 0.0 {
        var shiftedLine := ShiftLine(line, 360.0);
        next := deconstrainedLine + shiftedLine[1..];
      } else {
        next := deconstrainedLine + line[1..];
      }
    }
  }

  method DeconstrainArcCoordinates(linesArr: seq<Line>) returns (r: Stitched)
    requires |linesArr| >= 2 ==> AllNonEmpty(linesArr)
    ensures r == Deconstrained(linesArr)
  {
    if |linesArr| < 2 {
      return Unsplit(linesArr);
    }
    var referenceLine := linesArr[0];
    var referenceLineEnd := referenceLine[|referenceLine| - 1];
    var deconstrainedLine := linesArr[0];
    var i := 1;
    while i < |linesArr|
      invariant 1 <= i <= |linesArr|
      invariant deconstrainedLine == linesArr[0] + JoinTails(referenceLineEnd.lon, linesArr[1..i])
    {
      JoinTailsStep(referenceLineEnd.lon, linesArr, i);
      deconstrainedLine := AppendShifted(deconstrainedLine, referenceLineEnd, linesArr[i]);
      i := i + 1;
    }
    assert linesArr[1..i] == linesArr[1..];
    return Joined(deconstrainedLine);
  }

  /** One more pass of the loop appends the next piece's contribution. */
  lemma JoinTailsStep(referenceEnd: real, lines: seq<Line>, i: nat)
    requires 1 <= i < |lines| && AllNonEmpty(lines)
    ensures JoinTails(referenceEnd, lines[1..i + 1]) == JoinTails(referenceEnd, lines[1..i]) + Tail(referenceEnd, lines[i])
  {
    assert lines[1..i + 1][..i - 1] == lines[1..i];
  }

  /** The four branches of the loop body each compute the piece's `Tail`. */
  lemma TailByBranch(referenceEnd: real, line: Line)
    requires |line| > 0
    ensures referenceEnd <= 0.0 && line[0].lon >= 0.0 ==> Tail(referenceEnd, line) == ShiftLine(line, -360.0)[1..]
    ensures referenceEnd <= 0.0 && line[0].lon < 0.0 ==> Tail(referenceEnd, line) == line[1..]
    ensures referenceEnd > 0.0 && line[0].lon <= 0.0 ==> Tail(referenceEnd, line) == ShiftLine(line, 360.0)[1..]
    ensures referenceEnd > 0.0 && line[0].lon > 0.0 ==> Tail(referenceEnd, line) == line[1..]
  {
    assert ShiftLine(line, 0.0) == line;
  }

  /** The number of points the later pieces contribute: each loses one. */
  function TailCount(lines: seq<Line>): (n: int)
    requires AllNonEmpty(lines)
    ensures n >= 0
  {
    if lines == [] then 0 else TailCount(lines[..|lines| - 1]) + |lines[|lines| - 1]| - 1
  }

  lemma {:induction false} JoinTailsLength(referenceEnd: real, lines: seq<Line>)
    requires AllNonEmpty(lines)
    ensures |JoinTails(referenceEnd, lines)| == TailCount(lines)
  {
    if lines != [] {
      JoinTailsLength(referenceEnd, lines[..|lines| - 1]);
    }
  }

  /** Point k (k >= 1) of later piece j lands at TailCount of the pieces
      before it plus k - 1, moved by that piece's seam shift; its latitude is
      kept. */
  lemma {:induction false} JoinTailsAt(referenceEnd: real, lines: seq<Line>, j: nat, k: nat)
    requires AllNonEmpty(lines)
    requires j < |lines| && 1 <= k < |lines[j]|
    ensures TailCount(lines[..j]) + k - 1 < |JoinTails(referenceEnd, lines)|
    ensures JoinTails(referenceEnd, lines)[TailCount(lines[..j]) + k - 1]
            == Point(lines[j][k].lon + SeamShift(referenceEnd, lines[j][0].lon), lines[j][k].lat)
  {
    var n := |lines| - 1;
    var front := lines[..n];
    JoinTailsLength(referenceEnd, front);
    JoinTailsLength(referenceEnd, lines);
    if j == n {
      assert lines[..j] == front;
    } else {
      assert front[..j] == lines[..j];
      JoinTailsAt(referenceEnd, front, j, k);
      TailCountPrefixBound(front, j);
    }
  }

  lemma {:induction false} TailCountPrefixBound(lines: seq<Line>, j: nat)
    requires AllNonEmpty(lines) && j < |lines|
    ensures TailCount(lines[..j]) + |lines[j]| - 1 <= TailCount(lines)
  {
    var n := |lines| - 1;
    if j < n {
      assert lines[..n][..j] == lines[..j];
      TailCountPrefixBound(lines[..n], j);
    } else {
      assert lines[..j] == lines[..n];
    }
  }

  /** The joined line keeps the first piece verbatim as a prefix and has
      |first| + sum of (|piece| - 1) over the later pieces points. */
  lemma DeconstrainedShape(lines: seq<Line>)
    requires |lines| >= 2 && AllNonEmpty(lines)
    ensures Deconstrained(lines).Joined?
    ensures |Deconstrained(lines).line| == |lines[0]| + TailCount(lines[1..])
    ensures Deconstrained(lines).line[..|lines[0]|] == lines[0]
  {
    JoinTailsLength(LastLon(lines[0]), lines[1..]);
  }

  /** Two pieces split at the antimeridian join into one line whose
      longitudes keep increasing past 180, with the join point kept once. */
  lemma DeconstrainedSeamExample()
    ensures Deconstrained([[Point(170.0, 0.0), Point(179.0, 0.0)],
                           [Point(-179.0, 0.0), Point(-170.0, 0.0)]])
            == Joined([Point(170.0, 0.0), Point(179.0, 0.0), Point(190.0, 0.0)])
  {
    var second := [Point(-179.0, 0.0), Point(-170.0, 0.0)];
    assert ShiftLine(second, 360.0)[1..] == [Point(190.0, 0.0)];
    var later := [second];
    assert later[..0] == [];
  }
}
