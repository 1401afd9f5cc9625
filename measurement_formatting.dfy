/** Display strings for measurements (MapUtil.formatNumber, formatDistance,
    formatArea and formatMeasurement): a unit is chosen by threshold, the
    number is rendered with thousands separators, and the unit label follows. */
module MeasurementFormatting {
  import opened JsValues

  datatype MeasurementType = Distance | Area | OtherMeasurement

  // ---------------------------------------------------------------------
  // Thousands grouping (formatNumber)
  // ---------------------------------------------------------------------

  predicate IsDigit(c: char) { '0' <= c <= '9' }

  predicate AllDigits(s: string)
  {
    forall i :: 0 <= i < |s| ==> IsDigit(s[i])
  }

  /** The integer part with "," inserted before every complete group of three
      digits counted from the right, as the replacement of
      /\B(?=(\d{3})+(?!\d))/g does on a run of digits. */
  function GroupThousands(digits: string): string
    decreases |digits|
  {
    if |digits| <= 3 then digits
    else GroupThousands(digits[..|digits| - 3]) + "," + digits[|digits| - 3..]
  }

  function RemoveCommas(s: string): string
  {
    if s == [] then []
    else RemoveCommas(s[..|s| - 1]) + (if s[|s| - 1] == ',' then [] else [s[|s| - 1]])
  }

  lemma {:induction false} RemoveCommasAppend(a: string, b: string)
    ensures RemoveCommas(a + b) == RemoveCommas(a) + RemoveCommas(b)
    decreases |b|
  {
    if b != [] {
      var b' := b[..|b| - 1];
      assert (a + b)[..|a + b| - 1] == a + b';
      RemoveCommasAppend(a, b');
    } else {
      assert a + b == a;
    }
  }

  lemma {:induction false} RemoveCommasOfDigits(s: string)
    requires AllDigits(s)
    ensures RemoveCommas(s) == s
  {
    if s != [] {
      RemoveCommasOfDigits(s[..|s| - 1]);
    }
  }

  /** Deleting the separators gives the digits back. */
  lemma {:induction false} GroupingRoundTrip(digits: string)
    requires AllDigits(digits)
    ensures RemoveCommas(GroupThousands(digits)) == digits
    decreases |digits|
  {
    if |digits| <= 3 {
      RemoveCommasOfDigits(digits);
    } else {
      var front, back := digits[..|digits| - 3], digits[|digits| - 3..];
      GroupingRoundTrip(front);
      RemoveCommasAppend(GroupThousands(front) + ",", back);
      RemoveCommasAppend(GroupThousands(front), ",");
      assert RemoveCommas(",") == [];
      RemoveCommasOfDigits(back);
      assert front + back == digits;
    }
  }

  lemma {:induction false} GroupedLength(digits: string)
    requires |digits| > 0
    ensures |GroupThousands(digits)| == |digits| + (|digits| - 1) / 3
    decreases |digits|
  {
    if |digits| > 3 {
      GroupedLength(digits[..|digits| - 3]);
    }
  }

  lemma {:induction false} GroupedAt(digits: string, k: nat)
    requires AllDigits(digits) && k < |GroupThousands(digits)|
    ensures GroupThousands(digits)[k] == ',' <==> 0 < k && (|GroupThousands(digits)| - k) % 4 == 0
    ensures GroupThousands(digits)[k] != ',' ==> IsDigit(GroupThousands(digits)[k])
    decreases |digits|
  {
    var g := GroupThousands(digits);
    if |digits| > 3 {
      var front, back := digits[..|digits| - 3], digits[|digits| - 3..];
      var gf := GroupThousands(front);
      assert g == gf + "," + back;
      if k < |gf| {
        GroupedAt(front, k);
        assert g[k] == gf[k];
      } else if k > |gf| {
        assert g[k] == back[k - |gf| - 1];
      }
    } else {
      assert IsDigit(digits[k]);
    }
  }

  /** A separator stands exactly at every fourth position counted from the
      right end (never first): the leading group has one to three digits and
      every later group exactly three. */
  lemma GroupingShape(digits: string)
    requires AllDigits(digits) && |digits| > 0
    ensures |GroupThousands(digits)| == |digits| + (|digits| - 1) / 3
    ensures forall k :: 0 <= k < |GroupThousands(digits)| ==>
              (GroupThousands(digits)[k] == ',' <==> 0 < k && (|GroupThousands(digits)| - k) % 4 == 0)
    ensures forall k :: 0 <= k < |GroupThousands(digits)| && GroupThousands(digits)[k] != ',' ==>
              IsDigit(GroupThousands(digits)[k])
  {
    GroupedLength(digits);
    forall k | 0 <= k < |GroupThousands(digits)|
      ensures GroupThousands(digits)[k] == ',' <==> 0 < k && (|GroupThousands(digits)| - k) % 4 == 0
      ensures GroupThousands(digits)[k] != ',' ==> IsDigit(GroupThousands(digits)[k])
    {
      GroupedAt(digits, k);
    }
  }

  /** formatNumber with trim off: the fixed-decimal rendering with its integer
      digits grouped. The regex leaves a leading "-" alone, since the position
      after it is a word boundary. */
  function FormatNumber(fixed: FixedDecimal): string
  {
    (if fixed.negative then "-" else "")
    + GroupThousands(fixed.whole)
    + (if fixed.fraction == "" then "" else "." + fixed.fraction)
  }

  lemma {:induction false} RemoveCommasWithout(s: string)
    requires ',' !in s
    ensures RemoveCommas(s) == s
  {
    if s != [] {
      RemoveCommasWithout(s[..|s| - 1]);
    }
  }

  /** The part after the integer digits: empty, or the point and the fraction. */
  function FractionPart(fixed: FixedDecimal): string
  {
    if fixed.fraction == "" then "" else "." + fixed.fraction
  }

  function SignPart(fixed: FixedDecimal): string
  {
    if fixed.negative then "-" else ""
  }

  lemma FormatNumberParts(fixed: FixedDecimal)
    ensures FormatNumber(fixed) == SignPart(fixed) + GroupThousands(fixed.whole) + FractionPart(fixed)
    ensures fixed.Text() == SignPart(fixed) + fixed.whole + FractionPart(fixed)
  {
  }

  lemma FormatNumberRoundTrip(fixed: FixedDecimal)
    requires AllDigits(fixed.whole) && AllDigits(fixed.fraction)
    ensures RemoveCommas(FormatNumber(fixed)) == fixed.Text()
  {
    var sign, tail := SignPart(fixed), FractionPart(fixed);
    FormatNumberParts(fixed);
    assert ',' !in tail by {
      if fixed.fraction != "" {
        assert forall i :: 1 <= i < |tail| ==> tail[i] == fixed.fraction[i - 1];
      }
    }
    RemoveCommasWithout(sign);
    RemoveCommasWithout(tail);
    GroupingRoundTrip(fixed.whole);
    RemoveCommasAppend(sign, GroupThousands(fixed.whole));
    RemoveCommasAppend(sign + GroupThousands(fixed.whole), tail);
  }

  lemma FormatNumberSign(fixed: FixedDecimal)
    requires AllDigits(fixed.whole)
    ensures |FormatNumber(fixed)| > 0 && FormatNumber(fixed)[0] == '-' <==> fixed.negative
  {
    FormatNumberParts(fixed);
    if |fixed.whole| > 0 {
      GroupedLength(fixed.whole);
      GroupedAt(fixed.whole, 0);
      if !fixed.negative {
        assert FormatNumber(fixed)[0] == GroupThousands(fixed.whole)[0];
      }
    } else if !fixed.negative && fixed.fraction != "" {
      assert FormatNumber(fixed)[0] == '.';
    }
  }

  lemma FormatNumberLength(fixed: FixedDecimal)
    requires |fixed.whole| > 0
    ensures |FormatNumber(fixed)| == |fixed.Text()| + (|fixed.whole| - 1) / 3
  {
    FormatNumberParts(fixed);
    GroupedLength(fixed.whole);
  }

  /** formatNumber only inserts separators into the rendering toFixed
      returns: deleting them gives that rendering back, the sign stays in
      front, and a nonempty integer part of n digits gains (n - 1) / 3 of
      them. */
  lemma FormatNumberSpec(fixed: FixedDecimal)
    requires AllDigits(fixed.whole) && AllDigits(fixed.fraction)
    ensures RemoveCommas(FormatNumber(fixed)) == fixed.Text()
    ensures |FormatNumber(fixed)| > 0 && FormatNumber(fixed)[0] == '-' <==> fixed.negative
    ensures |fixed.whole| > 0 ==>
              |FormatNumber(fixed)| == |fixed.Text()| + (|fixed.whole| - 1) / 3
  {
    FormatNumberRoundTrip(fixed);
    FormatNumberSign(fixed);
    if |fixed.whole| > 0 {
      FormatNumberLength(fixed);
    }
  }

  lemma FormatNumberExamples()
    ensures FormatNumber(FixedDecimal(false, "1234", "50")) == "1,234.50"
    ensures FormatNumber(FixedDecimal(true, "1234567", "00")) == "-1,234,567.00"
    ensures FormatNumber(FixedDecimal(false, "999", "00")) == "999.00"
  {
    assert GroupThousands("1234") == "1,234";
    assert GroupThousands("1") == "1";
    assert GroupThousands("1234567") == "1,234,567";
  }

  // ---------------------------------------------------------------------
  // Unit choice
  // ---------------------------------------------------------------------

  /** A number in the unit it is displayed in. */
  datatype Scaled = Scaled(number: real, unitsStr: string)

  predicate KnownUnits(units: string)
  {
    units == "metric" || units == "imperial" || units == "nautical" || units == "schoolbus"
  }

  /** Size of one displayed distance unit in the unit the value arrives in. */
  function DistanceFactor(unitsStr: string): real
  {
    if unitsStr == "km" then 1000.0 else if unitsStr == "mi" then 5280.0 else 1.0
  }

  function DistanceScale(distance: real, units: string): (r: Option<Scaled>)
    ensures r.None? <==> !KnownUnits(units)
    ensures r.Some? ==> r.value.number * DistanceFactor(r.value.unitsStr) == distance
    ensures units == "metric" ==> r.value.unitsStr == (if Abs(distance) >= 1000.0 then "km" else "m")
    ensures units == "imperial" ==> r.value.unitsStr == (if Abs(distance) >= 5280.0 then "mi" else "ft")
    ensures units == "nautical" ==> r == Some(Scaled(distance, "nmi"))
    ensures units == "schoolbus" ==> r == Some(Scaled(distance, "school buses"))
  {
    if units == "metric" then
      if Abs(distance) >= 1000.0 then Some(Scaled(distance / 1000.0, "km"))
      else Some(Scaled(distance, "m"))
    else if units == "imperial" then
      if Abs(distance) >= 5280.0 then Some(Scaled(distance / 5280.0, "mi"))
      else Some(Scaled(distance, "ft"))
    else if units == "nautical" then Some(Scaled(distance, "nmi"))
    else if units == "schoolbus" then Some(Scaled(distance, "school buses"))
    else None
  }

  const Squared := "<sup>2</sup>"

  predicate EndsSquared(unitsStr: string)
  {
    |unitsStr| >= |Squared| && unitsStr[|unitsStr| - |Squared|..] == Squared
  }

  /** Size of one displayed area unit in the unit the value arrives in. */
  function AreaFactor(unitsStr: string): real
  {
    if unitsStr == "km" + Squared then 1000000.0
    else if unitsStr == "mi" + Squared then 27878400.0
    else 1.0
  }

  function AreaScale(area: real, units: string): (r: Option<Scaled>)
    ensures r.None? <==> !KnownUnits(units)
    ensures r.Some? ==> r.value.number * AreaFactor(r.value.unitsStr) == area
    ensures r.Some? ==> EndsSquared(r.value.unitsStr)
    ensures units == "metric" ==>
              r.value.unitsStr == (if Abs(area) >= 1000000.0 then "km" else "m") + Squared
    ensures units == "imperial" ==>
              r.value.unitsStr == (if Abs(area) >= 27878400.0 then "mi" else "ft") + Squared
    ensures units == "nautical" ==> r == Some(Scaled(area, "nmi" + Squared))
    ensures units == "schoolbus" ==> r == Some(Scaled(area, "school buses" + Squared))
  {
    if units == "metric" then
      if Abs(area) >= 1000000.0 then Some(Scaled(area / 1000000.0, "km" + Squared))
      else Some(Scaled(area, "m" + Squared))
    else if units == "imperial" then
      if Abs(area) >= 27878400.0 then Some(Scaled(area / 27878400.0, "mi" + Squared))
      else Some(Scaled(area, "ft" + Squared))
    else if units == "nautical" then Some(Scaled(area, "nmi" + Squared))
    else if units == "schoolbus" then Some(Scaled(area, "school buses" + Squared))
    else None
  }

  lemma SquareThreshold(side: real, bound: real)
    requires side >= 0.0 && bound > 0.0
    ensures side >= bound <==> side * side >= bound * bound
  {
    var a, b, c := side * side, side * bound, bound * bound;
    if side >= bound {
      assert c <= b by { assert side * bound - bound * bound == (side - bound) * bound; }
      assert b <= a by { assert side * side - side * bound == side * (side - bound); }
    } else {
      assert a <= b by { assert side * bound - side * side == side * (bound - side); }
      assert b < c by { assert bound * bound - side * bound == (bound - side) * bound; }
    }
  }

  /** The area thresholds are the squares of the distance thresholds: a square
      of a given side is shown in the square of the unit its side is shown in,
      as the square of the side's number. */
  lemma AreaOfSquareMatchesSide(side: real, units: string)
    requires side >= 0.0 && KnownUnits(units)
    ensures AreaScale(side * side, units).value.unitsStr == DistanceScale(side, units).value.unitsStr + Squared
    ensures AreaScale(side * side, units).value.number
            == DistanceScale(side, units).value.number * DistanceScale(side, units).value.number
  {
    SquareThreshold(side, 1000.0);
    SquareThreshold(side, 5280.0);
    if units == "metric" && side >= 1000.0 {
      assert (side * side) / 1000000.0 == (side / 1000.0) * (side / 1000.0);
    } else if units == "imperial" && side >= 5280.0 {
      assert (side * side) / 27878400.0 == (side / 5280.0) * (side / 5280.0);
    }
  }

  // ---------------------------------------------------------------------
  // formatDistance, formatArea, formatMeasurement
  // ---------------------------------------------------------------------

  /** Number, a space, then the unit label. */
  function Display(b: Builtins, s: Scaled): string
  {
    FormatNumber(b.toFixed(s.number, 2)) + " " + s.unitsStr
  }

  function FormatDistance(b: Builtins, distance: JsAny, units: string): (r: Completion<string>)
    ensures r.Returned? || r == ReturnedNull
    ensures r == ReturnedNull <==> !distance.Num? || !KnownUnits(units)
    ensures r.Returned? ==> r.value == Display(b, DistanceScale(distance.n, units).value)
  {
    if !distance.Num? then ReturnedNull
    else
      match DistanceScale(distance.n, units)
      case None => ReturnedNull
      case Some(s) => Returned(Display(b, s))
  }

  function FormatArea(b: Builtins, area: JsAny, units: string): (r: Completion<string>)
    ensures r.Returned? || r == ReturnedNull
    ensures r == ReturnedNull <==> !area.Num? || !KnownUnits(units)
    ensures r.Returned? ==> r.value == Display(b, AreaScale(area.n, units).value)
  {
    if !area.Num? then ReturnedNull
    else
      match AreaScale(area.n, units)
      case None => ReturnedNull
      case Some(s) => Returned(Display(b, s))
  }

  function FormatMeasurement(b: Builtins, measurement: JsAny, measurementType: MeasurementType, units: string)
    : (r: Completion<string>)
    ensures measurementType == Distance ==> r == FormatDistance(b, measurement, units)
    ensures measurementType == Area ==> r == FormatArea(b, measurement, units)
    ensures measurementType == OtherMeasurement ==> r == ReturnedFalse
  {
    if measurementType == Distance then FormatDistance(b, measurement, units)
    else if measurementType == Area then FormatArea(b, measurement, units)
    else ReturnedFalse
  }

  /** formatDistance(1500, "metric") shows kilometres and
      formatDistance(999, "metric") metres, given toFixed's renderings. */
  lemma FormatDistanceExamples(b: Builtins)
    requires b.toFixed(1.5, 2) == FixedDecimal(false, "1", "50")
    requires b.toFixed(999.0, 2) == FixedDecimal(false, "999", "00")
    ensures FormatDistance(b, Num(1500.0), "metric") == Returned("1.50 km")
    ensures FormatDistance(b, Num(999.0), "metric") == Returned("999.00 m")
    ensures FormatDistance(b, Num(5.0), "bogus") == ReturnedNull
    ensures FormatDistance(b, Str("5"), "metric") == ReturnedNull
  {
    assert 1500.0 / 1000.0 == 1.5;
    assert DistanceScale(1500.0, "metric") == Some(Scaled(1.5, "km"));
    assert FormatNumber(FixedDecimal(false, "1", "50")) == "1.50";
    assert Display(b, Scaled(1.5, "km")) == "1.50 km";
    assert DistanceScale(999.0, "metric") == Some(Scaled(999.0, "m"));
    assert FormatNumber(FixedDecimal(false, "999", "00")) == "999.00";
    assert Display(b, Scaled(999.0, "m")) == "999.00 m";
  }
}
