/**
 The unit converter: a value in one time unit expressed in another through
 the unit table `TIME_UNITS`, and the breakdown of a number of days into
 whole years, whole months and rounded days. Amounts are exact reals; the
 average month and year lengths are the Gregorian ones.
 */
module Units {
  import opened JsRuntime

  datatype UnitId = Seconds | Minutes | Hours | Days | Weeks | Months | Years

  /** A row of the unit table: a unit and its length in seconds. */
  datatype TimeUnit = TimeUnit(id: UnitId, seconds: real)

  /** The average Gregorian month, `365.2425 / 12` days. */
  const DaysPerMonth: real := 30.436875
  /** The average Gregorian year. */
  const DaysPerYear: real := 365.2425

  /** Twelve average months make an average year exactly. */
  lemma TwelveMonths()
    ensures 12.0 * DaysPerMonth == DaysPerYear
  {
  }

  /** `TIME_UNITS`, in the order the selector lists them. */
  const TimeUnits: seq<TimeUnit> := [
    TimeUnit(Seconds, 1.0),
    TimeUnit(Minutes, 60.0),
    TimeUnit(Hours, 60.0 * 60.0),
    TimeUnit(Days, 60.0 * 60.0 * 24.0),
    TimeUnit(Weeks, 60.0 * 60.0 * 24.0 * 7.0),
    TimeUnit(Months, 60.0 * 60.0 * 24.0 * DaysPerMonth),
    TimeUnit(Years, 60.0 * 60.0 * 24.0 * DaysPerYear)
  ]

  /** The length of each unit in seconds, written out independently of the table. */
  function UnitSeconds(id: UnitId): (s: real)
    ensures s >= 1.0
  {
    match id
    case Seconds => 1.0
    case Minutes => 60.0
    case Hours => 3600.0
    case Days => 86400.0
    case Weeks => 604800.0
    case Months => 2629746.0
    case Years => 31556952.0
  }

  /** `units.find((unit) => unit.id === id)`: the first row with that id. */
  function Find(units: seq<TimeUnit>, id: UnitId): (r: Option<TimeUnit>)
    ensures r.Some? ==> r.value.id == id
    ensures r.Some? <==> exists i :: 0 <= i < |units| && units[i].id == id
    ensures r.Some? ==> exists i :: 0 <= i < |units| && units[i] == r.value
                                  && forall j :: 0 <= j < i ==> units[j].id != id
  {
    FindFrom(units, id, 0)
  }

  /** The first row with that id at position `start` or later. */
  function FindFrom(units: seq<TimeUnit>, id: UnitId, start: nat): (r: Option<TimeUnit>)
    requires start <= |units|
    ensures r.Some? ==> exists i :: start <= i < |units| && units[i] == r.value
                                  && forall j :: start <= j < i ==> units[j].id != id
    ensures r.Some? ==> r.value.id == id
    ensures r.None? ==> forall i :: start <= i < |units| ==> units[i].id != id
    decreases |units| - start
  {
    if start == |units| then None
    else if units[start].id == id then Some(units[start])
    else FindFrom(units, id, start + 1)
  }

  /** The table has exactly one row per unit, and the row's length is the one
      `UnitSeconds` states. */
  lemma TableRows(id: UnitId)
    ensures Find(TimeUnits, id) == Some(TimeUnit(id, UnitSeconds(id)))
  {
    var k := match id
      case Seconds => 0 case Minutes => 1 case Hours => 2 case Days => 3
      case Weeks => 4 case Months => 5 case Years => 6;
    assert TimeUnits[k] == TimeUnit(id, UnitSeconds(id));
    TableIdsDistinct();
    var r := FindFrom(TimeUnits, id, 0);
    assert r.Some?;
    var i :| 0 <= i < |TimeUnits| && TimeUnits[i] == r.value;
    assert i == k;
  }

  /** No id appears twice in the table. */
  lemma TableIdsDistinct()
    ensures forall i, j :: 0 <= i < j < |TimeUnits| ==> TimeUnits[i].id != TimeUnits[j].id
  {
  }

  /** What the converter holds: the converted amount (`None` where the page
      shows a dash), the amount in seconds, the number read from the input
      (`None` for NaN), and whether the input was a number. */
  datatype Conversion = Conversion(result: Option<real>, seconds: real,
                                   numericValue: Option<real>, valid: bool)

  /** Scaling `v` units `from` into units `to` through seconds. */
  function Through(v: real, from: TimeUnit, to: TimeUnit): (c: Conversion)
    requires to.seconds != 0.0
    ensures c.valid && c.numericValue == Some(v) && c.result.Some?
    ensures c.seconds == v * from.seconds
    ensures c.result.value * to.seconds == c.seconds
  {
    var seconds := v * from.seconds;
    Conversion(Some(seconds / to.seconds), seconds, Some(v), true)
  }

  /** The `conversion` computation once the input is a finite number: look
      both units up in the table and scale through seconds. */
  function Scale(numericValue: real, fromUnit: UnitId, toUnit: UnitId): (c: Conversion)
    ensures c == Through(numericValue, TimeUnit(fromUnit, UnitSeconds(fromUnit)),
                         TimeUnit(toUnit, UnitSeconds(toUnit)))
  {
    var from := Find(TimeUnits, fromUnit);
    var to := Find(TimeUnits, toUnit);
    TableRows(fromUnit);
    TableRows(toUnit);
    if from.None? || to.None? then
      assert false;
      Conversion(None, 0.0, Some(numericValue), false)
    else
      Through(numericValue, from.value, to.value)
  }

  /** A finite number scales to the amount in seconds and from there to the
      target unit. */
  lemma ScaleSeconds(v: real, fromUnit: UnitId, toUnit: UnitId)
    ensures var c := Scale(v, fromUnit, toUnit);
            && c.valid && c.numericValue == Some(v) && c.result.Some?
            && c.seconds == v * UnitSeconds(fromUnit)
            && c.result.value * UnitSeconds(toUnit) == c.seconds
  {
    ThroughUnits(Scale(v, fromUnit, toUnit), v, fromUnit, toUnit);
  }

  /** Scaling through the rows of two units multiplies by their second counts. */
  lemma ThroughUnits(c: Conversion, v: real, fromUnit: UnitId, toUnit: UnitId)
    requires c == Through(v, TimeUnit(fromUnit, UnitSeconds(fromUnit)), TimeUnit(toUnit, UnitSeconds(toUnit)))
    ensures c.valid && c.numericValue == Some(v) && c.result.Some?
    ensures c.seconds == v * UnitSeconds(fromUnit) && c.result.value * UnitSeconds(toUnit) == c.seconds
  {
    var from, to := TimeUnit(fromUnit, UnitSeconds(fromUnit)), TimeUnit(toUnit, UnitSeconds(toUnit));
    assert from.seconds == UnitSeconds(fromUnit) && to.seconds == UnitSeconds(toUnit);
  }

  /** The `conversion` computation: read the input with a decimal comma
      allowed; anything that is not a number gives the dash and zero seconds. */
  function Convert(value: string, fromUnit: UnitId, toUnit: UnitId): (c: Conversion)
    ensures c.numericValue == ParseNumber(ReplaceFirst(value, ',', '.'))
    ensures c.valid <==> c.numericValue.Some?
    ensures !c.valid ==> c.result.None? && c.seconds == 0.0
    ensures c.valid ==> c == Scale(c.numericValue.value, fromUnit, toUnit)
  {
    match ParseNumber(ReplaceFirst(value, ',', '.'))
    case None => Conversion(None, 0.0, None, false)
    case Some(v) => Scale(v, fromUnit, toUnit)
  }

  /** Converting a unit to itself gives back the number. */
  lemma ScaleIdentity(v: real, unit: UnitId)
    ensures Scale(v, unit, unit).result == Some(v)
  {
  }

  /** A readable input converted to its own unit comes back as the number read. */
  lemma ConvertIdentity(value: string, unit: UnitId)
    ensures var c := Convert(value, unit, unit);
            c.valid ==> c.result == c.numericValue
  {
    var c := Convert(value, unit, unit);
    if c.valid {
      ScaleIdentity(c.numericValue.value, unit);
    }
  }

  /** Converting through an intermediate unit is the same as converting
      directly. */
  lemma ScaleCompose(v: real, first: UnitId, middle: UnitId, last: UnitId)
    ensures var step := Scale(v, first, middle).result.value;
            Scale(step, middle, last).result == Scale(v, first, last).result
  {
    ScaleSeconds(v, first, middle);
    var step := Scale(v, first, middle).result.value;
    ScaleSeconds(step, middle, last);
    ScaleSeconds(v, first, last);
    assert Scale(step, middle, last).seconds == Scale(v, first, middle).seconds == Scale(v, first, last).seconds;
    CancelFactor(Scale(step, middle, last).result.value, Scale(v, first, last).result.value, UnitSeconds(last));
  }

  /** Converting there and back returns the original amount. */
  lemma ScaleRoundTrip(v: real, fromUnit: UnitId, toUnit: UnitId)
    ensures var there := Scale(v, fromUnit, toUnit).result.value;
            Scale(there, toUnit, fromUnit).result == Some(v)
  {
    ScaleSeconds(v, fromUnit, toUnit);
    var there := Scale(v, fromUnit, toUnit).result.value;
    ScaleSeconds(there, toUnit, fromUnit);
    var back := Scale(there, toUnit, fromUnit).result.value;
    CancelFactor(back, v, UnitSeconds(fromUnit));
  }

  /** Into a unit at least as long, a non-negative amount does not grow. */
  lemma ScaleToLongerUnit(v: real, fromUnit: UnitId, toUnit: UnitId)
    requires UnitSeconds(fromUnit) <= UnitSeconds(toUnit) && v >= 0.0
    ensures 0.0 <= Scale(v, fromUnit, toUnit).result.value <= v
  {
    ScaleSeconds(v, fromUnit, toUnit);
    ConversionNoGrowth(Scale(v, fromUnit, toUnit), v, UnitSeconds(fromUnit), UnitSeconds(toUnit));
  }

  lemma ConversionNoGrowth(c: Conversion, v: real, a: real, b: real)
    requires 0.0 < a <= b && v >= 0.0
    requires c.result.Some? && c.seconds == v * a && c.result.value * b == c.seconds
    ensures 0.0 <= c.result.value <= v
  {
    NoGrowth(c.result.value, v, a, b);
  }

  lemma CancelFactor(x: real, y: real, a: real)
    requires a > 0.0 && x * a == y * a
    ensures x == y
  {
  }

  lemma NoGrowth(r: real, v: real, a: real, b: real)
    requires 0.0 < a <= b && v >= 0.0 && r * b == v * a
    ensures 0.0 <= r <= v
  {
    assert r * b == v * a <= v * b;
  }

  /** A decimal comma is read as a decimal point: 1,5 hours are 90 minutes. */
  lemma DecimalComma()
    ensures Convert("1,5", Hours, Minutes).result == Some(90.0)
  {
    assert ReplaceFirst("1,5", ',', '.') == "1.5";
    OneAndAHalf();
    HourAndAHalf("1,5");
  }

  /** Any input that reads as 1.5 hours converts to 90 minutes. */
  lemma HourAndAHalf(value: string)
    requires ParseNumber(ReplaceFirst(value, ',', '.')) == Some(1.5)
    ensures Convert(value, Hours, Minutes).result == Some(90.0)
  {
    ScaleSeconds(1.5, Hours, Minutes);
  }

  /** Text that is not a number gives no result and zero seconds. */
  lemma NotANumber()
    ensures !Convert("abc", Days, Years).valid
    ensures Convert("abc", Days, Years).seconds == 0.0
  {
    assert ReplaceFirst("abc", ',', '.') == "abc";
    assert IndexOf("abc", '.') == 3;
  }

  /* ---------------------------------------------------------------------- */
  /* Days into years, months and days                                       */
  /* ---------------------------------------------------------------------- */

  /** The breakdown of a number of days: the sign apart from whole years,
      whole months and the remaining days rounded. */
  datatype Breakdown = Breakdown(sign: string, years: int, months: int, days: int)

  function Abs(x: real): (a: real)
    ensures a >= 0.0 && (a == x || a == -x)
  {
    if x < 0.0 then -x else x
  }

  /** The greedy split of `Math.abs(totalDays)`: as many average years as fit,
      then as many average months as fit in what is left, then the rest
      rounded to whole days. */
  function SplitDays(totalDays: real): (b: Breakdown)
    ensures b.sign == "-" <==> totalDays < 0.0
    ensures b.sign == "" <==> totalDays >= 0.0
    ensures 0 <= b.years && 0 <= b.months <= 11 && 0 <= b.days <= 30
    ensures Greedy(Abs(totalDays), b.years, b.months)
    ensures var rest := Abs(totalDays) - b.years as real * DaysPerYear - b.months as real * DaysPerMonth;
            b.days as real - 0.5 <= rest < b.days as real + 0.5
  {
    var sign := if totalDays < 0.0 then "-" else "";
    var remaining := Abs(totalDays);
    var years := Floor(remaining / DaysPerYear);
    var afterYears := remaining - years as real * DaysPerYear;
    var months := Floor(afterYears / DaysPerMonth);
    var afterMonths := afterYears - months as real * DaysPerMonth;
    var days := Round(afterMonths);
    Breakdown(sign, years, months, days)
  }

  /** `years` whole years fit in `amount` days and one more does not; `months`
      whole months fit in what is left and one more does not. */
  predicate Greedy(amount: real, years: int, months: int) {
    && years as real * DaysPerYear <= amount < (years + 1) as real * DaysPerYear
    && var rest := amount - years as real * DaysPerYear;
       months as real * DaysPerMonth <= rest < (months + 1) as real * DaysPerMonth
  }

  /** The greedy bounds pin the years and months down: no other pair meets them. */
  lemma GreedyUnique(amount: real, y1: int, m1: int, y2: int, m2: int)
    requires Greedy(amount, y1, m1) && Greedy(amount, y2, m2)
    ensures y1 == y2 && m1 == m2
  {
  }

  /** The parts add back up to the magnitude, to within half a day. */
  lemma SplitDaysReassembles(totalDays: real)
    ensures var b := SplitDays(totalDays);
            var whole := b.years as real * DaysPerYear + b.months as real * DaysPerMonth + b.days as real;
            Abs(totalDays) - 0.5 < whole <= Abs(totalDays) + 0.5
  {
  }

  /** Negating the input only flips the sign: the parts are those of the magnitude. */
  lemma SplitDaysNegated(totalDays: real)
    requires totalDays > 0.0
    ensures var b := SplitDays(totalDays);
            SplitDays(-totalDays) == Breakdown("-", b.years, b.months, b.days)
  {
  }

  /** A whole number of average years breaks down into exactly those years. */
  lemma SplitWholeYears(k: nat)
    ensures SplitDays(k as real * DaysPerYear) == Breakdown("", k, 0, 0)
  {
    var b := SplitDays(k as real * DaysPerYear);
    assert Greedy(k as real * DaysPerYear, k, 0);
    GreedyUnique(k as real * DaysPerYear, b.years, b.months, k, 0);
  }

  /** 365 days are 0 years, 11 months and 30 days. */
  lemma SplitOneCommonYear()
    ensures SplitDays(365.0) == Breakdown("", 0, 11, 30)
  {
    var b := SplitDays(365.0);
    assert Greedy(365.0, 0, 11);
    GreedyUnique(365.0, b.years, b.months, 0, 11);
  }

  /** The `breakdown` computation: only for a valid days-to-years conversion
      whose number is finite. */
  function BreakdownOf(c: Conversion, fromUnit: UnitId, toUnit: UnitId): (r: Option<Breakdown>)
    ensures r.Some? <==> c.valid && fromUnit == Days && toUnit == Years && c.numericValue.Some?
    ensures r.Some? ==> r.value == SplitDays(c.numericValue.value)
  {
    if !c.valid then None
    else if fromUnit != Days || toUnit != Years then None
    else match c.numericValue
      case None => None
      case Some(totalDays) => Some(SplitDays(totalDays))
  }

  /** The whole years of the breakdown are the whole part of the days-to-years
      conversion's magnitude: both computations agree on the years. */
  lemma BreakdownYearsMatchConversion(d: real)
    ensures SplitDays(d).years == Floor(Abs(Scale(d, Days, Years).result.value))
  {
    ScaleSeconds(d, Days, Years);
    var y := Scale(d, Days, Years).result.value;
    YearsOfDays(y, d);
    assert Abs(d) / DaysPerYear == Abs(y);
  }

  /** An amount of years and the same span in days have proportional magnitudes. */
  lemma YearsOfDays(y: real, d: real)
    requires y * 31556952.0 == d * 86400.0
    ensures Abs(d) / DaysPerYear == Abs(y)
  {
    assert y * DaysPerYear == d;
  }

  /** For a readable days-to-years input, the page shows a breakdown, and its
      years are the whole part of the converted amount's magnitude. */
  lemma ConvertedBreakdownYears(value: string)
    ensures var c := Convert(value, Days, Years);
            var b := BreakdownOf(c, Days, Years);
            c.valid ==> b.Some? && b.value.years == Floor(Abs(c.result.value))
  {
    var c := Convert(value, Days, Years);
    if c.valid {
      BreakdownYearsMatchConversion(c.numericValue.value);
    }
  }

  /** The page's default: 365 days, as years, break down into 0 years, 11
      months and 30 days. */
  lemma DefaultBreakdown()
    ensures BreakdownOf(Convert("365", Days, Years), Days, Years) == Some(Breakdown("", 0, 11, 30))
  {
    assert ReplaceFirst("365", ',', '.') == "365";
    assert DigitsValue("365") == 365 by {
      assert "365"[..2] == "36" && "36"[..1] == "3" && "3"[..0] == "";
    }
    SplitOneCommonYear();
  }
}
