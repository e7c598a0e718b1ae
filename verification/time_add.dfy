/**
 The add-to-time calculator: a base clock time plus signed hour and minute
 offsets gives a new time of day and the number of midnights crossed.
 */
module TimeAdd {
  import opened JsRuntime
  import opened Clock

  /** What the calculator shows: the new time, the day offset, and whether the
      base time was readable. The time is `None` when the minute count is not
      whole: `formatTime` would then print a fractional minute, whose text
      depends on JavaScript's number printing. */
  datatype TimeResult = TimeResult(time: Option<string>, dayOffset: int, valid: bool)

  /** The placeholder shown instead of a time. */
  const Dash: string := "\U{2014}"

  /** `Number.isFinite(Number(raw)) ? Number(raw) : 0` for an offset field. */
  function OffsetOf(raw: string): (delta: real)
    ensures ParseNumber(raw).None? ==> delta == 0.0
    ensures ParseNumber(raw).Some? ==> delta == ParseNumber(raw).value
  {
    match ParseNumber(raw)
    case Some(v) => v
    case None => 0.0
  }

  /** A number with no fractional part. */
  predicate IsWhole(x: real) {
    x == x.Floor as real
  }

  /** `baseMinutes + hours * 60 + minutes`: the minute count the offsets lead to. */
  function TotalMinutes(base: real, hoursDelta: real, minutesDelta: real): (total: real)
    ensures IsWhole(base) && IsWhole(hoursDelta) && IsWhole(minutesDelta) ==> IsWhole(total)
    ensures hoursDelta >= 0.0 && minutesDelta >= 0.0 ==> total >= base
    ensures hoursDelta <= 0.0 && minutesDelta <= 0.0 ==> total <= base
  {
    var total := base + hoursDelta * 60.0 + minutesDelta;
    var whole := base.Floor + hoursDelta.Floor * MinutesPerHour + minutesDelta.Floor;
    assert IsWhole(base) && IsWhole(hoursDelta) && IsWhole(minutesDelta) ==> total == whole as real;
    total
  }

  /** `Math.floor(totalMinutes / 1440)`: how many midnights lie between the
      start of the base day and the minute `totalMinutes`. */
  function DayOffset(totalMinutes: real): (d: int)
    ensures (d * MinutesPerDay) as real <= totalMinutes < (d * MinutesPerDay + MinutesPerDay) as real
  {
    Floor(totalMinutes / 1440.0)
  }

  /** `formatTime(totalMinutes)` for a whole minute count. */
  function TimeText(totalMinutes: real): (s: Option<string>)
    ensures s.Some? <==> totalMinutes == totalMinutes.Floor as real
  {
    if totalMinutes == totalMinutes.Floor as real then Some(FormatTime(totalMinutes.Floor)) else None
  }

  /** The result for a readable base time, once the total minute count is known. */
  function Advance(totalMinutes: real): (r: TimeResult)
    ensures r.valid
    ensures (r.dayOffset * MinutesPerDay) as real <= totalMinutes
            < (r.dayOffset * MinutesPerDay + MinutesPerDay) as real
  {
    TimeResult(TimeText(totalMinutes), DayOffset(totalMinutes), true)
  }

  /** The `timeResult` computation: parse the base time, read the offsets, and
      advance; an unreadable base gives the placeholder whatever the offsets. */
  function AddToTime(timeInput: string, addHours: string, addMinutes: string): (r: TimeResult)
    ensures r.valid <==> ParseTimeInput(timeInput).Some?
    ensures !r.valid ==> r == TimeResult(Some(Dash), 0, false)
    ensures r.valid ==> r == Advance(TotalMinutes(ParseTimeInput(timeInput).value,
                                                  OffsetOf(addHours), OffsetOf(addMinutes)))
  {
    var baseMinutes := ParseTimeInput(timeInput);
    if baseMinutes.None? then TimeResult(Some(Dash), 0, false)
    else Advance(TotalMinutes(baseMinutes.value, OffsetOf(addHours), OffsetOf(addMinutes)))
  }

  /** The day offset is the only whole number of days that brackets the total. */
  lemma DayOffsetUnique(totalMinutes: real, d: int)
    requires (d * 1440) as real <= totalMinutes < (d * 1440 + 1440) as real
    ensures DayOffset(totalMinutes) == d
  {
    var e := DayOffset(totalMinutes);
    assert (e * 1440) as real < (d * 1440 + 1440) as real;
    assert (d * 1440) as real < (e * 1440 + 1440) as real;
  }

  /** For a whole minute count, the displayed time reads back as the count
      wrapped into one day, and the count is `dayOffset` days plus that. */
  lemma AdvanceReadsBack(totalMinutes: int)
    ensures var r := Advance(totalMinutes as real);
            && r.time.Some?
            && ParseTimeInput(r.time.value) == Some((totalMinutes - r.dayOffset * MinutesPerDay) as real)
  {
    var r := Advance(totalMinutes as real);
    assert (totalMinutes as real).Floor == totalMinutes;
    WholeDays(totalMinutes, r.dayOffset);
    ParseFormatRoundTrip(totalMinutes);
  }

  /** Adding 24 more hours keeps the time and moves one day further. */
  lemma AdvanceFullDay(totalMinutes: real)
    ensures var later := Advance(totalMinutes + MinutesPerDay as real);
            var r := Advance(totalMinutes);
            later.time == r.time && later.dayOffset == r.dayOffset + 1
  {
    var next := totalMinutes + 1440.0;
    assert next == totalMinutes + MinutesPerDay as real;
    var d := DayOffset(totalMinutes);
    DayOffsetUnique(next, d + 1);
    TimeTextNextDay(totalMinutes, next);
    var later, r := Advance(next), Advance(totalMinutes);
    assert later.time == TimeText(next) && r.time == TimeText(totalMinutes);
    assert later.dayOffset == DayOffset(next) && r.dayOffset == d;
  }

  /** The time text repeats every 1440 minutes. */
  lemma TimeTextNextDay(totalMinutes: real, next: real)
    requires next == totalMinutes + 1440.0
    ensures TimeText(next) == TimeText(totalMinutes)
  {
    var whole := totalMinutes.Floor;
    FloorAddInt(totalMinutes, 1440);
    assert next.Floor == whole + 1440;
    if totalMinutes == whole as real {
      WholeNextDay(whole, next);
    } else {
      assert next != next.Floor as real;
    }
  }

  /** The same for a whole minute count. */
  lemma WholeNextDay(whole: int, next: real)
    requires next == (whole + 1440) as real
    ensures TimeText(next) == TimeText(whole as real)
  {
    assert next.Floor == whole + 1440 && (whole as real).Floor == whole;
    FormatTimePeriodic(whole, 1);
    assert TimeText(next) == Some(FormatTime(whole + 1440));
  }

  /** A non-numeric offset counts as no offset at all. */
  lemma NonNumericOffsetIsZero(timeInput: string, addHours: string, addMinutes: string)
    requires ParseNumber(addHours).None?
    ensures AddToTime(timeInput, addHours, addMinutes) == AddToTime(timeInput, "0", addMinutes)
  {
    ZeroOffset();
    assert OffsetOf(addHours) == OffsetOf("0");
    SameOffsetSameResult(timeInput, addHours, addMinutes, "0", addMinutes);
  }

  /** Likewise for the minutes field: a non-numeric minute offset counts as 0. */
  lemma NonNumericMinutesIsZero(timeInput: string, addHours: string, addMinutes: string)
    requires ParseNumber(addMinutes).None?
    ensures AddToTime(timeInput, addHours, addMinutes) == AddToTime(timeInput, addHours, "0")
  {
    ZeroOffset();
    assert OffsetOf(addMinutes) == OffsetOf("0");
    SameOffsetSameResult(timeInput, addHours, addMinutes, addHours, "0");
  }

  /** The offset `"0"` is no offset. */
  lemma ZeroOffset()
    ensures OffsetOf("0") == 0.0
  {
    NumberOfZero();
  }

  /** An offset written as plain digits counts as its decimal value. */
  lemma DigitOffset(raw: string)
    requires raw != [] && AllDigits(raw)
    ensures OffsetOf(raw) == DigitsValue(raw) as real
  {
  }

  /** Only the combined offset matters: offsets worth the same number of
      minutes give the same result. */
  lemma SameOffsetSameResult(timeInput: string, hours1: string, minutes1: string,
                             hours2: string, minutes2: string)
    requires OffsetOf(hours1) * 60.0 + OffsetOf(minutes1) == OffsetOf(hours2) * 60.0 + OffsetOf(minutes2)
    ensures AddToTime(timeInput, hours1, minutes1) == AddToTime(timeInput, hours2, minutes2)
  {
    if ParseTimeInput(timeInput).Some? {
      var base := ParseTimeInput(timeInput).value;
      assert TotalMinutes(base, OffsetOf(hours1), OffsetOf(minutes1))
          == TotalMinutes(base, OffsetOf(hours2), OffsetOf(minutes2));
    }
  }

  /** Half an hour written as a fraction of an hour is thirty minutes. */
  lemma HalfHourOffset(timeInput: string)
    ensures AddToTime(timeInput, "0.5", "0") == AddToTime(timeInput, "0", "30")
  {
    assert DigitsValue("0") == 0 by { assert "0"[..0] == []; }
    assert FractionValue("5") == 0.5 by { assert "5"[1..] == []; }
    NumberOfDecimal("0.5", "0", "5", 0.5);
    assert OffsetOf("0.5") == 0.5;
    DigitOffset("0");
    DigitOffset("30");
    assert DigitsValue("30") == 30 by { assert "30"[..1] == "3"; assert "3"[..0] == []; }
    SameOffsetSameResult(timeInput, "0.5", "0", "0", "30");
  }

  /** The offsets `"1"` and `"45"` from `"08:30"` lead to minute 615. */
  lemma DefaultTotal()
    ensures ParseTimeInput("08:30").Some?
    ensures TotalMinutes(ParseTimeInput("08:30").value, OffsetOf("1"), OffsetOf("45")) == 615.0
  {
    ParseDefaultTime();
    DefaultOffsets();
  }

  /** The offset fields `"1"` and `"45"` read as 1 and 45. */
  lemma DefaultOffsets()
    ensures OffsetOf("1") == 1.0 && OffsetOf("45") == 45.0
  {
    DigitOffset("1");
    DigitOffset("45");
    assert "45"[..1] == "4";
  }

  /* `Text1015`, `Time615` and `Minute615` are the steps of `DefaultInputs`,
     each its own lemma so that no proof has to unfold the whole example. */

  /** The padded text of 10 hours 15 minutes. */
  lemma Text1015(hours: nat, minutes: nat)
    requires hours == 10 && minutes == 15
    ensures ClockText(hours, minutes) == "10:15"
  {
    TwoDigitsOf(hours, '1', '0');
    TwoDigitsOf(minutes, '1', '5');
    ClockTextOf(hours, minutes, "10", "15");
    AroundColon("10", "15", "10:15");
  }

  /** Minute 615 prints as `10:15`. */
  lemma Time615()
    ensures TimeText(615.0) == Some("10:15")
  {
    assert (615.0).Floor == 615;
    FormatPadded(615, 10, 15);
    Text1015(10, 15);
  }

  /** Minute 615 prints as `10:15` on the base day. */
  lemma Minute615()
    ensures Advance(615.0) == TimeResult(Some("10:15"), 0, true)
  {
    Time615();
    DayOffsetUnique(615.0, 0);
  }

  /** `08:30` plus 1 hour 45 minutes is `10:15` on the same day. */
  lemma DefaultInputs()
    ensures AddToTime("08:30", "1", "45") == TimeResult(Some("10:15"), 0, true)
  {
    DefaultTotal();
    Minute615();
  }
}
