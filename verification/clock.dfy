/**
 Clock times as minutes since midnight: reading an `H:M` input
 (`parseTimeInput`) and printing any minute count as a zero-padded `HH:MM`
 time of day (`formatTime`).
 */
module Clock {
  import opened JsRuntime

  const MinutesPerDay := 1440
  const MinutesPerHour := 60

  /** `String(n).padStart(2, '0')`: below 100, two decimal digits that read
      back as `n`. */
  function TwoDigits(n: nat): (s: string)
    ensures n < 100 ==> |s| == 2 && AllDigits(s) && DigitsValue(s) == n
  {
    var digits := NatToString(n);
    if n < 10 then
      var s := PadStart(digits, 2, '0');
      assert s == ['0'] + digits;
      assert s[..1] == ['0'];
      s
    else
      assert n < 100 ==> |NatToString(n / 10)| == 1;
      PadStart(digits, 2, '0')
  }

  /** Below 100, the padded text is the tens digit (a `0` when there are
      none) followed by the units digit. */
  lemma TwoDigitsChars(n: nat)
    ensures var s := PadStart(NatToString(n), 2, '0');
            n < 100 ==> s == [DigitChar(n / 10), DigitChar(n % 10)]
                        && AllDigits(s) && DigitsValue(s) == n
  {
    if n < 100 {
      var digits := NatToString(n);
      if n < 10 {
        assert digits == [DigitChar(n)];
      } else {
        assert NatToString(n / 10) == [DigitChar(n / 10)];
      }
      DigitPairValue(n / 10, n % 10);
    }
  }

  /** The numeral made of the digits `a` and `b` is worth `10 * a + b`. */
  lemma DigitPairValue(a: nat, b: nat)
    requires a < 10 && b < 10
    ensures var s := [DigitChar(a), DigitChar(b)];
            AllDigits(s) && DigitsValue(s) == a * 10 + b
  {
    var s := [DigitChar(a), DigitChar(b)];
    var first := s[..1];
    assert first == [DigitChar(a)] && first[..0] == [];
    assert DigitsValue(first) == DigitsValue([]) * 10 + DigitValue(DigitChar(a));
    assert DigitsValue(s) == DigitsValue(first) * 10 + DigitValue(DigitChar(b));
  }

  /** The text `HH:MM` of an hour and minute below 100: two digits, a `:` and
      two digits, reading back as the hour and the minute. */
  function ClockText(hours: nat, minutes: nat): (r: string)
    ensures hours < 100 && minutes < 100 ==>
              && |r| == 5 && r[2] == ':' && AllDigits(r[..2]) && AllDigits(r[3..])
              && DigitsValue(r[..2]) == hours && DigitsValue(r[3..]) == minutes
  {
    var h, m := TwoDigits(hours), TwoDigits(minutes);
    var r := h + ":" + m;
    AroundSeparator(r, h, m);
    r
  }

  /** The clock text is the two padded fields around a `:`. */
  lemma ClockTextOf(hours: nat, minutes: nat, h: string, m: string)
    requires h == TwoDigits(hours) && m == TwoDigits(minutes)
    ensures ClockText(hours, minutes) == h + ":" + m
  {
  }

  /** The two digits of a number from 10 to 99, given as characters. */
  lemma TwoDigitsOf(n: nat, tens: char, units: char)
    requires 10 <= n < 100 && tens == DigitChar(n / 10) && units == DigitChar(n % 10)
    ensures TwoDigits(n) == [tens, units]
  {
    TwoDigitsChars(n);
  }

  /** Two two-character fields around a `:` make a five-character text. */
  lemma AroundColon(h: string, m: string, text: string)
    requires |h| == 2 && |m| == 2 && text == [h[0], h[1], ':', m[0], m[1]]
    ensures h + ":" + m == text
  {
  }

  /** `Number(hoursRaw)` where `hoursRaw` is the text before the first `:`
      (all of it when there is none). */
  function HoursField(value: string): (r: Option<real>)
    ensures r == ParseNumber(value[..IndexOf(value, ':')])
  {
    FirstPiece(value, ':');
    ParseNumber(Split(value, ':')[0])
  }

  /** `Number(minutesRaw)` where `minutesRaw` is the text between the first and
      the second `:` (or the end); without a `:` it is `Number(undefined)`,
      which is NaN. */
  function MinutesField(value: string): (r: Option<real>)
    ensures ':' !in value ==> r.None?
    ensures ':' in value ==> var rest := value[IndexOf(value, ':') + 1..];
                             r == ParseNumber(rest[..IndexOf(rest, ':')])
  {
    var parts := Split(value, ':');
    if ':' in value then
      SplitAtFirst(value, ':');
      FirstPiece(value[IndexOf(value, ':') + 1..], ':');
      ParseNumber(parts[1])
    else None
  }

  /** The range check of `parseTimeInput`: it bounds the numbers but does not
      ask them to be whole, so `7.5` hours pass. */
  predicate InClockRange(hours: real, minutes: real) {
    0.0 <= hours <= 23.0 && 0.0 <= minutes <= 59.0
  }

  /** A whole hour and minute of one day. */
  predicate IsTimeOfDay(hours: int, minutes: int) {
    0 <= hours < 24 && 0 <= minutes < 60
  }

  /** `parseTimeInput`: minutes since midnight of an `H:M` input, or `None`
      when either part is not a number or lies outside the clock's range. */
  function ParseTimeInput(value: string): (r: Option<real>)
    ensures r.Some? <==> HoursField(value).Some? && MinutesField(value).Some?
                         && InClockRange(HoursField(value).value, MinutesField(value).value)
    ensures r.Some? ==> 0.0 <= r.value < MinutesPerDay as real
    ensures r.Some? ==> r.value == HoursField(value).value * 60.0 + MinutesField(value).value
  {
    ClockMinutes(HoursField(value), MinutesField(value))
  }

  /** The checks `parseTimeInput` makes once both parts are read as numbers. */
  function ClockMinutes(hours: Option<real>, minutes: Option<real>): (r: Option<real>)
    ensures r.Some? <==> hours.Some? && minutes.Some? && InClockRange(hours.value, minutes.value)
    ensures r.Some? ==> 0.0 <= r.value < MinutesPerDay as real
    ensures r.Some? ==> r.value == hours.value * 60.0 + minutes.value
  {
    if hours.None? || minutes.None? then None
    else if hours.value < 0.0 || hours.value > 23.0 || minutes.value < 0.0 || minutes.value > 59.0 then None
    else Some(hours.value * 60.0 + minutes.value)
  }

  /** `formatTime`: the time of day `t` minutes after midnight of some day
      (before it, when `t` is negative), as `HH:MM`. */
  function FormatTime(t: int): (r: string)
    ensures r == ClockText(t % MinutesPerDay / MinutesPerHour, t % MinutesPerDay % MinutesPerHour)
  {
    var normalized := Rem(Rem(t, 1440) + 1440, 1440);
    WrapIntoDay(t);
    assert normalized == t % 1440;
    var hours := Floor(normalized as real / 60.0);
    FloorOfQuotient(normalized, 60);
    assert hours == normalized / 60;
    var minutes := Rem(normalized, 60);
    assert minutes == normalized % 60;
    ClockText(hours, minutes)
  }

  /** Every printed time is five characters `DD:DD`, hours below 24 and
      minutes below 60, and together they are `t` modulo a day. */
  lemma FormatTimeShape(t: int)
    ensures var r := FormatTime(t);
            && |r| == 5 && r[2] == ':' && AllDigits(r[..2]) && AllDigits(r[3..])
            && DigitsValue(r[..2]) < 24 && DigitsValue(r[3..]) < 60
            && DigitsValue(r[..2]) * MinutesPerHour + DigitsValue(r[3..]) == t % MinutesPerDay
  {
    ClockSplit(t);
  }

  /** The two sides of a text built as `h + ":" + m`. */
  lemma AroundSeparator(r: string, h: string, m: string)
    requires r == h + ":" + m
    ensures |r| == |h| + 1 + |m| && r[..|h|] == h && r[|h|] == ':' && r[|h| + 1..] == m
  {
  }

  /** The double remainder `((t % 1440) + 1440) % 1440` is the non-negative
      remainder of `t` modulo a day, even for negative `t`. */
  lemma WrapIntoDay(t: int)
    ensures Rem(Rem(t, 1440) + 1440, 1440) == t % 1440
  {
    var r1 := Rem(t, 1440);
    var q1 := TruncQuotient(t, 1440);
    assert t == q1 * 1440 + r1;
    var r2 := Rem(r1 + 1440, 1440);
    assert r2 == (r1 + 1440) % 1440;
    assert t == (q1 - 1) * 1440 + (r1 + 1440);
    ModShift(r1 + 1440, q1 - 1);
  }

  /** Adding whole days does not change the remainder modulo a day. */
  lemma ModShift(x: int, k: int)
    ensures (x + 1440 * k) % 1440 == x % 1440
  {
    var q, m := x / 1440, x % 1440;
    assert x + 1440 * k == (q + k) * 1440 + m;
  }

  /** The day count `d` with `d * 1440 <= t < (d + 1) * 1440` is the quotient
      of `t` by a day, and what is left over is the remainder. */
  lemma WholeDays(t: int, d: int)
    requires d * 1440 <= t < d * 1440 + 1440
    ensures d == t / 1440 && t - d * 1440 == t % 1440
  {
    var q, m := t / 1440, t % 1440;
    assert t == q * 1440 + m;
  }

  /** `formatTime(t + 1440 * k) == formatTime(t)` for every `t` and `k`. */
  lemma FormatTimePeriodic(t: int, k: int)
    ensures FormatTime(t + MinutesPerDay * k) == FormatTime(t)
  {
    ModShift(t, k);
  }

  /** An input made of two digit strings around one `:` has their decimal
      values as its hours and minutes. */
  lemma ParseDigitFields(value: string, h: string, m: string)
    requires h != [] && m != [] && AllDigits(h) && AllDigits(m)
    requires value == h + ":" + m
    ensures HoursField(value) == Some(DigitsValue(h) as real)
    ensures MinutesField(value) == Some(DigitsValue(m) as real)
  {
    NoColonInDigits(h);
    NoColonInDigits(m);
    FieldsOfText(value, h, m);
  }

  /** A string of digits holds no `:`. */
  lemma NoColonInDigits(s: string)
    requires AllDigits(s)
    ensures ':' !in s
  {
    assert forall i :: 0 <= i < |s| ==> s[i] != ':' by { assert AllDigits(s); }
  }

  /** Two `:`-free pieces joined by one `:` split back into those pieces. */
  lemma SplitTwoFields(value: string, h: string, m: string)
    requires ':' !in h && ':' !in m && value == h + ":" + m
    ensures Split(value, ':') == [h, m]
  {
    assert Join([h, m], ':') == value;
    SplitJoin([h, m], ':');
  }

  /** The fields of `h:m` are the numbers `h` and `m` stand for. */
  lemma FieldsOfText(value: string, h: string, m: string)
    requires ':' !in h && ':' !in m && value == h + ":" + m
    ensures HoursField(value) == ParseNumber(h) && MinutesField(value) == ParseNumber(m)
  {
    SplitTwoFields(value, h, m);
  }

  /** With whole-number fields, the range check of `parseTimeInput` is
      exactly "a whole hour and minute of one day". */
  lemma ParseOfFields(value: string, hours: int, minutes: int)
    requires HoursField(value) == Some(hours as real) && MinutesField(value) == Some(minutes as real)
    ensures IsTimeOfDay(hours, minutes) ==> ParseTimeInput(value) == Some((hours * 60 + minutes) as real)
    ensures !IsTimeOfDay(hours, minutes) ==> ParseTimeInput(value) == None
  {
    assert ParseTimeInput(value) == ClockMinutes(Some(hours as real), Some(minutes as real));
    WholeClockMinutes(hours, minutes);
  }

  /** The checks on whole numbers accept exactly a time of day. */
  lemma WholeClockMinutes(hours: int, minutes: int)
    ensures IsTimeOfDay(hours, minutes) ==> ClockMinutes(Some(hours as real), Some(minutes as real))
                                            == Some((hours * 60 + minutes) as real)
    ensures !IsTimeOfDay(hours, minutes) ==> ClockMinutes(Some(hours as real), Some(minutes as real)) == None
  {
    WholeInRange(hours, minutes);
    WholeSum(hours, minutes);
  }

  /** For whole numbers the range check and "time of day" agree. */
  lemma WholeInRange(hours: int, minutes: int)
    ensures InClockRange(hours as real, minutes as real) <==> IsTimeOfDay(hours, minutes)
  {
    assert hours <= 23 <==> hours as real <= 23.0;
    assert minutes <= 59 <==> minutes as real <= 59.0;
  }

  /** The minute count of whole hours and minutes is whole. */
  lemma WholeSum(hours: int, minutes: int)
    ensures hours as real * 60.0 + minutes as real == (hours * 60 + minutes) as real
  {
  }

  /** `parseTimeInput` of a zero-padded `HH:MM` reads back the hours and
      minutes, as the minute count `total`. */
  lemma ParseClockText(text: string, hours: nat, minutes: nat, total: int)
    requires IsTimeOfDay(hours, minutes) && text == ClockText(hours, minutes)
    requires total == hours * 60 + minutes
    ensures ParseTimeInput(text) == Some(total as real)
  {
    assert |text| == 5 && text[2] == ':' && AllDigits(text[..2]) && AllDigits(text[3..]);
    assert DigitsValue(text[..2]) == hours && DigitsValue(text[3..]) == minutes;
    ParseDigitPairs(text, hours, minutes, total);
  }

  /** A `DD:DD` input whose digit pairs form a time of day parses to its
      minute count. */
  lemma ParseDigitPairs(text: string, hours: nat, minutes: nat, total: int)
    requires |text| == 5 && text[2] == ':' && AllDigits(text[..2]) && AllDigits(text[3..])
    requires DigitsValue(text[..2]) == hours && DigitsValue(text[3..]) == minutes
    requires IsTimeOfDay(hours, minutes) && total == hours * 60 + minutes
    ensures ParseTimeInput(text) == Some(total as real)
  {
    ParseFiveChars(text);
    ParseOfFields(text, hours, minutes);
  }

  /** A five-character `DD:DD` input has the two digit pairs as its fields. */
  lemma ParseFiveChars(text: string)
    requires |text| == 5 && text[2] == ':' && AllDigits(text[..2]) && AllDigits(text[3..])
    ensures HoursField(text) == Some(DigitsValue(text[..2]) as real)
    ensures MinutesField(text) == Some(DigitsValue(text[3..]) as real)
  {
    var h, m := text[..2], text[3..];
    assert text == h + ":" + m;
    ParseDigitFields(text, h, m);
  }

  /** Minutes since midnight split back into hours and minutes. */
  lemma ClockDivision(hours: int, minutes: int)
    requires IsTimeOfDay(hours, minutes)
    ensures var t := hours * 60 + minutes;
            t % 1440 == t && t / 60 == hours && t % 60 == minutes
  {
  }

  /** A time of day printed from its hours and minutes is the padded `HH:MM`. */
  lemma FormatPadded(t: int, hours: nat, minutes: nat)
    requires IsTimeOfDay(hours, minutes) && t == hours * 60 + minutes
    ensures FormatTime(t) == ClockText(hours, minutes)
  {
    ClockDivision(hours, minutes);
    assert t % MinutesPerDay / MinutesPerHour == hours && t % MinutesPerDay % MinutesPerHour == minutes;
  }

  /** Round trip from text: a zero-padded `HH:MM` parses to a whole minute
      count, which prints back unchanged. */
  lemma FormatParseRoundTrip(text: string, hours: nat, minutes: nat)
    requires IsTimeOfDay(hours, minutes) && text == ClockText(hours, minutes)
    ensures ParseTimeInput(text).Some?
    ensures var v := ParseTimeInput(text).value;
            v == v.Floor as real && FormatTime(v.Floor) == text
  {
    var total := hours * 60 + minutes;
    ParseClockText(text, hours, minutes, total);
    FormatPadded(total, hours, minutes);
    assert (total as real).Floor == total;
  }

  /** Round trip from minutes: the printed time parses back to the minute count
      wrapped into one day. */
  lemma ParseFormatRoundTrip(t: int)
    ensures ParseTimeInput(FormatTime(t)) == Some((t % MinutesPerDay) as real)
  {
    ClockSplit(t);
    ParseClockText(FormatTime(t), t % 1440 / 60, t % 1440 % 60, t % 1440);
  }

  /** The wrapped minute count splits into an hour and a minute on the clock. */
  lemma ClockSplit(t: int)
    ensures var w := t % 1440;
            IsTimeOfDay(w / 60, w % 60) && w == w / 60 * 60 + w % 60
  {
  }

  /** Inputs whose first two `:`-separated parts agree parse alike. */
  lemma SamePartsSameParse(a: string, b: string)
    requires |Split(a, ':')| >= 2 && |Split(b, ':')| >= 2
    requires Split(a, ':')[0] == Split(b, ':')[0] && Split(a, ':')[1] == Split(b, ':')[1]
    ensures ParseTimeInput(a) == ParseTimeInput(b)
  {
    assert HoursField(a) == HoursField(b);
    assert MinutesField(a) == MinutesField(b);
    SameFieldsSameParse(a, b);
  }

  /** `parseTimeInput` looks at nothing but the two numeric fields. */
  lemma SameFieldsSameParse(a: string, b: string)
    requires HoursField(a) == HoursField(b) && MinutesField(a) == MinutesField(b)
    ensures ParseTimeInput(a) == ParseTimeInput(b)
  {
  }

  /** Anything after a second `:` is ignored: appending `:` and more text to
      an input that already has a `:` leaves its parse unchanged. */
  lemma ParseIgnoresTail(value: string, tail: string, longer: string)
    requires ':' in value
    requires longer == value + ":" + tail
    ensures ParseTimeInput(longer) == ParseTimeInput(value)
  {
    SplitAppendKeepsTwo(value, ':', tail);
    SamePartsSameParse(longer, value);
  }

  /** `"08:30"` is 510 minutes. */
  lemma ParseDefaultTime()
    ensures ParseTimeInput("08:30") == Some(510.0)
  {
    DefaultTimeText();
    ParseDigitFields("08:30", "08", "30");
    assert DigitsValue("08") == 8 by { assert "08"[..1] == "0"; }
    assert DigitsValue("30") == 30 by { assert "30"[..1] == "3"; }
    ParseOfFields("08:30", 8, 30);
  }

  /** `"08:30:99"` is 510 minutes too: the third part is ignored. */
  lemma ParseThreeParts()
    ensures ParseTimeInput("08:30:99") == Some(510.0)
  {
    ParseDefaultTime();
    ThreePartsText();
    ParseIgnoresTail("08:30", "99", "08:30:99");
  }

  /* The example inputs as their fields around the `:`. Stating each literal
     concatenation in a lemma of its own keeps the string literals out of the
     example proofs, where unfolding them is slow. */

  lemma ThreePartsText()
    ensures "08:30:99" == "08:30" + ":" + "99"
  {
  }

  lemma DefaultTimeText()
    ensures "08:30" == "08" + ":" + "30"
  {
  }

  lemma UnpaddedText()
    ensures "8:5" == "8" + ":" + "5"
  {
  }

  lemma Hour24Text()
    ensures "24:00" == "24" + ":" + "00"
  {
  }

  /** The unpadded `"8:5"` is 485 minutes. */
  lemma ParseUnpadded()
    ensures ParseTimeInput("8:5") == Some(485.0)
  {
    UnpaddedText();
    ParseDigitFields("8:5", "8", "5");
    assert DigitsValue("8") == 8 by { assert "8"[..0] == []; }
    assert DigitsValue("5") == 5 by { assert "5"[..0] == []; }
    ParseOfFields("8:5", 8, 5);
  }

  /** 485 minutes print as `"08:05"`. */
  lemma FormatUnpadded()
    ensures FormatTime(485) == "08:05"
  {
    assert ClockText(8, 5) == "08:05";
    FormatPadded(485, 8, 5);
  }

  /** `"24:00"` is out of range. */
  lemma RejectHour24()
    ensures ParseTimeInput("24:00") == None
  {
    Hour24Text();
    ParseDigitFields("24:00", "24", "00");
    assert DigitsValue("24") == 24 by { assert "24"[..1] == "2"; }
    assert DigitsValue("00") == 0 by { assert "00"[..1] == "0"; }
    ParseOfFields("24:00", 24, 0);
  }

  /** `"8"` has no minutes part, so its minutes are `Number(undefined)`. */
  lemma RejectMissingMinutes()
    ensures ParseTimeInput("8") == None
  {
    assert IndexOf("8", ':') == 1;
  }

  /** A minutes part that is not a number rejects the input. */
  lemma RejectNonNumericMinutes(value: string, h: string, m: string)
    requires ':' !in h && ':' !in m && value == h + ":" + m
    requires ParseNumber(m).None?
    ensures ParseTimeInput(value) == None
  {
    FieldsOfText(value, h, m);
  }

  /** `"8:x"` is rejected: `x` is not a number. */
  lemma RejectLetterMinutes()
    ensures ParseTimeInput("8:x") == None
  {
    assert !NumeralChars("x") by { assert !IsDigit("x"[0]); }
    NumberIsNumeral("x");
    assert "8:x" == "8" + ":" + "x";
    RejectNonNumericMinutes("8:x", "8", "x");
  }

  /** An empty part reads as `Number("")`, which is 0: a lone `":"` is midnight. */
  lemma ParseBareColon()
    ensures ParseTimeInput(":") == Some(0.0)
  {
    FieldsOfText(":", "", "");
  }

  /** A fractional hour passes the range check: `w.f:0` is `w.f` hours'
      worth of minutes whenever the whole part is below 23, so `"7.5:0"` is
      450 minutes. */
  lemma ParseFractionalHour(value: string, whole: string, fraction: string, hours: real)
    requires AllDigits(whole) && AllDigits(fraction) && |whole| + |fraction| > 0
    requires DigitsValue(whole) < 23
    requires value == whole + "." + fraction + ":0"
    requires hours == DigitsValue(whole) as real + FractionValue(fraction)
    ensures ParseTimeInput(value) == Some(hours * 60.0)
  {
    FractionalHourFields(value, whole, fraction, hours);
    assert hours <= 23.0 by { assert DigitsValue(whole) <= 22; }
    AcceptedHour(value, hours);
  }

  /** The two fields of `w.f:0` are `w.f` and 0. */
  lemma FractionalHourFields(value: string, whole: string, fraction: string, hours: real)
    requires AllDigits(whole) && AllDigits(fraction) && |whole| + |fraction| > 0
    requires value == whole + "." + fraction + ":0"
    requires hours == DigitsValue(whole) as real + FractionValue(fraction)
    ensures HoursField(value) == Some(hours) && MinutesField(value) == Some(0.0)
  {
    var h := whole + "." + fraction;
    NumberOfDecimal(h, whole, fraction, hours);
    NoColonInDigits(whole);
    NoColonInDigits(fraction);
    assert ':' !in h;
    NumberOfZero();
    HourOnlyFields(value, h);
  }

  /** The fields of `h:0` are `Number(h)` and `Number("0")`. */
  lemma HourOnlyFields(value: string, h: string)
    requires ':' !in h && value == h + ":0"
    ensures HoursField(value) == ParseNumber(h) && MinutesField(value) == ParseNumber("0")
  {
    assert ':' !in "0";
    assert value == h + ":" + "0";
    FieldsOfText(value, h, "0");
  }

  /** An hour in range with zero minutes is accepted as that many hours. */
  lemma AcceptedHour(value: string, hours: real)
    requires HoursField(value) == Some(hours) && MinutesField(value) == Some(0.0)
    requires 0.0 <= hours <= 23.0
    ensures ParseTimeInput(value) == Some(hours * 60.0)
  {
    assert ParseTimeInput(value) == ClockMinutes(Some(hours), Some(0.0));
    HourClockMinutes(hours);
  }

  /** The checks accept an hour in range with zero minutes. */
  lemma HourClockMinutes(hours: real)
    requires 0.0 <= hours <= 23.0
    ensures ClockMinutes(Some(hours), Some(0.0)) == Some(hours * 60.0)
  {
  }
}
