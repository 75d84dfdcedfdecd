/**
 * The countdown formatter `timestamp_to_hms`: a signed number of seconds
 * becomes "Departed", "Arrived" or a zero-padded HH:MM:SS whose hour field
 * wraps modulo one day.
 */
module Countdown {
  import opened Decimal

  const SecondsPerMinute: int := 60
  const SecondsPerHour: int := 3600
  const SecondsPerDay: int := 86400

  /** `timestamp_to_hms(unix_ts, dep)` on a whole number of seconds: the
      sign picks a sentinel, otherwise hours, minutes and seconds are taken
      from the seconds of the day. */
  function TimestampToHms(totalSeconds: int, dep: bool): string
  {
    if totalSeconds < 0 && dep then "Departed"
    else if totalSeconds < 0 then "Arrived"
    else
      var hours := (totalSeconds % SecondsPerDay) / SecondsPerHour;
      var minutes := (totalSeconds % SecondsPerHour) / SecondsPerMinute;
      var seconds := totalSeconds % SecondsPerMinute;
      Pad2(hours) + ":" + Pad2(minutes) + ":" + Pad2(seconds)
  }

  /** The shape `DD:DD:DD`. */
  predicate IsHms(s: string) {
    && |s| == 8
    && s[2] == ':' && s[5] == ':'
    && AllDigits(s[0..2]) && AllDigits(s[3..5]) && AllDigits(s[6..8])
  }

  function HoursField(s: string): nat requires IsHms(s) { ParseDecimal(s[0..2]) }
  function MinutesField(s: string): nat requires IsHms(s) { ParseDecimal(s[3..5]) }
  function SecondsField(s: string): nat requires IsHms(s) { ParseDecimal(s[6..8]) }

  /** Reads an `HH:MM:SS` string back as a number of seconds. */
  function ParseHms(s: string): nat
    requires IsHms(s)
  {
    HoursField(s) * SecondsPerHour + MinutesField(s) * SecondsPerMinute + SecondsField(s)
  }

  /** A negative duration gives the sentinel of its leg. */
  lemma CountdownNegative(d: int, dep: bool)
    requires d < 0
    ensures TimestampToHms(d, dep) == if dep then "Departed" else "Arrived"
  {
  }

  /** The concatenation of three padded fields and two colons. */
  lemma HmsLayout(h: nat, m: nat, s: nat)
    requires h < 100 && m < 100 && s < 100
    ensures var r := Pad2(h) + ":" + Pad2(m) + ":" + Pad2(s);
      && IsHms(r)
      && r[0..2] == Pad2(h) && r[3..5] == Pad2(m) && r[6..8] == Pad2(s)
  {
    var r := Pad2(h) + ":" + Pad2(m) + ":" + Pad2(s);
    assert r[0..2] == Pad2(h);
    assert r[3..5] == Pad2(m);
    assert r[6..8] == Pad2(s);
  }

  /** For a non-negative duration the result is `HH:MM:SS` with
      HH = (d % 86400) / 3600 < 24, MM = (d % 3600) / 60 < 60 and
      SS = d % 60 < 60. */
  lemma CountdownFields(d: int, dep: bool)
    requires d >= 0
    ensures var r := TimestampToHms(d, dep);
      && IsHms(r)
      && HoursField(r) == (d % SecondsPerDay) / SecondsPerHour < 24
      && MinutesField(r) == (d % SecondsPerHour) / SecondsPerMinute < 60
      && SecondsField(r) == d % SecondsPerMinute < 60
  {
    var h, m, s := (d % SecondsPerDay) / SecondsPerHour, (d % SecondsPerHour) / SecondsPerMinute, d % SecondsPerMinute;
    HmsLayout(h, m, s);
    Pad2RoundTrip(h);
    Pad2RoundTrip(m);
    Pad2RoundTrip(s);
  }

  /** The seconds of the day decompose into hours, minutes and seconds. */
  lemma DayDecomposition(d: nat)
    ensures ((d % 86400) / 3600) * 3600 + ((d % 3600) / 60) * 60 + d % 60 == d % 86400
  {
    var q, x := d / 86400, d % 86400;
    var h, r := x / 3600, x % 3600;
    var m, sec := r / 60, r % 60;
    DivModUnique(d, 3600, q * 24 + h, r);
    DivModUnique(d, 60, q * 1440 + h * 60 + m, sec);
  }

  /** Parsing the countdown back yields the duration modulo one day. */
  lemma CountdownRoundTrip(d: int, dep: bool)
    requires d >= 0
    ensures IsHms(TimestampToHms(d, dep))
    ensures ParseHms(TimestampToHms(d, dep)) == d % SecondsPerDay
  {
    CountdownFields(d, dep);
    DayDecomposition(d);
  }

  /** The result has the `HH:MM:SS` shape exactly when the duration is not
      negative; the sentinels do not. */
  lemma CountdownShapeIff(d: int, dep: bool)
    ensures IsHms(TimestampToHms(d, dep)) <==> d >= 0
  {
    if d >= 0 {
      CountdownFields(d, dep);
    } else {
      var r := TimestampToHms(d, dep);
      assert r[0..2][0] == r[0];
      assert !IsDigit(r[0]);
    }
  }

  /** The sentinel of a leg is printed exactly for a negative duration. */
  lemma CountdownSentinelIff(d: int, dep: bool)
    ensures TimestampToHms(d, dep) == (if dep then "Departed" else "Arrived") <==> d < 0
  {
    if d >= 0 {
      CountdownFields(d, dep);
      assert "Departed"[2] != ':' && |"Arrived"| != 8;
    }
  }

  /** Durations of a day or more wrap: adding a day does not change the text. */
  lemma CountdownWrapsDaily(d: int, dep: bool)
    requires d >= 0
    ensures TimestampToHms(d + SecondsPerDay, dep) == TimestampToHms(d, dep)
  {
    DivModUnique(d + SecondsPerDay, SecondsPerDay, d / SecondsPerDay + 1, d % SecondsPerDay);
    DivModUnique(d + SecondsPerDay, SecondsPerHour, d / SecondsPerHour + 24, d % SecondsPerHour);
    DivModUnique(d + SecondsPerDay, SecondsPerMinute, d / SecondsPerMinute + 1440, d % SecondsPerMinute);
  }

  /** Zero takes the non-negative branch and renders as midnight. */
  lemma CountdownZero(dep: bool)
    ensures TimestampToHms(0, dep) == "00:00:00"
  {
    Pad2TwoDigits(0);
    assert Pad2(0) == "00";
  }

  /** 3661 seconds are one hour, one minute and one second. */
  lemma CountdownOneOneOne(dep: bool)
    ensures TimestampToHms(3661, dep) == "01:01:01"
  {
    assert (3661 % 86400) / 3600 == 1 && (3661 % 3600) / 60 == 1 && 3661 % 60 == 1;
    Pad2TwoDigits(1);
    assert Pad2(1) == "01";
  }

  /** 90000 seconds are a day and an hour; the day is dropped. */
  lemma CountdownPastOneDay(dep: bool)
    ensures TimestampToHms(90000, dep) == "01:00:00"
  {
    assert (90000 % 86400) / 3600 == 1 && (90000 % 3600) / 60 == 0 && 90000 % 60 == 0;
    Pad2TwoDigits(0);
    Pad2TwoDigits(1);
    assert Pad2(0) == "00" && Pad2(1) == "01";
  }
}
