/**
 * `unix_to_iso`: an instant rendered in a time zone, followed by a literal
 * 'Z' and a signed `HH:MM` UTC offset. The time-zone database and the
 * `isoformat()` rendering are abstract: a zone is given by the offset it
 * has at each instant and by the text its local date-time has there.
 */
module IsoTime {
  import opened Decimal

  datatype Option<T> = None | Some(value: T)

  /** A UTC offset in whole seconds; `datetime` keeps every offset strictly
      within one day either side of UTC. */
  type UtcOffset = x: int | -86400 < x < 86400

  /** A resolved time zone: its UTC offset at an instant, and the
      `isoformat()` text of the local date-time at that instant. */
  datatype Zone = Zone(utcOffsetAt: int -> UtcOffset, isoFormatAt: int -> string)

  function Abs(x: int): (r: nat)
    ensures r == x || r == -x
  {
    if x >= 0 then x else -x
  }

  /** `sign + f"{hours:02d}" + ":" + f"{minutes:02d}"` for an offset in
      seconds; leftover seconds are dropped. */
  function OffsetSuffix(totalSeconds: int): string
  {
    var sign := if totalSeconds >= 0 then '+' else '-';
    var hours := Abs(totalSeconds) / 3600;
    var minutes := Abs(totalSeconds) % 3600 / 60;
    [sign] + Pad2(hours) + ":" + Pad2(minutes)
  }

  /** `unix_to_iso(unix_ts, tz)`: '' for a missing instant. */
  function UnixToIso(unixTs: Option<int>, tz: Zone): string
  {
    match unixTs
    case None => ""
    case Some(t) => tz.isoFormatAt(t) + "Z" + OffsetSuffix(tz.utcOffsetAt(t))
  }

  /** The shape `[+-]H..H:MM`, at least two hour digits. */
  predicate IsOffsetSuffix(s: string) {
    && |s| >= 6
    && (s[0] == '+' || s[0] == '-')
    && s[|s| - 3] == ':'
    && AllDigits(s[1..|s| - 3]) && AllDigits(s[|s| - 2..])
  }

  function SuffixHours(s: string): nat requires IsOffsetSuffix(s) { ParseDecimal(s[1..|s| - 3]) }
  function SuffixMinutes(s: string): nat requires IsOffsetSuffix(s) { ParseDecimal(s[|s| - 2..]) }

  /** Reads an offset suffix back as a signed number of seconds. */
  function ParseOffsetSuffix(s: string): int
    requires IsOffsetSuffix(s)
  {
    var magnitude := SuffixHours(s) * 3600 + SuffixMinutes(s) * 60;
    if s[0] == '+' then magnitude else -magnitude
  }

  /** The sign is '+' exactly when the offset is not negative, zero included. */
  lemma SuffixSign(off: int)
    ensures |OffsetSuffix(off)| >= 6
    ensures OffsetSuffix(off)[0] == (if off >= 0 then '+' else '-')
  {
  }

  /** The suffix has the `[+-]HH:MM` shape; its hour and minute fields
      account for the magnitude of the offset without its leftover seconds,
      and the minute field is below 60. */
  lemma SuffixFields(off: int)
    ensures IsOffsetSuffix(OffsetSuffix(off))
    ensures var s := OffsetSuffix(off);
      && SuffixHours(s) * 3600 + SuffixMinutes(s) * 60 == Abs(off) - Abs(off) % 60
      && SuffixMinutes(s) < 60
  {
    var a := Abs(off);
    var hh, mm := Pad2(a / 3600), Pad2(a % 3600 / 60);
    var s := OffsetSuffix(off);
    assert |mm| == 2;
    assert s[1..|s| - 3] == hh;
    assert s[|s| - 2..] == mm;
    Pad2RoundTrip(a / 3600);
    Pad2RoundTrip(a % 3600 / 60);
    DivModUnique(a, 60, (a / 3600) * 60 + a % 3600 / 60, (a % 3600) % 60);
  }

  /** Parsing the suffix back gives the offset truncated toward zero to
      whole minutes. */
  lemma SuffixRoundTrip(off: int)
    ensures IsOffsetSuffix(OffsetSuffix(off))
    ensures ParseOffsetSuffix(OffsetSuffix(off)) == if off >= 0 then off - off % 60 else -(Abs(off) - Abs(off) % 60)
  {
    SuffixFields(off);
    SuffixSign(off);
  }

  /** Offsets under 100 hours give exactly six characters, `[+-]HH:MM`. */
  lemma SuffixWidth(off: int)
    requires Abs(off) < 100 * 3600
    ensures |OffsetSuffix(off)| == 6
  {
  }

  /** A missing instant renders as the empty string, any other as a
      non-empty one. */
  lemma UnixToIsoEmptyIff(unixTs: Option<int>, tz: Zone)
    ensures UnixToIso(unixTs, tz) == "" <==> unixTs.None?
  {
    if unixTs.Some? {
      assert |UnixToIso(unixTs, tz)| >= 7;
    }
  }

  /** A present instant renders as the zone's date-time text, then 'Z', then
      the suffix of the zone's offset at that instant; under 100 hours of
      offset (every offset a zone can have) the string ends with
      `Z[+-]HH:MM`, whose sign is '-' exactly for a negative offset (even
      one that truncates to zero minutes), whose hours are below 24 and
      minutes below 60, and whose value is the offset truncated to whole
      minutes. */
  lemma UnixToIsoShape(t: int, tz: Zone)
    ensures var r := UnixToIso(Some(t), tz); var off := tz.utcOffsetAt(t);
      && |r| == |tz.isoFormatAt(t)| + 7
      && r[..|r| - 7] == tz.isoFormatAt(t)
      && r[|r| - 7] == 'Z'
      && r[|r| - 6] == (if off >= 0 then '+' else '-')
      && IsOffsetSuffix(r[|r| - 6..])
      && SuffixHours(r[|r| - 6..]) < 24
      && SuffixMinutes(r[|r| - 6..]) < 60
      && ParseOffsetSuffix(r[|r| - 6..]) == if off >= 0 then off - off % 60 else -(Abs(off) - Abs(off) % 60)
  {
    var off := tz.utcOffsetAt(t);
    var r := UnixToIso(Some(t), tz);
    SuffixWidth(off);
    SuffixRoundTrip(off);
    SuffixSign(off);
    SuffixFields(off);
    assert r[|r| - 6..] == OffsetSuffix(off);
    assert r[..|r| - 7] == tz.isoFormatAt(t);
  }

  /** UTC renders as "+00:00": a zero offset takes the '+' sign. */
  lemma SuffixUtc()
    ensures OffsetSuffix(0) == "+00:00"
  {
    Pad2TwoDigits(0);
    assert Pad2(0) == "00";
  }

  /** Five hours west of UTC renders as "-05:00". */
  lemma SuffixFiveHoursWest()
    ensures OffsetSuffix(-18000) == "-05:00"
  {
    assert Abs(-18000) / 3600 == 5 && Abs(-18000) % 3600 / 60 == 0;
    Pad2TwoDigits(0);
    Pad2TwoDigits(5);
    assert Pad2(0) == "00" && Pad2(5) == "05";
  }

  /** The thirty leftover seconds of an offset of 5:30:30 are dropped. */
  lemma SuffixDropsSeconds()
    ensures OffsetSuffix(19830) == "+05:30"
  {
    assert Abs(19830) / 3600 == 5 && Abs(19830) % 3600 / 60 == 30;
    Pad2TwoDigits(5);
    Pad2TwoDigits(30);
    assert Pad2(5) == "05" && Pad2(30) == "30";
  }
}
