# fr24-utils arrivals lookup, modelled in Dafny

`main.py` of fr24-utils asks a flight-data provider for three pages of
arrivals at a destination airport. It keeps the arrivals whose origin IATA
code is the requested source, and prints one block per match: the airline,
the flight number, the route, the scheduled (and perhaps estimated) arrival
as an ISO timestamp with a UTC-offset suffix, countdowns to departure and
arrival, and perhaps the status. After the pages it may print "No upcoming
flights!". This project models the three pieces of that logic and proves
what they promise:

- `decimal.dfy` (module `Decimal`): `str(n)` and `f"{n:02d}"` for
  non-negative integers, a digit-string parser, and their round trips.
- `countdown.dfy` (module `Countdown`): `timestamp_to_hms`, the
  "Departed"/"Arrived" sentinels and the `HH:MM:SS` countdown whose hour
  wraps daily.
- `iso_time.dfy` (module `IsoTime`): `unix_to_iso`, its empty result for a
  missing instant, and the arithmetic of the `[+-]HH:MM` offset suffix. A
  time zone is abstract (`Zone`): the offset it has at an instant and the
  `isoformat()` text of its local date-time there.
- `arrivals.dfy` (module `Arrivals`): `are_there_any_flights_for_me_today`
  as an imperative method with the two nested loops, the per-page `found`
  flag, the estimate fallback and the three print variants. The method
  appends to an output sequence of `Output` values in place of printing.
  It is proved equal to the specification function `Report`, and the
  properties are proved about `Report`.

The provider's pages, the time-zone database (`tzdb: string -> Zone`) and
the clock are parameters. The clock is `clock: nat -> int`, the instant of
the k-th reading. The i-th matching arrival takes readings 2i (`now_dep`)
and 2i+1 (`now_arr`), because the script calls `datetime.now` twice per
match.

The model follows the code as written, including:

- `found` is cleared at the top of every page (main.py:51). So "No upcoming
  flights!" depends only on the last page, not on all three. See Findings.
- The scheduled arrival is rendered in the origin airport's zone
  (main.py:80). The estimated arrival is rendered in the destination's zone
  (main.py:81).
- An estimate of exactly 0 is falsy: the arrival countdown runs to the
  scheduled arrival (main.py:71-74). Yet `unix_to_iso(0)` is not empty, so
  such a flight with a status gets the full block (main.py:85).

## Model

| member | source | states |
|---|---|---|
| Decimal.NatToDecimal | main.py:43 | the decimal text of n is non-empty and all digits, one digit exactly below 10, at most two exactly below 100, no leading zero from 10 on |
| Decimal.ParseNatToDecimal | main.py:43 | reading the decimal text back gives n |
| Decimal.Pad2 | main.py:43 | `{:02d}` gives all digits, at least two of them, exactly two below 100; below 10 a leading '0'; from 10 on exactly the decimal text, with no padding |
| Decimal.Pad2TwoDigits | main.py:43 | below 100, `{:02d}` is the tens digit then the units digit |
| Decimal.Pad2RoundTrip | main.py:43 | reading `{:02d}` back gives n |
| Countdown.CountdownNegative | main.py:33-38 | a negative duration gives "Departed" on the departure leg and "Arrived" on the arrival leg |
| Countdown.CountdownSentinelIff | main.py:33-43 | the leg's sentinel is returned if and only if the duration is negative |
| Countdown.CountdownFields | main.py:40-43 | a non-negative duration gives `HH:MM:SS` with HH = (d mod 86400) div 3600 < 24, MM = (d mod 3600) div 60 < 60, SS = d mod 60 < 60 |
| Countdown.CountdownRoundTrip | main.py:40-43 | parsing the countdown back gives the duration modulo one day |
| Countdown.CountdownShapeIff | main.py:32-43 | the result has the eight-character `HH:MM:SS` shape if and only if the duration is not negative |
| Countdown.CountdownWrapsDaily | main.py:40-43 | adding a day to a non-negative duration does not change the text |
| Countdown.CountdownZero | main.py:34-43 | zero takes the non-negative branch and gives "00:00:00" |
| Countdown.CountdownOneOneOne | main.py:40-43 | 3661 seconds give "01:01:01" |
| Countdown.CountdownPastOneDay | main.py:40-43 | 90000 seconds give "01:00:00", the day dropped |
| IsoTime.Abs | main.py:25-26 | `abs` returns the offset or its negation, never negative |
| IsoTime.SuffixSign | main.py:24 | the suffix starts with '+' if and only if the offset is at least zero |
| IsoTime.SuffixFields | main.py:25-27 | the suffix is `[+-]H..H:MM`; hours*3600 + minutes*60 is the magnitude less its leftover seconds; minutes < 60 |
| IsoTime.SuffixRoundTrip | main.py:23-27 | parsing the suffix back gives the offset truncated toward zero to whole minutes |
| IsoTime.SuffixWidth | main.py:27 | an offset under 100 hours gives exactly six characters |
| IsoTime.SuffixUtc | main.py:24-27 | offset 0 gives "+00:00" |
| IsoTime.SuffixFiveHoursWest | main.py:24-27 | offset -18000 gives "-05:00" |
| IsoTime.SuffixDropsSeconds | main.py:25-27 | offset 19830 gives "+05:30", its 30 leftover seconds dropped |
| IsoTime.UnixToIsoEmptyIff | main.py:20-29 | the result is empty if and only if the instant is missing |
| IsoTime.UnixToIsoShape | main.py:20-28 | for every zone (offsets strictly within one day, as `datetime` guarantees) a present instant gives the zone's date-time text, 'Z', then a six-character suffix whose sign is '+' if and only if the offset is at least zero (so -52 s gives '-00:00'), whose hours are below 24 and minutes below 60, and whose value is the zone's offset truncated to minutes; together these fix the suffix text |
| Arrivals.ArrivalTargetFallback | main.py:71-74 | the arrival countdown runs to the estimate when it is present and non-zero, else to the scheduled arrival |
| Arrivals.DepartureCountdown | main.py:67-70 | the departure countdown is "Departed" if and only if the scheduled departure is before the departure reading, else `HH:MM:SS` |
| Arrivals.ArrivalCountdown | main.py:68-75 | the arrival countdown is "Arrived" if and only if the countdown target is before the arrival reading, else `HH:MM:SS` |
| Arrivals.VariantRule | main.py:85-93 | full block if and only if status and estimate text are non-empty; status block if and only if not that and the status is not "Scheduled"; minimal if and only if the status is "Scheduled" and there is no estimate text; never the closing message |
| Arrivals.RenderBlockVariant | main.py:61-93 | the same rule on the record: full if and only if there is a status and an estimate; minimal if and only if "Scheduled" without an estimate; the full block shows the estimate in the destination's zone |
| Arrivals.ZeroEstimate | main.py:71-85 | an estimate of 0 with a status gives the full block with the countdown measured to the scheduled arrival |
| Arrivals.FlightBlock | main.py:61-93 | the match branch prints the full block if and only if the record has a status and an estimate, the minimal block if and only if its status is "Scheduled" and it has no estimate, and the status block otherwise; the block is the one `RenderBlock` describes for the record and its two clock readings, whose countdowns `DepartureCountdown` and `ArrivalCountdown` characterise |
| Arrivals.Matches | main.py:53-57 | a page never has more matches than arrivals |
| Arrivals.MatchesMembership | main.py:53-57 | a record is matched if and only if it is on the page and its origin is the source |
| Arrivals.MatchesAppend | main.py:53-57 | matching distributes over concatenation, so provider order is kept |
| Arrivals.AllMatchesConcat | main.py:49-57 | the matches of all pages are the matches of the pages laid end to end |
| Arrivals.AllMatchesMembership | main.py:49-57 | a record is matched if and only if its origin is the source and it is on some page |
| Arrivals.AllMatchesEmptyIff | main.py:49-57 | nothing is matched if and only if no record of any page comes from the source |
| Arrivals.ScanPage | main.py:53-58 | one page's loop appends one block per match, in order, takes two clock readings per match, and leaves `found` set exactly when it was set before or the page had a match |
| Arrivals.FlightsForMeToday | main.py:46-97 | the scan prints exactly `Report`: the blocks of all matches, then the message when the last page had no match |
| Arrivals.ReportShape | main.py:49-97 | the i-th line printed is the block of the i-th match with readings 2i and 2i+1; the message is printed, last, if and only if the last page had no match |
| Arrivals.EarlierMatchThenEmptyPages | main.py:51 | a match on page 0 and no match on pages 1 and 2 prints the block and then "No upcoming flights!" |
| Arrivals.FlightsForMeTodayCorrected | main.py:46-97 | with `found` cleared once before the pages, the scan prints exactly `CorrectedReport` |
| Arrivals.CorrectedReportShape | main.py:49-97 | in the corrected scan, the message is printed if and only if no record of any page comes from the source |
| Arrivals.EarlierMatchThenEmptyPagesCorrected | main.py:51 | in the corrected scan, the same three pages print the block alone |

## Left out

- The FlightRadar24 API client and its nested response dictionaries are not modelled. Each page is given as the sequence of fields the script reads.
- `ZoneInfo` lookup, `datetime.fromtimestamp`, `utcoffset()` and `isoformat()` are not modelled. A zone is abstract: its offset in whole seconds at an instant, strictly within one day of UTC, and its date-time text. Unknown zone names and missing dictionary keys, which raise in the script, are not modelled.
- Record: the scheduled departure and the scheduled arrival are taken to be present integers. When the provider gives `None` for them the script raises a TypeError at main.py:69 (departure) or at main.py:74 (arrival with a falsy estimate), and prints an empty "Scheduled arrival:" line when the arrival is `None` but the estimate is truthy (main.py:80, main.py:20,29); none of these three outcomes is modelled.
- `datetime.now` is not modelled: the clock is a parameter giving whole-second readings.
- Floating-point instants and the `int()` truncation of fractional seconds (main.py:23, main.py:33) are not modelled. Durations and offsets are whole seconds, so a duration of -0.5 s, which the script truncates to 0, cannot be expressed.
- Countdown.TimestampToHms: fractional durations are not modelled (see the line above), so it takes an integer number of seconds.
- IsoTime.OffsetSuffix: takes the offset in whole seconds, so the microseconds a `timedelta` offset could carry are not modelled.
- The printed text, the '=' separator lines and the "FLIGHT INFO" banner are not modelled. Each block is an `Output` value holding the fields the text shows.
- `input()`, `gather_info`, `load_airports`, `dump_airports`, `history.json` and `main` are console and file input/output and are not modelled.

## Findings

| source | as written | input that shows it | evidently intended | confidence | as-written member | corrected member |
|---|---|---|---|---|---|---|
| main.py:51 | `found = False` sits inside the page loop, so only the last page decides whether "No upcoming flights!" is printed | page 0 holds one arrival from the source and pages 1 and 2 hold none: its block is printed, then "No upcoming flights!" | the message only when no page had a match, with `found` cleared once before the pages | high (proved in the model, not executed) | Arrivals.EarlierMatchThenEmptyPages | Arrivals.CorrectedReportShape |
