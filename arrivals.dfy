/**
 * `are_there_any_flights_for_me_today`: three pages of arrivals at the
 * destination are scanned in provider order; each arrival whose origin
 * IATA code is the requested source yields one output block, and
 * "No upcoming flights!" follows when the page scanned last had no match.
 * The flight-data provider, the clock, the time-zone database and the
 * console are parameters and outputs.
 */
module Arrivals {
  import opened IsoTime
  import opened Countdown

  /** The provider is asked for pages 0, 1 and 2. */
  const PageCount: nat := 3

  /** The fields of one arrival the script reads. */
  datatype Record = Record(
    originIata: string,
    originTz: string,
    destinationTz: string,
    status: string,
    airline: string,
    flightNumber: string,
    scheduledDeparture: int,
    scheduledArrival: int,
    estimatedArrival: Option<int>)

  /** The lines every variant of a flight block prints. */
  datatype FlightInfo = FlightInfo(
    airline: string,
    flightNumber: string,
    source: string,
    destination: string,
    scheduled: string,
    timeToDeparture: string,
    timeToArrival: string)

  /** What the script prints: one of three block variants per matching
      arrival, and the closing message. */
  datatype Output =
    | FullBlock(info: FlightInfo, estimated: string, status: string)
    | StatusBlock(info: FlightInfo, status: string)
    | MinimalBlock(info: FlightInfo)
    | NoUpcomingFlights

  /** Python truthiness of the estimated arrival: present and non-zero. */
  predicate Truthy(v: Option<int>) {
    v.Some? && v.value != 0
  }

  /** The instant the arrival countdown is measured to. */
  function ArrivalTarget(r: Record): int {
    if Truthy(r.estimatedArrival) then r.estimatedArrival.value else r.scheduledArrival
  }

  /** The lines shared by every variant of the block for one matching
      arrival, given the two clock readings taken for it (departure leg
      first). The scheduled arrival is rendered in the origin's zone. */
  function BlockInfo(r: Record, source: string, destination: string, tzdb: string -> Zone,
                     nowDep: int, nowArr: int): FlightInfo
  {
    FlightInfo(r.airline, r.flightNumber, source, destination,
               UnixToIso(Some(r.scheduledArrival), tzdb(r.originTz)),
               TimestampToHms(r.scheduledDeparture - nowDep, true),
               TimestampToHms(ArrivalTarget(r) - nowArr, false))
  }

  /** The variant: full when there is a status and a rendered estimate,
      the status block when the status is not "Scheduled", else minimal. */
  function Variant(info: FlightInfo, estimated: string, status: string): Output
  {
    if status != "" && estimated != "" then FullBlock(info, estimated, status)
    else if status != "Scheduled" then StatusBlock(info, status)
    else MinimalBlock(info)
  }

  /** The block printed for one matching arrival; the estimate is rendered
      in the destination's zone. */
  function RenderBlock(r: Record, source: string, destination: string, tzdb: string -> Zone,
                       nowDep: int, nowArr: int): Output
  {
    Variant(BlockInfo(r, source, destination, tzdb, nowDep, nowArr),
            UnixToIso(r.estimatedArrival, tzdb(r.destinationTz)), r.status)
  }

  /** The arrivals of one page whose origin is `source`, in page order. */
  function Matches(page: seq<Record>, source: string): (m: seq<Record>)
    ensures |m| <= |page|
  {
    if page == [] then []
    else
      var last := page[|page| - 1];
      Matches(page[..|page| - 1], source) + (if last.originIata == source then [last] else [])
  }

  /** The matches of every page, pages in order. */
  function AllMatches(pages: seq<seq<Record>>, source: string): seq<Record>
  {
    if pages == [] then []
    else AllMatches(pages[..|pages| - 1], source) + Matches(pages[|pages| - 1], source)
  }

  /** `RenderBlock` for a fixed source, destination and zone database. */
  function Renderer(source: string, destination: string, tzdb: string -> Zone): (Record, int, int) -> Output
  {
    (r: Record, nowDep: int, nowArr: int) => RenderBlock(r, source, destination, tzdb, nowDep, nowArr)
  }

  /** One block per match; the i-th match is timed with clock readings
      2i and 2i+1. */
  function Blocks(ms: seq<Record>, render: (Record, int, int) -> Output, clock: nat -> int): seq<Output>
  {
    seq(|ms|, i requires 0 <= i < |ms| => render(ms[i], clock(2 * i), clock(2 * i + 1)))
  }

  /** Everything the script prints: the blocks of all matches, then the
      message when the last page had no match. */
  function Report(pages: seq<seq<Record>>, source: string, destination: string, tzdb: string -> Zone,
                  clock: nat -> int): seq<Output>
    requires |pages| >= 1
  {
    Blocks(AllMatches(pages, source), Renderer(source, destination, tzdb), clock)
      + (if Matches(pages[|pages| - 1], source) == [] then [NoUpcomingFlights] else [])
  }

  lemma {:induction false} MatchesSnoc(page: seq<Record>, j: nat, source: string)
    requires j < |page|
    ensures page[j].originIata == source ==> Matches(page[..j + 1], source) == Matches(page[..j], source) + [page[j]]
    ensures page[j].originIata != source ==> Matches(page[..j + 1], source) == Matches(page[..j], source)
  {
    assert page[..j + 1][..j] == page[..j];
  }

  lemma {:induction false} AllMatchesSnoc(pages: seq<seq<Record>>, p: nat, source: string)
    requires p < |pages|
    ensures AllMatches(pages[..p + 1], source) == AllMatches(pages[..p], source) + Matches(pages[p], source)
  {
    assert pages[..p + 1][..p] == pages[..p];
  }

  lemma AppendAssoc(a: seq<Record>, b: seq<Record>, c: seq<Record>)
    ensures a + b + c == a + (b + c)
  {
  }

  /** Appending a match appends its block, timed with the next two
      readings. */
  lemma BlocksSnoc(ms: seq<Record>, r: Record, render: (Record, int, int) -> Output, clock: nat -> int, n: nat)
    requires n == 2 * |ms|
    ensures Blocks(ms + [r], render, clock) == Blocks(ms, render, clock) + [render(r, clock(n), clock(n + 1))]
  {
  }

  /** The arrivals of all pages, pages in order. */
  function Concat(pages: seq<seq<Record>>): seq<Record>
  {
    if pages == [] then [] else Concat(pages[..|pages| - 1]) + pages[|pages| - 1]
  }

  /** What the scan prints once `found` tracks every page: the blocks of all
      matches, then the message only when no page had a match. */
  function CorrectedReport(pages: seq<seq<Record>>, source: string, destination: string,
                           tzdb: string -> Zone, clock: nat -> int): seq<Output>
  {
    Blocks(AllMatches(pages, source), Renderer(source, destination, tzdb), clock)
      + (if AllMatches(pages, source) == [] then [NoUpcomingFlights] else [])
  }

  /** The estimate is the countdown target exactly when it is truthy; an
      absent or zero estimate falls back to the scheduled arrival. */
  lemma ArrivalTargetFallback(r: Record)
    ensures r.estimatedArrival.Some? && r.estimatedArrival.value != 0 ==> ArrivalTarget(r) == r.estimatedArrival.value
    ensures r.estimatedArrival == None || r.estimatedArrival == Some(0) ==> ArrivalTarget(r) == r.scheduledArrival
  {
  }

  /** The variant rule, each case as an if-and-only-if; a block is never
      the closing message. */
  lemma VariantRule(info: FlightInfo, estimated: string, status: string)
    ensures var b := Variant(info, estimated, status);
      && (b.FullBlock? <==> status != "" && estimated != "")
      && (b.StatusBlock? <==> (status == "" || estimated == "") && status != "Scheduled")
      && (b.MinimalBlock? <==> status == "Scheduled" && estimated == "")
      && b != NoUpcomingFlights
      && b.info == info
  {
  }

  /** The variant in terms of the record: full when there is a status and an
      estimate (even a zero one), minimal for a "Scheduled" flight without
      an estimate, and the status block otherwise. The full block shows the
      estimate rendered in the destination's zone. */
  lemma RenderBlockVariant(r: Record, source: string, destination: string, tzdb: string -> Zone,
                           nowDep: int, nowArr: int)
    ensures var b := RenderBlock(r, source, destination, tzdb, nowDep, nowArr);
      && (b.FullBlock? <==> r.status != "" && r.estimatedArrival.Some?)
      && (b.StatusBlock? <==> (r.status == "" || r.estimatedArrival.None?) && r.status != "Scheduled")
      && (b.MinimalBlock? <==> r.status == "Scheduled" && r.estimatedArrival.None?)
      && (b.FullBlock? ==> b.estimated == UnixToIso(r.estimatedArrival, tzdb(r.destinationTz)))
      && (b.FullBlock? || b.StatusBlock? ==> b.status == r.status)
  {
    var estimated := UnixToIso(r.estimatedArrival, tzdb(r.destinationTz));
    UnixToIsoEmptyIff(r.estimatedArrival, tzdb(r.destinationTz));
    VariantRule(BlockInfo(r, source, destination, tzdb, nowDep, nowArr), estimated, r.status);
  }

  /** The departure countdown of a block is "Departed" exactly when the
      scheduled departure is before the departure reading, and `HH:MM:SS`
      otherwise. */
  lemma DepartureCountdown(r: Record, source: string, destination: string, tzdb: string -> Zone,
                           nowDep: int, nowArr: int)
    ensures var t := BlockInfo(r, source, destination, tzdb, nowDep, nowArr).timeToDeparture;
      && (t == "Departed" <==> r.scheduledDeparture < nowDep)
      && (r.scheduledDeparture >= nowDep ==> IsHms(t))
  {
    var d := r.scheduledDeparture - nowDep;
    assert BlockInfo(r, source, destination, tzdb, nowDep, nowArr).timeToDeparture == TimestampToHms(d, true);
    CountdownSentinelIff(d, true);
    CountdownShapeIff(d, true);
  }

  /** The arrival countdown of a block is "Arrived" exactly when the arrival
      target is before the arrival reading, and `HH:MM:SS` otherwise. */
  lemma ArrivalCountdown(r: Record, source: string, destination: string, tzdb: string -> Zone,
                         nowDep: int, nowArr: int)
    ensures var t := BlockInfo(r, source, destination, tzdb, nowDep, nowArr).timeToArrival;
      && (t == "Arrived" <==> ArrivalTarget(r) < nowArr)
      && (ArrivalTarget(r) >= nowArr ==> IsHms(t))
  {
    var d := ArrivalTarget(r) - nowArr;
    assert BlockInfo(r, source, destination, tzdb, nowDep, nowArr).timeToArrival == TimestampToHms(d, false);
    CountdownSentinelIff(d, false);
    CountdownShapeIff(d, false);
  }

  /** A zero estimate is falsy, so the arrival countdown runs to the
      scheduled arrival, yet it renders as a non-empty string, so a flight
      with a status gets the full block. */
  lemma ZeroEstimate(r: Record, source: string, destination: string, tzdb: string -> Zone,
                     nowDep: int, nowArr: int)
    requires r.estimatedArrival == Some(0) && r.status != ""
    ensures var b := RenderBlock(r, source, destination, tzdb, nowDep, nowArr);
      && b.FullBlock?
      && b.info.timeToArrival == TimestampToHms(r.scheduledArrival - nowArr, false)
  {
    RenderBlockVariant(r, source, destination, tzdb, nowDep, nowArr);
  }

  /** A record is matched exactly when it is on the page and comes from
      `source`. */
  lemma {:induction false} MatchesMembership(page: seq<Record>, source: string, r: Record)
    ensures r in Matches(page, source) <==> r in page && r.originIata == source
    decreases |page|
  {
    if page != [] {
      var init, last := page[..|page| - 1], page[|page| - 1];
      assert page == init + [last];
      MatchesMembership(init, source, r);
    }
  }

  /** Matching keeps provider order: it distributes over concatenation. */
  lemma {:induction false} MatchesAppend(a: seq<Record>, b: seq<Record>, source: string)
    ensures Matches(a + b, source) == Matches(a, source) + Matches(b, source)
    decreases |b|
  {
    if b == [] {
      assert a + b == a;
    } else {
      var init, last := b[..|b| - 1], b[|b| - 1];
      assert (a + b)[..|a + b| - 1] == a + init;
      assert (a + b)[|a + b| - 1] == last;
      MatchesAppend(a, init, source);
      AppendAssoc(Matches(a, source), Matches(init, source), if last.originIata == source then [last] else []);
    }
  }

  /** The matches of all pages are the matches of the pages laid end to
      end, in order. */
  lemma {:induction false} AllMatchesConcat(pages: seq<seq<Record>>, source: string)
    ensures AllMatches(pages, source) == Matches(Concat(pages), source)
    decreases |pages|
  {
    if pages != [] {
      var init := pages[..|pages| - 1];
      AllMatchesConcat(init, source);
      MatchesAppend(Concat(init), pages[|pages| - 1], source);
    }
  }

  lemma {:induction false} ConcatMembership(pages: seq<seq<Record>>, r: Record)
    ensures r in Concat(pages) <==> exists p :: 0 <= p < |pages| && r in pages[p]
    decreases |pages|
  {
    if pages != [] {
      var init := pages[..|pages| - 1];
      ConcatMembership(init, r);
      assert forall p :: 0 <= p < |init| ==> init[p] == pages[p];
      if r in pages[|pages| - 1] {
        assert exists p :: 0 <= p < |pages| && r in pages[p];
      }
    }
  }

  /** Exactly the records of any page whose origin is `source` are matched. */
  lemma AllMatchesMembership(pages: seq<seq<Record>>, source: string, r: Record)
    ensures r in AllMatches(pages, source) <==> r.originIata == source && exists p :: 0 <= p < |pages| && r in pages[p]
  {
    AllMatchesConcat(pages, source);
    MatchesMembership(Concat(pages), source, r);
    ConcatMembership(pages, r);
  }

  /** No page has a match exactly when nothing is matched. */
  lemma AllMatchesEmptyIff(pages: seq<seq<Record>>, source: string)
    ensures AllMatches(pages, source) == [] <==>
      forall p, r :: 0 <= p < |pages| && r in pages[p] ==> r.originIata != source
  {
    var ms := AllMatches(pages, source);
    if ms != [] {
      AllMatchesMembership(pages, source, ms[0]);
    } else {
      forall p, r | 0 <= p < |pages| && r in pages[p]
        ensures r.originIata != source
      {
        AllMatchesMembership(pages, source, r);
      }
    }
  }

  /** No block rendered for a match is the closing message. */
  lemma BlocksAreBlocks(ms: seq<Record>, source: string, destination: string, tzdb: string -> Zone,
                        clock: nat -> int)
    ensures NoUpcomingFlights !in Blocks(ms, Renderer(source, destination, tzdb), clock)
  {
    var bs := Blocks(ms, Renderer(source, destination, tzdb), clock);
    forall i | 0 <= i < |bs|
      ensures bs[i] != NoUpcomingFlights
    {
      VariantRule(BlockInfo(ms[i], source, destination, tzdb, clock(2 * i), clock(2 * i + 1)),
                  UnixToIso(ms[i].estimatedArrival, tzdb(ms[i].destinationTz)), ms[i].status);
    }
  }

  lemma BlocksIndex(ms: seq<Record>, source: string, destination: string, tzdb: string -> Zone,
                    clock: nat -> int, i: nat)
    requires i < |ms|
    ensures Blocks(ms, Renderer(source, destination, tzdb), clock)[i]
         == RenderBlock(ms[i], source, destination, tzdb, clock(2 * i), clock(2 * i + 1))
  {
    var render := Renderer(source, destination, tzdb);
    assert Blocks(ms, render, clock)[i] == render(ms[i], clock(2 * i), clock(2 * i + 1));
    RendererApply(source, destination, tzdb, ms[i], clock(2 * i), clock(2 * i + 1));
  }

  lemma RendererApply(source: string, destination: string, tzdb: string -> Zone, r: Record, nowDep: int, nowArr: int)
    ensures Renderer(source, destination, tzdb)(r, nowDep, nowArr) == RenderBlock(r, source, destination, tzdb, nowDep, nowArr)
  {
  }

  /** What the scan prints: the i-th line is the block of the i-th match,
      timed with readings 2i and 2i+1, and "No upcoming flights!" is printed,
      last, exactly when the last page had no match. */
  lemma ReportShape(pages: seq<seq<Record>>, source: string, destination: string, tzdb: string -> Zone,
                    clock: nat -> int)
    requires |pages| >= 1
    ensures var rep, ms := Report(pages, source, destination, tzdb, clock), AllMatches(pages, source);
      && |rep| == |ms| + (if Matches(pages[|pages| - 1], source) == [] then 1 else 0)
      && (forall i :: 0 <= i < |ms| ==> rep[i] == RenderBlock(ms[i], source, destination, tzdb, clock(2 * i), clock(2 * i + 1)))
      && (NoUpcomingFlights in rep <==> Matches(pages[|pages| - 1], source) == [])
      && (Matches(pages[|pages| - 1], source) == [] ==> rep[|rep| - 1] == NoUpcomingFlights)
  {
    var ms := AllMatches(pages, source);
    BlocksAreBlocks(ms, source, destination, tzdb, clock);
    forall i | 0 <= i < |ms|
      ensures Report(pages, source, destination, tzdb, clock)[i]
           == RenderBlock(ms[i], source, destination, tzdb, clock(2 * i), clock(2 * i + 1))
    {
      BlocksIndex(ms, source, destination, tzdb, clock, i);
    }
  }

  /** With `found` tracking every page, "No upcoming flights!" is printed
      exactly when no record of any page comes from `source`. */
  lemma CorrectedReportShape(pages: seq<seq<Record>>, source: string, destination: string, tzdb: string -> Zone,
                             clock: nat -> int)
    ensures var rep, ms := CorrectedReport(pages, source, destination, tzdb, clock), AllMatches(pages, source);
      && (forall i :: 0 <= i < |ms| ==> rep[i] == RenderBlock(ms[i], source, destination, tzdb, clock(2 * i), clock(2 * i + 1)))
      && (NoUpcomingFlights in rep <==>
            forall p, r :: 0 <= p < |pages| && r in pages[p] ==> r.originIata != source)
  {
    var ms := AllMatches(pages, source);
    BlocksAreBlocks(ms, source, destination, tzdb, clock);
    AllMatchesEmptyIff(pages, source);
    forall i | 0 <= i < |ms|
      ensures CorrectedReport(pages, source, destination, tzdb, clock)[i]
           == RenderBlock(ms[i], source, destination, tzdb, clock(2 * i), clock(2 * i + 1))
    {
      BlocksIndex(ms, source, destination, tzdb, clock, i);
    }
  }

  lemma AllMatchesOfExample(r: Record)
    ensures AllMatches([[r], [], []], r.originIata) == [r]
  {
    var pages: seq<seq<Record>> := [[r], [], []];
    assert Matches([r], r.originIata) == [r] by {
      assert [r][..0] == [];
    }
    assert pages[..1] == [[r]] && pages[..1][..0] == [];
    assert AllMatches(pages[..1], r.originIata) == [r];
    assert pages[..2][..1] == pages[..1];
    assert AllMatches(pages[..2], r.originIata) == [r];
    assert pages[..2] == pages[..|pages| - 1];
  }

  /** As written, a match on the first page followed by two pages without
      one prints its block and then "No upcoming flights!". */
  lemma EarlierMatchThenEmptyPages(r: Record, destination: string, tzdb: string -> Zone, clock: nat -> int)
    ensures Report([[r], [], []], r.originIata, destination, tzdb, clock)
      == [RenderBlock(r, r.originIata, destination, tzdb, clock(0), clock(1)), NoUpcomingFlights]
  {
    var pages: seq<seq<Record>> := [[r], [], []];
    assert Matches([r], r.originIata) == [r] by {
      assert [r][..0] == [];
    }
    AllMatchesOfExample(r);
    BlocksSnoc([], r, Renderer(r.originIata, destination, tzdb), clock, 0);
  }

  /** On the same pages the corrected scan prints the block alone. */
  lemma EarlierMatchThenEmptyPagesCorrected(r: Record, destination: string, tzdb: string -> Zone, clock: nat -> int)
    ensures CorrectedReport([[r], [], []], r.originIata, destination, tzdb, clock)
      == [RenderBlock(r, r.originIata, destination, tzdb, clock(0), clock(1))]
  {
    var pages: seq<seq<Record>> := [[r], [], []];
    assert Matches([r], r.originIata) == [r] by {
      assert [r][..0] == [];
    }
    AllMatchesOfExample(r);
    BlocksSnoc([], r, Renderer(r.originIata, destination, tzdb), clock, 0);
  }

  /** The scan as the script runs it. `clock(k)` is the instant of the k-th
      reading of the clock; `found` is reset at the top of every page. */
  method FlightsForMeToday(source: string, destination: string, pages: seq<seq<Record>>,
                           tzdb: string -> Zone, clock: nat -> int) returns (out: seq<Output>)
    requires |pages| == PageCount
    ensures out == Report(pages, source, destination, tzdb, clock)
  {
    out := [];
    ghost var matched: seq<Record> := [];
    var readings: nat := 0;
    var found := false;
    for page := 0 to PageCount
      invariant matched == AllMatches(pages[..page], source)
      invariant out == Blocks(matched, Renderer(source, destination, tzdb), clock)
      invariant readings == 2 * |matched|
      invariant page > 0 ==> found == (Matches(pages[page - 1], source) != [])
    {
      AllMatchesSnoc(pages, page, source);
      found := false;
      out, matched, readings, found := ScanPage(source, destination, pages[page], tzdb, clock, out, matched, readings, found);
    }
    assert pages[..PageCount] == pages;
    if !found {
      out := out + [NoUpcomingFlights];
    }
  }

  /** The inner loop over the arrivals of one page: each match sets
      `found`, appends its block and takes the next two clock readings. */
  method ScanPage(source: string, destination: string, flights: seq<Record>, tzdb: string -> Zone,
                  clock: nat -> int, out0: seq<Output>, ghost matched0: seq<Record>, readings0: nat, found0: bool)
    returns (out: seq<Output>, ghost matched: seq<Record>, readings: nat, found: bool)
    requires out0 == Blocks(matched0, Renderer(source, destination, tzdb), clock)
    requires readings0 == 2 * |matched0|
    ensures matched == matched0 + Matches(flights, source)
    ensures out == Blocks(matched, Renderer(source, destination, tzdb), clock)
    ensures readings == 2 * |matched|
    ensures found == (found0 || Matches(flights, source) != [])
  {
    ghost var render := Renderer(source, destination, tzdb);
    out, matched, readings, found := out0, matched0, readings0, found0;
    assert flights[..0] == [];
    for j := 0 to |flights|
      invariant matched == matched0 + Matches(flights[..j], source)
      invariant out == Blocks(matched, render, clock)
      invariant readings == 2 * |matched|
      invariant found == (found0 || Matches(flights[..j], source) != [])
    {
      var fl := flights[j];
      MatchesSnoc(flights, j, source);
      if fl.originIata == source {
        found := true;
        BlocksSnoc(matched, fl, render, clock, readings);
        var block := FlightBlock(fl, source, destination, tzdb, clock(readings), clock(readings + 1));
        readings := readings + 2;
        out := out + [block];
        AppendAssoc(matched0, Matches(flights[..j], source), [fl]);
        matched := matched + [fl];
      }
    }
    assert flights[..|flights|] == flights;
  }

  /** The match branch: look up both zones, take the departure countdown
      and the arrival countdown (measured to the estimate when it is truthy,
      else to the scheduled arrival), render both arrival instants and
      choose the variant. */
  method FlightBlock(fl: Record, source: string, destination: string, tzdb: string -> Zone,
                     nowDep: int, nowArr: int) returns (block: Output)
    ensures block == RenderBlock(fl, source, destination, tzdb, nowDep, nowArr)
    ensures block.FullBlock? <==> fl.status != "" && fl.estimatedArrival.Some?
    ensures block.StatusBlock? <==> (fl.status == "" || fl.estimatedArrival.None?) && fl.status != "Scheduled"
    ensures block.MinimalBlock? <==> fl.status == "Scheduled" && fl.estimatedArrival.None?
  {
    var status := fl.status;
    var originTz := tzdb(fl.originTz);
    var destinationTz := tzdb(fl.destinationTz);
    var deltaDep := TimestampToHms(fl.scheduledDeparture - nowDep, true);
    var timediffArr := ArrivalTarget(fl) - nowArr;
    var deltaArr := TimestampToHms(timediffArr, false);
    var scheduled := UnixToIso(Some(fl.scheduledArrival), originTz);
    var estimated := UnixToIso(fl.estimatedArrival, destinationTz);
    var info := FlightInfo(fl.airline, fl.flightNumber, source, destination, scheduled, deltaDep, deltaArr);
    block := Variant(info, estimated, status);
    assert info == BlockInfo(fl, source, destination, tzdb, nowDep, nowArr);
    RenderBlockVariant(fl, source, destination, tzdb, nowDep, nowArr);
  }

  /** The scan with `found` cleared once, before the first page, so that the
      message reflects every page. */
  method FlightsForMeTodayCorrected(source: string, destination: string, pages: seq<seq<Record>>,
                                    tzdb: string -> Zone, clock: nat -> int) returns (out: seq<Output>)
    requires |pages| == PageCount
    ensures out == CorrectedReport(pages, source, destination, tzdb, clock)
  {
    out := [];
    ghost var matched: seq<Record> := [];
    var readings: nat := 0;
    var found := false;
    for page := 0 to PageCount
      invariant matched == AllMatches(pages[..page], source)
      invariant out == Blocks(matched, Renderer(source, destination, tzdb), clock)
      invariant readings == 2 * |matched|
      invariant found == (matched != [])
    {
      AllMatchesSnoc(pages, page, source);
      out, matched, readings, found := ScanPage(source, destination, pages[page], tzdb, clock, out, matched, readings, found);
    }
    assert pages[..PageCount] == pages;
    if !found {
      out := out + [NoUpcomingFlights];
    }
  }
}
