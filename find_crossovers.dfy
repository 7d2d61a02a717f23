/** The crossover matcher: for each scene of the EO-1 Hyperion catalog export,
    a footprint polygon and a time window around its acquisition are sent to
    the Planet search, and every feature found becomes a crossover carrying
    its acquisition offset. Scenes with no crossover are dropped. */
module FindCrossovers {
  import opened Strings
  import opened DateTimes
  import opened SearchPlanet

  /** CROSS_OVER_WINDOW_HOURS */
  const CrossOverWindowHours: int := 4

  datatype Coordinate = Coordinate(longitude: real, latitude: real)

  /** One record of the USGS export, as far as the matcher reads it. The scene
      start time is the instant strptime parses from its "Scene Start Time". */
  datatype UsgsRecord = UsgsRecord(
    displayId: string,
    upperLeft: Coordinate,
    upperRight: Coordinate,
    lowerRight: Coordinate,
    lowerLeft: Coordinate,
    sceneStartTime: Instant)

  datatype Crossover = Crossover(id: string, acquisitionOffset: string, properties: Properties)

  datatype CrossoverGroup = CrossoverGroup(usgsId: string, crossovers: seq<Crossover>)

  // ---------------------------------------------------------------------------
  // Footprint

  function Corners(record: UsgsRecord): seq<Coordinate> {
    [record.upperLeft, record.upperRight, record.lowerRight, record.lowerLeft]
  }

  function PositionOf(c: Coordinate): seq<real> {
    [c.longitude, c.latitude]
  }

  /** The corners a closed ring of five [longitude, latitude] positions stands for. */
  function RingCorners(g: Geometry): Option<seq<Coordinate>> {
    if && |g.coordinates| == 1 && |g.coordinates[0]| == 5
       && g.coordinates[0][4] == g.coordinates[0][0]
       && forall i :: 0 <= i < 5 ==> |g.coordinates[0][i]| == 2
    then
      var ring := g.coordinates[0];
      Some(seq(4, i requires 0 <= i < 4 => Coordinate(ring[i][0], ring[i][1])))
    else None
  }

  /** usgs_record_to_geojson: one ring of five vertices, UL, UR, LR, LL and UL
      again, each vertex the corner's [longitude, latitude] as recorded. */
  function UsgsRecordToGeoJson(record: UsgsRecord): (g: Geometry)
    ensures |g.coordinates| == 1 && |g.coordinates[0]| == 5
    ensures g.coordinates[0][4] == g.coordinates[0][0]
    ensures forall i :: 0 <= i < 4 ==> g.coordinates[0][i] == PositionOf(Corners(record)[i])
    ensures RingCorners(g) == Some(Corners(record))
  {
    var g := Polygon([[
      PositionOf(record.upperLeft),
      PositionOf(record.upperRight),
      PositionOf(record.lowerRight),
      PositionOf(record.lowerLeft),
      PositionOf(record.upperLeft)]]);
    assert RingCorners(g).value == Corners(record);
    g
  }

  // ---------------------------------------------------------------------------
  // Time window

  /** The two instants of the window: a half-width of delta_hours/2 hours (Python 2
      integer division, i.e. floor) on each side of the acquisition. */
  function WindowInstants(t: Instant, deltaHours: int): (int, int) {
    var half := deltaHours / 2;
    (t - half * MicrosPerHour, t + half * MicrosPerHour)
  }

  /** The window is symmetric about the acquisition; for an even width it spans
      exactly that many hours, for an odd one an hour less. */
  lemma WindowSymmetric(t: Instant, deltaHours: int)
    ensures var (s, e) := WindowInstants(t, deltaHours);
      && t - s == e - t == (deltaHours / 2) * MicrosPerHour
      && (deltaHours >= 0 ==> s <= t <= e)
      && (e - s == deltaHours * MicrosPerHour <==> deltaHours % 2 == 0)
      && (deltaHours % 2 == 1 ==> e - s == (deltaHours - 1) * MicrosPerHour)
  {
  }

  /** With the script's four-hour width the acquisition lies strictly inside
      its window, two hours from either end. */
  lemma WindowStrict(t: Instant)
    ensures var (s, e) := WindowInstants(t, CrossOverWindowHours);
      s < t < e && t - s == e - t == 2 * MicrosPerHour
  {
  }

  predicate InRange(u: int) {
    0 <= u < InstantLimit
  }

  /** calculate_crossover_window: both bounds formatted as timestamps, or the
      exception the first failing step raises (datetime arithmetic overflow,
      then a year before 1900 refused by strftime, start before end). */
  function CrossoverWindow(t: Instant, deltaHours: int): (r: Result<(string, string)>)
    ensures var (s, e) := WindowInstants(t, deltaHours);
      r.Ok? <==> InRange(s) && InRange(e) && FormatNaive(s).Ok? && FormatNaive(e).Ok?
    ensures var (s, e) := WindowInstants(t, deltaHours);
      r.Ok? ==> r.value == (FormatNaive(s).value, FormatNaive(e).value)
    ensures var (s, e) := WindowInstants(t, deltaHours);
      !InRange(s) ==> r == Err(OverflowError)
    ensures var (s, e) := WindowInstants(t, deltaHours);
      InRange(s) && FormatNaive(s).Err? ==> r == Err(FormatNaive(s).error)
    ensures var (s, e) := WindowInstants(t, deltaHours);
      InRange(s) && FormatNaive(s).Ok? && !InRange(e) ==> r == Err(OverflowError)
    ensures var (s, e) := WindowInstants(t, deltaHours);
      (InRange(s) && FormatNaive(s).Ok? && InRange(e) && FormatNaive(e).Err?)
        ==> r == Err(FormatNaive(e).error)
  {
    var half := deltaHours / 2;
    var bounds := WindowInstants(t, deltaHours);
    var start := AddHours(t, -half);
    assert start.Ok? ==> start.value == bounds.0;
    if start.Err? then Err(start.error)
    else
      var windowStart := FormatNaive(start.value);
      if windowStart.Err? then Err(windowStart.error)
      else
        var end := AddHours(t, half);
        assert end.Ok? ==> end.value == bounds.1;
        if end.Err? then Err(end.error)
        else
          var windowEnd := FormatNaive(end.value);
          if windowEnd.Err? then Err(windowEnd.error)
          else Ok((windowStart.value, windowEnd.value))
  }

  /** A scene window read by the search service: a candidate acquired at `c` passes
      the date filter exactly when it lies in the window, both ends included. */
  lemma {:induction false} WindowAdmits(t: Instant, deltaHours: int, c: Instant)
    requires CrossoverWindow(t, deltaHours).Ok?
    ensures var w := CrossoverWindow(t, deltaHours).value;
      var (s, e) := WindowInstants(t, deltaHours);
      DateRangeAdmits(DateRange(w.0, w.1), c) <==> s <= c <= e
  {
    var (s, e) := WindowInstants(t, deltaHours);
    FormatNaiveSpec(s as Instant);
    FormatNaiveSpec(e as Instant);
    CivilRoundTrip(s as Instant);
    CivilRoundTrip(e as Instant);
  }

  // ---------------------------------------------------------------------------
  // Acquisition offset

  function Abs(x: int): nat {
    if x < 0 then -x else x
  }

  datatype Offset = Offset(days: nat, hours: nat, minutes: nat)

  function OffsetSeconds(o: Offset): nat {
    o.days * 86400 + o.hours * 3600 + o.minutes * 60
  }

  /** (td.days, td.seconds // 3600, (td.seconds // 60) % 60) for td = abs(a - b):
      whole days, hours and minutes of the distance, seconds and microseconds
      truncated. */
  function OffsetBetween(a: Instant, b: Instant): (o: Offset)
    ensures o.hours < 24 && o.minutes < 60
    ensures OffsetSeconds(o) <= Abs(a - b) / MicrosPerSecond < OffsetSeconds(o) + 60
  {
    var td := Abs(a - b);
    var seconds := (td % MicrosPerDay) / MicrosPerSecond;
    assert td / MicrosPerSecond == (td / MicrosPerDay) * 86400 + seconds;
    Offset(td / MicrosPerDay, seconds / 3600, (seconds / 60) % 60)
  }

  /** The decomposition is the only one with hours below 24 and minutes below 60
      that brackets the distance to the minute. */
  lemma OffsetUnique(a: Instant, b: Instant, o: Offset)
    requires o.hours < 24 && o.minutes < 60
    requires OffsetSeconds(o) <= Abs(a - b) / MicrosPerSecond < OffsetSeconds(o) + 60
    ensures o == OffsetBetween(a, b)
  {
    var p := OffsetBetween(a, b);
    var x := Abs(a - b) / MicrosPerSecond;
    assert o.days == x / 86400 && p.days == x / 86400;
    assert o.hours == (x % 86400) / 3600 && p.hours == (x % 86400) / 3600;
  }

  /** The words time_between_dates prints for an offset,
      "<days> days <hours> hours <minutes> minutes": six words, one space apart. */
  function OffsetText(o: Offset): string {
    Join([NatToString(o.days), "days", NatToString(o.hours), "hours",
          NatToString(o.minutes), "minutes"], ' ')
  }

  /** time_between_dates: six words "<d> days <h> hours <m> minutes" whose
      numbers, with hours below 24 and minutes below 60, give the distance
      between the two instants to the minute. */
  function TimeBetweenDates(a: Instant, b: Instant): (text: string)
    ensures var f := Split(text, ' ');
      && |f| == 6 && f[1] == "days" && f[3] == "hours" && f[5] == "minutes"
      && AllDigits(f[0]) && AllDigits(f[2]) && AllDigits(f[4])
      && (forall i :: i in {0, 2, 4} ==> |f[i]| >= 1 && (|f[i]| > 1 ==> f[i][0] != '0'))
      && DigitsValue(f[2]) < 24 && DigitsValue(f[4]) < 60
      && var seconds := DigitsValue(f[0]) * 86400 + DigitsValue(f[2]) * 3600 + DigitsValue(f[4]) * 60;
         seconds <= Abs(a - b) / MicrosPerSecond < seconds + 60
  {
    var o := OffsetBetween(a, b);
    OffsetTextReadsBack(o);
    PadDigits(o.days, 1);
    PadDigits(o.hours, 1);
    PadDigits(o.minutes, 1);
    OffsetText(o)
  }

  /** The offset does not depend on which of the two instants comes first. */
  lemma TimeBetweenSymmetric(a: Instant, b: Instant)
    ensures TimeBetweenDates(a, b) == TimeBetweenDates(b, a)
    ensures OffsetBetween(a, b) == OffsetBetween(b, a)
  {
  }

  /** The rendered offset splits on spaces into six words that read back as the
      days, hours and minutes. */
  lemma OffsetTextReadsBack(o: Offset)
    ensures Split(OffsetText(o), ' ')
         == [NatToString(o.days), "days", NatToString(o.hours), "hours", NatToString(o.minutes), "minutes"]
    ensures var f := Split(OffsetText(o), ' ');
      && |f| == 6 && f[1] == "days" && f[3] == "hours" && f[5] == "minutes"
      && AllDigits(f[0]) && AllDigits(f[2]) && AllDigits(f[4])
      && DigitsValue(f[0]) == o.days && DigitsValue(f[2]) == o.hours
      && DigitsValue(f[4]) == o.minutes
  {
    var d, h, m := NatToString(o.days), NatToString(o.hours), NatToString(o.minutes);
    NatToStringDigits(o.days);
    NatToStringDigits(o.hours);
    NatToStringDigits(o.minutes);
    var parts := [d, "days", h, "hours", m, "minutes"];
    forall i | 0 <= i < 6 ensures ' ' !in parts[i] {
      if i == 0 || i == 2 || i == 4 {
        assert AllDigits(parts[i]);
      }
    }
    SplitJoin(parts, ' ');
  }

  // ---------------------------------------------------------------------------
  // Matching

  /** The crossover a search result becomes. `parseAcquired` stands for
      dateutil's parse of the "acquired" timestamp with its zone dropped. */
  function MakeCrossover(t: Instant, f: Feature, parseAcquired: string -> Instant): Crossover {
    Crossover(f.id, TimeBetweenDates(t, parseAcquired(f.properties.acquired)), f.properties)
  }

  /** The request the matcher sends for a scene: its footprint and its window
      bounds, with the default item types. */
  function MatcherRequest(record: UsgsRecord): (r: Result<SearchRequest>)
    ensures r.Ok? <==> CrossoverWindow(record.sceneStartTime, CrossOverWindowHours).Ok?
    ensures r.Ok? ==> var w := CrossoverWindow(record.sceneStartTime, CrossOverWindowHours).value;
      && r.value.itemTypes == DefaultItemTypes
      && ReadRequest(r.value) == Some((UsgsRecordToGeoJson(record), DateRange(w.0, w.1)))
  {
    match CrossoverWindow(record.sceneStartTime, CrossOverWindowHours)
    case Err(e) => Err(e)
    case Ok(w) => Ok(SearchEndpointRequest(UsgsRecordToGeoJson(record), w.0, w.1))
  }

  /** The crossovers of a list of search results, one per result, in order. */
  function CrossoversFor(t: Instant, results: seq<Feature>, parseAcquired: string -> Instant)
    : seq<Crossover>
    decreases |results|
  {
    if |results| == 0 then []
    else
      CrossoversFor(t, results[..|results| - 1], parseAcquired)
        + [MakeCrossover(t, results[|results| - 1], parseAcquired)]
  }

  /** Each crossover copies its result's id and properties and carries the
      offset of its acquisition from the scene's. */
  lemma {:induction false} CrossoversForSpec(t: Instant, results: seq<Feature>,
                                             parseAcquired: string -> Instant)
    ensures var cs := CrossoversFor(t, results, parseAcquired);
      && |cs| == |results|
      && forall k :: 0 <= k < |results| ==> cs[k] == MakeCrossover(t, results[k], parseAcquired)
    decreases |results|
  {
    if |results| > 0 {
      var front := results[..|results| - 1];
      CrossoversForSpec(t, front, parseAcquired);
      forall k | 0 <= k < |front| ensures front[k] == results[k] { }
    }
  }

  /** find_crossovers as a value: the window's exception, or the crossovers of
      what the search answers. */
  function CrossoversOf(record: UsgsRecord, post: SearchRequest -> seq<Feature>,
                        parseAcquired: string -> Instant): Result<seq<Crossover>>
  {
    match MatcherRequest(record)
    case Err(e) => Err(e)
    case Ok(req) => Ok(CrossoversFor(record.sceneStartTime, post(req), parseAcquired))
  }

  /** The loop of find_crossovers: one crossover appended per search result,
      copying the result's id and properties and the acquisition offset. */
  method CollectCrossovers(t: Instant, searchResults: seq<Feature>, parseAcquired: string -> Instant)
    returns (crossovers: seq<Crossover>)
    ensures crossovers == CrossoversFor(t, searchResults, parseAcquired)
  {
    crossovers := [];
    if |searchResults| > 0 {
      var i := 0;
      while i < |searchResults|
        invariant 0 <= i <= |searchResults|
        invariant crossovers == CrossoversFor(t, searchResults[..i], parseAcquired)
      {
        var result := searchResults[i];
        var offset := TimeBetweenDates(t, parseAcquired(result.properties.acquired));
        assert searchResults[..i + 1][..i] == searchResults[..i];
        crossovers := crossovers + [Crossover(result.id, offset, result.properties)];
        i := i + 1;
      }
      assert searchResults[..i] == searchResults;
    }
  }

  /** find_crossovers: the window (or its exception), the search for the
      scene's footprint inside it, and the crossovers of the results. */
  method FindCrossovers(record: UsgsRecord, post: SearchRequest -> seq<Feature>,
                        parseAcquired: string -> Instant)
    returns (r: Result<seq<Crossover>>)
    ensures r == CrossoversOf(record, post, parseAcquired)
    ensures r.Err? <==> CrossoverWindow(record.sceneStartTime, CrossOverWindowHours).Err?
    ensures r.Err? ==> r.error == CrossoverWindow(record.sceneStartTime, CrossOverWindowHours).error
  {
    var geometry := UsgsRecordToGeoJson(record);
    var t := record.sceneStartTime;
    var window := CrossoverWindow(t, CrossOverWindowHours);
    if window.Err? {
      assert MatcherRequest(record).Err?;
      return Err(window.error);
    }
    var windowStart, windowEnd := window.value.0, window.value.1;
    var searchResults := Search(post, geometry, windowStart, windowEnd);
    assert MatcherRequest(record) == Ok(SearchEndpointRequest(geometry, windowStart, windowEnd));
    var crossovers := CollectCrossovers(t, searchResults, parseAcquired);
    r := Ok(crossovers);
  }

  // ---------------------------------------------------------------------------
  // The batch

  /** find_crossovers with the search and the timestamp parser fixed. */
  function Matcher(post: SearchRequest -> seq<Feature>, parseAcquired: string -> Instant)
    : UsgsRecord -> Result<seq<Crossover>>
  {
    record => CrossoversOf(record, post, parseAcquired)
  }

  /** One turn of the batch loop: an exception so far or on this record ends
      the run; a record joins with its crossovers when it has any. */
  function GroupsStep(sofar: Result<seq<CrossoverGroup>>, record: UsgsRecord,
                      find: UsgsRecord -> Result<seq<Crossover>>): Result<seq<CrossoverGroup>>
  {
    match sofar
    case Err(e) => Err(e)
    case Ok(gs) =>
      match find(record)
      case Err(e) => Err(e)
      case Ok(cs) => Ok(if |cs| > 0 then gs + [CrossoverGroup(record.displayId, cs)] else gs)
  }

  /** The groups of the batch loop, record by record, for any per-record
      matcher `find`. */
  function Groups(records: seq<UsgsRecord>, find: UsgsRecord -> Result<seq<Crossover>>)
    : Result<seq<CrossoverGroup>>
    decreases |records|
  {
    if |records| == 0 then Ok([])
    else GroupsStep(Groups(records[..|records| - 1], find), records[|records| - 1], find)
  }

  lemma GroupsExtend(records: seq<UsgsRecord>, i: int, find: UsgsRecord -> Result<seq<Crossover>>)
    requires 0 <= i < |records|
    ensures Groups(records[..i + 1], find) == GroupsStep(Groups(records[..i], find), records[i], find)
  {
    assert records[..i + 1][..i] == records[..i];
  }

  predicate HasCrossovers(record: UsgsRecord, find: UsgsRecord -> Result<seq<Crossover>>) {
    find(record).Ok? && |find(record).value| > 0
  }

  /** Indices of the records that have crossovers, in increasing order. */
  function Kept(records: seq<UsgsRecord>, find: UsgsRecord -> Result<seq<Crossover>>): seq<int>
    decreases |records|
  {
    if |records| == 0 then []
    else
      Kept(records[..|records| - 1], find)
        + (if HasCrossovers(records[|records| - 1], find) then [|records| - 1] else [])
  }

  /** Kept lists, increasingly, exactly the records that have crossovers. */
  lemma {:induction false} KeptSpec(records: seq<UsgsRecord>, find: UsgsRecord -> Result<seq<Crossover>>)
    ensures var ks := Kept(records, find);
      && (forall k :: 0 <= k < |ks| ==> 0 <= ks[k] < |records|)
      && (forall k, l :: 0 <= k < l < |ks| ==> ks[k] < ks[l])
      && (forall i :: 0 <= i < |records| ==> (i in ks <==> HasCrossovers(records[i], find)))
    decreases |records|
  {
    if |records| > 0 {
      var front := records[..|records| - 1];
      KeptSpec(front, find);
      forall i | 0 <= i < |front| ensures front[i] == records[i] { }
    }
  }

  /** An exception on the records so far ends the whole batch with it. */
  lemma {:induction false} GroupsErrPersists(records: seq<UsgsRecord>, j: nat,
                                              find: UsgsRecord -> Result<seq<Crossover>>)
    requires j <= |records| && Groups(records[..j], find).Err?
    ensures Groups(records, find) == Groups(records[..j], find)
    decreases |records| - j
  {
    if j < |records| {
      var next := records[..j + 1];
      assert next[..j] == records[..j];
      GroupsErrPersists(records, j + 1, find);
    } else {
      assert records[..j] == records;
    }
  }

  /** The batch fails exactly when the matcher fails on some record, and then
      with the exception of the first such record. */
  lemma {:induction false} GroupsErr(records: seq<UsgsRecord>, find: UsgsRecord -> Result<seq<Crossover>>)
    ensures Groups(records, find).Err?
        <==> exists i :: 0 <= i < |records| && find(records[i]).Err?
    ensures Groups(records, find).Err? ==>
      exists i :: && 0 <= i < |records| && find(records[i]) == Err(Groups(records, find).error)
             && forall j :: 0 <= j < i ==> find(records[j]).Ok?
    decreases |records|
  {
    if |records| > 0 {
      var front := records[..|records| - 1];
      GroupsErr(front, find);
      forall i | 0 <= i < |front| ensures front[i] == records[i] { }
    }
  }

  /** A successful batch has one group per kept record, in record order, whose id
      is the record's display id and whose list is the record's crossovers;
      no group is empty. */
  lemma {:induction false} GroupsSpec(records: seq<UsgsRecord>, find: UsgsRecord -> Result<seq<Crossover>>)
    requires Groups(records, find).Ok?
    ensures var gs := Groups(records, find).value;
      var ks := Kept(records, find);
      && |gs| == |ks|
      && (forall k :: 0 <= k < |ks| ==>
            (0 <= ks[k] < |records| && HasCrossovers(records[ks[k]], find)
             && gs[k] == CrossoverGroup(records[ks[k]].displayId, find(records[ks[k]]).value)))
      && (forall k :: 0 <= k < |gs| ==> |gs[k].crossovers| > 0)
    decreases |records|
  {
    if |records| > 0 {
      var front := records[..|records| - 1];
      GroupsSpec(front, find);
      KeptSpec(front, find);
      forall i | 0 <= i < |front| ensures front[i] == records[i] { }
    }
  }

  /** The batch loop: find_crossovers per record, and for a record with
      crossovers a second find_crossovers whose list is stored under the
      record's display id. */
  method FindAllCrossovers(records: seq<UsgsRecord>, post: SearchRequest -> seq<Feature>,
                           parseAcquired: string -> Instant)
    returns (r: Result<seq<CrossoverGroup>>)
    ensures r == Groups(records, Matcher(post, parseAcquired))
  {
    var find := Matcher(post, parseAcquired);
    var crossoverGroups: seq<CrossoverGroup> := [];
    var i := 0;
    while i < |records|
      invariant 0 <= i <= |records|
      invariant Groups(records[..i], find) == Ok(crossoverGroups)
    {
      var usgsRecord := records[i];
      GroupsExtend(records, i, find);
      var crossovers := FindCrossovers(usgsRecord, post, parseAcquired);
      assert crossovers == find(usgsRecord);
      if crossovers.Err? {
        GroupsErrPersists(records, i + 1, find);
        return Err(crossovers.error);
      }
      if |crossovers.value| > 0 {
        var stored := FindCrossovers(usgsRecord, post, parseAcquired);
        // the list stored is the list just checked: the search answers alike
        crossoverGroups := crossoverGroups + [CrossoverGroup(usgsRecord.displayId, stored.value)];
      }
      i := i + 1;
    }
    assert records[..i] == records;
    r := Ok(crossoverGroups);
  }

  // ---------------------------------------------------------------------------
  // The documented scenario

  /** 2017-02-15T10:00:00 */
  const ExampleStart: Instant := 63622749600000000

  /** Day 736374 after 0001-01-01 is 2017-02-15. */
  lemma ExampleDay()
    ensures OrdinalDate(736374) == (2017, 2, 15)
  {
    assert MonthDay(2, 14, false) == (2, 15);
    assert MonthDay(1, 45, false) == (2, 15);
    assert Cycles(736374, 5, 5889, 0, 5889, 4, 45, 0, 45);
  }

  /** Whole hours of 2017-02-15. */
  lemma ExampleHour(t: Instant, hour: int)
    requires 0 <= hour < 24 && t == 736374 * MicrosPerDay + hour * MicrosPerHour
    ensures ToCivil(t) == DateTime(2017, 2, 15, hour, 0, 0, 0)
  {
    ExampleDay();
    assert t / MicrosPerDay == 736374;
    assert t % MicrosPerDay == hour * MicrosPerHour;
  }

  lemma ExampleStartIsThatDate()
    ensures FromCivil(DateTime(2017, 2, 15, 10, 0, 0, 0)) == ExampleStart
    ensures ToCivil(ExampleStart) == DateTime(2017, 2, 15, 10, 0, 0, 0)
  {
    ExampleHour(ExampleStart, 10);
  }

  lemma ExampleDateText()
    ensures Triple(2017, 4, 2, 15, '-') == "2017-02-15"
  {
    assert Pad(201, 3) == "201";
    assert Pad(2017, 4) == "2017";
    assert Pad(2, 2) == "02";
    assert Pad(15, 2) == "15";
  }

  lemma ExampleTimeTexts()
    ensures Triple(8, 2, 0, 0, ':') == "08:00:00"
    ensures Triple(12, 2, 0, 0, ':') == "12:00:00"
  {
    assert Pad(8, 2) == "08";
    assert Pad(12, 2) == "12";
    assert Pad(0, 2) == "00";
  }

  lemma ExampleTextPieces()
    ensures "2017-02-15T08:00:00.000000Z" == "2017-02-15" + "T" + "08:00:00" + "." + "000000" + "" + "Z"
    ensures "2017-02-15T12:00:00.000000Z" == "2017-02-15" + "T" + "12:00:00" + "." + "000000" + "" + "Z"
  {
  }

  /** The two bounds of the example window, as timestamp text. */
  lemma ExampleBoundTexts()
    ensures Strftime(DateTime(2017, 2, 15, 8, 0, 0, 0)) == "2017-02-15T08:00:00.000000Z"
    ensures Strftime(DateTime(2017, 2, 15, 12, 0, 0, 0)) == "2017-02-15T12:00:00.000000Z"
  {
    ExampleDateText();
    ExampleTimeTexts();
    assert Pad(0, 6) == "000000";
    ExampleTextPieces();
  }

  /** The two bounds of the example window, formatted. */
  lemma ExampleBounds()
    ensures FormatNaive(ExampleStart - 2 * MicrosPerHour) == Ok("2017-02-15T08:00:00.000000Z")
    ensures FormatNaive(ExampleStart + 2 * MicrosPerHour) == Ok("2017-02-15T12:00:00.000000Z")
  {
    ExampleHour(ExampleStart - 2 * MicrosPerHour, 8);
    ExampleHour(ExampleStart + 2 * MicrosPerHour, 12);
    ExampleBoundTexts();
  }

  /** A scene acquired 2017-02-15T10:00:00 is searched from 08:00 to 12:00. */
  lemma ExampleWindow()
    ensures CrossoverWindow(ExampleStart, CrossOverWindowHours)
         == Ok(("2017-02-15T08:00:00.000000Z", "2017-02-15T12:00:00.000000Z"))
  {
    ExampleBounds();
  }

  lemma ExampleOffsetPieces()
    ensures "0 days 0 hours 30 minutes"
         == "0" + [' '] + ("days" + [' '] + ("0" + [' '] + ("hours" + [' '] + ("30" + [' '] + "minutes"))))
  {
  }

  lemma ExampleOffsetText()
    ensures OffsetText(Offset(0, 0, 30)) == "0 days 0 hours 30 minutes"
  {
    assert NatToString(0) == "0";
    assert NatToString(30) == "30";
    assert Join(["minutes"], ' ') == "minutes";
    ExampleOffsetPieces();
  }

  /** A candidate acquired half an hour earlier is "0 days 0 hours 30 minutes" away. */
  lemma ExampleOffset()
    ensures TimeBetweenDates(ExampleStart, ExampleStart - 30 * MicrosPerMinute)
         == "0 days 0 hours 30 minutes"
  {
    assert OffsetBetween(ExampleStart, ExampleStart - 30 * MicrosPerMinute) == Offset(0, 0, 30);
    ExampleOffsetText();
  }
}
