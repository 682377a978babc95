/** convertTripArrayToDictionary: turns a raw trip (five texts) into typed
    values. Timestamps go through a parser that never raises (getDatetimeFromString
    returns None on any failure); the duration goes through DurationInSeconds,
    whose ValueError propagates. */
module TripConvert {
  import opened Wrappers
  import opened PyBuiltins
  import opened Duration
  import opened TripExtract

  /** A calendar date and time of day, as `datetime` holds it. */
  datatype Timestamp = Timestamp(year: int, month: int, day: int, hour: int, minute: int, second: int)

  /** The typed trip: the dictionary the source builds. */
  datatype TypedTrip = TypedTrip(
    startTime: Option<Timestamp>,
    endTime: Option<Timestamp>,
    startStation: string,
    endStation: string,
    duration: Option<int>)

  /** The typed trip for a raw one. `parseTimestamp` stands for
      getDatetimeFromString (strptime with "%m/%d/%Y %I:%M:%S %p", None on
      failure). A list shorter than five raises IndexError at its first
      missing position; longer lists have their extra items ignored. */
  function ConvertTrip(parseTimestamp: string -> Option<Timestamp>, trip: seq<string>): (r: Result<TypedTrip, Exception>)
    ensures |trip| < 5 ==> r == Err(IndexError(|trip|))
    ensures |trip| >= 5 ==> (r.Ok? <==> DurationInSeconds(trip[4]).Ok?)
    ensures |trip| >= 5 && r.Err? ==> DurationInSeconds(trip[4]) == Err(r.error)
    ensures r.Ok? ==>
      r.value.startTime == parseTimestamp(trip[0]) &&
      r.value.endTime == parseTimestamp(trip[1]) &&
      r.value.startStation == trip[2] &&
      r.value.endStation == trip[3] &&
      DurationInSeconds(trip[4]) == Ok(r.value.duration)
  {
    if |trip| < 5 then Err(IndexError(|trip|))
    else
      match DurationInSeconds(trip[4])
      case Err(e) => Err(e)
      case Ok(d) => Ok(TypedTrip(parseTimestamp(trip[0]), parseTimestamp(trip[1]), trip[2], trip[3], d))
  }

  /** Timestamps never make a conversion fail: whether it succeeds does not
      depend on the timestamp parser at all. */
  lemma TimestampsNeverFail(p: string -> Option<Timestamp>, q: string -> Option<Timestamp>, trip: seq<string>)
    ensures ConvertTrip(p, trip).Ok? == ConvertTrip(q, trip).Ok?
    ensures ConvertTrip(p, trip).Err? ==> ConvertTrip(p, trip) == ConvertTrip(q, trip)
  {
  }

  /** A row scraped from the site and converted straight away: the stations
      are the row's texts, a start time the parser rejects becomes None, and the
      duration is minutes * 60 + seconds of the rendered duration. */
  lemma ScrapeThenConvert(
    parseTimestamp: string -> Option<Timestamp>, div: TripDiv,
    hours: Option<nat>, minutes: nat, seconds: nat)
    requires StartDateClass in div && EndDateClass in div && StartStationClass in div
    requires EndStationClass in div && DurationClass in div
    requires div[DurationClass] == Render(hours, minutes, seconds)
    ensures ScrapeTripDiv(div).Ok?
    ensures ConvertTrip(parseTimestamp, ScrapeTripDiv(div).value) ==
      Ok(TypedTrip(
        parseTimestamp(div[StartDateClass]),
        parseTimestamp(div[EndDateClass]),
        div[StartStationClass],
        div[EndStationClass],
        Some(minutes * 60 + seconds)))
  {
    assert TripClasses == [StartDateClass, EndDateClass, StartStationClass, EndStationClass, DurationClass];
    var raw := ScrapeTripDiv(div).value;
    assert raw[4] == div[DurationClass] by {
      assert TripClasses[4] == DurationClass;
    }
    assert raw[0] == div[StartDateClass] && raw[1] == div[EndDateClass] by {
      assert TripClasses[0] == StartDateClass && TripClasses[1] == EndDateClass;
    }
    assert raw[2] == div[StartStationClass] && raw[3] == div[EndStationClass] by {
      assert TripClasses[2] == StartStationClass && TripClasses[3] == EndStationClass;
    }
    RenderedDuration(hours, minutes, seconds);
  }
}
