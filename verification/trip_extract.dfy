/** scrapeTripDiv: reads the five fields of one trip row. */
module TripExtract {
  import opened Wrappers
  import opened PyBuiltins

  /** One trip row of the history page, seen through the queries the scraper
      makes of it: for each div class, the text of the first div with that
      class (a class with no such div is absent from the map). */
  type TripDiv = map<string, string>

  const StartDateClass := "ed-table__item__info__sub-info_trip-start-date"
  const EndDateClass := "ed-table__item__info__sub-info_trip-end-date"
  const StartStationClass := "ed-table__item__info__sub-info_trip-start-station"
  const EndStationClass := "ed-table__item__info__sub-info_trip-end-station"
  const DurationClass := "ed-table__col_trip-duration"

  /** The classes read, in the order they are read and stored. */
  const TripClasses: seq<string> :=
    [StartDateClass, EndDateClass, StartStationClass, EndStationClass, DurationClass]

  /** The raw trip: start date, end date, start station, end station and
      duration, as text. A div that is missing makes `find` return None and
      `getText` raise, so no partial record is ever produced. */
  function ScrapeTripDiv(div: TripDiv): (r: Result<seq<string>, Exception>)
    ensures r.Ok? <==> forall i :: 0 <= i < |TripClasses| ==> TripClasses[i] in div
    ensures r.Ok? ==>
      |r.value| == |TripClasses| &&
      forall i :: 0 <= i < |TripClasses| ==> r.value[i] == div[TripClasses[i]]
    ensures r.Err? ==>
      exists i :: 0 <= i < |TripClasses| &&
        r.error == AttributeError(TripClasses[i]) && TripClasses[i] !in div &&
        forall j :: 0 <= j < i ==> TripClasses[j] in div
  {
    assert TripClasses[0] == StartDateClass && TripClasses[1] == EndDateClass &&
           TripClasses[2] == StartStationClass && TripClasses[3] == EndStationClass &&
           TripClasses[4] == DurationClass;
    if StartDateClass !in div then Err(AttributeError(StartDateClass))
    else if EndDateClass !in div then Err(AttributeError(EndDateClass))
    else if StartStationClass !in div then Err(AttributeError(StartStationClass))
    else if EndStationClass !in div then Err(AttributeError(EndStationClass))
    else if DurationClass !in div then Err(AttributeError(DurationClass))
    else Ok([div[StartDateClass], div[EndDateClass], div[StartStationClass],
             div[EndStationClass], div[DurationClass]])
  }

  /** Only the five classes matter: two rows that agree on them give the same record. */
  lemma ScrapeTripDivReadsOnlyTripClasses(a: TripDiv, b: TripDiv)
    requires forall c :: c in TripClasses ==> (c in a <==> c in b)
    requires forall c :: c in TripClasses && c in a ==> a[c] == b[c]
    ensures ScrapeTripDiv(a) == ScrapeTripDiv(b)
  {
  }
}
