/** The page loop of scrapeRides: fetch history pages 1, 2, ... and collect
    their trips until the site reports a page number other than the one asked
    for. The site is abstracted as two functions of the requested page number:
    the value of its page-number input and the trip rows it lists. */
module Pagination {
  import opened Wrappers
  import opened PyBuiltins
  import opened TripExtract

  /** A raw trip record: the five texts scrapeTripDiv returns. */
  type RawTrip = seq<string>

  /** `[scrapeTripDiv(trip) for trip in divs]`: every row scraped, in order;
      the first row that raises aborts the whole list. */
  function ScrapeTripDivs(divs: seq<TripDiv>): (r: Result<seq<RawTrip>, Exception>)
    ensures r.Ok? ==> |r.value| == |divs|
  {
    if divs == [] then Ok([])
    else
      match ScrapeTripDiv(divs[0])
      case Err(e) => Err(e)
      case Ok(trip) =>
        match ScrapeTripDivs(divs[1..])
        case Err(e) => Err(e)
        case Ok(rest) => Ok([trip] + rest)
  }

  /** The list comprehension succeeds exactly when every row scrapes, and
      it then holds each row's five texts at that row's position. */
  lemma {:induction false} ScrapeTripDivsRowByRow(divs: seq<TripDiv>)
    ensures ScrapeTripDivs(divs).Ok? <==> forall k :: 0 <= k < |divs| ==> ScrapeTripDiv(divs[k]).Ok?
    ensures ScrapeTripDivs(divs).Ok? ==>
      forall k :: 0 <= k < |divs| ==> ScrapeTripDiv(divs[k]) == Ok(ScrapeTripDivs(divs).value[k])
  {
    if divs != [] {
      var tail := divs[1..];
      ScrapeTripDivsRowByRow(tail);
      assert forall k :: 1 <= k < |divs| ==> divs[k] == tail[k - 1];
      if ScrapeTripDiv(divs[0]).Ok? && ScrapeTripDivs(tail).Ok? {
        var rest := ScrapeTripDivs(tail).value;
        assert forall k :: 1 <= k < |divs| ==> ScrapeTripDivs(divs).value[k] == rest[k - 1];
      }
    }
  }

  /** When the comprehension raises, it raises what the first failing row raised. */
  lemma {:induction false} ScrapeTripDivsFirstError(divs: seq<TripDiv>)
    ensures ScrapeTripDivs(divs).Err? ==>
      exists k :: 0 <= k < |divs| &&
        ScrapeTripDiv(divs[k]) == Err(ScrapeTripDivs(divs).error) &&
        forall j :: 0 <= j < k ==> ScrapeTripDiv(divs[j]).Ok?
  {
    if divs != [] && ScrapeTripDiv(divs[0]).Ok? && ScrapeTripDivs(divs[1..]).Err? {
      var tail := divs[1..];
      ScrapeTripDivsFirstError(tail);
      var k :| 0 <= k < |tail| && ScrapeTripDiv(tail[k]) == Err(ScrapeTripDivs(tail).error) &&
        forall j :: 0 <= j < k ==> ScrapeTripDiv(tail[j]).Ok?;
      assert forall j :: 1 <= j <= k + 1 ==> divs[j] == tail[j - 1];
      assert ScrapeTripDiv(divs[k + 1]) == Err(ScrapeTripDivs(divs).error);
    }
  }

  /** The class of the history page's "jump to page" input, whose value is
      the number of the page actually shown. */
  const PageInputClass := "ed-paginated-navigation__jump-to__page"

  /** `int(soup.find("input", PageInputClass).get('value'))` for a page whose
      input has the given value (None: the page has no such input, so `find`
      returns None and `.get` raises). */
  function ShownPage(pageValue: Option<string>): Result<int, Exception> {
    match pageValue
    case None => Err(AttributeError(PageInputClass))
    case Some(v) =>
      match ParseInt(v)
      case None => Err(ValueError(v))
      case Some(n) => Ok(n)
  }

  /** A page whose input holds `str(n)` shows page n. */
  lemma ShownPageOfNumeral(n: nat)
    ensures ShownPage(Some(ShowNat(n))) == Ok(n)
  {
    ParseShowNat(n);
  }

  /** Reading the page number raises when the page has no page-number input,
      and when the input's value holds no digit. */
  lemma ShownPageUnreadable(v: string)
    requires forall i :: 0 <= i < |v| ==> !IsDigit(v[i])
    ensures ShownPage(None) == Err(AttributeError(PageInputClass))
    ensures ShownPage(Some(v)) == Err(ValueError(v))
  {
    ParseIntNeedsDigit(v);
  }

  /** Every page from 1 to k showed its own number. */
  predicate PagesMatch(pageValue: int -> Option<string>, k: nat) {
    forall i :: 1 <= i <= k ==> ShownPage(pageValue(i)) == Ok(i)
  }

  /** What the loop has collected after accepting pages 1..k: the rows of each
      page appended in page order, or the exception the first bad row raised. */
  function ScrapePages(rowsOf: int -> seq<TripDiv>, k: nat): (r: Result<seq<RawTrip>, Exception>)
    ensures r.Ok? ==> |r.value| == |RowsOfPages(rowsOf, k)|
  {
    if k == 0 then Ok([])
    else
      match ScrapePages(rowsOf, k - 1)
      case Err(e) => Err(e)
      case Ok(before) =>
        match ScrapeTripDivs(rowsOf(k))
        case Err(e) => Err(e)
        case Ok(rows) => Ok(before + rows)
  }

  /** The loop accepts pages 1..k and then stops: either a row of page k
      raised, or page k + 1 does not show k + 1 (or its number cannot be
      read). Pages before k all scraped without error. */
  predicate StopsAfter(pageValue: int -> Option<string>, rowsOf: int -> seq<TripDiv>, k: nat) {
    PagesMatch(pageValue, k) &&
    (forall j :: 0 <= j < k ==> ScrapePages(rowsOf, j).Ok?) &&
    (ScrapePages(rowsOf, k).Err? || ShownPage(pageValue(k + 1)) != Ok(k + 1))
  }

  /** Page `stop` ends any walk that reaches it: it shows another number (or
      one that cannot be read), or one of its rows raises. */
  predicate StopsAt(pageValue: int -> Option<string>, rowsOf: int -> seq<TripDiv>, stop: int) {
    1 <= stop && (ShownPage(pageValue(stop)) != Ok(stop) || ScrapeTripDivs(rowsOf(stop)).Err?)
  }

  /** The outcome of a walk that stops after page k: what pages 1..k give,
      unless reading page k + 1's number then raises. */
  function WalkOutcome(pageValue: int -> Option<string>, rowsOf: int -> seq<TripDiv>, k: nat): Result<seq<RawTrip>, Exception> {
    match ScrapePages(rowsOf, k)
    case Err(e) => Err(e)
    case Ok(trips) =>
      match ShownPage(pageValue(k + 1))
      case Err(e) => Err(e)
      case Ok(_) => Ok(trips)
  }

  /** The trip rows of pages 1..k, concatenated in page order. */
  function RowsOfPages(rowsOf: int -> seq<TripDiv>, k: nat): seq<TripDiv> {
    if k == 0 then [] else RowsOfPages(rowsOf, k - 1) + rowsOf(k)
  }

  /** The loop of scrapeRides. It runs until some page shows another number
      or has a row that raises; when no page does, the source never stops, so
      such a page is required to exist. The result is the outcome of the walk
      for the page k after which the loop stops. */
  method ScrapeRides(pageValue: int -> Option<string>, rowsOf: int -> seq<TripDiv>)
    returns (r: Result<seq<RawTrip>, Exception>)
    requires exists stop :: StopsAt(pageValue, rowsOf, stop)
    ensures exists k: nat :: StopsAfter(pageValue, rowsOf, k) && r == WalkOutcome(pageValue, rowsOf, k)
  {
    ghost var stop :| StopsAt(pageValue, rowsOf, stop);
    var trips: seq<RawTrip> := [];
    var pageNumber := 1;
    while true
      invariant 1 <= pageNumber <= stop
      invariant Accepted(pageValue, rowsOf, pageNumber, trips)
      decreases stop - pageNumber
    {
      var shown := ShownPage(pageValue(pageNumber));
      if shown.Err? || shown.value != pageNumber {
        StopsBeforePage(pageValue, rowsOf, pageNumber, trips);
        if shown.Err? {
          return Err(shown.error);
        }
        return Ok(trips);
      }
      var rows := ScrapeTripDivs(rowsOf(pageNumber));
      if rows.Err? {
        StopsOnRowError(pageValue, rowsOf, pageNumber, trips);
        return Err(rows.error);
      }
      AcceptsPage(pageValue, rowsOf, pageNumber, trips, rows.value);
      trips := trips + rows.value;
      pageNumber := pageNumber + 1;
    }
  }

  /** The state of the loop before it reads page p: pages 1..p-1 accepted
      and scraped without error into `trips`. */
  predicate Accepted(pageValue: int -> Option<string>, rowsOf: int -> seq<TripDiv>, p: nat, trips: seq<RawTrip>)
    requires 1 <= p
  {
    PagesMatch(pageValue, p - 1) &&
    (forall j :: 0 <= j < p ==> ScrapePages(rowsOf, j).Ok?) &&
    ScrapePages(rowsOf, p - 1) == Ok(trips)
  }

  /** Page p shows another number, or none: the walk stops after page p - 1,
      with the trips so far or the exception reading the number raised. */
  lemma StopsBeforePage(pageValue: int -> Option<string>, rowsOf: int -> seq<TripDiv>, p: nat, trips: seq<RawTrip>)
    requires 1 <= p && Accepted(pageValue, rowsOf, p, trips)
    requires ShownPage(pageValue(p)) != Ok(p)
    ensures StopsAfter(pageValue, rowsOf, p - 1)
    ensures WalkOutcome(pageValue, rowsOf, p - 1) ==
      if ShownPage(pageValue(p)).Err? then Err(ShownPage(pageValue(p)).error) else Ok(trips)
  {
  }

  /** A row of page p raises: the walk stops after page p with that exception. */
  lemma StopsOnRowError(pageValue: int -> Option<string>, rowsOf: int -> seq<TripDiv>, p: nat, trips: seq<RawTrip>)
    requires 1 <= p && Accepted(pageValue, rowsOf, p, trips)
    requires ShownPage(pageValue(p)) == Ok(p) && ScrapeTripDivs(rowsOf(p)).Err?
    ensures StopsAfter(pageValue, rowsOf, p)
    ensures WalkOutcome(pageValue, rowsOf, p) == Err(ScrapeTripDivs(rowsOf(p)).error)
  {
  }

  /** Page p shows p and its rows scrape: the loop goes on to page p + 1
      with those rows appended. */
  lemma AcceptsPage(pageValue: int -> Option<string>, rowsOf: int -> seq<TripDiv>, p: nat, trips: seq<RawTrip>, rows: seq<RawTrip>)
    requires 1 <= p && Accepted(pageValue, rowsOf, p, trips)
    requires ShownPage(pageValue(p)) == Ok(p) && ScrapeTripDivs(rowsOf(p)) == Ok(rows)
    ensures Accepted(pageValue, rowsOf, p + 1, trips + rows)
  {
  }

  /** Once a row has raised, later pages do not change the outcome. */
  lemma {:induction false} ErrorPersists(rowsOf: int -> seq<TripDiv>, p: nat, k: nat)
    requires ScrapePages(rowsOf, p).Err? && p <= k
    ensures ScrapePages(rowsOf, k) == ScrapePages(rowsOf, p)
    decreases k - p
  {
    if p < k {
      ErrorPersists(rowsOf, p, k - 1);
    }
  }

  /** The page after which the loop stops is unique, so the walk's result
      is determined. */
  lemma StopIsUnique(pageValue: int -> Option<string>, rowsOf: int -> seq<TripDiv>, k1: nat, k2: nat)
    requires StopsAfter(pageValue, rowsOf, k1) && StopsAfter(pageValue, rowsOf, k2)
    ensures k1 == k2
  {
  }

  /** Scraping the rows of two lists one after the other is scraping their concatenation. */
  lemma {:induction false} ScrapeTripDivsAppend(a: seq<TripDiv>, b: seq<TripDiv>)
    ensures ScrapeTripDivs(a + b) ==
      match ScrapeTripDivs(a)
      case Err(e) => Err(e)
      case Ok(x) =>
        match ScrapeTripDivs(b)
        case Err(e) => Err(e)
        case Ok(y) => Ok(x + y)
  {
    if a == [] {
      assert a + b == b;
      match ScrapeTripDivs(b) {
        case Ok(y) =>
          assert [] + y == y;
        case _ =>
      }
    } else {
      assert (a + b)[0] == a[0];
      assert (a + b)[1..] == a[1..] + b;
      ScrapeTripDivsAppend(a[1..], b);
      match (ScrapeTripDiv(a[0]), ScrapeTripDivs(a[1..]), ScrapeTripDivs(b)) {
        case (Ok(t), Ok(x), Ok(y)) =>
          assert [t] + (x + y) == [t] + x + y;
        case _ =>
      }
    }
  }

  /** The pages 1..k are scraped exactly as one list made of their rows in
      page order: nothing from page k + 1 onwards is included. */
  lemma {:induction false} ScrapePagesIsConcatenation(rowsOf: int -> seq<TripDiv>, k: nat)
    ensures ScrapePages(rowsOf, k) == ScrapeTripDivs(RowsOfPages(rowsOf, k))
  {
    if k > 0 {
      ScrapePagesIsConcatenation(rowsOf, k - 1);
      ScrapeTripDivsAppend(RowsOfPages(rowsOf, k - 1), rowsOf(k));
    }
  }

  /** The rows of pages after k have no effect on what pages 1..k give. */
  lemma {:induction false} ScrapePagesIgnoresLaterPages(rowsOf: int -> seq<TripDiv>, rowsOf': int -> seq<TripDiv>, k: nat)
    requires forall i :: 1 <= i <= k ==> rowsOf(i) == rowsOf'(i)
    ensures ScrapePages(rowsOf, k) == ScrapePages(rowsOf', k)
  {
    if k > 0 {
      ScrapePagesIgnoresLaterPages(rowsOf, rowsOf', k - 1);
    }
  }

  /** On a site that serves its last page L for any higher page number,
      page n shows min(n, L). */
  lemma ClampedSiteShows(pageValue: int -> Option<string>, L: nat)
    requires forall n: nat :: 1 <= n ==> pageValue(n) == Some(ShowNat(if n <= L then n else L))
    ensures forall n: nat :: 1 <= n ==> ShownPage(pageValue(n)) == Ok(if n <= L then n else L)
  {
    forall n: nat | 1 <= n
      ensures ShownPage(pageValue(n)) == Ok(if n <= L then n else L)
    {
      ShownPageOfNumeral(if n <= L then n else L);
    }
  }

  /** No page beyond L shows its own number, so at most pages 1..L match. */
  lemma ClampedSiteMatchesAtMost(pageValue: int -> Option<string>, L: nat, k: nat)
    requires forall n: nat :: 1 <= n ==> ShownPage(pageValue(n)) == Ok(if n <= L then n else L)
    ensures PagesMatch(pageValue, k) ==> k <= L
  {
    if k > L {
      assert ShownPage(pageValue(L + 1)) == Ok(L);
    }
  }

  /** A site that serves its last page L (L >= 1) for any higher page number
      makes the walk stop after page L at the latest, so the walk yields
      exactly what the rows of pages 1..L give, and not the repeated last page. */
  lemma ClampedSiteYieldsPagesUpTo(
    pageValue: int -> Option<string>, rowsOf: int -> seq<TripDiv>, L: nat, r: Result<seq<RawTrip>, Exception>)
    requires 1 <= L
    requires forall n: nat :: 1 <= n ==> pageValue(n) == Some(ShowNat(if n <= L then n else L))
    requires exists k: nat :: StopsAfter(pageValue, rowsOf, k) && r == WalkOutcome(pageValue, rowsOf, k)
    ensures r == ScrapeTripDivs(RowsOfPages(rowsOf, L))
  {
    var k: nat :| StopsAfter(pageValue, rowsOf, k) && r == WalkOutcome(pageValue, rowsOf, k);
    ClampedSiteShows(pageValue, L);
    ClampedSiteMatchesAtMost(pageValue, L, k);
    ScrapePagesIsConcatenation(rowsOf, L);
    if k < L {
      assert ShownPage(pageValue(k + 1)) == Ok(k + 1);
      ErrorPersists(rowsOf, k, L);
    } else {
      assert ShownPage(pageValue(L + 1)) == Ok(L);
    }
  }

  // ---------------------------------------------------------------------------
  // The page test as written: `int(...) is not pageNumber`

  /** CPython keeps a single object for each integer from -5 to 256, so two
      equal integers are the same object only in that range; outside it,
      `int()` and `pageNumber + 1` each build a fresh object. */
  predicate SharedSmallInt(n: int) {
    -5 <= n <= 256
  }

  /** `shown is not pageNumber`: an identity test, true for equal values
      outside the shared range. */
  predicate IsNotAsWritten(shown: int, pageNumber: int) {
    !(shown == pageNumber && SharedSmallInt(pageNumber))
  }

  /** Page n passes the source's test: its number is read and is not
      "not" the page number. */
  predicate AcceptsPageAsWritten(pageValue: int -> Option<string>, n: int) {
    ShownPage(pageValue(n)).Ok? && !IsNotAsWritten(ShownPage(pageValue(n)).value, n)
  }

  /** On a site with 257 pages or more, the identity test accepts pages 1..256
      and rejects page 257 although that page shows 257: the source stops
      after page 256 and drops the later pages, while the value comparison
      used by ScrapeRides accepts page 257 and goes on. */
  lemma IdentityCheckStopsAfterPage256(pageValue: int -> Option<string>, L: nat)
    requires 257 <= L
    requires forall n: nat :: 1 <= n ==> pageValue(n) == Some(ShowNat(if n <= L then n else L))
    ensures forall n :: 1 <= n <= 256 ==> AcceptsPageAsWritten(pageValue, n)
    ensures !AcceptsPageAsWritten(pageValue, 257)
    ensures ShownPage(pageValue(257)) == Ok(257)
  {
    forall n: nat | 1 <= n <= 257
      ensures ShownPage(pageValue(n)) == Ok(n)
    {
      ShownPageOfNumeral(n);
    }
  }
}
