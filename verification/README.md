# Citi Bike ride scraper — verified model

A Dafny model of the data path of `scrape_citibike_rides.py`. The script walks the
numbered pages of a member's ride history and reads five texts from each trip row.
Later it turns each five-text record into typed values:

- `getDurationInSeconds` turns the site's duration text ("x h y min z s", hours optional)
  into seconds. It returns the "no recorded time" value (NaN in the source) when the
  text has no "min".
- `scrapeTripDiv` reads the start date, end date, start station, end station and
  duration of one trip row.
- The loop of `scrapeRides` requests pages 1, 2, … and stops at the first page whose
  "jump to page" input does not show the number requested. If the number is too high,
  the site serves its last page again.
- `convertTripArrayToDictionary` builds the typed trip. `getDatetimeFromString`
  (strptime, with None on failure) is a parameter `string -> Option<Timestamp>`.

The Python 2 built-ins the code relies on are modelled with their exact semantics
(module `PyBuiltins`):

- `str.find` returns -1 when the pattern is absent.
- Slicing `s[a:b]` handles negative bounds, clamping and crossed bounds.
- `int(str)` accepts surrounding whitespace, an optional sign and then decimal digits.
- `str(n)` is `ShowNat`, the partner of `int(str)`.

An exception that the source lets propagate is the `Err` side of a `Result`:

- `ValueError` from `int()`
- `AttributeError` from `.getText()` / `.get()` on the `None` that a failed `find` returns
- `IndexError` from a short list

The site is abstracted as two functions of the requested page number:

- the value of the page's page-number input (`None` when the page has none)
- the trip rows the page lists, each seen as a map from div class to the text of the first
  div with that class

Modules, in dependency order: `Wrappers`, `PyBuiltins`, `Duration`, `TripExtract`,
`Pagination`, `TripConvert`.

The code and its header comment disagree on hours. The comment says "Duration is x h y
min z s, convert to an int", which suggests the hours count. The code parses the hours
(and raises if they are malformed) but returns `minutes * 60 + seconds`. So
"1 h 5 min 0 s" gives 300, not 3900. The model follows the code (`Duration.HoursExample`,
`Duration.RenderedDuration`).

## Model

| member | source | states |
|---|---|---|
| `PyBuiltins.Find` | scrape_citibike_rides.py:14 | `s.find(pat)` is -1 or an index at which `pat` fits inside `s` |
| `PyBuiltins.FindFromIsFirst` | scrape_citibike_rides.py:14 | inductive generalisation of `find(pat)` to a search that starts at `i` (used only to prove `FindIsFirst`): -1 exactly when `pat` occurs nowhere at or after `i`, otherwise an occurrence at or after `i` with none between `i` and it |
| `PyBuiltins.FindIsFirst` | scrape_citibike_rides.py:14 | `s.find(pat)` is -1 exactly when `pat not in s`; otherwise it is the index of the first occurrence |
| `PyBuiltins.FindAfter` | scrape_citibike_rides.py:18 | in `pre + pat + post`, where `pre` holds no first character of `pat`, `find` returns `len(pre)` |
| `PyBuiltins.FindAbsent` | scrape_citibike_rides.py:18 | `find` returns -1 when the pattern's first character never appears |
| `PyBuiltins.Slice` | scrape_citibike_rides.py:19 | `s[lo:hi]` is never longer than `s`, and for bounds with `0 <= lo <= hi <= len(s)` it is exactly the characters from `lo` up to `hi` |
| `PyBuiltins.ParseIntNeedsDigit` | scrape_citibike_rides.py:19-24 | `int()` accepts only text that holds a decimal digit; anything else raises ValueError |
| `PyBuiltins.ParseShowNat` | scrape_citibike_rides.py:19-24 | `int(str(n)) == n` and `int("-" + str(n)) == -n` for every natural `n` |
| `Duration.IntFieldOfNumeral` | scrape_citibike_rides.py:19-24 | `int()` of a field holding `str(n)` gives `n`, and of `"-" + str(n)` gives `-n` |
| `Duration.IntFieldRejectsDigitless` | scrape_citibike_rides.py:19-24 | `int()` of a field without a decimal digit raises ValueError carrying that field |
| `Duration.DurationInSeconds` | scrape_citibike_rides.py:12-25 | getDurationInSeconds: every exception it raises is a ValueError whose text `int()` rejects, as the `int()` calls on the slices are the only calls that raise |
| `Duration.DurationFromMarkers` | scrape_citibike_rides.py:17-25 | the part after the "min" test, given the three `find` results: every exception is a ValueError on a slice `int()` rejects |
| `Duration.NotRecordedExactlyWithoutMinutes` | scrape_citibike_rides.py:14-15 | the duration is the "no recorded time" value exactly when the text does not contain "min"; any other text gives a number or raises |
| `Duration.RaisesExactlyOnRejectedSlice` | scrape_citibike_rides.py:17-24 | the parse raises exactly when the text contains "min" and `int()` rejects one of the slices its branch reads: the hours (when "h" occurs), the minutes or the seconds |
| `Duration.DurationWithoutHours` | scrape_citibike_rides.py:21-25 | with "min" found and no "h", integer slices before "min" and between "min " and the first "s" give `minutes * 60 + seconds` |
| `Duration.DurationWithHours` | scrape_citibike_rides.py:18-25 | with "h" found, the minutes come from between "h " and "min", and the result is `minutes * 60 + seconds`, whatever the hours |
| `Duration.DurationHoursRejected` | scrape_citibike_rides.py:18-19 | an hours slice that `int()` rejects makes the whole call raise that ValueError |
| `Duration.RenderedWithoutHours` | scrape_citibike_rides.py:11-25 | parsing the site's "y min z s" gives `y * 60 + z` |
| `Duration.RenderedWithHours` | scrape_citibike_rides.py:11-25 | parsing the site's "x h y min z s" gives `y * 60 + z`: the hours are parsed but never counted |
| `Duration.RenderedDuration` | scrape_citibike_rides.py:11-25 | round trip: for every rendering of hours, minutes and seconds, the parse returns `minutes * 60 + seconds` |
| `Duration.MinutesExample` | scrape_citibike_rides.py:11-25 | "5 min 30 s" is 330 seconds |
| `Duration.HoursExample` | scrape_citibike_rides.py:17-25 | "1 h 5 min 0 s" is 300 seconds, not 3900 |
| `Duration.MalformedHoursRaise` | scrape_citibike_rides.py:19 | hours text that `int()` rejects makes a well-formed "… h y min z s" raise ValueError with that text |
| `Duration.NotRecorded` | scrape_citibike_rides.py:13-15 | text without "min" gives the "no recorded time" value, not an error |
| `TripExtract.ScrapeTripDiv` | scrape_citibike_rides.py:79-86 | succeeds exactly when all five classes are present and then returns their five texts in source order; otherwise raises AttributeError for the first missing class |
| `TripExtract.ScrapeTripDivReadsOnlyTripClasses` | scrape_citibike_rides.py:79-86 | two rows that agree on the five classes give the same record |
| `Pagination.ScrapeTripDivs` | scrape_citibike_rides.py:107 | the list comprehension `[scrapeTripDiv(trip) for trip in ...]`: on success it has one record per row |
| `Pagination.ScrapeTripDivsRowByRow` | scrape_citibike_rides.py:107 | the comprehension succeeds exactly when every row scrapes, and then holds each row's record at that row's position |
| `Pagination.ScrapeTripDivsFirstError` | scrape_citibike_rides.py:107 | when the comprehension raises, it raises what the first failing row raised, and every earlier row scraped |
| `Pagination.ShownPageOfNumeral` | scrape_citibike_rides.py:103 | a page whose page-number input holds `str(n)` is read as page `n` |
| `Pagination.ShownPageUnreadable` | scrape_citibike_rides.py:103 | reading the page number raises AttributeError when the page has no page-number input, and ValueError when the input's value holds no digit |
| `Pagination.ScrapePages` | scrape_citibike_rides.py:107 | `trips += [...]` over pages 1..k: on success, one record per row of those pages |
| `Pagination.ScrapeRides` | scrape_citibike_rides.py:94-110 | the loop stops after the unique page k such that pages 1..k show their own number, pages before k scrape, and either a row of page k raises or page k+1 does not show k+1; the result is the rows of pages 1..k in page order, the row's exception, or the exception from reading page k+1's number |
| `Pagination.StopsBeforePage` | scrape_citibike_rides.py:103-104 | a page that shows another number ends the walk with the trips collected so far; one whose number cannot be read ends it with that exception |
| `Pagination.StopsOnRowError` | scrape_citibike_rides.py:107 | a row that raises ends the walk with that exception |
| `Pagination.AcceptsPage` | scrape_citibike_rides.py:103-108 | a page that shows its own number and whose rows all scrape adds those rows to the trips, and the loop moves to the next page |
| `Pagination.ErrorPersists` | scrape_citibike_rides.py:107 | once a row raises, later pages do not change the outcome |
| `Pagination.StopIsUnique` | scrape_citibike_rides.py:97-110 | the page after which the loop stops is unique |
| `Pagination.ScrapeTripDivsAppend` | scrape_citibike_rides.py:107 | `trips += [...]` page after page equals scraping the concatenated rows, and the first error wins |
| `Pagination.ScrapePagesIsConcatenation` | scrape_citibike_rides.py:107 | what pages 1..k give equals scraping all their rows as one list in page order |
| `Pagination.ScrapePagesIgnoresLaterPages` | scrape_citibike_rides.py:97-108 | the rows of pages after k have no effect on what pages 1..k give |
| `Pagination.ClampedSiteShows` | scrape_citibike_rides.py:101-102 | a site that serves its last page L for higher page numbers shows `min(n, L)` on page `n` |
| `Pagination.ClampedSiteYieldsPagesUpTo` | scrape_citibike_rides.py:101-104 | on a site that serves its last page L for any higher number, the loop yields exactly what the rows of pages 1..L give, without the repeated last page |
| `Pagination.IdentityCheckStopsAfterPage256` | scrape_citibike_rides.py:103 | with the `is not` identity test, a site of 257 or more pages is cut after page 256, while the value test goes on |
| `TripConvert.ConvertTrip` | scrape_citibike_rides.py:122-127 | a record shorter than five raises IndexError at its length; otherwise the conversion succeeds exactly when the duration does, with stations copied, timestamps parsed and the duration's error propagated |
| `TripConvert.TimestampsNeverFail` | scrape_citibike_rides.py:28-32 | whether a conversion succeeds does not depend on the timestamp parser: a failed strptime gives None, never an exception |
| `TripConvert.ScrapeThenConvert` | scrape_citibike_rides.py:122-127 | a complete row with a site-rendered duration scrapes and converts to its stations, parsed timestamps and `minutes * 60 + seconds` |

## Left out

- Logging in, browser creation and building the trips URL (`getBrowserForScrape`, `loginToCitibikeWebsite`, `getURLForTripsPage`, lines 36-73) are network I/O. The pages they fetch are parameters of `ScrapeRides`.
- Fetching a page (`browser.open(...).read()`) and HTML parsing with BeautifulSoup are abstracted. A page is its page-number value and its list of trip rows, and a row is a map from div class to the text of the first div with that class. Network errors are not modelled.
- `Pagination.ShownPageUnreadable`: an input without a `value` attribute (`int(None)` raises TypeError) is not modelled. A missing input element is.
- `writeToCSV`, `readFromCSV` and the command-line entry point are file and console I/O. `readFromCSV` is `ConvertTrip` applied to each row.
- The "Scraping page" message is console output.
- `getDatetimeFromString` (strptime with "%m/%d/%Y %I:%M:%S %p") is a parameter of `ConvertTrip` rather than a model of strptime. Only its contract is used: it returns a timestamp or None and never raises.
- The NaN duration is `None`, so NaN's float semantics (for example `nan != nan`) are not modelled.
- `Pagination.ScrapeRides` requires a page that ends the walk: it shows another number, has no readable number, or has a row that raises. Without such a page, every page is accepted and the source never stops.
- `Pagination.ScrapeRides` compares page numbers by value. The source's `is not` compares identity; see Findings.
- `PyBuiltins.ParseInt` accepts only ASCII digits and ASCII whitespace, as Python 2 `int()` does on byte strings. The Unicode-string variant and the `long` result type are not modelled, because integers are unbounded here.

## Findings

| source | as written | input that shows it | evidently intended | confidence | as-written member | corrected member |
|---|---|---|---|---|---|---|
| scrape_citibike_rides.py:103 | `int(...) is not pageNumber` compares object identity. CPython shares one object per integer only from -5 to 256, so from page 257 on a page that shows its own number is treated as the last one | a ride history of 257 or more pages: page 257 shows "257", `int("257") is not 257` holds, and the loop stops after page 256 | compare values (`!=`), so the loop stops only at a page showing another number | not executed; depends on CPython's small-integer cache | `Pagination.IdentityCheckStopsAfterPage256` | `Pagination.ScrapeRides` |
