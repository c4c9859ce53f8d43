# Shirakawago availability bot — verified model of the scraping core

The bot checks ten days of room availability for three guest houses in
Shirakawa-go (Yokichi, Magoemon and YOSHIRO) on a booking calendar widget.
It reports the status for one target date to a Telegram chat. This project
models the deterministic decision logic of the bot, with the browser replaced
by abstract values. It has four parts.

- **Cell classifier** (`Classifier`): `parse_availability_status`. It splits a
  cell's CSS class attribute on whitespace (`Text.Split`, which is
  `str.split()`). An ordered decision table then maps the tokens to
  `AVAILABLE`, `ALMOST_FULL`, `BOOKED` or `NOT_OPEN`.
- **Availability extractor** (`Extractor`): `get_hotel_availability`.
  - The rendered calendar is a `Page`. It holds the cells that exist, keyed by
    `(row, day)`. Each cell has its class attribute and the hotel link in the
    column before it; the link is absent when that lookup raises, and a link's
    `onclick` is absent when the attribute is missing. The page also holds the
    date-header labels, keyed by day.
  - The method `FindOwningCell` is the `while row < 30` loop. It is proved
    against the function `OwningCell`.
  - The method `GetHotelAvailability` is the `for day in range(10)` loop. It is
    proved against the function `Run`.
  - The Python `dict` is an insertion-ordered association list (`Dicts`).
    Assigning to an existing key keeps that key's position.
- **Scrape orchestrator** (`Scraping`): `check_availability` together with
  `MONITORED_HOTELS` and the values that `set_date` types.
  - Launching the driver, loading the page and waiting for the results each
    end in an `Outcome`: normally, with `TimeoutException`, or with another
    exception and its message. Finding the date input and the search button
    are found/not-found booleans (a missing element fails `set_date`).
  - The function `Scrape` gives the result for a `Session`.
  - The class `Scraper`, with its `driver` field, models the `try`/`finally`
    that quits the driver.
- **Message formatting** (`Markdown`, `Report`): `escape_markdown` and
  `format_availability_message` from `cloud/main.py`.
  - The replace loop is proved against a per-character definition of escaping.
  - The report builder is proved against the function `Message`.

`cloud/main.py` repeats `MONITORED_HOTELS`, `set_date`,
`parse_availability_status`, `get_hotel_availability` and `check_availability`
with the same code as `src/scraper/scraper.py` (cloud/main.py:67-191); only
comments and layout differ there, and its Chrome options, which are not
modelled. Each of these methods is therefore modelled once, and the rows below
cite the `src` copy.

Some behaviour of the code is easy to misread; the model follows the code:

- In the row loop, `cell` is assigned before the hotel link is looked up. A row
  whose link lookup or `in` test raises therefore leaves *that row's* cell as
  the candidate, not the previous candidate. The cell is then recorded if no
  later row resets it, even though no link named the hotel
  (`Extractor.LinkFailedCellIsKept`).
- A failing header lookup raises out of the whole `for day` loop. The
  dictionary built for the earlier days is returned, and the later days are
  not examined (`Extractor.HeaderFailureKeepsEarlierDays`).
- `if result.error:` is Python truthiness: an empty error string is formatted
  as a normal report (`Report.ReportsError`).
- `finally: if self.driver:` also quits a driver left over from an earlier
  call when starting a new one raises (`Scraping.Scraper.CheckAvailability`).

## Model

| member | source | states |
|---|---|---|
| Classifier.Classify | src/scraper/scraper.py:88-95 | AVAILABLE iff both `m01` and `m01_col` are present, whatever else is present; ALMOST_FULL iff that pair is incomplete and both `m02` and `m02_col` are present; BOOKED iff neither pair is complete and `m03` is present; NOT_OPEN in every other case |
| Classifier.ParseAvailabilityStatus | src/scraper/scraper.py:86-95 | the status of a class attribute follows the decision table over its whitespace-separated tokens: AVAILABLE iff `m01` and `m01_col` are both tokens, then ALMOST_FULL, BOOKED and NOT_OPEN as for `Classify` |
| Classifier.UnknownTokensIgnored | src/scraper/scraper.py:86-95 | adding non-marker tokens before or after the tokens never changes the status |
| Classifier.ExactTokens | src/scraper/scraper.py:86-95 | the attribute made by joining whitespace-free tokens with spaces is classified by exactly those tokens |
| Classifier.SuffixedMarkerIsNotMarker | src/scraper/scraper.py:86-88 | "mark m01x m01_col" is NOT_OPEN, because `m01x` is not the token `m01` |
| Classifier.AvailableCellExample | src/scraper/scraper.py:81-89 | the documented available cell "mark m01 m01_col" is AVAILABLE |
| Classifier.NoShortTokenIsNotOpen | src/scraper/scraper.py:88-95 | `m01`, `m02` and `m03`, one of which every status but NOT_OPEN needs, have three characters, so tokens none of which has three characters are NOT_OPEN |
| Classifier.NameInjective | src/scraper/scraper.py:88-95 | the four statuses are stored under four distinct names |
| Text.Split | src/scraper/scraper.py:86 | every token that `split()` yields is non-empty and free of whitespace |
| Text.SplitSkipsSpace | src/scraper/scraper.py:86 | a whitespace character yields no token, whatever follows it |
| Text.SplitAllSpace | src/scraper/scraper.py:86 | an attribute made only of whitespace, or empty, has no tokens |
| Text.SplitTakesToken | src/scraper/scraper.py:86 | a whitespace-free run followed by whitespace is the next token, and splitting goes on after it |
| Text.SplitToken | src/scraper/scraper.py:86 | a whitespace-free string is one token |
| Text.SplitThreeTokens | src/scraper/scraper.py:86 | three whitespace-free tokens separated by single spaces split back into those tokens |
| Text.SplitJoinWith | src/scraper/scraper.py:86 | splitting whitespace-free tokens joined by single spaces gives back the tokens |
| Extractor.FindOwningCell | src/scraper/scraper.py:106-119 | the row loop ends with the cell the scan function `OwningCell` gives for the day |
| Extractor.ProbeRowCases | src/scraper/scraper.py:109-118 | a row pass sees no cell exactly when the cell is missing; it keeps the cell when the link or its `onclick` is missing; otherwise the row is owned exactly when the hotel id occurs in the `onclick` text |
| Extractor.LowestOwnedRowWins | src/scraper/scraper.py:108-115 | when some row's link names the hotel, the lowest such row's cell is found |
| Extractor.ForeignRowDropsKeptCell | src/scraper/scraper.py:113-116 | a row whose link does not name the hotel resets the candidate to none, and with no owned row and no later cell the day has no owning cell |
| Extractor.LinkFailedCellIsKept | src/scraper/scraper.py:109-118 | a cell whose link lookup raises stays as the day's cell when no row is owned and no later row has a cell |
| Extractor.FoundCellComesFromProbedRow | src/scraper/scraper.py:106-119 | a found cell is the cell of a probed row, whose link either names the hotel or raised |
| Extractor.GetHotelAvailability | src/scraper/scraper.py:97-131 | the day loop returns the dictionary that the day-by-day specification `Run` gives over the ten days, including the early exit on a missing header |
| Extractor.Run | src/scraper/scraper.py:99-126 | after `n` days the dictionary has distinct keys and at most `n` entries |
| Extractor.StepOutcome | src/scraper/scraper.py:121-126 | one day changes nothing once aborted or when no cell is found; a found cell with no header aborts; a found cell under a header stores its status under that header; keys stay distinct |
| Extractor.HeadersPresentKeepRunning | src/scraper/scraper.py:121-124 | while every header lookup so far succeeds, the loop has not stopped |
| Extractor.AvailabilityShape | src/scraper/scraper.py:103-126 | the result has at most 10 keys, no key twice, and each key is the header label of a probed day whose owning cell was found |
| Extractor.UnprobedCellIgnored | src/scraper/scraper.py:103-111 | a cell outside rows 0..29 or day columns 0..9 never changes the result |
| Extractor.FoundDayIsRecorded | src/scraper/scraper.py:121-126 | a found day reached before any header failure maps its header label to its cell's status, unless a later day has the same label |
| Extractor.LabelSurvivesLaterDays | src/scraper/scraper.py:121-126 | an entry stays as it is while later days write other labels |
| Extractor.AbortIsFinal | src/scraper/scraper.py:101-131 | once a header lookup has raised, later days change nothing |
| Extractor.HeaderFailureKeepsEarlierDays | src/scraper/scraper.py:121-131 | a found cell whose header is missing ends the extraction with the dictionary of the earlier days |
| Extractor.AbsentHotelGivesEmpty | src/scraper/scraper.py:103-126 | a hotel that no probed link names, on a page where no link lookup raises, gets an empty dictionary |
| Dicts.Put | src/scraper/scraper.py:126 | `availability[label] = status` keeps keys distinct and keeps every existing key where it stands; a new key is added at the end |
| Dicts.PutGet | src/scraper/scraper.py:126 | after the assignment the label maps to the new status, and every other key keeps its value |
| Scraping.DateInputsRoundTrip | src/scraper/scraper.py:55-59 | the three strings typed into the date inputs read back as the target year, month and day |
| Scraping.Driver.SetDate | src/scraper/scraper.py:45-63 | succeeds exactly when the inputs are found, and then leaves `str(year)`, `str(month)` and `str(day)` in them |
| Scraping.Scrape | src/scraper/scraper.py:133-168 | the first failing step decides the error: an exception starting the driver or loading the page gives its `except` message, missing date inputs "Failed to set date", a missing search button "Failed to click search", a failed wait for results its `except` message; error is absent iff every step succeeds, and then there are exactly the three monitored hotels in registry order, each with the extractor's dictionary; on failure there are no hotels |
| Scraping.ExceptionMessage | src/scraper/scraper.py:157-168 | a timeout gives exactly "Timeout waiting for results"; any other exception gives "Unexpected error: " followed by its message, so the two never coincide |
| Scraping.ResultsTimeoutReported | src/scraper/scraper.py:145-162 | a timed-out wait for the results table gives "Timeout waiting for results" and no hotels |
| Scraping.SetDateFailureReported | src/scraper/scraper.py:139-140 | date inputs that cannot be found give "Failed to set date" and no hotels |
| Scraping.SearchFailureReported | src/scraper/scraper.py:142-143 | a search button that cannot be found gives "Failed to click search" and no hotels |
| Scraping.Scraper.Attempt | src/scraper/scraper.py:135-168 | the `try` block returns `Scrape`'s result and leaves the new, not yet quit driver in `self.driver` |
| Scraping.Scraper.CheckAvailability | src/scraper/scraper.py:133-171 | returns `Scrape`'s result; a driver started by the call is quit exactly once; when starting fails, a driver left from an earlier call is quit again |
| Markdown.EscapeMarkdown | cloud/main.py:194-198 | the replace loop gives the per-character escaping: one backslash before each reserved character, everything else copied in order |
| Markdown.ReplaceExtendsEscape | cloud/main.py:196-197 | replacing one more reserved character in already escaped text escapes that character and re-escapes nothing, because the backslash is not reserved |
| Markdown.EscapeLength | cloud/main.py:195-197 | the output is as long as the input plus the number of reserved characters |
| Markdown.UnescapeEscape | cloud/main.py:195-197 | deleting the inserted backslashes gives back the input |
| Report.StatusMarker | cloud/main.py:218-224 | the fallback marker is used exactly for a status outside the four known ones |
| Report.ClassifiedStatusHasMarker | cloud/main.py:218-224 | no status the classifier produces is shown with the fallback marker |
| Report.TargetLabel | cloud/main.py:209 | for a month and day of at least 1, the target label is month and day in decimal without leading zeros, separated by `/` |
| Report.TargetLabelExample | cloud/main.py:209 | 2025-02-09 is looked up as "2/9" |
| Report.DateLine | cloud/main.py:206 | the date line starts with "Date: " and ends with a newline |
| Report.DateLineFields | cloud/main.py:206 | the date line is "Date: YYYY-MM-DD" plus a newline, with fixed-width fields that read back as the date |
| Report.FirstMatchIndex | cloud/main.py:211-216 | the index of the first entry whose label starts with the target, or the length when there is none |
| Report.FindStatus | cloud/main.py:212-216 | the scan with `break` returns the first matching entry's value, or UNKNOWN |
| Report.StatusIsFirstMatch | cloud/main.py:212-216 | the status is the value of the first entry, in insertion order, whose label has the target as a prefix |
| Report.PrefixAlsoMatchesLongerLabel | cloud/main.py:214 | matching is by prefix, so the target "2/1" also takes an entry labelled "2/10" |
| Report.NoMatchIsUnknown | cloud/main.py:211-224 | with no matching entry the status is UNKNOWN and the fallback marker is shown |
| Report.HotelPartsAt | cloud/main.py:211-230 | part `i` is the part of hotel `i`, in result order |
| Report.HotelPart | cloud/main.py:211-230 | a hotel's part is "*", the escaped name, "*:" and a newline, the status marker, a space and the escaped status; unescaping the name and status fields gives back the hotel name and the status found for the target |
| Report.MessageParts | cloud/main.py:204-231 | the title, the date line, then one part per hotel |
| Report.FormatHotel | cloud/main.py:212-230 | the appended part is the escaped name, the status marker and the escaped status |
| Report.FormatAvailabilityMessage | cloud/main.py:200-232 | the message built with `append` and `join` is the specified `Message` |
| Report.ErrorMessage | cloud/main.py:201-202 | an error report is the fixed error lead followed by the escaped error, and unescaping recovers the error |
| Report.Message | cloud/main.py:200-232 | the message is never empty; with a non-empty error it is the error lead followed by text that unescapes to the error; otherwise it opens with the title, a blank line and the date line |
| Report.MarkedCellReportedAvailable | cloud/main.py:209-224 | end to end: a hotel whose lowest owned cell in a day column is "mark m01 m01_col", under the only header that starts with the target label, with no earlier header missing, is reported AVAILABLE with the available marker |
| Report.FailedScrapeIsReported | cloud/main.py:201-202 | every failed scrape becomes an error report carrying its cause, because its error string is never empty |

## Left out

- The browser is not modelled: Chrome options, `driver.get`, `implicitly_wait` and the `WebDriverWait` timing. Each step is an abstract `Outcome`, and the rendered calendar is an abstract `Page`.
- `click_search` is modelled only as whether the search button is found. A click that raises would give the same error string.
- `set_date` is all or nothing: when the inputs are found, the model assumes `clear` and `send_keys` succeed. The partly typed state after a raising `send_keys` is not modelled.
- Exception messages (`str(e)`) are arbitrary strings supplied with the `Outcome`.
- A `BaseException` that is not an `Exception` (such as `KeyboardInterrupt`) escapes the handlers and is not modelled.
- Scraping.Scraper.CheckAvailability: quitting the driver in the `finally` clause is assumed to succeed. In the source an exception from `quit()` (for instance on a driver an earlier call already quit) would replace the returned result and escape `check_availability`; the model does not capture that path.
- `implicitly_wait` raising after `self.driver` has been assigned is not modelled. Starting the driver is a single step.
- The emoji literals of the report are opaque marker constants. In the source they are mis-decoded multi-byte sequences. Only which marker goes with which status matters, and the fallback.
- Report.DateLine: a year below 1000 is zero-padded to four digits. The platform's `strftime("%Y")` may not pad it.
- Scraping.Date is three natural numbers, so calendar validity is not enforced. Scraping.DateInputsRoundTrip and the contract of Report.TargetLabel hold for any month and day of at least 1, which covers every real date.
- `date_str = escape_markdown(target_date_str)` in `format_availability_message` is computed but never used, so it has no observable effect.
- Logging, the `test_scraper` harness, Google Secret Manager, Telegram sending, `asyncio`, the HTTP entry point and `main.py` are outside the model. They are I/O and thin adapters.
- `src/notification/telegram.py` is not part of this model.
