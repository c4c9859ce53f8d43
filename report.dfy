/**
 * `format_availability_message` (cloud variant): the Telegram report for an
 * availability result. The emoji literals of the source are kept as opaque
 * marker constants; only which marker goes with which status matters.
 */
module Report {

  import opened Optional
  import opened Dicts
  import Text
  import Classifier
  import Markdown
  import Scraping
  import Extractor
  import Seqs

  const HOUSE_MARKER := "\U{1F3E1}"
  const ERROR_MARKER := "\U{274C}"
  const AVAILABLE_MARKER := "\U{2B55}\U{2B55}\U{2B55}\U{2B55}\U{2B55}"
  const ALMOST_FULL_MARKER := "\U{26A0}\U{26A0}\U{26A0}\U{26A0}\U{26A0}\U{26A0}"
  const BOOKED_MARKER := "\U{274C}"
  const NOT_OPEN_MARKER := "\U{2796}"
  const UNKNOWN_MARKER := "\U{2753}"

  const UNKNOWN_STATUS := "UNKNOWN"
  const TITLE := HOUSE_MARKER + " *Shirakawago Availability Report*"
  const ERROR_LEAD := ERROR_MARKER + " Error checking availability: "
  const PART_SEPARATOR := "\n\n"

  /** The status-to-marker table with its `.get(status, ...)` fallback. */
  function StatusMarker(status: string): (marker: string)
    ensures marker == UNKNOWN_MARKER <==> status !in {"AVAILABLE", "ALMOST_FULL", "BOOKED", "NOT_OPEN"}
  {
    if status == "AVAILABLE" then AVAILABLE_MARKER
    else if status == "ALMOST_FULL" then ALMOST_FULL_MARKER
    else if status == "BOOKED" then BOOKED_MARKER
    else if status == "NOT_OPEN" then NOT_OPEN_MARKER
    else UNKNOWN_MARKER
  }

  /** Every status the classifier produces has a marker of its own. */
  lemma ClassifiedStatusHasMarker(s: Classifier.Status)
    ensures StatusMarker(Classifier.Name(s)) != UNKNOWN_MARKER
  {
  }

  /**
   * `strftime("%m").lstrip("0") + "/" + strftime("%d").lstrip("0")`: for a
   * real date, month and day in plain decimal, e.g. "2/9".
   */
  function TargetLabel(date: Scraping.Date): (key: string)
    ensures 1 <= date.month && 1 <= date.day ==>
      key == Text.Decimal(date.month) + "/" + Text.Decimal(date.day)
  {
    if 1 <= date.month && 1 <= date.day then
      Text.UnpadDecimal(date.month, 2);
      Text.UnpadDecimal(date.day, 2);
      Text.LStripZeros(Text.ZeroPad(date.month, 2)) + "/" + Text.LStripZeros(Text.ZeroPad(date.day, 2))
    else
      Text.LStripZeros(Text.ZeroPad(date.month, 2)) + "/" + Text.LStripZeros(Text.ZeroPad(date.day, 2))
  }

  /** 2025-02-09 is looked up as "2/9". */
  lemma TargetLabelExample()
    ensures TargetLabel(Scraping.Date(2025, 2, 9)) == "2/9"
  {
    assert Text.Decimal(2) == "2" && Text.Decimal(9) == "9";
  }

  /** `"Date: " + strftime('%Y-%m-%d') + "\n"`. */
  function DateLine(date: Scraping.Date): (line: string)
    ensures Text.StartsWith(line, "Date: ") && line[|line| - 1] == '\n'
  {
    var line := "Date: " + Text.ZeroPad(date.year, 4) + "-" + Text.ZeroPad(date.month, 2) + "-" +
      Text.ZeroPad(date.day, 2) + "\n";
    assert line[..6] == "Date: ";
    line
  }

  /** Where the three fields sit in a date line built from a four-, a two- and a two-character field. */
  lemma DateLineLayout(y: string, m: string, d: string)
    requires |y| == 4 && |m| == 2 && |d| == 2
    ensures var line := "Date: " + y + "-" + m + "-" + d + "\n";
      |line| == 17 && line[..6] == "Date: " && line[10] == '-' && line[13] == '-' && line[16] == '\n' &&
      line[6..10] == y && line[11..13] == m && line[14..16] == d &&
      (forall i :: 6 <= i < 10 ==> line[i] == y[i - 6]) &&
      (forall i :: 11 <= i < 13 ==> line[i] == m[i - 11]) &&
      (forall i :: 14 <= i < 16 ==> line[i] == d[i - 14])
  {
    var line := "Date: " + y + "-" + m + "-" + d + "\n";
    assert line == "Date: " + (y + ("-" + (m + ("-" + (d + "\n")))));
  }

  /**
   * For a four-digit year, the date line is "Date: YYYY-MM-DD" and a newline:
   * fixed-width fields that read back as the date's year, month and day.
   */
  lemma DateLineFields(date: Scraping.Date)
    requires date.year < 10000 && date.month < 100 && date.day < 100
    ensures |DateLine(date)| == 17
    ensures DateLine(date)[..6] == "Date: " && DateLine(date)[10] == '-' && DateLine(date)[13] == '-' && DateLine(date)[16] == '\n'
    ensures forall i :: 6 <= i < 16 && i != 10 && i != 13 ==> Text.IsDigit(DateLine(date)[i])
    ensures Text.ParseDecimal(DateLine(date)[6..10]) == date.year
    ensures Text.ParseDecimal(DateLine(date)[11..13]) == date.month
    ensures Text.ParseDecimal(DateLine(date)[14..16]) == date.day
  {
    Text.DecimalFits(date.year, 4);
    Text.DecimalFits(date.month, 2);
    Text.DecimalFits(date.day, 2);
    Text.ParseZeroPad(date.year, 4);
    Text.ParseZeroPad(date.month, 2);
    Text.ParseZeroPad(date.day, 2);
    DateLineLayout(Text.ZeroPad(date.year, 4), Text.ZeroPad(date.month, 2), Text.ZeroPad(date.day, 2));
  }

  /** The index of the first entry whose label starts with `target`, or `|availability|` if none does. */
  function FirstMatchIndex(availability: Dict<string, string>, target: string): (i: nat)
    ensures i <= |availability|
    ensures forall j :: 0 <= j < i ==> !Text.StartsWith(availability[j].0, target)
    ensures i < |availability| ==> Text.StartsWith(availability[i].0, target)
  {
    if availability == [] then 0
    else if Text.StartsWith(availability[0].0, target) then 0
    else 1 + FirstMatchIndex(availability[1..], target)
  }

  /** A hotel's status for the target label: the first matching entry's value, or UNKNOWN. */
  function StatusOf(availability: Dict<string, string>, target: string): string {
    var i := FirstMatchIndex(availability, target);
    if i < |availability| then availability[i].1 else UNKNOWN_STATUS
  }

  /** The `for ... in hotel.availability.items()` scan with its `break`. */
  method FindStatus(availability: Dict<string, string>, target: string) returns (status: string)
    ensures status == StatusOf(availability, target)
  {
    status := UNKNOWN_STATUS;
    for i := 0 to |availability|
      invariant forall j :: 0 <= j < i ==> !Text.StartsWith(availability[j].0, target)
    {
      if Text.StartsWith(availability[i].0, target) {
        status := availability[i].1;
        break;
      }
    }
  }

  /** The status is the value of the first entry, in insertion order, whose label starts with the target. */
  lemma StatusIsFirstMatch(availability: Dict<string, string>, target: string, i: nat)
    requires i < |availability| && Text.StartsWith(availability[i].0, target)
    requires forall j :: 0 <= j < i ==> !Text.StartsWith(availability[j].0, target)
    ensures StatusOf(availability, target) == availability[i].1
  {
  }

  /**
   * From the calendar to the report: when the hotel's lowest owned cell in a
   * day column is rendered "mark m01 m01_col", that column's header starts
   * with the target label and no other header does, and no earlier header
   * lookup fails, the hotel is reported AVAILABLE with its marker.
   */
  lemma MarkedCellReportedAvailable(page: Extractor.Page, hotelId: string, date: Scraping.Date, day: nat, row: nat)
    requires day < Extractor.DAYS && row < Extractor.MAX_ROWS
    requires Extractor.ProbeRow(page, hotelId, row, day).Owned?
    requires Extractor.ProbeRow(page, hotelId, row, day).cell.classAttribute == "mark m01 m01_col"
    requires forall r :: 0 <= r < row ==> !Extractor.ProbeRow(page, hotelId, r, day).Owned?
    requires forall d :: 0 <= d < day ==> d in page.headers
    requires day in page.headers && Text.StartsWith(page.headers[day], TargetLabel(date))
    requires forall d :: 0 <= d < Extractor.DAYS && d != day && d in page.headers ==>
      !Text.StartsWith(page.headers[d], TargetLabel(date))
    ensures StatusOf(Extractor.HotelAvailability(page, hotelId), TargetLabel(date)) == "AVAILABLE"
    ensures StatusMarker(StatusOf(Extractor.HotelAvailability(page, hotelId), TargetLabel(date))) == AVAILABLE_MARKER
  {
    var target := TargetLabel(date);
    var key := page.headers[day];
    var cell := Extractor.ProbeRow(page, hotelId, row, day).cell;
    Extractor.LowestOwnedRowWins(page, hotelId, day, row);
    Extractor.HeadersPresentKeepRunning(page, hotelId, day);
    Classifier.AvailableCellExample();
    Extractor.FoundDayIsRecorded(page, hotelId, day, cell);
    var availability := Extractor.HotelAvailability(page, hotelId);
    assert Get(availability, key) == Some("AVAILABLE");
    var i := GetIndex(availability, key);
    Extractor.AvailabilityShape(page, hotelId);
    forall j | 0 <= j < i ensures !Text.StartsWith(availability[j].0, target) {
      var d :| 0 <= d < Extractor.DAYS && Extractor.RecordedFrom(page, hotelId, d, availability[j].0);
    }
    StatusIsFirstMatch(availability, target, i);
  }

  /** Matching is by prefix, so a target such as "2/1" also takes the entry labelled "2/10". */
  lemma PrefixAlsoMatchesLongerLabel(target: string, suffix: string, status: string, rest: Dict<string, string>)
    ensures StatusOf([(target + suffix, status)] + rest, target) == status
  {
    assert (target + suffix)[..|target|] == target;
  }

  /** No entry labelled with the target gives UNKNOWN, whose marker is the fallback one. */
  lemma NoMatchIsUnknown(availability: Dict<string, string>, target: string)
    requires forall j :: 0 <= j < |availability| ==> !Text.StartsWith(availability[j].0, target)
    ensures StatusOf(availability, target) == UNKNOWN_STATUS
    ensures StatusMarker(StatusOf(availability, target)) == UNKNOWN_MARKER
  {
  }

  /** The layout of a hotel part: the name in bold and a colon, a newline, the marker, a space, the status text. */
  function PartText(name: string, marker: string, text: string): (part: string)
    ensures |part| == |name| + |marker| + |text| + 5
    ensures part[0] == '*' && part[1..1 + |name|] == name && part[1 + |name|..4 + |name|] == "*:\n"
    ensures part[4 + |name|..4 + |name| + |marker|] == marker && part[4 + |name| + |marker|] == ' '
    ensures part[|part| - |text|..] == text
  {
    var part := "*" + name + "*:\n" + marker + " " + text;
    assert part == "*" + (name + ("*:\n" + (marker + (" " + text))));
    part
  }

  /**
   * The part for one hotel: its name in bold, then the marker and the status
   * found for the target label. Unescaping gives back the name and the status.
   */
  function HotelPart(hotel: Scraping.Hotel, target: string): (part: string)
    ensures var name := Markdown.Escape(hotel.name);
      var status := StatusOf(hotel.availability, target);
      var marker := StatusMarker(status);
      |part| == |name| + |marker| + |Markdown.Escape(status)| + 5 && part[0] == '*' &&
      Markdown.Unescape(part[1..1 + |name|]) == hotel.name &&
      part[1 + |name|..4 + |name|] == "*:\n" &&
      part[4 + |name|..4 + |name| + |marker|] == marker && part[4 + |name| + |marker|] == ' ' &&
      Markdown.Unescape(part[|part| - |Markdown.Escape(status)|..]) == status
  {
    var status := StatusOf(hotel.availability, target);
    Markdown.UnescapeEscape(hotel.name);
    Markdown.UnescapeEscape(status);
    PartText(Markdown.Escape(hotel.name), StatusMarker(status), Markdown.Escape(status))
  }

  /** One part per hotel, in order. */
  function HotelParts(hotels: seq<Scraping.Hotel>, target: string): seq<string> {
    Seqs.Map(hotel => HotelPart(hotel, target), hotels)
  }

  /** Part `i` of the hotel parts is hotel `i`'s part. */
  lemma HotelPartsAt(hotels: seq<Scraping.Hotel>, target: string, i: nat)
    requires i < |hotels|
    ensures |HotelParts(hotels, target)| == |hotels|
    ensures HotelParts(hotels, target)[i] == HotelPart(hotels[i], target)
  {
    Seqs.MapAt(hotel => HotelPart(hotel, target), hotels, i);
  }

  lemma HotelPartsAppend(hotels: seq<Scraping.Hotel>, target: string, i: nat)
    requires i < |hotels|
    ensures HotelParts(hotels[..i + 1], target) == HotelParts(hotels[..i], target) + [HotelPart(hotels[i], target)]
  {
    Seqs.MapAppend(hotel => HotelPart(hotel, target), hotels, i);
  }

  /** The parts of a report: title, date line, then one part per hotel in result order. */
  function MessageParts(result: Scraping.AvailabilityResult): (parts: seq<string>)
    ensures |parts| == 2 + |result.hotels|
    ensures parts[0] == TITLE && parts[1] == DateLine(result.date)
    ensures parts[2..] == HotelParts(result.hotels, TargetLabel(result.date))
  {
    var head := [TITLE, DateLine(result.date)];
    var hotelParts := HotelParts(result.hotels, TargetLabel(result.date));
    Seqs.ConcatParts(head, hotelParts);
    head + hotelParts
  }

  /** `if result.error:` holds for a present, non-empty error string. */
  predicate ReportsError(result: Scraping.AvailabilityResult) {
    result.error.Some? && result.error.value != ""
  }

  /** An error report: the fixed lead followed by the escaped error, which unescaping recovers. */
  function ErrorMessage(error: string): (message: string)
    ensures Text.StartsWith(message, ERROR_LEAD)
    ensures Markdown.Unescape(message[|ERROR_LEAD|..]) == error
  {
    var message := ERROR_LEAD + Markdown.Escape(error);
    assert message[..|ERROR_LEAD|] == ERROR_LEAD;
    assert message[|ERROR_LEAD|..] == Markdown.Escape(error);
    Markdown.UnescapeEscape(error);
    message
  }

  /**
   * The message sent: an error report carrying the error, or a report that
   * opens with the title and the date line. It is never empty.
   */
  function Message(result: Scraping.AvailabilityResult): (message: string)
    ensures ReportsError(result) ==>
      Text.StartsWith(message, ERROR_LEAD) &&
      Markdown.Unescape(message[|ERROR_LEAD|..]) == result.error.value
    ensures !ReportsError(result) ==>
      Text.StartsWith(message, TITLE + PART_SEPARATOR + DateLine(result.date))
    ensures |message| > 0
  {
    if ReportsError(result) then ErrorMessage(result.error.value)
    else
      var parts := MessageParts(result);
      JoinWithOpening(parts, PART_SEPARATOR);
      Text.JoinWith(parts, PART_SEPARATOR)
  }

  /** The part appended for one hotel. */
  method FormatHotel(hotel: Scraping.Hotel, target: string) returns (part: string)
    ensures part == HotelPart(hotel, target)
  {
    var status := FindStatus(hotel.availability, target);
    var marker := StatusMarker(status);
    var name := Markdown.EscapeMarkdown(hotel.name);
    var statusText := Markdown.EscapeMarkdown(status);
    part := "*" + name + "*:\n" + marker + " " + statusText;
  }

  /** `format_availability_message`. */
  method FormatAvailabilityMessage(result: Scraping.AvailabilityResult) returns (message: string)
    ensures message == Message(result)
  {
    if result.error.Some? && result.error.value != "" {
      var escaped := Markdown.EscapeMarkdown(result.error.value);
      return ERROR_LEAD + escaped;
    }
    var head := [TITLE, DateLine(result.date)];
    var parts := head;
    var target := TargetLabel(result.date);
    for i := 0 to |result.hotels|
      invariant parts == head + HotelParts(result.hotels[..i], target)
    {
      var part := FormatHotel(result.hotels[i], target);
      HotelPartsAppend(result.hotels, target, i);
      Seqs.ConcatAssociative(head, HotelParts(result.hotels[..i], target), [part]);
      parts := parts + [part];
    }
    assert result.hotels[..|result.hotels|] == result.hotels;
    message := Text.JoinWith(parts, PART_SEPARATOR);
  }

  lemma {:induction false} JoinWithStartsWithFirst(parts: seq<string>, sep: string)
    requires parts != []
    ensures Text.StartsWith(Text.JoinWith(parts, sep), parts[0])
  {
    var joined := Text.JoinWith(parts, sep);
    if |parts| > 1 {
      assert joined == parts[0] + (sep + Text.JoinWith(parts[1..], sep));
    }
    assert joined[..|parts[0]|] == parts[0];
  }

  /** Two or more parts joined open with the first, the separator and the second. */
  lemma JoinWithOpening(parts: seq<string>, sep: string)
    requires |parts| >= 2
    ensures Text.StartsWith(Text.JoinWith(parts, sep), parts[0] + sep + parts[1])
  {
    var rest := Text.JoinWith(parts[1..], sep);
    JoinWithStartsWithFirst(parts[1..], sep);
    var joined := Text.JoinWith(parts, sep);
    assert joined == (parts[0] + sep) + rest;
    assert joined[..|parts[0] + sep| + |parts[1]|] == (parts[0] + sep) + rest[..|parts[1]|];
  }

  /**
   * Every failed scrape reaches the chat as an error report carrying its
   * cause: the error strings of a failed scrape are never empty.
   */
  lemma FailedScrapeIsReported(date: Scraping.Date, s: Scraping.Session)
    requires !Scraping.Succeeds(s)
    ensures ReportsError(Scraping.Scrape(date, s))
    ensures Message(Scraping.Scrape(date, s)) == ErrorMessage(Scraping.Scrape(date, s).error.value)
  {
    var error := Scraping.Scrape(date, s).error.value;
    if Text.StartsWith(error, Scraping.UNEXPECTED_ERROR_PREFIX) {
      assert |error| >= |Scraping.UNEXPECTED_ERROR_PREFIX|;
    }
  }

}
