/**
 * The scrape orchestrator (`check_availability`): open a browser session,
 * load the calendar, write the target date, click search, wait for the
 * results table, then extract the three monitored hotels in registry order.
 * Every failure becomes a fixed error string with no hotels, and the
 * session is quit on every exit path once it exists.
 *
 * The browser is replaced by the outcome of each step (`Session`) and, for
 * the extraction, by the rendered page (`Extractor.Page`).
 */
module Scraping {

  import opened Optional
  import opened Dicts
  import Text
  import Extractor

  datatype Date = Date(year: nat, month: nat, day: nat)

  datatype Hotel = Hotel(id: string, name: string, availability: Dict<string, string>)

  datatype AvailabilityResult = AvailabilityResult(date: Date, hotels: seq<Hotel>, error: Option<string>)

  /** `MONITORED_HOTELS`, in its insertion (iteration) order: hotel id and display name. */
  const MONITORED_HOTELS: seq<(string, string)> :=
    [("21560043", "Yokichi"), ("21560029", "Magoemon"), ("21560055", "YOSHIRO")]

  const SET_DATE_ERROR := "Failed to set date"
  const CLICK_SEARCH_ERROR := "Failed to click search"
  const TIMEOUT_ERROR := "Timeout waiting for results"
  const UNEXPECTED_ERROR_PREFIX := "Unexpected error: "

  /** How a browser step that may raise ends: normally, with `TimeoutException`, or with another exception. */
  datatype Outcome = Ok | TimedOut | Raised(message: string)

  /**
   * The behaviour of one browser session: starting the driver, loading the
   * calendar URL, whether the three date inputs and the search button can be
   * located, the wait for the results table, and the page then rendered.
   */
  datatype Session = Session(
    launch: Outcome,
    load: Outcome,
    dateInputsFound: bool,
    searchButtonFound: bool,
    resultsWait: Outcome,
    page: Extractor.Page)

  /** The `except` clauses of `check_availability`. */
  function ExceptionMessage(o: Outcome): (error: string)
    requires !o.Ok?
    ensures error == TIMEOUT_ERROR <==> o.TimedOut?
    ensures o.Raised? ==>
      Text.StartsWith(error, UNEXPECTED_ERROR_PREFIX) && error[|UNEXPECTED_ERROR_PREFIX|..] == o.message
  {
    match o
    case TimedOut => TIMEOUT_ERROR
    case Raised(message) =>
      var error := UNEXPECTED_ERROR_PREFIX + message;
      assert error[0] == 'U' != TIMEOUT_ERROR[0];
      assert error[..|UNEXPECTED_ERROR_PREFIX|] == UNEXPECTED_ERROR_PREFIX;
      error
  }

  /** The strings `set_date` types into the year, month and day inputs: `str(n)` of each field. */
  function DateInputs(date: Date): seq<string> {
    [Text.Decimal(date.year), Text.Decimal(date.month), Text.Decimal(date.day)]
  }

  /** The three inputs read back as the target date's fields. */
  lemma DateInputsRoundTrip(date: Date)
    ensures |DateInputs(date)| == 3
    ensures Text.ParseDecimal(DateInputs(date)[0]) == date.year
    ensures Text.ParseDecimal(DateInputs(date)[1]) == date.month
    ensures Text.ParseDecimal(DateInputs(date)[2]) == date.day
  {
    Text.ParseDecimalOfDecimal(date.year);
    Text.ParseDecimalOfDecimal(date.month);
    Text.ParseDecimalOfDecimal(date.day);
  }

  predicate Succeeds(s: Session) {
    s.launch.Ok? && s.load.Ok? && s.dateInputsFound && s.searchButtonFound && s.resultsWait.Ok?
  }

  function MonitoredHotel(page: Extractor.Page, i: nat): Hotel
    requires i < |MONITORED_HOTELS|
  {
    var (id, name) := MONITORED_HOTELS[i];
    Hotel(id, name, Extractor.HotelAvailability(page, id))
  }

  /** The result `check_availability` returns for a session. */
  function Scrape(date: Date, s: Session): (r: AvailabilityResult)
    ensures r.date == date
    ensures r.error.None? <==> Succeeds(s)
    ensures r.error.Some? ==> r.hotels == []
    ensures r.error.Some? ==>
      r.error.value in {SET_DATE_ERROR, CLICK_SEARCH_ERROR, TIMEOUT_ERROR} ||
      Text.StartsWith(r.error.value, UNEXPECTED_ERROR_PREFIX)
    ensures !s.launch.Ok? ==> r.error == Some(ExceptionMessage(s.launch))
    ensures s.launch.Ok? && !s.load.Ok? ==> r.error == Some(ExceptionMessage(s.load))
    ensures s.launch.Ok? && s.load.Ok? && !s.dateInputsFound ==> r.error == Some(SET_DATE_ERROR)
    ensures s.launch.Ok? && s.load.Ok? && s.dateInputsFound && !s.searchButtonFound ==>
      r.error == Some(CLICK_SEARCH_ERROR)
    ensures s.launch.Ok? && s.load.Ok? && s.dateInputsFound && s.searchButtonFound && !s.resultsWait.Ok? ==>
      r.error == Some(ExceptionMessage(s.resultsWait))
    ensures r.error.None? ==>
      |r.hotels| == 3 &&
      forall i :: 0 <= i < 3 ==>
        r.hotels[i].id == MONITORED_HOTELS[i].0 && r.hotels[i].name == MONITORED_HOTELS[i].1 &&
        r.hotels[i].availability == Extractor.HotelAvailability(s.page, MONITORED_HOTELS[i].0)
  {
    if !s.launch.Ok? then AvailabilityResult(date, [], Some(ExceptionMessage(s.launch)))
    else if !s.load.Ok? then AvailabilityResult(date, [], Some(ExceptionMessage(s.load)))
    else if !s.dateInputsFound then AvailabilityResult(date, [], Some(SET_DATE_ERROR))
    else if !s.searchButtonFound then AvailabilityResult(date, [], Some(CLICK_SEARCH_ERROR))
    else if !s.resultsWait.Ok? then AvailabilityResult(date, [], Some(ExceptionMessage(s.resultsWait)))
    else
      var hotels := seq(|MONITORED_HOTELS|, i requires 0 <= i < |MONITORED_HOTELS| => MonitoredHotel(s.page, i));
      AvailabilityResult(date, hotels, None)
  }

  /** A timed-out wait for the results table is reported as a timeout, with no hotels. */
  lemma ResultsTimeoutReported(date: Date, s: Session)
    requires s.launch.Ok? && s.load.Ok? && s.dateInputsFound && s.searchButtonFound
    requires s.resultsWait == TimedOut
    ensures Scrape(date, s) == AvailabilityResult(date, [], Some(TIMEOUT_ERROR))
  {
  }

  /** Failing to locate the date inputs is reported as a set-date failure, with no hotels. */
  lemma SetDateFailureReported(date: Date, s: Session)
    requires s.launch.Ok? && s.load.Ok? && !s.dateInputsFound
    ensures Scrape(date, s) == AvailabilityResult(date, [], Some(SET_DATE_ERROR))
  {
  }

  /** A search button that cannot be found is reported as a failed click, with no hotels. */
  lemma SearchFailureReported(date: Date, s: Session)
    requires s.launch.Ok? && s.load.Ok? && s.dateInputsFound && !s.searchButtonFound
    ensures Scrape(date, s) == AvailabilityResult(date, [], Some(CLICK_SEARCH_ERROR))
  {
  }

  /** A browser session: the values typed into the date inputs, and how often it was quit. */
  class Driver {
    var dateInputs: seq<string>
    var quitCount: nat

    constructor ()
      ensures dateInputs == [] && quitCount == 0
    {
      dateInputs := [];
      quitCount := 0;
    }

    /** `set_date`: fails, typing nothing, when the inputs cannot be located. */
    method SetDate(date: Date, inputsFound: bool) returns (ok: bool)
      modifies this
      ensures ok == inputsFound
      ensures dateInputs == if ok then DateInputs(date) else old(dateInputs)
      ensures quitCount == old(quitCount)
    {
      if !inputsFound {
        return false;
      }
      dateInputs := [Text.Decimal(date.year), Text.Decimal(date.month), Text.Decimal(date.day)];
      ok := true;
    }

    method Quit()
      modifies this
      ensures quitCount == old(quitCount) + 1
      ensures dateInputs == old(dateInputs)
    {
      quitCount := quitCount + 1;
    }
  }

  class Scraper {
    /** `self.driver`: None until a session starts; never reset afterwards. */
    var driver: Driver?

    constructor ()
      ensures driver == null
    {
      driver := null;
    }

    /** The `try` block of `check_availability`, with its `except` handlers. */
    method Attempt(date: Date, s: Session) returns (r: AvailabilityResult)
      modifies this
      ensures r == Scrape(date, s)
      ensures s.launch.Ok? ==> driver != null && fresh(driver) && driver.quitCount == 0
      ensures s.launch.Ok? && s.load.Ok? && s.dateInputsFound ==> driver != null && driver.dateInputs == DateInputs(date)
      ensures !s.launch.Ok? ==> driver == old(driver)
    {
      if !s.launch.Ok? {
        return AvailabilityResult(date, [], Some(ExceptionMessage(s.launch)));
      }
      var session := new Driver();
      driver := session;
      if !s.load.Ok? {
        return AvailabilityResult(date, [], Some(ExceptionMessage(s.load)));
      }
      var ok := session.SetDate(date, s.dateInputsFound);
      if !ok {
        return AvailabilityResult(date, [], Some(SET_DATE_ERROR));
      }
      if !s.searchButtonFound {
        return AvailabilityResult(date, [], Some(CLICK_SEARCH_ERROR));
      }
      if !s.resultsWait.Ok? {
        return AvailabilityResult(date, [], Some(ExceptionMessage(s.resultsWait)));
      }
      var hotels: seq<Hotel> := [];
      for i := 0 to |MONITORED_HOTELS|
        invariant driver == session && session.quitCount == 0 && session.dateInputs == DateInputs(date)
        invariant |hotels| == i
        invariant forall j :: 0 <= j < i ==> hotels[j] == MonitoredHotel(s.page, j)
      {
        var (id, name) := MONITORED_HOTELS[i];
        var availability := Extractor.GetHotelAvailability(s.page, id);
        hotels := hotels + [Hotel(id, name, availability)];
      }
      r := AvailabilityResult(date, hotels, None);
    }

    /**
     * `check_availability`: the attempt, then the `finally` clause, which
     * quits `self.driver` if it is set. A session started by this call is
     * quit exactly once; when starting the session raised, a driver left over
     * from an earlier call is quit again.
     */
    method CheckAvailability(date: Date, s: Session) returns (r: AvailabilityResult)
      modifies this, driver
      ensures r == Scrape(date, s)
      ensures s.launch.Ok? ==> driver != null && fresh(driver) && driver.quitCount == 1
      ensures s.launch.Ok? && s.load.Ok? && s.dateInputsFound ==> driver != null && driver.dateInputs == DateInputs(date)
      ensures !s.launch.Ok? ==> driver == old(driver)
      ensures !s.launch.Ok? && driver != null ==> driver.quitCount == old(driver.quitCount) + 1
      ensures s.launch.Ok? && old(driver) != null ==> old(driver).quitCount == old(driver.quitCount)
    {
      r := Attempt(date, s);
      if driver != null {
        driver.Quit();
      }
    }
  }

}
