/**
 * The availability extractor (`get_hotel_availability`). The rendered
 * calendar is an abstract page: the cells that exist, keyed by (row, day),
 * each with its class attribute and the link found in the hotel column
 * before it (if the lookup succeeds), and the date-header labels, keyed by
 * day. For each of the 10 day columns the extractor probes rows 0..29 for the
 * cell owned by the hotel, then records `header label -> status`.
 */
module Extractor {

  import opened Optional
  import opened Dicts
  import Text
  import Classifier

  /** Day columns probed: `range(10)`. */
  const DAYS := 10
  /** Rows probed per day: `while row < 30`. */
  const MAX_ROWS := 30

  /** The hotel link of a row; `onclick` is None when the attribute is absent. */
  datatype Link = Link(onclick: Option<string>)

  /** A calendar cell; `hotelLink` is None when the preceding-sibling lookup raises. */
  datatype Cell = Cell(classAttribute: string, hotelLink: Option<Link>)

  datatype Page = Page(cells: map<(int, int), Cell>, headers: map<int, string>)

  /** What one pass of the row loop observes. */
  datatype Probe =
    | NoCell                // `find_element` for the cell raises
    | LinkFailed(cell: Cell) // the cell exists, but the link lookup or the `in` test raises
    | Owned(cell: Cell)     // the link's onclick contains the hotel id
    | Foreign               // the link's onclick does not contain the hotel id

  function ProbeRow(page: Page, hotelId: string, row: int, day: int): Probe
  {
    if (row, day) !in page.cells then NoCell
    else
      var cell := page.cells[(row, day)];
      match cell.hotelLink
      case None => LinkFailed(cell)
      case Some(link) =>
        match link.onclick
        case None => LinkFailed(cell)
        case Some(onclick) => if Text.IsInfix(hotelId, onclick) then Owned(cell) else Foreign
  }

  /**
   * What a row pass observes: no cell when the cell is missing; a link failure,
   * keeping the cell, when the link or its onclick is missing; otherwise
   * ownership exactly when the hotel id occurs in the onclick text.
   */
  lemma ProbeRowCases(page: Page, hotelId: string, row: int, day: int)
    ensures ProbeRow(page, hotelId, row, day).NoCell? <==> (row, day) !in page.cells
    ensures ProbeRow(page, hotelId, row, day).LinkFailed? || ProbeRow(page, hotelId, row, day).Owned? ==>
      ProbeRow(page, hotelId, row, day).cell == page.cells[(row, day)]
    ensures ProbeRow(page, hotelId, row, day).Owned? || ProbeRow(page, hotelId, row, day).Foreign? <==>
      (row, day) in page.cells && page.cells[(row, day)].hotelLink.Some? &&
      page.cells[(row, day)].hotelLink.value.onclick.Some?
    ensures ProbeRow(page, hotelId, row, day).Owned? <==>
      (row, day) in page.cells && page.cells[(row, day)].hotelLink.Some? &&
      page.cells[(row, day)].hotelLink.value.onclick.Some? &&
      Text.IsInfix(hotelId, page.cells[(row, day)].hotelLink.value.onclick.value)
  {
  }

  /** The value of `cell` once the row loop, entered at `row` with `cell == candidate`, ends. */
  function Scan(page: Page, hotelId: string, day: int, row: nat, candidate: Option<Cell>): Option<Cell>
    decreases MAX_ROWS - row
  {
    if row >= MAX_ROWS then candidate
    else
      match ProbeRow(page, hotelId, row, day)
      case NoCell => Scan(page, hotelId, day, row + 1, candidate)
      case LinkFailed(cell) => Scan(page, hotelId, day, row + 1, Some(cell))
      case Owned(cell) => Some(cell)
      case Foreign => Scan(page, hotelId, day, row + 1, None)
  }

  function OwningCell(page: Page, hotelId: string, day: int): Option<Cell> {
    Scan(page, hotelId, day, 0, None)
  }

  /** The inner `while row < 30` loop of `get_hotel_availability` for one day. */
  method FindOwningCell(page: Page, hotelId: string, day: int) returns (cell: Option<Cell>)
    ensures cell == OwningCell(page, hotelId, day)
  {
    cell := None;
    var row := 0;
    while row < MAX_ROWS
      invariant 0 <= row <= MAX_ROWS
      invariant Scan(page, hotelId, day, row, cell) == OwningCell(page, hotelId, day)
    {
      if (row, day) in page.cells {
        var found := page.cells[(row, day)];
        cell := Some(found);
        if found.hotelLink.Some? && found.hotelLink.value.onclick.Some? {
          if Text.IsInfix(hotelId, found.hotelLink.value.onclick.value) {
            break;
          }
          cell := None;
        }
      }
      row := row + 1;
    }
  }

  /** The dictionary built so far, and whether a header lookup has raised. */
  datatype Progress = Progress(availability: Dict<string, string>, aborted: bool)

  /** One iteration of the `for day` loop. */
  function Step(page: Page, hotelId: string, day: int, p: Progress): Progress
    requires DistinctKeys(p.availability)
  {
    if p.aborted then p
    else
      match OwningCell(page, hotelId, day)
      case None => p
      case Some(cell) =>
        if day in page.headers then
          var status := Classifier.ParseAvailabilityStatus(cell.classAttribute);
          Progress(Put(p.availability, page.headers[day], Classifier.Name(status)), false)
        else
          Progress(p.availability, true)
  }

  /**
   * One day of the loop: nothing changes once aborted; a found cell whose
   * header lookup raises aborts; a found cell under a header stores its
   * status under that header; the dictionary keeps distinct keys.
   */
  lemma StepOutcome(page: Page, hotelId: string, day: int, p: Progress)
    requires DistinctKeys(p.availability)
    ensures DistinctKeys(Step(page, hotelId, day, p).availability)
    ensures p.aborted ==> Step(page, hotelId, day, p) == p
    ensures Step(page, hotelId, day, p).aborted <==>
      p.aborted || (OwningCell(page, hotelId, day).Some? && day !in page.headers)
    ensures !p.aborted && OwningCell(page, hotelId, day).None? ==> Step(page, hotelId, day, p) == p
    ensures !p.aborted && OwningCell(page, hotelId, day).Some? && day in page.headers ==>
      Get(Step(page, hotelId, day, p).availability, page.headers[day]) ==
      Some(Classifier.Name(Classifier.ParseAvailabilityStatus(OwningCell(page, hotelId, day).value.classAttribute)))
  {
    var found := OwningCell(page, hotelId, day);
    if !p.aborted && found.Some? && day in page.headers {
      var name := Classifier.Name(Classifier.ParseAvailabilityStatus(found.value.classAttribute));
      PutGet(p.availability, page.headers[day], name, page.headers[day]);
    }
  }

  /** The state after the first `n` days. */
  function Run(page: Page, hotelId: string, n: nat): (p: Progress)
    ensures DistinctKeys(p.availability) && |p.availability| <= n
  {
    if n == 0 then Progress([], false)
    else Step(page, hotelId, n - 1, Run(page, hotelId, n - 1))
  }

  function HotelAvailability(page: Page, hotelId: string): Dict<string, string> {
    Run(page, hotelId, DAYS).availability
  }

  /** Once a header lookup has raised, later days change nothing. */
  lemma {:induction false} AbortIsFinal(page: Page, hotelId: string, m: nat, n: nat)
    requires m <= n
    requires Run(page, hotelId, m).aborted
    ensures Run(page, hotelId, n) == Run(page, hotelId, m)
    decreases n
  {
    if n > m {
      AbortIsFinal(page, hotelId, m, n - 1);
    }
  }

  /** `get_hotel_availability`: never raises; returns the dictionary gathered before any failure. */
  method GetHotelAvailability(page: Page, hotelId: string) returns (availability: Dict<string, string>)
    ensures availability == HotelAvailability(page, hotelId)
  {
    availability := [];
    var day := 0;
    while day < DAYS
      invariant 0 <= day <= DAYS
      invariant Run(page, hotelId, day) == Progress(availability, false)
    {
      assert Run(page, hotelId, day + 1) == Step(page, hotelId, day, Progress(availability, false));
      var cell := FindOwningCell(page, hotelId, day);
      if cell.Some? {
        if day !in page.headers {
          // the header lookup raises and the outer handler returns the dictionary as it is
          HeaderFailureKeepsEarlierDays(page, hotelId, day);
          return;
        }
        var status := Classifier.ParseAvailabilityStatus(cell.value.classAttribute);
        availability := Put(availability, page.headers[day], Classifier.Name(status));
      }
      day := day + 1;
    }
  }

  // ---- The row search ----

  lemma {:induction false} ScanReachesOwned(page: Page, hotelId: string, day: int, row: nat, candidate: Option<Cell>, r: nat)
    requires row <= r < MAX_ROWS && ProbeRow(page, hotelId, r, day).Owned?
    requires forall r' :: row <= r' < r ==> !ProbeRow(page, hotelId, r', day).Owned?
    ensures Scan(page, hotelId, day, row, candidate) == Some(ProbeRow(page, hotelId, r, day).cell)
    decreases r - row
  {
    if row < r {
      var next := match ProbeRow(page, hotelId, row, day)
        case NoCell => candidate
        case LinkFailed(cell) => Some(cell)
        case _ => None;
      ScanReachesOwned(page, hotelId, day, row + 1, next, r);
    }
  }

  /** When some row's link names the hotel, the lowest such row's cell is the one found. */
  lemma LowestOwnedRowWins(page: Page, hotelId: string, day: int, r: nat)
    requires r < MAX_ROWS && ProbeRow(page, hotelId, r, day).Owned?
    requires forall r' :: 0 <= r' < r ==> !ProbeRow(page, hotelId, r', day).Owned?
    ensures OwningCell(page, hotelId, day) == Some(ProbeRow(page, hotelId, r, day).cell)
  {
    ScanReachesOwned(page, hotelId, day, 0, None, r);
  }

  lemma {:induction false} ScanWithoutLinks(page: Page, hotelId: string, day: int, row: nat, candidate: Option<Cell>)
    requires forall r :: row <= r < MAX_ROWS ==> ProbeRow(page, hotelId, r, day).NoCell?
    ensures Scan(page, hotelId, day, row, candidate) == candidate
    decreases MAX_ROWS - row
  {
    if row < MAX_ROWS {
      ScanWithoutLinks(page, hotelId, day, row + 1, candidate);
    }
  }

  lemma {:induction false} ScanFindsNothing(page: Page, hotelId: string, day: int, row: nat)
    requires forall r :: row <= r < MAX_ROWS ==> ProbeRow(page, hotelId, r, day) in {NoCell, Foreign}
    ensures Scan(page, hotelId, day, row, None) == None
    decreases MAX_ROWS - row
  {
    if row < MAX_ROWS {
      ScanFindsNothing(page, hotelId, day, row + 1);
    }
  }

  /**
   * The cell found for a day belongs to some probed row: either its link
   * names the hotel, or its link lookup or `in` test raised (the cell had
   * already been assigned to `cell` when the exception was swallowed).
   */
  lemma {:induction false} FoundCellComesFromProbedRow(page: Page, hotelId: string, day: int, row: nat, candidate: Option<Cell>)
    requires Scan(page, hotelId, day, row, candidate).Some?
    ensures var cell := Scan(page, hotelId, day, row, candidate).value;
      candidate == Some(cell) ||
      exists r :: row <= r < MAX_ROWS && ProbeRow(page, hotelId, r, day) in {Owned(cell), LinkFailed(cell)}
    decreases MAX_ROWS - row
  {
    if row < MAX_ROWS {
      var cell := Scan(page, hotelId, day, row, candidate).value;
      match ProbeRow(page, hotelId, row, day)
      case NoCell =>
        FoundCellComesFromProbedRow(page, hotelId, day, row + 1, candidate);
      case LinkFailed(c) =>
        FoundCellComesFromProbedRow(page, hotelId, day, row + 1, Some(c));
      case Owned(c) =>
      case Foreign =>
        FoundCellComesFromProbedRow(page, hotelId, day, row + 1, None);
    }
  }

  /**
   * A cell whose link lookup raises is kept as the day's cell when no row
   * names the hotel and no later row holds a cell at all.
   */
  lemma LinkFailedCellIsKept(page: Page, hotelId: string, day: int, r: nat, cell: Cell)
    requires r < MAX_ROWS && ProbeRow(page, hotelId, r, day) == LinkFailed(cell)
    requires forall r' :: 0 <= r' < r ==> !ProbeRow(page, hotelId, r', day).Owned?
    requires forall r' :: r < r' < MAX_ROWS ==> ProbeRow(page, hotelId, r', day).NoCell?
    ensures OwningCell(page, hotelId, day) == Some(cell)
  {
    ScanWithoutLinks(page, hotelId, day, r + 1, Some(cell));
    ScanUpTo(page, hotelId, day, 0, None, r);
  }

  lemma {:induction false} ScanUpTo(page: Page, hotelId: string, day: int, row: nat, candidate: Option<Cell>, r: nat)
    requires row <= r < MAX_ROWS && ProbeRow(page, hotelId, r, day).LinkFailed?
    requires forall r' :: row <= r' < r ==> !ProbeRow(page, hotelId, r', day).Owned?
    ensures Scan(page, hotelId, day, row, candidate)
         == Scan(page, hotelId, day, r + 1, Some(ProbeRow(page, hotelId, r, day).cell))
    decreases r - row
  {
    if row < r {
      var next := match ProbeRow(page, hotelId, row, day)
        case NoCell => candidate
        case LinkFailed(cell) => Some(cell)
        case _ => None;
      ScanUpTo(page, hotelId, day, row + 1, next, r);
    }
  }

  /** A row whose link does not name the hotel discards whatever cell was kept before it. */
  lemma {:induction false} ForeignRowResets(page: Page, hotelId: string, day: int, row: nat, candidate: Option<Cell>, r: nat)
    requires row <= r < MAX_ROWS && ProbeRow(page, hotelId, r, day).Foreign?
    requires forall r' :: row <= r' < r ==> !ProbeRow(page, hotelId, r', day).Owned?
    ensures Scan(page, hotelId, day, row, candidate) == Scan(page, hotelId, day, r + 1, None)
    decreases r - row
  {
    if row < r {
      var next := match ProbeRow(page, hotelId, row, day)
        case NoCell => candidate
        case LinkFailed(cell) => Some(cell)
        case _ => None;
      ForeignRowResets(page, hotelId, day, row + 1, next, r);
    }
  }

  /**
   * A cell kept because its link lookup raised is dropped again by a later
   * row whose link does not name the hotel: with no owned row and no cell
   * after that row, the day has no owning cell.
   */
  lemma ForeignRowDropsKeptCell(page: Page, hotelId: string, day: int, r: nat)
    requires r < MAX_ROWS && ProbeRow(page, hotelId, r, day).Foreign?
    requires forall r' :: 0 <= r' < r ==> !ProbeRow(page, hotelId, r', day).Owned?
    requires forall r' :: r < r' < MAX_ROWS ==> ProbeRow(page, hotelId, r', day).NoCell?
    ensures OwningCell(page, hotelId, day) == None
  {
    ForeignRowResets(page, hotelId, day, 0, None, r);
    ScanWithoutLinks(page, hotelId, day, r + 1, None);
  }

  /** Two pages that agree on every probed row of a day column. */
  predicate SameProbes(page: Page, other: Page, hotelId: string, day: int) {
    forall r :: 0 <= r < MAX_ROWS ==> ProbeRow(page, hotelId, r, day) == ProbeRow(other, hotelId, r, day)
  }

  lemma {:induction false} ScanSeesOnlyProbes(page: Page, other: Page, hotelId: string, day: int, row: nat, candidate: Option<Cell>)
    requires SameProbes(page, other, hotelId, day)
    ensures Scan(page, hotelId, day, row, candidate) == Scan(other, hotelId, day, row, candidate)
    decreases MAX_ROWS - row
  {
    if row < MAX_ROWS {
      var next := match ProbeRow(page, hotelId, row, day)
        case NoCell => candidate
        case LinkFailed(cell) => Some(cell)
        case _ => None;
      ScanSeesOnlyProbes(page, other, hotelId, day, row + 1, next);
    }
  }

  // ---- The day loop ----

  predicate RecordedFrom(page: Page, hotelId: string, day: int, key: string) {
    0 <= day < DAYS && day in page.headers && page.headers[day] == key &&
    OwningCell(page, hotelId, day).Some?
  }

  /** `key` is the header label of one of the first `n` days whose owning cell was found. */
  predicate IsFoundLabel(page: Page, hotelId: string, n: nat, key: string) {
    exists d :: 0 <= d < n && RecordedFrom(page, hotelId, d, key)
  }

  /** Every key gathered over the first `n` days is the header label of one of those days whose owning cell was found. */
  lemma {:induction false} KeysAreFoundHeaders(page: Page, hotelId: string, n: nat)
    requires n <= DAYS
    ensures forall i :: 0 <= i < |Run(page, hotelId, n).availability| ==>
      IsFoundLabel(page, hotelId, n, Run(page, hotelId, n).availability[i].0)
  {
    if n > 0 {
      KeysAreFoundHeaders(page, hotelId, n - 1);
      var p := Run(page, hotelId, n - 1);
      var before := p.availability;
      var a := Run(page, hotelId, n).availability;
      assert forall key :: IsFoundLabel(page, hotelId, n - 1, key) ==> IsFoundLabel(page, hotelId, n, key) by {
        forall key | IsFoundLabel(page, hotelId, n - 1, key) ensures IsFoundLabel(page, hotelId, n, key) {
          var d :| 0 <= d < n - 1 && RecordedFrom(page, hotelId, d, key);
        }
      }
      var found := OwningCell(page, hotelId, n - 1);
      if p.aborted || found.None? || n - 1 !in page.headers {
        assert a == before;
      } else {
        var k := page.headers[n - 1];
        assert RecordedFrom(page, hotelId, n - 1, k);
        var name := Classifier.Name(Classifier.ParseAvailabilityStatus(found.value.classAttribute));
        assert a == Put(before, k, name);
        forall i | 0 <= i < |a| ensures IsFoundLabel(page, hotelId, n, a[i].0) {
          if i < |before| {
            assert a[i].0 == before[i].0;
          } else {
            assert a[i].0 == k;
          }
        }
      }
    }
  }

  /** At most one key per probed day, keys distinct, each one a found day's header label. */
  lemma AvailabilityShape(page: Page, hotelId: string)
    ensures |HotelAvailability(page, hotelId)| <= DAYS
    ensures DistinctKeys(HotelAvailability(page, hotelId))
    ensures forall i :: 0 <= i < |HotelAvailability(page, hotelId)| ==>
      IsFoundLabel(page, hotelId, DAYS, HotelAvailability(page, hotelId)[i].0)
  {
    KeysAreFoundHeaders(page, hotelId, DAYS);
  }

  /** While every header lookup so far succeeds, the day loop has not been aborted. */
  lemma {:induction false} HeadersPresentKeepRunning(page: Page, hotelId: string, n: nat)
    requires forall d :: 0 <= d < n ==> d in page.headers
    ensures !Run(page, hotelId, n).aborted
  {
    if n > 0 {
      HeadersPresentKeepRunning(page, hotelId, n - 1);
    }
  }

  lemma HeaderFailureAborts(page: Page, hotelId: string, day: nat)
    requires !Run(page, hotelId, day).aborted
    requires OwningCell(page, hotelId, day).Some? && day !in page.headers
    ensures Run(page, hotelId, day + 1) == Progress(Run(page, hotelId, day).availability, true)
  {
  }

  lemma {:induction false} AbortedRunKeeps(page: Page, hotelId: string, day: nat, n: nat)
    requires day < n && !Run(page, hotelId, day).aborted
    requires OwningCell(page, hotelId, day).Some? && day !in page.headers
    ensures Run(page, hotelId, n).availability == Run(page, hotelId, day).availability
  {
    HeaderFailureAborts(page, hotelId, day);
    AbortIsFinal(page, hotelId, day + 1, n);
  }

  /** A failing header lookup for a found cell stops the scan: the result is what earlier days gave. */
  lemma HeaderFailureKeepsEarlierDays(page: Page, hotelId: string, day: nat)
    requires day < DAYS && !Run(page, hotelId, day).aborted
    requires OwningCell(page, hotelId, day).Some? && day !in page.headers
    ensures HotelAvailability(page, hotelId) == Run(page, hotelId, day).availability
  {
    AbortedRunKeeps(page, hotelId, day, DAYS);
  }

  /** A day whose header is not `key` leaves the entry under `key` as it was. */
  lemma DayKeepsOtherKeys(page: Page, hotelId: string, n: nat, key: string)
    requires n > 0
    requires n - 1 in page.headers ==> page.headers[n - 1] != key
    ensures Get(Run(page, hotelId, n).availability, key) == Get(Run(page, hotelId, n - 1).availability, key)
  {
    var p := Run(page, hotelId, n - 1);
    var found := OwningCell(page, hotelId, n - 1);
    if !p.aborted && found.Some? && n - 1 in page.headers {
      var name := Classifier.Name(Classifier.ParseAvailabilityStatus(found.value.classAttribute));
      PutGet(p.availability, page.headers[n - 1], name, key);
    }
  }

  /** An entry present after `start` days stays when no later day up to `n` has the same header. */
  lemma {:induction false} LabelSurvivesLaterDays(page: Page, hotelId: string, start: nat, n: nat, key: string, status: string)
    requires start <= n
    requires Get(Run(page, hotelId, start).availability, key) == Some(status)
    requires forall d :: start <= d < n && d in page.headers ==> page.headers[d] != key
    ensures Get(Run(page, hotelId, n).availability, key) == Some(status)
    decreases n
  {
    if n > start {
      LabelSurvivesLaterDays(page, hotelId, start, n - 1, key, status);
      DayKeepsOtherKeys(page, hotelId, n, key);
    }
  }

  /** Day `n - 1`, when reached with its cell found and its header present, stores the cell's status under the header. */
  lemma DayRecordsFoundCell(page: Page, hotelId: string, n: nat, cell: Cell)
    requires n > 0 && !Run(page, hotelId, n - 1).aborted
    requires OwningCell(page, hotelId, n - 1) == Some(cell) && n - 1 in page.headers
    ensures Get(Run(page, hotelId, n).availability, page.headers[n - 1])
         == Some(Classifier.Name(Classifier.ParseAvailabilityStatus(cell.classAttribute)))
  {
    var name := Classifier.Name(Classifier.ParseAvailabilityStatus(cell.classAttribute));
    PutGet(Run(page, hotelId, n - 1).availability, page.headers[n - 1], name, page.headers[n - 1]);
  }

  /**
   * A day whose owning cell is found, reached before any header failure,
   * is recorded under its header key with the cell's status, unless a
   * later day with the same key overwrites it.
   */
  lemma FoundDayIsRecorded(page: Page, hotelId: string, day: nat, cell: Cell)
    requires day < DAYS && !Run(page, hotelId, day).aborted
    requires OwningCell(page, hotelId, day) == Some(cell) && day in page.headers
    requires forall d :: day < d < DAYS && d in page.headers ==> page.headers[d] != page.headers[day]
    ensures Get(HotelAvailability(page, hotelId), page.headers[day])
         == Some(Classifier.Name(Classifier.ParseAvailabilityStatus(cell.classAttribute)))
  {
    var name := Classifier.Name(Classifier.ParseAvailabilityStatus(cell.classAttribute));
    DayRecordsFoundCell(page, hotelId, day + 1, cell);
    LabelSurvivesLaterDays(page, hotelId, day + 1, DAYS, page.headers[day], name);
  }

  /** Two pages that agree on the probed rows and on the header labels of the first `n` day columns. */
  predicate SameProbedGrid(page: Page, other: Page, hotelId: string, n: nat) {
    (forall d :: 0 <= d < n ==> SameProbes(page, other, hotelId, d)) &&
    (forall d :: 0 <= d < n ==> (d in page.headers <==> d in other.headers)) &&
    (forall d :: 0 <= d < n && d in page.headers ==> page.headers[d] == other.headers[d])
  }

  lemma {:induction false} RunSeesOnlyProbedGrid(page: Page, other: Page, hotelId: string, n: nat)
    requires SameProbedGrid(page, other, hotelId, n)
    ensures Run(page, hotelId, n) == Run(other, hotelId, n)
  {
    if n > 0 {
      var day := n - 1;
      assert SameProbedGrid(page, other, hotelId, day);
      RunSeesOnlyProbedGrid(page, other, hotelId, day);
      ScanSeesOnlyProbes(page, other, hotelId, day, 0, None);
      assert OwningCell(page, hotelId, day) == OwningCell(other, hotelId, day);
    }
  }

  /** A cell outside rows 0..29 or day columns 0..9 is never looked at. */
  lemma UnprobedCellIgnored(page: Page, hotelId: string, row: int, day: int, cell: Cell)
    requires !(0 <= row < MAX_ROWS && 0 <= day < DAYS)
    ensures HotelAvailability(page.(cells := page.cells[(row, day) := cell]), hotelId) == HotelAvailability(page, hotelId)
  {
    var other := page.(cells := page.cells[(row, day) := cell]);
    forall d | 0 <= d < DAYS
      ensures SameProbes(other, page, hotelId, d)
    {
      forall r | 0 <= r < MAX_ROWS
        ensures ProbeRow(other, hotelId, r, d) == ProbeRow(page, hotelId, r, d)
      {
        assert (r, d) != (row, day);
      }
    }
    RunSeesOnlyProbedGrid(other, page, hotelId, DAYS);
  }

  lemma {:induction false} NothingFoundSoFar(page: Page, hotelId: string, n: nat)
    requires n <= DAYS
    requires forall r, d :: 0 <= r < MAX_ROWS && 0 <= d < DAYS ==> ProbeRow(page, hotelId, r, d) in {NoCell, Foreign}
    ensures Run(page, hotelId, n) == Progress([], false)
  {
    if n > 0 {
      NothingFoundSoFar(page, hotelId, n - 1);
      ScanFindsNothing(page, hotelId, n - 1, 0);
    }
  }

  /** A hotel whose id no probed link contains, and with no failing link lookup, gets an empty dictionary. */
  lemma AbsentHotelGivesEmpty(page: Page, hotelId: string)
    requires forall r, d :: 0 <= r < MAX_ROWS && 0 <= d < DAYS ==> ProbeRow(page, hotelId, r, d) in {NoCell, Foreign}
    ensures HotelAvailability(page, hotelId) == []
  {
    NothingFoundSoFar(page, hotelId, DAYS);
  }

}
