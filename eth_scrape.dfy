/**
 * The scheduled ETH job (src/inngest/scrap-farside-eth-and-store-it.function.ts,
 * lines 55-120): normalise the scraped table, stop on an empty result, then upsert
 * the last five days one after the other, reading each day's row before writing
 * it and recording what changed.
 */
module EthScrape {
  import opened Wrappers
  import opened Cells
  import opened Flows
  import Numerals
  import opened Normalizer
  import opened Enrichment
  import opened TickerRegistry
  import opened FlowStore

  /** The ticker columns of the ETH table. */
  const EthTickers: seq<string> := ["ETHA", "FETH", "ETHW", "CETH", "ETHV", "QETH", "EZET", "ETHE", "ETH"]

  /** The ETH table takes 17:00 in the process's local zone. */
  const EthSchema := Schema(EthTickers, false)

  /** How many of the most recent days each run processes. */
  const Window := 5

  /** One entry of `dbChanges` (`dataToPush` kept as the map rather than its JSON text). */
  datatype Change = Change(
    xataId: string,
    dayIsNew: bool,
    prevTotal: Option<real>,
    newTotal: real,
    dataToPush: map<string, real>)

  /** `parsedData.slice(-5)`: the last five days, or all of them when there are fewer. */
  function LatestDays(days: seq<Record>): (r: seq<Record>)
    ensures |r| == if |days| < Window then |days| else Window
    ensures r == days[|days| - |r|..]
  {
    if |days| <= Window then days else days[|days| - Window..]
  }

  /**
   * The change recorded for a day upserted into the table `rows`: whether the
   * table had no row under its id, the total that row held, and the total and
   * figures written.
   */
  function ChangeFor(rows: map<string, Row>, d: Record, cal: Calendar): (c: Change)
    ensures c.xataId == DayId(d, cal)
    ensures c.dayIsNew <==> c.xataId !in rows
    ensures c.prevTotal.None? <==> c.dayIsNew
  {
    var id := DayId(d, cal);
    Change(
      id,
      id !in rows,
      if id in rows then Some(rows[id].fields.total) else None,
      CleanFlow(Get(d, TotalKey)),
      CleanedFlows(d, EthTickers))
  }

  /**
   * A change names the day's id, says the day is new exactly when the table had
   * no row under it, carries that row's total, if any, as previous total, and
   * carries the total and the figures the upsert writes.
   */
  lemma ChangeForFacts(rows: map<string, Row>, d: Record, cal: Calendar)
    ensures var c := ChangeFor(rows, d, cal);
      && c.xataId == DayId(d, cal)
      && (c.dayIsNew <==> c.xataId !in rows)
      && (c.prevTotal.None? <==> c.dayIsNew)
      && (c.prevTotal.Some? ==> c.prevTotal.value == rows[c.xataId].fields.total)
      && var after := AfterDay(rows, d, cal, EthSchema);
         c.newTotal == after[c.xataId].fields.total && c.dataToPush == after[c.xataId].fields.flows
  {
  }

  /**
   * The changes recorded while upserting the days of a window in turn: the `k`-th
   * is that of the `k`-th day upserted into the table the days before it left.
   */
  function ChangesFor(rows: map<string, Row>, w: seq<Record>, cal: Calendar): (cs: seq<Change>)
    ensures |cs| == |w|
  {
    seq(|w|, k requires 0 <= k < |w| => ChangeFor(AfterDays(rows, w[..k], cal, EthSchema), w[k], cal))
  }

  /** The job, from the scraped table to the table state and the change list. */
  method ScrapFarsideEthAndStoreIt(store: FlowTable, json: seq<Record>, cal: Calendar)
    returns (emptyData: bool, dbChanges: seq<Change>)
    requires store.Valid()
    modifies store
    ensures store.Valid()
    ensures var parsedData := NormalizedBatch(ValidDays(json, cal), cal);
      && (emptyData <==> parsedData == [])
      && store.rows == AfterDays(old(store.rows), LatestDays(parsedData), cal, EthSchema)
      && dbChanges == ChangesFor(old(store.rows), LatestDays(parsedData), cal)
  {
    var tickers, parsedData := EnrichFarsideJson(json, cal);
    if |parsedData| == 0 {
      return true, [];
    }
    emptyData := false;
    var latestDaysFlows := LatestDays(parsedData);
    dbChanges := UpsertWindow(store, latestDaysFlows, cal);
  }

  /** The loop over the window (lines 68-120): one upsert and one change per day, in order. */
  method UpsertWindow(store: FlowTable, latestDaysFlows: seq<Record>, cal: Calendar) returns (dbChanges: seq<Change>)
    requires store.Valid()
    modifies store
    ensures store.Valid()
    ensures store.rows == AfterDays(old(store.rows), latestDaysFlows, cal, EthSchema)
    ensures dbChanges == ChangesFor(old(store.rows), latestDaysFlows, cal)
  {
    dbChanges := [];
    ghost var rows0 := store.rows;
    for dayIndex := 0 to |latestDaysFlows|
      invariant store.Valid()
      invariant store.rows == AfterDays(rows0, latestDaysFlows[..dayIndex], cal, EthSchema)
      invariant ChangesUpTo(rows0, latestDaysFlows, dbChanges, dayIndex, cal)
    {
      var change := UpsertDay(store, latestDaysFlows[dayIndex], cal);
      AfterDaysStep(rows0, latestDaysFlows, dayIndex, cal, EthSchema);
      AppendChange(rows0, latestDaysFlows, dbChanges, change, dayIndex, cal);
      dbChanges := dbChanges + [change];
    }
    assert latestDaysFlows[..|latestDaysFlows|] == latestDaysFlows;
  }

  /** `cs` are the changes of the first `n` days of `w`. */
  predicate ChangesUpTo(rows: map<string, Row>, w: seq<Record>, cs: seq<Change>, n: nat, cal: Calendar)
    requires n <= |w|
  {
    |cs| == n && forall k :: 0 <= k < n ==> cs[k] == ChangeFor(AfterDays(rows, w[..k], cal, EthSchema), w[k], cal)
  }

  /** The change of the next day extends the changes of the days before it. */
  lemma AppendChange(rows: map<string, Row>, w: seq<Record>, cs: seq<Change>, c: Change, n: nat, cal: Calendar)
    requires n < |w| && ChangesUpTo(rows, w, cs, n, cal)
    requires c == ChangeFor(AfterDays(rows, w[..n], cal, EthSchema), w[n], cal)
    ensures ChangesUpTo(rows, w, cs + [c], n + 1, cal)
    ensures n + 1 == |w| ==> cs + [c] == ChangesFor(rows, w, cal)
  {
    var cs' := cs + [c];
    forall k | 0 <= k < n + 1
      ensures cs'[k] == ChangeFor(AfterDays(rows, w[..k], cal, EthSchema), w[k], cal)
    {
      if k < n {
        assert cs'[k] == cs[k];
      }
    }
  }

  /**
   * The `step.run` callback for one day (lines 70-116): derive the id, read the
   * existing row, upsert the cleaned figures, and describe the change.
   */
  method UpsertDay(store: FlowTable, dayData: Record, cal: Calendar) returns (change: Change)
    requires store.Valid()
    modifies store
    ensures store.Valid()
    ensures store.rows == AfterDay(old(store.rows), dayData, cal, EthSchema)
    ensures change == ChangeFor(old(store.rows), dayData, cal)
  {
    var day := cal.formatDay(Get(dayData, DateKey));
    var xataId := DayIdentity.XataId(day);
    var closeOfBusinessHour := cal.closeLocal(Get(dayData, DateKey));
    var existingDayData := store.FindFirst(xataId);
    var dataToPush := CleanedFlows(dayData, EthTickers);
    var fields := RowFields(day, closeOfBusinessHour, dataToPush, CleanFlow(Get(dayData, TotalKey)), dayData);
    store.Upsert(xataId, fields, fields);
    change := Change(
      xataId,
      existingDayData.None?,
      if existingDayData.Some? then Some(existingDayData.value.fields.total) else None,
      CleanFlow(Get(dayData, TotalKey)),
      dataToPush);
  }

  /**
   * Processing a day again right after it leaves the table as it was and records
   * that the day is not new, with the total the first pass wrote as its previous total.
   */
  lemma RepeatedDay(rows: map<string, Row>, d: Record, cal: Calendar)
    ensures AfterDay(AfterDay(rows, d, cal, EthSchema), d, cal, EthSchema) == AfterDay(rows, d, cal, EthSchema)
    ensures var again := ChangeFor(AfterDay(rows, d, cal, EthSchema), d, cal);
      !again.dayIsNew && again.prevTotal == Some(ChangeFor(rows, d, cal).newTotal)
  {
    AfterDayIdempotent(rows, d, cal, EthSchema);
  }

  /**
   * A restatement: a later day with the same id as an earlier one is recorded as
   * not new, with the earlier day's total as previous total and its own as new.
   */
  lemma Restatement(rows: map<string, Row>, d1: Record, d2: Record, cal: Calendar)
    requires DayId(d1, cal) == DayId(d2, cal)
    ensures var cs := ChangesFor(rows, [d1, d2], cal);
      && |cs| == 2
      && cs[1].xataId == cs[0].xataId
      && !cs[1].dayIsNew
      && cs[1].prevTotal == Some(cs[0].newTotal)
      && cs[1].newTotal == CleanFlow(Get(d2, TotalKey))
  {
    assert [d1, d2][..1] == [d1];
    assert [d1, d2][..0] == [] && [d1][..0] == [];
    assert AfterDays(rows, [d1], cal, EthSchema) == AfterDay(rows, d1, cal, EthSchema);
  }

  /**
   * One change per processed day, in processing order: the `k`-th names the `k`-th
   * day's id, is the change of upserting that day into the table left by the days
   * before it, and says the day is new exactly when neither the table nor an
   * earlier day of the window had its id.
   */
  lemma ChangesForFacts(rows: map<string, Row>, w: seq<Record>, cal: Calendar)
    ensures var cs := ChangesFor(rows, w, cal);
      && |cs| == |w|
      && (forall k :: 0 <= k < |w| ==> cs[k].xataId == DayId(w[k], cal))
      && (forall k :: 0 <= k < |w| ==> cs[k] == ChangeFor(AfterDays(rows, w[..k], cal, EthSchema), w[k], cal))
      && forall k :: 0 <= k < |w| ==>
           (cs[k].dayIsNew <==> DayId(w[k], cal) !in rows && !InWindow(w[..k], DayId(w[k], cal), cal))
  {
    forall k | 0 <= k < |w|
      ensures ChangesFor(rows, w, cal)[k].dayIsNew <==>
        DayId(w[k], cal) !in rows && !InWindow(w[..k], DayId(w[k], cal), cal)
    {
      SeenBefore(rows, w[..k], DayId(w[k], cal), cal);
    }
  }

  /** After a run of days the table has a row under an id exactly when it had one before or a day of the run has that id. */
  lemma SeenBefore(rows: map<string, Row>, w: seq<Record>, id: string, cal: Calendar)
    ensures id in AfterDays(rows, w, cal, EthSchema) <==> id in rows || InWindow(w, id, cal)
  {
    AfterDaysOverrides(rows, w, cal, EthSchema);
    WritesFacts(w, cal, EthSchema);
  }

  /** A day reported as an inflow of 100.5 ... */
  const InflowDay: Record := [Entry("Date", Str("2024-01-10")), Entry("IBIT", Str("100.5")), Entry("Total", Str("100.5"))]

  /** ... and the same day restated as an outflow of 50. */
  const RestatedDay: Record := [Entry("Date", Str("2024-01-10")), Entry("IBIT", Str("(50)")), Entry("Total", Str("-50"))]

  /** A calendar that reads the example's date as a date and its ticker as none. */
  predicate ExampleCalendar(cal: Calendar) {
    cal.isValid(Some(Str("2024-01-10"))) && !cal.isValid(Some(Str("IBIT")))
  }

  lemma ExampleDaysKept(cal: Calendar)
    requires ExampleCalendar(cal)
    ensures ValidDays([InflowDay, RestatedDay], cal) == [InflowDay, RestatedDay]
  {
    assert Get(InflowDay, DateKey) == Some(Str("2024-01-10"));
    assert Get(RestatedDay, DateKey) == Some(Str("2024-01-10"));
    BothKept(InflowDay, RestatedDay, cal);
  }

  /** Two days with valid dates both survive the filter. */
  lemma BothKept(d1: Record, d2: Record, cal: Calendar)
    requires HasValidDate(d1, cal) && HasValidDate(d2, cal)
    ensures ValidDays([d1, d2], cal) == [d1, d2]
  {
    assert [d1, d2][..1] == [d1];
    assert [d1][..0] == [];
  }

  lemma ExampleFirstDay(cal: Calendar)
    requires ExampleCalendar(cal)
    ensures Get(NormalizedBatch([InflowDay, RestatedDay], cal)[0], TotalKey) == Some(Num(0.0))
  {
    assert DistinctKeys(InflowDay) by {
      KeysAt(InflowDay);
    }
    FirstDayOfBatch([InflowDay, RestatedDay], cal);
  }

  lemma ExampleRegistry(cal: Calendar)
    requires ExampleCalendar(cal)
    ensures BatchRegistry([InflowDay, RestatedDay][..1], cal) == ["IBIT"]
  {
    var days := [InflowDay, RestatedDay];
    var d1 := InflowDay;
    assert days[..1] == [d1];
    assert TickerKeys(d1, cal) == ["IBIT"] by {
      assert |d1[..0]| == 0;
      TickerKeysStep(d1, 0, cal);
      TickerKeysStep(d1, 1, cal);
      TickerKeysStep(d1, 2, cal);
      assert d1[..3] == d1;
    }
    assert days[..1][..0] == days[..0];
    assert BatchKeys(days[..1], cal) == ["IBIT"];
    RegisterStep([], [], "IBIT");
    assert [] + ["IBIT"] == ["IBIT"];
  }

  lemma ReadFiftyOutflow()
    ensures ParseFlow(Str("(50)")) == Some(-50.0)
  {
    FiftyFormatted();
    ReadOutflow(50);
    assert "(" + "50" + ")" == "(50)";
  }

  lemma FiftyFormatted()
    ensures Numerals.FormatThousands(50) == "50"
  {
    assert Numerals.Digit(5) == '5';
    assert Numerals.Digit(0) == '0';
    assert Numerals.FormatNat(5) == "5";
    assert Numerals.FormatNat(50) == "5" + "0";
  }

  lemma ExampleSecondDay(cal: Calendar)
    requires ExampleCalendar(cal)
    ensures ParsedTotal(RestatedDay, ["IBIT"], |RestatedDay|, cal) == -50.0
  {
    var d2 := RestatedDay;
    ReadFiftyOutflow();
    assert Known(d2, ["IBIT"], 1, cal);
    ColumnOutcome(d2, ["IBIT"], 0, cal);
    ColumnOutcome(d2, ["IBIT"], 1, cal);
    ColumnOutcome(d2, ["IBIT"], 2, cal);
  }

  /** The restated day, read against the registry the first day left. */
  lemma ExampleSecondDayTotal(cal: Calendar)
    requires ExampleCalendar(cal)
    ensures Get(NormalizedBatch([InflowDay, RestatedDay], cal)[1], TotalKey) == Some(Num(-50.0))
  {
    ExampleRegistry(cal);
    ExampleSecondDay(cal);
    NormalizedBatchAt([InflowDay, RestatedDay], 1, cal);
    NormalizedDayFacts(RestatedDay, ["IBIT"], cal);
  }

  /** Both normalised rows keep the date, so both get the same id. */
  lemma ExampleSameId(cal: Calendar)
    requires ExampleCalendar(cal)
    ensures var parsed := NormalizedBatch([InflowDay, RestatedDay], cal);
      DayId(parsed[0], cal) == DayId(parsed[1], cal)
  {
    var days := [InflowDay, RestatedDay];
    var parsed := NormalizedBatch(days, cal);
    NormalizedBatchAt(days, 0, cal);
    NormalizedBatchAt(days, 1, cal);
    NormalizedDayFacts(InflowDay, BatchRegistry(days[..0], cal), cal);
    NormalizedDayFacts(RestatedDay, BatchRegistry(days[..1], cal), cal);
    assert parsed[0][0] == InflowDay[0];
    assert parsed[1][0] == RestatedDay[0];
  }

  /**
   * The same day scraped twice, once as an inflow of 100.5 and then restated as an
   * outflow of 50. The first row is the first day of the batch, so its `IBIT` is
   * only registered and its `Total` becomes 0; the restated row reads `(50)` as
   * -50. Upserting both into an empty table records the restatement with 0, not
   * 100.5, as its previous total.
   */
  lemma RestatedDayExample(cal: Calendar)
    requires ExampleCalendar(cal)
    ensures var parsed := NormalizedBatch(ValidDays([InflowDay, RestatedDay], cal), cal);
      var cs := ChangesFor(map[], parsed, cal);
      && |cs| == 2
      && cs[0].dayIsNew && cs[0].newTotal == 0.0
      && !cs[1].dayIsNew && cs[1].prevTotal == Some(0.0) && cs[1].newTotal == -50.0
  {
    ExampleDaysKept(cal);
    ExampleFirstDay(cal);
    ExampleSecondDayTotal(cal);
    ExampleSameId(cal);
    TwoDays(NormalizedBatch([InflowDay, RestatedDay], cal), 0.0, -50.0, cal);
  }

  /** The changes of two days with the same id and numeric totals, upserted into an empty table. */
  lemma TwoDays(parsed: seq<Record>, t0: real, t1: real, cal: Calendar)
    requires |parsed| == 2 && DayId(parsed[0], cal) == DayId(parsed[1], cal)
    requires Get(parsed[0], TotalKey) == Some(Num(t0)) && Get(parsed[1], TotalKey) == Some(Num(t1))
    ensures var cs := ChangesFor(map[], parsed, cal);
      && |cs| == 2
      && cs[0].dayIsNew && cs[0].newTotal == t0
      && !cs[1].dayIsNew && cs[1].prevTotal == Some(t0) && cs[1].newTotal == t1
  {
    assert parsed == [parsed[0], parsed[1]];
    Restatement(map[], parsed[0], parsed[1], cal);
    ChangesForFacts(map[], parsed, cal);
    assert parsed[..0] == [];
    CleanFlowOfNumber(t0);
    CleanFlowOfNumber(t1);
  }
}
