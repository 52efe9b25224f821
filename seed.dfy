/**
 * The seeding script's `main` (src/app/seed.ts, lines 49-101): normalise the whole
 * saved BTC table, then upsert every normalised day into the flows table, with
 * no change tracking.
 */
module Seed {
  import opened Cells
  import opened Flows
  import opened Normalizer
  import opened Enrichment
  import opened FlowStore

  /** The ticker columns of the BTC table. */
  const BtcTickers: seq<string> := ["IBIT", "FBTC", "BITB", "ARKB", "BTCO", "EZBC", "BRRR", "HODL", "BTCW", "GBTC", "BTC"]

  /** The BTC table takes 17:00 in UTC. */
  const BtcSchema := Schema(BtcTickers, true)

  /** `main` from the parsed file onwards: every valid day upserted in order. */
  method SeedFlows(store: FlowTable, rawData: seq<Record>, cal: Calendar)
    requires store.Valid()
    modifies store
    ensures store.Valid()
    ensures store.rows == AfterDays(old(store.rows), NormalizedBatch(ValidDays(rawData, cal), cal), cal, BtcSchema)
  {
    var _, parsedData := EnrichFarsideJson(rawData, cal);
    UpsertAll(store, parsedData, cal);
  }

  /** The loop over the normalised days: one upsert per day, in order. */
  method UpsertAll(store: FlowTable, parsedData: seq<Record>, cal: Calendar)
    requires store.Valid()
    modifies store
    ensures store.Valid()
    ensures store.rows == AfterDays(old(store.rows), parsedData, cal, BtcSchema)
  {
    ghost var rows0 := store.rows;
    for dayIndex := 0 to |parsedData|
      invariant store.Valid()
      invariant store.rows == AfterDays(rows0, parsedData[..dayIndex], cal, BtcSchema)
    {
      var dayData := parsedData[dayIndex];
      var day := cal.formatDay(Get(dayData, DateKey));
      var xataId := DayIdentity.XataId(day);
      var closeOfBusinessHour := cal.closeUtc(Get(dayData, DateKey));
      var fields := RowFields(day, closeOfBusinessHour, CleanedFlows(dayData, BtcTickers), CleanFlow(Get(dayData, TotalKey)), dayData);
      assert xataId == DayId(dayData, cal) && fields == DayFields(dayData, cal, BtcSchema);
      store.Upsert(xataId, fields, fields);
      AfterDaysStep(rows0, parsedData, dayIndex, cal, BtcSchema);
    }
    assert parsedData[..|parsedData|] == parsedData;
  }

  /**
   * Seeding leaves a row for every normalised day, under that day's id, holding
   * the last day with that id; rows under other ids are as they were. Seeding the
   * same file again changes nothing.
   */
  lemma SeedOutcome(rows: map<string, Row>, rawData: seq<Record>, cal: Calendar)
    requires WellKeyed(rows)
    ensures var days := NormalizedBatch(ValidDays(rawData, cal), cal);
      var r := AfterDays(rows, days, cal, BtcSchema);
      && r == rows + Writes(days, cal, BtcSchema)
      && WellKeyed(r)
      && AfterDays(r, days, cal, BtcSchema) == r
  {
    var days := NormalizedBatch(ValidDays(rawData, cal), cal);
    AfterDaysOverrides(rows, days, cal, BtcSchema);
    AfterDaysFacts(rows, days, cal, BtcSchema);
    AfterDaysIdempotent(rows, days, cal, BtcSchema);
  }
}
