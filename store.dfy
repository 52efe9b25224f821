/**
 * The flows table and the upsert of one normalised day into it, as both loops do
 * it (src/app/seed.ts, lines 58-101; src/inngest/scrap-farside-eth-and-store-it.function.ts,
 * lines 69-120): the row id derived from the formatted day, the cleaned ticker
 * figures, the cleaned total and the raw day, written under that id.
 */
module FlowStore {
  import opened Wrappers
  import opened Cells
  import opened Flows
  import opened DayIdentity
  import opened Normalizer

  /** The columns of a stored row besides its id (`raw` kept as the record itself). */
  datatype RowFields = RowFields(
    day: string,
    closeOfBusinessHour: int,
    flows: map<string, real>,
    total: real,
    raw: Record)

  /** A stored row: its `xata_id` and its fields. */
  datatype Row = Row(xataId: string, fields: RowFields)

  /** Which ticker columns a table has, and whether 17:00 is taken in UTC or local time. */
  datatype Schema = Schema(tickers: seq<string>, utcClose: bool)

  /** `dayjs(day.Date).format('ddd DD MMM YYYY')` */
  function FormattedDay(d: Record, cal: Calendar): string {
    cal.formatDay(Get(d, DateKey))
  }

  /** The `xata_id` of a day: its formatted day, lower-cased, spaces turned into hyphens. */
  function DayId(d: Record, cal: Calendar): (id: string)
    ensures |id| == |FormattedDay(d, cal)| && ' ' !in id
  {
    XataId(FormattedDay(d, cal))
  }

  /** The formatted day, and so the row id, depend on the `Date` property alone, not on the figures. */
  lemma DateDecidesDay(d: Record, e: Record, cal: Calendar)
    requires Get(d, DateKey) == Get(e, DateKey)
    ensures FormattedDay(d, cal) == FormattedDay(e, cal) && DayId(d, cal) == DayId(e, cal)
  {
  }

  /**
   * A row id holds no space and no upper-case letter, and two days get the same
   * id exactly when their formatted days agree up to letter case and space versus hyphen.
   */
  lemma DayIdShape(d: Record, e: Record, cal: Calendar)
    ensures ' ' !in DayId(d, cal)
    ensures forall i :: 0 <= i < |DayId(d, cal)| ==> !IsUpper(DayId(d, cal)[i])
    ensures FormattedDay(d, cal) == FormattedDay(e, cal) ==> DayId(d, cal) == DayId(e, cal)
    ensures DayId(d, cal) == DayId(e, cal) <==>
      |FormattedDay(d, cal)| == |FormattedDay(e, cal)| &&
      forall i :: 0 <= i < |FormattedDay(d, cal)| ==>
        (if FormattedDay(d, cal)[i] == ' ' then '-' else Lower(FormattedDay(d, cal)[i])) ==
        (if FormattedDay(e, cal)[i] == ' ' then '-' else Lower(FormattedDay(e, cal)[i]))
  {
    XataIdInjectiveUpToCase(FormattedDay(d, cal), FormattedDay(e, cal));
  }

  /** The cleaned figure of every ticker column of the table. */
  function CleanedFlows(d: Record, tickers: seq<string>): (m: map<string, real>)
    ensures m.Keys == set t | t in tickers
    ensures forall t :: t in m ==> m[t] == CleanFlow(Get(d, t))
  {
    map t | t in tickers :: CleanFlow(Get(d, t))
  }

  /** The fields written for a day, by the update and the create branch alike. */
  function DayFields(d: Record, cal: Calendar, schema: Schema): (f: RowFields)
    ensures XataId(f.day) == DayId(d, cal)
    ensures f.raw == d
    ensures f.flows.Keys == set t | t in schema.tickers
  {
    var date := Get(d, DateKey);
    RowFields(
      FormattedDay(d, cal),
      if schema.utcClose then cal.closeUtc(date) else cal.closeLocal(date),
      CleanedFlows(d, schema.tickers),
      CleanFlow(Get(d, TotalKey)),
      d)
  }

  /** The table after the upsert of one day. */
  function AfterDay(rows: map<string, Row>, d: Record, cal: Calendar, schema: Schema): (r: map<string, Row>)
    ensures r.Keys == rows.Keys + {DayId(d, cal)}
    ensures r[DayId(d, cal)].fields == DayFields(d, cal, schema)
  {
    rows[DayId(d, cal) := Row(DayId(d, cal), DayFields(d, cal, schema))]
  }

  /**
   * One upsert writes the day's row under the day's id, adds that id to the table
   * if it was missing, and leaves every other row as it was.
   */
  lemma AfterDayFacts(rows: map<string, Row>, d: Record, cal: Calendar, schema: Schema)
    ensures var r := AfterDay(rows, d, cal, schema);
      && DayId(d, cal) in r && r[DayId(d, cal)] == Row(DayId(d, cal), DayFields(d, cal, schema))
      && r.Keys == rows.Keys + {DayId(d, cal)}
      && forall id :: id in rows && id != DayId(d, cal) ==> r[id] == rows[id]
  {
  }

  /** The table after the upsert of each day in turn. */
  function AfterDays(rows: map<string, Row>, w: seq<Record>, cal: Calendar, schema: Schema): (r: map<string, Row>)
    ensures rows.Keys <= r.Keys
    ensures |w| > 0 ==> DayId(w[|w| - 1], cal) in r && r[DayId(w[|w| - 1], cal)].fields == DayFields(w[|w| - 1], cal, schema)
    decreases |w|
  {
    if w == [] then rows
    else AfterDay(AfterDays(rows, w[..|w| - 1], cal, schema), w[|w| - 1], cal, schema)
  }

  /** Upserting one more day of a run is one more upsert on the table the run so far left. */
  lemma AfterDaysStep(rows: map<string, Row>, w: seq<Record>, i: nat, cal: Calendar, schema: Schema)
    requires i < |w|
    ensures AfterDays(rows, w[..i + 1], cal, schema) == AfterDay(AfterDays(rows, w[..i], cal, schema), w[i], cal, schema)
  {
    assert w[..i + 1][..i] == w[..i];
  }

  /** The rows a sequence of days writes: each id with the fields of the last day that has it. */
  function Writes(w: seq<Record>, cal: Calendar, schema: Schema): map<string, Row>
    decreases |w|
  {
    if w == [] then map[]
    else
      var d := w[|w| - 1];
      Writes(w[..|w| - 1], cal, schema)[DayId(d, cal) := Row(DayId(d, cal), DayFields(d, cal, schema))]
  }

  /** The table keeps its one invariant: each row sits under its own id. */
  ghost predicate WellKeyed(rows: map<string, Row>) {
    forall id :: id in rows ==> rows[id].xataId == id
  }

  /** The Prisma table: `findFirst` on the id and `upsert`. */
  class FlowTable {
    var rows: map<string, Row>

    ghost predicate Valid()
      reads this
    {
      WellKeyed(rows)
    }

    constructor (initial: map<string, Row>)
      requires WellKeyed(initial)
      ensures rows == initial && Valid()
    {
      rows := initial;
    }

    /** `findFirst({ where: { xata_id } })`: the row under the id, if any. */
    method FindFirst(id: string) returns (found: Option<Row>)
      requires Valid()
      ensures found.None? <==> id !in rows
      ensures found.Some? ==> found.value == rows[id] && found.value.xataId == id
    {
      if id in rows {
        found := Some(rows[id]);
      } else {
        found := None;
      }
    }

    /** `upsert({ where: { xata_id }, update, create })` */
    method Upsert(id: string, update: RowFields, create: RowFields)
      requires Valid()
      modifies this
      ensures Valid()
      ensures rows == old(rows)[id := Row(id, if id in old(rows) then update else create)]
    {
      if id in rows {
        rows := rows[id := Row(id, update)];
      } else {
        rows := rows[id := Row(id, create)];
      }
    }
  }

  /** Upserting the same day twice leaves the table as one upsert does. */
  lemma AfterDayIdempotent(rows: map<string, Row>, d: Record, cal: Calendar, schema: Schema)
    ensures AfterDay(AfterDay(rows, d, cal, schema), d, cal, schema) == AfterDay(rows, d, cal, schema)
  {
  }

  /** Upserting a sequence of days overrides the table with the rows the days write. */
  lemma {:induction false} AfterDaysOverrides(rows: map<string, Row>, w: seq<Record>, cal: Calendar, schema: Schema)
    ensures AfterDays(rows, w, cal, schema) == rows + Writes(w, cal, schema)
    decreases |w|
  {
    if w != [] {
      var p := w[..|w| - 1];
      var d := w[|w| - 1];
      AfterDaysOverrides(rows, p, cal, schema);
      OverrideUpdate(rows, Writes(p, cal, schema), DayId(d, cal), Row(DayId(d, cal), DayFields(d, cal, schema)));
    }
  }

  lemma OverrideUpdate(a: map<string, Row>, b: map<string, Row>, k: string, v: Row)
    ensures (a + b)[k := v] == a + b[k := v]
  {
  }

  /** Whether some day of the sequence has the id. */
  ghost predicate InWindow(w: seq<Record>, id: string, cal: Calendar) {
    exists k :: 0 <= k < |w| && DayId(w[k], cal) == id
  }

  /** Each written row sits under its own id, the id of some day of the sequence. */
  lemma {:induction false} WritesFacts(w: seq<Record>, cal: Calendar, schema: Schema)
    ensures WellKeyed(Writes(w, cal, schema))
    ensures forall id :: id in Writes(w, cal, schema) <==> InWindow(w, id, cal)
    decreases |w|
  {
    if w != [] {
      var p := w[..|w| - 1];
      WritesFacts(p, cal, schema);
      InWindowStep(w, cal);
    }
  }

  /** A day is in a sequence when it is in all but the last, or is the last. */
  lemma InWindowStep(w: seq<Record>, cal: Calendar)
    requires w != []
    ensures forall id :: InWindow(w, id, cal) <==> InWindow(w[..|w| - 1], id, cal) || DayId(w[|w| - 1], cal) == id
  {
    forall id ensures InWindow(w, id, cal) <==> InWindow(w[..|w| - 1], id, cal) || DayId(w[|w| - 1], cal) == id {
      InWindowStepAt(w, id, cal);
    }
  }

  lemma InWindowStepAt(w: seq<Record>, id: string, cal: Calendar)
    requires w != []
    ensures InWindow(w, id, cal) <==> InWindow(w[..|w| - 1], id, cal) || DayId(w[|w| - 1], cal) == id
  {
    var p := w[..|w| - 1];
    if InWindow(p, id, cal) {
      var k :| 0 <= k < |p| && DayId(p[k], cal) == id;
      assert w[k] == p[k];
    }
    if InWindow(w, id, cal) && DayId(w[|w| - 1], cal) != id {
      var k :| 0 <= k < |w| && DayId(w[k], cal) == id;
      assert p[k] == w[k];
    }
    if DayId(w[|w| - 1], cal) == id {
      assert 0 <= |w| - 1 < |w|;
    }
  }

  /**
   * Upserting the days of a window keeps the table well keyed, gives it a row for
   * every day of the window, and leaves the rows under every other id as they were.
   */
  lemma AfterDaysFacts(rows: map<string, Row>, w: seq<Record>, cal: Calendar, schema: Schema)
    requires WellKeyed(rows)
    ensures var r := AfterDays(rows, w, cal, schema);
      && WellKeyed(r)
      && (forall k :: 0 <= k < |w| ==> DayId(w[k], cal) in r)
      && forall id :: !InWindow(w, id, cal) ==> (id in r <==> id in rows) && (id in rows ==> r[id] == rows[id])
  {
    var W := Writes(w, cal, schema);
    AfterDaysOverrides(rows, w, cal, schema);
    WritesFacts(w, cal, schema);
    var r := rows + W;
    forall id | id in r ensures r[id].xataId == id {
      if id in W {
        assert r[id] == W[id];
      } else {
        assert r[id] == rows[id];
      }
    }
    forall k | 0 <= k < |w| ensures DayId(w[k], cal) in r {
      assert InWindow(w, DayId(w[k], cal), cal);
    }
  }

  /** Running the same window twice leaves the table as running it once. */
  lemma AfterDaysIdempotent(rows: map<string, Row>, w: seq<Record>, cal: Calendar, schema: Schema)
    ensures AfterDays(AfterDays(rows, w, cal, schema), w, cal, schema) == AfterDays(rows, w, cal, schema)
  {
    var r := AfterDays(rows, w, cal, schema);
    AfterDaysOverrides(rows, w, cal, schema);
    AfterDaysOverrides(r, w, cal, schema);
    var W := Writes(w, cal, schema);
    assert (rows + W) + W == rows + W;
  }
}
