/**
 * The whole of `enrichFarsideJson` (src/app/seed.ts, lines 16-43): the filter on
 * valid dates, then the `.map` over the remaining days, every day normalised
 * against the registry left by the days before it.
 */
module Enrichment {
  import opened Wrappers
  import opened Cells
  import opened TickerRegistry
  import opened Normalizer

  /** Whether a day survives the filter: its `Date` property denotes a valid date. */
  predicate HasValidDate(day: Record, cal: Calendar) {
    cal.isValid(Get(day, DateKey))
  }

  /** Whether a day is kept depends on its `Date` property alone. */
  lemma DateDecidesValidity(d: Record, e: Record, cal: Calendar)
    requires Get(d, DateKey) == Get(e, DateKey)
    ensures HasValidDate(d, cal) == HasValidDate(e, cal)
  {
  }

  /** `rawData.filter((day) => dayjs(day.Date).isValid())` */
  function ValidDays(rows: seq<Record>, cal: Calendar): (r: seq<Record>)
    ensures |r| <= |rows|
    ensures forall d :: d in r ==> d in rows && HasValidDate(d, cal)
    decreases |rows|
  {
    if rows == [] then []
    else
      var last := rows[|rows| - 1];
      var before := ValidDays(rows[..|rows| - 1], cal);
      if HasValidDate(last, cal) then before + [last] else before
  }

  /** The days the filter drops, in order. */
  function InvalidDays(rows: seq<Record>, cal: Calendar): (r: seq<Record>)
    ensures forall d :: d in r ==> d in rows && !HasValidDate(d, cal)
    decreases |rows|
  {
    if rows == [] then []
    else
      var last := rows[|rows| - 1];
      var before := InvalidDays(rows[..|rows| - 1], cal);
      if HasValidDate(last, cal) then before else before + [last]
  }

  /** N rows of which K have an invalid date leave exactly N - K days. */
  lemma {:induction false} ValidDaysCount(rows: seq<Record>, cal: Calendar)
    ensures |ValidDays(rows, cal)| + |InvalidDays(rows, cal)| == |rows|
    decreases |rows|
  {
    if rows != [] {
      ValidDaysCount(rows[..|rows| - 1], cal);
    }
  }

  /** The filter works row by row and keeps the order: filtering a concatenation concatenates the results. */
  lemma {:induction false} ValidDaysAppend(a: seq<Record>, b: seq<Record>, cal: Calendar)
    ensures ValidDays(a + b, cal) == ValidDays(a, cal) + ValidDays(b, cal)
    decreases |b|
  {
    if b != [] {
      var b' := b[..|b| - 1];
      ValidDaysAppend(a, b', cal);
      assert (a + b)[..|a + b| - 1] == a + b';
    } else {
      assert a + b == a;
    }
  }

  /** A single row is kept exactly when its date is valid. */
  lemma ValidDaysSingle(d: Record, cal: Calendar)
    ensures ValidDays([d], cal) == if HasValidDate(d, cal) then [d] else []
  {
    assert [d][..0] == [];
  }

  /** The ticker candidates of a run of days, day after day, column after column. */
  function BatchKeys(days: seq<Record>, cal: Calendar): seq<string>
    decreases |days|
  {
    if days == [] then []
    else BatchKeys(days[..|days| - 1], cal) + TickerKeys(days[|days| - 1], cal)
  }

  /** The `tickers` array once the days have all been normalised. */
  function BatchRegistry(days: seq<Record>, cal: Calendar): seq<string> {
    Register([], BatchKeys(days, cal))
  }

  /** Each day normalised against the registry that the days before it left. */
  function NormalizedBatch(days: seq<Record>, cal: Calendar): (r: seq<Record>)
    ensures |r| == |days|
    decreases |days|
  {
    if days == [] then []
    else
      var before := days[..|days| - 1];
      NormalizedBatch(before, cal) + [NormalizedDay(days[|days| - 1], BatchRegistry(before, cal), cal)]
  }

  /** The `j`-th normalised day is the `j`-th day read against the registry of the days before it. */
  lemma {:induction false} NormalizedBatchAt(days: seq<Record>, j: nat, cal: Calendar)
    requires j < |days|
    ensures NormalizedBatch(days, cal)[j] == NormalizedDay(days[j], BatchRegistry(days[..j], cal), cal)
    decreases |days|
  {
    var before := days[..|days| - 1];
    if j < |before| {
      NormalizedBatchAt(before, j, cal);
      assert before[..j] == days[..j];
    }
  }

  lemma BatchKeysStep(days: seq<Record>, j: nat, cal: Calendar)
    requires j < |days|
    ensures BatchKeys(days[..j + 1], cal) == BatchKeys(days[..j], cal) + TickerKeys(days[j], cal)
  {
    assert days[..j + 1][..j] == days[..j];
  }

  /** One more day extends the registry by its candidates and the batch by its normalised form. */
  lemma BatchStep(days: seq<Record>, j: nat, cal: Calendar)
    requires j < |days|
    ensures BatchRegistry(days[..j + 1], cal) == Register(BatchRegistry(days[..j], cal), TickerKeys(days[j], cal))
    ensures NormalizedBatch(days[..j + 1], cal) ==
      NormalizedBatch(days[..j], cal) + [NormalizedDay(days[j], BatchRegistry(days[..j], cal), cal)]
  {
    BatchKeysStep(days, j, cal);
    RegisterAppend([], BatchKeys(days[..j], cal), TickerKeys(days[j], cal));
    NormalizedBatchStep(days, j, cal);
  }

  lemma NormalizedBatchStep(days: seq<Record>, j: nat, cal: Calendar)
    requires j < |days|
    ensures NormalizedBatch(days[..j + 1], cal) ==
      NormalizedBatch(days[..j], cal) + [NormalizedDay(days[j], BatchRegistry(days[..j], cal), cal)]
  {
    assert days[..j + 1][..j] == days[..j];
  }

  /** `enrichFarsideJson`: the registry and the normalised days. */
  method EnrichFarsideJson(rawData: seq<Record>, cal: Calendar) returns (tickers: seq<string>, parsedData: seq<Record>)
    ensures tickers == BatchRegistry(ValidDays(rawData, cal), cal)
    ensures parsedData == NormalizedBatch(ValidDays(rawData, cal), cal)
  {
    var days := ValidDays(rawData, cal);
    tickers := [];
    parsedData := [];
    for j := 0 to |days|
      invariant tickers == BatchRegistry(days[..j], cal)
      invariant parsedData == NormalizedBatch(days[..j], cal)
    {
      var dup, registry := NormalizeDay(days[j], tickers, cal);
      BatchStep(days, j, cal);
      tickers := registry;
      parsedData := parsedData + [dup];
    }
    assert days[..|days|] == days;
  }

  /** The candidates of a run of days are the names of their columns that are not skipped. */
  lemma {:induction false} BatchKeysFacts(days: seq<Record>, cal: Calendar)
    ensures forall x :: x in BatchKeys(days, cal) ==> !Skipped(x, cal)
    ensures forall x :: x in BatchKeys(days, cal) <==> Column(days, x, cal)
    decreases |days|
  {
    if days != [] {
      var p := days[..|days| - 1];
      var d := days[|days| - 1];
      BatchKeysFacts(p, cal);
      TickerKeysFacts(d, cal);
      forall x ensures Column(days, x, cal) <==> Column(p, x, cal) || x in TickerKeys(d, cal) {
        if Column(days, x, cal) {
          var j, i :| 0 <= j < |days| && 0 <= i < |days[j]| && days[j][i].key == x && !Skipped(x, cal);
          if j < |p| {
            assert p[j] == days[j];
          }
        }
        if Column(p, x, cal) {
          var j, i :| 0 <= j < |p| && 0 <= i < |p[j]| && p[j][i].key == x && !Skipped(x, cal);
          assert days[j] == p[j];
        }
        if x in TickerKeys(d, cal) {
          var i :| 0 <= i < |d| && d[i].key == x;
          assert days[|days| - 1][i].key == x;
        }
      }
    }
  }

  /** Some day has a column named `x`, and `x` is not a skipped name. */
  ghost predicate Column(days: seq<Record>, x: string, cal: Calendar) {
    exists j, i :: 0 <= j < |days| && 0 <= i < |days[j]| && days[j][i].key == x && !Skipped(x, cal)
  }

  /**
   * The registry of a batch never lists a name twice, lists exactly the column
   * names of the batch that are not skipped (so never `Date`, `Total` or a
   * date-like name), and lists them in the order they were first met.
   */
  lemma BatchRegistryFacts(days: seq<Record>, cal: Calendar)
    ensures var r := BatchRegistry(days, cal);
      && NoDup(r)
      && (forall x :: x in r <==> Column(days, x, cal))
      && (forall x :: x in r ==> !Skipped(x, cal))
      && (forall x :: x in r <==> x in BatchKeys(days, cal))
      && forall i, j :: 0 <= i < j < |r| ==>
           IndexOf(BatchKeys(days, cal), r[i]) < IndexOf(BatchKeys(days, cal), r[j])
  {
    RegistryOrder(BatchKeys(days, cal));
    BatchKeysFacts(days, cal);
  }

  /** Later days only append to the registry the earlier days left. */
  lemma BatchRegistryGrows(days: seq<Record>, j: nat, cal: Calendar)
    requires j <= |days|
    ensures BatchRegistry(days[..j], cal) <= BatchRegistry(days, cal)
  {
    BatchKeysSplit(days, j, cal);
    RegisterAppend([], BatchKeys(days[..j], cal), BatchKeys(days[j..], cal));
    RegisterFacts(BatchRegistry(days[..j], cal), BatchKeys(days[j..], cal));
  }

  lemma {:induction false} BatchKeysSplit(days: seq<Record>, j: nat, cal: Calendar)
    requires j <= |days|
    ensures BatchKeys(days, cal) == BatchKeys(days[..j], cal) + BatchKeys(days[j..], cal)
    decreases |days|
  {
    if j == |days| {
      assert days[..j] == days;
      assert days[j..] == [];
    } else {
      var p := days[..|days| - 1];
      BatchKeysSplit(p, j, cal);
      assert p[..j] == days[..j];
      assert days[j..][..|days[j..]| - 1] == p[j..];
      assert days[j..][|days[j..]| - 1] == days[|days| - 1];
    }
  }

  /**
   * The first day of a batch only registers its tickers: it keeps its cells and
   * its `Total` becomes zero, whatever the cells say. A day's figures are read only
   * from the day after the one that introduced its tickers.
   */
  lemma FirstDayOfBatch(days: seq<Record>, cal: Calendar)
    requires |days| > 0 && DistinctKeys(days[0])
    ensures var r := NormalizedBatch(days, cal)[0];
      && Get(r, TotalKey) == Some(Num(0.0))
      && |r| >= |days[0]|
      && forall i :: 0 <= i < |days[0]| && days[0][i].key != TotalKey ==> r[i] == days[0][i]
  {
    assert days[..0] == [];
    assert BatchRegistry(days[..0], cal) == [];
    NormalizedBatchAt(days, 0, cal);
    FreshColumnsOnlyRegister(days[0], [], cal);
    NormalizedDayFacts(days[0], [], cal);
  }
}
