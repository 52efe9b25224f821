/**
 * The day normaliser `enrichFarsideJson` (src/app/seed.ts, lines 16-43): drop the
 * days whose `Date` is not a valid date, then walk each remaining day's columns in
 * order, registering ticker names in a registry shared by the whole batch, reading
 * the values of already registered tickers, and replacing `Total` by the sum of the
 * values read.
 */
module Normalizer {
  import opened Wrappers
  import opened Cells
  import opened Numerals
  import opened Flows
  import opened TickerRegistry

  const DateKey := "Date"
  const TotalKey := "Total"

  /** The columns the loop passes over: the date, any name that reads as a date, and the total. */
  predicate Skipped(key: string, cal: Calendar): (b: bool)
    ensures key == DateKey || key == TotalKey ==> b
  {
    key == DateKey || cal.isValid(Some(Str(key))) || key == TotalKey
  }

  /** The ticker candidates among some columns, in order (with repeats, if a name repeats). */
  function TickerKeys(entries: seq<Entry>, cal: Calendar): seq<string>
    decreases |entries|
  {
    if entries == [] then []
    else
      var e := entries[|entries| - 1];
      var before := TickerKeys(entries[..|entries| - 1], cal);
      if Skipped(e.key, cal) then before else before + [e.key]
  }

  /** The candidates are exactly the names of the columns that are not skipped. */
  lemma {:induction false} TickerKeysFacts(entries: seq<Entry>, cal: Calendar)
    ensures forall k :: k in TickerKeys(entries, cal) ==> !Skipped(k, cal)
    ensures forall k :: k in TickerKeys(entries, cal) ==> exists i :: 0 <= i < |entries| && entries[i].key == k
    ensures forall i :: 0 <= i < |entries| && !Skipped(entries[i].key, cal) ==> entries[i].key in TickerKeys(entries, cal)
    decreases |entries|
  {
    if entries != [] {
      var p := entries[..|entries| - 1];
      TickerKeysFacts(p, cal);
      assert forall i :: 0 <= i < |p| ==> p[i] == entries[i];
    }
  }

  /**
   * Whether the column at position `i` is already registered when the loop reaches
   * it: listed by an earlier day, or met earlier in this one.
   */
  predicate Known(day: Record, tickers: seq<string>, i: nat, cal: Calendar)
    requires i < |day|
  {
    day[i].key in tickers || day[i].key in TickerKeys(day[..i], cal)
  }

  /**
   * The value the column at `i` holds after the loop: a read value for a registered
   * ticker whose cell parses; the original value otherwise (a skipped column, a
   * ticker's first appearance, a cell that does not parse).
   */
  function NormalizedCell(day: Record, tickers: seq<string>, i: nat, cal: Calendar): Cell
    requires i < |day|
  {
    if Skipped(day[i].key, cal) || !Known(day, tickers, i, cal) then day[i].value
    else
      match ParseFlow(day[i].value)
      case Some(v) => Num(v)
      case None => day[i].value
  }

  /** What the column at `i` adds to the day's total. */
  function Contribution(day: Record, tickers: seq<string>, i: nat, cal: Calendar): real
    requires i < |day|
  {
    if Skipped(day[i].key, cal) || !Known(day, tickers, i, cal) then 0.0
    else ParseFlow(day[i].value).GetOr(0.0)
  }

  /** The sum of the contributions of the first `n` columns. */
  function ParsedTotal(day: Record, tickers: seq<string>, n: nat, cal: Calendar): real
    requires n <= |day|
  {
    if n == 0 then 0.0 else ParsedTotal(day, tickers, n - 1, cal) + Contribution(day, tickers, n - 1, cal)
  }

  /** The day's columns after the loop, before `Total` is written. */
  function NormalizedFields(day: Record, tickers: seq<string>, cal: Calendar): (r: Record)
    ensures |r| == |day|
    ensures forall i :: 0 <= i < |day| ==> r[i] == Entry(day[i].key, NormalizedCell(day, tickers, i, cal))
  {
    seq(|day|, i requires 0 <= i < |day| => Entry(day[i].key, NormalizedCell(day, tickers, i, cal)))
  }

  /** The normalised day: its columns after the loop, and `Total` set to the sum of the values read. */
  function NormalizedDay(day: Record, tickers: seq<string>, cal: Calendar): (r: Record)
    ensures |day| <= |r| <= |day| + 1
    ensures Get(r, TotalKey) == Some(Num(ParsedTotal(day, tickers, |day|, cal)))
  {
    var f, total := NormalizedFields(day, tickers, cal), Num(ParsedTotal(day, tickers, |day|, cal));
    SetFieldGet(f, TotalKey, total);
    SetField(f, TotalKey, total)
  }

  /** The body of the `.map` callback: one day, against the registry built so far. */
  method NormalizeDay(day: Record, tickers: seq<string>, cal: Calendar) returns (dup: Record, registry: seq<string>)
    ensures registry == Register(tickers, TickerKeys(day, cal))
    ensures dup == NormalizedDay(day, tickers, cal)
  {
    var total := 0.0;
    dup := day;
    registry := tickers;
    for i := 0 to |day|
      invariant LoopState(day, tickers, cal, i, dup, registry, total)
    {
      var key, value := day[i].key, day[i].value;
      var registry', written, added := VisitColumn(key, value, registry, cal);
      var dup' := dup;
      if written.Some? {
        dup' := dup[i := Entry(key, written.value)];
      }
      LoopStep(day, tickers, cal, i, dup, registry, total, registry', written, added, dup');
      dup, registry, total := dup', registry', total + added;
    }
    LoopDone(day, tickers, cal, dup, registry, total);
    dup := SetField(dup, TotalKey, Num(total));
  }

  /**
   * What the loop holds after `i` columns: the registry has met their names, the
   * first `i` cells are normalised and the others untouched, and `total` is the
   * sum of what they contributed.
   */
  ghost predicate LoopState(day: Record, tickers: seq<string>, cal: Calendar, i: nat,
                            dup: Record, registry: seq<string>, total: real)
  {
    && i <= |day|
    && registry == Register(tickers, TickerKeys(day[..i], cal))
    && |dup| == |day|
    && (forall j :: 0 <= j < i ==> dup[j] == Entry(day[j].key, NormalizedCell(day, tickers, j, cal)))
    && (forall j :: i <= j < |day| ==> dup[j] == day[j])
    && total == ParsedTotal(day, tickers, i, cal)
  }

  /** A turn of the loop, as `VisitColumn` states it, keeps the loop state. */
  lemma LoopStep(day: Record, tickers: seq<string>, cal: Calendar, i: nat,
                 dup: Record, registry: seq<string>, total: real,
                 registry': seq<string>, written: Option<Cell>, added: real, dup': Record)
    requires i < |day| && LoopState(day, tickers, cal, i, dup, registry, total)
    requires ColumnVisited(day[i].key, day[i].value, registry, cal, registry', written, added)
    requires dup' == if written.Some? then dup[i := Entry(day[i].key, written.value)] else dup
    ensures LoopState(day, tickers, cal, i + 1, dup', registry', total + added)
  {
    StepFacts(day, tickers, i, cal, registry);
  }

  /** The loop state at the end is the normalised columns and the registry of the day. */
  lemma LoopDone(day: Record, tickers: seq<string>, cal: Calendar, dup: Record, registry: seq<string>, total: real)
    requires LoopState(day, tickers, cal, |day|, dup, registry, total)
    ensures dup == NormalizedFields(day, tickers, cal)
    ensures registry == Register(tickers, TickerKeys(day, cal))
    ensures total == ParsedTotal(day, tickers, |day|, cal)
  {
    assert day[..|day|] == day;
  }

  /**
   * The effect of one turn of the loop on the column `key` holding `value`, given
   * the registry `registry` before it: the registry after it, the value assigned
   * to `dup[key]` (`None` when nothing is assigned), and what is added to `Total`.
   * A skipped column changes nothing; a new name is only registered; a registered
   * name has its cell read, and a cell that reads is assigned and added.
   */
  predicate ColumnVisited(key: string, value: Cell, registry: seq<string>, cal: Calendar,
                          registry': seq<string>, written: Option<Cell>, added: real)
  {
    if Skipped(key, cal) then registry' == registry && written == None && added == 0.0
    else if key !in registry then registry' == registry + [key] && written == None && added == 0.0
    else
      && registry' == registry
      && match ParseFlow(value)
         case Some(v) => written == Some(Num(v)) && added == v
         case None => written == None && added == 0.0
  }

  /**
   * One turn of the loop (lines 25-37) on the column `key` holding `value`: the
   * registry after it, the value assigned to `dup[key]` (`None` when nothing is
   * assigned), and what is added to `Total`.
   */
  method VisitColumn(key: string, value: Cell, registry: seq<string>, cal: Calendar)
    returns (registry': seq<string>, written: Option<Cell>, added: real)
    ensures ColumnVisited(key, value, registry, cal, registry', written, added)
  {
    registry', written, added := registry, None, 0.0;
    if key == DateKey || cal.isValid(Some(Str(key))) {
      return;
    }
    if key == TotalKey {
      return;
    }
    if key !in registry {
      registry' := registry + [key];
    } else if value == Str(Sentinel) {
      ReadSentinel();
      written := Some(Num(0.0));
    } else {
      var parsed: Option<real>;
      match value {
        case Num(n) =>
          parsed := Some(n);
        case Str(s) =>
          var sign := if '(' in s || ')' in s then -1.0 else 1.0;
          parsed := Scale(sign, NumeralValue(StripParens(s)));
      }
      if parsed.None? {
        return;
      }
      written := Some(Num(parsed.value));
      added := parsed.value;
    }
  }

  /**
   * One turn of the loop, in the terms the loop tests: `registry` being the
   * registry before column `i`, what the registry, the cell and the total become.
   */
  lemma StepFacts(day: Record, tickers: seq<string>, i: nat, cal: Calendar, registry: seq<string>)
    requires i < |day|
    requires registry == Register(tickers, TickerKeys(day[..i], cal))
    ensures var key, value := day[i].key, day[i].value;
      var total := ParsedTotal(day, tickers, i, cal);
      var total' := ParsedTotal(day, tickers, i + 1, cal);
      var registry' := Register(tickers, TickerKeys(day[..i + 1], cal));
      var cell := NormalizedCell(day, tickers, i, cal);
      && (Skipped(key, cal) ==> registry' == registry && cell == value && total' == total)
      && (!Skipped(key, cal) && key !in registry ==> registry' == registry + [key] && cell == value && total' == total)
      && (!Skipped(key, cal) && key in registry ==> registry' == registry)
      && (!Skipped(key, cal) && key in registry && ParseFlow(value).None? ==> cell == value && total' == total)
      && (!Skipped(key, cal) && key in registry && ParseFlow(value).Some? ==>
            cell == Num(ParseFlow(value).value) && total' == total + ParseFlow(value).value)
  {
    TickerKeysStep(day, i, cal);
    RegisterStep(tickers, TickerKeys(day[..i], cal), day[i].key);
    KnownIsRegistered(day, tickers, i, cal);
    ColumnOutcome(day, tickers, i, cal);
  }

  /** What the loop does with the column at `i`, case by case. */
  lemma ColumnOutcome(day: Record, tickers: seq<string>, i: nat, cal: Calendar)
    requires i < |day|
    ensures ParsedTotal(day, tickers, i + 1, cal) == ParsedTotal(day, tickers, i, cal) + Contribution(day, tickers, i, cal)
    ensures Skipped(day[i].key, cal) || !Known(day, tickers, i, cal) ==>
      NormalizedCell(day, tickers, i, cal) == day[i].value && Contribution(day, tickers, i, cal) == 0.0
    ensures !Skipped(day[i].key, cal) && Known(day, tickers, i, cal) && ParseFlow(day[i].value).None? ==>
      NormalizedCell(day, tickers, i, cal) == day[i].value && Contribution(day, tickers, i, cal) == 0.0
    ensures !Skipped(day[i].key, cal) && Known(day, tickers, i, cal) && ParseFlow(day[i].value).Some? ==>
      NormalizedCell(day, tickers, i, cal) == Num(ParseFlow(day[i].value).value) &&
      Contribution(day, tickers, i, cal) == ParseFlow(day[i].value).value
  {
  }

  /** One more column adds its name to the candidates, unless it is skipped. */
  lemma TickerKeysStep(day: Record, i: nat, cal: Calendar)
    requires i < |day|
    ensures Skipped(day[i].key, cal) ==> TickerKeys(day[..i + 1], cal) == TickerKeys(day[..i], cal)
    ensures !Skipped(day[i].key, cal) ==> TickerKeys(day[..i + 1], cal) == TickerKeys(day[..i], cal) + [day[i].key]
  {
    assert day[..i + 1][..i] == day[..i];
  }

  /** A column is known exactly when the registry the loop holds at that point lists it. */
  lemma KnownIsRegistered(day: Record, tickers: seq<string>, i: nat, cal: Calendar)
    requires i < |day|
    ensures Known(day, tickers, i, cal) <==> day[i].key in Register(tickers, TickerKeys(day[..i], cal))
  {
    RegisterFacts(tickers, TickerKeys(day[..i], cal));
  }

  /**
   * The normalised day keeps the columns of the day in order (adding `Total` at
   * the end when it was missing), holds the loop's value in every column but
   * `Total`, leaves `Date` and date-like columns as they were, and holds the sum of
   * the values read under `Total`.
   */
  lemma NormalizedDayFacts(day: Record, tickers: seq<string>, cal: Calendar)
    ensures var r := NormalizedDay(day, tickers, cal);
      && (TotalKey in Keys(day) ==> Keys(r) == Keys(day))
      && (TotalKey !in Keys(day) ==> Keys(r) == Keys(day) + [TotalKey])
      && Get(r, TotalKey) == Some(Num(ParsedTotal(day, tickers, |day|, cal)))
      && (forall i :: 0 <= i < |day| && day[i].key != TotalKey ==>
            r[i] == Entry(day[i].key, NormalizedCell(day, tickers, i, cal)))
      && forall i :: 0 <= i < |day| && Skipped(day[i].key, cal) && day[i].key != TotalKey ==> r[i] == day[i]
  {
    var f := NormalizedFields(day, tickers, cal);
    KeysAt(f);
    KeysAt(day);
    assert Keys(f) == Keys(day);
    SetFieldKeys(f, TotalKey, Num(ParsedTotal(day, tickers, |day|, cal)));
    SetFieldGet(f, TotalKey, Num(ParsedTotal(day, tickers, |day|, cal)));
    forall i | 0 <= i < |day| {
      SetFieldAt(f, TotalKey, Num(ParsedTotal(day, tickers, |day|, cal)), i);
    }
  }

  /** Whether no two columns of a record share a name, as in any JavaScript object. */
  predicate DistinctKeys(day: Record) {
    NoDup(Keys(day))
  }

  /**
   * A day whose columns are all new to the registry only registers them: none of
   * its cells is read, and its total is zero.
   */
  lemma FreshColumnsOnlyRegister(day: Record, tickers: seq<string>, cal: Calendar)
    requires DistinctKeys(day)
    requires forall i :: 0 <= i < |day| ==> day[i].key !in tickers
    ensures forall i :: 0 <= i < |day| ==> NormalizedCell(day, tickers, i, cal) == day[i].value
    ensures ParsedTotal(day, tickers, |day|, cal) == 0.0
  {
    KeysAt(day);
    forall i | 0 <= i < |day| ensures !Known(day, tickers, i, cal) {
      var p := day[..i];
      TickerKeysFacts(p, cal);
      forall j | 0 <= j < |p| ensures p[j].key != day[i].key {
        assert Keys(day)[j] != Keys(day)[i];
      }
    }
    FreshTotal(day, tickers, |day|, cal);
  }

  lemma {:induction false} FreshTotal(day: Record, tickers: seq<string>, n: nat, cal: Calendar)
    requires n <= |day|
    requires forall i :: 0 <= i < |day| ==> !Known(day, tickers, i, cal)
    ensures ParsedTotal(day, tickers, n, cal) == 0.0
  {
    if n > 0 {
      FreshTotal(day, tickers, n - 1, cal);
    }
  }
}
