/**
 * The raw shape of one scraped day: an ordered list of column/value pairs whose
 * values are strings or numbers (a JavaScript object, iterated in insertion order
 * by `Object.entries`), and the date library the pipeline consults.
 */
module Cells {
  import opened Wrappers

  /** A cell value of a scraped table: a string or a number. */
  datatype Cell = Str(s: string) | Num(n: real)

  /** One property of a day-record. */
  datatype Entry = Entry(key: string, value: Cell)

  /** A day-record, its properties in iteration order. */
  type Record = seq<Entry>

  /**
   * The date library (dayjs), taken as given: whether a value denotes a valid
   * date, how a day is formatted as `ddd DD MMM YYYY`, and 17:00 of that day in
   * the process's local zone or in UTC. `None` stands for an absent property.
   */
  datatype Calendar = Calendar(
    isValid: Option<Cell> -> bool,
    formatDay: Option<Cell> -> string,
    closeLocal: Option<Cell> -> int,
    closeUtc: Option<Cell> -> int)

  /** The column names of a record, in order. */
  function Keys(r: Record): (ks: seq<string>)
    ensures |ks| == |r|
  {
    if r == [] then [] else [r[0].key] + Keys(r[1..])
  }

  /** The `i`-th column name is the key of the `i`-th entry. */
  lemma {:induction false} KeysAt(r: Record)
    ensures forall i :: 0 <= i < |r| ==> Keys(r)[i] == r[i].key
  {
    if r != [] {
      KeysAt(r[1..]);
    }
  }

  /** Property access `r[key]`: the value of the first entry with that key, `None` when absent. */
  function Get(r: Record, key: string): (v: Option<Cell>)
    ensures v.None? <==> key !in Keys(r)
    ensures v.Some? ==> Entry(key, v.value) in r
  {
    if r == [] then None
    else if r[0].key == key then Some(r[0].value)
    else
      assert forall i :: 0 <= i < |r| - 1 ==> r[1..][i] == r[i + 1];
      Get(r[1..], key)
  }

  /**
   * Property assignment `r[key] = v`: an existing property keeps its position and
   * takes the new value; a new one is appended at the end.
   */
  function SetField(r: Record, key: string, v: Cell): (r': Record)
    ensures |r| <= |r'| <= |r| + 1
  {
    if r == [] then [Entry(key, v)]
    else if r[0].key == key then [Entry(key, v)] + r[1..]
    else [r[0]] + SetField(r[1..], key, v)
  }

  /** After the assignment the key reads the new value and every other key reads as before. */
  lemma {:induction false} SetFieldGet(r: Record, key: string, v: Cell)
    ensures Get(SetField(r, key, v), key) == Some(v)
    ensures forall k :: k != key ==> Get(SetField(r, key, v), k) == Get(r, k)
  {
    if r == [] {
      ConsFacts(Entry(key, v), []);
      assert [Entry(key, v)] == [Entry(key, v)] + [];
    } else {
      ConsFacts(r[0], r[1..]);
      assert r == [r[0]] + r[1..];
      if r[0].key == key {
        ConsFacts(Entry(key, v), r[1..]);
      } else {
        SetFieldGet(r[1..], key, v);
        ConsFacts(r[0], SetField(r[1..], key, v));
      }
    }
  }

  /** Assignment keeps the order of the existing columns and appends a new one. */
  lemma {:induction false} SetFieldKeys(r: Record, key: string, v: Cell)
    ensures key in Keys(r) ==> Keys(SetField(r, key, v)) == Keys(r)
    ensures key !in Keys(r) ==> Keys(SetField(r, key, v)) == Keys(r) + [key]
  {
    if r == [] {
      assert Keys([Entry(key, v)]) == [key];
    } else {
      ConsFacts(r[0], r[1..]);
      assert r == [r[0]] + r[1..];
      if r[0].key != key {
        var rest := SetField(r[1..], key, v);
        SetFieldKeys(r[1..], key, v);
        assert SetField(r, key, v) == [r[0]] + rest;
        ConsFacts(r[0], rest);
        assert Keys(r) + [key] == [r[0].key] + (Keys(r[1..]) + [key]);
      } else {
        ConsFacts(Entry(key, v), r[1..]);
      }
    }
  }

  /** Assignment changes only the first entry under the key, and no entry under another key. */
  lemma {:induction false} SetFieldAt(r: Record, key: string, v: Cell, i: nat)
    requires i < |r|
    ensures SetField(r, key, v)[i] == if r[i].key == key && key !in Keys(r[..i]) then Entry(key, v) else r[i]
  {
    ConsFacts(r[0], r[1..]);
    if i == 0 {
      assert Keys(r[..0]) == [];
    } else if r[0].key != key {
      SetFieldAt(r[1..], key, v, i - 1);
      assert r[..i] == [r[0]] + r[1..][..i - 1];
      ConsFacts(r[0], r[1..][..i - 1]);
    } else {
      assert r[..i] == [r[0]] + r[1..i];
      ConsFacts(r[0], r[1..i]);
    }
  }

  /** How `Keys` and `Get` see an entry put in front of a record. */
  lemma ConsFacts(e: Entry, r: Record)
    ensures Keys([e] + r) == [e.key] + Keys(r)
    ensures forall k :: Get([e] + r, k) == if e.key == k then Some(e.value) else Get(r, k)
  {
    assert ([e] + r)[1..] == r;
  }
}
