/**
 * The persistence key of a day: its formatted label (`ddd DD MMM YYYY`) lower-cased,
 * with every space replaced by `-` (src/app/seed.ts, line 60, and the same
 * expression in the Ethereum scraper, line 72).
 */
module DayIdentity {

  predicate IsUpper(c: char) { 'A' <= c <= 'Z' }

  /** `toLowerCase` on one character (the Latin alphabet). */
  function Lower(c: char): (l: char)
    ensures !IsUpper(l)
    ensures IsUpper(c) ==> l as int == c as int + 32
    ensures !IsUpper(c) ==> l == c
  {
    if IsUpper(c) then (c as int + 32) as char else c
  }

  /** `s.toLowerCase()`. */
  function ToLower(s: string): (r: string)
    ensures |r| == |s|
    ensures forall i :: 0 <= i < |s| ==> r[i] == Lower(s[i])
  {
    if s == [] then [] else [Lower(s[0])] + ToLower(s[1..])
  }

  /** `s.replaceAll(from, to)` for one-character patterns. */
  function ReplaceAll(s: string, from: char, to: char): (r: string)
    ensures |r| == |s|
    ensures forall i :: 0 <= i < |s| ==> r[i] == if s[i] == from then to else s[i]
  {
    if s == [] then [] else [if s[0] == from then to else s[0]] + ReplaceAll(s[1..], from, to)
  }

  /** `xata_id`: the formatted day, lower-cased, spaces turned into hyphens. */
  function XataId(day: string): (id: string)
    ensures |id| == |day|
    ensures ' ' !in id
    ensures forall i :: 0 <= i < |id| ==> !IsUpper(id[i])
    ensures forall i :: 0 <= i < |day| ==> id[i] == if day[i] == ' ' then '-' else Lower(day[i])
  {
    ReplaceAll(ToLower(day), ' ', '-')
  }

  /** Only case and spaces are forgotten: two labels have the same key exactly when they agree up to those. */
  lemma XataIdInjectiveUpToCase(a: string, b: string)
    ensures XataId(a) == XataId(b) <==>
      |a| == |b| && forall i :: 0 <= i < |a| ==>
        (if a[i] == ' ' then '-' else Lower(a[i])) == (if b[i] == ' ' then '-' else Lower(b[i]))
  {
    if |a| == |b| && forall i :: 0 <= i < |a| ==>
        (if a[i] == ' ' then '-' else Lower(a[i])) == (if b[i] == ' ' then '-' else Lower(b[i])) {
      assert forall i :: 0 <= i < |a| ==> XataId(a)[i] == XataId(b)[i];
    }
  }
}
