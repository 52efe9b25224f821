/**
 * The ticker registry of the normaliser (src/app/seed.ts, lines 17 and 29): an
 * ordered list of column names that only grows, a name being appended the first
 * time it is met and never again.
 */
module TickerRegistry {

  predicate NoDup(s: seq<string>) {
    forall i, j :: 0 <= i < j < |s| ==> s[i] != s[j]
  }

  /** `if (!tickers.includes(key)) tickers.push(key)` for each of `keys` in turn. */
  function Register(tickers: seq<string>, keys: seq<string>): (r: seq<string>)
    ensures tickers <= r
    ensures |r| <= |tickers| + |keys|
    decreases |keys|
  {
    if keys == [] then tickers
    else
      var before := Register(tickers, keys[..|keys| - 1]);
      var k := keys[|keys| - 1];
      if k in before then before else before + [k]
  }

  /**
   * The registry only grows, lists exactly the names it started with and the names
   * registered, and never lists a name twice.
   */
  lemma {:induction false} RegisterFacts(tickers: seq<string>, keys: seq<string>)
    ensures tickers <= Register(tickers, keys)
    ensures forall x :: x in Register(tickers, keys) <==> x in tickers || x in keys
    ensures NoDup(tickers) ==> NoDup(Register(tickers, keys))
    decreases |keys|
  {
    if keys != [] {
      var k := keys[|keys| - 1];
      RegisterFacts(tickers, keys[..|keys| - 1]);
      assert keys == keys[..|keys| - 1] + [k];
    }
  }

  /** Registering one more key appends it exactly when it is not listed yet. */
  lemma RegisterStep(tickers: seq<string>, keys: seq<string>, k: string)
    ensures Register(tickers, keys + [k]) ==
      if k in Register(tickers, keys) then Register(tickers, keys) else Register(tickers, keys) + [k]
  {
    assert (keys + [k])[..|keys|] == keys;
  }

  /** The position of the first occurrence of `x` in `s`. */
  function IndexOf(s: seq<string>, x: string): (k: nat)
    requires x in s
    ensures k < |s| && s[k] == x
    ensures forall j :: 0 <= j < k ==> s[j] != x
  {
    if s[0] == x then 0 else 1 + IndexOf(s[1..], x)
  }

  /** Registering two batches of keys one after the other is registering them together. */
  lemma {:induction false} RegisterAppend(tickers: seq<string>, a: seq<string>, b: seq<string>)
    ensures Register(tickers, a + b) == Register(Register(tickers, a), b)
    decreases |b|
  {
    if b == [] {
      assert a + b == a;
    } else {
      var b' := b[..|b| - 1];
      RegisterAppend(tickers, a, b');
      assert (a + b)[..|a + b| - 1] == a + b';
    }
  }

  /**
   * A registry built from nothing lists each key once, every key that occurs, and
   * in the order of first occurrence.
   */
  lemma {:induction false} RegistryOrder(keys: seq<string>)
    ensures var r := Register([], keys);
      && NoDup(r)
      && (forall x :: x in r <==> x in keys)
      && forall i, j :: 0 <= i < j < |r| ==> IndexOf(keys, r[i]) < IndexOf(keys, r[j])
    decreases |keys|
  {
    assert NoDup([]);
    RegisterFacts([], keys);
    if keys != [] {
      var p := keys[..|keys| - 1];
      var k := keys[|keys| - 1];
      assert keys == p + [k];
      RegistryOrder(p);
      RegisterFacts([], p);
      var rp := Register([], p);
      forall x | x in p ensures IndexOf(keys, x) == IndexOf(p, x) {
        IndexOfExtend(p, k, x);
      }
      if k !in rp {
        assert k !in p;
        assert IndexOf(keys, k) == |p|;
        var r := rp + [k];
        forall i, j | 0 <= i < j < |r| ensures IndexOf(keys, r[i]) < IndexOf(keys, r[j]) {
          assert r[i] in rp && r[i] in p;
          if j < |rp| {
            assert r[j] in p;
          }
        }
      }
    }
  }

  lemma IndexOfExtend(p: seq<string>, k: string, x: string)
    requires x in p
    ensures IndexOf(p + [k], x) == IndexOf(p, x)
  {
    var s := p + [k];
    assert s[IndexOf(p, x)] == x;
    assert forall j :: 0 <= j < |p| ==> s[j] == p[j];
  }
}
