/** A tally of keys, as the `Dictionary<string, int>` of
    `GetExternalReferencesAndCount` holds one: every key seen, mapped to the
    number of times it was seen. The reference definition is the multiset
    of the keys; it says nothing about the order they arrive in. */
module Counting {

  /** Each key in `keys` mapped to its number of occurrences. */
  function Tally(keys: seq<string>): (m: map<string, int>)
    ensures forall k :: k in m <==> multiset(keys)[k] > 0
    ensures forall k :: k in m ==> m[k] >= 1
  {
    map k | k in keys :: multiset(keys)[k]
  }

  /** Seeing one more key increments it, or adds it with 1 when it is new;
      no other key changes. This is one step of the dictionary update. */
  lemma TallyAppend(keys: seq<string>, k: string)
    ensures var before := Tally(keys);
      Tally(keys + [k]) == if k in before then before[k := before[k] + 1] else before[k := 1]
  {
  }

  /** Appending at most one key raises the multiplicity of `k` by one
      exactly when the appended key is `k`. */
  lemma MultiplicityAppend(keys: seq<string>, tail: seq<string>, k: string)
    requires |tail| <= 1
    ensures multiset(keys + tail)[k] == multiset(keys)[k] + if tail == [k] then 1 else 0
  {
    assert multiset(keys + tail) == multiset(keys) + multiset(tail);
  }

  /** The sum of the values of a map. */
  ghost function SumValues(m: map<string, int>): int
    decreases |m|
  {
    if m == map[] then 0
    else
      var k :| k in m;
      assert m.Keys == (m - {k}).Keys + {k};
      m[k] + SumValues(m - {k})
  }

  /** The sum does not depend on which key is taken out first. */
  lemma {:induction false} SumValuesRemove(m: map<string, int>, k: string)
    requires k in m
    ensures SumValues(m) == m[k] + SumValues(m - {k})
    decreases |m|
  {
    var j :| j in m && SumValues(m) == m[j] + SumValues(m - {j});
    if j != k {
      assert m.Keys == (m - {j}).Keys + {j};
      assert m.Keys == (m - {k}).Keys + {k};
      SumValuesRemove(m - {j}, k);
      SumValuesRemove(m - {k}, j);
      assert m - {j} - {k} == m - {k} - {j};
    }
  }

  lemma SumValuesUpdate(m: map<string, int>, k: string, v: int)
    ensures SumValues(m[k := v]) == SumValues(m) - (if k in m then m[k] else 0) + v
  {
    var u := m[k := v];
    SumValuesRemove(u, k);
    if k in m {
      SumValuesRemove(m, k);
      assert u - {k} == m - {k};
    } else {
      assert u - {k} == m;
    }
  }

  /** The counts of a tally add up to the number of keys it was built from. */
  lemma {:induction false} TallyTotal(keys: seq<string>)
    ensures SumValues(Tally(keys)) == |keys|
  {
    if keys == [] {
      assert Tally(keys) == map[];
    } else {
      var init, last := keys[..|keys| - 1], keys[|keys| - 1];
      assert keys == init + [last];
      TallyTotal(init);
      TallyAppend(init, last);
      var before := Tally(init);
      SumValuesUpdate(before, last, if last in before then before[last] + 1 else 1);
    }
  }

  lemma TallyOfTwoDistinct(b: string, s: string)
    requires b != s
    ensures Tally([b, s]) == map[b := 1, s := 1]
  {
  }

  /** A key seen twice counts 2, whatever else is seen after it. */
  lemma TallyOfRepeat(b: string, s: string)
    requires b != s
    ensures Tally([b, b, s]) == map[b := 2, s := 1]
  {
  }
}
