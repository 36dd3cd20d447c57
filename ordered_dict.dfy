/** A plain JavaScript object used as a string-keyed dictionary, as an
    insertion-ordered sequence of (key, value) pairs: assigning to a key that is
    already present replaces its value where it stands, assigning to a new key
    appends it. (Integer-like keys, which JavaScript enumerates first, are not
    distinguished: every key keeps its insertion position.) */
module OrderedDict {
  import opened Results

  type Dict<V> = seq<(string, V)>

  /** No key occurs twice. */
  predicate UniqueKeys<V>(d: Dict<V>)
  {
    d == [] || (d[0].0 !in Keys(d[1..]) && UniqueKeys(d[1..]))
  }

  /** `Object.keys(d)`. */
  function Keys<V>(d: Dict<V>): (ks: seq<string>)
    ensures |ks| == |d|
    ensures forall i :: 0 <= i < |d| ==> ks[i] == d[i].0
  {
    if d == [] then [] else [d[0].0] + Keys(d[1..])
  }

  /** `d[k]`: the value of the first pair with key `k`. */
  function Get<V>(d: Dict<V>, k: string): (r: Option<V>)
    ensures r.None? <==> k !in Keys(d)
  {
    if d == [] then None
    else if d[0].0 == k then Some(d[0].1)
    else Get(d[1..], k)
  }

  /** `d[k] = v`. */
  function Put<V>(d: Dict<V>, k: string, v: V): (r: Dict<V>)
    ensures Keys(r) == if k in Keys(d) then Keys(d) else Keys(d) + [k]
    ensures Get(r, k) == Some(v)
    ensures forall k' :: k' != k ==> Get(r, k') == Get(d, k')
    ensures UniqueKeys(d) ==> UniqueKeys(r)
  {
    if d == [] then [(k, v)]
    else if d[0].0 == k then [(k, v)] + d[1..]
    else
      var rest := Put(d[1..], k, v);
      var r := [d[0]] + rest;
      assert r[1..] == rest;
      r
  }

  /** `Object.fromEntries(entries)`: the pairs assigned one after another, so a
      later pair for a key overwrites the value of an earlier one. */
  function FromEntries<V>(entries: seq<(string, V)>): (d: Dict<V>)
    ensures UniqueKeys(d)
  {
    if entries == [] then []
    else Put(FromEntries(entries[..|entries| - 1]), entries[|entries| - 1].0, entries[|entries| - 1].1)
  }

  /** One more pair assigns one more key. */
  lemma FromEntriesSnoc<V>(entries: seq<(string, V)>, k: string, v: V)
    ensures FromEntries(entries + [(k, v)]) == Put(FromEntries(entries), k, v)
  {
    assert (entries + [(k, v)])[..|entries|] == entries;
  }

  /** The distinct strings of `ks` in the order in which each first occurs:
      the key order of an object whose keys were assigned in the order `ks`. */
  function FirstOccurrences(ks: seq<string>): (r: seq<string>)
    ensures |r| <= |ks|
    ensures forall k :: k in r <==> k in ks
  {
    if ks == [] then []
    else
      var init, last := ks[..|ks| - 1], ks[|ks| - 1];
      assert ks == init + [last];
      var r := FirstOccurrences(init);
      if last in r then r else r + [last]
  }

  /** Keeping first occurrences twice keeps the same strings. */
  lemma {:induction false} FirstOccurrencesIdempotent(ks: seq<string>)
    ensures FirstOccurrences(FirstOccurrences(ks)) == FirstOccurrences(ks)
  {
    if ks != [] {
      var init, last := ks[..|ks| - 1], ks[|ks| - 1];
      FirstOccurrencesIdempotent(init);
      var r := FirstOccurrences(init);
      if last !in r {
        assert (r + [last])[..|r|] == r;
      }
    }
  }

  /** What follows a prefix only sees the prefix's first occurrences. */
  lemma {:induction false} FirstOccurrencesAppend(a: seq<string>, b: seq<string>)
    ensures FirstOccurrences(a + b) == FirstOccurrences(FirstOccurrences(a) + b)
  {
    if b == [] {
      assert a + b == a;
      assert FirstOccurrences(a) + b == FirstOccurrences(a);
      FirstOccurrencesIdempotent(a);
    } else {
      var b', x := b[..|b| - 1], b[|b| - 1];
      FirstOccurrencesAppend(a, b');
      assert (a + b)[..|a + b| - 1] == a + b' && (a + b)[|a + b| - 1] == x;
      var fa := FirstOccurrences(a);
      assert (fa + b)[..|fa + b| - 1] == fa + b' && (fa + b)[|fa + b| - 1] == x;
    }
  }

  /** The keys of `Object.fromEntries` are exactly the keys of the pairs, in
      the order in which each key first occurs among them. */
  lemma {:induction false} FromEntriesKeys<V>(entries: seq<(string, V)>)
    ensures Keys(FromEntries(entries)) == FirstOccurrences(Keys(entries))
    ensures forall k :: k in Keys(FromEntries(entries)) <==> k in Keys(entries)
  {
    if entries != [] {
      var init, last := entries[..|entries| - 1], entries[|entries| - 1];
      FromEntriesKeys(init);
      var ks := Keys(entries);
      assert ks[..|ks| - 1] == Keys(init) && ks[|ks| - 1] == last.0;
      var r := FirstOccurrences(Keys(init));
      assert FirstOccurrences(ks) == if last.0 in r then r else r + [last.0];
      assert Keys(FromEntries(entries)) == Keys(Put(FromEntries(init), last.0, last.1));
    }
  }

  /** Adding one more string and then more still keeps first occurrences
      the same way as adding them all at once. */
  lemma FirstOccurrencesSnoc(a: seq<string>, k: string, more: seq<string>)
    ensures FirstOccurrences(FirstOccurrences(a + [k])) == FirstOccurrences(a + [k])
    ensures FirstOccurrences(FirstOccurrences(a + [k]) + more) == FirstOccurrences(a + ([k] + more))
  {
    FirstOccurrencesIdempotent(a + [k]);
    FirstOccurrencesAppend(a + [k], more);
    assert a + [k] + more == a + ([k] + more);
  }

  /** An assignment to a dictionary whose keys are distinct appends the key
      where `FirstOccurrences` would. */
  lemma PutKeysOrder<V>(d: Dict<V>, k: string, v: V)
    requires Keys(d) == FirstOccurrences(Keys(d))
    ensures Keys(Put(d, k, v)) == FirstOccurrences(Keys(d) + [k])
  {
    var ks := Keys(d) + [k];
    assert ks[..|ks| - 1] == Keys(d) && ks[|ks| - 1] == k;
    assert FirstOccurrences(ks) == if k in Keys(d) then Keys(d) else Keys(d) + [k];
  }

  /** So what follows the assignment sees the same order as if the key had
      been appended to the key list. */
  lemma PutOrder<V>(d: Dict<V>, k: string, v: V, more: seq<string>)
    requires Keys(d) == FirstOccurrences(Keys(d))
    ensures Keys(Put(d, k, v)) == FirstOccurrences(Keys(Put(d, k, v)))
    ensures FirstOccurrences(Keys(Put(d, k, v)) + more) == FirstOccurrences(Keys(d) + ([k] + more))
  {
    PutKeysOrder(d, k, v);
    FirstOccurrencesSnoc(Keys(d), k, more);
  }

  /** In `Object.fromEntries` the LAST pair for a key decides its value. */
  lemma {:induction false} FromEntriesLastWins<V>(entries: seq<(string, V)>, j: nat)
    requires j < |entries|
    requires forall i :: j < i < |entries| ==> entries[i].0 != entries[j].0
    ensures Get(FromEntries(entries), entries[j].0) == Some(entries[j].1)
  {
    if j < |entries| - 1 {
      var init := entries[..|entries| - 1];
      FromEntriesLastWins(init, j);
    }
  }
}
