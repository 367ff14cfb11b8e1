/**
 * Plain JavaScript objects with string keys, as the engine builds them with `Object.fromEntries`
 * and object spread: own properties in insertion order. Assigning to a key that is already
 * present replaces its value in place; a new key goes to the end.
 */
module Objects {
  import opened Wrappers

  type Entries<V> = seq<(string, V)>

  /** `Object.keys(o)` */
  function Keys<V>(o: Entries<V>): (ks: seq<string>)
    ensures |ks| == |o|
    ensures forall i :: 0 <= i < |o| ==> ks[i] == o[i].0
  {
    if o == [] then [] else [o[0].0] + Keys(o[1..])
  }

  predicate Distinct(ks: seq<string>)
  {
    forall i, j :: 0 <= i < j < |ks| ==> ks[i] != ks[j]
  }

  /** `o[k]`, absent when `k` is not an own key. */
  function Get<V>(o: Entries<V>, k: string): (r: Option<V>)
    ensures r.None? <==> k !in Keys(o)
    ensures r.Some? ==> exists i :: 0 <= i < |o| && o[i] == (k, r.value)
  {
    if o == [] then None
    else if o[0].0 == k then Some(o[0].1)
    else
      var r := Get(o[1..], k);
      assert r.Some? ==> exists i :: 0 <= i < |o[1..]| && o[1..][i] == (k, r.value);
      assert Keys(o) == [o[0].0] + Keys(o[1..]);
      r
  }

  /** `o[k] = v` */
  function Put<V>(o: Entries<V>, k: string, v: V): (r: Entries<V>)
    ensures Keys(r) == if k in Keys(o) then Keys(o) else Keys(o) + [k]
  {
    if o == [] then [(k, v)]
    else if o[0].0 == k then
      assert Keys([(k, v)] + o[1..]) == [k] + Keys(o[1..]);
      [(k, v)] + o[1..]
    else
      var rest := Put(o[1..], k, v);
      assert Keys([o[0]] + rest) == [o[0].0] + Keys(rest);
      assert Keys(o) == [o[0].0] + Keys(o[1..]);
      [o[0]] + rest
  }

  lemma {:induction false} PutGet<V>(o: Entries<V>, k: string, v: V, j: string)
    ensures Get(Put(o, k, v), j) == if j == k then Some(v) else Get(o, j)
  {
    if o != [] && o[0].0 != k {
      PutGet(o[1..], k, v, j);
    }
  }

  /** Assigning each pair in turn, as `{...o, ...Object.fromEntries(pairs)}` and
      `Object.fromEntries(pairs)` (from the empty object) do. */
  function PutAll<V>(o: Entries<V>, pairs: seq<(string, V)>): Entries<V>
  {
    if pairs == [] then o
    else
      var last := pairs[|pairs| - 1];
      Put(PutAll(o, pairs[..|pairs| - 1]), last.0, last.1)
  }

  function FromEntries<V>(pairs: seq<(string, V)>): Entries<V>
  {
    PutAll([], pairs)
  }

  /** The value of the last pair with key `k`. */
  function LastValue<V>(pairs: seq<(string, V)>, k: string): Option<V>
  {
    if pairs == [] then None
    else if pairs[|pairs| - 1].0 == k then Some(pairs[|pairs| - 1].1)
    else LastValue(pairs[..|pairs| - 1], k)
  }

  /** `LastValue` finds the pair with key `k` that no later pair with key `k` follows. */
  lemma {:induction false} LastValueSpec<V>(pairs: seq<(string, V)>, k: string)
    ensures LastValue(pairs, k).None? <==> forall i :: 0 <= i < |pairs| ==> pairs[i].0 != k
    ensures LastValue(pairs, k).Some? ==>
      exists j :: 0 <= j < |pairs| && pairs[j] == (k, LastValue(pairs, k).value) &&
                  forall i :: j < i < |pairs| ==> pairs[i].0 != k
  {
    if pairs != [] && pairs[|pairs| - 1].0 != k {
      var init := pairs[..|pairs| - 1];
      LastValueSpec(init, k);
      assert LastValue(pairs, k) == LastValue(init, k);
      assert forall i :: 0 <= i < |init| ==> init[i] == pairs[i];
      if LastValue(init, k).Some? {
        var j :| 0 <= j < |init| && init[j] == (k, LastValue(init, k).value) &&
                 forall i :: j < i < |init| ==> init[i].0 != k;
        assert pairs[j] == (k, LastValue(pairs, k).value);
        assert forall i :: j < i < |pairs| ==> pairs[i].0 != k;
      }
    } else if pairs != [] {
      assert pairs[|pairs| - 1] == (k, LastValue(pairs, k).value);
    }
  }

  /** The keys in order of first appearance. */
  function FirstOccurrences(ks: seq<string>): (r: seq<string>)
    ensures Distinct(r)
    ensures forall k :: k in r <==> k in ks
  {
    if ks == [] then []
    else
      var prefix := FirstOccurrences(ks[..|ks| - 1]);
      assert forall k :: k in ks <==> k in ks[..|ks| - 1] || k == ks[|ks| - 1];
      if ks[|ks| - 1] in prefix then prefix else prefix + [ks[|ks| - 1]]
  }

  /** After a run of assignments, a key holds the value last assigned to it, or its old value
      when no assignment touched it. */
  lemma {:induction false} PutAllGet<V>(o: Entries<V>, pairs: seq<(string, V)>, k: string)
    ensures Get(PutAll(o, pairs), k) == if LastValue(pairs, k).Some? then LastValue(pairs, k) else Get(o, k)
  {
    if pairs != [] {
      var last := pairs[|pairs| - 1];
      PutAllGet(o, pairs[..|pairs| - 1], k);
      PutGet(PutAll(o, pairs[..|pairs| - 1]), last.0, last.1, k);
    }
  }

  /** The keys after a run of assignments: the old keys in their order, then the new ones in
      order of first appearance. */
  lemma {:induction false} PutAllKeys<V>(o: Entries<V>, pairs: seq<(string, V)>)
    requires Distinct(Keys(o))
    ensures Keys(PutAll(o, pairs)) == FirstOccurrences(Keys(o) + Keys(pairs))
  {
    if pairs == [] {
      FirstOccurrencesOfDistinct(Keys(o));
      assert Keys(o) + Keys(pairs) == Keys(o);
    } else {
      var init, last := pairs[..|pairs| - 1], pairs[|pairs| - 1];
      assert pairs == init + [last];
      PutAllKeys(o, init);
      PutAllKeysStep(o, init, last);
    }
  }

  lemma PutAllKeysStep<V>(o: Entries<V>, init: seq<(string, V)>, last: (string, V))
    requires Keys(PutAll(o, init)) == FirstOccurrences(Keys(o) + Keys(init))
    ensures Keys(PutAll(o, init + [last])) == FirstOccurrences(Keys(o) + Keys(init + [last]))
  {
    var pairs := init + [last];
    assert pairs[..|pairs| - 1] == init;
    KeysSnoc(init, last);
    assert Keys(o) + Keys(pairs) == (Keys(o) + Keys(init)) + [last.0];
    FirstOccurrencesSnoc(Keys(o) + Keys(init), last.0);
  }

  lemma KeysSnoc<V>(init: seq<(string, V)>, last: (string, V))
    ensures Keys(init + [last]) == Keys(init) + [last.0]
  {
  }

  lemma FirstOccurrencesSnoc(ks: seq<string>, k: string)
    ensures FirstOccurrences(ks + [k]) ==
      if k in FirstOccurrences(ks) then FirstOccurrences(ks) else FirstOccurrences(ks) + [k]
  {
    assert (ks + [k])[..|ks|] == ks;
  }

  lemma {:induction false} FirstOccurrencesOfDistinct(ks: seq<string>)
    requires Distinct(ks)
    ensures FirstOccurrences(ks) == ks
  {
    if ks != [] {
      FirstOccurrencesOfDistinct(ks[..|ks| - 1]);
      assert ks == ks[..|ks| - 1] + [ks[|ks| - 1]];
    }
  }
}
