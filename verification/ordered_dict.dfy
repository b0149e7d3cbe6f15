/** A string-keyed dictionary that remembers insertion order, as Python's
    `dict` does: `list(d.values())` lists each key's current value in the
    order in which that key was FIRST inserted; re-assigning a key replaces
    its value but keeps its position. */
module OrderedDict {
  import opened Wrappers

  predicate Distinct(keys: seq<string>) {
    forall i, j :: 0 <= i < j < |keys| ==> keys[i] != keys[j]
  }

  datatype RawDict<V> = RawDict(order: seq<string>, entries: map<string, V>)

  /** `order` lists every key of `entries` exactly once. */
  ghost predicate Valid<V>(d: RawDict<V>) {
    && Distinct(d.order)
    && (forall k :: k in d.order <==> k in d.entries)
  }

  type Dict<V> = d: RawDict<V> | Valid(d) witness RawDict([], map[])

  function Empty<V>(): (d: Dict<V>)
    ensures d.entries == map[]
  {
    RawDict([], map[])
  }

  /** `d.get(k)`. */
  function Get<V>(d: Dict<V>, k: string): Option<V> {
    if k in d.entries then Some(d.entries[k]) else None
  }

  /** `d[k] = v`: the entry for `k` becomes `v`, every other entry is kept, and
      `k` joins the order only when it was not already a key. */
  function Put<V>(d: Dict<V>, k: string, v: V): (r: Dict<V>)
    ensures Get(r, k) == Some(v)
    ensures forall k' :: k' != k ==> Get(r, k') == Get(d, k')
    ensures k in d.entries ==> r.order == d.order
    ensures k !in d.entries ==> r.order == d.order + [k]
  {
    var order := if k in d.entries then d.order else d.order + [k];
    var r := RawDict(order, d.entries[k := v]);
    assert Valid(r);
    r
  }

  /** `list(d.values())`: one value per key, in first-insertion order. */
  function Values<V>(d: Dict<V>): (vs: seq<V>)
    ensures |vs| == |d.order| == |d.entries|
    ensures forall i :: 0 <= i < |vs| ==> Get(d, d.order[i]) == Some(vs[i])
  {
    DistinctCardinality(d.order, d.entries.Keys);
    seq(|d.order|, i requires 0 <= i < |d.order| => d.entries[d.order[i]])
  }

  /** A duplicate-free sequence has as many elements as the set it lists. */
  lemma {:induction false} DistinctCardinality(keys: seq<string>, s: set<string>)
    requires Distinct(keys)
    requires forall k :: k in keys <==> k in s
    ensures |keys| == |s|
  {
    if |keys| > 0 {
      var last := keys[|keys| - 1];
      var init := keys[..|keys| - 1];
      assert forall k :: k in init <==> k in s - {last} by {
        forall k | k in init ensures k in s - {last} {
          var i :| 0 <= i < |init| && init[i] == k;
          assert keys[i] != keys[|keys| - 1];
        }
        forall k | k in s - {last} ensures k in init {
          assert k in keys;
          var i :| 0 <= i < |keys| && keys[i] == k;
          assert i != |keys| - 1;
        }
      }
      DistinctCardinality(init, s - {last});
    }
  }
}
