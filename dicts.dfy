/**
 * The insertion-ordered dictionary `result_flags` of the analysis: a Python
 * dict from file names to success flags, kept as its list of items in the
 * order the keys were first inserted.
 */
module Dicts {

  type Items = seq<(string, bool)>

  /** The keys, in insertion order (`d.keys()`). */
  function Keys(items: Items): (ks: seq<string>)
    ensures |ks| == |items|
    ensures forall i :: 0 <= i < |items| ==> ks[i] == items[i].0
  {
    seq(|items|, i requires 0 <= i < |items| => items[i].0)
  }

  ghost predicate Distinct(s: seq<string>)
  {
    forall i, j :: 0 <= i < j < |s| ==> s[i] != s[j]
  }

  /**
   * `d[k] = v`: a new key goes to the end; an existing key keeps its
   * position and only its value changes.
   */
  function Put(items: Items, k: string, v: bool): (r: Items)
    ensures k !in Keys(items) ==> r == items + [(k, v)]
    ensures k in Keys(items) && Distinct(Keys(items)) ==>
      |r| == |items| &&
      forall i :: 0 <= i < |r| ==> r[i] == if items[i].0 == k then (k, v) else items[i]
    ensures Distinct(Keys(items)) ==> Distinct(Keys(r))
    decreases |items|
  {
    if |items| == 0 then [(k, v)]
    else if items[0].0 == k then [(k, v)] + items[1..]
    else [items[0]] + Put(items[1..], k, v)
  }

  /**
   * After `d[k] = v` on a dictionary, the keys are the old ones and `k`, and
   * every item is `(k, v)` or an item that was there before.
   */
  lemma PutItems(items: Items, k: string, v: bool)
    requires Distinct(Keys(items))
    ensures forall key :: key in Keys(Put(items, k, v)) <==> key in Keys(items) || key == k
    ensures forall i :: 0 <= i < |Put(items, k, v)| ==> Put(items, k, v)[i] == (k, v) || Put(items, k, v)[i] in items
  {
    var r := Put(items, k, v);
    if k in Keys(items) {
      forall key | key in Keys(items) ensures key in Keys(r) {
        var j :| 0 <= j < |items| && Keys(items)[j] == key;
        assert Keys(r)[j] == key;
      }
      forall i | 0 <= i < |r| ensures r[i] == (k, v) || r[i] in items {
        if items[i].0 != k { assert r[i] == items[i]; }
      }
    } else {
      assert Keys(r) == Keys(items) + [k];
    }
  }

  /** `all(d.values())`. */
  predicate AllTrue(items: Items)
  {
    forall i :: 0 <= i < |items| ==> items[i].1
  }

  /** `[item[0] for item in d.items() if not item[1]]`: the keys whose flag is false, in order. */
  function FailedKeys(items: Items): (ks: seq<string>)
    ensures |ks| <= |items|
    ensures forall k :: k in ks ==> exists i :: 0 <= i < |items| && items[i] == (k, false)
    ensures forall i :: 0 <= i < |items| && !items[i].1 ==> items[i].0 in ks
    ensures ks == [] <==> AllTrue(items)
  {
    if |items| == 0 then []
    else
      var last := items[|items| - 1];
      FailedKeys(items[..|items| - 1]) + if last.1 then [] else [last.0]
  }

  /** Appending a new item appends its key, and its key to the failed keys when its flag is false. */
  lemma AppendItem(items: Items, k: string, v: bool)
    ensures Keys(items + [(k, v)]) == Keys(items) + [k]
    ensures FailedKeys(items + [(k, v)]) == FailedKeys(items) + if v then [] else [k]
  {
    assert (items + [(k, v)])[..|items|] == items;
  }
}
