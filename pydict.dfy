/** The insertion-ordered Python dict the categorical encoder fills: a
    sequence of key/code items, keys distinct, in insertion order. */
module PyDict {
  import opened Wrappers
  import opened Sequences

  datatype Item = Item(key: string, code: nat)

  type Dict = seq<Item>

  /** The keys in iteration order. */
  function Keys(d: Dict): (ks: seq<string>)
    ensures |ks| == |d| && forall i :: 0 <= i < |d| ==> ks[i] == d[i].key
  {
    if d == [] then [] else [d[0].key] + Keys(d[1..])
  }

  /** `d.get(k)`: the code stored under `k`, if any. */
  function Get(d: Dict, k: string): (r: Option<nat>)
    ensures r.None? <==> k !in Keys(d)
  {
    if d == [] then None else if d[0].key == k then Some(d[0].code) else Get(d[1..], k)
  }

  /** `d[k] = v`: overwrite in place when `k` is present, else append. */
  function Put(d: Dict, k: string, v: nat): (r: Dict)
    ensures k in Keys(d) ==> Keys(r) == Keys(d)
    ensures k !in Keys(d) ==> r == d + [Item(k, v)]
    ensures Get(r, k) == Some(v)
    ensures forall k' :: k' != k ==> Get(r, k') == Get(d, k')
  {
    if d == [] then [Item(k, v)]
    else if d[0].key == k then [Item(k, v)] + d[1..]
    else [d[0]] + Put(d[1..], k, v)
  }

  /** With distinct keys, looking up the key of item `i` finds item `i`. */
  lemma {:induction false} GetAt(d: Dict, i: nat)
    requires Distinct(Keys(d)) && i < |d|
    ensures Get(d, d[i].key) == Some(d[i].code)
  {
    if i > 0 {
      assert Keys(d)[0] != Keys(d)[i];
      assert Keys(d[1..]) == Keys(d)[1..];
      GetAt(d[1..], i - 1);
    }
  }
}
