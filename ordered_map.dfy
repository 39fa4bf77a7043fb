/**
 * Python dictionaries with integer keys, as the insertion-ordered sequences
 * of entries they iterate in.
 */
module OrderedMap {
  import opened Wrappers
  import opened Counting

  datatype Entry<V> = Entry(key: int, value: V)

  function KeysOf<V>(d: seq<Entry<V>>): (ks: seq<int>)
    ensures |ks| == |d| && forall i :: 0 <= i < |d| ==> ks[i] == d[i].key
  {
    seq(|d|, i requires 0 <= i < |d| => d[i].key)
  }

  /** No key occurs twice, as in any dictionary. */
  predicate UniqueKeys<V>(d: seq<Entry<V>>) {
    forall i, j :: 0 <= i < j < |d| ==> d[i].key != d[j].key
  }

  /** The position of key `k`, if present. */
  function Find<V>(d: seq<Entry<V>>, k: int): (r: Option<nat>)
    ensures r.Some? ==> r.value < |d| && d[r.value].key == k
    ensures r.None? ==> forall i :: 0 <= i < |d| ==> d[i].key != k
  {
    if d == [] then None
    else if d[|d| - 1].key == k then Some(|d| - 1)
    else Find(d[..|d| - 1], k)
  }

  /** `d[k]` for a `defaultdict` whose default is `dflt`. */
  function Get<V>(d: seq<Entry<V>>, k: int, dflt: V): V
  {
    match Find(d, k)
    case None => dflt
    case Some(i) => d[i].value
  }

  /** `d[k] = v`: overwrite in place, or insert at the end. */
  function Put<V>(d: seq<Entry<V>>, k: int, v: V): (r: seq<Entry<V>>)
  {
    match Find(d, k)
    case None => d + [Entry(k, v)]
    case Some(i) => d[i := Entry(k, v)]
  }

  /** In a dictionary, the entry holding a key is the one `Find` reports. */
  lemma FindUnique<V>(d: seq<Entry<V>>, k: int, i: nat)
    requires UniqueKeys(d) && i < |d| && d[i].key == k
    ensures Find(d, k) == Some(i)
  {
  }

  /** `Put` sets `k`, leaves every other key alone and keeps the keys unique. */
  lemma PutGet<V>(d: seq<Entry<V>>, k: int, v: V, q: int, dflt: V)
    requires UniqueKeys(d)
    ensures UniqueKeys(Put(d, k, v))
    ensures Get(Put(d, k, v), q, dflt) == if q == k then v else Get(d, q, dflt)
  {
    var r := Put(d, k, v);
    var at := match Find(d, k) case None => |d| case Some(i) => i;
    assert at < |r| && r[at] == Entry(k, v);
    assert forall i :: 0 <= i < |r| && i != at ==> r[i] == d[i];
    assert UniqueKeys(r);
    if q == k {
      FindUnique(r, k, at);
    } else if Find(d, q).Some? {
      FindUnique(r, q, Find(d, q).value);
    }
  }

  /** `Put` keeps the existing keys in order and adds a new one at the end. */
  lemma PutKeys<V>(d: seq<Entry<V>>, k: int, v: V)
    ensures KeysOf(Put(d, k, v)) == if Find(d, k).Some? then KeysOf(d) else KeysOf(d) + [k]
  {
  }

  /** After `Put`, a key is present iff it is the one put or was present before. */
  lemma PutFind<V>(d: seq<Entry<V>>, k: int, v: V, q: int)
    ensures Find(Put(d, k, v), q).Some? <==> q == k || Find(d, q).Some?
  {
    var r := Put(d, k, v);
    match Find(d, k)
    case None =>
      assert r[|d|].key == k;
      if Find(d, q).Some? {
        assert r[Find(d, q).value].key == q;
      }
      if Find(r, q).Some? && q != k {
        assert d[Find(r, q).value].key == q;
      }
    case Some(i) =>
      assert r[i].key == k;
      if Find(d, q).Some? {
        assert r[Find(d, q).value].key == q;
      }
      if Find(r, q).Some? {
        assert d[Find(r, q).value].key == q;
      }
  }
}
