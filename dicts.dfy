/** The settings mapping as a Python `dict` of strings: an association list that keeps
    insertion order. Assigning to a present key keeps its place; a new key goes last. */
module Dicts {
  import opened Wrappers

  datatype Entry = Entry(key: string, value: string)

  type Dict = seq<Entry>

  /** The keys of `d`, in order. */
  function Keys(d: Dict): (ks: seq<string>)
    ensures |ks| == |d|
    ensures forall i :: 0 <= i < |d| ==> ks[i] == d[i].key
  {
    seq(|d|, i requires 0 <= i < |d| => d[i].key)
  }

  /** No key occurs twice, as in every Python dict. */
  predicate DistinctKeys(d: Dict) {
    forall i, j :: 0 <= i < j < |d| ==> d[i].key != d[j].key
  }

  /** The position of the first entry with key `k`. */
  function IndexOf(d: Dict, k: string): (r: Option<nat>)
    ensures r.Some? ==> r.value < |d| && d[r.value].key == k
    ensures r.Some? ==> forall j :: 0 <= j < r.value ==> d[j].key != k
    ensures r.None? <==> k !in Keys(d)
  {
    if d == [] then None
    else if d[0].key == k then Some(0)
    else
      match IndexOf(d[1..], k)
      case None => None
      case Some(i) => Some(i + 1)
  }

  /** `d.get(k)`: the value stored under `k`, if any. */
  function Get(d: Dict, k: string): (r: Option<string>)
    ensures r.None? <==> k !in Keys(d)
    ensures r.Some? ==> Entry(k, r.value) in d
  {
    match IndexOf(d, k)
    case None => None
    case Some(i) => Some(d[i].value)
  }

  /** `d[k]` on a present key. */
  function At(d: Dict, k: string): (v: string)
    requires k in Keys(d)
    ensures Get(d, k) == Some(v)
  {
    Get(d, k).value
  }

  /** `d.get(k, default)`. */
  function GetOr(d: Dict, k: string, default: string): (v: string)
    ensures k in Keys(d) ==> Get(d, k) == Some(v)
    ensures k !in Keys(d) ==> v == default
  {
    match Get(d, k)
    case None => default
    case Some(v) => v
  }

  /** `d[k] = v`. */
  function Set(d: Dict, k: string, v: string): (r: Dict)
    ensures Get(r, k) == Some(v)
    ensures forall k' :: k' != k ==> Get(r, k') == Get(d, k')
    ensures k in Keys(d) ==> Keys(r) == Keys(d)
    ensures k !in Keys(d) ==> Keys(r) == Keys(d) + [k]
    ensures DistinctKeys(d) ==> DistinctKeys(r)
  {
    match IndexOf(d, k)
    case Some(i) =>
      var r := d[i := Entry(k, v)];
      assert Keys(r) == Keys(d);
      IndexOfSameKeys(d, r);
      r
    case None =>
      var r := d + [Entry(k, v)];
      assert Keys(r) == Keys(d) + [k];
      IndexOfAppend(d, Entry(k, v));
      r
  }

  /** The first position of a key depends only on the keys. */
  lemma IndexOfSameKeys(d: Dict, d': Dict)
    requires Keys(d) == Keys(d')
    ensures forall k :: IndexOf(d, k) == IndexOf(d', k)
  {
    forall k ensures IndexOf(d, k) == IndexOf(d', k) {
      IndexOfSameKeysAt(d, d', k);
    }
  }

  lemma {:induction false} IndexOfSameKeysAt(d: Dict, d': Dict, k: string)
    requires Keys(d) == Keys(d')
    ensures IndexOf(d, k) == IndexOf(d', k)
  {
    if d != [] {
      assert d[0].key == Keys(d)[0] == d'[0].key;
      assert Keys(d[1..]) == Keys(d)[1..] == Keys(d'[1..]);
      IndexOfSameKeysAt(d[1..], d'[1..], k);
    }
  }

  /** Appending an entry does not move the keys already there. */
  lemma IndexOfAppend(d: Dict, e: Entry)
    ensures forall k :: k != e.key ==> IndexOf(d + [e], k) == IndexOf(d, k)
    ensures e.key !in Keys(d) ==> IndexOf(d + [e], e.key) == Some(|d|)
  {
    forall k ensures IndexOf(d + [e], k) == if k in Keys(d) then IndexOf(d, k) else if k == e.key then Some(|d|) else None {
      IndexOfAppendAt(d, e, k);
    }
  }

  lemma {:induction false} IndexOfAppendAt(d: Dict, e: Entry, k: string)
    ensures IndexOf(d + [e], k) == if k in Keys(d) then IndexOf(d, k) else if k == e.key then Some(|d|) else None
  {
    if d != [] {
      assert (d + [e])[1..] == d[1..] + [e];
      IndexOfAppendAt(d[1..], e, k);
      assert k in Keys(d) <==> k == d[0].key || k in Keys(d[1..]) by {
        assert Keys(d) == [d[0].key] + Keys(d[1..]);
      }
    }
  }

  /** Assigning to a key whose first entry is at `i` replaces that entry in place. */
  lemma SetExisting(d: Dict, i: nat, k: string, v: string)
    requires i < |d| && d[i].key == k
    requires forall j :: 0 <= j < i ==> d[j].key != k
    ensures Set(d, k, v) == d[i := Entry(k, v)]
  {
    assert IndexOf(d, k) == Some(i);
  }

  /** Assigning to a new key appends an entry. */
  lemma SetNew(d: Dict, k: string, v: string)
    requires k !in Keys(d)
    ensures Set(d, k, v) == d + [Entry(k, v)]
  {
  }

  /** Storing the value a key already has changes nothing. */
  lemma SetUnchanged(d: Dict, k: string, v: string)
    requires Get(d, k) == Some(v)
    ensures Set(d, k, v) == d
  {
    var i := IndexOf(d, k).value;
    assert d[i] == Entry(k, v);
  }

  /** The plain mapping a dict denotes; a later entry wins over an earlier one. */
  function ToMap(d: Dict): map<string, string> {
    if d == [] then map[]
    else
      var p := d[..|d| - 1];
      assert d == p + [d[|d| - 1]];
      ToMap(p)[d[|d| - 1].key := d[|d| - 1].value]
  }

  /** The value `m` holds for `k`, if any. */
  function Lookup(m: map<string, string>, k: string): Option<string> {
    if k in m then Some(m[k]) else None
  }

  /** With distinct keys, `get` on the dict and lookup in its mapping agree. */
  lemma {:induction false} GetToMap(d: Dict, k: string)
    requires DistinctKeys(d)
    ensures Get(d, k) == Lookup(ToMap(d), k)
  {
    if d != [] {
      var p, e := d[..|d| - 1], d[|d| - 1];
      assert d == p + [e];
      GetToMap(p, k);
      IndexOfAppend(p, e);
      assert e.key !in Keys(p) by {
        assert forall j :: 0 <= j < |p| ==> p[j].key == d[j].key != e.key;
      }
    }
  }

  /** On the mapping, `d[k] = v` is a map update. */
  lemma ToMapSet(d: Dict, k: string, v: string)
    requires DistinctKeys(d)
    ensures ToMap(Set(d, k, v)) == ToMap(d)[k := v]
  {
    var r := Set(d, k, v);
    forall k' ensures Lookup(ToMap(r), k') == Lookup(ToMap(d)[k := v], k') {
      GetToMap(r, k');
      GetToMap(d, k');
    }
    SameLookups(ToMap(r), ToMap(d)[k := v]);
  }

  /** Maps that answer every lookup alike are equal. */
  lemma SameLookups(m: map<string, string>, m': map<string, string>)
    requires forall k :: Lookup(m, k) == Lookup(m', k)
    ensures m == m'
  {
    forall k ensures k in m <==> k in m' {
      assert Lookup(m, k) == Lookup(m', k);
    }
    forall k | k in m ensures m[k] == m'[k] {
      assert Lookup(m, k) == Lookup(m', k);
    }
  }
}
