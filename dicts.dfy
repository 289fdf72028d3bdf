/** Python dictionaries with string keys, as the loader uses them: an
    insertion-ordered list of entries in which assignment to an existing key
    replaces its value in place and assignment to a new key appends it. */
module Dicts {

  datatype Option<+T> = None | Some(value: T)

  /** The entries of a dict, in insertion order. */
  type Entries<V> = seq<(string, V)>

  function Keys<V>(d: Entries<V>): seq<string>
  {
    seq(|d|, i requires 0 <= i < |d| => d[i].0)
  }

  /** Every key occurs once: what a Python dict guarantees. */
  predicate UniqueKeys<V>(d: Entries<V>)
  {
    forall i, j | 0 <= i < j < |d| :: d[i].0 != d[j].0
  }

  /** Position of the first entry with key `k`. */
  function IndexOf<V>(d: Entries<V>, k: string): (i: nat)
    requires k in Keys(d)
    ensures i < |d| && d[i].0 == k
    ensures forall j | 0 <= j < i :: d[j].0 != k
  {
    if d[0].0 == k then 0
    else
      assert Keys(d) == [d[0].0] + Keys(d[1..]);
      1 + IndexOf(d[1..], k)
  }

  /** `d.get(k)`: the value stored under `k`, if any. */
  function Get<V>(d: Entries<V>, k: string): (r: Option<V>)
    ensures r.Some? <==> k in Keys(d)
  {
    if k in Keys(d) then Some(d[IndexOf(d, k)].1) else None
  }

  /** `d[k] = v`. */
  function Put<V(==)>(d: Entries<V>, k: string, v: V): (r: Entries<V>)
    ensures |r| == |d| || |r| == |d| + 1
    ensures forall e | e in r :: e in d || e == (k, v)
  {
    if k in Keys(d) then d[IndexOf(d, k) := (k, v)] else d + [(k, v)]
  }

  /** The same dict seen as a Dafny map (order forgotten). */
  function ToMap<V>(d: Entries<V>): (m: map<string, V>)
    ensures forall k :: k in m <==> k in Keys(d)
  {
    map k | k in Keys(d) :: Get(d, k).value
  }

  /** The set of values stored in `d`. */
  function ValuesOf<V>(d: Entries<V>): seq<V>
  {
    seq(|d|, i requires 0 <= i < |d| => d[i].1)
  }

  lemma GetAt<V>(d: Entries<V>, i: nat)
    requires UniqueKeys(d) && i < |d|
    ensures Get(d, d[i].0) == Some(d[i].1)
  {
    assert Keys(d)[i] == d[i].0;
    var j := IndexOf(d, d[i].0);
    assert !(j < i) && !(i < j);
  }

  /** The first entry is always found under its own key. */
  lemma GetFirst<V>(d: Entries<V>)
    requires d != []
    ensures Get(d, d[0].0) == Some(d[0].1)
  {
    assert Keys(d)[0] == d[0].0;
  }

  lemma GetIsStored<V>(d: Entries<V>, k: string)
    requires k in Keys(d)
    ensures Get(d, k).value in ValuesOf(d)
  {
    assert ValuesOf(d)[IndexOf(d, k)] == Get(d, k).value;
  }

  /** Assignment: `k` now holds `v`, every other key keeps its value, an
      existing key keeps its place and a new key goes last. */
  lemma PutSpec<V>(d: Entries<V>, k: string, v: V)
    ensures Get(Put(d, k, v), k) == Some(v)
    ensures forall k' | k' != k :: Get(Put(d, k, v), k') == Get(d, k')
    ensures k in Keys(d) ==> Keys(Put(d, k, v)) == Keys(d)
    ensures k !in Keys(d) ==> Keys(Put(d, k, v)) == Keys(d) + [k]
    ensures UniqueKeys(d) ==> UniqueKeys(Put(d, k, v))
  {
    var r := Put(d, k, v);
    if k in Keys(d) {
      var i := IndexOf(d, k);
      assert Keys(r) == Keys(d);
      assert k in Keys(r);
      assert IndexOf(r, k) == i by {
        var j := IndexOf(r, k);
        assert !(j < i);
        assert r[i].0 == k;
        assert !(i < j);
      }
      forall k' | k' != k
        ensures Get(r, k') == Get(d, k')
      {
        if k' in Keys(d) {
          var a, b := IndexOf(d, k'), IndexOf(r, k');
          assert a != i && b != i;
          assert r[a].0 == k';
          assert d[b].0 == k';
          assert !(a < b) && !(b < a);
        }
      }
    } else {
      assert Keys(r) == Keys(d) + [k];
      var j := IndexOf(r, k);
      forall i | 0 <= i < |d| ensures r[i].0 != k {
        assert r[i] == d[i] && Keys(d)[i] == d[i].0;
      }
      assert j == |d|;
      forall k' | k' != k
        ensures Get(r, k') == Get(d, k')
      {
        if k' in Keys(d) {
          var a, b := IndexOf(d, k'), IndexOf(r, k');
          assert r[a].0 == k';
          assert b < |d|;
          assert d[b].0 == k';
          assert !(a < b) && !(b < a);
        }
      }
    }
  }

  lemma ToMapPut<V>(d: Entries<V>, k: string, v: V)
    ensures ToMap(Put(d, k, v)) == ToMap(d)[k := v]
  {
    PutSpec(d, k, v);
    var l, r := ToMap(Put(d, k, v)), ToMap(d)[k := v];
    assert l.Keys == r.Keys;
    forall k' | k' in l ensures l[k'] == r[k'] {
    }
  }
}
