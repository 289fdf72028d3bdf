/** The key normaliser (`convert_config`): drop entries whose value is None,
    so that defaults apply, and spell keys as Python field names. */
module Normalize {
  import opened Dicts
  import opened Values

  /** `s.replace(a, b)` for single characters. */
  function Replace(s: string, a: char, b: char): (r: string)
    ensures |r| == |s| && (a != b ==> a !in r)
  {
    seq(|s|, i requires 0 <= i < |s| => if s[i] == a then b else s[i])
  }

  /** `k.replace("-", "_").replace(".", "_")`. */
  function NormalizeKey(k: string): (r: string)
    ensures |r| == |k| && '-' !in r && '.' !in r
  {
    Replace(Replace(k, '-', '_'), '.', '_')
  }

  /** Each hyphen and dot becomes an underscore; every other character stays. */
  lemma NormalizeKeyAt(k: string, i: nat)
    requires i < |k|
    ensures NormalizeKey(k)[i] == if k[i] in "-." then '_' else k[i]
  {
  }

  /** `convert_config(items)`: the dict comprehension, entry by entry. */
  function Converted(items: Entries<Value>): (r: Entries<Value>)
    ensures forall i | 0 <= i < |r| :: r[i].1 != Null && '-' !in r[i].0 && '.' !in r[i].0
    ensures forall e | e in r :: e.1 in ValuesOf(items)
  {
    if items == [] then []
    else
      var n := |items| - 1;
      var prev := Converted(items[..n]);
      assert forall e | e in ValuesOf(items[..n]) :: e in ValuesOf(items) by {
        assert ValuesOf(items[..n]) == ValuesOf(items)[..n];
      }
      assert ValuesOf(items)[n] == items[n].1;
      if items[n].1 == Null then prev else Put(prev, NormalizeKey(items[n].0), items[n].1)
  }

  /** Entry `e` survives conversion, under key `k`. */
  predicate SurvivesAs(e: (string, Value), k: string)
  {
    e.1 != Null && NormalizeKey(e.0) == k
  }

  /** Like every Python dict, the converted one holds each key once. */
  lemma {:induction false} ConvertedUnique(items: Entries<Value>)
    ensures UniqueKeys(Converted(items))
  {
    if items != [] {
      var n := |items| - 1;
      ConvertedUnique(items[..n]);
      if items[n].1 != Null {
        PutSpec(Converted(items[..n]), NormalizeKey(items[n].0), items[n].1);
      }
    }
  }

  /** A converted dict holds a key exactly when some non-None entry
      normalises to it. */
  lemma {:induction false} ConvertedKeys(items: Entries<Value>, k: string)
    ensures k in Keys(Converted(items)) <==> exists e | e in items :: SurvivesAs(e, k)
  {
    if items != [] {
      var n := |items| - 1;
      var pre, last := items[..n], items[n];
      assert items == pre + [last];
      var prev := Converted(pre);
      ConvertedKeys(pre, k);
      if last.1 != Null {
        var nk := NormalizeKey(last.0);
        assert Converted(items) == Put(prev, nk, last.1);
        PutSpec(prev, nk, last.1);
        assert k in Keys(Converted(items)) <==> k in Keys(prev) || k == nk;
      } else {
        assert Converted(items) == prev;
      }
      assert (exists e | e in items :: SurvivesAs(e, k)) <==>
        (exists e | e in pre :: SurvivesAs(e, k)) || SurvivesAs(last, k);
    }
  }

  /** When several entries normalise to the same key, the last one's value
      is kept (the dict comprehension assigns in order). */
  lemma {:induction false} ConvertedValue(items: Entries<Value>, k: string, i: nat)
    requires i < |items| && SurvivesAs(items[i], k)
    requires forall j | i < j < |items| :: !SurvivesAs(items[j], k)
    ensures Get(Converted(items), k) == Some(items[i].1)
  {
    var n := |items| - 1;
    var pre, last := items[..n], items[n];
    var prev := Converted(pre);
    if i == n {
      assert Converted(items) == Put(prev, k, last.1);
      PutSpec(prev, k, last.1);
    } else {
      assert forall j | 0 <= j < n :: pre[j] == items[j];
      ConvertedValue(pre, k, i);
      if last.1 != Null {
        var nk := NormalizeKey(last.0);
        assert nk != k;
        assert Converted(items) == Put(prev, nk, last.1);
        PutSpec(prev, nk, last.1);
      } else {
        assert Converted(items) == prev;
      }
    }
  }

  /** Conversion never deepens a value, so the loader may recurse into the
      converted values. */
  lemma ConvertedDepth(items: Entries<Value>, bound: nat)
    requires DepthBelow(items, bound)
    ensures DepthBelow(Converted(items), bound)
  {
  }

  /** `some-field` and `some.field` both reach field `some_field`, and a
      None value is as good as an absent key. */
  lemma ConvertedExamples(v: Value)
    requires v != Null
    ensures Converted([("some-field", v)]) == [("some_field", v)]
    ensures Converted([("some.field", v)]) == [("some_field", v)]
    ensures Converted([("count", Null)]) == []
  {
    assert NormalizeKey("some-field") == "some_field";
    assert NormalizeKey("some.field") == "some_field";
    assert [("some-field", v)][..0] == [];
    assert [("some.field", v)][..0] == [];
    assert [("count", Null)][..0] == [];
  }

  /** A dict already in normal form (no None values, no `-` or `.` in its
      keys) comes back unchanged. */
  lemma {:induction false} ConvertedNormal(items: Entries<Value>)
    requires UniqueKeys(items)
    requires forall i | 0 <= i < |items| :: items[i].1 != Null && '-' !in items[i].0 && '.' !in items[i].0
    ensures Converted(items) == items
  {
    if items != [] {
      var n := |items| - 1;
      var pre := items[..n];
      ConvertedNormal(pre);
      var k := items[n].0;
      assert NormalizeKey(k) == k by {
        forall i | 0 <= i < |k| ensures NormalizeKey(k)[i] == k[i] {
          NormalizeKeyAt(k, i);
        }
      }
      assert k !in Keys(pre) by {
        forall i | 0 <= i < |pre| ensures Keys(pre)[i] != k {
          assert pre[i] == items[i];
        }
      }
      assert pre + [items[n]] == items;
    }
  }

  /** Normalising twice is normalising once. */
  lemma ConvertedIdempotent(items: Entries<Value>)
    ensures Converted(Converted(items)) == Converted(items)
  {
    ConvertedUnique(items);
    ConvertedNormal(Converted(items));
  }
}
