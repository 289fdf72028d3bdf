/** What the resolver promises: the field-by-field fill policy of
    `load_recursive`, the filter of `ensure_types`, the shape of lists, dicts
    and unions of custom classes, and the fields of the instances built. */
module ResolverFacts {
  import opened Dicts
  import opened Values
  import opened Schema
  import opened Normalize
  import opened Resolver

  lemma UniqueCons<V>(d: Entries<V>)
    requires d != [] && UniqueKeys(d)
    ensures UniqueKeys(d[1..]) && d[0].0 !in Keys(d[1..])
    ensures Keys(d) == [d[0].0] + Keys(d[1..])
  {
    assert forall i | 1 <= i < |d| :: d[1..][i - 1] == d[i];
  }

  /** The keys of `d[1..]`, not yet in `acc`, stay out of `Put(acc, d[0].0, v)`. */
  lemma FreshAfterPut<V, W>(d: Entries<V>, acc: Entries<W>, v: W)
    requires d != [] && UniqueKeys(d)
    requires forall i | 0 <= i < |d| :: d[i].0 !in Keys(acc)
    ensures forall i | 0 <= i < |d[1..]| :: d[1..][i].0 !in Keys(Put(acc, d[0].0, v))
    ensures Keys(Put(acc, d[0].0, v)) == Keys(acc) + [d[0].0]
  {
    PutSpec(acc, d[0].0, v);
    forall i | 0 <= i < |d[1..]| ensures d[1..][i].0 !in Keys(Put(acc, d[0].0, v)) {
      assert d[1..][i] == d[i + 1];
    }
  }

  // ---------------------------------------------------------------------
  // ensure_types

  /** The annotated keys that `data` holds, in annotation order. */
  function Present(data: Entries<Value>, anns: Entries<TypeDesc>): seq<string>
  {
    if anns == [] then []
    else (if anns[0].0 in Keys(data) then [anns[0].0] else []) + Present(data, anns[1..])
  }

  /** Every annotated key that `data` holds has a value of its annotated type. */
  predicate Conforms(env: Env, data: Entries<Value>, anns: Entries<TypeDesc>)
  {
    forall i | 0 <= i < |anns| && anns[i].0 in Keys(data) ::
      env.matches(Get(data, anns[i].0).value, anns[i].1)
  }

  lemma ConformsCons(env: Env, data: Entries<Value>, anns: Entries<TypeDesc>)
    requires anns != []
    ensures Conforms(env, data, anns) <==>
      (anns[0].0 in Keys(data) ==> env.matches(Get(data, anns[0].0).value, anns[0].1)) &&
      Conforms(env, data, anns[1..])
  {
    assert forall i | 1 <= i < |anns| :: anns[1..][i - 1] == anns[i];
  }

  lemma {:induction false} PresentAll(data: Entries<Value>, anns: Entries<TypeDesc>)
    requires forall i | 0 <= i < |anns| :: anns[i].0 in Keys(data)
    ensures Present(data, anns) == Keys(anns)
  {
    if anns != [] {
      assert forall i | 1 <= i < |anns| :: anns[1..][i - 1] == anns[i];
      PresentAll(data, anns[1..]);
      assert Keys(anns) == [anns[0].0] + Keys(anns[1..]);
    }
  }

  /** `ensure_types` succeeds exactly when every annotated key present has
      its annotated type. */
  lemma {:induction false} ValidatedOk(env: Env, data: Entries<Value>, anns: Entries<TypeDesc>, acc: Entries<Value>)
    ensures Validated(env, data, anns, acc).Ok? <==> Conforms(env, data, anns)
  {
    if anns != [] {
      var k := anns[0].0;
      ConformsCons(env, data, anns);
      var acc' := if k in Keys(data) then Put(acc, k, Get(data, k).value) else acc;
      ValidatedOk(env, data, anns[1..], acc');
    }
  }

  /** On success, `ensure_types` keeps the annotated keys present in the
      data, in annotation order, after the entries already collected. */
  lemma {:induction false} ValidatedKeys(env: Env, data: Entries<Value>, anns: Entries<TypeDesc>, acc: Entries<Value>)
    requires UniqueKeys(anns) && UniqueKeys(acc)
    requires forall i | 0 <= i < |anns| :: anns[i].0 !in Keys(acc)
    requires Validated(env, data, anns, acc).Ok?
    ensures var r := Validated(env, data, anns, acc).value;
      UniqueKeys(r) && Keys(r) == Keys(acc) + Present(data, anns)
  {
    if anns != [] {
      var k, tail := anns[0].0, anns[1..];
      UniqueCons(anns);
      if k !in Keys(data) {
        forall i | 0 <= i < |tail| ensures tail[i].0 !in Keys(acc) {
          assert tail[i] == anns[i + 1];
        }
        ValidatedKeys(env, data, tail, acc);
      } else {
        var v := Get(data, k).value;
        PutSpec(acc, k, v);
        FreshAfterPut(anns, acc, v);
        ValidatedKeys(env, data, tail, Put(acc, k, v));
        assert Keys(acc) + [k] + Present(data, tail) == Keys(acc) + ([k] + Present(data, tail));
      }
    }
  }

  /** ... and their values unchanged, leaving the entries already collected
      as they were. */
  lemma {:induction false} ValidatedValues(env: Env, data: Entries<Value>, anns: Entries<TypeDesc>, acc: Entries<Value>)
    requires UniqueKeys(anns)
    requires forall i | 0 <= i < |anns| :: anns[i].0 !in Keys(acc)
    requires Validated(env, data, anns, acc).Ok?
    ensures var r := Validated(env, data, anns, acc).value;
      (forall k | k in Keys(acc) :: Get(r, k) == Get(acc, k)) &&
      (forall k | k in Present(data, anns) :: Get(r, k) == Get(data, k))
  {
    if anns != [] {
      var k, tail := anns[0].0, anns[1..];
      UniqueCons(anns);
      var r := Validated(env, data, anns, acc).value;
      if k !in Keys(data) {
        forall i | 0 <= i < |tail| ensures tail[i].0 !in Keys(acc) {
          assert tail[i] == anns[i + 1];
        }
        ValidatedValues(env, data, tail, acc);
      } else {
        var v := Get(data, k).value;
        var acc' := Put(acc, k, v);
        PutSpec(acc, k, v);
        FreshAfterPut(anns, acc, v);
        ValidatedValues(env, data, tail, acc');
        forall k' | k' in Keys(acc) ensures Get(r, k') == Get(acc, k') {
          assert k' in Keys(acc');
        }
        forall k' | k' in Present(data, anns) ensures Get(r, k') == Get(data, k') {
          if k' == k {
            assert k in Keys(acc');
          }
        }
      }
    }
  }

  /** When the data holds every annotated key, a successful `ensure_types`
      keeps exactly the annotated keys, each with its value from the data,
      which has the annotated type. */
  lemma ValidatedAll(env: Env, data: Entries<Value>, anns: Entries<TypeDesc>)
    requires UniqueKeys(anns) && forall i | 0 <= i < |anns| :: anns[i].0 in Keys(data)
    requires Validated(env, data, anns, []).Ok?
    ensures var r := Validated(env, data, anns, []).value;
      UniqueKeys(r) && Keys(r) == Keys(anns) &&
      forall i | 0 <= i < |anns| ::
        Get(r, anns[i].0) == Get(data, anns[i].0) && env.matches(Get(r, anns[i].0).value, anns[i].1)
  {
    ValidatedOk(env, data, anns, []);
    PresentAll(data, anns);
    ValidatedKeys(env, data, anns, []);
    ValidatedValues(env, data, anns, []);
    var r := Validated(env, data, anns, []).value;
    assert Keys(r) == Keys(anns);
    forall i | 0 <= i < |anns|
      ensures Get(r, anns[i].0) == Get(data, anns[i].0) && env.matches(Get(r, anns[i].0).value, anns[i].1)
    {
      assert Keys(anns)[i] == anns[i].0;
    }
  }

  /** When `ensure_types` fails, the error names the first annotated key,
      in annotation order, whose value does not have its annotated type. */
  lemma {:induction false} ValidatedFirstMismatch(env: Env, data: Entries<Value>, anns: Entries<TypeDesc>, acc: Entries<Value>)
    returns (i: nat)
    requires Validated(env, data, anns, acc).Err?
    ensures i < |anns| && anns[i].0 in Keys(data)
    ensures !env.matches(Get(data, anns[i].0).value, anns[i].1)
    ensures Validated(env, data, anns, acc).error == InvalidType(anns[i].0, Get(data, anns[i].0).value, anns[i].1)
    ensures Conforms(env, data, anns[..i])
  {
    var k, t := anns[0].0, anns[0].1;
    if k in Keys(data) && !env.matches(Get(data, k).value, t) {
      i := 0;
    } else {
      var acc' := if k in Keys(data) then Put(acc, k, Get(data, k).value) else acc;
      var j := ValidatedFirstMismatch(env, data, anns[1..], acc');
      i := j + 1;
      assert anns[1..][j] == anns[i];
      assert anns[..i][0] == anns[0] && anns[..i][1..] == anns[1..][..j];
      ConformsCons(env, data, anns[..i]);
    }
  }

  // ---------------------------------------------------------------------
  // load_recursive

  /** Every annotated field resolves. */
  predicate AllResolve(env: Env, cls: string, data: Entries<Value>, anns: Entries<TypeDesc>, bound: nat)
    requires DepthBelow(data, bound)
  {
    forall i | 0 <= i < |anns| :: ResolvedField(env, cls, data, anns[i].0, anns[i].1, bound).Ok?
  }

  /** Every annotated field resolves, and `r` holds it under its key. */
  predicate FieldsResolved(env: Env, cls: string, data: Entries<Value>, anns: Entries<TypeDesc>, bound: nat,
                           r: Entries<Value>)
    requires DepthBelow(data, bound)
  {
    forall i | 0 <= i < |anns| :: ResolvedField(env, cls, data, anns[i].0, anns[i].1, bound).Ok? &&
      Get(r, anns[i].0) == Some(ResolvedField(env, cls, data, anns[i].0, anns[i].1, bound).value)
  }

  lemma AllResolveCons(env: Env, cls: string, data: Entries<Value>, anns: Entries<TypeDesc>, bound: nat)
    requires DepthBelow(data, bound) && anns != []
    ensures AllResolve(env, cls, data, anns, bound) <==>
      ResolvedField(env, cls, data, anns[0].0, anns[0].1, bound).Ok? && AllResolve(env, cls, data, anns[1..], bound)
  {
    assert forall i | 1 <= i < |anns| :: anns[1..][i - 1] == anns[i];
  }

  lemma FieldsResolvedCons(env: Env, cls: string, data: Entries<Value>, anns: Entries<TypeDesc>, bound: nat,
                           r: Entries<Value>)
    requires DepthBelow(data, bound) && anns != []
    ensures FieldsResolved(env, cls, data, anns, bound, r) <==>
      ResolvedField(env, cls, data, anns[0].0, anns[0].1, bound).Ok? &&
      Get(r, anns[0].0) == Some(ResolvedField(env, cls, data, anns[0].0, anns[0].1, bound).value) &&
      FieldsResolved(env, cls, data, anns[1..], bound, r)
  {
    assert forall i | 1 <= i < |anns| :: anns[1..][i - 1] == anns[i];
  }

  lemma AllResolvePrefix(env: Env, cls: string, data: Entries<Value>, anns: Entries<TypeDesc>, bound: nat, n: nat)
    requires DepthBelow(data, bound) && n <= |anns|
    ensures AllResolve(env, cls, data, anns[..n], bound) <==>
      forall m | 0 <= m < n :: ResolvedField(env, cls, data, anns[m].0, anns[m].1, bound).Ok?
  {
    assert forall m | 0 <= m < n :: anns[..n][m] == anns[m];
  }

  /** `load_recursive` succeeds exactly when every annotated field resolves. */
  lemma {:induction false} ResolvedOk(env: Env, cls: string, data: Entries<Value>, anns: Entries<TypeDesc>,
                                      bound: nat, acc: Entries<Value>)
    requires DepthBelow(data, bound)
    ensures Resolved(env, cls, data, anns, bound, acc).Ok? <==> AllResolve(env, cls, data, anns, bound)
  {
    if anns != [] {
      AllResolveCons(env, cls, data, anns, bound);
      var f := ResolvedField(env, cls, data, anns[0].0, anns[0].1, bound);
      if f.Ok? {
        ResolvedOk(env, cls, data, anns[1..], bound, Put(acc, anns[0].0, f.value));
      }
    }
  }

  /** On success, `load_recursive` holds every annotation key, in
      annotation order, after the keys already collected. */
  lemma {:induction false} ResolvedKeys(env: Env, cls: string, data: Entries<Value>, anns: Entries<TypeDesc>,
                                        bound: nat, acc: Entries<Value>)
    requires DepthBelow(data, bound)
    requires UniqueKeys(anns) && UniqueKeys(acc)
    requires forall i | 0 <= i < |anns| :: anns[i].0 !in Keys(acc)
    requires Resolved(env, cls, data, anns, bound, acc).Ok?
    ensures var r := Resolved(env, cls, data, anns, bound, acc).value;
      UniqueKeys(r) && Keys(r) == Keys(acc) + Keys(anns)
  {
    if anns != [] {
      var k := anns[0].0;
      UniqueCons(anns);
      var f := ResolvedField(env, cls, data, k, anns[0].1, bound);
      assert f.Ok?;
      PutSpec(acc, k, f.value);
      FreshAfterPut(anns, acc, f.value);
      ResolvedKeys(env, cls, data, anns[1..], bound, Put(acc, k, f.value));
      assert Keys(acc) + [k] + Keys(anns[1..]) == Keys(acc) + ([k] + Keys(anns[1..]));
    }
  }

  /** ... each bound to that field's resolution, the keys already collected
      keeping their values. */
  lemma {:induction false} ResolvedValues(env: Env, cls: string, data: Entries<Value>, anns: Entries<TypeDesc>,
                                          bound: nat, acc: Entries<Value>)
    requires DepthBelow(data, bound)
    requires UniqueKeys(anns)
    requires forall i | 0 <= i < |anns| :: anns[i].0 !in Keys(acc)
    requires Resolved(env, cls, data, anns, bound, acc).Ok?
    ensures var r := Resolved(env, cls, data, anns, bound, acc).value;
      (forall k | k in Keys(acc) :: Get(r, k) == Get(acc, k)) && FieldsResolved(env, cls, data, anns, bound, r)
  {
    if anns != [] {
      var k := anns[0].0;
      UniqueCons(anns);
      var f := ResolvedField(env, cls, data, k, anns[0].1, bound);
      assert f.Ok?;
      var acc' := Put(acc, k, f.value);
      PutSpec(acc, k, f.value);
      FreshAfterPut(anns, acc, f.value);
      ResolvedValues(env, cls, data, anns[1..], bound, acc');
      var r := Resolved(env, cls, data, anns[1..], bound, acc').value;
      forall k' | k' in Keys(acc) ensures Get(r, k') == Get(acc, k') {
        assert k' in Keys(acc');
      }
      assert k in Keys(acc');
      FieldsResolvedCons(env, cls, data, anns, bound, r);
    }
  }

  /** When `load_recursive` fails, it fails with the error of the first
      annotated field, in annotation order, that does not resolve. */
  lemma {:induction false} ResolvedFirstError(env: Env, cls: string, data: Entries<Value>, anns: Entries<TypeDesc>,
                                              bound: nat, acc: Entries<Value>) returns (i: nat)
    requires DepthBelow(data, bound)
    requires Resolved(env, cls, data, anns, bound, acc).Err?
    ensures i < |anns|
    ensures ResolvedField(env, cls, data, anns[i].0, anns[i].1, bound) ==
      Err(Resolved(env, cls, data, anns, bound, acc).error)
    ensures AllResolve(env, cls, data, anns[..i], bound)
  {
    var f := ResolvedField(env, cls, data, anns[0].0, anns[0].1, bound);
    if f.Err? {
      i := 0;
    } else {
      var j := ResolvedFirstError(env, cls, data, anns[1..], bound, Put(acc, anns[0].0, f.value));
      i := j + 1;
      assert anns[1..][j] == anns[i];
      assert anns[..i][0] == anns[0] && anns[..i][1..] == anns[1..][..j];
      AllResolveCons(env, cls, data, anns[..i], bound);
    }
  }

  /** The fill policy of `load_recursive`: a key present in the data is
      resolved from its value; an absent key takes the class's own default,
      else None when the annotation is optional. */
  lemma LoadRecursivePolicy(env: Env, cls: string, data: Entries<Value>, anns: Entries<TypeDesc>, bound: nat)
    requires DepthBelow(data, bound) && UniqueKeys(anns)
    requires Resolved(env, cls, data, anns, bound, []).Ok?
    ensures var r := Resolved(env, cls, data, anns, bound, []).value;
      Keys(r) == Keys(anns) &&
      forall i | 0 <= i < |anns| :: Get(r, anns[i].0).Some? &&
        (anns[i].0 in Keys(data) ==>
          ResolvedValue(env, anns[i].1, Get(data, anns[i].0).value) == Ok(Get(r, anns[i].0).value)) &&
        (anns[i].0 !in Keys(data) && anns[i].0 in env.Decl(cls).defaults ==>
          Get(r, anns[i].0).value == env.Decl(cls).defaults[anns[i].0]) &&
        (anns[i].0 !in Keys(data) && anns[i].0 !in env.Decl(cls).defaults ==>
          IsOptional(anns[i].1) && Get(r, anns[i].0).value == Null)
  {
    ResolvedOk(env, cls, data, anns, bound, []);
    ResolvedKeys(env, cls, data, anns, bound, []);
    ResolvedValues(env, cls, data, anns, bound, []);
  }

  /** An annotated key that is absent, has no default on the class itself and
      is not optional raises MissingKey, once every earlier field resolved. */
  lemma MissingKeyRaised(env: Env, cls: string, data: Entries<Value>, anns: Entries<TypeDesc>, bound: nat, i: nat)
    requires DepthBelow(data, bound) && UniqueKeys(anns) && i < |anns|
    requires anns[i].0 !in Keys(data) && anns[i].0 !in env.Decl(cls).defaults && !IsOptional(anns[i].1)
    requires forall j | 0 <= j < i :: ResolvedField(env, cls, data, anns[j].0, anns[j].1, bound).Ok?
    ensures Resolved(env, cls, data, anns, bound, []) == Err(MissingKey(anns[i].0, cls, anns[i].1))
  {
    ResolvedOk(env, cls, data, anns, bound, []);
    var j := ResolvedFirstError(env, cls, data, anns, bound, []);
    assert !(j < i);
    AllResolvePrefix(env, cls, data, anns, bound, j);
    assert !(i < j);
  }

  /** Defaults are read from the class's own `__dict__` only: a default
      declared by an ancestor does not fill an absent required field. */
  lemma InheritedDefaultIgnored(env: Env, cls: string, ancestor: string, data: Entries<Value>,
                                k: string, t: TypeDesc, bound: nat)
    requires DepthBelow(data, bound)
    requires ancestor in env.Decl(cls).ancestors && k in env.Decl(ancestor).defaults
    requires k !in env.Decl(cls).defaults && k !in Keys(data) && !IsOptional(t)
    ensures ResolvedField(env, cls, data, k, t, bound) == Err(MissingKey(k, cls, t))
  {
  }

  // ---------------------------------------------------------------------
  // list[C], dict[K, C], typing.Union

  /** Every element loads. */
  predicate AllLoad(env: Env, cls: string, items: seq<Value>)
  {
    forall i | 0 <= i < |items| :: Loaded(env, cls, items[i], map[]).Ok?
  }

  /** `out` holds, position by position, the instances loaded from `items`. */
  predicate LoadsTo(env: Env, cls: string, items: seq<Value>, out: seq<Value>)
  {
    |out| == |items| && forall i | 0 <= i < |items| :: Loaded(env, cls, items[i], map[]) == Ok(out[i])
  }

  lemma AllLoadCons(env: Env, cls: string, items: seq<Value>)
    requires items != []
    ensures AllLoad(env, cls, items) <==> Loaded(env, cls, items[0], map[]).Ok? && AllLoad(env, cls, items[1..])
  {
    assert forall i | 1 <= i < |items| :: items[1..][i - 1] == items[i];
  }

  lemma LoadsToCons(env: Env, cls: string, items: seq<Value>, out: seq<Value>)
    requires items != [] && out != []
    ensures LoadsTo(env, cls, items, out) <==>
      Loaded(env, cls, items[0], map[]) == Ok(out[0]) && LoadsTo(env, cls, items[1..], out[1..])
  {
    assert forall i | 1 <= i < |items| :: items[1..][i - 1] == items[i];
    assert forall i | 1 <= i < |out| :: out[1..][i - 1] == out[i];
  }

  /** The list comprehension succeeds exactly when every element loads. */
  lemma {:induction false} LoadedEachOk(env: Env, cls: string, items: seq<Value>, bound: nat, acc: seq<Value>)
    requires forall i | 0 <= i < |items| :: Depth(items[i]) <= bound
    ensures LoadedEach(env, cls, items, bound, acc).Ok? <==> AllLoad(env, cls, items)
  {
    if items != [] {
      AllLoadCons(env, cls, items);
      var o := Loaded(env, cls, items[0], map[]);
      if o.Ok? {
        LoadedEachOk(env, cls, items[1..], bound, acc + [o.value]);
      }
    }
  }

  /** On success, the instances follow the ones already built, in order. */
  lemma {:induction false} LoadedEachSpec(env: Env, cls: string, items: seq<Value>, bound: nat, acc: seq<Value>)
    requires forall i | 0 <= i < |items| :: Depth(items[i]) <= bound
    requires LoadedEach(env, cls, items, bound, acc).Ok?
    ensures var r := LoadedEach(env, cls, items, bound, acc).value;
      |acc| <= |r| && r[..|acc|] == acc && LoadsTo(env, cls, items, r[|acc|..])
  {
    if items == [] {
      assert acc[|acc|..] == [];
    } else {
      var o := Loaded(env, cls, items[0], map[]);
      assert o.Ok?;
      var acc' := acc + [o.value];
      LoadedEachSpec(env, cls, items[1..], bound, acc');
      var r := LoadedEach(env, cls, items[1..], bound, acc').value;
      assert r[..|acc|] == r[..|acc'|][..|acc|];
      assert r[|acc|..][0] == acc'[|acc|];
      assert r[|acc|..][1..] == r[|acc'|..];
      LoadsToCons(env, cls, items, r[|acc|..]);
    }
  }

  /** `list[C]` over a list: one instance per element, in order, each
      loaded from its element; it fails exactly when an element does. */
  lemma ListOfRecords(env: Env, name: string, items: seq<Value>)
    ensures ResolvedValue(env, ListOf(Record(name)), List(items)).Ok? <==>
      forall i | 0 <= i < |items| :: Loaded(env, name, items[i], map[]).Ok?
    ensures ResolvedValue(env, ListOf(Record(name)), List(items)).Ok? ==>
      var r := ResolvedValue(env, ListOf(Record(name)), List(items)).value;
      r.List? && |r.items| == |items| &&
      forall i | 0 <= i < |items| :: Loaded(env, name, items[i], map[]) == Ok(r.items[i])
  {
    LoadedEachOk(env, name, items, Depth(List(items)), []);
    if ResolvedValue(env, ListOf(Record(name)), List(items)).Ok? {
      LoadedEachSpec(env, name, items, Depth(List(items)), []);
      var r := LoadedEach(env, name, items, Depth(List(items)), []).value;
      assert r[0..] == r;
    }
  }

  /** `list[C]` over a dict iterates its keys, so a non-empty dict fails on
      its first key; a value that is not iterable fails at once. */
  lemma ListOfRecordsQuirks(env: Env, name: string, entries: Entries<Value>, v: Value)
    requires entries != []
    requires v.Int? || v.Bool? || v.Scalar? || v.Null? || v.Obj?
    ensures ResolvedValue(env, ListOf(Record(name)), Table(entries)) == Err(NotAMapping(Str(entries[0].0)))
    ensures ResolvedValue(env, ListOf(Record(name)), v) == Err(NotIterable(v))
    ensures ResolvedValue(env, ListOf(Record(name)), Table([])) == Ok(List([]))
  {
    var keys := Iterated(Table(entries)).value;
    assert keys[0] == Str(entries[0].0);
    assert Loaded(env, name, keys[0], map[]) == Err(NotAMapping(Str(entries[0].0)));
  }

  /** Every value of `entries` loads, and `r` holds its instance under its key. */
  predicate ValuesLoaded(env: Env, cls: string, entries: Entries<Value>, r: Entries<Value>)
  {
    forall i | 0 <= i < |entries| :: Loaded(env, cls, entries[i].1, map[]).Ok? &&
      Get(r, entries[i].0) == Some(Loaded(env, cls, entries[i].1, map[]).value)
  }

  lemma ValuesOfCons(entries: Entries<Value>)
    requires entries != []
    ensures ValuesOf(entries)[0] == entries[0].1 && ValuesOf(entries)[1..] == ValuesOf(entries[1..])
  {
  }

  lemma ValuesLoadedCons(env: Env, cls: string, entries: Entries<Value>, r: Entries<Value>)
    requires entries != []
    ensures ValuesLoaded(env, cls, entries, r) <==>
      Loaded(env, cls, entries[0].1, map[]).Ok? &&
      Get(r, entries[0].0) == Some(Loaded(env, cls, entries[0].1, map[]).value) &&
      ValuesLoaded(env, cls, entries[1..], r)
  {
    assert forall i | 1 <= i < |entries| :: entries[1..][i - 1] == entries[i];
  }

  /** The dict comprehension succeeds exactly when every value loads. */
  lemma {:induction false} LoadedValuesOk(env: Env, cls: string, entries: Entries<Value>, bound: nat, acc: Entries<Value>)
    requires DepthBelow(entries, bound)
    ensures LoadedValues(env, cls, entries, bound, acc).Ok? <==> AllLoad(env, cls, ValuesOf(entries))
  {
    if entries != [] {
      ValuesOfCons(entries);
      AllLoadCons(env, cls, ValuesOf(entries));
      var o := Loaded(env, cls, entries[0].1, map[]);
      if o.Ok? {
        LoadedValuesOk(env, cls, entries[1..], bound, Put(acc, entries[0].0, o.value));
      }
    }
  }

  /** On success, the keys follow those already collected, in order. */
  lemma {:induction false} LoadedValuesKeys(env: Env, cls: string, entries: Entries<Value>, bound: nat, acc: Entries<Value>)
    requires DepthBelow(entries, bound)
    requires UniqueKeys(entries) && UniqueKeys(acc)
    requires forall i | 0 <= i < |entries| :: entries[i].0 !in Keys(acc)
    requires LoadedValues(env, cls, entries, bound, acc).Ok?
    ensures var r := LoadedValues(env, cls, entries, bound, acc).value;
      UniqueKeys(r) && Keys(r) == Keys(acc) + Keys(entries)
  {
    if entries != [] {
      var k := entries[0].0;
      UniqueCons(entries);
      var o := Loaded(env, cls, entries[0].1, map[]);
      assert o.Ok?;
      PutSpec(acc, k, o.value);
      FreshAfterPut(entries, acc, o.value);
      LoadedValuesKeys(env, cls, entries[1..], bound, Put(acc, k, o.value));
      assert Keys(acc) + [k] + Keys(entries[1..]) == Keys(acc) + ([k] + Keys(entries[1..]));
    }
  }

  /** ... each key holding the instance loaded from its value, and the
      entries already collected unchanged. */
  lemma {:induction false} LoadedValuesValues(env: Env, cls: string, entries: Entries<Value>, bound: nat, acc: Entries<Value>)
    requires DepthBelow(entries, bound)
    requires UniqueKeys(entries)
    requires forall i | 0 <= i < |entries| :: entries[i].0 !in Keys(acc)
    requires LoadedValues(env, cls, entries, bound, acc).Ok?
    ensures var r := LoadedValues(env, cls, entries, bound, acc).value;
      (forall k | k in Keys(acc) :: Get(r, k) == Get(acc, k)) && ValuesLoaded(env, cls, entries, r)
  {
    if entries != [] {
      var k := entries[0].0;
      UniqueCons(entries);
      var o := Loaded(env, cls, entries[0].1, map[]);
      assert o.Ok?;
      var acc' := Put(acc, k, o.value);
      PutSpec(acc, k, o.value);
      FreshAfterPut(entries, acc, o.value);
      LoadedValuesValues(env, cls, entries[1..], bound, acc');
      var r := LoadedValues(env, cls, entries[1..], bound, acc').value;
      forall k' | k' in Keys(acc) ensures Get(r, k') == Get(acc, k') {
        assert k' in Keys(acc');
      }
      assert k in Keys(acc');
      ValuesLoadedCons(env, cls, entries, r);
    }
  }

  /** `dict[K, C]` over a dict folds `load_into_recurse` over its values. */
  lemma DictUnfold(env: Env, kt: TypeDesc, name: string, entries: Entries<Value>)
    ensures DepthBelow(entries, Depth(Table(entries)))
    ensures var l := LoadedValues(env, name, entries, Depth(Table(entries)), []);
      ResolvedValue(env, DictOf(kt, Record(name)), Table(entries)) ==
        if l.Err? then Err(l.error) else Ok(Table(l.value))
  {
    DepthOfEntries(entries);
  }

  /** `dict[K, C]` over a dict: the same keys in the same order, each value
      an instance loaded from the value it replaces; it fails exactly when
      one of the values does. */
  lemma DictOfRecords(env: Env, kt: TypeDesc, name: string, entries: Entries<Value>)
    requires UniqueKeys(entries)
    ensures ResolvedValue(env, DictOf(kt, Record(name)), Table(entries)).Ok? <==>
      forall i | 0 <= i < |entries| :: Loaded(env, name, entries[i].1, map[]).Ok?
    ensures ResolvedValue(env, DictOf(kt, Record(name)), Table(entries)).Ok? ==>
      var r := ResolvedValue(env, DictOf(kt, Record(name)), Table(entries)).value;
      r.Table? && Keys(r.entries) == Keys(entries) &&
      forall i | 0 <= i < |entries| :: Loaded(env, name, entries[i].1, map[]).Ok? &&
        Get(r.entries, entries[i].0) == Some(Loaded(env, name, entries[i].1, map[]).value)
  {
    DictUnfold(env, kt, name, entries);
    var b := Depth(Table(entries));
    LoadedValuesOk(env, name, entries, b, []);
    assert forall i | 0 <= i < |entries| :: ValuesOf(entries)[i] == entries[i].1;
    if LoadedValues(env, name, entries, b, []).Ok? {
      LoadedValuesKeys(env, name, entries, b, []);
      LoadedValuesValues(env, name, entries, b, []);
    }
  }

  /** `dict[K, C]` over anything but a dict fails. */
  lemma DictOfNonMapping(env: Env, kt: TypeDesc, name: string, v: Value)
    requires !v.Table?
    ensures ResolvedValue(env, DictOf(kt, Record(name)), v) == Err(NotAMapping(v))
  {
  }

  /** A union without custom-class members leaves the value as it is. */
  lemma {:induction false} UnionNoRecord(env: Env, alts: seq<TypeDesc>, v: Value, bound: nat)
    requires Depth(v) <= bound
    requires forall j | 0 <= j < |alts| :: !IsCustomClass(alts[j])
    ensures UnionResolved(env, alts, v, bound) == Ok(v)
  {
    if alts != [] {
      assert forall j | 1 <= j < |alts| :: alts[1..][j - 1] == alts[j];
      UnionNoRecord(env, alts[1..], v, bound);
    }
  }

  /** A union with exactly one custom-class member loads that class. */
  lemma {:induction false} UnionOneRecord(env: Env, alts: seq<TypeDesc>, v: Value, bound: nat, i: nat)
    requires Depth(v) <= bound && i < |alts| && IsCustomClass(alts[i])
    requires forall j | 0 <= j < |alts| && j != i :: !IsCustomClass(alts[j])
    ensures UnionResolved(env, alts, v, bound) == Loaded(env, alts[i].name, v, map[])
  {
    assert forall j | 1 <= j < |alts| :: alts[1..][j - 1] == alts[j];
    if i == 0 {
      var o := Loaded(env, alts[0].name, v, map[]);
      if o.Ok? {
        UnionNoRecord(env, alts[1..], o.value, bound);
      }
    } else {
      UnionOneRecord(env, alts[1..], v, bound, i - 1);
    }
  }

  /** The first member of the union is a custom class and another is: the
      second receives the instance the first built. */
  lemma UnionRecordThenRecord(env: Env, alts: seq<TypeDesc>, v: Value, bound: nat, j: nat, o: Value)
    requires Depth(v) <= bound && 0 < j < |alts| && IsCustomClass(alts[0]) && IsCustomClass(alts[j])
    requires forall m | 0 < m < |alts| && m != j :: !IsCustomClass(alts[m])
    requires Loaded(env, alts[0].name, v, map[]) == Ok(o)
    ensures UnionResolved(env, alts, v, bound) == Err(NotAMapping(o))
  {
    var tail := alts[1..];
    assert forall m | 1 <= m < |alts| :: tail[m - 1] == alts[m];
    assert UnionResolved(env, alts, v, bound) == UnionResolved(env, tail, o, bound);
    UnionOneRecord(env, tail, o, bound, j - 1);
    LoadedNeedsMapping(env, alts[j].name, o, map[]);
  }

  /** A union with two custom-class members hands the instance built for
      the first to the second, which cannot read it as a mapping. */
  lemma UnionTwoRecords(env: Env, alts: seq<TypeDesc>, v: Value, bound: nat, i: nat, j: nat, o: Value)
    requires Depth(v) <= bound && i < j < |alts| && IsCustomClass(alts[i]) && IsCustomClass(alts[j])
    requires forall m | 0 <= m < |alts| && m != i && m != j :: !IsCustomClass(alts[m])
    requires Loaded(env, alts[i].name, v, map[]) == Ok(o)
    ensures UnionResolved(env, alts, v, bound) == Err(NotAMapping(o))
  {
    UnionSkip(env, alts, v, bound, i);
    var rest := alts[i..];
    assert forall m | 0 <= m < |rest| :: rest[m] == alts[i + m];
    UnionRecordThenRecord(env, rest, v, bound, j - i, o);
  }

  /** Members before the first custom class leave the value alone. */
  lemma {:induction false} UnionSkip(env: Env, alts: seq<TypeDesc>, v: Value, bound: nat, i: nat)
    requires Depth(v) <= bound && i <= |alts|
    requires forall m | 0 <= m < i :: !IsCustomClass(alts[m])
    ensures UnionResolved(env, alts, v, bound) == UnionResolved(env, alts[i..], v, bound)
  {
    if i > 0 {
      var tail := alts[1..];
      assert forall m | 0 <= m < i - 1 :: tail[m] == alts[m + 1];
      UnionSkip(env, tail, v, bound, i - 1);
      assert tail[i - 1..] == alts[i..];
    }
  }

  /** `Optional[C]` loads `C` from a present value, while `C | None` and
      nested generics such as `list[list[C]]` pass the value through. */
  lemma UnionsAndNesting(env: Env, name: string, v: Value)
    ensures ResolvedValue(env, Union([Record(name), NoneType], false), v) == Loaded(env, name, v, map[])
    ensures ResolvedValue(env, Union([Record(name), NoneType], true), v) == Ok(v)
    ensures ResolvedValue(env, ListOf(ListOf(Record(name))), v) == Ok(v)
  {
    UnionOneRecord(env, [Record(name), NoneType], v, Depth(v), 0);
  }

  // ---------------------------------------------------------------------
  // _check_and_convert_data and load_into_recurse

  /** The prepared fields: every annotation not excluded, each with a value
      of its annotated type, and nothing else. */
  lemma PreparedFields(env: Env, cls: string, data: Value, except: set<string>)
    requires Prepared(env, cls, data, except).Ok?
    ensures data.Table?
    ensures var r := Prepared(env, cls, data, except).value;
      var anns := AllAnnotations(env, cls, except);
      UniqueKeys(r) && Keys(r) == Keys(anns) &&
      (forall k | k in Keys(r) :: k !in except && DeclaredInMro(env, cls, k)) &&
      (forall i | 0 <= i < |anns| ::
        Get(r, anns[i].0).Some? && env.matches(Get(r, anns[i].0).value, anns[i].1))
  {
    var anns := AllAnnotations(env, cls, except);
    AllAnnotationsKeys(env, cls, except, cls);
    forall k ensures k in Keys(anns) <==> DeclaredInMro(env, cls, k) && k !in except {
      AllAnnotationsKeys(env, cls, except, k);
    }
    var toLoad, b := PreparedSteps(env, cls, data, except);
    ResolvedKeys(env, cls, toLoad, anns, b, []);
    ResolvedValues(env, cls, toLoad, anns, b, []);
    var resolved := Resolved(env, cls, toLoad, anns, b, []).value;
    forall i | 0 <= i < |anns| ensures anns[i].0 in Keys(resolved) {
      assert Keys(anns)[i] == anns[i].0;
    }
    ValidatedAll(env, resolved, anns);
  }

  /** `_check_and_convert_data` step by step: convert, resolve, validate. */
  lemma PreparedSteps(env: Env, cls: string, data: Value, except: set<string>) returns (toLoad: Entries<Value>, b: nat)
    requires Prepared(env, cls, data, except).Ok?
    ensures data.Table? && toLoad == Converted(data.entries) && b == Depth(data) && DepthBelow(toLoad, b)
    ensures var anns := AllAnnotations(env, cls, except);
      Resolved(env, cls, toLoad, anns, b, []).Ok? &&
      Prepared(env, cls, data, except) == Validated(env, Resolved(env, cls, toLoad, anns, b, []).value, anns, [])
  {
    DepthOfEntries(data.entries);
    ConvertedDepth(data.entries, Depth(data));
    toLoad, b := Converted(data.entries), Depth(data);
  }

  /** A dataclass instance holds `init` as given, and every other field its
      class or an ancestor annotates, with a value of the annotated type. */
  lemma DataclassInstance(env: Env, cls: string, data: Value, init: map<string, Value>)
    requires env.Decl(cls).isDataclass && Loaded(env, cls, data, init).Ok?
    ensures var attrs := Loaded(env, cls, data, init).value.attrs;
      var anns := AllAnnotations(env, cls, init.Keys);
      (forall k :: k in attrs <==> k in init || DeclaredInMro(env, cls, k)) &&
      (forall k | k in init :: attrs[k] == init[k]) &&
      (forall i | 0 <= i < |anns| :: anns[i].0 in attrs && env.matches(attrs[anns[i].0], anns[i].1))
  {
    PreparedFields(env, cls, data, init.Keys);
    var anns := AllAnnotations(env, cls, init.Keys);
    var r := Prepared(env, cls, data, init.Keys).value;
    forall k ensures k in Keys(anns) <==> DeclaredInMro(env, cls, k) && k !in init {
      AllAnnotationsKeys(env, cls, init.Keys, k);
    }
    forall i | 0 <= i < |anns| ensures anns[i].0 !in init {
      assert Keys(anns)[i] == anns[i].0;
    }
  }

  /** A plain class keeps every attribute its constructor set, and gains
      every other annotated field, with a value of the annotated type. */
  lemma PlainInstance(env: Env, cls: string, data: Value, init: map<string, Value>)
    requires !env.Decl(cls).isDataclass && Loaded(env, cls, data, init).Ok?
    ensures var ctor := env.construct(cls, init);
      var attrs := Loaded(env, cls, data, init).value.attrs;
      var anns := AllAnnotations(env, cls, ctor.Keys);
      (forall k :: k in attrs <==> k in ctor || DeclaredInMro(env, cls, k)) &&
      (forall k | k in ctor :: attrs[k] == ctor[k]) &&
      (forall i | 0 <= i < |anns| :: anns[i].0 in attrs && env.matches(attrs[anns[i].0], anns[i].1))
  {
    var ctor := env.construct(cls, init);
    PreparedFields(env, cls, data, ctor.Keys);
    var anns := AllAnnotations(env, cls, ctor.Keys);
    forall k ensures k in Keys(anns) <==> DeclaredInMro(env, cls, k) && k !in ctor {
      AllAnnotationsKeys(env, cls, ctor.Keys, k);
    }
  }

  /** Anything but a dict cannot be loaded into a class. */
  lemma LoadedNeedsMapping(env: Env, cls: string, data: Value, init: map<string, Value>)
    requires !data.Table?
    ensures Loaded(env, cls, data, init) == Err(NotAMapping(data))
  {
  }
}
