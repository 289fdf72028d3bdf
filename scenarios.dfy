/** Whole loads of small classes, end to end through `load_into_recurse`:
    the behaviours the library documents, stated for any class and field
    names and any type checker that accepts the values involved. */
module Scenarios {
  import opened Dicts
  import opened Values
  import opened Schema
  import opened Normalize
  import opened Resolver
  import opened ResolverFacts

  /** A dataclass with no base class and the single field `k: t`. */
  predicate OneField(env: Env, cls: string, k: string, t: TypeDesc)
  {
    env.Decl(cls).annotations == [(k, t)] && env.Decl(cls).ancestors == [] && env.Decl(cls).isDataclass
  }

  lemma ResolvedOne(env: Env, cls: string, data: Entries<Value>, k: string, t: TypeDesc, b: nat)
    requires DepthBelow(data, b)
    ensures var f := ResolvedField(env, cls, data, k, t, b);
      Resolved(env, cls, data, [(k, t)], b, []) == if f.Err? then Err(f.error) else Ok([(k, f.value)])
  {
    assert [(k, t)][1..] == [];
    var f := ResolvedField(env, cls, data, k, t, b);
    if f.Ok? {
      assert Put([], k, f.value) == [(k, f.value)];
    }
  }

  lemma ValidatedOne(env: Env, k: string, t: TypeDesc, v: Value)
    ensures Validated(env, [(k, v)], [(k, t)], []) ==
      if env.matches(v, t) then Ok([(k, v)]) else Err(InvalidType(k, v, t))
  {
    assert [(k, t)][1..] == [];
    GetFirst([(k, v)]);
    assert Put([], k, v) == [(k, v)];
  }

  lemma PreparedOne(env: Env, cls: string, k: string, t: TypeDesc, entries: Entries<Value>)
    requires OneField(env, cls, k, t)
    ensures DepthBelow(Converted(entries), Depth(Table(entries)))
    ensures var f := ResolvedField(env, cls, Converted(entries), k, t, Depth(Table(entries)));
      Prepared(env, cls, Table(entries), {}) ==
        if f.Err? then Err(f.error)
        else if env.matches(f.value, t) then Ok([(k, f.value)])
        else Err(InvalidType(k, f.value, t))
  {
    RootClassAnnotations(env, cls);
    DepthOfEntries(entries);
    ConvertedDepth(entries, Depth(Table(entries)));
    var data, b := Converted(entries), Depth(Table(entries));
    ResolvedOne(env, cls, data, k, t, b);
    var f := ResolvedField(env, cls, data, k, t, b);
    if f.Ok? {
      ValidatedOne(env, k, t, f.value);
    }
  }

  lemma DataclassNoInit(env: Env, cls: string, data: Value)
    requires env.Decl(cls).isDataclass
    ensures var p := Prepared(env, cls, data, {});
      Loaded(env, cls, data, map[]) == if p.Err? then Err(p.error) else Ok(Obj(cls, ToMap(p.value)))
  {
    var empty: map<string, Value> := map[];
    assert empty.Keys == {};
    var p := Prepared(env, cls, data, {});
    if p.Ok? {
      assert ToMap(p.value) + empty == ToMap(p.value);
    }
  }

  /** Loading a one-field dataclass resolves that field, then checks its type. */
  lemma OneFieldClass(env: Env, cls: string, k: string, t: TypeDesc, entries: Entries<Value>)
    requires OneField(env, cls, k, t)
    ensures DepthBelow(Converted(entries), Depth(Table(entries)))
    ensures var f := ResolvedField(env, cls, Converted(entries), k, t, Depth(Table(entries)));
      Loaded(env, cls, Table(entries), map[]) ==
        if f.Err? then Err(f.error)
        else if env.matches(f.value, t) then Ok(Obj(cls, map[k := f.value]))
        else Err(InvalidType(k, f.value, t))
  {
    PreparedOne(env, cls, k, t, entries);
    DataclassNoInit(env, cls, Table(entries));
    var f := ResolvedField(env, cls, Converted(entries), k, t, Depth(Table(entries)));
    if f.Ok? && env.matches(f.value, t) {
      ToMapPut([], k, f.value);
      assert Put([], k, f.value) == [(k, f.value)];
    }
  }

  /** A field with a class-level default takes it when the key is absent,
      and when the key holds None. */
  lemma DefaultFill(env: Env, cls: string, k: string, t: TypeDesc, d: Value)
    requires OneField(env, cls, k, t) && env.Decl(cls).defaults == map[k := d]
    requires env.matches(d, t)
    ensures Loaded(env, cls, Table([]), map[]) == Ok(Obj(cls, map[k := d]))
    ensures Loaded(env, cls, Table([(k, Null)]), map[]) == Ok(Obj(cls, map[k := d]))
  {
    OneFieldClass(env, cls, k, t, []);
    OneFieldClass(env, cls, k, t, [(k, Null)]);
    assert [(k, Null)][..0] == [];
    assert Converted([(k, Null)]) == [];
  }

  /** An optional field without a default is None when the key is absent. */
  lemma OptionalFill(env: Env, cls: string, k: string, t: TypeDesc)
    requires OneField(env, cls, k, t) && k !in env.Decl(cls).defaults && IsOptional(t)
    requires env.matches(Null, t)
    ensures Loaded(env, cls, Table([]), map[]) == Ok(Obj(cls, map[k := Null]))
  {
    OneFieldClass(env, cls, k, t, []);
  }

  /** A required field without a default, absent from the data, fails
      with MissingKey naming the field, the class and the type. */
  lemma MissingRequiredField(env: Env, cls: string, k: string, t: TypeDesc)
    requires OneField(env, cls, k, t) && k !in env.Decl(cls).defaults && !IsOptional(t)
    ensures Loaded(env, cls, Table([]), map[]) == Err(MissingKey(k, cls, t))
  {
    OneFieldClass(env, cls, k, t, []);
  }

  /** A present value of a plain type is kept when it has that type, and
      fails with InvalidType naming the field otherwise. */
  lemma PlainField(env: Env, cls: string, k: string, p: string, v: Value)
    requires OneField(env, cls, k, Primitive(p)) && '-' !in k && '.' !in k && v != Null
    ensures env.matches(v, Primitive(p)) ==> Loaded(env, cls, Table([(k, v)]), map[]) == Ok(Obj(cls, map[k := v]))
    ensures !env.matches(v, Primitive(p)) ==> Loaded(env, cls, Table([(k, v)]), map[]) == Err(InvalidType(k, v, Primitive(p)))
  {
    ConvertedNormal([(k, v)]);
    OneFieldClass(env, cls, k, Primitive(p), [(k, v)]);
    PresentPlain(env, cls, k, p, v, Depth(Table([(k, v)])));
  }

  /** A present value of a plain type resolves to itself. */
  lemma PresentPlain(env: Env, cls: string, k: string, p: string, v: Value, b: nat)
    requires DepthBelow([(k, v)], b)
    ensures ResolvedField(env, cls, [(k, v)], k, Primitive(p), b) == Ok(v)
  {
    GetFirst([(k, v)]);
  }

  /** A hyphenated or dotted key fills the field spelled with underscores. */
  lemma NormalizedKeyFills(env: Env, cls: string, p: string, v: Value)
    requires OneField(env, cls, "some_field", Primitive(p)) && v != Null && env.matches(v, Primitive(p))
    ensures Loaded(env, cls, Table([("some-field", v)]), map[]) == Ok(Obj(cls, map["some_field" := v]))
    ensures Loaded(env, cls, Table([("some.field", v)]), map[]) == Ok(Obj(cls, map["some_field" := v]))
  {
    ConvertedExamples(v);
    OneFieldClass(env, cls, "some_field", Primitive(p), [("some-field", v)]);
    OneFieldClass(env, cls, "some_field", Primitive(p), [("some.field", v)]);
    GetFirst([("some_field", v)]);
  }

  /** A field typed by another class is loaded as an instance of it:
      `outer.inner.value == x`. */
  lemma NestedRecord(env: Env, outer: string, f: string, inner: string, g: string, p: string, x: Value)
    requires OneField(env, outer, f, Record(inner)) && OneField(env, inner, g, Primitive(p))
    requires '-' !in f && '.' !in f && '-' !in g && '.' !in g
    requires x.Str? || x.Int? || x.Bool? || x.Scalar?
    requires env.matches(x, Primitive(p)) && env.matches(Obj(inner, map[g := x]), Record(inner))
    ensures Loaded(env, outer, Table([(f, Table([(g, x)]))]), map[]) ==
      Ok(Obj(outer, map[f := Obj(inner, map[g := x])]))
  {
    PlainField(env, inner, g, p, x);
    var t := Table([(g, x)]);
    OneFieldClass(env, outer, f, Record(inner), [(f, t)]);
    ConvertedNormal([(f, t)]);
    GetFirst([(f, t)]);
  }

  lemma TwoElements(env: Env, item: string, a: Value, b: Value, oa: Value, ob: Value)
    requires Loaded(env, item, a, map[]) == Ok(oa) && Loaded(env, item, b, map[]) == Ok(ob)
    ensures ResolvedValue(env, ListOf(Record(item)), List([a, b])) == Ok(List([oa, ob]))
  {
    ListOfRecords(env, item, [a, b]);
    var r := ResolvedValue(env, ListOf(Record(item)), List([a, b])).value;
    assert r.items == [oa, ob];
  }

  /** A `list[Item]` field yields one Item per element, in the original order. */
  lemma ListOfItems(env: Env, cls: string, f: string, item: string, g: string, p: string, x: Value, y: Value)
    requires OneField(env, cls, f, ListOf(Record(item))) && OneField(env, item, g, Primitive(p))
    requires '-' !in f && '.' !in f && '-' !in g && '.' !in g
    requires x.Int? && y.Int?
    requires env.matches(x, Primitive(p)) && env.matches(y, Primitive(p))
    requires env.matches(List([Obj(item, map[g := x]), Obj(item, map[g := y])]), ListOf(Record(item)))
    ensures Loaded(env, cls, Table([(f, List([Table([(g, x)]), Table([(g, y)])]))]), map[]) ==
      Ok(Obj(cls, map[f := List([Obj(item, map[g := x]), Obj(item, map[g := y])])]))
  {
    PlainField(env, item, g, p, x);
    PlainField(env, item, g, p, y);
    var l := List([Table([(g, x)]), Table([(g, y)])]);
    TwoElements(env, item, Table([(g, x)]), Table([(g, y)]), Obj(item, map[g := x]), Obj(item, map[g := y]));
    OneFieldClass(env, cls, f, ListOf(Record(item)), [(f, l)]);
    ConvertedNormal([(f, l)]);
    GetFirst([(f, l)]);
  }
}
