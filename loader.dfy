/** The loader as the program runs it: loops that build dicts step by step,
    instances whose `__dict__` is updated in place, and the entry points
    `load_into`, `load_into_class` and `load_into_instance`. Each method is
    proved to compute what the functions of `Resolver` and `Selection`
    specify. */
module Loader {
  import opened Dicts
  import opened Values
  import opened Schema
  import opened Normalize
  import opened Selection
  import opened Resolver
  import opened ResolverFacts

  /** A Python object: its class and its `__dict__`. */
  class Instance {
    const cls: string
    var attrs: map<string, Value>

    constructor (cls: string, attrs: map<string, Value>)
      ensures this.cls == cls && this.attrs == attrs
    {
      this.cls := cls;
      this.attrs := attrs;
    }

    /** The object as a value, the way a parent's field holds it. */
    function Snapshot(): Value
      reads this
    {
      Obj(cls, attrs)
    }

    /** `inst.__dict__.update(**entries)`. */
    method Update(entries: Entries<Value>)
      modifies this
      ensures attrs == old(attrs) + ToMap(entries)
    {
      attrs := attrs + ToMap(entries);
    }
  }

  /** What `load_into` is called on: a class, or an existing instance. */
  datatype Target = OfClass(name: string) | OfInstance(inst: Instance)

  // ---------------------------------------------------------------------
  // The recursive loader

  /** `ensure_types(data, annotations)`. */
  method EnsureTypes(env: Env, data: Entries<Value>, anns: Entries<TypeDesc>) returns (r: Result<Entries<Value>>)
    ensures r == Validated(env, data, anns, [])
  {
    var final: Entries<Value> := [];
    var i := 0;
    while i < |anns|
      invariant 0 <= i <= |anns|
      invariant Validated(env, data, anns, []) == Validated(env, data, anns[i..], final)
    {
      var key, t := anns[i].0, anns[i].1;
      assert anns[i..][1..] == anns[i + 1..];
      var compare := Get(data, key);
      if compare.Some? {
        if !env.matches(compare.value, t) {
          return Err(InvalidType(key, compare.value, t));
        }
        final := Put(final, key, compare.value);
      }
      i := i + 1;
    }
    return Ok(final);
  }

  /** `load_recursive(cls, data, annotations)`; `bound` is a proof-only
      bound on the depth of the values in `data`. */
  method LoadRecursive(env: Env, cls: string, data: Entries<Value>, anns: Entries<TypeDesc>, ghost bound: nat)
    returns (r: Result<Entries<Value>>)
    requires DepthBelow(data, bound)
    ensures r == Resolved(env, cls, data, anns, bound, [])
    decreases bound, 1
  {
    var updated: Entries<Value> := [];
    var i := 0;
    while i < |anns|
      invariant 0 <= i <= |anns|
      invariant Resolved(env, cls, data, anns, bound, []) == Resolved(env, cls, data, anns[i..], bound, updated)
    {
      var key, t := anns[i].0, anns[i].1;
      assert anns[i..][1..] == anns[i + 1..];
      var value: Value;
      var found := Get(data, key);
      if found.Some? {
        StoredDepth(data, bound, key);
        var loaded := ResolveValue(env, t, found.value);
        if loaded.Err? {
          return Err(loaded.error);
        }
        value := loaded.value;
      } else if key in env.Decl(cls).defaults {
        value := env.Decl(cls).defaults[key];
      } else if IsOptional(t) {
        value := Null;
      } else {
        return Err(MissingKey(key, cls, t));
      }
      updated := Put(updated, key, value);
      i := i + 1;
    }
    return Ok(updated);
  }

  /** The branch of `load_recursive` that converts a present value. */
  method ResolveValue(env: Env, t: TypeDesc, v: Value) returns (r: Result<Value>)
    ensures r == ResolvedValue(env, t, v)
    decreases Depth(v), 5
  {
    if IsParameterized(t) {
      if t.ListOf? && IsCustomClass(t.elem) {
        var items := Iterated(v);
        if items.Err? {
          return Err(items.error);
        }
        r := LoadEach(env, t.elem.name, items.value, Depth(v));
      } else if t.DictOf? && IsCustomClass(t.val) {
        if !v.Table? {
          return Err(NotAMapping(v));
        }
        DepthOfEntries(v.entries);
        r := LoadValues(env, t.val.name, v.entries, Depth(v));
      } else if t.Union? && !t.pipe && t.alts != [] {
        r := LoadUnion(env, t.alts, v, Depth(v));
      } else {
        r := Ok(v);
      }
    } else if IsCustomClass(t) {
      var inst := LoadIntoRecurse(env, t.name, v, map[]);
      if inst.Err? {
        return Err(inst.error);
      }
      r := Ok(inst.value.Snapshot());
    } else {
      r := Ok(v);
    }
  }

  /** `[load_into_recurse(cls, x) for x in items]`. */
  method LoadEach(env: Env, cls: string, items: seq<Value>, ghost bound: nat) returns (r: Result<Value>)
    requires forall i | 0 <= i < |items| :: Depth(items[i]) <= bound
    ensures r == (match LoadedEach(env, cls, items, bound, []) case Ok(l) => Ok(List(l)) case Err(e) => Err(e))
    decreases bound, 4
  {
    var loaded: seq<Value> := [];
    var i := 0;
    while i < |items|
      invariant 0 <= i <= |items|
      invariant LoadedEach(env, cls, items, bound, []) == LoadedEach(env, cls, items[i..], bound, loaded)
    {
      assert items[i..][1..] == items[i + 1..];
      var inst := LoadIntoRecurse(env, cls, items[i], map[]);
      if inst.Err? {
        return Err(inst.error);
      }
      loaded := loaded + [inst.value.Snapshot()];
      i := i + 1;
    }
    return Ok(List(loaded));
  }

  /** `{k: load_into_recurse(cls, x) for k, x in entries.items()}`. */
  method LoadValues(env: Env, cls: string, entries: Entries<Value>, ghost bound: nat) returns (r: Result<Value>)
    requires DepthBelow(entries, bound)
    ensures r == (match LoadedValues(env, cls, entries, bound, []) case Ok(d) => Ok(Table(d)) case Err(e) => Err(e))
    decreases bound, 4
  {
    var loaded: Entries<Value> := [];
    var i := 0;
    while i < |entries|
      invariant 0 <= i <= |entries|
      invariant LoadedValues(env, cls, entries, bound, []) == LoadedValues(env, cls, entries[i..], bound, loaded)
    {
      assert entries[i..][1..] == entries[i + 1..];
      var inst := LoadIntoRecurse(env, cls, entries[i].1, map[]);
      if inst.Err? {
        return Err(inst.error);
      }
      loaded := Put(loaded, entries[i].0, inst.value.Snapshot());
      i := i + 1;
    }
    return Ok(Table(loaded));
  }

  /** The loop over the arguments of a `typing.Union`. */
  method LoadUnion(env: Env, alts: seq<TypeDesc>, v: Value, ghost bound: nat) returns (r: Result<Value>)
    requires Depth(v) <= bound
    ensures r == UnionResolved(env, alts, v, bound)
    decreases bound, 4
  {
    var value := v;
    var i := 0;
    while i < |alts|
      invariant 0 <= i <= |alts| && Depth(value) <= bound
      invariant UnionResolved(env, alts, v, bound) == UnionResolved(env, alts[i..], value, bound)
    {
      assert alts[i..][1..] == alts[i + 1..];
      if IsCustomClass(alts[i]) {
        var inst := LoadIntoRecurse(env, alts[i].name, value, map[]);
        if inst.Err? {
          return Err(inst.error);
        }
        value := inst.value.Snapshot();
      }
      i := i + 1;
    }
    return Ok(value);
  }

  /** `_check_and_convert_data(cls, data, _except)`. */
  method CheckAndConvertData(env: Env, cls: string, data: Value, except: set<string>)
    returns (r: Result<Entries<Value>>)
    ensures r == Prepared(env, cls, data, except)
    decreases Depth(data), 2
  {
    var anns := AllAnnotations(env, cls, except);
    if !data.Table? {
      return Err(NotAMapping(data));
    }
    DepthOfEntries(data.entries);
    ConvertedDepth(data.entries, Depth(data));
    var toLoad := Converted(data.entries);
    var resolved := LoadRecursive(env, cls, toLoad, anns, Depth(data));
    if resolved.Err? {
      return Err(resolved.error);
    }
    r := EnsureTypes(env, resolved.value, anns);
  }

  /** `load_into_recurse(cls, data, init)`: a new instance of `cls`. */
  method LoadIntoRecurse(env: Env, cls: string, data: Value, init: map<string, Value>) returns (r: Result<Instance>)
    ensures r.Ok? ==> fresh(r.value) && Loaded(env, cls, data, init) == Ok(r.value.Snapshot())
    ensures r.Err? ==> Loaded(env, cls, data, init) == Err(r.error)
    decreases Depth(data), 3
  {
    if env.Decl(cls).isDataclass {
      var toLoad := CheckAndConvertData(env, cls, data, init.Keys);
      if toLoad.Err? {
        return Err(toLoad.error);
      }
      var inst := new Instance(cls, ToMap(toLoad.value) + init);
      return Ok(inst);
    } else {
      var inst := new Instance(cls, env.construct(cls, init));
      var toLoad := CheckAndConvertData(env, cls, data, inst.attrs.Keys);
      if toLoad.Err? {
        return Err(toLoad.error);
      }
      inst.Update(toLoad.value);
      return Ok(inst);
    }
  }

  // ---------------------------------------------------------------------
  // Existing instances and the entry points

  /** The `__dict__` that `load_into_existing` leaves behind. */
  function Refreshed(env: Env, cls: string, attrs: map<string, Value>, data: Value,
                     init: Option<map<string, Value>>): Result<map<string, Value>>
  {
    if init.Some? then Err(InitOnExisting)
    else
      var toLoad :- Prepared(env, cls, data, attrs.Keys);
      Ok(attrs + ToMap(toLoad))
  }

  /** `load_into_existing(inst, cls, data, init)`. */
  method LoadIntoExisting(env: Env, inst: Instance, data: Value, init: Option<map<string, Value>>)
    returns (r: Result<Instance>)
    modifies inst
    ensures var s := Refreshed(env, inst.cls, old(inst.attrs), data, init);
      (s.Ok? ==> r == Ok(inst) && inst.attrs == s.value) &&
      (s.Err? ==> r == Err(s.error) && inst.attrs == old(inst.attrs))
  {
    if init.Some? {
      return Err(InitOnExisting);
    }
    var toLoad := CheckAndConvertData(env, inst.cls, data, inst.attrs.Keys);
    if toLoad.Err? {
      return Err(toLoad.error);
    }
    inst.Update(toLoad.value);
    return Ok(inst);
  }

  /** What `load_into_class(cls, data, key, init)` builds. */
  function LoadedClass(env: Env, cls: string, data: Entries<Value>, key: Option<string>,
                       init: Option<map<string, Value>>): Result<Value>
  {
    var selected :- SelectedData(env, data, key, Some(cls));
    Loaded(env, cls, selected, if init.Some? then init.value else map[])
  }

  /** What `load_into_instance(inst, data, key, init)` leaves in `__dict__`. */
  function RefreshedFrom(env: Env, cls: string, attrs: map<string, Value>, data: Entries<Value>,
                         key: Option<string>, init: Option<map<string, Value>>): Result<map<string, Value>>
  {
    var selected :- SelectedData(env, data, key, Some(cls));
    Refreshed(env, cls, attrs, selected, init)
  }

  /** `load_into_class(cls, data, key, init)`. */
  method LoadIntoClass(env: Env, cls: string, data: Entries<Value>, key: Option<string>,
                       init: Option<map<string, Value>>) returns (r: Result<Instance>)
    ensures r.Ok? ==> fresh(r.value) && LoadedClass(env, cls, data, key, init) == Ok(r.value.Snapshot())
    ensures r.Err? ==> LoadedClass(env, cls, data, key, init) == Err(r.error)
  {
    var selected := LoadData(env, data, key, Some(cls));
    if selected.Err? {
      return Err(selected.error);
    }
    r := LoadIntoRecurse(env, cls, selected.value, if init.Some? then init.value else map[]);
  }

  /** `load_into_instance(inst, data, key, init)`. */
  method LoadIntoInstance(env: Env, inst: Instance, data: Entries<Value>, key: Option<string>,
                          init: Option<map<string, Value>>) returns (r: Result<Instance>)
    modifies inst
    ensures var s := RefreshedFrom(env, inst.cls, old(inst.attrs), data, key, init);
      (s.Ok? ==> r == Ok(inst) && inst.attrs == s.value) &&
      (s.Err? ==> r == Err(s.error) && inst.attrs == old(inst.attrs))
  {
    var selected := LoadData(env, data, key, Some(inst.cls));
    if selected.Err? {
      return Err(selected.error);
    }
    r := LoadIntoExisting(env, inst, selected.value, init);
  }

  /** `load_into(cls, data, key, init)`: dispatch on class or instance. */
  method LoadInto(env: Env, target: Target, data: Entries<Value>, key: Option<string>,
                  init: Option<map<string, Value>>) returns (r: Result<Instance>)
    modifies if target.OfInstance? then {target.inst} else {}
    ensures target.OfClass? ==>
      (r.Ok? ==> fresh(r.value) && LoadedClass(env, target.name, data, key, init) == Ok(r.value.Snapshot())) &&
      (r.Err? ==> LoadedClass(env, target.name, data, key, init) == Err(r.error))
    ensures target.OfInstance? ==>
      var s := RefreshedFrom(env, target.inst.cls, old(target.inst.attrs), data, key, init);
      (s.Ok? ==> r == Ok(target.inst) && target.inst.attrs == s.value) &&
      (s.Err? ==> r == Err(s.error) && target.inst.attrs == old(target.inst.attrs))
  {
    match target {
      case OfClass(name) =>
        r := LoadIntoClass(env, name, data, key, init);
      case OfInstance(inst) =>
        r := LoadIntoInstance(env, inst, data, key, init);
    }
  }

  // ---------------------------------------------------------------------
  // What load_into_existing and load_into_instance promise

  /** Augmenting an instance never changes an attribute it already has; it
      adds every annotated field it lacked, each with a value of its
      annotated type, and nothing else. */
  lemma RefreshKeepsExisting(env: Env, cls: string, attrs: map<string, Value>, data: Value)
    requires Refreshed(env, cls, attrs, data, None).Ok?
    ensures var after := Refreshed(env, cls, attrs, data, None).value;
      var anns := AllAnnotations(env, cls, attrs.Keys);
      (forall k | k in attrs :: k in after && after[k] == attrs[k]) &&
      (forall k :: k in after <==> k in attrs || DeclaredInMro(env, cls, k)) &&
      (forall i | 0 <= i < |anns| :: anns[i].0 in after && env.matches(after[anns[i].0], anns[i].1))
  {
    PreparedFields(env, cls, data, attrs.Keys);
    var anns := AllAnnotations(env, cls, attrs.Keys);
    forall k ensures k in Keys(anns) <==> DeclaredInMro(env, cls, k) && k !in attrs {
      AllAnnotationsKeys(env, cls, attrs.Keys, k);
    }
  }

  /** An existing instance refuses `init`, even an empty one, and leaves
      its attributes alone; a failing key lookup is reported first, since
      the data is selected before `init` is looked at. */
  lemma InitRefused(env: Env, cls: string, attrs: map<string, Value>, data: Entries<Value>,
                    key: Option<string>, init: map<string, Value>)
    ensures SelectedData(env, data, key, Some(cls)).Ok? ==>
      RefreshedFrom(env, cls, attrs, data, key, Some(init)) == Err(InitOnExisting)
    ensures SelectedData(env, data, key, Some(cls)).Err? ==>
      RefreshedFrom(env, cls, attrs, data, key, Some(init)) == Err(SelectedData(env, data, key, Some(cls)).error)
  {
  }
}
