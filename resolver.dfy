/** The recursive resolver, as a specification: what `load_recursive`,
    `ensure_types`, `_check_and_convert_data` and `load_into_recurse` compute,
    written as mutually recursive functions. The recursion always enters a
    value of smaller `Depth`, or the same value at a smaller rank of the
    lexicographic `decreases` tuple. */
module Resolver {
  import opened Dicts
  import opened Values
  import opened Schema
  import opened Normalize

  /** The elements Python's `for x in v` visits: list items, dict keys,
      one-character strings; anything else is not iterable. */
  function Iterated(v: Value): (r: Result<seq<Value>>)
    ensures r.Ok? ==> forall i | 0 <= i < |r.value| :: Depth(r.value[i]) <= Depth(v)
    ensures r.Err? <==> !(v.List? || v.Table? || v.Str?)
    ensures r.Err? ==> r.error == NotIterable(v)
    ensures v.Table? ==> r.Ok? && |r.value| == |v.entries|
  {
    match v
    case List(items) => Ok(items)
    case Table(entries) => Ok(seq(|entries|, i requires 0 <= i < |entries| => Str(entries[i].0)))
    case Str(s) => Ok(seq(|s|, i requires 0 <= i < |s| => Str([s[i]])))
    case _ => Err(NotIterable(v))
  }

  /** `load_into_recurse(cls, data, init)`: dataclass mode builds the
      instance from the resolved fields merged with `init` (init wins);
      otherwise `cls(**init)` runs first, the fields it set are not
      resolved, and the resolved ones are added to its `__dict__`. */
  function Loaded(env: Env, cls: string, data: Value, init: map<string, Value>): (r: Result<Value>)
    ensures r.Ok? ==> r.value.Obj? && r.value.cls == cls
    decreases Depth(data), 3
  {
    if env.Decl(cls).isDataclass then
      var toLoad :- Prepared(env, cls, data, init.Keys);
      Ok(Obj(cls, ToMap(toLoad) + init))
    else
      var attrs := env.construct(cls, init);
      var toLoad :- Prepared(env, cls, data, attrs.Keys);
      Ok(Obj(cls, attrs + ToMap(toLoad)))
  }

  /** `_check_and_convert_data(cls, data, _except)`: collect annotations,
      normalise keys, resolve, validate. */
  function Prepared(env: Env, cls: string, data: Value, except: set<string>): Result<Entries<Value>>
    decreases Depth(data), 2
  {
    var anns := AllAnnotations(env, cls, except);
    match data
    case Table(entries) =>
      DepthOfEntries(entries);
      ConvertedDepth(entries, Depth(data));
      var resolved :- Resolved(env, cls, Converted(entries), anns, Depth(data), []);
      Validated(env, resolved, anns, [])
    case _ => Err(NotAMapping(data))
  }

  /** `load_recursive(cls, data, annotations)`, continuing from the dict
      `acc` built for the annotations already visited. */
  function Resolved(env: Env, cls: string, data: Entries<Value>, anns: Entries<TypeDesc>,
                    bound: nat, acc: Entries<Value>): Result<Entries<Value>>
    requires DepthBelow(data, bound)
    decreases bound, 1, |anns|
  {
    if anns == [] then Ok(acc)
    else
      var v :- ResolvedField(env, cls, data, anns[0].0, anns[0].1, bound);
      Resolved(env, cls, data, anns[1..], bound, Put(acc, anns[0].0, v))
  }

  /** One iteration of `load_recursive`: the value of field `k` of type `t`. */
  function ResolvedField(env: Env, cls: string, data: Entries<Value>, k: string, t: TypeDesc,
                         bound: nat): Result<Value>
    requires DepthBelow(data, bound)
    decreases bound, 0
  {
    match Get(data, k)
    case Some(v) =>
      StoredDepth(data, bound, k);
      ResolvedValue(env, t, v)
    case None => Fallback(env, cls, k, t)
  }

  /** A field absent from the data: the class's own default, else None for
      an optional type, else MissingKey. */
  function Fallback(env: Env, cls: string, k: string, t: TypeDesc): (r: Result<Value>)
    ensures r.Err? ==> r.error == MissingKey(k, cls, t) && !IsOptional(t) && k !in env.Decl(cls).defaults
    ensures IsOptional(t) || k in env.Decl(cls).defaults ==> r.Ok?
  {
    var own := env.Decl(cls).defaults;
    if k in own then Ok(own[k])
    else if IsOptional(t) then Ok(Null)
    else Err(MissingKey(k, cls, t))
  }

  /** A present value, converted according to its annotation. */
  function ResolvedValue(env: Env, t: TypeDesc, v: Value): Result<Value>
    decreases Depth(v), 5
  {
    if IsParameterized(t) then
      if t.ListOf? && IsCustomClass(t.elem) then
        var items :- Iterated(v);
        var loaded :- LoadedEach(env, t.elem.name, items, Depth(v), []);
        Ok(List(loaded))
      else if t.DictOf? && IsCustomClass(t.val) then
        match v
        case Table(entries) =>
          DepthOfEntries(entries);
          var loaded :- LoadedValues(env, t.val.name, entries, Depth(v), []);
          Ok(Table(loaded))
        case _ => Err(NotAMapping(v))
      else if t.Union? && !t.pipe && t.alts != [] then
        UnionResolved(env, t.alts, v, Depth(v))
      else Ok(v)
    else if IsCustomClass(t) then Loaded(env, t.name, v, map[])
    else Ok(v)
  }

  /** `[load_into_recurse(cls, x) for x in items]`, after the elements in `acc`. */
  function LoadedEach(env: Env, cls: string, items: seq<Value>, bound: nat, acc: seq<Value>): Result<seq<Value>>
    requires forall i | 0 <= i < |items| :: Depth(items[i]) <= bound
    decreases bound, 4, |items|
  {
    if items == [] then Ok(acc)
    else
      var obj :- Loaded(env, cls, items[0], map[]);
      LoadedEach(env, cls, items[1..], bound, acc + [obj])
  }

  /** `{k: load_into_recurse(cls, x) for k, x in entries}`, after the entries in `acc`. */
  function LoadedValues(env: Env, cls: string, entries: Entries<Value>, bound: nat, acc: Entries<Value>): Result<Entries<Value>>
    requires DepthBelow(entries, bound)
    decreases bound, 4, |entries|
  {
    if entries == [] then Ok(acc)
    else
      var obj :- Loaded(env, cls, entries[0].1, map[]);
      LoadedValues(env, cls, entries[1..], bound, Put(acc, entries[0].0, obj))
  }

  /** The loop over a `typing.Union`'s arguments: every custom-class member
      loads the current value, which then holds the instance just built. */
  function UnionResolved(env: Env, alts: seq<TypeDesc>, v: Value, bound: nat): Result<Value>
    requires Depth(v) <= bound
    decreases bound, 4, |alts|
  {
    if alts == [] then Ok(v)
    else if IsCustomClass(alts[0]) then
      var obj :- Loaded(env, alts[0].name, v, map[]);
      UnionResolved(env, alts[1..], obj, bound)
    else UnionResolved(env, alts[1..], v, bound)
  }

  /** `ensure_types(data, annotations)`, continuing from the dict `acc`
      built for the annotations already visited. */
  function Validated(env: Env, data: Entries<Value>, anns: Entries<TypeDesc>, acc: Entries<Value>): (r: Result<Entries<Value>>)
    ensures r.Err? ==> r.error.InvalidType? && !env.matches(r.error.value, r.error.expected)
  {
    if anns == [] then Ok(acc)
    else
      var k, t := anns[0].0, anns[0].1;
      match Get(data, k)
      case None => Validated(env, data, anns[1..], acc)
      case Some(v) =>
        if !env.matches(v, t) then Err(InvalidType(k, v, t))
        else Validated(env, data, anns[1..], Put(acc, k, v))
  }
}
