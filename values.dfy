/** The data the loader consumes and produces, the type annotations it reads,
    the errors it raises, and the classification of annotations
    (`is_parameterized`, `is_custom_class`, `is_optional`). */
module Values {
  import opened Dicts

  /** A declared annotation, as a closed sum instead of a live Python type. */
  datatype TypeDesc =
    | Primitive(name: string)               // str, int, float, bool, datetime, bare list/dict, ...
    | Record(name: string)                  // a user-defined class
    | ListOf(elem: TypeDesc)                // list[T]
    | DictOf(key: TypeDesc, val: TypeDesc)  // dict[K, V]
    | Union(alts: seq<TypeDesc>, pipe: bool) // typing.Union[...] / Optional[...]; pipe: written A | B
    | NoneType                              // None or NoneType
    | AnyType                               // typing.Any

  /** A runtime value: what a TOML document or a caller's dict holds, plus
      the instances the loader builds. */
  datatype Value =
    | Str(s: string)
    | Int(i: int)
    | Bool(b: bool)
    | Scalar(kind: string, text: string)    // float, datetime and other opaque scalars
    | Null                                  // Python's None
    | List(items: seq<Value>)
    | Table(entries: Entries<Value>)        // a dict
    | Obj(cls: string, attrs: map<string, Value>) // an instance and its __dict__

  /** The exceptions the loader lets escape. */
  datatype LoadError =
    | MissingKey(key: string, cls: string, expected: TypeDesc)   // ConfigErrorMissingKey
    | InvalidType(key: string, value: Value, expected: TypeDesc) // ConfigErrorInvalidType
    | KeyErr(key: string)               // KeyError: a dotted-key segment is absent
    | NotSubscriptable(key: string)     // TypeError: indexing a non-dict by a segment
    | NotAMapping(value: Value)         // AttributeError: `.items()` on a non-dict
    | NotIterable(value: Value)         // TypeError: iterating a non-iterable
    | InitOnExisting                    // ValueError: init given with an existing instance

  datatype Result<+T> = Ok(value: T) | Err(error: LoadError) {
    predicate IsFailure() { Err? }
    function PropagateFailure<U>(): Result<U> requires Err? { Err(error) }
    function Extract(): T requires Ok? { value }
  }

  /** Nesting depth of lists and dicts; every recursion of the loader goes
      into a value of smaller depth (an instance counts as a leaf). */
  function Depth(v: Value): nat
    decreases v
  {
    match v
    case List(items) => 1 + MaxDepth(items)
    case Table(entries) => 1 + MaxDepthEntries(entries)
    case _ => 0
  }

  function MaxDepth(s: seq<Value>): (m: nat)
    decreases s
    ensures forall i | 0 <= i < |s| :: Depth(s[i]) <= m
  {
    if s == [] then 0
    else
      var d, rest := Depth(s[0]), MaxDepth(s[1..]);
      assert forall i | 1 <= i < |s| :: s[i] == s[1..][i - 1];
      if d > rest then d else rest
  }

  function MaxDepthEntries(s: Entries<Value>): nat
    decreases s
  {
    if s == [] then 0
    else
      var e := s[0];
      assert e.1 < e;
      var d, rest := Depth(e.1), MaxDepthEntries(s[1..]);
      if d > rest then d else rest
  }

  /** Every value stored in `d` is shallower than `bound`. */
  predicate DepthBelow(d: Entries<Value>, bound: nat)
  {
    forall i | 0 <= i < |d| :: Depth(d[i].1) < bound
  }

  lemma {:induction false} DepthOfEntries(entries: Entries<Value>)
    ensures DepthBelow(entries, Depth(Table(entries)))
  {
    if entries != [] {
      DepthOfEntries(entries[1..]);
      assert forall i | 1 <= i < |entries| :: entries[i] == entries[1..][i - 1];
    }
  }

  /** A value looked up in `d` is as shallow as everything stored there. */
  lemma StoredDepth(d: Entries<Value>, bound: nat, k: string)
    requires DepthBelow(d, bound) && k in Keys(d)
    ensures Depth(Get(d, k).value) < bound
  {
  }

  /** `typing.get_origin(t) is not None`: the annotation has type arguments. */
  predicate IsParameterized(t: TypeDesc)
  {
    t.ListOf? || t.DictOf? || t.Union?
  }

  /** A user-defined class: not a builtin, not from datetime/math, not from
      types/typing and not a generic alias. */
  predicate IsCustomClass(t: TypeDesc)
  {
    t.Record?
  }

  /** `None`, `NoneType`, or a union with a `NoneType` member. */
  predicate IsOptional(t: TypeDesc)
  {
    t.NoneType? || (t.Union? && NoneType in t.alts)
  }

  /** The classifications of the docstrings of core.py: optional iff the
      annotation admits None at top level; a list of optionals is not
      optional; a record is custom and never parameterized. */
  lemma ClassificationExamples(name: string)
    ensures IsOptional(NoneType)
    ensures IsOptional(Union([Primitive("str"), NoneType], false))
    ensures IsOptional(Union([Primitive("str"), NoneType], true))
    ensures !IsOptional(ListOf(Union([Primitive("str"), NoneType], true)))
    ensures !IsOptional(ListOf(Primitive("str")))
    ensures IsParameterized(ListOf(Primitive("str"))) && !IsParameterized(Primitive("str"))
    ensures IsCustomClass(Record(name)) && !IsParameterized(Record(name))
    ensures !IsCustomClass(ListOf(Record(name))) && !IsCustomClass(AnyType)
  {
    assert [Primitive("str"), NoneType][1] == NoneType;
  }
}
