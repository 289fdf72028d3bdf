# typedconfig loader, in Dafny

This project models the loader of `typedconfig` (`src/typedconfig/core.py`).
The loader fills instances of user-defined classes from a dict, such as a
parsed TOML document, guided by the classes' type annotations.

- **Data selection.** `_load_data` and `_data_for_nested_key` pick the
  sub-dict a class is loaded from. The key is the one given, else the sole
  top-level key, else the class name in snake case. A dotted key walks
  nested dicts.
- **Annotation collection.** `_all_annotations` and `all_annotations` build
  a ChainMap over the method resolution order, in which the most-derived
  declaration wins. Names already set on the instance are then filtered out.
- **Key normalisation.** `convert_config` drops None values and turns `-`
  and `.` in keys into `_`.
- **Recursive resolution.** `load_recursive` resolves each annotated field:
  - a present value is converted according to its annotation (a nested
    class, `list[C]`, `dict[K, C]`, `typing.Union[...]`, or kept as is);
  - an absent one takes the class's own default, else None if the type is
    optional, else raises `ConfigErrorMissingKey`.
- **Validation.** `ensure_types` checks every value against its annotation
  and raises `ConfigErrorInvalidType` on the first mismatch.
- **Construction.** `load_into_recurse` builds the instance, in dataclass
  mode or by `cls(**init)` followed by a `__dict__` update.
  `load_into_existing` augments an existing instance. The entry points are
  `load_into`, `load_into_class` and `load_into_instance`.

The project is split into these modules:

| module | file | what it holds |
|---|---|---|
| `Dicts` | dicts.dfy | insertion-ordered Python dicts as entry sequences (`Get`, `Put`, `ToMap`) |
| `Values` | values.dfy | type annotations as a closed datatype (`TypeDesc`), runtime values (`Value`), the exceptions the loader lets escape (`LoadError`), and the classifiers `is_parameterized`, `is_custom_class`, `is_optional` |
| `Schema` | schema.dfy | classes (own annotations, own `__dict__` defaults, MRO, dataclass flag) and the annotation collector |
| `Normalize` | normalize.dfy | `convert_config` |
| `Selection` | selection.dfy | `str.split(".")`, the nested-key walk and `_load_data` |
| `Resolver` | resolver.dfy | the recursive loader as mutually recursive specification functions (`Loaded`, `Prepared`, `Resolved`, `ResolvedValue`, `Validated`, ...), terminating on the nesting depth of the data |
| `ResolverFacts` | resolver_facts.dfy | what the loader promises, proved about those functions |
| `Loader` | loader.dfy | the loader as the program runs it: the loops of `load_recursive`, `ensure_types` and the comprehensions; a class `Instance` whose `__dict__` is updated in place; the entry points. Each method is proved equal to the specification function |
| `Scenarios` | scenarios.dfy | whole loads of small classes, end to end |

The type checker (typeguard's `check_type`), the snake-case conversion and
the effect of a non-dataclass constructor on `__dict__` are parameters,
held in `Schema.Env`: `matches`, `snakeCase` and `construct`. Errors are
values of `Values.Result`, one `LoadError` per exception the code raises:
- `KeyErr` for `KeyError`;
- `NotSubscriptable` and `NotIterable` for `TypeError`;
- `NotAMapping` for `AttributeError` on `.items()`;
- `InitOnExisting` for `ValueError`.

### Where the model follows the code over the documentation

- **Union with two custom classes.** A `typing.Union` with two custom-class
  members is not left unresolved. The code loads the value with the first
  class, then hands the instance it built to the second, and that fails
  because an instance has no `.items()`. See
  `ResolverFacts.UnionTwoRecords`.
- **Existing instance given `init`.** `load_into` on an existing instance
  selects the data before it checks `init`. So a failing key lookup is
  reported instead of the `ValueError`, and an empty `init={}` is refused
  too. See `Loader.InitRefused`.
- **Defaults.** Defaults are read from the class's own `__dict__` only. A
  default declared by an ancestor does not fill a missing required field.
  See `ResolverFacts.InheritedDefaultIgnored`.
- **Iterating a dict as a list.** `list[C]` over a dict iterates the dict's
  keys, and over a string its characters. So it fails on the first key or
  character rather than on the dict. See `ResolverFacts.ListOfRecordsQuirks`.

## Model

| member | source | states |
|---|---|---|
| Dicts.PutSpec | src/typedconfig/core.py:288 | `d[k] = v`: `k` then holds `v`, every other key keeps its value, an existing key keeps its position, a new key is appended, and keys stay unique |
| Dicts.ToMapPut | src/typedconfig/core.py:288 | assignment seen on the unordered dict is a map update |
| Values.IsParameterized | src/typedconfig/core.py:167-175 | definition only: `list[...]`, `dict[...]` and unions have a type origin, classes and plain types do not; the examples are `Values.ClassificationExamples` |
| Values.IsCustomClass | src/typedconfig/core.py:178-189 | definition only: a user-defined class is custom, a builtin, a `datetime`/`math` type, a `typing` form or a generic alias is not; the examples are `Values.ClassificationExamples` |
| Values.IsOptional | src/typedconfig/core.py:192-209 | definition only, as the docstring describes it: `None`, `NoneType`, or a union listing `NoneType`; see "## Left out" for where the code raises instead |
| Values.ClassificationExamples | src/typedconfig/core.py:167-209 | the docstring examples: `None`, `Union[str, None]` and the pipe union of `str` and `None` are optional; a list of optional strings and `list[str]` are not; `list[str]` is parameterized and `str` is not; a user class is custom and not parameterized |
| Schema.ChainKeys | src/typedconfig/core.py:298 | the ChainMap's iteration order lists no name twice |
| Schema.ChainGet | src/typedconfig/core.py:298 | definition only: lookup in the first map holding the key; its properties are `Schema.ChainGetFirst` and `Schema.ChainGetDefined` |
| Schema.Collect | src/typedconfig/core.py:308 | definition only: the filtered comprehension over the chain's keys; its property is `Schema.CollectSpec` |
| Schema.AllAnnotations | src/typedconfig/core.py:293-308 | definition only: `all_annotations(cls, _except)` as the ChainMap over the MRO, filtered; its properties are `Schema.AllAnnotationsKeys` and `Schema.AllAnnotationsMostDerived` |
| Schema.ChainKeysMembers | src/typedconfig/core.py:298 | a name is a ChainMap key exactly when one of the maps holds it |
| Schema.ChainGetFirst | src/typedconfig/core.py:298 | ChainMap lookup returns the value from the first map holding the key |
| Schema.ChainGetDefined | src/typedconfig/core.py:298 | every ChainMap key has a value |
| Schema.CollectSpec | src/typedconfig/core.py:308 | the filtered comprehension has unique keys: exactly the chain's keys not in `_except`, each with its chain value |
| Schema.AllAnnotationsKeys | src/typedconfig/core.py:293-308 | `all_annotations` holds each name once, and holds a name exactly when some class of the MRO annotates it and it is not excluded |
| Schema.AllAnnotationsMostDerived | src/typedconfig/core.py:293-308 | the annotation collected for a name is the one of the first class in the MRO that declares it |
| Schema.OwnAnnotationWins | src/typedconfig/core.py:298 | a class's own annotation overrides an inherited one of the same name |
| Schema.RootClassAnnotations | src/typedconfig/core.py:293-308 | a class without bases collects exactly its own annotations, in declaration order |
| Normalize.Replace | src/typedconfig/core.py:132 | `str.replace` of one character by another keeps the length and leaves no occurrence of the replaced character |
| Normalize.NormalizeKey | src/typedconfig/core.py:132 | the normalised key has the same length and contains no `-` and no `.` |
| Normalize.NormalizeKeyAt | src/typedconfig/core.py:132 | each `-` or `.` becomes `_`, and every other character is kept |
| Normalize.Converted | src/typedconfig/core.py:125-132 | no converted entry holds None, no converted key holds `-` or `.`, and every converted value comes from the input |
| Normalize.ConvertedUnique | src/typedconfig/core.py:132 | the converted dict holds each key once |
| Normalize.ConvertedKeys | src/typedconfig/core.py:132 | a key is present after conversion exactly when some non-None entry normalises to it |
| Normalize.ConvertedValue | src/typedconfig/core.py:132 | when several entries normalise to the same key, the last one's value wins |
| Normalize.ConvertedExamples | src/typedconfig/core.py:125-132 | `some-field` and `some.field` become `some_field`, and a None entry disappears |
| Normalize.ConvertedNormal | src/typedconfig/core.py:132 | a dict already in normal form is unchanged |
| Normalize.ConvertedIdempotent | src/typedconfig/core.py:125-132 | converting twice is converting once |
| Selection.Split | src/typedconfig/core.py:40 | `key.split(".")` yields at least one segment |
| Selection.SplitNoDots | src/typedconfig/core.py:40 | no segment contains a dot |
| Selection.JoinSplit | src/typedconfig/core.py:40 | joining the segments with dots gives the key back |
| Selection.SplitJoin | src/typedconfig/core.py:40 | splitting a dot-join of dot-free segments gives those segments back |
| Selection.SplitConcat | src/typedconfig/core.py:40 | the segments of `a.b` are those of `a` followed by those of `b` |
| Selection.Walk | src/typedconfig/core.py:41-42 | indexing along a path fails only with KeyError or TypeError, and the error names a segment of the path |
| Selection.WalkConcat | src/typedconfig/core.py:41-42 | indexing along `p + q` is indexing along `p`, then along `q` from there, and an error on the way is kept |
| Selection.DottedKeyComposes | src/typedconfig/core.py:31-44 | selecting `a.b` is selecting `a`, then `b` inside it |
| Selection.NestedKeyFound | src/typedconfig/core.py:31-44 | for any dict `raw` and dot-free segments `x`, `y`, `z`: key `x.y.z` selects `raw[x][y][z]` whenever the two outer levels are dicts holding the next segment |
| Selection.NestedKeyMissing | src/typedconfig/core.py:41-42 | for any dict `raw`: when `raw[x]` is a dict without `y`, key `x.y.z` raises KeyError naming `y` |
| Selection.NestedKeyNotADict | src/typedconfig/core.py:41-42 | for any dict `raw`: when `raw[x]` is not a dict, key `x.y.z` fails with TypeError on `y` |
| Selection.DataForNestedKey | src/typedconfig/core.py:31-44 | the pop-and-index loop computes the walk along the key's segments, including its errors |
| Selection.ChosenKey | src/typedconfig/core.py:72-77 | definition only: the explicit key, else the sole top-level key, else the snake-cased class name; its consequences are the `Selection.Select*` lemmas |
| Selection.SelectedData | src/typedconfig/core.py:69-83 | definition only: what `_load_data` returns for an in-memory dict; its properties are `Selection.SelectEmpty`, `Selection.SelectEmptyKey`, `Selection.SelectSoleEntry`, `Selection.SelectSoleDottedEntry`, `Selection.SelectByClassName` |
| Selection.LoadData | src/typedconfig/core.py:69-83 | `_load_data` on a dict computes the specified selection |
| Selection.SelectEmpty | src/typedconfig/core.py:69-70 | empty data selects an empty dict, whatever the key |
| Selection.SelectEmptyKey | src/typedconfig/core.py:79-83 | an explicit empty key selects the whole mapping |
| Selection.SelectSoleEntry | src/typedconfig/core.py:72-75 | with no key, a single dot-free top-level key selects its value |
| Selection.SelectSoleDottedEntry | src/typedconfig/core.py:72-80 | a sole top-level key containing a dot is split anyway, so its first segment is missing |
| Selection.SelectByClassName | src/typedconfig/core.py:76-77 | with no key and several top-level keys, the snake-cased class name is the key |
| Selection.SelectDottedExample | src/typedconfig/core.py:55-83 | `{"a": {"b": {"x": 1}}}` with key `a.b` selects `{"x": 1}` |
| Resolver.Loaded | src/typedconfig/core.py:331-359 | a successful `load_into_recurse(cls, ...)` builds an instance of `cls` |
| Resolver.Iterated | src/typedconfig/core.py:250 | `for x in value` visits list items, dict keys (one per entry) or characters, none deeper than the value; anything else raises TypeError (NotIterable) |
| Resolver.Prepared | src/typedconfig/core.py:311-328 | definition only: convert, resolve, validate; its properties are `ResolverFacts.PreparedFields` and `ResolverFacts.PreparedSteps` |
| Resolver.Resolved | src/typedconfig/core.py:241-290 | definition only: `load_recursive` over the remaining annotations; its properties are `ResolverFacts.ResolvedOk`, `ResolverFacts.ResolvedKeys`, `ResolverFacts.ResolvedValues`, `ResolverFacts.ResolvedFirstError` |
| Resolver.ResolvedField | src/typedconfig/core.py:243-286 | definition only: one iteration of `load_recursive`; its property is `ResolverFacts.LoadRecursivePolicy` |
| Resolver.Fallback | src/typedconfig/core.py:278-286 | an absent field only ever fails with MissingKey, and only when it is neither optional nor defaulted in the class's own `__dict__`; an optional or defaulted field never fails |
| Resolver.ResolvedValue | src/typedconfig/core.py:245-276 | definition only: the branch on the annotation of a present value; its properties are `ResolverFacts.ListOfRecords`, `ResolverFacts.DictOfRecords`, `ResolverFacts.UnionsAndNesting` and the union lemmas |
| Resolver.LoadedEach | src/typedconfig/core.py:250 | definition only: the list comprehension; its properties are `ResolverFacts.LoadedEachOk` and `ResolverFacts.LoadedEachSpec` |
| Resolver.LoadedValues | src/typedconfig/core.py:256 | definition only: the dict comprehension; its properties are `ResolverFacts.LoadedValuesOk`, `ResolverFacts.LoadedValuesKeys`, `ResolverFacts.LoadedValuesValues` |
| Resolver.UnionResolved | src/typedconfig/core.py:259-265 | definition only: the loop over a union's members; its properties are `ResolverFacts.UnionNoRecord`, `ResolverFacts.UnionOneRecord`, `ResolverFacts.UnionTwoRecords`, `ResolverFacts.UnionSkip` |
| Resolver.Validated | src/typedconfig/core.py:99-122 | `ensure_types` only ever fails with InvalidType, on a value the type checker rejects |
| ResolverFacts.ValidatedOk | src/typedconfig/core.py:110-119 | `ensure_types` succeeds exactly when every annotated key present in the data has a value of its annotated type |
| ResolverFacts.ValidatedKeys | src/typedconfig/core.py:109-122 | on success the result has unique keys: those already collected, then the annotated keys present in the data, in annotation order |
| ResolverFacts.ValidatedValues | src/typedconfig/core.py:111-121 | on success each kept key has its value from the data, and the entries already collected are unchanged |
| ResolverFacts.ValidatedAll | src/typedconfig/core.py:99-122 | when the data holds every annotated key, a success keeps exactly the annotated keys, with their data values, each of its annotated type |
| ResolverFacts.ValidatedFirstMismatch | src/typedconfig/core.py:118-119 | on failure, the error is InvalidType for the first annotated key, in order, whose value has the wrong type, and every earlier present key has the right type |
| ResolverFacts.ResolvedOk | src/typedconfig/core.py:241-290 | `load_recursive` succeeds exactly when every annotated field resolves |
| ResolverFacts.ResolvedKeys | src/typedconfig/core.py:241-290 | on success the result has unique keys: those already collected, then every annotation key, in annotation order |
| ResolverFacts.ResolvedValues | src/typedconfig/core.py:242-288 | on success each annotation key holds its field's resolution, and the entries already collected are unchanged |
| ResolverFacts.ResolvedFirstError | src/typedconfig/core.py:242-286 | on failure, the error is that of the first annotated field, in order, that does not resolve, and every earlier field resolves |
| ResolverFacts.LoadRecursivePolicy | src/typedconfig/core.py:243-283 | each field is resolved from its present value, else takes the class's own default, else is None and its type is optional |
| ResolverFacts.MissingKeyRaised | src/typedconfig/core.py:284-286 | an absent required field without an own default raises MissingKey naming the key, the class and the type, once the earlier fields resolve |
| ResolverFacts.InheritedDefaultIgnored | src/typedconfig/core.py:278-286 | a default declared only by an ancestor does not fill an absent required field |
| ResolverFacts.LoadedEachOk | src/typedconfig/core.py:250 | the list comprehension succeeds exactly when every element loads |
| ResolverFacts.LoadedEachSpec | src/typedconfig/core.py:250 | on success the instances follow those already built: one per element, in order, each loaded from its element |
| ResolverFacts.ListOfRecords | src/typedconfig/core.py:248-250 | `list[C]` over a list succeeds exactly when every element loads, and gives one instance per element, in order |
| ResolverFacts.ListOfRecordsQuirks | src/typedconfig/core.py:248-250 | `list[C]` over a non-empty dict fails on its first key, over a scalar fails as not iterable, and over an empty dict gives an empty list |
| ResolverFacts.LoadedValuesOk | src/typedconfig/core.py:256 | the dict comprehension succeeds exactly when every value loads |
| ResolverFacts.LoadedValuesKeys | src/typedconfig/core.py:256 | on success the keys are those already collected, then the input keys, in order |
| ResolverFacts.LoadedValuesValues | src/typedconfig/core.py:256 | on success each input key holds the instance loaded from its value, and earlier entries are unchanged |
| ResolverFacts.DictOfRecords | src/typedconfig/core.py:252-256 | `dict[K, C]` over a dict succeeds exactly when every value loads; then it keeps the keys, each bound to the instance loaded from its value |
| ResolverFacts.DictOfNonMapping | src/typedconfig/core.py:256 | `dict[K, C]` over anything but a dict fails on `.items()` |
| ResolverFacts.UnionNoRecord | src/typedconfig/core.py:259-265 | a union without custom-class members leaves the value as it is |
| ResolverFacts.UnionOneRecord | src/typedconfig/core.py:259-265 | a union with exactly one custom-class member loads that class |
| ResolverFacts.UnionRecordThenRecord | src/typedconfig/core.py:259-262 | when the first member is a custom class and one later member is, the later one receives the instance built by the first and fails |
| ResolverFacts.UnionTwoRecords | src/typedconfig/core.py:259-262 | a union with two custom-class members fails on the instance built for the first |
| ResolverFacts.UnionSkip | src/typedconfig/core.py:260-265 | members before the first custom class leave the value alone |
| ResolverFacts.UnionsAndNesting | src/typedconfig/core.py:245-267 | `Optional[C]` loads `C`; the pipe union of `C` and `None`, and `list[list[C]]`, pass the value through |
| ResolverFacts.PreparedFields | src/typedconfig/core.py:311-328 | prepared data comes from a dict and has unique keys: exactly the annotated, non-excluded names declared in the MRO, each with a value of its annotated type |
| ResolverFacts.PreparedSteps | src/typedconfig/core.py:323-328 | `_check_and_convert_data` is convert, then resolve, then validate |
| ResolverFacts.DataclassInstance | src/typedconfig/core.py:348-353 | a dataclass instance holds `init` as given, plus every other annotated field of the MRO with a value of its annotated type, and nothing else |
| ResolverFacts.PlainInstance | src/typedconfig/core.py:354-357 | a plain instance keeps what its constructor set, and adds every other annotated field with a value of its annotated type |
| ResolverFacts.LoadedNeedsMapping | src/typedconfig/core.py:325 | loading from anything but a dict fails on `.items()` |
| Loader.Instance.Update | src/typedconfig/core.py:357 | `__dict__.update(**entries)` overwrites and adds exactly the given entries |
| Loader.EnsureTypes | src/typedconfig/core.py:99-122 | the loop computes `ensure_types` |
| Loader.LoadRecursive | src/typedconfig/core.py:241-290 | the loop computes `load_recursive`, including its errors |
| Loader.ResolveValue | src/typedconfig/core.py:243-276 | the branch on the annotation computes the resolution of a present value |
| Loader.LoadEach | src/typedconfig/core.py:250 | the list comprehension, as a loop, builds the specified list or fails with the first element's error |
| Loader.LoadValues | src/typedconfig/core.py:256 | the dict comprehension, as a loop, builds the specified dict or fails with the first value's error |
| Loader.LoadUnion | src/typedconfig/core.py:259-265 | the loop over the union's members computes the specified value |
| Loader.CheckAndConvertData | src/typedconfig/core.py:311-328 | computes `_check_and_convert_data` |
| Loader.LoadIntoRecurse | src/typedconfig/core.py:331-359 | returns a fresh instance whose class and `__dict__` are the specified ones, or the specified error |
| Loader.LoadIntoExisting | src/typedconfig/core.py:362-385 | on success the instance's `__dict__` becomes the specified one; on error it is unchanged |
| Loader.LoadIntoClass | src/typedconfig/core.py:388-399 | selects the data, then builds a fresh instance as specified |
| Loader.LoadIntoInstance | src/typedconfig/core.py:402-414 | selects the data, then augments the instance as specified; on error the instance is unchanged |
| Loader.LoadInto | src/typedconfig/core.py:417-439 | a class gets a fresh instance, and an instance is augmented in place |
| Loader.Refreshed | src/typedconfig/core.py:362-385 | definition only: the `__dict__` `load_into_existing` leaves; its property is `Loader.RefreshKeepsExisting` |
| Loader.LoadedClass | src/typedconfig/core.py:388-399 | definition only: `_load_data` then `load_into_recurse`; `Loader.LoadIntoClass` computes it |
| Loader.RefreshedFrom | src/typedconfig/core.py:402-414 | definition only: `_load_data` then `load_into_existing`; `Loader.LoadIntoInstance` computes it and `Loader.InitRefused` states its error order |
| Loader.RefreshKeepsExisting | src/typedconfig/core.py:362-385 | augmenting keeps every existing attribute, adds exactly the annotated names it lacked, each with a value of its annotated type |
| Loader.InitRefused | src/typedconfig/core.py:373-374 | an existing instance refuses `init`, empty or not, after a successful data selection; a selection error comes first |
| Scenarios.OneFieldClass | src/typedconfig/core.py:331-353 | a one-field dataclass resolves its field, then type-checks it |
| Scenarios.DefaultFill | src/typedconfig/core.py:278-280 | an absent or None-valued field takes the class default |
| Scenarios.OptionalFill | src/typedconfig/core.py:281-283 | an absent optional field without a default becomes None |
| Scenarios.MissingRequiredField | src/typedconfig/core.py:284-286 | an absent required field fails with MissingKey |
| Scenarios.PlainField | src/typedconfig/core.py:118-121 | a value of the annotated type is stored, and any other value fails with InvalidType |
| Scenarios.NormalizedKeyFills | src/typedconfig/core.py:132 | `some-field` and `some.field` in the data fill field `some_field` |
| Scenarios.NestedRecord | src/typedconfig/core.py:269-276 | a field typed by a class holds an instance of it, loaded from the nested dict |
| Scenarios.ListOfItems | src/typedconfig/core.py:248-250 | a two-element list of dicts gives two instances, in order |

## Left out

- Reading TOML from a path or a file name. The model takes the parsed dict
  as input, and `tomllib` is not part of this model.
- typeguard's `check_type`. It is the parameter `Env.matches`, so every
  property holds for any type checker.
- `camel_to_snake` and `_guess_key`. The conversion is the parameter
  `Env.snakeCase`, and `helpers.py` is not part of this model.
- The constructor of a non-dataclass class. Its effect on `__dict__` is the
  parameter `Env.construct`. A constructor that raises, or a dataclass
  `__init__` that rejects its arguments or runs `__post_init__`, is not
  modelled.
- IsOptional follows the docstring of `is_optional` (core.py:196-202), not
  the `issubclass(types.NoneType, _type)` call at core.py:206. That call
  raises TypeError when `_type` is a parameterized generic such as
  `list[str]` or `dict[str, X]`, and when it is a `typing.Union` whose
  members include such a generic before `NoneType`, as
  `typing.Optional[dict[str, typing.Any]]` does. `IsOptional` is false for
  the first kind and true for the second, and
  `Values.ClassificationExamples` states `list[str]` as not optional.
- Fallback: for an absent field of those annotations without a default,
  the code raises TypeError, while the model returns MissingKey (a
  parameterized generic) or None (such an `Optional[...]`).
- Floats, NaN, datetimes and other TOML scalars. They are an opaque
  `Scalar` value, since the loader only passes them to the type checker.
- `Loader.Instance`: `__dict__` is modelled as a map, so attribute insertion
  order is not.
- `ResolvedValue`: which union syntax counts as `typing.Union` depends on
  the Python version, so it is the flag `pipe` of `TypeDesc.Union`.
- `Loaded`: `to_load |= init` followed by `cls(**to_load)` is modelled as a
  map merge in which `init` wins. Field order is not kept.
- `Iterated`: iterating a string yields its one-character strings, and
  bytes, sets, tuples and other iterables are not modelled.
- The `warnings.warn` branch of `ensure_types`. It is modelled as skipping
  the key, as the code does; the warning itself is I/O.
- `cls.py`, `__init__.py`, the CLI and the error-message formatting in
  `errors.py`. These are not part of this model.
