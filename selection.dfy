/** Scoped-data selection (`_load_data`, `_data_for_nested_key`): which
    sub-mapping of the input a class is loaded from. Opening and parsing a
    TOML file is not part of this model; the input is an in-memory dict. */
module Selection {
  import opened Dicts
  import opened Values
  import opened Schema

  /** `s.split(".")`. */
  function Split(s: string): (parts: seq<string>)
    ensures |parts| >= 1
    decreases |s|
  {
    if s == [] then [""] else ConsSplit(s[0], Split(s[1..]))
  }

  /** The segments of `[c] + t`, given the segments `p` of `t`: a dot opens
      a new segment, any other character joins the first one. */
  function ConsSplit(c: char, p: seq<string>): (r: seq<string>)
    requires |p| >= 1
    ensures |r| >= 1
  {
    if c == '.' then [""] + p else [[c] + p[0]] + p[1..]
  }

  /** `".".join(parts)`. */
  function Join(parts: seq<string>): string
    requires |parts| >= 1
  {
    if |parts| == 1 then parts[0] else parts[0] + "." + Join(parts[1..])
  }

  predicate NoDots(parts: seq<string>)
  {
    forall i | 0 <= i < |parts| :: '.' !in parts[i]
  }

  lemma {:induction false} SplitNoDots(s: string)
    ensures NoDots(Split(s))
    decreases |s|
  {
    if s != [] {
      SplitNoDots(s[1..]);
      var rest := Split(s[1..]);
      if s[0] != '.' {
        assert '.' !in rest[0];
        var p := Split(s);
        assert p[0] == [s[0]] + rest[0];
        assert forall i | 1 <= i < |p| :: p[i] == rest[i];
      }
    }
  }

  /** Joining the segments gives the key back. */
  lemma {:induction false} JoinSplit(s: string)
    ensures Join(Split(s)) == s
    decreases |s|
  {
    if s != [] {
      JoinSplit(s[1..]);
      var rest := Split(s[1..]);
      if s[0] == '.' {
        assert Split(s)[1..] == rest;
      } else if |rest| == 1 {
        assert Join(Split(s)) == [s[0]] + rest[0];
      } else {
        var p := Split(s);
        assert p[1..] == rest[1..];
        assert Join(rest) == rest[0] + "." + Join(rest[1..]);
      }
    }
  }

  /** Splitting a key made of dot-free segments gives the segments back. */
  lemma {:induction false} SplitJoin(parts: seq<string>)
    requires |parts| >= 1 && NoDots(parts)
    ensures Split(Join(parts)) == parts
    decreases |Join(parts)|
  {
    SplitNoDotsIsSingleton(parts[0]);
    if |parts| > 1 {
      assert NoDots(parts[1..]);
      SplitJoin(parts[1..]);
      SplitConcat(parts[0], Join(parts[1..]));
    }
  }

  lemma {:induction false} SplitNoDotsIsSingleton(s: string)
    requires '.' !in s
    ensures Split(s) == [s]
    decreases |s|
  {
    if s != [] {
      SplitNoDotsIsSingleton(s[1..]);
      assert [s[0]] + s[1..] == s;
    }
  }

  /** A key `a.b` splits into the segments of `a` followed by those of `b`. */
  lemma {:induction false} SplitConcat(a: string, b: string)
    ensures Split(a + "." + b) == Split(a) + Split(b)
    decreases |a|
  {
    if a == [] {
      assert a + "." + b == ['.'] + b;
      SplitCons('.', b);
    } else {
      SplitConcat(a[1..], b);
      SplitConcatStep(a[0], a[1..], b);
      assert [a[0]] + a[1..] == a;
    }
  }

  /** The inductive step of `SplitConcat`, for a key `c` followed by `t`. */
  lemma SplitConcatStep(c: char, t: string, b: string)
    requires Split(t + "." + b) == Split(t) + Split(b)
    ensures Split([c] + t + "." + b) == Split([c] + t) + Split(b)
  {
    assert [c] + t + "." + b == [c] + (t + "." + b);
    SplitCons(c, t + "." + b);
    SplitCons(c, t);
    ConsSplitAppend(c, Split(t), Split(b));
  }

  /** Prepending a character only touches the first segment. */
  lemma ConsSplitAppend(c: char, h: seq<string>, q: seq<string>)
    requires |h| >= 1
    ensures ConsSplit(c, h + q) == ConsSplit(c, h) + q
  {
    if c != '.' {
      assert (h + q)[1..] == h[1..] + q;
    }
  }

  /** One step of `Split`: the first character either ends the first
      segment or joins it. */
  lemma SplitCons(c: char, t: string)
    ensures Split([c] + t) == ConsSplit(c, Split(t))
  {
    assert ([c] + t)[0] == c && ([c] + t)[1..] == t;
  }

  /** `raw[parts[0]][parts[1]]...`, raising as Python's indexing does: the
      only failures are a missing key and indexing a non-dict, and either
      names a segment of the path. */
  function Walk(parts: seq<string>, raw: Value): (r: Result<Value>)
    ensures r.Err? ==> (r.error.KeyErr? || r.error.NotSubscriptable?) && r.error.key in parts
  {
    if parts == [] then Ok(raw)
    else
      match raw
      case Table(entries) =>
        (match Get(entries, parts[0])
         case Some(v) => Walk(parts[1..], v)
         case None => Err(KeyErr(parts[0])))
      case _ => Err(NotSubscriptable(parts[0]))
  }

  /** Walking a longer path is walking its first part, then the rest. */
  lemma {:induction false} WalkConcat(p: seq<string>, q: seq<string>, raw: Value)
    ensures Walk(p + q, raw) == (match Walk(p, raw) case Ok(v) => Walk(q, v) case Err(e) => Err(e))
  {
    if p != [] {
      assert (p + q)[0] == p[0] && (p + q)[1..] == p[1..] + q;
      if raw.Table? && Get(raw.entries, p[0]).Some? {
        WalkConcat(p[1..], q, Get(raw.entries, p[0]).value);
      }
    } else {
      assert p + q == q;
    }
  }

  /** `_data_for_nested_key(a + "." + b, raw)` selects `a` first, then `b`
      inside it. */
  lemma DottedKeyComposes(a: string, b: string, raw: Value)
    ensures Walk(Split(a + "." + b), raw) ==
      (match Walk(Split(a), raw) case Ok(v) => Walk(Split(b), v) case Err(e) => Err(e))
  {
    SplitConcat(a, b);
    WalkConcat(Split(a), Split(b), raw);
  }

  /** A key of three dot-free segments splits into those segments. */
  lemma SplitThree(x: string, y: string, z: string)
    requires '.' !in x && '.' !in y && '.' !in z
    ensures Split(x + "." + y + "." + z) == [x, y, z]
  {
    SplitNoDotsIsSingleton(x);
    SplitNoDotsIsSingleton(y);
    SplitNoDotsIsSingleton(z);
    SplitConcat(y, z);
    SplitConcat(x, y + "." + z);
    assert x + "." + y + "." + z == x + "." + (y + "." + z);
  }

  /** `_data_for_nested_key(x + "." + y + "." + z, raw)` is
      `raw[x][y][z]` whenever the two outer levels are dicts holding the
      next segment. */
  lemma NestedKeyFound(x: string, y: string, z: string, raw: Entries<Value>,
                       mid: Entries<Value>, inner: Entries<Value>, v: Value)
    requires '.' !in x && '.' !in y && '.' !in z
    requires Get(raw, x) == Some(Table(mid)) && Get(mid, y) == Some(Table(inner))
    requires Get(inner, z) == Some(v)
    ensures Walk(Split(x + "." + y + "." + z), Table(raw)) == Ok(v)
  {
    SplitThree(x, y, z);
    assert [x, y, z][1..] == [y, z] && [y, z][1..] == [z] && [z][1..] == [];
    assert Walk([z], Table(inner)) == Ok(v);
    assert Walk([y, z], Table(mid)) == Ok(v);
  }

  /** ... a middle segment missing from its dict raises KeyError naming it ... */
  lemma NestedKeyMissing(x: string, y: string, z: string, raw: Entries<Value>, mid: Entries<Value>)
    requires '.' !in x && '.' !in y && '.' !in z
    requires Get(raw, x) == Some(Table(mid)) && Get(mid, y) == None
    ensures Walk(Split(x + "." + y + "." + z), Table(raw)) == Err(KeyErr(y))
  {
    SplitThree(x, y, z);
    assert [x, y, z][1..] == [y, z];
  }

  /** ... and a first segment that holds no dict cannot be indexed by the
      second (TypeError). */
  lemma NestedKeyNotADict(x: string, y: string, z: string, raw: Entries<Value>, w: Value)
    requires '.' !in x && '.' !in y && '.' !in z
    requires Get(raw, x) == Some(w) && !w.Table?
    ensures Walk(Split(x + "." + y + "." + z), Table(raw)) == Err(NotSubscriptable(y))
  {
    SplitThree(x, y, z);
    assert [x, y, z][1..] == [y, z];
  }

  /** `_data_for_nested_key(key, raw)`: pop segments off the front and index
      one level deeper for each. */
  method DataForNestedKey(key: string, raw: Entries<Value>) returns (r: Result<Value>)
    ensures r == Walk(Split(key), Table(raw))
  {
    var parts := Split(key);
    var cur := Table(raw);
    while parts != []
      invariant Walk(Split(key), Table(raw)) == Walk(parts, cur)
      decreases |parts|
    {
      var part := parts[0];
      parts := parts[1..];
      match cur {
        case Table(entries) =>
          match Get(entries, part) {
            case Some(v) => cur := v;
            case None => return Err(KeyErr(part));
          }
        case _ => return Err(NotSubscriptable(part));
      }
    }
    return Ok(cur);
  }

  /** The key `_load_data` settles on: the explicit one, else the sole
      top-level key, else the class name in snake case. */
  function ChosenKey(env: Env, data: Entries<Value>, key: Option<string>, classname: Option<string>): Option<string>
  {
    if key.Some? then key
    else if |data| == 1 then Some(data[0].0)
    else if classname.Some? then Some(env.snakeCase(classname.value))
    else None
  }

  /** `_load_data(data, key, classname)` for an in-memory dict. */
  function SelectedData(env: Env, data: Entries<Value>, key: Option<string>, classname: Option<string>): Result<Value>
  {
    if data == [] then Ok(Table([]))
    else
      var chosen := ChosenKey(env, data, key, classname);
      if chosen.Some? && chosen.value != "" then Walk(Split(chosen.value), Table(data))
      else Ok(Table(data))
  }

  method LoadData(env: Env, data: Entries<Value>, key: Option<string>, classname: Option<string>)
    returns (r: Result<Value>)
    ensures r == SelectedData(env, data, key, classname)
  {
    if data == [] {
      return Ok(Table([]));
    }
    var chosen := key;
    if chosen.None? {
      if |data| == 1 {
        chosen := Some(data[0].0);
      } else if classname.Some? {
        chosen := Some(env.snakeCase(classname.value));
      }
    }
    if chosen.Some? && chosen.value != "" {
      r := DataForNestedKey(chosen.value, data);
    } else {
      r := Ok(Table(data));
    }
  }

  // ---------------------------------------------------------------------
  // What _load_data promises

  /** Empty data selects an empty dict, whatever the key. */
  lemma SelectEmpty(env: Env, key: Option<string>, classname: Option<string>)
    ensures SelectedData(env, [], key, classname) == Ok(Table([]))
  {
  }

  /** An explicit empty key selects the whole mapping, unscoped. */
  lemma SelectEmptyKey(env: Env, data: Entries<Value>, classname: Option<string>)
    ensures SelectedData(env, data, Some(""), classname) == Ok(Table(data))
  {
  }

  /** With no key and a single top-level entry, that entry is selected. */
  lemma SelectSoleEntry(env: Env, k: string, v: Value, classname: Option<string>)
    requires k != "" && '.' !in k
    ensures SelectedData(env, [(k, v)], None, classname) == Ok(v)
  {
    SplitNoDotsIsSingleton(k);
    GetFirst([(k, v)]);
    assert Walk([k], Table([(k, v)])) == Walk([], v);
  }

  /** ... but a sole key that contains a dot is split like any other key,
      so its first segment is looked up and is missing. */
  lemma SelectSoleDottedEntry(env: Env, a: string, b: string, v: Value, classname: Option<string>)
    requires '.' !in a
    ensures SelectedData(env, [(a + "." + b, v)], None, classname) == Err(KeyErr(a))
  {
    SplitConcat(a, b);
    SplitNoDotsIsSingleton(a);
    var k := a + "." + b;
    assert k[|a|] == '.' && k != a;
    assert Keys([(k, v)]) == [k];
    assert Split(k)[0] == a;
  }

  /** With no key and several entries, the class name in snake case is the
      key. */
  lemma SelectByClassName(env: Env, data: Entries<Value>, classname: string)
    requires |data| > 1 && env.snakeCase(classname) != ""
    ensures SelectedData(env, data, None, Some(classname)) ==
      Walk(Split(env.snakeCase(classname)), Table(data))
  {
  }

  /** Data `{"a": {"b": {"x": 1}}}` with key `"a.b"` selects `{"x": 1}`. */
  lemma SelectDottedExample(env: Env, classname: Option<string>)
    ensures SelectedData(env, [("a", Table([("b", Table([("x", Int(1))]))]))], Some("a.b"), classname)
      == Ok(Table([("x", Int(1))]))
  {
    SplitConcat("a", "b");
    SplitNoDotsIsSingleton("a");
    SplitNoDotsIsSingleton("b");
    assert "a" + "." + "b" == "a.b";
    var tx := Table([("x", Int(1))]);
    var tb := Table([("b", tx)]);
    GetFirst([("a", tb)]);
    GetFirst([("b", tx)]);
    assert Split("a.b") == ["a", "b"];
    assert Walk(["b"], tb) == Walk([], tx);
    assert Walk(["a", "b"], Table([("a", tb)])) == Walk(["b"], tb);
  }
}
