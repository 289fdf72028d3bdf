/** The classes the loader reads, and the annotation collector
    (`_all_annotations`, `all_annotations`): a ChainMap over the method
    resolution order in which the most-derived declaration of a name wins. */
module Schema {
  import opened Dicts
  import opened Values

  /** What the loader reads off one class. */
  datatype ClassDecl = ClassDecl(
    annotations: Entries<TypeDesc>, // the class's own `__annotations__`, in declaration order
    defaults: map<string, Value>,   // the class's own `__dict__` attributes
    ancestors: seq<string>,         // `__mro__` after the class itself, as Python linearises it
    isDataclass: bool)

  /** The declared classes plus the collaborators outside the core. */
  datatype Env = Env(
    classes: map<string, ClassDecl>,
    matches: (Value, TypeDesc) -> bool,                           // typeguard's check_type
    construct: (string, map<string, Value>) -> map<string, Value>, // `__dict__` after `cls(**init)`
    snakeCase: string -> string)                                  // camel_to_snake
  {
    /** A class the schema does not list declares nothing (like `object`). */
    function Decl(name: string): ClassDecl
    {
      if name in classes then classes[name] else ClassDecl([], map[], [], false)
    }

    /** `cls.__mro__`. */
    function Mro(name: string): seq<string>
    {
      [name] + Decl(name).ancestors
    }
  }

  predicate NoDup(s: seq<string>)
  {
    forall i, j | 0 <= i < j < |s| :: s[i] != s[j]
  }

  /** The maps of the ChainMap: each class's own annotations, most derived first. */
  function Layers(env: Env, cls: string): (layers: seq<Entries<TypeDesc>>)
    ensures |layers| == |env.Mro(cls)|
  {
    var mro := env.Mro(cls);
    seq(|mro|, i requires 0 <= i < |mro| => env.Decl(mro[i]).annotations)
  }

  /** `d.update(dict.fromkeys(ks))` on the keys `acc` of an ordered dict. */
  function AddNew(acc: seq<string>, ks: seq<string>): (r: seq<string>)
    ensures forall x :: x in r <==> x in acc || x in ks
    ensures NoDup(acc) ==> NoDup(r)
    ensures |acc| <= |r| && r[..|acc|] == acc
    decreases ks
  {
    if ks == [] then acc
    else
      var next := if ks[0] in acc then acc else acc + [ks[0]];
      assert next[..|acc|] == acc;
      AddNew(next, ks[1..])
  }

  /** Iteration order of a ChainMap: the last map's keys first, then each
      earlier map's new keys. */
  function ChainKeys(layers: seq<Entries<TypeDesc>>): (r: seq<string>)
    ensures NoDup(r)
  {
    if layers == [] then [] else AddNew(ChainKeys(layers[1..]), Keys(layers[0]))
  }

  /** ChainMap lookup: the first map that holds the key decides. */
  function ChainGet(layers: seq<Entries<TypeDesc>>, k: string): Option<TypeDesc>
  {
    if layers == [] then None
    else
      match Get(layers[0], k)
      case Some(t) => Some(t)
      case None => ChainGet(layers[1..], k)
  }

  /** `{k: v for k, v in chain.items() if k not in _except}` over the keys `ks`. */
  function Collect(layers: seq<Entries<TypeDesc>>, ks: seq<string>, except: set<string>): Entries<TypeDesc>
  {
    if ks == [] then []
    else
      var rest := Collect(layers, ks[1..], except);
      match ChainGet(layers, ks[0])
      case Some(t) => if ks[0] in except then rest else [(ks[0], t)] + rest
      case None => rest
  }

  /** `all_annotations(cls, _except)`. */
  function AllAnnotations(env: Env, cls: string, except: set<string>): Entries<TypeDesc>
  {
    var layers := Layers(env, cls);
    Collect(layers, ChainKeys(layers), except)
  }

  /** Some class in the MRO of `cls` declares `k`. */
  predicate DeclaredInMro(env: Env, cls: string, k: string)
  {
    exists c | c in env.Mro(cls) :: k in Keys(env.Decl(c).annotations)
  }

  // ---------------------------------------------------------------------
  // Lemmas about the ChainMap

  lemma {:induction false} ChainKeysMembers(layers: seq<Entries<TypeDesc>>, k: string)
    ensures k in ChainKeys(layers) <==> exists i | 0 <= i < |layers| :: k in Keys(layers[i])
  {
    if layers != [] {
      ChainKeysMembers(layers[1..], k);
      if k in ChainKeys(layers[1..]) {
        var i :| 0 <= i < |layers[1..]| && k in Keys(layers[1..][i]);
        assert k in Keys(layers[i + 1]);
      }
      if exists i | 0 <= i < |layers| :: k in Keys(layers[i]) {
        var i :| 0 <= i < |layers| && k in Keys(layers[i]);
        if i > 0 {
          assert k in Keys(layers[1..][i - 1]);
        }
      }
    }
  }

  /** The first map declaring `k` supplies its value. */
  lemma {:induction false} ChainGetFirst(layers: seq<Entries<TypeDesc>>, k: string, i: nat)
    requires i < |layers| && k in Keys(layers[i])
    requires forall j | 0 <= j < i :: k !in Keys(layers[j])
    ensures ChainGet(layers, k) == Get(layers[i], k)
  {
    if i > 0 {
      ChainGetFirst(layers[1..], k, i - 1);
    }
  }

  lemma {:induction false} ChainGetDefined(layers: seq<Entries<TypeDesc>>, k: string)
    requires k in ChainKeys(layers)
    ensures ChainGet(layers, k).Some?
  {
    ChainKeysMembers(layers, k);
    if k !in Keys(layers[0]) {
      var i :| 0 <= i < |layers| && k in Keys(layers[i]);
      assert k in Keys(layers[1..][i - 1]);
      ChainKeysMembers(layers[1..], k);
      ChainGetDefined(layers[1..], k);
    }
  }

  lemma {:induction false} CollectSpec(layers: seq<Entries<TypeDesc>>, ks: seq<string>, except: set<string>)
    requires NoDup(ks)
    ensures UniqueKeys(Collect(layers, ks, except))
    ensures forall k :: k in Keys(Collect(layers, ks, except)) <==>
      k in ks && k !in except && ChainGet(layers, k).Some?
    ensures forall k | k in Keys(Collect(layers, ks, except)) ::
      Get(Collect(layers, ks, except), k) == ChainGet(layers, k)
  {
    if ks != [] {
      var rest := Collect(layers, ks[1..], except);
      CollectSpec(layers, ks[1..], except);
      var r := Collect(layers, ks, except);
      if ChainGet(layers, ks[0]).Some? && ks[0] !in except {
        assert r == [(ks[0], ChainGet(layers, ks[0]).value)] + rest;
        assert Keys(r) == [ks[0]] + Keys(rest);
        assert ks[0] !in ks[1..] by {
          forall j | 0 <= j < |ks[1..]| ensures ks[1..][j] != ks[0] {
            assert ks[1..][j] == ks[j + 1];
          }
        }
        forall i, j | 0 <= i < j < |r| ensures r[i].0 != r[j].0 {
          if i == 0 {
            assert r[j].0 == Keys(rest)[j - 1];
          } else {
            assert r[i] == rest[i - 1] && r[j] == rest[j - 1];
          }
        }
        forall k | k in Keys(r) ensures Get(r, k) == ChainGet(layers, k) {
          if k != ks[0] {
            assert IndexOf(r, k) == 1 + IndexOf(rest, k) by {
              var a := IndexOf(r, k);
              var b := IndexOf(rest, k);
              assert r[b + 1].0 == k;
              assert a > 0;
              assert rest[a - 1].0 == k;
            }
          }
        }
      }
    }
  }

  // ---------------------------------------------------------------------
  // What all_annotations promises

  /** Each name occurs once, and a name is collected exactly when some class
      of the MRO declares it and it is not excluded. */
  lemma AllAnnotationsKeys(env: Env, cls: string, except: set<string>, k: string)
    ensures UniqueKeys(AllAnnotations(env, cls, except))
    ensures k in Keys(AllAnnotations(env, cls, except)) <==>
      DeclaredInMro(env, cls, k) && k !in except
  {
    var layers := Layers(env, cls);
    var mro := env.Mro(cls);
    CollectSpec(layers, ChainKeys(layers), except);
    ChainKeysMembers(layers, k);
    if DeclaredInMro(env, cls, k) {
      var c :| c in mro && k in Keys(env.Decl(c).annotations);
      var i :| 0 <= i < |mro| && mro[i] == c;
      assert k in Keys(layers[i]);
      ChainGetDefined(layers, k);
    }
    if k in ChainKeys(layers) {
      var i :| 0 <= i < |layers| && k in Keys(layers[i]);
      assert mro[i] in mro;
    }
  }

  /** The most-derived class that declares a name supplies its annotation. */
  lemma AllAnnotationsMostDerived(env: Env, cls: string, except: set<string>, k: string, i: nat)
    requires i < |env.Mro(cls)| && k !in except
    requires k in Keys(env.Decl(env.Mro(cls)[i]).annotations)
    requires forall j | 0 <= j < i :: k !in Keys(env.Decl(env.Mro(cls)[j]).annotations)
    ensures Get(AllAnnotations(env, cls, except), k) == Get(env.Decl(env.Mro(cls)[i]).annotations, k)
  {
    var layers := Layers(env, cls);
    CollectSpec(layers, ChainKeys(layers), except);
    ChainGetFirst(layers, k, i);
    ChainKeysMembers(layers, k);
  }

  /** Inheritance precedence: when a class and one of its ancestors both
      annotate `k`, the class's own annotation is the one collected. */
  lemma OwnAnnotationWins(env: Env, cls: string, k: string)
    requires k in Keys(env.Decl(cls).annotations)
    ensures Get(AllAnnotations(env, cls, {}), k) == Get(env.Decl(cls).annotations, k)
  {
    AllAnnotationsMostDerived(env, cls, {}, k, 0);
  }

  lemma {:induction false} AddNewFresh(acc: seq<string>, ks: seq<string>)
    requires NoDup(acc + ks)
    ensures AddNew(acc, ks) == acc + ks
    decreases ks
  {
    if ks != [] {
      assert ks[0] == (acc + ks)[|acc|];
      assert ks[0] !in acc by {
        forall i | 0 <= i < |acc| ensures acc[i] != ks[0] {
          assert acc[i] == (acc + ks)[i];
        }
      }
      assert acc + ks == (acc + [ks[0]]) + ks[1..];
      AddNewFresh(acc + [ks[0]], ks[1..]);
    }
  }

  lemma {:induction false} CollectOwn(layer: Entries<TypeDesc>, i: nat)
    requires UniqueKeys(layer) && i <= |layer|
    ensures Collect([layer], Keys(layer[i..]), {}) == layer[i..]
    decreases |layer| - i
  {
    if i < |layer| {
      CollectOwn(layer, i + 1);
      var ks := Keys(layer[i..]);
      assert ks[0] == layer[i].0 && ks[1..] == Keys(layer[i + 1..]);
      GetAt(layer, i);
      assert ChainGet([layer], layer[i].0) == Some(layer[i].1);
      assert layer[i..] == [layer[i]] + layer[i + 1..];
    }
  }

  /** A class whose only base is `object` collects exactly its own
      annotations, in declaration order. */
  lemma RootClassAnnotations(env: Env, cls: string)
    requires env.Decl(cls).ancestors == [] && UniqueKeys(env.Decl(cls).annotations)
    ensures AllAnnotations(env, cls, {}) == env.Decl(cls).annotations
  {
    var anns := env.Decl(cls).annotations;
    assert env.Mro(cls) == [cls];
    var layers := Layers(env, cls);
    assert |layers| == 1 && layers[0] == anns;
    assert layers == [anns];
    OwnChainKeys(anns);
    CollectOwn(anns, 0);
    assert anns[0..] == anns;
  }

  lemma OwnChainKeys(anns: Entries<TypeDesc>)
    requires UniqueKeys(anns)
    ensures ChainKeys([anns]) == Keys(anns)
  {
    var ks := Keys(anns);
    assert [anns][1..] == [];
    assert ChainKeys([anns]) == AddNew([], ks);
    assert NoDup([] + ks) by {
      assert [] + ks == ks;
      forall i, j | 0 <= i < j < |ks| ensures ks[i] != ks[j] {
        assert ks[i] == anns[i].0 && ks[j] == anns[j].0;
      }
    }
    AddNewFresh([], ks);
    assert [] + ks == ks;
  }
}
