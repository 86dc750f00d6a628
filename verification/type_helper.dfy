/** `ForceLocalizeSystem.TypeHelper`: a one-shot index of the target mod's
    types by `Name` and by `FullName`, built on first use and torn down
    once loading reaches the recipe phase, after which every use fails. */
module TypeHelper {
  import opened Wrappers
  import opened Reflection

  /** A loaded assembly: the loadable types it yields, in order. */
  datatype Assembly = Assembly(name: string, types: seq<TypeRef>)

  /** The cache's indices. */
  datatype Index = Index(
    typesByName: map<string, TypeRef>,
    duplicatedNames: set<string>,
    typeByFullName: map<string, TypeRef>)

  /** The static fields of `TypeHelper`. */
  datatype Cache = Cache(
    initialized: bool,
    cleared: bool,
    modAssembly: Option<Assembly>,
    typesByName: Option<map<string, TypeRef>>,
    duplicatedNames: Option<set<string>>,
    typeByFullName: Option<map<string, TypeRef>>)

  /** The exceptions `Initialize` throws. */
  datatype CacheError =
    | InitializedAfterClear
    | InitializedTwice
    | ModNotFound(modName: string)

  /** The loaded mods by name, and the name of the mod being localised. */
  datatype Host = Host(mods: map<string, Assembly>, modName: string)

  /** The static state before first use. */
  const Fresh: Cache := Cache(false, false, None, None, None, None)

  // ----- Indexing -----

  /** One iteration of `Initialize`'s loop: `TryAdd` by name, recording a
      name that was already present, and `TryAdd` by full name when there is
      one. */
  function AddType(ix: Index, t: TypeRef): (r: Index)
    ensures r.typesByName.Keys == ix.typesByName.Keys + {t.name}
    ensures forall n :: n in ix.typesByName ==> r.typesByName[n] == ix.typesByName[n]
    ensures t.name !in ix.typesByName ==> r.typesByName[t.name] == t
    ensures r.duplicatedNames == if t.name in ix.typesByName then ix.duplicatedNames + {t.name} else ix.duplicatedNames
    ensures t.fullName.None? ==> r.typeByFullName == ix.typeByFullName
    ensures t.fullName.Some? ==> r.typeByFullName.Keys == ix.typeByFullName.Keys + {t.fullName.value}
    ensures forall n :: n in ix.typeByFullName ==> r.typeByFullName[n] == ix.typeByFullName[n]
    ensures t.fullName.Some? && t.fullName.value !in ix.typeByFullName ==> r.typeByFullName[t.fullName.value] == t
  {
    var known := t.name in ix.typesByName;
    Index(
      if known then ix.typesByName else ix.typesByName[t.name := t],
      if known then ix.duplicatedNames + {t.name} else ix.duplicatedNames,
      if t.fullName.Some? && t.fullName.value !in ix.typeByFullName
      then ix.typeByFullName[t.fullName.value := t]
      else ix.typeByFullName)
  }

  /** The indices after the loop has visited `types` in order. */
  function IndexTypes(types: seq<TypeRef>): Index
    decreases |types|
  {
    if types == [] then Index(map[], {}, map[])
    else AddType(IndexTypes(types[..|types| - 1]), types[|types| - 1])
  }

  /** `k` is the first position whose type has name `name`. */
  ghost predicate FirstNamed(types: seq<TypeRef>, k: nat, name: string)
  {
    k < |types| && types[k].name == name && forall j :: 0 <= j < k ==> types[j].name != name
  }

  /** `k` is the first position whose type has full name `fullName`. */
  ghost predicate FirstFullNamed(types: seq<TypeRef>, k: nat, fullName: string)
  {
    k < |types| && types[k].fullName == Some(fullName) && forall j :: 0 <= j < k ==> types[j].fullName != Some(fullName)
  }

  /** `TypeByName` holds exactly the names that occur. */
  lemma {:induction false} IndexByNameKeys(types: seq<TypeRef>, name: string)
    ensures name in IndexTypes(types).typesByName <==> exists k :: 0 <= k < |types| && types[k].name == name
    decreases |types|
  {
    if types != [] {
      var n := |types| - 1;
      var prefix := types[..n];
      IndexByNameKeys(prefix, name);
      if exists k :: 0 <= k < |types| && types[k].name == name {
        var k :| 0 <= k < |types| && types[k].name == name;
        if k < n {
          assert prefix[k] == types[k];
        }
      }
      if exists k :: 0 <= k < |prefix| && prefix[k].name == name {
        var k :| 0 <= k < |prefix| && prefix[k].name == name;
        assert types[k] == prefix[k];
      }
    }
  }

  /** `TypeByName` maps each name to the first type carrying it. */
  lemma {:induction false} IndexByNameFirstWins(types: seq<TypeRef>, name: string)
    requires name in IndexTypes(types).typesByName
    ensures exists k: nat :: FirstNamed(types, k, name) && IndexTypes(types).typesByName[name] == types[k]
    decreases |types|
  {
    var n := |types| - 1;
    var prefix := types[..n];
    if name in IndexTypes(prefix).typesByName {
      IndexByNameFirstWins(prefix, name);
      var k: nat :| FirstNamed(prefix, k, name) && IndexTypes(prefix).typesByName[name] == prefix[k];
      assert FirstNamed(types, k, name) by {
        forall j | 0 <= j < k ensures types[j].name != name {
          assert types[j] == prefix[j];
        }
      }
    } else {
      IndexByNameKeys(prefix, name);
      assert FirstNamed(types, n, name) by {
        forall j | 0 <= j < n ensures types[j].name != name {
          assert types[j] == prefix[j];
        }
      }
    }
  }

  /** `name` occurs at two distinct positions of `types`. */
  ghost predicate OccursTwice(types: seq<TypeRef>, name: string)
  {
    exists i, j :: 0 <= i < j < |types| && types[i].name == name && types[j].name == name
  }

  /** A repeated name in a prefix stays repeated in the whole sequence. */
  lemma OccursTwicePrefix(types: seq<TypeRef>, n: nat, name: string)
    requires n <= |types|
    requires OccursTwice(types[..n], name)
    ensures OccursTwice(types, name)
  {
    var prefix := types[..n];
    var i, j :| 0 <= i < j < |prefix| && prefix[i].name == name && prefix[j].name == name;
    assert types[i] == prefix[i] && types[j] == prefix[j];
  }

  /** Splitting a repetition in `types` at its last element. */
  lemma OccursTwiceLast(types: seq<TypeRef>, name: string)
    requires types != []
    requires OccursTwice(types, name)
    ensures var prefix := types[..|types| - 1];
      OccursTwice(prefix, name) ||
      (types[|types| - 1].name == name && exists k :: 0 <= k < |prefix| && prefix[k].name == name)
  {
    var n := |types| - 1;
    var prefix := types[..n];
    var i, j :| 0 <= i < j < |types| && types[i].name == name && types[j].name == name;
    assert prefix[i] == types[i];
    if j < n {
      assert prefix[j] == types[j];
    }
  }

  /** `DuplicatedNames` holds exactly the names that occur at two or more
      positions. */
  lemma {:induction false} IndexDuplicates(types: seq<TypeRef>, name: string)
    ensures name in IndexTypes(types).duplicatedNames <==> OccursTwice(types, name)
    decreases |types|
  {
    if types != [] {
      var n := |types| - 1;
      var prefix := types[..n];
      IndexDuplicates(prefix, name);
      IndexByNameKeys(prefix, name);
      if OccursTwice(types, name) {
        OccursTwiceLast(types, name);
      }
      if name in IndexTypes(prefix).duplicatedNames {
        OccursTwicePrefix(types, n, name);
      } else if types[n].name == name && name in IndexTypes(prefix).typesByName {
        var i :| 0 <= i < |prefix| && prefix[i].name == name;
        assert types[i] == prefix[i];
        assert OccursTwice(types, name);
      }
    }
  }

  /** `TypeByFullName` holds exactly the non-null full names that occur;
      types with a null full name are skipped. */
  lemma {:induction false} IndexByFullNameKeys(types: seq<TypeRef>, fullName: string)
    ensures fullName in IndexTypes(types).typeByFullName <==>
      exists k :: 0 <= k < |types| && types[k].fullName == Some(fullName)
    decreases |types|
  {
    if types != [] {
      var n := |types| - 1;
      var prefix := types[..n];
      IndexByFullNameKeys(prefix, fullName);
      if exists k :: 0 <= k < |types| && types[k].fullName == Some(fullName) {
        var k :| 0 <= k < |types| && types[k].fullName == Some(fullName);
        if k < n {
          assert prefix[k] == types[k];
        }
      }
      if exists k :: 0 <= k < |prefix| && prefix[k].fullName == Some(fullName) {
        var k :| 0 <= k < |prefix| && prefix[k].fullName == Some(fullName);
        assert types[k] == prefix[k];
      }
    }
  }

  /** `TypeByFullName` maps each full name to the first type carrying it. */
  lemma {:induction false} IndexByFullNameFirstWins(types: seq<TypeRef>, fullName: string)
    requires fullName in IndexTypes(types).typeByFullName
    ensures exists k: nat :: FirstFullNamed(types, k, fullName) && IndexTypes(types).typeByFullName[fullName] == types[k]
    decreases |types|
  {
    var n := |types| - 1;
    var prefix := types[..n];
    if fullName in IndexTypes(prefix).typeByFullName {
      IndexByFullNameFirstWins(prefix, fullName);
      var k: nat :| FirstFullNamed(prefix, k, fullName) && IndexTypes(prefix).typeByFullName[fullName] == prefix[k];
      assert FirstFullNamed(types, k, fullName) by {
        forall j | 0 <= j < k ensures types[j].fullName != Some(fullName) {
          assert types[j] == prefix[j];
        }
      }
    } else {
      IndexByFullNameKeys(prefix, fullName);
      assert FirstFullNamed(types, n, fullName) by {
        forall j | 0 <= j < n ensures types[j].fullName != Some(fullName) {
          assert types[j] == prefix[j];
        }
      }
    }
  }

  // ----- Lifecycle -----

  /** The three lifecycle states the fields can be in. */
  ghost predicate Uninitialized(c: Cache)
  {
    !c.initialized && !c.cleared
    && c.modAssembly.None? && c.typesByName.None? && c.duplicatedNames.None? && c.typeByFullName.None?
  }

  ghost predicate Ready(c: Cache)
  {
    c.initialized && !c.cleared
    && c.modAssembly.Some? && c.typesByName.Some? && c.duplicatedNames.Some? && c.typeByFullName.Some?
  }

  ghost predicate Cleared(c: Cache)
  {
    !c.initialized && c.cleared
    && c.modAssembly.None? && c.typesByName.None? && c.duplicatedNames.None? && c.typeByFullName.None?
  }

  ghost predicate Valid(c: Cache)
  {
    Uninitialized(c) || Ready(c) || Cleared(c)
  }

  /** `Initialize()`: fails after `Clear`, then on a second call, then when
      the mod is not loaded; only then marks the cache initialised and
      indexes the mod's types. A failure leaves the fields as they were. */
  function Initialize(c: Cache, host: Host): (r: Result<Cache, CacheError>)
    ensures c.cleared ==> r == Failure(InitializedAfterClear)
    ensures !c.cleared && c.initialized ==> r == Failure(InitializedTwice)
    ensures !c.cleared && !c.initialized && host.modName !in host.mods ==> r == Failure(ModNotFound(host.modName))
    ensures r.Success? <==> !c.cleared && !c.initialized && host.modName in host.mods
    ensures r.Success? ==> Ready(r.value)
  {
    if c.cleared then Failure(InitializedAfterClear)
    else if c.initialized then Failure(InitializedTwice)
    else if host.modName !in host.mods then Failure(ModNotFound(host.modName))
    else
      var assembly := host.mods[host.modName];
      var ix := IndexTypes(assembly.types);
      Success(Cache(true, false, Some(assembly), Some(ix.typesByName), Some(ix.duplicatedNames), Some(ix.typeByFullName)))
  }

  /** `Clear()`, run once the recipe phase has finished. */
  function Clear(c: Cache): (r: Cache)
    ensures Cleared(r)
  {
    Cache(false, true, None, None, None, None)
  }

  /** The `ModAssembly` getter: initialises when its field is null. */
  function ModAssembly(c: Cache, host: Host): (r: Result<(Cache, Assembly), CacheError>)
    ensures c.modAssembly.Some? ==> r == Success((c, c.modAssembly.value))
  {
    if c.modAssembly.Some? then Success((c, c.modAssembly.value))
    else
      match Initialize(c, host)
      case Failure(e) => Failure(e)
      case Success(c') => Success((c', c'.modAssembly.value))
  }

  /** The `TypeByName` getter. */
  function TypeByName(c: Cache, host: Host): (r: Result<(Cache, map<string, TypeRef>), CacheError>)
    ensures c.typesByName.Some? ==> r == Success((c, c.typesByName.value))
  {
    if c.typesByName.Some? then Success((c, c.typesByName.value))
    else
      match Initialize(c, host)
      case Failure(e) => Failure(e)
      case Success(c') => Success((c', c'.typesByName.value))
  }

  /** The `DuplicatedNames` getter. */
  function DuplicatedNames(c: Cache, host: Host): (r: Result<(Cache, set<string>), CacheError>)
    ensures c.duplicatedNames.Some? ==> r == Success((c, c.duplicatedNames.value))
  {
    if c.duplicatedNames.Some? then Success((c, c.duplicatedNames.value))
    else
      match Initialize(c, host)
      case Failure(e) => Failure(e)
      case Success(c') => Success((c', c'.duplicatedNames.value))
  }

  /** The `TypeByFullName` getter. */
  function TypeByFullName(c: Cache, host: Host): (r: Result<(Cache, map<string, TypeRef>), CacheError>)
    ensures c.typeByFullName.Some? ==> r == Success((c, c.typeByFullName.value))
  {
    if c.typeByFullName.Some? then Success((c, c.typeByFullName.value))
    else
      match Initialize(c, host)
      case Failure(e) => Failure(e)
      case Success(c') => Success((c', c'.typeByFullName.value))
  }

  /** After `Clear`, every accessor throws the after-clear error, whatever
      happened before. */
  lemma AfterClearEveryAccessorFails(c: Cache, host: Host)
    ensures ModAssembly(Clear(c), host) == Failure(InitializedAfterClear)
    ensures TypeByName(Clear(c), host) == Failure(InitializedAfterClear)
    ensures DuplicatedNames(Clear(c), host) == Failure(InitializedAfterClear)
    ensures TypeByFullName(Clear(c), host) == Failure(InitializedAfterClear)
    ensures Initialize(Clear(c), host) == Failure(InitializedAfterClear)
  {
  }

  /** Every transition keeps the fields in one of the three states, moving
      only from uninitialised to ready and from anywhere to cleared. */
  lemma Transitions(c: Cache, host: Host)
    requires Valid(c)
    ensures Initialize(c, host).Success? ==> Uninitialized(c) && Ready(Initialize(c, host).value)
    ensures Cleared(Clear(c))
    ensures ModAssembly(c, host).Success? ==>
      Valid(ModAssembly(c, host).value.0) && (Ready(c) ==> ModAssembly(c, host).value.0 == c)
    ensures TypeByName(c, host).Success? ==>
      Valid(TypeByName(c, host).value.0) && (Ready(c) ==> TypeByName(c, host).value.0 == c)
    ensures DuplicatedNames(c, host).Success? ==>
      Valid(DuplicatedNames(c, host).value.0) && (Ready(c) ==> DuplicatedNames(c, host).value.0 == c)
    ensures TypeByFullName(c, host).Success? ==>
      Valid(TypeByFullName(c, host).value.0) && (Ready(c) ==> TypeByFullName(c, host).value.0 == c)
  {
  }

  /** The first use of any accessor on a fresh cache indexes the mod's types
      exactly when the mod is loaded; a ready cache answers every accessor
      from the same indices. */
  lemma FirstUse(host: Host)
    ensures TypeByName(Fresh, host).Success? <==> host.modName in host.mods
    ensures TypeByName(Fresh, host).Success? ==>
      var ix := IndexTypes(host.mods[host.modName].types);
      var c := TypeByName(Fresh, host).value.0;
      && TypeByName(Fresh, host).value.1 == ix.typesByName
      && DuplicatedNames(c, host) == Success((c, ix.duplicatedNames))
      && TypeByFullName(c, host) == Success((c, ix.typeByFullName))
      && ModAssembly(c, host) == Success((c, host.mods[host.modName]))
  {
  }

  /** A type list with two `Foo`s and a type without a full name. */
  lemma IndexExample()
    ensures var a := TypeRef("Foo", Some("A.Foo"));
      var b := TypeRef("Foo", Some("B.Foo"));
      var g := TypeRef("T", None);
      var ix := IndexTypes([a, b, g]);
      && ix.typesByName == map["Foo" := a, "T" := g]
      && ix.duplicatedNames == {"Foo"}
      && ix.typeByFullName == map["A.Foo" := a, "B.Foo" := b]
  {
    var a := TypeRef("Foo", Some("A.Foo"));
    var b := TypeRef("Foo", Some("B.Foo"));
    var g := TypeRef("T", None);
    var types := [a, b, g];
    assert types[..2] == [a, b] && [a, b][..1] == [a] && [a][..0] == [];
    var ix0 := Index(map[], {}, map[]);
    assert IndexTypes([a]) == AddType(ix0, a);
    var ix1 := Index(map["Foo" := a], {}, map["A.Foo" := a]);
    assert AddType(ix0, a) == ix1;
    assert IndexTypes([a, b]) == AddType(ix1, b);
    var ix2 := Index(map["Foo" := a], {"Foo"}, map["A.Foo" := a, "B.Foo" := b]);
    assert AddType(ix1, b) == ix2;
    assert IndexTypes(types) == AddType(ix2, g);
  }
}
