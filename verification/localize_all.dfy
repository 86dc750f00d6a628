/** The whole-module driver `LocalizeAll`: which methods of a type are
    localised, how each gets its method key, and the per-type pass that runs
    `LocalizeMethod` over them. */
module LocalizeAll {
  import opened Wrappers
  import opened Strings
  import opened Cil
  import opened Reflection
  import opened Filters
  import opened Language
  import opened LocalizationHelper

  // ----- GetMethodKey -----

  /** A type's `FullName` inside string interpolation: null reads as empty. */
  function FullNameText(fullName: Option<string>): string
  {
    if fullName.Some? then fullName.value else ""
  }

  function ParameterTypeNames(m: MethodInfo): (r: seq<string>)
    ensures |r| == |m.parameterTypes|
    ensures forall k :: 0 <= k < |r| ==> r[k] == m.parameterTypes[k].name
  {
    seq(|m.parameterTypes|, k requires 0 <= k < |m.parameterTypes| => m.parameterTypes[k].name)
  }

  /** The key part derived from the method: its name, or, for a name shared
      by several selected methods, the name, `_`, and its parameter type
      names joined by `_`. */
  function BaseKey(m: MethodInfo, duplicated: bool): string
  {
    if !duplicated then m.name else m.name + "_" + Join("_", ParameterTypeNames(m))
  }

  /** The `k`-th candidate tried: the base itself, then `base_2`, `base_3`,
      ..., each built from the base. */
  function KeyCandidate(base: string, k: nat): string
  {
    if k <= 1 then base else base + "_" + NatToString(k)
  }

  lemma KeyCandidateLonger(base: string, k: nat)
    requires k >= 2
    ensures |KeyCandidate(base, k)| > |base|
  {
  }

  lemma KeyCandidateInjective(base: string, a: nat, b: nat)
    requires 1 <= a && 1 <= b
    requires KeyCandidate(base, a) == KeyCandidate(base, b)
    ensures a == b
  {
    if a >= 2 && b >= 2 {
      var p := base + "_";
      assert KeyCandidate(base, a) == p + NatToString(a) + "";
      assert KeyCandidate(base, b) == p + NatToString(b) + "";
      CancelAround(p, NatToString(a), NatToString(b), "");
      NatToStringInjective(a, b);
    } else if a >= 2 {
      KeyCandidateLonger(base, a);
      assert false;
    } else if b >= 2 {
      KeyCandidateLonger(base, b);
      assert false;
    }
  }

  /** At most `|used|` consecutive candidates can be in use. */
  lemma CandidateRunBound(base: string, used: set<string>, k: nat)
    requires forall j :: 1 <= j <= k ==> KeyCandidate(base, j) in used
    ensures k <= |used|
  {
    var f := (j: nat) => KeyCandidate(base, j);
    forall a, b | 1 <= a <= k && 1 <= b <= k && f(a) == f(b) ensures a == b {
      KeyCandidateInjective(base, a, b);
    }
    RunBound(f, used, k);
  }

  /** The index of the first candidate from `k` on that is not in use. */
  function FirstFree(base: string, used: set<string>, k: nat): (r: nat)
    requires k >= 1
    requires forall j :: 1 <= j < k ==> KeyCandidate(base, j) in used
    ensures r >= k && KeyCandidate(base, r) !in used
    ensures forall j :: 1 <= j < r ==> KeyCandidate(base, j) in used
    decreases |used| + 1 - k
  {
    if KeyCandidate(base, k) !in used then k
    else
      CandidateRunBound(base, used, k);
      FirstFree(base, used, k + 1)
  }

  /** `<root>.<type full name>.` */
  function KeyPrefix(root: string, fullName: Option<string>): string
  {
    root + "." + FullNameText(fullName) + "."
  }

  /** `GetMethodKey(type, method, duplicated, root, checkMethodKeyUsed)`,
      with the is-used check as the finite set of candidates it reports
      used. */
  function GetMethodKey(fullName: Option<string>, m: MethodInfo, duplicated: bool, root: string, used: set<string>): (r: string)
    ensures |KeyPrefix(root, fullName)| <= |r| && r[..|KeyPrefix(root, fullName)|] == KeyPrefix(root, fullName)
    ensures r[|KeyPrefix(root, fullName)|..] !in used
  {
    var base := BaseKey(m, duplicated);
    var prefix := KeyPrefix(root, fullName);
    var key := prefix + KeyCandidate(base, FirstFree(base, used, 1));
    assert key[|prefix|..] == KeyCandidate(base, FirstFree(base, used, 1));
    key
  }

  /** The key ends in the first candidate not in use: every earlier
      candidate is. */
  lemma GetMethodKeyFirstFree(fullName: Option<string>, m: MethodInfo, duplicated: bool, root: string, used: set<string>)
    ensures var suffix := GetMethodKey(fullName, m, duplicated, root, used)[|KeyPrefix(root, fullName)|..];
      exists n :: n >= 1 && suffix == KeyCandidate(BaseKey(m, duplicated), n)
        && forall j :: 1 <= j < n ==> KeyCandidate(BaseKey(m, duplicated), j) in used
  {
    var base := BaseKey(m, duplicated);
    var n := FirstFree(base, used, 1);
    var prefix := KeyPrefix(root, fullName);
    assert (prefix + KeyCandidate(base, n))[|prefix|..] == KeyCandidate(base, n);
  }

  /** An unused base is taken as it is; `LocalizeAll` passes an is-used set
      it never adds to, so there the key is always prefix plus base. */
  lemma GetMethodKeyUnusedBase(fullName: Option<string>, m: MethodInfo, duplicated: bool, root: string, used: set<string>)
    requires BaseKey(m, duplicated) !in used
    ensures GetMethodKey(fullName, m, duplicated, root, used) == KeyPrefix(root, fullName) + BaseKey(m, duplicated)
    ensures GetMethodKey(fullName, m, duplicated, root, {}) == KeyPrefix(root, fullName) + BaseKey(m, duplicated)
  {
  }

  /** An overload without parameters is disambiguated to `Name_`. */
  lemma NoParameterBaseKey(m: MethodInfo)
    requires |m.parameterTypes| == 0
    ensures BaseKey(m, true) == m.name + "_"
    ensures BaseKey(m, false) == m.name
  {
    assert ParameterTypeNames(m) == [];
  }

  /** With `Foo` and `Foo_2` in use, `Foo` gets `Foo_3`. */
  lemma GetMethodKeySuffixExample()
    ensures var m := MethodInfo("Foo", None, TypeRef("Void", None), [], false, false, true, true);
      GetMethodKey(Some("N.T"), m, false, "R", {"Foo", "Foo_2"}) == "R.N.T.Foo_3"
  {
    assert NatToString(2) == "2";
    assert NatToString(3) == "3";
    var used := {"Foo", "Foo_2"};
    assert KeyCandidate("Foo", 1) in used;
    assert KeyCandidate("Foo", 2) == "Foo_2";
    assert KeyCandidate("Foo", 3) == "Foo_3";
    assert FirstFree("Foo", used, 3) == 3;
    assert FirstFree("Foo", used, 2) == 3;
    assert FirstFree("Foo", used, 1) == 3;
  }

  /** Disambiguating `Foo(int, string)` of a type with a null full name
      gives `R..Foo_Int32_String`. */
  lemma GetMethodKeyOverloadExample(m: MethodInfo)
    requires m == MethodInfo("Foo", None, TypeRef("Void", None),
                             [TypeRef("Int32", Some("System.Int32")), TypeRef("String", Some("System.String"))],
                             false, false, true, true)
    ensures GetMethodKey(None, m, true, "R", {}) == "R..Foo_Int32_String"
  {
    OverloadBaseKey(m);
    GetMethodKeyUnusedBase(None, m, true, "R", {});
    assert KeyPrefix("R", None) == "R..";
  }

  lemma OverloadBaseKey(m: MethodInfo)
    requires m.name == "Foo" && |m.parameterTypes| == 2
    requires m.parameterTypes[0].name == "Int32" && m.parameterTypes[1].name == "String"
    ensures BaseKey(m, true) == "Foo_Int32_String"
  {
    var names := ParameterTypeNames(m);
    assert names == ["Int32", "String"];
    assert names[1..] == ["String"];
    assert Join("_", names) == "Int32" + "_" + "String";
  }

  /** The default is-used check: the candidates whose full key already
      exists in the provider. */
  ghost function UsedInLang(lang: Lang, prefix: string): (r: set<string>)
    ensures forall c :: c in r <==> prefix + c in lang
  {
    var r := set key | key in lang.Keys && |prefix| <= |key| && key[..|prefix|] == prefix :: key[|prefix|..];
    assert forall c :: prefix + c in lang ==> c in r by {
      forall c | prefix + c in lang ensures c in r {
        var key := prefix + c;
        assert key[..|prefix|] == prefix && key[|prefix|..] == c;
      }
    }
    assert forall c :: c in r ==> prefix + c in lang by {
      forall c | c in r ensures prefix + c in lang {
        var key :| key in lang.Keys && |prefix| <= |key| && key[..|prefix|] == prefix && key[|prefix|..] == c;
        assert key == prefix + c;
      }
    }
    r
  }

  /** With the default check the returned key is not yet in the provider. */
  lemma DefaultKeyIsFresh(lang: Lang, fullName: Option<string>, m: MethodInfo, duplicated: bool, root: string)
    ensures GetMethodKey(fullName, m, duplicated, root, UsedInLang(lang, KeyPrefix(root, fullName))) !in lang
  {
    var prefix := KeyPrefix(root, fullName);
    var r := GetMethodKey(fullName, m, duplicated, root, UsedInLang(lang, prefix));
    assert r == prefix + r[|prefix|..];
  }

  // ----- Method selection -----

  /** The localisation root: the given one, else
      `Mods.<selfModName>.ForceLocalizations`. */
  function LocalizationRoot(selfModName: string, root: Option<string>): (r: string)
    ensures root.Some? ==> r == root.value
    ensures root.None? ==> r == "Mods." + selfModName + ".ForceLocalizations"
  {
    if root.Some? then root.value else "Mods." + selfModName + ".ForceLocalizations"
  }

  /** `GetMethodPredicate(type)`: declared by the type itself, concrete, not
      generic, admitted by the pre-JIT filter, with a body, and admitted by
      the method filter when there is one. */
  predicate Selected(t: TypeRef, m: MethodInfo, methodFilter: Option<Filter<MethodInfo>>)
  {
    && m.declaringType == Some(t)
    && !m.isAbstract
    && !m.containsGenericParameters
    && m.shouldJit
    && m.hasBody
    && (methodFilter.None? || Apply(methodFilter.value, m))
  }

  /** The selected methods of a type, in enumeration order. */
  function SelectMethods(t: TypeRef, methods: seq<MethodInfo>, methodFilter: Option<Filter<MethodInfo>>): (r: seq<MethodInfo>)
    ensures |r| <= |methods|
    ensures forall m :: m in r <==> m in methods && Selected(t, m, methodFilter)
    decreases |methods|
  {
    if methods == [] then []
    else
      var rest := SelectMethods(t, methods[1..], methodFilter);
      assert forall m :: m in methods <==> m == methods[0] || m in methods[1..];
      if Selected(t, methods[0], methodFilter) then [methods[0]] + rest else rest
  }

  /** Each selected method is kept as many times as it occurs, and every
      other method not at all. */
  lemma {:induction false} SelectMethodsMultiplicity(t: TypeRef, methods: seq<MethodInfo>, methodFilter: Option<Filter<MethodInfo>>, m: MethodInfo)
    ensures multiset(SelectMethods(t, methods, methodFilter))[m] == if Selected(t, m, methodFilter) then multiset(methods)[m] else 0
    decreases |methods|
  {
    if methods != [] {
      var x := methods[0];
      assert methods == [x] + methods[1..];
      SelectMethodsCons(t, x, methods[1..], methodFilter);
      SelectMethodsMultiplicity(t, methods[1..], methodFilter, m);
      assert multiset(methods) == multiset{x} + multiset(methods[1..]);
    }
  }

  /** The selection keeps enumeration order: it distributes over
      concatenation, and (`SelectMethodsSingle`) keeps a single method
      exactly when it is selected; together these determine an
      order-preserving filter. */
  lemma {:induction false} SelectMethodsAppend(t: TypeRef, a: seq<MethodInfo>, b: seq<MethodInfo>, methodFilter: Option<Filter<MethodInfo>>)
    ensures SelectMethods(t, a + b, methodFilter) == SelectMethods(t, a, methodFilter) + SelectMethods(t, b, methodFilter)
    decreases |a|
  {
    if a == [] {
      assert a + b == b;
    } else {
      var ab := a + b;
      assert ab[1..] == a[1..] + b;
      SelectMethodsAppend(t, a[1..], b, methodFilter);
      if Selected(t, a[0], methodFilter) {
        var p := SelectMethods(t, a[1..], methodFilter);
        var q := SelectMethods(t, b, methodFilter);
        assert [a[0]] + (p + q) == ([a[0]] + p) + q;
      }
    }
  }

  /** Selecting from a sequence with a known first method. */
  lemma SelectMethodsCons(t: TypeRef, x: MethodInfo, rest: seq<MethodInfo>, methodFilter: Option<Filter<MethodInfo>>)
    ensures SelectMethods(t, [x] + rest, methodFilter)
      == (if Selected(t, x, methodFilter) then [x] else []) + SelectMethods(t, rest, methodFilter)
  {
    var xs := [x] + rest;
    assert xs[0] == x && xs[1..] == rest;
  }

  /** A single method is kept exactly when it is selected. */
  lemma SelectMethodsSingle(t: TypeRef, m: MethodInfo, methodFilter: Option<Filter<MethodInfo>>)
    ensures SelectMethods(t, [m], methodFilter) == if Selected(t, m, methodFilter) then [m] else []
  {
  }

  /** How many methods in `methods` are named `name`. */
  function Occurrences(methods: seq<MethodInfo>, name: string): nat
    decreases |methods|
  {
    if methods == [] then 0
    else (if methods[0].name == name then 1 else 0) + Occurrences(methods[1..], name)
  }

  /** The count a dictionary holds for a name, zero when absent. */
  function CountOf(counts: map<string, nat>, name: string): nat
  {
    if name in counts then counts[name] else 0
  }

  /** `methodCount`: `TryAdd(name, 1)`, or add one when already present, for
      each method in order. */
  function CountNames(methods: seq<MethodInfo>, counts: map<string, nat>): map<string, nat>
    decreases |methods|
  {
    if methods == [] then counts
    else
      var name := methods[0].name;
      CountNames(methods[1..], counts[name := CountOf(counts, name) + 1])
  }

  /** The dictionary ends up counting each name's occurrences on top of what
      it started with. */
  lemma {:induction false} CountNamesCounts(methods: seq<MethodInfo>, counts: map<string, nat>, name: string)
    ensures CountOf(CountNames(methods, counts), name) == CountOf(counts, name) + Occurrences(methods, name)
    ensures name in CountNames(methods, counts) <==> name in counts || Occurrences(methods, name) > 0
    decreases |methods|
  {
    if methods != [] {
      var n := methods[0].name;
      CountNamesCounts(methods[1..], counts[n := CountOf(counts, n) + 1], name);
    }
  }

  /** A name occurs at least twice exactly when two positions carry it. */
  lemma {:induction false} OccurrencesTwice(methods: seq<MethodInfo>, name: string)
    ensures Occurrences(methods, name) > 1 <==>
      exists i, j :: 0 <= i < j < |methods| && methods[i].name == name && methods[j].name == name
    decreases |methods|
  {
    if methods != [] {
      var tail := methods[1..];
      OccurrencesTwice(tail, name);
      OccurrencesOnce(tail, name);
      if Occurrences(methods, name) > 1 {
        if methods[0].name == name {
          var j :| 0 <= j < |tail| && tail[j].name == name;
          assert methods[j + 1] == tail[j];
        } else {
          var i, j :| 0 <= i < j < |tail| && tail[i].name == name && tail[j].name == name;
          assert methods[i + 1] == tail[i] && methods[j + 1] == tail[j];
        }
      }
      if exists i, j :: 0 <= i < j < |methods| && methods[i].name == name && methods[j].name == name {
        var i, j :| 0 <= i < j < |methods| && methods[i].name == name && methods[j].name == name;
        assert tail[j - 1] == methods[j];
        if i > 0 {
          assert tail[i - 1] == methods[i];
        }
      }
    }
  }

  /** A name occurs at all exactly when some position carries it. */
  lemma {:induction false} OccurrencesOnce(methods: seq<MethodInfo>, name: string)
    ensures Occurrences(methods, name) > 0 <==> exists i :: 0 <= i < |methods| && methods[i].name == name
    decreases |methods|
  {
    if methods != [] {
      var tail := methods[1..];
      OccurrencesOnce(tail, name);
      if Occurrences(tail, name) > 0 {
        var i :| 0 <= i < |tail| && tail[i].name == name;
        assert methods[i + 1] == tail[i];
      }
      if exists i :: 0 <= i < |methods| && methods[i].name == name {
        var i :| 0 <= i < |methods| && methods[i].name == name;
        if i > 0 {
          assert tail[i - 1] == methods[i];
        }
      }
    }
  }

  /** A method that is selected and carries the name `name`. */
  predicate SelectedNamed(t: TypeRef, m: MethodInfo, methodFilter: Option<Filter<MethodInfo>>, name: string)
  {
    m.name == name && Selected(t, m, methodFilter)
  }

  /** Counting a name in the selection, one method at a time. */
  lemma OccurrencesOfSelect(t: TypeRef, methods: seq<MethodInfo>, methodFilter: Option<Filter<MethodInfo>>, name: string)
    requires methods != []
    ensures Occurrences(SelectMethods(t, methods, methodFilter), name)
      == (if SelectedNamed(t, methods[0], methodFilter, name) then 1 else 0)
         + Occurrences(SelectMethods(t, methods[1..], methodFilter), name)
  {
    var rest := SelectMethods(t, methods[1..], methodFilter);
    if Selected(t, methods[0], methodFilter) {
      assert ([methods[0]] + rest)[1..] == rest;
    }
  }

  /** How many positions of `methods` are selected and carry `name`. */
  function SelectedCount(t: TypeRef, methods: seq<MethodInfo>, methodFilter: Option<Filter<MethodInfo>>, name: string): nat
    decreases |methods|
  {
    if methods == [] then 0
    else (if SelectedNamed(t, methods[0], methodFilter, name) then 1 else 0) + SelectedCount(t, methods[1..], methodFilter, name)
  }

  /** Counting a name in the selection counts the selected positions of the
      original sequence that carry it. */
  lemma {:induction false} SelectionCounts(t: TypeRef, methods: seq<MethodInfo>, methodFilter: Option<Filter<MethodInfo>>, name: string)
    ensures Occurrences(SelectMethods(t, methods, methodFilter), name) == SelectedCount(t, methods, methodFilter, name)
    decreases |methods|
  {
    if methods != [] {
      OccurrencesOfSelect(t, methods, methodFilter, name);
      SelectionCounts(t, methods[1..], methodFilter, name);
    }
  }

  /** Some selected position carries the name exactly when the count is
      positive. */
  lemma {:induction false} SelectedOnce(t: TypeRef, methods: seq<MethodInfo>, methodFilter: Option<Filter<MethodInfo>>, name: string)
    ensures SelectedCount(t, methods, methodFilter, name) > 0 <==>
      exists i :: 0 <= i < |methods| && SelectedNamed(t, methods[i], methodFilter, name)
    decreases |methods|
  {
    if methods != [] {
      var tail := methods[1..];
      SelectedOnce(t, tail, methodFilter, name);
      if exists i :: 0 <= i < |tail| && SelectedNamed(t, tail[i], methodFilter, name) {
        var i :| 0 <= i < |tail| && SelectedNamed(t, tail[i], methodFilter, name);
        assert methods[i + 1] == tail[i];
      }
      if exists i :: 0 <= i < |methods| && SelectedNamed(t, methods[i], methodFilter, name) {
        var i :| 0 <= i < |methods| && SelectedNamed(t, methods[i], methodFilter, name);
        if i > 0 {
          assert tail[i - 1] == methods[i];
        }
      }
    }
  }

  /** Two selected positions carry the name exactly when the count exceeds
      one. */
  lemma {:induction false} SelectedTwice(t: TypeRef, methods: seq<MethodInfo>, methodFilter: Option<Filter<MethodInfo>>, name: string)
    ensures SelectedCount(t, methods, methodFilter, name) > 1 <==>
      exists i, j :: 0 <= i < j < |methods|
        && SelectedNamed(t, methods[i], methodFilter, name) && SelectedNamed(t, methods[j], methodFilter, name)
    decreases |methods|
  {
    if methods != [] {
      var tail := methods[1..];
      SelectedTwice(t, tail, methodFilter, name);
      SelectedOnce(t, tail, methodFilter, name);
      if SelectedCount(t, methods, methodFilter, name) > 1 {
        if SelectedNamed(t, methods[0], methodFilter, name) {
          var j :| 0 <= j < |tail| && SelectedNamed(t, tail[j], methodFilter, name);
          assert methods[j + 1] == tail[j];
        } else {
          var i, j :| 0 <= i < j < |tail|
            && SelectedNamed(t, tail[i], methodFilter, name) && SelectedNamed(t, tail[j], methodFilter, name);
          assert methods[i + 1] == tail[i] && methods[j + 1] == tail[j];
        }
      }
      if (exists i, j :: 0 <= i < j < |methods|
            && SelectedNamed(t, methods[i], methodFilter, name) && SelectedNamed(t, methods[j], methodFilter, name))
      {
        var i, j :| 0 <= i < j < |methods|
          && SelectedNamed(t, methods[i], methodFilter, name) && SelectedNamed(t, methods[j], methodFilter, name);
        assert tail[j - 1] == methods[j];
        if i > 0 {
          assert tail[i - 1] == methods[i];
        }
      }
    }
  }

  // ----- The per-type pass -----

  /** A method of the type together with its instruction stream. */
  datatype MethodEntry = MethodEntry(info: MethodInfo, body: seq<Instr>)

  /** The arguments of `LocalizeAll` that every method is localised with. */
  datatype Settings = Settings(
    root: string,
    registerKey: bool,
    useLocalizedText: bool,
    methodFilter: Option<Filter<MethodInfo>>,
    cursorFilter: Option<Filter<Cursor>>)

  function Infos(entries: seq<MethodEntry>): (r: seq<MethodInfo>)
    ensures |r| == |entries| && forall k :: 0 <= k < |r| ==> r[k] == entries[k].info
  {
    seq(|entries|, k requires 0 <= k < |entries| => entries[k].info)
  }

  /** The key `LocalizeAll` gives a selected method: disambiguated when its
      name is shared with another selected method of the type, and checked
      against an is-used set that stays empty. */
  function MethodKeyIn(t: TypeRef, counts: map<string, nat>, m: MethodInfo, root: string): string
  {
    GetMethodKey(t.fullName, m, CountOf(counts, m.name) > 1, root, {})
  }

  /** `LocalizeMethod` over the type's methods in order, threading the
      provider. Unselected methods keep their bodies. An exception aborts
      the whole pass, since nothing catches it. */
  function LocalizeMethods(t: TypeRef, entries: seq<MethodEntry>, counts: map<string, nat>, s: Settings, lang: Lang)
    : (r: Result<(seq<seq<Instr>>, Lang), LocalizeError>)
    decreases |entries|
  {
    if entries == [] then Success(([], lang))
    else
      var e := entries[0];
      var head :=
        if Selected(t, e.info, s.methodFilter)
        then LocalizeMethod(e.body, lang, MethodKeyIn(t, counts, e.info, s.root), s.registerKey, s.useLocalizedText, s.cursorFilter)
        else Success(Patched(e.body, lang));
      match head
      case Failure(err) => Failure(err)
      case Success(p) =>
        match LocalizeMethods(t, entries[1..], counts, s, p.lang)
        case Failure(err) => Failure(err)
        case Success(rest) => Success(([p.body] + rest.0, rest.1))
  }

  /** One iteration of `LocalizeAll`'s type loop. */
  function LocalizeType(t: TypeRef, entries: seq<MethodEntry>, s: Settings, lang: Lang): Result<(seq<seq<Instr>>, Lang), LocalizeError>
  {
    var counts := CountNames(SelectMethods(t, Infos(entries), s.methodFilter), map[]);
    LocalizeMethods(t, entries, counts, s, lang)
  }

  /** A method is disambiguated exactly when two selected methods of the
      type, at distinct positions of its method list, carry its name. */
  lemma DisambiguatedIff(t: TypeRef, entries: seq<MethodEntry>, s: Settings, m: MethodInfo)
    ensures var selected := SelectMethods(t, Infos(entries), s.methodFilter);
      var counts := CountNames(selected, map[]);
      CountOf(counts, m.name) > 1 <==>
        exists i, j :: 0 <= i < j < |selected| && selected[i].name == m.name && selected[j].name == m.name
    ensures var counts := CountNames(SelectMethods(t, Infos(entries), s.methodFilter), map[]);
      CountOf(counts, m.name) > 1 <==>
        exists i, j :: 0 <= i < j < |entries|
          && SelectedNamed(t, entries[i].info, s.methodFilter, m.name)
          && SelectedNamed(t, entries[j].info, s.methodFilter, m.name)
  {
    var infos := Infos(entries);
    var selected := SelectMethods(t, infos, s.methodFilter);
    CountNamesCounts(selected, map[], m.name);
    OccurrencesTwice(selected, m.name);
    SelectionCounts(t, infos, s.methodFilter, m.name);
    SelectedTwice(t, infos, s.methodFilter, m.name);
  }

  /** On success the pass yields one body per method: unselected ones
      unchanged, selected ones rewritten by their `LocalizeMethod`; the
      provider only grows. */
  lemma {:induction false} LocalizeMethodsShape(t: TypeRef, entries: seq<MethodEntry>, counts: map<string, nat>, s: Settings, lang: Lang)
    ensures var r := LocalizeMethods(t, entries, counts, s, lang);
      r.Success? ==>
        && |r.value.0| == |entries|
        && Extends(lang, r.value.1)
        && forall k :: 0 <= k < |entries| ==>
             && (!Selected(t, entries[k].info, s.methodFilter) ==> r.value.0[k] == entries[k].body)
             && Rewrites(entries[k].body, r.value.0[k], s.useLocalizedText)
    decreases |entries|
  {
    var r := LocalizeMethods(t, entries, counts, s, lang);
    if entries != [] && r.Success? {
      var e := entries[0];
      RewritesSelf(e.body, s.useLocalizedText);
      var key := MethodKeyIn(t, counts, e.info, s.root);
      LocalizeMethodOutcome(e.body, lang, key, s.registerKey, s.useLocalizedText, s.cursorFilter);
      var head :=
        if Selected(t, e.info, s.methodFilter)
        then LocalizeMethod(e.body, lang, key, s.registerKey, s.useLocalizedText, s.cursorFilter)
        else Success(Patched(e.body, lang));
      var p := head.value;
      LocalizeMethodsShape(t, entries[1..], counts, s, p.lang);
      var rest := LocalizeMethods(t, entries[1..], counts, s, p.lang).value;
      ExtendsTransitive(lang, p.lang, rest.1);
      forall k | 0 <= k < |entries|
        ensures !Selected(t, entries[k].info, s.methodFilter) ==> r.value.0[k] == entries[k].body
        ensures Rewrites(entries[k].body, r.value.0[k], s.useLocalizedText)
      {
        if k > 0 {
          assert r.value.0[k] == rest.0[k - 1];
          assert entries[k] == entries[1..][k - 1];
        }
      }
    }
  }

  /** A failing `LocalizeMethod` on any selected method aborts the pass:
      when the methods before position `k` go through and leave provider
      `L`, and the selected method at `k` fails against `L`, the whole pass
      fails. */
  lemma {:induction false} LocalizeMethodsFailure(t: TypeRef, entries: seq<MethodEntry>, counts: map<string, nat>, s: Settings, lang: Lang, k: nat)
    requires k < |entries| && Selected(t, entries[k].info, s.methodFilter)
    requires LocalizeMethods(t, entries[..k], counts, s, lang).Success?
    requires LocalizeMethod(entries[k].body, LocalizeMethods(t, entries[..k], counts, s, lang).value.1,
                            MethodKeyIn(t, counts, entries[k].info, s.root),
                            s.registerKey, s.useLocalizedText, s.cursorFilter).Failure?
    ensures LocalizeMethods(t, entries, counts, s, lang).Failure?
    decreases k
  {
    if k > 0 {
      var e := entries[0];
      var head :=
        if Selected(t, e.info, s.methodFilter)
        then LocalizeMethod(e.body, lang, MethodKeyIn(t, counts, e.info, s.root), s.registerKey, s.useLocalizedText, s.cursorFilter)
        else Success(Patched(e.body, lang));
      var prefix := entries[..k];
      assert prefix[0] == e && prefix[1..] == entries[1..][..k - 1];
      var p := head.value;
      assert LocalizeMethods(t, prefix[1..], counts, s, p.lang).Success?;
      assert LocalizeMethods(t, prefix, counts, s, lang).value.1 == LocalizeMethods(t, prefix[1..], counts, s, p.lang).value.1;
      assert entries[k] == entries[1..][k - 1];
      LocalizeMethodsFailure(t, entries[1..], counts, s, p.lang, k - 1);
    }
  }

  // ----- The type loop -----

  /** A loadable type of the mod: `jitRecursive` stands for
      `ShouldJITRecursive` (the pre-JIT filter admits the type and every
      enclosing type), followed by its methods in enumeration order. */
  datatype TypeEntry = TypeEntry(t: TypeRef, jitRecursive: bool, containsGenericParameters: bool, methods: seq<MethodEntry>)

  /** The type query: admitted by the pre-JIT filter up the nesting chain,
      not generic, and admitted by the type filter when there is one. */
  predicate TypeSelected(e: TypeEntry, typeFilter: Option<Filter<TypeRef>>)
  {
    e.jitRecursive && !e.containsGenericParameters && (typeFilter.None? || Apply(typeFilter.value, e.t))
  }

  function Bodies(entries: seq<MethodEntry>): (r: seq<seq<Instr>>)
    ensures |r| == |entries| && forall k :: 0 <= k < |r| ==> r[k] == entries[k].body
  {
    seq(|entries|, k requires 0 <= k < |entries| => entries[k].body)
  }

  /** `LocalizeAll`'s loop over the types, threading the provider; a type
      the query drops keeps all its bodies. */
  function LocalizeTypes(types: seq<TypeEntry>, typeFilter: Option<Filter<TypeRef>>, s: Settings, lang: Lang)
    : (r: Result<(seq<seq<seq<Instr>>>, Lang), LocalizeError>)
    decreases |types|
  {
    if types == [] then Success(([], lang))
    else
      var e := types[0];
      var head := if TypeSelected(e, typeFilter) then LocalizeType(e.t, e.methods, s, lang) else Success((Bodies(e.methods), lang));
      match head
      case Failure(err) => Failure(err)
      case Success(p) =>
        match LocalizeTypes(types[1..], typeFilter, s, p.1)
        case Failure(err) => Failure(err)
        case Success(rest) => Success(([p.0] + rest.0, rest.1))
  }

  /** On success every type yields one body per method: a dropped type keeps
      them all, a selected type's bodies are rewrites, and the provider only
      grows. */
  lemma {:induction false} LocalizeTypesShape(types: seq<TypeEntry>, typeFilter: Option<Filter<TypeRef>>, s: Settings, lang: Lang)
    ensures var r := LocalizeTypes(types, typeFilter, s, lang);
      r.Success? ==>
        && |r.value.0| == |types|
        && Extends(lang, r.value.1)
        && forall k :: 0 <= k < |types| ==>
             && |r.value.0[k]| == |types[k].methods|
             && (!TypeSelected(types[k], typeFilter) ==> r.value.0[k] == Bodies(types[k].methods))
             && forall j :: 0 <= j < |types[k].methods| ==>
                  Rewrites(types[k].methods[j].body, r.value.0[k][j], s.useLocalizedText)
    decreases |types|
  {
    var r := LocalizeTypes(types, typeFilter, s, lang);
    if types != [] && r.Success? {
      var e := types[0];
      var head := if TypeSelected(e, typeFilter) then LocalizeType(e.t, e.methods, s, lang) else Success((Bodies(e.methods), lang));
      var p := head.value;
      HeadShape(e, typeFilter, s, lang);
      LocalizeTypesShape(types[1..], typeFilter, s, p.1);
      var rest := LocalizeTypes(types[1..], typeFilter, s, p.1).value;
      ExtendsTransitive(lang, p.1, rest.1);
      assert r.value == ([p.0] + rest.0, rest.1);
      forall k | 0 <= k < |types|
        ensures |r.value.0[k]| == |types[k].methods|
        ensures !TypeSelected(types[k], typeFilter) ==> r.value.0[k] == Bodies(types[k].methods)
        ensures forall j :: 0 <= j < |types[k].methods| ==>
                  Rewrites(types[k].methods[j].body, r.value.0[k][j], s.useLocalizedText)
      {
        if k > 0 {
          assert r.value.0[k] == rest.0[k - 1];
          assert types[k] == types[1..][k - 1];
        }
      }
    }
  }

  /** The first iteration of the type loop, on success. */
  lemma HeadShape(e: TypeEntry, typeFilter: Option<Filter<TypeRef>>, s: Settings, lang: Lang)
    ensures var head := if TypeSelected(e, typeFilter) then LocalizeType(e.t, e.methods, s, lang) else Success((Bodies(e.methods), lang));
      head.Success? ==>
        && |head.value.0| == |e.methods|
        && Extends(lang, head.value.1)
        && (!TypeSelected(e, typeFilter) ==> head.value.0 == Bodies(e.methods))
        && forall j :: 0 <= j < |e.methods| ==> Rewrites(e.methods[j].body, head.value.0[j], s.useLocalizedText)
  {
    if TypeSelected(e, typeFilter) {
      var counts := CountNames(SelectMethods(e.t, Infos(e.methods), s.methodFilter), map[]);
      LocalizeMethodsShape(e.t, e.methods, counts, s, lang);
    } else {
      forall j | 0 <= j < |e.methods| ensures Rewrites(e.methods[j].body, Bodies(e.methods)[j], s.useLocalizedText) {
        RewritesSelf(e.methods[j].body, s.useLocalizedText);
      }
    }
  }

  /** Why `LocalizeAll` throws: the mod is not loaded, or some method's
      persisted pairs repeat an original text. */
  datatype DriverError = ModNotFound(modName: string) | MethodFailed(err: LocalizeError)

  /** The filters `LocalizeAll` takes, each optional. */
  datatype LocalizeFilters = LocalizeFilters(
    typeFilter: Option<Filter<TypeRef>>,
    methodFilter: Option<Filter<MethodInfo>>,
    cursorFilter: Option<Filter<Cursor>>)

  /** `LocalizeAll(selfModName, modName, registerKey, localizationRoot,
      useLocalizedText, filters)` over the loaded mods, each given by its
      loadable types. */
  function LocalizeAllMods(
    mods: map<string, seq<TypeEntry>>, selfModName: string, modName: string, registerKey: bool,
    localizationRoot: Option<string>, useLocalizedText: bool, filters: Option<LocalizeFilters>, lang: Lang)
    : (r: Result<(seq<seq<seq<Instr>>>, Lang), DriverError>)
    ensures modName !in mods <==> r == Failure(ModNotFound(modName))
    ensures r.Success? ==> |r.value.0| == |mods[modName]| && Extends(lang, r.value.1)
  {
    if modName !in mods then Failure(ModNotFound(modName))
    else
      var typeFilter := if filters.Some? then filters.value.typeFilter else None;
      var s := Settings(
        LocalizationRoot(selfModName, localizationRoot), registerKey, useLocalizedText,
        if filters.Some? then filters.value.methodFilter else None,
        if filters.Some? then filters.value.cursorFilter else None);
      LocalizeTypesShape(mods[modName], typeFilter, s, lang);
      match LocalizeTypes(mods[modName], typeFilter, s, lang)
      case Failure(err) => Failure(MethodFailed(err))
      case Success(done) => Success(done)
  }
}
