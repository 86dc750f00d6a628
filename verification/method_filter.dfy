/** Filters over methods: by name, by declaring type, and the built-in rule
    set that drops host lifecycle and metadata methods. */
module MethodFilter {
  import opened Wrappers
  import opened Reflection
  import opened Filters

  /** `MatchName(name)` */
  function MatchName(name: string): (f: Filter<MethodInfo>)
    ensures forall m :: Apply(f, m) <==> m.name == name
  {
    Filter((m: MethodInfo) => m.name == name)
  }

  /** `MismatchName(name)`: the complement of `MatchName(name)`. */
  function MismatchName(name: string): (f: Filter<MethodInfo>)
    ensures forall m :: Apply(f, m) == !Apply(MatchName(name), m)
  {
    Filter((m: MethodInfo) => m.name != name)
  }

  /** `MatchNames(names)`: the names are collected into a set first. */
  function MatchNames(names: seq<string>): (f: Filter<MethodInfo>)
    ensures forall m :: Apply(f, m) <==> exists i :: 0 <= i < |names| && names[i] == m.name
  {
    var keys := set n | n in names;
    Filter((m: MethodInfo) => m.name in keys)
  }

  /** `MismatchNames(names)`: the complement of `MatchNames(names)`. */
  function MismatchNames(names: seq<string>): (f: Filter<MethodInfo>)
    ensures forall m :: Apply(f, m) == !Apply(MatchNames(names), m)
  {
    var keys := set n | n in names;
    Filter((m: MethodInfo) => m.name !in keys)
  }

  /** One `MatchName` filter per name. */
  function NameFilters(names: seq<string>): (r: seq<Filter<MethodInfo>>)
    ensures |r| == |names|
  {
    if |names| == 0 then [] else [MatchName(names[0])] + NameFilters(names[1..])
  }

  /** `MatchNames(names)` is `MatchAny` of the single-name filters. */
  lemma {:induction false} MatchNamesIsAny(names: seq<string>, m: MethodInfo)
    ensures Apply(MatchNames(names), m) == Apply(MatchAny(NameFilters(names)), m)
  {
    if |names| > 0 {
      MatchNamesIsAny(names[1..], m);
      assert NameFilters(names)[1..] == NameFilters(names[1..]);
      if Apply(MatchNames(names[1..]), m) {
        var i :| 0 <= i < |names[1..]| && names[1..][i] == m.name;
        assert names[i + 1] == m.name;
      }
      if Apply(MatchNames(names), m) && names[0] != m.name {
        var i :| 0 <= i < |names| && names[i] == m.name;
        assert names[1..][i - 1] == m.name;
      }
    }
  }

  /** The single-name and single-element forms agree. */
  lemma SingleName(name: string, m: MethodInfo)
    ensures Apply(MatchNames([name]), m) == Apply(MatchName(name), m)
    ensures Apply(MismatchNames([name]), m) == Apply(MismatchName(name), m)
  {
    assert [name][0] == name;
  }

  /** `MatchDeclaringTypes(useDerivedCheck, types)`: the declaring type must
      be present and either be one of `types` or, with the derived check,
      be assignable to one of them. */
  function MatchDeclaringTypes(useDerivedCheck: bool, types: seq<TypeRef>, assignable: Assignability): (f: Filter<MethodInfo>)
    ensures forall m :: Apply(f, m) <==>
      m.declaringType.Some? &&
      exists i :: 0 <= i < |types| &&
        (if useDerivedCheck then assignable(m.declaringType.value, types[i]) else m.declaringType.value == types[i])
  {
    if useDerivedCheck then
      Filter((m: MethodInfo) => m.declaringType.Some? && exists t :: t in types && assignable(m.declaringType.value, t))
    else
      var keys := set t | t in types;
      Filter((m: MethodInfo) => m.declaringType.Some? && m.declaringType.value in keys)
  }

  /** `MatchDeclaringTypes(types)`: the overload without the flag uses the
      derived check. */
  function MatchDeclaringTypesDerived(types: seq<TypeRef>, assignable: Assignability): (f: Filter<MethodInfo>)
    ensures forall m :: Apply(f, m) == Apply(MatchDeclaringTypes(true, types, assignable), m)
  {
    MatchDeclaringTypes(true, types, assignable)
  }

  /** `MatchDeclaringType(useDerivedCheck, type)`: equality, or
      assignability; a missing declaring type never matches. */
  function MatchDeclaringType(useDerivedCheck: bool, t: TypeRef, assignable: Assignability): (f: Filter<MethodInfo>)
    ensures forall m :: Apply(f, m) == Apply(MatchDeclaringTypes(useDerivedCheck, [t], assignable), m)
  {
    if useDerivedCheck then Filter((m: MethodInfo) => m.declaringType.Some? && assignable(m.declaringType.value, t))
    else Filter((m: MethodInfo) => Some(t) == m.declaringType)
  }

  /** `MatchDeclaringType(type)`: the overload without the flag uses the
      derived check. */
  function MatchDeclaringTypeDerived(t: TypeRef, assignable: Assignability): (f: Filter<MethodInfo>)
    ensures forall m :: Apply(f, m) == Apply(MatchDeclaringType(true, t, assignable), m)
  {
    MatchDeclaringType(true, t, assignable)
  }

  /** With a reflexive subtype relation the exact check implies the
      derived one. */
  lemma ExactImpliesDerived(types: seq<TypeRef>, assignable: Assignability, m: MethodInfo)
    requires forall t :: assignable(t, t)
    ensures Apply(MatchDeclaringTypes(false, types, assignable), m) ==> Apply(MatchDeclaringTypes(true, types, assignable), m)
  {
  }

  // ----- The built-in method rule set -----

  const ModTypeSetupNames: set<string> := {
    "get_Texture", "get_HighlightTexture", "get_Name", "SaveData", "LoadData",
    "IsLoadingEnabled", "ValidateType", "Load", "AutoStaticDefaults", "AutoDefaults",
    "SetStaticDefaults", "SetDefaults", "AddRecipes", "Unload"}
  const ModNPCNames: set<string> := {"OnChatButtonClicked", "AddShops"}
  const LocalizedTextGetters: set<string> := {"get_DisplayName", "get_Tooltip"}
  const WorldDataNames: set<string> := {"SaveWorldData", "LoadWorldData", "SaveWorldHeader"}
  const LoadUnloadNames: set<string> := {
    "Load", "OnModLoad", "SetupContent", "PostSetupContent", "AddRecipeGroups",
    "AddRecipes", "PostAddRecipes", "OnLocalizationsLoaded", "Close", "OnModUnload", "Unload"}

  /** The rule set, nested as the source nests it: a missing declaring type
      is admitted; the `ModType` block holds the `ModNPC` block; the
      `ILocalizedModType` block holds the return-type check; the last two
      blocks share `isModSystem`. Each block either rejects or falls through
      to the next. */
  function CommonMethodAdmits(m: MethodInfo, assignable: Assignability): bool
  {
    match m.declaringType
    case None => true
    case Some(d) =>
      if assignable(d, ModType) then
        if m.name in ModTypeSetupNames then false
        else if assignable(d, ModNPC) then
          if m.name in ModNPCNames then false else AfterModTypeBlock(m, d, assignable)
        else AfterModTypeBlock(m, d, assignable)
      else AfterModTypeBlock(m, d, assignable)
  }

  /** The `ILocalizedModType` block and what follows it. */
  function AfterModTypeBlock(m: MethodInfo, d: TypeRef, assignable: Assignability): bool
  {
    if assignable(d, ILocalizedModType) then
      if m.name == "get_LocalizationCategory" then false
      else if m.returnType == LocalizedText then
        if m.name in LocalizedTextGetters then false else AfterLocalizedBlock(m, d, assignable)
      else AfterLocalizedBlock(m, d, assignable)
    else AfterLocalizedBlock(m, d, assignable)
  }

  /** The `ModSystem` world-data block and the load/unload block. */
  function AfterLocalizedBlock(m: MethodInfo, d: TypeRef, assignable: Assignability): bool
  {
    var isModSystem := assignable(d, ModSystem);
    if isModSystem && m.name in WorldDataNames then false
    else if assignable(d, Mod) || isModSystem then
      m.name !in LoadUnloadNames
    else true
  }

  /** The rejection rules read flat, one disjunct per `return false`, with
      the enclosing block conditions conjoined: a method is rejected exactly
      when its declaring type is present and one rule applies. */
  ghost predicate Rejected(m: MethodInfo, assignable: Assignability)
  {
    m.declaringType.Some? &&
    var d := m.declaringType.value;
    || (assignable(d, ModType) && m.name in {
          "get_Texture", "get_HighlightTexture", "get_Name", "SaveData", "LoadData",
          "IsLoadingEnabled", "ValidateType", "Load", "AutoStaticDefaults", "AutoDefaults",
          "SetStaticDefaults", "SetDefaults", "AddRecipes", "Unload"})
    || (assignable(d, ModType) && assignable(d, ModNPC) && m.name in {"OnChatButtonClicked", "AddShops"})
    || (assignable(d, ILocalizedModType) && m.name == "get_LocalizationCategory")
    || (assignable(d, ILocalizedModType) && m.returnType == LocalizedText && m.name in {"get_DisplayName", "get_Tooltip"})
    || (assignable(d, ModSystem) && m.name in {"SaveWorldData", "LoadWorldData", "SaveWorldHeader"})
    || ((assignable(d, Mod) || assignable(d, ModSystem)) && m.name in {
          "Load", "OnModLoad", "SetupContent", "PostSetupContent", "AddRecipeGroups",
          "AddRecipes", "PostAddRecipes", "OnLocalizationsLoaded", "Close", "OnModUnload", "Unload"})
  }

  /** `CommonMethodFilter` */
  function CommonMethodFilter(assignable: Assignability): (f: Filter<MethodInfo>)
    ensures forall m :: Apply(f, m) <==> !Rejected(m, assignable)
  {
    Filter((m: MethodInfo) => CommonMethodAdmits(m, assignable))
  }

  /** Consequences of the rule set, one per rule. */
  lemma CommonMethodRules(m: MethodInfo, assignable: Assignability)
    ensures m.declaringType.None? ==> Apply(CommonMethodFilter(assignable), m)
    ensures m.declaringType.Some? && assignable(m.declaringType.value, ModType) && m.name == "SetDefaults"
      ==> !Apply(CommonMethodFilter(assignable), m)
    ensures m.declaringType.Some? && assignable(m.declaringType.value, ILocalizedModType)
      && m.name == "get_DisplayName" && m.returnType != LocalizedText
      && !assignable(m.declaringType.value, ModType) && !assignable(m.declaringType.value, ModSystem)
      && !assignable(m.declaringType.value, Mod)
      ==> Apply(CommonMethodFilter(assignable), m)
    ensures m.declaringType.Some? && assignable(m.declaringType.value, ModNPC) && !assignable(m.declaringType.value, ModType)
      && m.name == "AddShops" && !assignable(m.declaringType.value, ILocalizedModType)
      ==> Apply(CommonMethodFilter(assignable), m)
  {
  }

  /** Every method name the rule set can reject. */
  const RuleNames: set<string> :=
    ModTypeSetupNames + ModNPCNames + {"get_LocalizationCategory"} + LocalizedTextGetters + WorldDataNames + LoadUnloadNames

  /** The rule set only ever looks at the five framework types and the
      listed names: a method outside either is admitted, and every listed
      name is rejected for a suitable declaring type. */
  lemma CommonMethodNeutral(m: MethodInfo, assignable: Assignability)
    ensures m.name !in RuleNames ==> Apply(CommonMethodFilter(assignable), m)
    ensures m.declaringType.Some? ==>
      var d := m.declaringType.value;
      !assignable(d, ModType) && !assignable(d, ILocalizedModType) && !assignable(d, ModSystem) && !assignable(d, Mod)
      ==> Apply(CommonMethodFilter(assignable), m)
    ensures m.declaringType.Some? && m.name in RuleNames ==>
      var d := m.declaringType.value;
      assignable(d, ModType) && assignable(d, ModNPC) && assignable(d, ILocalizedModType)
      && assignable(d, ModSystem) && m.returnType == LocalizedText
      ==> !Apply(CommonMethodFilter(assignable), m)
  {
  }
}
