# TigerForceLocalizationLib, modelled in Dafny

TigerForceLocalizationLib patches string literals in the bytecode of tModLoader mods. It finds the `ldstr`s of a method and replaces each literal with a translated text. The translation comes from a dictionary, from an ordered list of pairs, or from persisted `<methodKey>.<i>.OldString` / `NewString` entries in the host's text provider (`Language`). With late-bound text, the literal becomes a provider key followed by a run-time call to `Language.GetTextValue`.

This project models the decision logic of that patcher as pure Dafny functions over small datatypes, and proves what the code promises about it.

- `Cil` (cil.dfy): instructions, stack-behaviour tags, call targets and a cursor. A method body is a `seq<Instr>`.
- `Reflection` (reflection.dfy): types with a nullable `FullName`, and method descriptors. The host's subtype relation is a parameter.
- `Filters` (filters.dfy): the filter wrapper and the `|`, `&`, `!`, `MatchAll` and `MatchAny` algebra. All three filter classes share it.
- `ILCursorFilter` (il_cursor_filter.dfy): the stack-behaviour table, the `FindMethodUsage` stack simulation (as a function and as the source's loop), and the cursor filters. Filter names are explained below.
- `MethodFilter` and `TypeFilter`: name and declaring-type filters, and the rule-based `CommonMethodFilter`.
- `Language` (language.dfy): the host text provider as a finite `map<string, string>`, with `Exists`, `GetTextValue` and `GetOrRegister`.
- `LocalizationHelper` (localization_helper.dfy):
  - the `SingleNewString` / `MultipleNewString` descriptors;
  - the persisted key names;
  - the table build of `LocalizeMethod`, with a repeated original text as `Dictionary.Add` throwing;
  - the forward rewrite scan, and `LocalizeMethod` itself.
- `LocalizeAll` (localize_all.dfy): `GetMethodKey`, method and type selection, duplicate-name counting, and the loops over types and methods.
- `ForceLocalize` (force_localize.dfy): `Localize`, `LocalizeInOrder` and the two `ReplaceString_IL` strategies.
- `TypeHelper` (type_helper.dfy): the one-shot type-index cache and its three-state lifecycle.
- `Wrappers` and `Strings`: `Option`/`Result`, and decimal rendering of naturals with its injectivity.

The filters in `ILCursorFilter`:
- `CommonCursorFilter` takes its deny-list as a parameter.
- `NoLanguageMethods` and `NoCommonLanguageMethods` are instances of it.
- `MatchMethodUsage` hands the resolved usage to a caller's predicate.

How the MonoMod cursor is read:
- After `EmitLdstr`/`EmitCall`/`Remove`, the next `TryGotoNext` starts at the instruction after the removed `ldstr`. So every rewrite loop is one forward pass over the original instructions. Emitted code is never revisited.
- The cursor filter of `LocalizeMethod` sees the body as rewritten so far, positioned at the current `ldstr`.

Points where the code says more than its own documentation:
- With `useLocalizedText`, `LocalizeMethod` emits the provider KEY `<methodKey>.<i>.NewString` (or `NewString_<j>`) followed by `GetTextValue`, not the stored text. See `ReplayExample`.
- Registration puts a new literal under index `localizations.Count + 1`. That counts table entries, not persisted indices. An index that has an `OldString` but no `NewString` adds no entry. A literal registered later then reuses that index: `GetOrRegister` keeps the old `OldString` and adds a `NewString`, so the persisted pair now maps the older text to the new literal. `RegisterCollisionExample` shows this, and `RegisterIndexFresh` states when it cannot happen. The model follows the code.
- `LocalizeAll` passes `usedMethodKey.Contains` for a set it never adds to. So the suffix loop of `GetMethodKey` never runs there, and a method's key is always `<root>.<type full name>.<base>` (`GetMethodKeyUnusedBase`, `MethodKeyIn`).
- The `Debug.Assert` branch of the table build cannot be reached. When `NewString_1` exists, the read values are never empty (`EntryShape`).

## Model

| member | source | states |
|---|---|---|
| Filters.Or | Filters/ILCursorFilter.cs:21-23 | `left \| right` admits exactly what either operand admits |
| Filters.And | Filters/ILCursorFilter.cs:27-29 | `left & right` admits exactly what both operands admit |
| Filters.Not | Filters/ILCursorFilter.cs:33 | `!self` admits exactly what `self` rejects |
| Filters.MatchAll | Filters/ILCursorFilter.cs:37 | admits `x` iff every filter of the array admits it |
| Filters.MatchAny | Filters/ILCursorFilter.cs:41 | admits `x` iff some filter of the array admits it |
| Filters.CombinationLaws | Filters/ILCursorFilter.cs:21-41 | `MatchAll([])` admits everything and `MatchAny([])` nothing; over two filters `MatchAll` agrees with `&` and `MatchAny` with `\|` |
| Filters.NotMatchAny | Filters/ILCursorFilter.cs:33-41 | De Morgan: `!MatchAny(fs)` agrees with `MatchAll` of the negated filters |
| ILCursorFilter.PushCount | Filters/ILCursorFilter.cs:384-417 | the stack-behaviour table: pop tags give at most 0 and at least -3, push tags give 0 to 2, `PopAll` alone gives `int.MinValue / 2`, and `Pop0`/`Push0`/`Varpop`/`Varpush` give 0 |
| ILCursorFilter.PopCount | Filters/ILCursorFilter.cs:383 | the pop count is never negative; it is 2^30 for `PopAll` and at most 3 otherwise |
| ILCursorFilter.PushCountOf | Filters/ILCursorFilter.cs:382 | the push count is between 0 and 2 |
| ILCursorFilter.DirectTarget | Filters/ILCursorFilter.cs:427 | only `call`, `callvirt` and `newobj` have a target that can be reported |
| ILCursorFilter.StepOf | Filters/ILCursorFilter.cs:425-446 | one loop iteration: continuing needs straight-line flow and keeps depth at least 1; a reported consumer is a direct call whose parameter count reaches the current depth |
| ILCursorFilter.Resolve | Filters/ILCursorFilter.cs:422-448 | a reported consumer takes at least one parameter and is a direct call reached through straight-line instructions only |
| ILCursorFilter.Usage | Filters/ILCursorFilter.cs:418-423 | no usage when the cursor has no `Next` or nothing follows it |
| ILCursorFilter.FindMethodUsage | Filters/ILCursorFilter.cs:418-449 | the loop with a running depth computes the same result as the recursive simulation; the loop invariant keeps depth at least 1 |
| ILCursorFilter.Advance | Filters/ILCursorFilter.cs:425-446 | the statement-level loop body agrees with the one-step function on every instruction and depth |
| ILCursorFilter.StopsAtEndAndBranches | Filters/ILCursorFilter.cs:423-426 | the walk yields no usage at the end of the code, or at an instruction whose flow is neither Next nor Call |
| ILCursorFilter.DirectConsumer | Filters/ILCursorFilter.cs:427-432 | a direct call with at least `depth` parameters is the consumer; otherwise the walk continues at `depth - params` plus one when a return type is present, whether or not it is `void` |
| ILCursorFilter.OtherConsumers | Filters/ILCursorFilter.cs:434-444 | a `calli` that reaches the literal, or another instruction whose pops reach it (`PopAll` included), yields no usage |
| ILCursorFilter.BranchBeforeCall | Filters/ILCursorFilter.cs:423-426 | a branch before any direct call means no usage, even when a matching call follows |
| ILCursorFilter.Examples | Filters/ILCursorFilter.cs:418-448 | `ldstr; call f(string)` resolves to `f`; `ldstr; brtrue; call f(string)`, a lone `ldstr` and a cursor past the end resolve to nothing |
| ILCursorFilter.CommonCursorFilter | Filters/ILCursorFilter.cs:361-371 | admits a site iff no consumer is found or the consumer's declaring type is not on the deny-list |
| ILCursorFilter.NoLanguageMethods | Filters/ILCursorFilter.cs:47-54 | agrees with the deny-list filter over `{Language}` |
| ILCursorFilter.NoCommonLanguageMethods | Filters/ILCursorFilter.cs:59-68 | agrees with the deny-list filter over `{Language, LanguageManager}` |
| ILCursorFilter.MatchMethodUsage | Filters/ILCursorFilter.cs:377 | the caller's predicate gets `None` when no consumer is found, and the consumer otherwise |
| ILCursorFilter.CommonIsUsageFilter | Filters/ILCursorFilter.cs:361-377 | the deny-list filter is `MatchMethodUsage` of a null-admitting predicate |
| ILCursorFilter.DenyListMonotone | Filters/ILCursorFilter.cs:361-371 | a larger deny-list admits no more sites |
| MethodFilter.MatchName | Filters/MethodFilter.cs:44 | admits a method iff its name is `name` |
| MethodFilter.MismatchName | Filters/MethodFilter.cs:48 | the exact complement of `MatchName` |
| MethodFilter.MatchNames | Filters/MethodFilter.cs:52-55 | admits a method iff its name is one of `names` |
| MethodFilter.MismatchNames | Filters/MethodFilter.cs:59-62 | the exact complement of `MatchNames` |
| MethodFilter.MatchNamesIsAny | Filters/MethodFilter.cs:52-55 | `MatchNames(ns)` agrees with `MatchAny` of the single-name filters |
| MethodFilter.SingleName | Filters/MethodFilter.cs:44-62 | the one-element set forms agree with `MatchName` and `MismatchName` |
| MethodFilter.MatchDeclaringTypes | Filters/MethodFilter.cs:70-78 | requires a declaring type; it must equal one of `types`, or with the derived check be assignable to one of them |
| MethodFilter.MatchDeclaringTypesDerived | Filters/MethodFilter.cs:83 | the overload without the flag is the derived check |
| MethodFilter.MatchDeclaringType | Filters/MethodFilter.cs:89-91 | agrees with `MatchDeclaringTypes` over `[type]`, in both modes, and rejects a missing declaring type |
| MethodFilter.MatchDeclaringTypeDerived | Filters/MethodFilter.cs:96 | the overload without the flag is the derived check |
| MethodFilter.ExactImpliesDerived | Filters/MethodFilter.cs:70-78 | with a reflexive subtype relation, an exact match is also a derived match |
| MethodFilter.CommonMethodAdmits | Filters/MethodFilter.cs:101-154 | definition: the rule set with its null check and `ModType`/`ModNPC` block; its meaning is stated by `CommonMethodFilter` and `CommonMethodNeutral` |
| MethodFilter.AfterModTypeBlock | Filters/MethodFilter.cs:123-154 | definition: the `ILocalizedModType` block with the nested return-type check; stated through `CommonMethodFilter` |
| MethodFilter.AfterLocalizedBlock | Filters/MethodFilter.cs:133-153 | definition: the shared `isModSystem` and the world-data and load/unload blocks; stated through `CommonMethodFilter` |
| MethodFilter.CommonMethodFilter | Filters/MethodFilter.cs:101-154 | the nested rule blocks (the `ModNPC` block inside the `ModType` block, the return-type check inside the `ILocalizedModType` block, the shared `isModSystem`) admit a method iff none of the six rejection rules, read flat with their enclosing conditions, applies |
| MethodFilter.CommonMethodNeutral | Filters/MethodFilter.cs:101-154 | a method whose name none of the rules lists, or whose declaring type is assignable to none of `ModType`, `ILocalizedModType`, `ModSystem`, `Mod`, is admitted; every listed name is rejected for a declaring type assignable to all of them with a `LocalizedText` return type |
| MethodFilter.CommonMethodRules | Filters/MethodFilter.cs:102-154 | a null declaring type is admitted; `SetDefaults` on a `ModType` is rejected; `get_DisplayName` not returning `LocalizedText` is admitted; `AddShops` on a `ModNPC` that is not a `ModType` is admitted |
| TypeFilter.MatchFullName | Filters/TypeFilter.cs:43 | admits a type iff it has a full name equal to `fullName` |
| TypeFilter.MismatchFullName | Filters/TypeFilter.cs:47 | admits a type with a null full name, or with a different one |
| TypeFilter.MatchFullNames | Filters/TypeFilter.cs:51-54 | rejects a null full name; otherwise admits iff the full name is listed |
| TypeFilter.MismatchFullNames | Filters/TypeFilter.cs:58-61 | admits a null full name; otherwise admits iff the full name is not listed |
| TypeFilter.Complements | Filters/TypeFilter.cs:43-61 | the mismatch filters are exact complements of the match filters on every type |
| TypeFilter.SingleFullName | Filters/TypeFilter.cs:43-54 | the one-element set form agrees with the single-name form |
| LocalizationHelper.MakeMultiple | TigerForceLocalizationHelper.cs:271-274 | a fresh multi-value descriptor over `values`; a missing default falls back to the first value |
| LocalizationHelper.MultipleValues | TigerForceLocalizationHelper.cs:268-277 | `n` calls of `GetValue` answer the remaining values in order, then the default every time |
| LocalizationHelper.SingleValues | TigerForceLocalizationHelper.cs:263-266 | a single-value descriptor answers its value on every call |
| LocalizationHelper.OrderedExample | TigerForceLocalizationHelper.cs:268-277 | `[A, B]` with default `B` answers `A, B, B, B` |
| LocalizationHelper.GetValue | TigerForceLocalizationHelper.cs:265-276 | definition: `NewString.GetValue` for both descriptor kinds; stated by `MultipleValues`, `SingleValues` and `GetValueWithinValues` |
| LocalizationHelper.GetValueWithinValues | TigerForceLocalizationHelper.cs:263-277 | `GetValue` answers one of the descriptor's texts and keeps the set of texts |
| LocalizationHelper.OldStringKey | TigerForceLocalizationHelper.cs:174-175 | definition: `{methodKey}.{i}.OldString`; stated by `OldStringKeyInjective` and `OldNewKeysDiffer` |
| LocalizationHelper.NewStringKey | TigerForceLocalizationHelper.cs:174-180 | definition: `{methodKey}.{i}.NewString`; stated by `OldNewKeysDiffer` |
| LocalizationHelper.NewStringsKey | TigerForceLocalizationHelper.cs:183-184 | definition: `{newStringKey}_{j}`; stated by `NewStringsKeyInjective` |
| LocalizationHelper.OldStringKeyInjective | TigerForceLocalizationHelper.cs:174-175 | distinct indices give distinct `OldString` keys |
| LocalizationHelper.NewStringsKeyInjective | TigerForceLocalizationHelper.cs:184 | distinct `j` give distinct `NewString_j` keys |
| LocalizationHelper.OldNewKeysDiffer | TigerForceLocalizationHelper.cs:218-220 | the `OldString` and `NewString` keys of one index differ |
| LocalizationHelper.OldStringRunBound | TigerForceLocalizationHelper.cs:173-178 | a finite provider holds at most as many consecutive `OldString` indices as it has keys, so the `i` loop ends |
| LocalizationHelper.NewStringsRunBound | TigerForceLocalizationHelper.cs:183-187 | likewise for consecutive `NewString_j` keys, so the `j` loop ends |
| LocalizationHelper.ReadNewStrings | TigerForceLocalizationHelper.cs:183-189 | the `j` loop: value `j` comes from an existing `NewString_j` (its key when late-bound, its text otherwise), and the read stops at the first missing `j` |
| LocalizationHelper.Entry | TigerForceLocalizationHelper.cs:180-201 | an index yields a descriptor iff it has `NewString_1` or a plain `NewString` |
| LocalizationHelper.EntryShape | TigerForceLocalizationHelper.cs:181-200 | with `NewString_1`: a fresh multi-value descriptor with at least one value, whose default is plain `NewString` if present and else the first value; otherwise a single descriptor over `NewString` |
| LocalizationHelper.FirstGap | TigerForceLocalizationHelper.cs:173-178 | the first index without an `OldString`; every index before it has one |
| LocalizationHelper.DistinctFromIff | TigerForceLocalizationHelper.cs:173-201 | the in-order check the `Add` calls make agrees with the pairwise statement that contributing indices have distinct original texts |
| LocalizationHelper.BuildTableFrom | TigerForceLocalizationHelper.cs:173-202 | definition: the `for (i = 1; ; ++i)` loop from index `i`; stated by `BuildTableSucceeds`, `BuildTableKeeps`, `BuildTableMaps`, `BuildTableOnly` and `BuildTableSize` |
| LocalizationHelper.BuildTable | TigerForceLocalizationHelper.cs:172-202 | definition: the table build from an empty dictionary; stated by the same `BuildTable*` lemmas and `LocalizeMethodOutcome` |
| LocalizationHelper.BuildTableSucceeds | TigerForceLocalizationHelper.cs:172-202 | the table build succeeds iff no contributing index before the first gap repeats an original text; a non-contributing index does not stop the loop |
| LocalizationHelper.BuildTableKeeps | TigerForceLocalizationHelper.cs:172-202 | on success the table keeps every entry it started with |
| LocalizationHelper.BuildTableMaps | TigerForceLocalizationHelper.cs:172-202 | on success every contributing index before the first gap maps its original text to its descriptor |
| LocalizationHelper.BuildTableOnly | TigerForceLocalizationHelper.cs:172-202 | on success the table holds nothing but those original texts |
| LocalizationHelper.BuildTableSize | TigerForceLocalizationHelper.cs:172-202 | when every index before the gap contributes, the table has one entry per index |
| LocalizationHelper.Replacement | TigerForceLocalizationHelper.cs:226-235 | the code a rewritten literal becomes: one `ldstr` when text is direct; `ldstr` then `call Language.GetTextValue` when late-bound |
| LocalizationHelper.RegisterPair | TigerForceLocalizationHelper.cs:218-222 | registers the `OldString` and `NewString` keys, each defaulting to the literal only when absent; no existing entry changes |
| LocalizationHelper.Visit | TigerForceLocalizationHelper.cs:208-235 | one iteration of the scan: non-literals are copied; an unknown literal in replay mode is copied; a literal the cursor filter rejects is copied before anything is registered; otherwise the literal ends in the table and is replaced by the entry's next value; only registration changes the provider or the table's keys |
| LocalizationHelper.RegisterThenRewrite | TigerForceLocalizationHelper.cs:217-226 | an unknown literal is registered under index `Count + 1` with both keys defaulting to the literal, and is rewritten to `NewString`'s key or text |
| LocalizationHelper.RewriteRegistered | TigerForceLocalizationHelper.cs:217-235 | over any two distinct keys: the table gains the literal, the provider gains exactly the two keys, and the emitted literal is the new key's value or key |
| LocalizationHelper.Rewrite | TigerForceLocalizationHelper.cs:226-235 | a known literal becomes the replacement of the entry's next value; only that entry advances, and the provider is untouched |
| LocalizationHelper.Scan | TigerForceLocalizationHelper.cs:205-237 | definition: the `TryGotoNext` loop as one forward pass of `Visit`; stated by `ScanShape`, `ScanReplay`, `ScanReplayAvoids`, `ScanIdentity` and `ScanRegistersAll` |
| LocalizationHelper.ScanShape | TigerForceLocalizationHelper.cs:205-237 | the scan's output is the input with each instruction copied in order, except some `ldstr`s replaced by replacement code; the provider and the table's keys only grow |
| LocalizationHelper.ScanReplay | TigerForceLocalizationHelper.cs:212-214 | in replay mode nothing is registered: the provider and the table's keys are unchanged |
| LocalizationHelper.ScanReplayAvoids | TigerForceLocalizationHelper.cs:212-235 | a replay scan without a cursor filter leaves no literal the table knows, when no replacement text is itself an original text |
| LocalizationHelper.ScanIdentity | TigerForceLocalizationHelper.cs:212-214 | a replay scan over code whose literals the table does not know copies it unchanged |
| LocalizationHelper.ScanRegistersAll | TigerForceLocalizationHelper.cs:213-225 | in registration mode without a cursor filter, every literal of the body ends in the table |
| LocalizationHelper.LocalizeMethod | TigerForceLocalizationHelper.cs:157-170 | replay mode does nothing without `<methodKey>.1.OldString`; registration mode does nothing on a body without `ldstr` |
| LocalizationHelper.LocalizeMethodOutcome | TigerForceLocalizationHelper.cs:157-239 | fails iff it does not skip and two contributing persisted pairs share an original text; on success the body is a rewrite of the original and the provider only grows |
| LocalizationHelper.RewritesSelf | TigerForceLocalizationHelper.cs:159-169 | a skipped method's unchanged body is a rewrite of itself |
| LocalizationHelper.ReplayIdempotent | TigerForceLocalizationHelper.cs:159-237 | replay leaves the provider alone; when no replacement text is an original text, replaying again changes nothing |
| LocalizationHelper.RegisterIndexFresh | TigerForceLocalizationHelper.cs:218 | when every index before the first gap contributes, `Count + 1` is the first free index, so the registration writes a new `OldString` |
| LocalizationHelper.ExampleKeys | TigerForceLocalizationHelper.cs:174-184 | the key shapes `M.1.OldString`, `M.1.NewString`, `M.1.NewString_1` |
| LocalizationHelper.ReplayExample | TigerForceLocalizationHelper.cs:157-239 | pair `Hello -> Bonjour` under `M`: direct text gives `ldstr "Bonjour"`; late-bound text gives `ldstr "M.1.NewString"; call GetTextValue` |
| LocalizationHelper.RegisterCollisionExample | TigerForceLocalizationHelper.cs:173-225 | index 1 has an `OldString` `A` but no `NewString`; registering `B` reuses index 1, so the persisted pair becomes `A -> B` |
| LocalizeAll.ParameterTypeNames | TigerForceLocalizationHelper.cs:131 | the parameter types' simple names, in order |
| LocalizeAll.BaseKey | TigerForceLocalizationHelper.cs:125-133 | definition: `method.Name`, or `Name_` plus the joined parameter type names when duplicated; stated by `NoParameterBaseKey` and `OverloadBaseKey` |
| LocalizeAll.KeyCandidate | TigerForceLocalizationHelper.cs:134-137 | definition: the base for the first candidate and `{methodKey}_{i}` from `i = 2`; stated by `KeyCandidateInjective` and `GetMethodKeyFirstFree` |
| LocalizeAll.KeyCandidateInjective | TigerForceLocalizationHelper.cs:134-137 | distinct suffix indices give distinct candidates |
| LocalizeAll.CandidateRunBound | TigerForceLocalizationHelper.cs:135-137 | a finite is-used set covers only finitely many candidates, so the suffix loop ends |
| LocalizeAll.FirstFree | TigerForceLocalizationHelper.cs:134-137 | the first candidate index not reported used; every earlier one is used |
| LocalizeAll.GetMethodKey | TigerForceLocalizationHelper.cs:123-140 | the key is `<root>.<type full name>.` followed by a candidate that is not in use |
| LocalizeAll.GetMethodKeyFirstFree | TigerForceLocalizationHelper.cs:134-138 | the candidate is `base` or `base_n`, and every earlier candidate is in use |
| LocalizeAll.GetMethodKeyUnusedBase | TigerForceLocalizationHelper.cs:134-138 | an unused base is taken as is; in particular with the empty set `LocalizeAll` passes |
| LocalizeAll.NoParameterBaseKey | TigerForceLocalizationHelper.cs:126-133 | without disambiguation the base is the name; a parameterless overload is disambiguated to `Name_` |
| LocalizeAll.GetMethodKeySuffixExample | TigerForceLocalizationHelper.cs:134-138 | with `Foo` and `Foo_2` used, `Foo` gets `Foo_3` |
| LocalizeAll.GetMethodKeyOverloadExample | TigerForceLocalizationHelper.cs:129-138 | `Foo(Int32, String)` of a type without a full name gets `R..Foo_Int32_String` |
| LocalizeAll.OverloadBaseKey | TigerForceLocalizationHelper.cs:130-132 | the disambiguated base of `Foo(Int32, String)` is `Foo_Int32_String` |
| LocalizeAll.UsedInLang | TigerForceLocalizationHelper.cs:124 | the default check reports a candidate used iff `<root>.<type full name>.<candidate>` exists in the provider |
| LocalizeAll.DefaultKeyIsFresh | TigerForceLocalizationHelper.cs:124-138 | with the default check, the returned key is not yet in the provider |
| LocalizeAll.LocalizationRoot | TigerForceLocalizationHelper.cs:80 | a missing root defaults to `Mods.<selfModName>.ForceLocalizations` |
| LocalizeAll.Selected | TigerForceLocalizationHelper.cs:92-104 | definition: `GetMethodPredicate(type)` with and without a method filter; stated through `SelectMethods` and `SelectMethodsSingle` |
| LocalizeAll.SelectMethods | TigerForceLocalizationHelper.cs:92-110 | keeps exactly the methods declared by the type itself that are concrete, non-generic, JIT-admitted, have a body, and pass the method filter if there is one |
| LocalizeAll.SelectMethodsMultiplicity | TigerForceLocalizationHelper.cs:109-110 | a selected method occurs in the result as often as in the enumeration, any other method not at all |
| LocalizeAll.SelectMethodsAppend | TigerForceLocalizationHelper.cs:109-110 | the selection distributes over concatenation, so `.Where(...).ToArray()` keeps enumeration order |
| LocalizeAll.SelectMethodsSingle | TigerForceLocalizationHelper.cs:92-110 | a single method is kept iff it is selected |
| LocalizeAll.SelectionCounts | TigerForceLocalizationHelper.cs:109-115 | a name's occurrences in the selection equal the number of selected positions of the type's method list carrying it |
| LocalizeAll.SelectedTwice | TigerForceLocalizationHelper.cs:109-117 | that count exceeds one iff two distinct selected positions of the method list carry the name |
| LocalizeAll.CountNames | TigerForceLocalizationHelper.cs:111-115 | definition: the `TryAdd(name, 1)` / `+= 1` loop; stated by `CountNamesCounts` |
| LocalizeAll.CountNamesCounts | TigerForceLocalizationHelper.cs:111-115 | `methodCount` ends up holding each name's number of occurrences |
| LocalizeAll.OccurrencesTwice | TigerForceLocalizationHelper.cs:111-117 | a name's count exceeds one iff two positions of the selection carry it |
| LocalizeAll.DisambiguatedIff | TigerForceLocalizationHelper.cs:107-117 | `methodCount[name] > 1` iff two positions of the selection carry the name, iff two distinct selected methods of the type's method list carry it |
| LocalizeAll.LocalizeMethods | TigerForceLocalizationHelper.cs:116-119 | definition: `LocalizeMethod` over the selected methods in order, threading the provider; stated by `LocalizeMethodsShape` and `LocalizeMethodsFailure` |
| LocalizeAll.LocalizeType | TigerForceLocalizationHelper.cs:106-119 | definition: one type's selection, name counts and method pass; stated by `DisambiguatedIff`, `LocalizeMethodsShape` and `HeadShape` |
| LocalizeAll.LocalizeMethodsShape | TigerForceLocalizationHelper.cs:116-119 | on success each method yields one body: unselected ones unchanged, selected ones rewritten; the provider only grows |
| LocalizeAll.LocalizeMethodsFailure | TigerForceLocalizationHelper.cs:116-119 | when the methods before position `k` go through, leaving provider `L`, and the selected method at `k` fails against `L`, the whole pass fails |
| LocalizeAll.LocalizeTypes | TigerForceLocalizationHelper.cs:83-120 | definition: the type query and the type loop, threading the provider; stated by `LocalizeTypesShape` and `HeadShape` |
| LocalizeAll.LocalizeTypesShape | TigerForceLocalizationHelper.cs:83-120 | on success the type loop leaves types outside the type query unchanged and rewrites the rest method by method; the provider only grows |
| LocalizeAll.HeadShape | TigerForceLocalizationHelper.cs:106-119 | one type of the loop: its bodies are kept when the type query drops it, and are rewrites otherwise |
| LocalizeAll.LocalizeAllMods | TigerForceLocalizationHelper.cs:75-121 | fails with `ModNotFound` iff the mod is not loaded; on success there is one entry per loadable type and the provider only grows |
| ForceLocalize.DefaultReplaceString | ForceLocalizeSystem.cs:293 | definition: the base `ReplaceString(old, new) => new`; stated by `DefaultStrategy` |
| ForceLocalize.DefaultStrategy | ForceLocalizeSystem.cs:293 | the base `ReplaceString(old, new)` returns `new` |
| ForceLocalize.ReplaceStringIL | ForceLocalizeSystem.cs:301-304 | the base strategy overwrites the operand with `ReplaceString(old, new)`; `ByLocalizeText` (lines 502-508) registers `new` with `old` as its default and emits `ldstr new; call GetTextValue` |
| ForceLocalize.ReplaceStringILExtends | ForceLocalizeSystem.cs:502-508 | neither strategy removes or changes a provider entry, and both produce the replacement code shapes |
| ForceLocalize.LocalizeScan | ForceLocalizeSystem.cs:65-73 | the hook's output is a rewrite of the body; the provider only grows |
| ForceLocalize.Localize | ForceLocalizeSystem.cs:57-74 | a null method is left alone; an empty dictionary changes nothing; otherwise the body is rewritten |
| ForceLocalize.LocalizeScanOverwrite | ForceLocalizeSystem.cs:68-71 | with the overwrite strategy, exactly the `ldstr`s whose text is a key become `ldstr ReplaceString(text, value)`; everything else and the provider are kept |
| ForceLocalize.LocalizeScanRegisters | ForceLocalizeSystem.cs:502-503 | with `ByLocalizeText`, every new text of a literal the body loads ends up registered |
| ForceLocalize.LocalizeScanLookupCode | ForceLocalizeSystem.cs:65-73 | with the run-time lookup strategy the body is the per-instruction expansion in which exactly the key literals become `ldstr new; call GetTextValue`, whatever the provider holds |
| ForceLocalize.LocalizeScanLookupKeys | ForceLocalizeSystem.cs:502-507 | with the run-time lookup strategy the provider's keys become exactly the old keys plus the new texts of the key literals the body loads |
| ForceLocalize.LocalizeScanLookupDefaults | ForceLocalizeSystem.cs:502-507 | a key the provider lacked is registered with the original text of the first literal that loads it |
| ForceLocalize.LocalizeTwice | ForceLocalizeSystem.cs:57-74 | with the default strategy, localising twice equals localising once when no new text is itself a key |
| ForceLocalize.LocalizeInOrder | ForceLocalizeSystem.cs:144-166 | a null method is left alone; an empty list changes nothing; otherwise the body is rewritten chunk by chunk and the provider only grows |
| ForceLocalize.InOrderScan | ForceLocalizeSystem.cs:152-166 | the ordered pass rewrites the body chunk by chunk, including the untouched tail after the last pair, and only adds provider keys |
| ForceLocalize.InOrderMatchesReference | ForceLocalizeSystem.cs:152-166 | the scan equals the reference reading: pair `k` rewrites the first later `ldstr` of its text, non-matching literals do not advance `k`, and scanning stops once every pair is used |
| ForceLocalize.InOrderReferenceSkip | ForceLocalizeSystem.cs:156-159 | a first instruction that does not match pair `k` is copied and `k` stays |
| ForceLocalize.InOrderExample | ForceLocalizeSystem.cs:144-167 | pairs `A -> X`, `B -> Y` over `B, A, B, A` give `B, X, Y, A` |
| ForceLocalize.ByLocalizeTextExample | ForceLocalizeSystem.cs:502-508 | `Hello -> Mods.M.Hello` over an empty provider emits a lookup of the key and registers it with `Hello` |
| TypeHelper.AddType | ForceLocalizeSystem.cs:455-462 | one loop iteration: `TryAdd` by name keeps an existing entry and records the name as duplicated; a null full name is skipped; an existing full name is kept |
| TypeHelper.IndexTypes | ForceLocalizeSystem.cs:455-462 | definition: the loop over the loadable types with `AddType`; stated by `IndexByNameKeys`, `IndexByNameFirstWins`, `IndexDuplicates`, `IndexByFullNameKeys` and `IndexByFullNameFirstWins` |
| TypeHelper.IndexByNameKeys | ForceLocalizeSystem.cs:455-458 | `TypeByName` holds exactly the names that occur |
| TypeHelper.IndexByNameFirstWins | ForceLocalizeSystem.cs:455-458 | each name maps to the first type carrying it |
| TypeHelper.IndexDuplicates | ForceLocalizeSystem.cs:455-458 | `DuplicatedNames` holds exactly the names that occur at least twice |
| TypeHelper.IndexByFullNameKeys | ForceLocalizeSystem.cs:459-461 | `TypeByFullName` holds exactly the non-null full names that occur |
| TypeHelper.IndexByFullNameFirstWins | ForceLocalizeSystem.cs:459-461 | each full name maps to the first type carrying it |
| TypeHelper.Initialize | ForceLocalizeSystem.cs:440-463 | fails after clear, then on a second call, then on a missing mod, checked in that order; it succeeds exactly otherwise, leaving the cache ready |
| TypeHelper.Clear | ForceLocalizeSystem.cs:465-472 | sets `cleared`, resets `initialized` and nulls every cache field |
| TypeHelper.ModAssembly | ForceLocalizeSystem.cs:394-401 | a set field is answered without initialising |
| TypeHelper.TypeByName | ForceLocalizeSystem.cs:406-413 | a set field is answered without initialising |
| TypeHelper.DuplicatedNames | ForceLocalizeSystem.cs:418-425 | a set field is answered without initialising |
| TypeHelper.TypeByFullName | ForceLocalizeSystem.cs:430-437 | a set field is answered without initialising |
| TypeHelper.AfterClearEveryAccessorFails | ForceLocalizeSystem.cs:394-472 | after `Clear`, every accessor and `Initialize` itself throws the after-clear error |
| TypeHelper.Transitions | ForceLocalizeSystem.cs:438-472 | the fields stay in one of three states: uninitialised, ready, cleared; only uninitialised can become ready, and a ready cache answers every accessor unchanged |
| TypeHelper.FirstUse | ForceLocalizeSystem.cs:406-463 | on a fresh cache the first accessor succeeds iff the mod is loaded, and then every accessor answers from the same index |
| TypeHelper.IndexExample | ForceLocalizeSystem.cs:455-462 | two types named `Foo` and one without a full name: the first `Foo` wins, `Foo` is duplicated, and the null full name is skipped |

## Left out

- The host text provider (`Language`): modelled as a finite map with `Exists`, `GetTextValue` and `GetOrRegister`. Its loading, hot reload and language switching are outside the library.
- `MonoModHooks.Modify` and the `ILCursor` internals: a patch is applied to the body at once, rather than when the method is next compiled. `TryGotoNext` is the forward pass described above.
- Branch labels: the model has none. `MoveAfterLabels` and label retargeting on `Remove` are therefore not modelled.
- Null `ldstr` operands: an operand is always a string here, so the `str == null` / `cursor.Next == null` skips (TigerForceLocalizationHelper.cs:209-210, ForceLocalizeSystem.cs:69 and 157) never apply.
- ILCursorFilter.FindMethodUsage: the simulated depth is an unbounded integer. 32-bit wrap-around of `stack` would need about 2^31 pushes in straight-line code, so it is not modelled.
- Type identity: `TypeRef` values are compared structurally, by `Name` and `FullName`, where the source compares `System.Type` objects by reference (`method.DeclaringType == type` at TigerForceLocalizationHelper.cs:93, the `HashSet<Type>` and `==` at Filters/MethodFilter.cs:70-91, `ReturnType == typeof(LocalizedText)` at Filters/MethodFilter.cs:125). Two distinct types with equal names, such as two generic parameters `T` or same-named types from two assemblies, are one type in the model. Within one assembly named types have distinct full names, so the difference shows only for generic parameters and across assemblies.
- LocalizeAll.LocalizeMethods, LocalizeAll.LocalizeTypes and LocalizeAll.LocalizeAllMods: a failure carries only the error, not the state reached before it. In the source nothing catches the `Dictionary.Add` exception (TigerForceLocalizationHelper.cs:106-119, 195-201). The methods and types handled before the failing one therefore stay patched, and their `GetOrRegister` registrations stay in the provider. The failing method itself is untouched, because its table is built before its patch is installed. The model's state at that point is the successful prefix run that `LocalizeMethodsFailure` takes as its hypothesis; the failure result does not return it.
- The exact deny-list `CommonFilteredTypeFullNames` (Filters/ILCursorFilter.cs:69-356): it is a parameter of `CommonCursorFilter`.
- Assembly enumeration, `PreJITFilter`, `ShouldJITRecursive`, `GetMethodBody` and `IsAssignableTo`: these are reflection services. They become inputs: a type's loadable types, boolean flags per type and method, and a subtype relation.
- `LocalizeMethodByRoot` (TigerForceLocalizationHelper.cs:250-256): reflection glue that counts same-named methods and calls `GetMethodKey` and `LocalizeMethod`, which are modelled.
- The progress UI and detour hooks (TigerForceLocalizationHelper.cs:281-378): UI, runtime hooking and floating-point progress.
- The by-type, by-name and by-full-name wrappers and `LocalizeDerived*` (ForceLocalizeSystem.cs:83-287): reflection lookups in front of `Localize`/`LocalizeInOrder`. The type lookups they make are the modelled `TypeHelper` accessors.
- Logging and throw-on-error (ForceLocalizeSystem.cs:309-371): compiled out unless `DEBUG` is defined, and I/O otherwise. A null method is modelled as "logged and left alone".
- The singleton built through reflection and `Activator`, and the static-constructor hook that calls `Clear` after recipe setup (ForceLocalizeSystem.cs:24-44, 373-383). `Clear` is an explicit event instead.
- `ReplaceString` overrides: the overwrite strategy takes any `(old, new) -> string` function. Only the base class's `new` is fixed.
- `TMLReflections.cs` and `Filters/FilterBase.cs`: a reflection handle, and a holder of the predicate that the filter datatype stands in for.
