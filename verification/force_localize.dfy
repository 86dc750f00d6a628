/** `ForceLocalizeSystem`: dictionary-driven and ordered literal replacement
    in one method, with the two `ReplaceString_IL` strategies. */
module ForceLocalize {
  import opened Wrappers
  import opened Cil
  import opened Language
  import opened LocalizationHelper

  /** How `ReplaceString_IL` treats `ldstr old` with its new text `new`:
      the base class overwrites the operand with `ReplaceString(old, new)`
      (overridable, `new` by default); the `ByLocalizeText` classes register
      `new` as a provider key defaulting to `old` and splice in a run-time
      lookup of it. */
  datatype Strategy =
    | Overwrite(replaceString: (string, string) -> string)
    | ByLocalizeText

  /** The base `ReplaceString(old, new)`. */
  function DefaultReplaceString(original: string, replacement: string): string
  {
    replacement
  }

  /** The base class without an overridden `ReplaceString`. */
  function DefaultStrategy(): (s: Strategy)
    ensures s.Overwrite? && forall o, n :: s.replaceString(o, n) == n
  {
    Overwrite(DefaultReplaceString)
  }

  /** `ReplaceString_IL(cursor, old, new)` at `ldstr old`: the code that takes
      its place and the provider afterwards. Both strategies produce the two
      code shapes the table-driven localiser produces. */
  function ReplaceStringIL(strategy: Strategy, lang: Lang, original: string, replacement: string): (r: (seq<Instr>, Lang))
    ensures strategy.Overwrite? ==>
      r.0 == Replacement(strategy.replaceString(original, replacement), false) && r.1 == lang
    ensures strategy.ByLocalizeText? ==>
      && r.0 == Replacement(replacement, true)
      && r.1.Keys == lang.Keys + {replacement}
      && Extends(lang, r.1)
      && (replacement !in lang ==> r.1[replacement] == original)
  {
    match strategy
    case Overwrite(replaceString) => ([Ldstr(replaceString(original, replacement))], lang)
    case ByLocalizeText =>
      var registered := GetOrRegister(lang, replacement, original).0;
      ([Ldstr(replacement), CallOrCallvirt(GetTextValueRef)], registered)
  }

  /** The provider afterwards when the strategy registers nothing or only
      adds keys. */
  lemma ReplaceStringILExtends(strategy: Strategy, lang: Lang, original: string, replacement: string)
    ensures Extends(lang, ReplaceStringIL(strategy, lang, original, replacement).1)
    ensures Chunk(Ldstr(original), ReplaceStringIL(strategy, lang, original, replacement).0, strategy.ByLocalizeText?)
  {
  }

  // ----- Localize -----

  /** The hook body of `Localize`: every `ldstr` whose text is a key of
      `localizations` goes through `ReplaceString_IL`. */
  function LocalizeScan(localizations: map<string, string>, strategy: Strategy, lang: Lang, rest: seq<Instr>): (r: (seq<Instr>, Lang))
    ensures Extends(lang, r.1)
    ensures Rewrites(rest, r.0, strategy.ByLocalizeText?)
    decreases |rest|
  {
    if rest == [] then ([], lang)
    else
      var ins := rest[0];
      if ins.Ldstr? && ins.text in localizations then
        var head := ReplaceStringIL(strategy, lang, ins.text, localizations[ins.text]);
        ReplaceStringILExtends(strategy, lang, ins.text, localizations[ins.text]);
        var tail := LocalizeScan(localizations, strategy, head.1, rest[1..]);
        ExtendsTransitive(lang, head.1, tail.1);
        RewritesCons(rest, head.0, tail.0, strategy.ByLocalizeText?);
        (head.0 + tail.0, tail.1)
      else
        var tail := LocalizeScan(localizations, strategy, lang, rest[1..]);
        RewritesCons(rest, [ins], tail.0, strategy.ByLocalizeText?);
        ([ins] + tail.0, tail.1)
  }

  /** Prepending the code of the first instruction to a rewrite of the
      others. */
  lemma RewritesCons(input: seq<Instr>, head: seq<Instr>, tail: seq<Instr>, useLocalizedText: bool)
    requires |input| >= 1 && 1 <= |head| <= 2
    requires Chunk(input[0], head, useLocalizedText)
    requires Rewrites(input[1..], tail, useLocalizedText)
    ensures Rewrites(input, head + tail, useLocalizedText)
  {
    var out := head + tail;
    assert out[..|head|] == head && out[|head|..] == tail;
  }

  /** `Localize(methodBase, localizations)`: a null method is logged and
      left alone (`None`); an empty dictionary leaves the body and the
      provider untouched. */
  function Localize(body: Option<seq<Instr>>, localizations: map<string, string>, strategy: Strategy, lang: Lang): (r: Option<Patched>)
    ensures r.None? <==> body.None?
    ensures body.Some? && |localizations| == 0 ==> r == Some(Patched(body.value, lang))
    ensures r.Some? ==> Extends(lang, r.value.lang) && Rewrites(body.value, r.value.body, strategy.ByLocalizeText?)
  {
    if body.None? then None
    else if |localizations| == 0 then
      RewritesSelf(body.value, strategy.ByLocalizeText?);
      Some(Patched(body.value, lang))
    else
      var done := LocalizeScan(localizations, strategy, lang, body.value);
      Some(Patched(done.0, done.1))
  }

  /** With the overwriting strategy the body keeps its length, every `ldstr`
      whose text is a key becomes `ldstr ReplaceString(text, value)`, every
      other instruction is kept, and the provider is not touched. */
  lemma {:induction false} LocalizeScanOverwrite(localizations: map<string, string>, replaceString: (string, string) -> string, lang: Lang, rest: seq<Instr>)
    ensures var r := LocalizeScan(localizations, Overwrite(replaceString), lang, rest);
      && r.1 == lang
      && |r.0| == |rest|
      && forall k :: 0 <= k < |rest| ==>
           r.0[k] == if rest[k].Ldstr? && rest[k].text in localizations
                     then Ldstr(replaceString(rest[k].text, localizations[rest[k].text]))
                     else rest[k]
    decreases |rest|
  {
    if rest != [] {
      LocalizeScanOverwrite(localizations, replaceString, lang, rest[1..]);
      var r := LocalizeScan(localizations, Overwrite(replaceString), lang, rest);
      var tail := LocalizeScan(localizations, Overwrite(replaceString), lang, rest[1..]);
      assert r.0 == [r.0[0]] + tail.0;
      forall k | 1 <= k < |rest|
        ensures r.0[k] == if rest[k].Ldstr? && rest[k].text in localizations
                          then Ldstr(replaceString(rest[k].text, localizations[rest[k].text]))
                          else rest[k]
      {
        assert r.0[k] == tail.0[k - 1] && rest[k] == rest[1..][k - 1];
      }
    }
  }

  /** With the run-time lookup strategy every key text the body loads ends
      up registered in the provider. */
  lemma {:induction false} LocalizeScanRegisters(localizations: map<string, string>, lang: Lang, rest: seq<Instr>)
    ensures var r := LocalizeScan(localizations, ByLocalizeText, lang, rest);
      forall k :: 0 <= k < |rest| && rest[k].Ldstr? && rest[k].text in localizations ==>
        localizations[rest[k].text] in r.1
  {
    LocalizeScanLookupKeys(localizations, lang, rest);
    forall k | 0 <= k < |rest| && rest[k].Ldstr? && rest[k].text in localizations
      ensures localizations[rest[k].text] in LoadedTexts(localizations, rest)
    {
    }
  }

  /** What the run-time lookup strategy puts in place of one instruction:
      a key literal becomes a lookup of its new text, anything else stays. */
  function LookupChunk(localizations: map<string, string>, ins: Instr): seq<Instr>
  {
    if ins.Ldstr? && ins.text in localizations
    then [Ldstr(localizations[ins.text]), CallOrCallvirt(GetTextValueRef)]
    else [ins]
  }

  /** The lookup chunks of a whole body, independent of the provider. */
  function LookupCode(localizations: map<string, string>, rest: seq<Instr>): seq<Instr>
    decreases |rest|
  {
    if rest == [] then [] else LookupChunk(localizations, rest[0]) + LookupCode(localizations, rest[1..])
  }

  /** Position `k` of `rest` loads a key whose new text is `key`. */
  predicate Loads(localizations: map<string, string>, rest: seq<Instr>, k: int, key: string)
  {
    0 <= k < |rest| && rest[k].Ldstr? && rest[k].text in localizations && localizations[rest[k].text] == key
  }

  /** The new texts of every key literal in `rest`. */
  ghost function LoadedTexts(localizations: map<string, string>, rest: seq<Instr>): set<string>
  {
    set k | 0 <= k < |rest| && rest[k].Ldstr? && rest[k].text in localizations :: localizations[rest[k].text]
  }

  /** The first position that loads `key`, if any. */
  function FirstLoad(localizations: map<string, string>, rest: seq<Instr>, key: string): (r: Option<nat>)
    ensures r.Some? ==> Loads(localizations, rest, r.value, key)
    ensures r.Some? ==> forall i :: 0 <= i < r.value ==> !Loads(localizations, rest, i, key)
    ensures r.None? ==> forall i :: 0 <= i < |rest| ==> !Loads(localizations, rest, i, key)
    decreases |rest|
  {
    if rest == [] then None
    else if Loads(localizations, rest, 0, key) then Some(0)
    else
      match FirstLoad(localizations, rest[1..], key)
      case None =>
        assert forall i :: 1 <= i < |rest| ==> Loads(localizations, rest, i, key) == Loads(localizations, rest[1..], i - 1, key);
        None
      case Some(p) =>
        assert forall i :: 1 <= i < |rest| ==> Loads(localizations, rest, i, key) == Loads(localizations, rest[1..], i - 1, key);
        Some(p + 1)
  }

  /** With the run-time lookup strategy the body is the lookup expansion:
      exactly the key literals become `ldstr new; call GetTextValue`,
      whatever the provider holds. */
  lemma {:induction false} LocalizeScanLookupCode(localizations: map<string, string>, lang: Lang, rest: seq<Instr>)
    ensures LocalizeScan(localizations, ByLocalizeText, lang, rest).0 == LookupCode(localizations, rest)
    decreases |rest|
  {
    if rest != [] {
      var ins := rest[0];
      if ins.Ldstr? && ins.text in localizations {
        LocalizeScanLookupCode(localizations, ReplaceStringIL(ByLocalizeText, lang, ins.text, localizations[ins.text]).1, rest[1..]);
      } else {
        LocalizeScanLookupCode(localizations, lang, rest[1..]);
      }
    }
  }

  /** The new texts of `rest` are those of its first instruction and those
      of the others. */
  lemma LoadedTextsCons(localizations: map<string, string>, rest: seq<Instr>)
    requires rest != []
    ensures LoadedTexts(localizations, rest) ==
      (if rest[0].Ldstr? && rest[0].text in localizations then {localizations[rest[0].text]} else {})
      + LoadedTexts(localizations, rest[1..])
  {
  }


  /** With the run-time lookup strategy the provider gains exactly the new
      texts of the key literals the body loads. */
  lemma {:induction false} LocalizeScanLookupKeys(localizations: map<string, string>, lang: Lang, rest: seq<Instr>)
    ensures LocalizeScan(localizations, ByLocalizeText, lang, rest).1.Keys == lang.Keys + LoadedTexts(localizations, rest)
    decreases |rest|
  {
    if rest != [] {
      var ins := rest[0];
      LoadedTextsCons(localizations, rest);
      if ins.Ldstr? && ins.text in localizations {
        var lang1 := ReplaceStringIL(ByLocalizeText, lang, ins.text, localizations[ins.text]).1;
        LocalizeScanLookupKeys(localizations, lang1, rest[1..]);
      } else {
        LocalizeScanLookupKeys(localizations, lang, rest[1..]);
      }
    }
  }

  /** With the run-time lookup strategy a key the provider lacked is
      registered with the original text of the first literal that loads it;
      later literals with the same new text leave it alone. */
  lemma {:induction false} LocalizeScanLookupDefaults(localizations: map<string, string>, lang: Lang, rest: seq<Instr>, key: string)
    ensures var after := LocalizeScan(localizations, ByLocalizeText, lang, rest).1;
      key in after && key !in lang ==>
        && FirstLoad(localizations, rest, key).Some?
        && after[key] == rest[FirstLoad(localizations, rest, key).value].text
    decreases |rest|
  {
    var after := LocalizeScan(localizations, ByLocalizeText, lang, rest).1;
    if rest != [] && key in after && key !in lang {
      var ins := rest[0];
      var tail := rest[1..];
      if ins.Ldstr? && ins.text in localizations {
        var head := ReplaceStringIL(ByLocalizeText, lang, ins.text, localizations[ins.text]);
        assert after == LocalizeScan(localizations, ByLocalizeText, head.1, tail).1;
        if localizations[ins.text] == key {
          assert Loads(localizations, rest, 0, key);
          assert head.1[key] == ins.text;
        } else {
          LocalizeScanLookupDefaults(localizations, head.1, tail, key);
          var p := FirstLoad(localizations, tail, key).value;
          assert rest[p + 1] == tail[p];
          assert !Loads(localizations, rest, 0, key);
          assert FirstLoad(localizations, rest, key) == Some(p + 1);
        }
      } else {
        assert after == LocalizeScan(localizations, ByLocalizeText, lang, tail).1;
        LocalizeScanLookupDefaults(localizations, lang, tail, key);
        var p := FirstLoad(localizations, tail, key).value;
        assert rest[p + 1] == tail[p];
        assert FirstLoad(localizations, rest, key) == Some(p + 1);
      }
    }
  }

  /** With the default strategy, localising twice is localising once when no
      new text is itself a key. */
  lemma LocalizeTwice(body: seq<Instr>, localizations: map<string, string>, lang: Lang)
    requires forall s :: s in localizations ==> localizations[s] !in localizations
    ensures var once := Localize(Some(body), localizations, DefaultStrategy(), lang).value;
      Localize(Some(once.body), localizations, DefaultStrategy(), lang) == Some(once)
  {
    var s := DefaultStrategy();
    if |localizations| != 0 {
      var once := LocalizeScan(localizations, s, lang, body);
      LocalizeScanOverwrite(localizations, s.replaceString, lang, body);
      LocalizeScanOverwrite(localizations, s.replaceString, lang, once.0);
      var twice := LocalizeScan(localizations, s, lang, once.0);
      assert twice.0 == once.0;
    }
  }

  // ----- LocalizeInOrder -----

  /** The hook body of `LocalizeInOrder` with pair `k` next: an `ldstr` of
      pair `k`'s text is rewritten and advances to pair `k + 1`, any other
      instruction is skipped, and once the last pair is used the rest of the
      body is left as it is. */
  function InOrderScan(pairs: seq<(string, string)>, k: nat, strategy: Strategy, lang: Lang, rest: seq<Instr>): (r: (seq<Instr>, Lang))
    requires k < |pairs|
    ensures Extends(lang, r.1)
    ensures Rewrites(rest, r.0, strategy.ByLocalizeText?)
    decreases |rest|
  {
    if rest == [] then ([], lang)
    else if rest[0] != Ldstr(pairs[k].0) then
      var tail := InOrderScan(pairs, k, strategy, lang, rest[1..]);
      RewritesCons(rest, [rest[0]], tail.0, strategy.ByLocalizeText?);
      ([rest[0]] + tail.0, tail.1)
    else
      var head := ReplaceStringIL(strategy, lang, pairs[k].0, pairs[k].1);
      ReplaceStringILExtends(strategy, lang, pairs[k].0, pairs[k].1);
      if |pairs| <= k + 1 then
        RewritesSelf(rest[1..], strategy.ByLocalizeText?);
        RewritesCons(rest, head.0, rest[1..], strategy.ByLocalizeText?);
        (head.0 + rest[1..], head.1)
      else
        var tail := InOrderScan(pairs, k + 1, strategy, head.1, rest[1..]);
        ExtendsTransitive(lang, head.1, tail.1);
        RewritesCons(rest, head.0, tail.0, strategy.ByLocalizeText?);
        (head.0 + tail.0, tail.1)
  }

  /** `LocalizeInOrder(methodBase, localizationsInOrder)`: a null method is
      logged and left alone, an empty list changes nothing, and otherwise
      the body is rewritten chunk by chunk while the provider only grows. */
  function LocalizeInOrder(body: Option<seq<Instr>>, pairs: seq<(string, string)>, strategy: Strategy, lang: Lang): (r: Option<Patched>)
    ensures r.None? <==> body.None?
    ensures body.Some? && |pairs| == 0 ==> r == Some(Patched(body.value, lang))
    ensures r.Some? ==> Extends(lang, r.value.lang) && Rewrites(body.value, r.value.body, strategy.ByLocalizeText?)
  {
    if body.None? then None
    else if |pairs| == 0 then
      RewritesSelf(body.value, strategy.ByLocalizeText?);
      Some(Patched(body.value, lang))
    else
      var done := InOrderScan(pairs, 0, strategy, lang, body.value);
      Some(Patched(done.0, done.1))
  }

  /** The position of the first `ldstr text`, if any. */
  function FirstMatch(rest: seq<Instr>, text: string): (r: Option<nat>)
    ensures r.Some? ==> r.value < |rest| && rest[r.value] == Ldstr(text)
    ensures r.Some? ==> forall i :: 0 <= i < r.value ==> rest[i] != Ldstr(text)
    ensures r.None? ==> forall i :: 0 <= i < |rest| ==> rest[i] != Ldstr(text)
    decreases |rest|
  {
    if rest == [] then None
    else if rest[0] == Ldstr(text) then Some(0)
    else
      match FirstMatch(rest[1..], text)
      case None => None
      case Some(p) => Some(p + 1)
  }

  /** A reference reading of the ordered replacement: find the first
      `ldstr` of pair `k`'s text, rewrite it, and continue after it with the
      next pair; with no such `ldstr` the rest is kept. */
  function InOrderReference(pairs: seq<(string, string)>, k: nat, strategy: Strategy, lang: Lang, rest: seq<Instr>): (r: (seq<Instr>, Lang))
    requires k < |pairs|
    decreases |rest|
  {
    match FirstMatch(rest, pairs[k].0)
    case None => (rest, lang)
    case Some(p) =>
      var head := ReplaceStringIL(strategy, lang, pairs[k].0, pairs[k].1);
      if |pairs| <= k + 1 then (rest[..p] + head.0 + rest[p + 1..], head.1)
      else
        var tail := InOrderReference(pairs, k + 1, strategy, head.1, rest[p + 1..]);
        (rest[..p] + head.0 + tail.0, tail.1)
  }

  /** Skipping a first instruction that is not a match. */
  lemma InOrderReferenceSkip(pairs: seq<(string, string)>, k: nat, strategy: Strategy, lang: Lang, rest: seq<Instr>)
    requires k < |pairs| && |rest| >= 1 && rest[0] != Ldstr(pairs[k].0)
    ensures var tail := InOrderReference(pairs, k, strategy, lang, rest[1..]);
      InOrderReference(pairs, k, strategy, lang, rest) == ([rest[0]] + tail.0, tail.1)
  {
    var tail := rest[1..];
    match FirstMatch(tail, pairs[k].0)
    case None =>
      assert FirstMatch(rest, pairs[k].0) == None;
      assert [rest[0]] + tail == rest;
    case Some(p) =>
      InOrderReferenceSkipMatch(pairs, k, strategy, lang, rest, p);
  }

  lemma InOrderReferenceSkipMatch(pairs: seq<(string, string)>, k: nat, strategy: Strategy, lang: Lang, rest: seq<Instr>, p: nat)
    requires k < |pairs| && |rest| >= 1 && rest[0] != Ldstr(pairs[k].0)
    requires FirstMatch(rest[1..], pairs[k].0) == Some(p)
    ensures var tail := InOrderReference(pairs, k, strategy, lang, rest[1..]);
      InOrderReference(pairs, k, strategy, lang, rest) == ([rest[0]] + tail.0, tail.1)
  {
    var tail := rest[1..];
    assert FirstMatch(rest, pairs[k].0) == Some(p + 1);
    var head := ReplaceStringIL(strategy, lang, pairs[k].0, pairs[k].1);
    var after := if |pairs| <= k + 1 then (tail[p + 1..], head.1)
      else InOrderReference(pairs, k + 1, strategy, head.1, tail[p + 1..]);
    assert rest[p + 2..] == tail[p + 1..];
    assert InOrderReference(pairs, k, strategy, lang, rest) == (rest[..p + 1] + head.0 + after.0, after.1);
    assert InOrderReference(pairs, k, strategy, lang, tail) == (tail[..p] + head.0 + after.0, after.1);
    ConsAssociates(rest[0], tail[..p], head.0, after.0);
    assert rest[..p + 1] == [rest[0]] + tail[..p];
  }

  lemma ConsAssociates(x: Instr, a: seq<Instr>, b: seq<Instr>, c: seq<Instr>)
    ensures [x] + (a + b + c) == ([x] + a) + b + c
  {
  }

  /** The scan and the reference reading agree on every input. */
  lemma {:induction false} InOrderMatchesReference(pairs: seq<(string, string)>, k: nat, strategy: Strategy, lang: Lang, rest: seq<Instr>)
    requires k < |pairs|
    ensures InOrderScan(pairs, k, strategy, lang, rest) == InOrderReference(pairs, k, strategy, lang, rest)
    decreases |rest|
  {
    if rest != [] {
      if rest[0] == Ldstr(pairs[k].0) {
        assert FirstMatch(rest, pairs[k].0) == Some(0);
        var head := ReplaceStringIL(strategy, lang, pairs[k].0, pairs[k].1);
        assert rest[..0] + head.0 == head.0;
        if k + 1 < |pairs| {
          InOrderMatchesReference(pairs, k + 1, strategy, head.1, rest[1..]);
        }
      } else {
        InOrderMatchesReference(pairs, k, strategy, lang, rest[1..]);
        InOrderReferenceSkip(pairs, k, strategy, lang, rest);
      }
    }
  }

  /** Pairs `A -> X`, `B -> Y` over `B, A, B, A`: the first `B` is skipped,
      the first `A` becomes `X`, the next `B` becomes `Y`, and the last `A`
      is left because every pair has been used. */
  lemma InOrderExample()
    ensures var body := [Ldstr("B"), Ldstr("A"), Ldstr("B"), Ldstr("A")];
      LocalizeInOrder(Some(body), [("A", "X"), ("B", "Y")], DefaultStrategy(), map[])
        == Some(Patched([Ldstr("B"), Ldstr("X"), Ldstr("Y"), Ldstr("A")], map[]))
  {
    var body := [Ldstr("B"), Ldstr("A"), Ldstr("B"), Ldstr("A")];
    var pairs := [("A", "X"), ("B", "Y")];
    var s := DefaultStrategy();
    var lang: Lang := map[];
    var last := [Ldstr("B"), Ldstr("A")];
    assert last[0] == Ldstr(pairs[1].0);
    var y := ReplaceStringIL(s, lang, pairs[1].0, pairs[1].1);
    assert y == ([Ldstr("Y")], lang);
    assert last[1..] == [Ldstr("A")];
    assert InOrderScan(pairs, 1, s, lang, last) == (y.0 + last[1..], y.1);
    assert y.0 + last[1..] == [Ldstr("Y")] + [Ldstr("A")] == [Ldstr("Y"), Ldstr("A")];
    assert InOrderScan(pairs, 1, s, lang, last) == ([Ldstr("Y"), Ldstr("A")], lang);
    var middle := [Ldstr("A")] + last;
    assert middle[0] == Ldstr(pairs[0].0);
    var x := ReplaceStringIL(s, lang, pairs[0].0, pairs[0].1);
    assert x == ([Ldstr("X")], lang);
    assert middle[1..] == last;
    assert InOrderScan(pairs, 0, s, lang, middle) == (x.0 + [Ldstr("Y"), Ldstr("A")], lang);
    assert x.0 + [Ldstr("Y"), Ldstr("A")] == [Ldstr("X")] + [Ldstr("Y"), Ldstr("A")] == [Ldstr("X"), Ldstr("Y"), Ldstr("A")];
    assert InOrderScan(pairs, 0, s, lang, middle) == ([Ldstr("X"), Ldstr("Y"), Ldstr("A")], lang);
    assert body[0] != Ldstr(pairs[0].0);
    assert body[1..] == middle;
    assert InOrderScan(pairs, 0, s, lang, body) == ([body[0]] + [Ldstr("X"), Ldstr("Y"), Ldstr("A")], lang);
    assert [body[0]] + [Ldstr("X"), Ldstr("Y"), Ldstr("A")] == [Ldstr("B"), Ldstr("X"), Ldstr("Y"), Ldstr("A")];
    assert InOrderScan(pairs, 0, s, lang, body) == ([Ldstr("B"), Ldstr("X"), Ldstr("Y"), Ldstr("A")], lang);
  }

  /** `ByLocalizeText` with `Hello -> Mods.M.Hello` over an empty provider:
      the literal becomes a lookup of the key, and the key is registered with
      the original text. */
  lemma ByLocalizeTextExample()
    ensures Localize(Some([Ldstr("Hello")]), map["Hello" := "Mods.M.Hello"], ByLocalizeText, map[])
      == Some(Patched([Ldstr("Mods.M.Hello"), CallOrCallvirt(GetTextValueRef)], map["Mods.M.Hello" := "Hello"]))
  {
    var body := [Ldstr("Hello")];
    var dict := map["Hello" := "Mods.M.Hello"];
    var lang: Lang := map[];
    assert |dict| == 1;
    assert body[0].Ldstr? && body[0].text in dict && dict[body[0].text] == "Mods.M.Hello";
    var head := ReplaceStringIL(ByLocalizeText, lang, "Hello", "Mods.M.Hello");
    assert head == ([Ldstr("Mods.M.Hello"), CallOrCallvirt(GetTextValueRef)], map["Mods.M.Hello" := "Hello"]);
    assert body[1..] == [];
    assert LocalizeScan(dict, ByLocalizeText, head.1, []) == ([], head.1);
    assert LocalizeScan(dict, ByLocalizeText, lang, body) == (head.0 + [], head.1);
    assert head.0 + [] == head.0;
    assert Localize(Some(body), dict, ByLocalizeText, lang) == Some(Patched(head.0, head.1));
  }
}
