/** The host's text provider as a finite key -> text map, with the three
    operations the patcher uses. The patcher only ever adds keys. */
module Language {
  import opened Cil

  type Lang = map<string, string>

  /** `Language.Exists(key)` */
  predicate Exists(lang: Lang, key: string)
  {
    key in lang
  }

  /** `Language.GetTextValue(key)`: the text, or the key itself when the
      key is unknown. */
  function GetTextValue(lang: Lang, key: string): (r: string)
    ensures key in lang ==> r == lang[key]
    ensures key !in lang ==> r == key
  {
    if key in lang then lang[key] else key
  }

  /** `Language.GetOrRegister(key, makeDefault)`: registers `default` only
      when the key is absent; answers the text now stored under the key. */
  function GetOrRegister(lang: Lang, key: string, default: string): (r: (Lang, string))
    ensures r.0.Keys == lang.Keys + {key}
    ensures key in r.0 && r.0[key] == r.1
    ensures key in lang ==> r.0 == lang
    ensures key !in lang ==> r.1 == default
    ensures Extends(lang, r.0)
  {
    if key in lang then (lang, lang[key]) else (lang[key := default], default)
  }

  /** `after` keeps every key of `before` with its text. */
  ghost predicate Extends(before: Lang, after: Lang)
  {
    forall k :: k in before ==> k in after && after[k] == before[k]
  }

  lemma ExtendsTransitive(a: Lang, b: Lang, c: Lang)
    requires Extends(a, b) && Extends(b, c)
    ensures Extends(a, c)
  {
  }

  /** A method body together with the text provider it was patched against. */
  datatype Patched = Patched(body: seq<Instr>, lang: Lang)
}
