/** Table-driven localisation of one method, and the key assignment and
    method selection of the whole-module driver.

    Persisted keys have the shape `<methodKey>.<i>.OldString`,
    `<methodKey>.<i>.NewString` and `<methodKey>.<i>.NewString_<j>`, with
    `i` and `j` counted from 1 and the first gap ending the enumeration. */
module LocalizationHelper {
  import opened Wrappers
  import opened Strings
  import opened Cil
  import opened Reflection
  import opened Filters
  import opened Language

  // ----- Replacement descriptors -----

  /** `SingleNewString` always answers `value`; `MultipleNewString` answers
      `values` in order, then `defaultValue` forever. `count` is the number
      of values handed out so far. */
  datatype NewString =
    | Single(value: string)
    | Multiple(values: seq<string>, defaultValue: string, count: nat)

  /** The `MultipleNewString` constructor: a missing default falls back to
      the first value. */
  function MakeMultiple(values: seq<string>, defaultValue: Option<string>): (e: NewString)
    requires |values| > 0 || defaultValue.Some?
    ensures e.Multiple? && e.values == values && e.count == 0
    ensures defaultValue.Some? ==> e.defaultValue == defaultValue.value
    ensures defaultValue.None? ==> e.defaultValue == values[0]
  {
    Multiple(values, if defaultValue.Some? then defaultValue.value else values[0], 0)
  }

  /** `GetValue()`: the next text and the descriptor after the call. */
  function GetValue(e: NewString): (r: (string, NewString))
  {
    match e
    case Single(v) => (v, e)
    case Multiple(vs, d, c) => if c < |vs| then (vs[c], e.(count := c + 1)) else (d, e)
  }

  /** The texts `n` successive `GetValue()` calls produce. */
  function GetValues(e: NewString, n: nat): seq<string>
    decreases n
  {
    if n == 0 then [] else [GetValue(e).0] + GetValues(GetValue(e).1, n - 1)
  }

  /** A `MultipleNewString` that has handed out `count` values answers the
      remaining values in order and then its default, however often asked. */
  lemma {:induction false} MultipleValues(values: seq<string>, d: string, count: nat, n: nat)
    ensures |GetValues(Multiple(values, d, count), n)| == n
    ensures forall k :: 0 <= k < n ==>
      GetValues(Multiple(values, d, count), n)[k] == if count + k < |values| then values[count + k] else d
    decreases n
  {
    if n > 0 {
      var e := Multiple(values, d, count);
      var next := if count < |values| then count + 1 else count;
      assert GetValue(e).1 == Multiple(values, d, next);
      MultipleValues(values, d, next, n - 1);
      forall k | 0 <= k < n
        ensures GetValues(e, n)[k] == if count + k < |values| then values[count + k] else d
      {
        if k > 0 {
          assert GetValues(e, n)[k] == GetValues(Multiple(values, d, next), n - 1)[k - 1];
        }
      }
    }
  }

  /** A `SingleNewString` answers the same text every time. */
  lemma {:induction false} SingleValues(v: string, n: nat)
    ensures GetValues(Single(v), n) == seq(n, k => v)
  {
    if n > 0 {
      SingleValues(v, n - 1);
    }
  }

  /** `[A, B]` with default `B` answers `A, B, B, B`. */
  lemma OrderedExample()
    ensures GetValues(MakeMultiple(["A", "B"], Some("B")), 4) == ["A", "B", "B", "B"]
  {
    MultipleValues(["A", "B"], "B", 0, 4);
  }

  /** The texts an entry can ever answer. */
  function EntryValues(e: NewString): set<string>
  {
    match e
    case Single(v) => {v}
    case Multiple(vs, d, _) => (set v | v in vs) + {d}
  }

  lemma GetValueWithinValues(e: NewString)
    ensures GetValue(e).0 in EntryValues(e)
    ensures EntryValues(GetValue(e).1) == EntryValues(e)
  {
  }

  // ----- Persisted key names -----

  function PairKey(methodKey: string, i: nat): string
  {
    methodKey + "." + NatToString(i) + "."
  }

  function OldStringKey(methodKey: string, i: nat): string
  {
    PairKey(methodKey, i) + "OldString"
  }

  function NewStringKey(methodKey: string, i: nat): string
  {
    PairKey(methodKey, i) + "NewString"
  }

  function NewStringsKey(methodKey: string, i: nat, j: nat): string
  {
    NewStringKey(methodKey, i) + "_" + NatToString(j)
  }

  lemma OldStringKeyInjective(methodKey: string, a: nat, b: nat)
    requires OldStringKey(methodKey, a) == OldStringKey(methodKey, b)
    ensures a == b
  {
    var p := methodKey + ".";
    var q := ".OldString";
    assert OldStringKey(methodKey, a) == p + NatToString(a) + q;
    assert OldStringKey(methodKey, b) == p + NatToString(b) + q;
    CancelAround(p, NatToString(a), NatToString(b), q);
    NatToStringInjective(a, b);
  }

  lemma NewStringsKeyInjective(methodKey: string, i: nat, a: nat, b: nat)
    requires NewStringsKey(methodKey, i, a) == NewStringsKey(methodKey, i, b)
    ensures a == b
  {
    var p := NewStringKey(methodKey, i) + "_";
    assert NewStringsKey(methodKey, i, a) == p + NatToString(a) + "";
    assert NewStringsKey(methodKey, i, b) == p + NatToString(b) + "";
    CancelAround(p, NatToString(a), NatToString(b), "");
    NatToStringInjective(a, b);
  }

  /** At most `|lang|` consecutive `OldString` indices can exist. */
  lemma OldStringRunBound(lang: Lang, methodKey: string, i: nat)
    requires forall k :: 1 <= k <= i ==> OldStringKey(methodKey, k) in lang
    ensures i <= |lang.Keys|
  {
    var f := (k: nat) => OldStringKey(methodKey, k);
    forall a, b | 1 <= a <= i && 1 <= b <= i && f(a) == f(b) ensures a == b {
      OldStringKeyInjective(methodKey, a, b);
    }
    RunBound(f, lang.Keys, i);
  }

  /** At most `|lang|` consecutive `NewString_j` indices can exist. */
  lemma NewStringsRunBound(lang: Lang, methodKey: string, i: nat, j: nat)
    requires forall k :: 1 <= k <= j ==> NewStringsKey(methodKey, i, k) in lang
    ensures j <= |lang.Keys|
  {
    var f := (k: nat) => NewStringsKey(methodKey, i, k);
    forall a, b | 1 <= a <= j && 1 <= b <= j && f(a) == f(b) ensures a == b {
      NewStringsKeyInjective(methodKey, i, a, b);
    }
    RunBound(f, lang.Keys, j);
  }

  lemma OldNewKeysDiffer(methodKey: string, i: nat)
    ensures OldStringKey(methodKey, i) != NewStringKey(methodKey, i)
  {
    var p := PairKey(methodKey, i);
    assert OldStringKey(methodKey, i)[|p|] == 'O';
    assert NewStringKey(methodKey, i)[|p|] == 'N';
  }

  // ----- Building the replacement table -----

  type Table = map<string, NewString>

  datatype LocalizeError = DuplicateOldString(text: string)

  /** What a replacement text becomes: the key itself when the emitted code
      looks it up at run time, the stored text otherwise. */
  function ValueOrKey(lang: Lang, key: string, useLocalizedText: bool): string
  {
    if useLocalizedText then key else GetTextValue(lang, key)
  }

  /** The `NewString_j` values for `j = from, from + 1, ...` up to the
      first missing index. */
  function ReadNewStrings(lang: Lang, methodKey: string, i: nat, from: nat, useLocalizedText: bool): (r: seq<string>)
    requires from >= 1
    requires forall k :: 1 <= k < from ==> NewStringsKey(methodKey, i, k) in lang
    ensures ReadAt(lang, methodKey, i, from, useLocalizedText, r)
    ensures NewStringsKey(methodKey, i, from + |r|) !in lang
    decreases |lang.Keys| + 1 - from
  {
    var key := NewStringsKey(methodKey, i, from);
    if key !in lang then []
    else
      NewStringsRunBound(lang, methodKey, i, from);
      var tail := ReadNewStrings(lang, methodKey, i, from + 1, useLocalizedText);
      ReadAtCons(lang, methodKey, i, from, useLocalizedText, tail);
      [ValueOrKey(lang, key, useLocalizedText)] + tail
  }

  /** `values[j]` is the value of `NewString_(from + j)`, which exists. */
  ghost predicate ReadAt(lang: Lang, methodKey: string, i: nat, from: nat, useLocalizedText: bool, values: seq<string>)
  {
    forall j :: 0 <= j < |values| ==> Holds(lang, NewStringsKey(methodKey, i, from + j), useLocalizedText, values[j])
  }

  /** `key` is present and `value` is what it reads as. */
  ghost predicate Holds(lang: Lang, key: string, useLocalizedText: bool, value: string)
  {
    key in lang && value == ValueOrKey(lang, key, useLocalizedText)
  }

  lemma ReadAtCons(lang: Lang, methodKey: string, i: nat, from: nat, useLocalizedText: bool, tail: seq<string>)
    requires NewStringsKey(methodKey, i, from) in lang
    requires ReadAt(lang, methodKey, i, from + 1, useLocalizedText, tail)
    ensures ReadAt(lang, methodKey, i, from, useLocalizedText, [ValueOrKey(lang, NewStringsKey(methodKey, i, from), useLocalizedText)] + tail)
  {
    var r := [ValueOrKey(lang, NewStringsKey(methodKey, i, from), useLocalizedText)] + tail;
    forall j | 0 <= j < |r|
      ensures Holds(lang, NewStringsKey(methodKey, i, from + j), useLocalizedText, r[j])
    {
      if j > 0 {
        assert r[j] == tail[j - 1] && from + j == from + 1 + (j - 1);
      }
    }
  }

  /** Whether index `i` yields a table entry: it has `NewString_1` or a plain
      `NewString`. */
  predicate Contributes(lang: Lang, methodKey: string, i: nat)
  {
    NewStringsKey(methodKey, i, 1) in lang || NewStringKey(methodKey, i) in lang
  }

  /** The original text recorded under index `i`. */
  function OldText(lang: Lang, methodKey: string, i: nat): string
  {
    GetTextValue(lang, OldStringKey(methodKey, i))
  }

  /** The descriptor index `i` yields: a multi-value one when `NewString_1`
      exists (plain `NewString`, when present, is its default), otherwise a
      fixed one when `NewString` exists, otherwise none. */
  function Entry(lang: Lang, methodKey: string, i: nat, useLocalizedText: bool): (r: Option<NewString>)
    ensures r.Some? <==> Contributes(lang, methodKey, i)
  {
    var newKey := NewStringKey(methodKey, i);
    if NewStringsKey(methodKey, i, 1) in lang then
      var values := ReadNewStrings(lang, methodKey, i, 1, useLocalizedText);
      Some(MakeMultiple(values, if newKey in lang then Some(ValueOrKey(lang, newKey, useLocalizedText)) else None))
    else if newKey in lang then
      Some(Single(ValueOrKey(lang, newKey, useLocalizedText)))
    else
      None
  }

  /** The descriptor of a contributing index: with `NewString_1` a fresh
      multi-value descriptor over the run `NewString_1, NewString_2, ...`
      whose default is plain `NewString` or else the first value; otherwise
      a fixed one over plain `NewString`. */
  lemma EntryShape(lang: Lang, methodKey: string, i: nat, useLocalizedText: bool)
    ensures var r := Entry(lang, methodKey, i, useLocalizedText);
      NewStringsKey(methodKey, i, 1) in lang ==>
        && r.value.Multiple? && r.value.count == 0 && |r.value.values| >= 1
        && r.value.values[0] == ValueOrKey(lang, NewStringsKey(methodKey, i, 1), useLocalizedText)
        && r.value.defaultValue == (if NewStringKey(methodKey, i) in lang
                                    then ValueOrKey(lang, NewStringKey(methodKey, i), useLocalizedText)
                                    else r.value.values[0])
    ensures var r := Entry(lang, methodKey, i, useLocalizedText);
      NewStringsKey(methodKey, i, 1) !in lang && NewStringKey(methodKey, i) in lang ==>
        r.value == Single(ValueOrKey(lang, NewStringKey(methodKey, i), useLocalizedText))
  {
  }

  /** The first index at or after `i` without an `OldString`. */
  function FirstGap(lang: Lang, methodKey: string, i: nat): (r: nat)
    requires i >= 1
    requires forall k :: 1 <= k < i ==> OldStringKey(methodKey, k) in lang
    ensures r >= i && OldStringKey(methodKey, r) !in lang
    ensures forall k :: i <= k < r ==> OldStringKey(methodKey, k) in lang
    decreases |lang.Keys| + 1 - i
  {
    if OldStringKey(methodKey, i) !in lang then i
    else
      OldStringRunBound(lang, methodKey, i);
      FirstGap(lang, methodKey, i + 1)
  }

  /** No two contributing indices in `[from, to)` share an original text,
      and none repeats a text already in `used`. */
  ghost predicate DistinctTexts(lang: Lang, methodKey: string, from: nat, to: nat, used: set<string>)
  {
    forall k :: from <= k < to && Contributes(lang, methodKey, k) ==>
      && OldText(lang, methodKey, k) !in used
      && forall k2 :: from <= k2 < k && Contributes(lang, methodKey, k2) ==>
           OldText(lang, methodKey, k2) != OldText(lang, methodKey, k)
  }

  /** `DistinctTexts` as the table loop checks it: walking the indices in
      order, each contributing text is new and joins `used`. */
  ghost predicate DistinctFrom(lang: Lang, methodKey: string, from: nat, to: nat, used: set<string>)
    decreases if from < to then to - from else 0
  {
    from >= to ||
      if Contributes(lang, methodKey, from) then
        OldText(lang, methodKey, from) !in used && DistinctFrom(lang, methodKey, from + 1, to, used + {OldText(lang, methodKey, from)})
      else DistinctFrom(lang, methodKey, from + 1, to, used)
  }

  /** The walk and the pairwise statement agree. */
  lemma {:induction false} DistinctFromIff(lang: Lang, methodKey: string, from: nat, to: nat, used: set<string>)
    ensures DistinctFrom(lang, methodKey, from, to, used) <==> DistinctTexts(lang, methodKey, from, to, used)
    decreases if from < to then to - from else 0
  {
    if from < to {
      if !Contributes(lang, methodKey, from) {
        DistinctFromIff(lang, methodKey, from + 1, to, used);
        DistinctSkip(lang, methodKey, from, to, used);
      } else if OldText(lang, methodKey, from) in used {
        assert !DistinctTexts(lang, methodKey, from, to, used) by {
          assert from <= from < to && Contributes(lang, methodKey, from);
        }
      } else {
        DistinctFromIff(lang, methodKey, from + 1, to, used + {OldText(lang, methodKey, from)});
        DistinctStep(lang, methodKey, from, to, used);
      }
    }
  }

  /** The table loop from index `i` on, adding to `acc`. A repeated original
      text is `Dictionary.Add` throwing. */
  function BuildTableFrom(lang: Lang, methodKey: string, useLocalizedText: bool, i: nat, acc: Table): (r: Result<Table, LocalizeError>)
    requires i >= 1
    requires forall k :: 1 <= k < i ==> OldStringKey(methodKey, k) in lang
    decreases |lang.Keys| + 1 - i
  {
    if OldStringKey(methodKey, i) !in lang then Success(acc)
    else
      OldStringRunBound(lang, methodKey, i);
      var original := OldText(lang, methodKey, i);
      match Entry(lang, methodKey, i, useLocalizedText)
      case None => BuildTableFrom(lang, methodKey, useLocalizedText, i + 1, acc)
      case Some(e) =>
        if original in acc then Failure(DuplicateOldString(original))
        else BuildTableFrom(lang, methodKey, useLocalizedText, i + 1, acc[original := e])
  }

  /** One iteration of the table loop at an index that has an `OldString`. */
  lemma BuildTableStep(lang: Lang, methodKey: string, useLocalizedText: bool, i: nat, acc: Table)
    requires i >= 1
    requires forall k :: 1 <= k < i ==> OldStringKey(methodKey, k) in lang
    requires OldStringKey(methodKey, i) in lang
    ensures forall k :: 1 <= k < i + 1 ==> OldStringKey(methodKey, k) in lang
    ensures FirstGap(lang, methodKey, i) == FirstGap(lang, methodKey, i + 1)
    ensures !Contributes(lang, methodKey, i) ==>
      BuildTableFrom(lang, methodKey, useLocalizedText, i, acc) == BuildTableFrom(lang, methodKey, useLocalizedText, i + 1, acc)
    ensures Contributes(lang, methodKey, i) && OldText(lang, methodKey, i) in acc ==>
      BuildTableFrom(lang, methodKey, useLocalizedText, i, acc) == Failure(DuplicateOldString(OldText(lang, methodKey, i)))
    ensures Contributes(lang, methodKey, i) && OldText(lang, methodKey, i) !in acc ==>
      BuildTableFrom(lang, methodKey, useLocalizedText, i, acc)
        == BuildTableFrom(lang, methodKey, useLocalizedText, i + 1, acc[OldText(lang, methodKey, i) := Entry(lang, methodKey, i, useLocalizedText).value])
  {
    OldStringRunBound(lang, methodKey, i);
  }

  /** The table loop succeeds exactly when the contributing indices before
      the first gap have distinct original texts, none already in `acc`. */
  lemma {:induction false} BuildTableSucceeds(lang: Lang, methodKey: string, useLocalizedText: bool, i: nat, acc: Table)
    requires i >= 1
    requires forall k :: 1 <= k < i ==> OldStringKey(methodKey, k) in lang
    ensures BuildTableFrom(lang, methodKey, useLocalizedText, i, acc).Success?
      <==> DistinctFrom(lang, methodKey, i, FirstGap(lang, methodKey, i), acc.Keys)
    decreases |lang.Keys| + 1 - i
  {
    if OldStringKey(methodKey, i) in lang {
      OldStringRunBound(lang, methodKey, i);
      BuildTableStep(lang, methodKey, useLocalizedText, i, acc);
      var original := OldText(lang, methodKey, i);
      if !Contributes(lang, methodKey, i) {
        BuildTableSucceeds(lang, methodKey, useLocalizedText, i + 1, acc);
      } else if original !in acc {
        var e := Entry(lang, methodKey, i, useLocalizedText).value;
        BuildTableSucceeds(lang, methodKey, useLocalizedText, i + 1, acc[original := e]);
        assert acc[original := e].Keys == acc.Keys + {original};
      }
    }
  }

  /** On success the table keeps every entry of `acc`. */
  lemma {:induction false} BuildTableKeeps(lang: Lang, methodKey: string, useLocalizedText: bool, i: nat, acc: Table)
    requires i >= 1
    requires forall k :: 1 <= k < i ==> OldStringKey(methodKey, k) in lang
    requires BuildTableFrom(lang, methodKey, useLocalizedText, i, acc).Success?
    ensures var t := BuildTableFrom(lang, methodKey, useLocalizedText, i, acc).value;
      forall s :: s in acc ==> s in t && t[s] == acc[s]
    decreases |lang.Keys| + 1 - i
  {
    if OldStringKey(methodKey, i) in lang {
      OldStringRunBound(lang, methodKey, i);
      BuildTableStep(lang, methodKey, useLocalizedText, i, acc);
      if !Contributes(lang, methodKey, i) {
        BuildTableKeeps(lang, methodKey, useLocalizedText, i + 1, acc);
      } else {
        var e := Entry(lang, methodKey, i, useLocalizedText).value;
        BuildTableKeeps(lang, methodKey, useLocalizedText, i + 1, acc[OldText(lang, methodKey, i) := e]);
      }
    }
  }

  /** On success every contributing index before the first gap has its
      original text mapped to its descriptor. */
  lemma {:induction false} BuildTableMaps(lang: Lang, methodKey: string, useLocalizedText: bool, i: nat, acc: Table, k: nat)
    requires i >= 1
    requires forall k :: 1 <= k < i ==> OldStringKey(methodKey, k) in lang
    requires BuildTableFrom(lang, methodKey, useLocalizedText, i, acc).Success?
    requires i <= k < FirstGap(lang, methodKey, i) && Contributes(lang, methodKey, k)
    ensures var t := BuildTableFrom(lang, methodKey, useLocalizedText, i, acc).value;
      OldText(lang, methodKey, k) in t && t[OldText(lang, methodKey, k)] == Entry(lang, methodKey, k, useLocalizedText).value
    decreases |lang.Keys| + 1 - i
  {
    assert OldStringKey(methodKey, i) in lang;
    if k == i {
      BuildTableMapsFirst(lang, methodKey, useLocalizedText, i, acc);
    } else {
      OldStringRunBound(lang, methodKey, i);
      BuildTableStep(lang, methodKey, useLocalizedText, i, acc);
      var next := if Contributes(lang, methodKey, i)
        then acc[OldText(lang, methodKey, i) := Entry(lang, methodKey, i, useLocalizedText).value]
        else acc;
      assert BuildTableFrom(lang, methodKey, useLocalizedText, i, acc) == BuildTableFrom(lang, methodKey, useLocalizedText, i + 1, next);
      BuildTableMaps(lang, methodKey, useLocalizedText, i + 1, next, k);
    }
  }

  /** The case of `BuildTableMaps` where the index is the first one visited. */
  lemma BuildTableMapsFirst(lang: Lang, methodKey: string, useLocalizedText: bool, i: nat, acc: Table)
    requires i >= 1
    requires forall k :: 1 <= k < i ==> OldStringKey(methodKey, k) in lang
    requires BuildTableFrom(lang, methodKey, useLocalizedText, i, acc).Success?
    requires OldStringKey(methodKey, i) in lang && Contributes(lang, methodKey, i)
    ensures var t := BuildTableFrom(lang, methodKey, useLocalizedText, i, acc).value;
      OldText(lang, methodKey, i) in t && t[OldText(lang, methodKey, i)] == Entry(lang, methodKey, i, useLocalizedText).value
  {
    OldStringRunBound(lang, methodKey, i);
    BuildTableStep(lang, methodKey, useLocalizedText, i, acc);
    var original := OldText(lang, methodKey, i);
    var e := Entry(lang, methodKey, i, useLocalizedText).value;
    var next := acc[original := e];
    BuildTableKeeps(lang, methodKey, useLocalizedText, i + 1, next);
    assert original in next && next[original] == e;
  }

  /** On success the table holds nothing but `acc` and the original texts of
      contributing indices before the first gap. */
  lemma {:induction false} BuildTableOnly(lang: Lang, methodKey: string, useLocalizedText: bool, i: nat, acc: Table, s: string)
    requires i >= 1
    requires forall k :: 1 <= k < i ==> OldStringKey(methodKey, k) in lang
    requires BuildTableFrom(lang, methodKey, useLocalizedText, i, acc).Success?
    requires s in BuildTableFrom(lang, methodKey, useLocalizedText, i, acc).value
    ensures s in acc || exists k :: i <= k < FirstGap(lang, methodKey, i) && Contributes(lang, methodKey, k) && OldText(lang, methodKey, k) == s
    decreases |lang.Keys| + 1 - i
  {
    if OldStringKey(methodKey, i) in lang {
      OldStringRunBound(lang, methodKey, i);
      BuildTableStep(lang, methodKey, useLocalizedText, i, acc);
      var gap := FirstGap(lang, methodKey, i);
      var original := OldText(lang, methodKey, i);
      if !Contributes(lang, methodKey, i) {
        BuildTableOnly(lang, methodKey, useLocalizedText, i + 1, acc, s);
      } else {
        BuildTableOnly(lang, methodKey, useLocalizedText, i + 1, acc[original := Entry(lang, methodKey, i, useLocalizedText).value], s);
        if s == original {
          assert i <= i < gap && Contributes(lang, methodKey, i) && OldText(lang, methodKey, i) == s;
        }
      }
    }
  }

  /** An index that does not contribute can be dropped from `DistinctTexts`. */
  lemma DistinctSkip(lang: Lang, methodKey: string, i: nat, gap: nat, used: set<string>)
    requires !Contributes(lang, methodKey, i)
    ensures DistinctTexts(lang, methodKey, i, gap, used) <==> DistinctTexts(lang, methodKey, i + 1, gap, used)
  {
  }

  /** Peeling the first contributing index off `DistinctTexts`. */
  lemma DistinctStep(lang: Lang, methodKey: string, i: nat, gap: nat, used: set<string>)
    requires i < gap && Contributes(lang, methodKey, i)
    requires OldText(lang, methodKey, i) !in used
    ensures DistinctTexts(lang, methodKey, i, gap, used)
      <==> DistinctTexts(lang, methodKey, i + 1, gap, used + {OldText(lang, methodKey, i)})
  {
  }

  /** The replacement table of a method: `i = 1, 2, ...` until the first
      missing `OldString`. */
  function BuildTable(lang: Lang, methodKey: string, useLocalizedText: bool): Result<Table, LocalizeError>
  {
    BuildTableFrom(lang, methodKey, useLocalizedText, 1, map[])
  }

  // ----- The rewrite scan -----

  /** The settings one `LocalizeMethod` call scans with. */
  datatype ScanConfig = ScanConfig(
    methodKey: string,
    registerKey: bool,
    useLocalizedText: bool,
    cursorFilter: Option<Filter<Cursor>>)

  /** What the scan carries from one instruction to the next: the code
      produced so far, the table with its counters, and the provider. */
  datatype ScanState = ScanState(out: seq<Instr>, table: Table, lang: Lang)

  /** The code a rewritten `ldstr` becomes: the operand overwritten, or the
      new text followed by a run-time `Language.GetTextValue` lookup. */
  function Replacement(text: string, useLocalizedText: bool): (r: seq<Instr>)
    ensures |r| >= 1 && r[0] == Ldstr(text)
    ensures |r| == 2 <==> useLocalizedText
    ensures useLocalizedText ==> r[1] == CallOrCallvirt(GetTextValueRef)
  {
    if useLocalizedText then [Ldstr(text), CallOrCallvirt(GetTextValueRef)] else [Ldstr(text)]
  }

  /** Whether an optional cursor filter lets a site through. */
  predicate Admits(cursorFilter: Option<Filter<Cursor>>, c: Cursor)
  {
    cursorFilter.None? || Apply(cursorFilter.value, c)
  }

  /** The index a literal missing from the table is registered under. */
  function RegisterIndex(table: Table): nat
  {
    |table| + 1
  }

  /** `GetOrRegister` of two distinct keys, both defaulting to `text`. */
  function RegisterPair(lang: Lang, oldKey: string, newKey: string, text: string): (r: Lang)
    requires oldKey != newKey
    ensures r.Keys == lang.Keys + {oldKey, newKey}
    ensures Extends(lang, r)
    ensures oldKey !in lang ==> r[oldKey] == text
    ensures newKey !in lang ==> r[newKey] == text
  {
    var withOld := GetOrRegister(lang, oldKey, text).0;
    var withNew := GetOrRegister(withOld, newKey, text).0;
    ExtendsTransitive(lang, withOld, withNew);
    withNew
  }

  /** The code produced for one original instruction: a copy, or a
      replacement of an `ldstr`. */
  predicate Chunk(ins: Instr, code: seq<Instr>, useLocalizedText: bool)
  {
    code == [ins] || (ins.Ldstr? && |code| >= 1 && code[0].Ldstr? && code == Replacement(code[0].text, useLocalizedText))
  }

  /** One iteration of the rewrite loop, with the cursor before `rest[0]`;
      the cursor filter sees the body as rewritten so far. */
  function Visit(config: ScanConfig, st: ScanState, rest: seq<Instr>): (r: ScanState)
    requires |rest| >= 1
    ensures |st.out| <= |r.out| && r.out[..|st.out|] == st.out
    ensures Chunk(rest[0], r.out[|st.out|..], config.useLocalizedText)
    ensures Extends(st.lang, r.lang) && st.table.Keys <= r.table.Keys
    ensures !rest[0].Ldstr? ==> r == st.(out := st.out + [rest[0]])
    ensures rest[0].Ldstr? && rest[0].text !in st.table && !config.registerKey ==> r == st.(out := st.out + [rest[0]])
    ensures rest[0].Ldstr? && !Admits(config.cursorFilter, Cursor(st.out + rest, |st.out|)) ==> r == st.(out := st.out + [rest[0]])
    ensures rest[0].Ldstr? && (rest[0].text in st.table || config.registerKey) && Admits(config.cursorFilter, Cursor(st.out + rest, |st.out|)) ==>
      rest[0].text in r.table
    ensures rest[0].Ldstr? && rest[0].text in st.table ==>
      && r.lang == st.lang && r.table.Keys == st.table.Keys
      && EntryValues(r.table[rest[0].text]) == EntryValues(st.table[rest[0].text])
      && (forall s :: s in st.table && s != rest[0].text ==> r.table[s] == st.table[s])
    ensures rest[0].Ldstr? && rest[0].text in st.table && Admits(config.cursorFilter, Cursor(st.out + rest, |st.out|)) ==>
      var step := GetValue(st.table[rest[0].text]);
      r.out == st.out + Replacement(step.0, config.useLocalizedText) && r.table[rest[0].text] == step.1
    ensures r.lang != st.lang || r.table.Keys != st.table.Keys ==>
      && rest[0].Ldstr? && rest[0].text !in st.table && config.registerKey
      && Admits(config.cursorFilter, Cursor(st.out + rest, |st.out|))
      && r.table.Keys == st.table.Keys + {rest[0].text}
  {
    var ins := rest[0];
    var copy := st.(out := st.out + [ins]);
    if !ins.Ldstr? then copy
    else
      var known := ins.text in st.table;
      if !known && !config.registerKey then copy
      else if !Admits(config.cursorFilter, Cursor(st.out + rest, |st.out|)) then copy
      else if known then Rewrite(config.useLocalizedText, st.out, st.table, st.lang, ins.text)
      else RegisterThenRewrite(config, st, ins.text)
  }

  /** `Visit` for a literal the table does not know yet: register
      `OldString` and `NewString` under index `|table| + 1`, both defaulting
      to the literal, then rewrite it like a known one. */
  function RegisterThenRewrite(config: ScanConfig, st: ScanState, text: string): (r: ScanState)
    requires text !in st.table
    ensures |st.out| < |r.out| && r.out[..|st.out|] == st.out && r.out[|st.out|].Ldstr?
    ensures r.out[|st.out|..] == Replacement(r.out[|st.out|].text, config.useLocalizedText)
    ensures Extends(st.lang, r.lang)
    ensures r.table.Keys == st.table.Keys + {text}
    ensures var oldKey := OldStringKey(config.methodKey, RegisterIndex(st.table));
      var newKey := NewStringKey(config.methodKey, RegisterIndex(st.table));
      && r.lang.Keys == st.lang.Keys + {oldKey, newKey}
      && (oldKey !in st.lang ==> r.lang[oldKey] == text)
      && (newKey !in st.lang ==> r.lang[newKey] == text)
      && r.out[|st.out|].text == ValueOrKey(r.lang, newKey, config.useLocalizedText)
  {
    var i := RegisterIndex(st.table);
    OldNewKeysDiffer(config.methodKey, i);
    RewriteRegistered(config.useLocalizedText, st, text, OldStringKey(config.methodKey, i), NewStringKey(config.methodKey, i))
  }

  /** `RegisterThenRewrite` with the two persisted keys as parameters. */
  function RewriteRegistered(useLocalizedText: bool, st: ScanState, text: string, oldKey: string, newKey: string): (r: ScanState)
    requires text !in st.table && oldKey != newKey
    ensures |st.out| < |r.out| && r.out[..|st.out|] == st.out && r.out[|st.out|].Ldstr?
    ensures r.out[|st.out|..] == Replacement(r.out[|st.out|].text, useLocalizedText)
    ensures Extends(st.lang, r.lang)
    ensures r.table.Keys == st.table.Keys + {text}
    ensures r.lang.Keys == st.lang.Keys + {oldKey, newKey}
    ensures oldKey !in st.lang ==> r.lang[oldKey] == text
    ensures newKey !in st.lang ==> r.lang[newKey] == text
    ensures r.out[|st.out|].text == ValueOrKey(r.lang, newKey, useLocalizedText)
  {
    var lang := RegisterPair(st.lang, oldKey, newKey, text);
    var table := st.table[text := Single(ValueOrKey(lang, newKey, useLocalizedText))];
    Rewrite(useLocalizedText, st.out, table, lang, text)
  }

  /** Replacing the `ldstr` of a text the table knows with the entry's next
      value, advancing the entry. */
  function Rewrite(useLocalizedText: bool, out: seq<Instr>, table: Table, lang: Lang, text: string): (r: ScanState)
    requires text in table
    ensures r.lang == lang && r.table.Keys == table.Keys
    ensures r.out == out + Replacement(GetValue(table[text]).0, useLocalizedText)
    ensures |out| <= |r.out| && r.out[..|out|] == out
    ensures r.out[|out|..] == Replacement(r.out[|out|].text, useLocalizedText)
    ensures r.table[text] == GetValue(table[text]).1
    ensures GetValue(table[text]).0 in EntryValues(table[text])
    ensures EntryValues(r.table[text]) == EntryValues(table[text])
    ensures forall s :: s in table && s != text ==> r.table[s] == table[s]
  {
    var step := GetValue(table[text]);
    GetValueWithinValues(table[text]);
    var code := Replacement(step.0, useLocalizedText);
    assert (out + code)[|out|..] == code;
    ScanState(out + code, table[text := step.1], lang)
  }

  /** The rewrite loop over the remaining original instructions; emitted
      code is never revisited. */
  function Scan(config: ScanConfig, st: ScanState, rest: seq<Instr>): ScanState
    decreases |rest|
  {
    if rest == [] then st else Scan(config, Visit(config, st, rest), rest[1..])
  }

  /** `output` is `input` with every instruction copied in order, except
      that some `ldstr`s are replaced by replacement code. */
  predicate Rewrites(input: seq<Instr>, output: seq<Instr>, useLocalizedText: bool)
    decreases |input|
  {
    if input == [] then output == []
    else
      || (1 <= |output| && Chunk(input[0], output[..1], useLocalizedText) && Rewrites(input[1..], output[1..], useLocalizedText))
      || (2 <= |output| && Chunk(input[0], output[..2], useLocalizedText) && Rewrites(input[1..], output[2..], useLocalizedText))
  }

  /** The scan's output extends what was produced before it by a rewrite of
      the remaining instructions; the provider and the table only grow. */
  lemma {:induction false} ScanShape(config: ScanConfig, st: ScanState, rest: seq<Instr>)
    ensures var r := Scan(config, st, rest);
      && |st.out| <= |r.out| && r.out[..|st.out|] == st.out
      && Rewrites(rest, r.out[|st.out|..], config.useLocalizedText)
      && Extends(st.lang, r.lang) && st.table.Keys <= r.table.Keys
    decreases |rest|
  {
    if rest != [] {
      var mid := Visit(config, st, rest);
      ScanShape(config, mid, rest[1..]);
      var r := Scan(config, mid, rest[1..]);
      ExtendsTransitive(st.lang, mid.lang, r.lang);
      var o := r.out[|st.out|..];
      var chunk := mid.out[|st.out|..];
      assert o == chunk + r.out[|mid.out|..];
      assert o[..|chunk|] == chunk;
      assert o[|chunk|..] == r.out[|mid.out|..];
    }
  }

  /** In replay mode the scan registers nothing: the provider and the set of
      table keys stay as they were, and every entry keeps its texts. */
  lemma {:induction false} ScanReplay(config: ScanConfig, st: ScanState, rest: seq<Instr>)
    requires !config.registerKey
    ensures var r := Scan(config, st, rest);
      && r.lang == st.lang && r.table.Keys == st.table.Keys
      && forall s :: s in st.table ==> EntryValues(r.table[s]) == EntryValues(st.table[s])
    decreases |rest|
  {
    if rest != [] {
      ScanReplay(config, Visit(config, st, rest), rest[1..]);
    }
  }

  /** Every `ldstr` in `code` avoids `texts`. */
  predicate LiteralsAvoid(code: seq<Instr>, texts: set<string>)
  {
    forall k :: 0 <= k < |code| && code[k].Ldstr? ==> code[k].text !in texts
  }

  /** No replacement text of the table is itself an original text of it. */
  ghost predicate ValuesAvoidKeys(table: Table)
  {
    forall s, v :: s in table && v in EntryValues(table[s]) ==> v !in table
  }

  lemma LiteralsAvoidConcat(a: seq<Instr>, b: seq<Instr>, texts: set<string>)
    requires LiteralsAvoid(a, texts) && LiteralsAvoid(b, texts)
    ensures LiteralsAvoid(a + b, texts)
  {
    forall k | 0 <= k < |a + b| && (a + b)[k].Ldstr?
      ensures (a + b)[k].text !in texts
    {
      if k >= |a| {
        assert (a + b)[k] == b[k - |a|];
      }
    }
  }

  /** One replay step without a cursor filter keeps the table's keys and
      texts, and emits no literal the table knows. */
  lemma VisitReplayAvoids(config: ScanConfig, st: ScanState, rest: seq<Instr>)
    requires |rest| >= 1
    requires !config.registerKey && config.cursorFilter.None?
    requires ValuesAvoidKeys(st.table)
    ensures var mid := Visit(config, st, rest);
      && mid.table.Keys == st.table.Keys && ValuesAvoidKeys(mid.table)
      && LiteralsAvoid(mid.out[|st.out|..], st.table.Keys)
  {
    if rest[0].Ldstr? && rest[0].text in st.table {
      GetValueWithinValues(st.table[rest[0].text]);
    }
  }

  /** A replay scan without a cursor filter replaces every literal the table
      knows; when no replacement text is an original text, no literal of the
      output is one either. */
  lemma {:induction false} ScanReplayAvoids(config: ScanConfig, st: ScanState, rest: seq<Instr>)
    requires !config.registerKey && config.cursorFilter.None?
    requires ValuesAvoidKeys(st.table)
    ensures var r := Scan(config, st, rest);
      |st.out| <= |r.out| && LiteralsAvoid(r.out[|st.out|..], st.table.Keys)
    decreases |rest|
  {
    if rest != [] {
      var mid := Visit(config, st, rest);
      VisitReplayAvoids(config, st, rest);
      ScanReplayAvoids(config, mid, rest[1..]);
      ScanShape(config, mid, rest[1..]);
      var r := Scan(config, mid, rest[1..]);
      var head := mid.out[|st.out|..];
      var tail := r.out[|mid.out|..];
      assert r.out[|st.out|..] == head + tail by {
        assert r.out == mid.out + tail;
        assert mid.out == st.out + head;
      }
      LiteralsAvoidConcat(head, tail, st.table.Keys);
    }
  }

  /** A replay scan over code none of whose literals the table knows copies
      it unchanged. */
  lemma {:induction false} ScanIdentity(config: ScanConfig, st: ScanState, rest: seq<Instr>)
    requires !config.registerKey
    requires LiteralsAvoid(rest, st.table.Keys)
    ensures Scan(config, st, rest) == st.(out := st.out + rest)
    decreases |rest|
  {
    if rest != [] {
      var mid := Visit(config, st, rest);
      assert mid == st.(out := st.out + [rest[0]]) by {
        assert rest[0].Ldstr? ==> rest[0].text !in st.table;
      }
      assert LiteralsAvoid(rest[1..], st.table.Keys) by {
        forall k | 0 <= k < |rest[1..]| && rest[1..][k].Ldstr?
          ensures rest[1..][k].text !in st.table.Keys
        {
          assert rest[1..][k] == rest[k + 1];
        }
      }
      ScanIdentity(config, mid, rest[1..]);
      assert st.out + [rest[0]] + rest[1..] == st.out + rest;
    }
  }

  /** In registration mode without a cursor filter every literal of the
      body ends up in the table. */
  lemma {:induction false} ScanRegistersAll(config: ScanConfig, st: ScanState, rest: seq<Instr>)
    requires config.registerKey && config.cursorFilter.None?
    ensures forall k :: 0 <= k < |rest| && rest[k].Ldstr? ==> rest[k].text in Scan(config, st, rest).table
    decreases |rest|
  {
    if rest != [] {
      var mid := Visit(config, st, rest);
      ScanRegistersAll(config, mid, rest[1..]);
      ScanShape(config, mid, rest[1..]);
      forall k | 0 <= k < |rest| && rest[k].Ldstr?
        ensures rest[k].text in Scan(config, st, rest).table
      {
        if k > 0 {
          assert rest[k] == rest[1..][k - 1];
        }
      }
    }
  }

  // ----- LocalizeMethod -----

  /** `LocalizeMethod(method, methodKey, registerKey, useLocalizedText,
      cursorFilter)` on a body and a provider. A repeated original text in
      the persisted pairs is the `Dictionary.Add` exception; the body and the
      provider are then left as they were. */
  function LocalizeMethod(
    body: seq<Instr>, lang: Lang, methodKey: string,
    registerKey: bool, useLocalizedText: bool, cursorFilter: Option<Filter<Cursor>>): (r: Result<Patched, LocalizeError>)
    ensures !registerKey && !Exists(lang, methodKey + ".1.OldString") ==> r == Success(Patched(body, lang))
    ensures registerKey && !HasLdstr(body) ==> r == Success(Patched(body, lang))
  {
    FirstOldStringKey(methodKey);
    if !registerKey && !Exists(lang, OldStringKey(methodKey, 1)) then Success(Patched(body, lang))
    else if registerKey && !HasLdstr(body) then Success(Patched(body, lang))
    else
      match BuildTable(lang, methodKey, useLocalizedText)
      case Failure(e) => Failure(e)
      case Success(table) =>
        var config := ScanConfig(methodKey, registerKey, useLocalizedText, cursorFilter);
        var done := Scan(config, ScanState([], table, lang), body);
        Success(Patched(done.out, done.lang))
  }

  lemma FirstOldStringKey(methodKey: string)
    ensures OldStringKey(methodKey, 1) == methodKey + ".1.OldString"
  {
    assert NatToString(1) == "1";
  }

  /** `LocalizeMethod` fails exactly when it does not skip and two
      contributing persisted pairs share their original text; otherwise the
      body is a rewrite of the original and the provider only grows. */
  lemma LocalizeMethodOutcome(
    body: seq<Instr>, lang: Lang, methodKey: string,
    registerKey: bool, useLocalizedText: bool, cursorFilter: Option<Filter<Cursor>>)
    ensures var r := LocalizeMethod(body, lang, methodKey, registerKey, useLocalizedText, cursorFilter);
      && (r.Failure? <==>
            && (registerKey || OldStringKey(methodKey, 1) in lang)
            && (!registerKey || HasLdstr(body))
            && !DistinctTexts(lang, methodKey, 1, FirstGap(lang, methodKey, 1), {}))
      && (r.Success? ==> Rewrites(body, r.value.body, useLocalizedText) && Extends(lang, r.value.lang))
  {
    FirstOldStringKey(methodKey);
    BuildTableSucceeds(lang, methodKey, useLocalizedText, 1, map[]);
    DistinctFromIff(lang, methodKey, 1, FirstGap(lang, methodKey, 1), {});
    var empty: Table := map[];
    assert empty.Keys == {};
    var config := ScanConfig(methodKey, registerKey, useLocalizedText, cursorFilter);
    RewritesSelf(body, useLocalizedText);
    match BuildTable(lang, methodKey, useLocalizedText)
    case Failure(_) =>
    case Success(table) =>
      ScanShape(config, ScanState([], table, lang), body);
  }

  /** Copying is a rewrite. */
  lemma {:induction false} RewritesSelf(body: seq<Instr>, useLocalizedText: bool)
    ensures Rewrites(body, body, useLocalizedText)
    decreases |body|
  {
    if body != [] {
      RewritesSelf(body[1..], useLocalizedText);
      assert body[..1] == [body[0]];
    }
  }

  /** In replay mode the provider is left unchanged, and when no
      replacement text is itself an original text, replaying a second time
      changes nothing. */
  lemma ReplayIdempotent(body: seq<Instr>, lang: Lang, methodKey: string, useLocalizedText: bool)
    requires BuildTable(lang, methodKey, useLocalizedText).Success? ==>
      ValuesAvoidKeys(BuildTable(lang, methodKey, useLocalizedText).value)
    ensures var r := LocalizeMethod(body, lang, methodKey, false, useLocalizedText, None);
      r.Success? ==>
        && r.value.lang == lang
        && LocalizeMethod(r.value.body, lang, methodKey, false, useLocalizedText, None) == r
  {
    FirstOldStringKey(methodKey);
    var config := ScanConfig(methodKey, false, useLocalizedText, None);
    if OldStringKey(methodKey, 1) in lang {
      match BuildTable(lang, methodKey, useLocalizedText)
      case Failure(_) =>
      case Success(table) =>
        var start := ScanState([], table, lang);
        var done := Scan(config, start, body);
        ScanReplay(config, start, body);
        ScanReplayAvoids(config, start, body);
        assert done.out[0..] == done.out;
        ScanIdentity(config, start, done.out);
        assert Scan(config, start, done.out) == ScanState(done.out, table, lang);
        assert LocalizeMethod(body, lang, methodKey, false, useLocalizedText, None) == Success(Patched(done.out, lang));
    }
  }

  /** When every index before the first gap contributes, each adds one
      table entry. */
  lemma {:induction false} BuildTableSize(lang: Lang, methodKey: string, useLocalizedText: bool, i: nat, acc: Table)
    requires i >= 1
    requires forall k :: 1 <= k < i ==> OldStringKey(methodKey, k) in lang
    requires BuildTableFrom(lang, methodKey, useLocalizedText, i, acc).Success?
    requires forall k :: i <= k < FirstGap(lang, methodKey, i) ==> Contributes(lang, methodKey, k)
    ensures |BuildTableFrom(lang, methodKey, useLocalizedText, i, acc).value| == |acc| + FirstGap(lang, methodKey, i) - i
    decreases |lang.Keys| + 1 - i
  {
    if OldStringKey(methodKey, i) in lang {
      OldStringRunBound(lang, methodKey, i);
      assert FirstGap(lang, methodKey, i) == FirstGap(lang, methodKey, i + 1);
      var original := OldText(lang, methodKey, i);
      var e := Entry(lang, methodKey, i, useLocalizedText).value;
      BuildTableSize(lang, methodKey, useLocalizedText, i + 1, acc[original := e]);
    }
  }

  /** When every persisted index before the first gap has a replacement,
      the first literal registered goes to the first free index, so its
      `OldString` is written rather than kept from an earlier pair. */
  lemma RegisterIndexFresh(lang: Lang, methodKey: string, useLocalizedText: bool)
    requires BuildTable(lang, methodKey, useLocalizedText).Success?
    requires forall k :: 1 <= k < FirstGap(lang, methodKey, 1) ==> Contributes(lang, methodKey, k)
    ensures RegisterIndex(BuildTable(lang, methodKey, useLocalizedText).value) == FirstGap(lang, methodKey, 1)
    ensures OldStringKey(methodKey, RegisterIndex(BuildTable(lang, methodKey, useLocalizedText).value)) !in lang
  {
    BuildTableSize(lang, methodKey, useLocalizedText, 1, map[]);
  }

  // ----- Worked examples -----

  lemma ExampleKeys()
    ensures OldStringKey("M", 1) == "M.1.OldString"
    ensures NewStringKey("M", 1) == "M.1.NewString"
    ensures NewStringsKey("M", 1, 1) == "M.1.NewString_1"
    ensures OldStringKey("M", 2) == "M.2.OldString"
  {
    assert NatToString(1) == "1";
    assert NatToString(2) == "2";
  }

  /** The table `ReplayExample` reads: the one pair, mapped to its value or
      its key. */
  lemma ReplayExampleTable(lang: Lang, useLocalizedText: bool)
    requires lang == map["M.1.OldString" := "Hello", "M.1.NewString" := "Bonjour"]
    ensures BuildTable(lang, "M", useLocalizedText) == Success(map["Hello" := Single(ValueOrKey(lang, "M.1.NewString", useLocalizedText))])
  {
    ExampleKeys();
    assert "M.1.NewString_1" !in lang;
    assert "M.2.OldString" !in lang;
    assert Entry(lang, "M", 1, useLocalizedText) == Some(Single(ValueOrKey(lang, "M.1.NewString", useLocalizedText)));
    assert BuildTableFrom(lang, "M", useLocalizedText, 2, map["Hello" := Single(ValueOrKey(lang, "M.1.NewString", useLocalizedText))])
      == Success(map["Hello" := Single(ValueOrKey(lang, "M.1.NewString", useLocalizedText))]);
  }

  /** A pair `Hello -> Bonjour` under method key `M`: with direct text the
      operand becomes `Bonjour`; with late-bound text the literal becomes the
      provider key `M.1.NewString` followed by a `GetTextValue` call. */
  lemma ReplayExample(lang: Lang, show: Instr, useLocalizedText: bool)
    requires lang == map["M.1.OldString" := "Hello", "M.1.NewString" := "Bonjour"]
    requires show == CallOrCallvirt(MethodRef("Terraria.Main", "NewText", 1, false))
    ensures !useLocalizedText ==>
      LocalizeMethod([Ldstr("Hello"), show], lang, "M", false, useLocalizedText, None)
        == Success(Patched([Ldstr("Bonjour"), show], lang))
    ensures useLocalizedText ==>
      LocalizeMethod([Ldstr("Hello"), show], lang, "M", false, useLocalizedText, None)
        == Success(Patched([Ldstr("M.1.NewString"), CallOrCallvirt(GetTextValueRef), show], lang))
  {
    ExampleKeys();
    ReplayExampleTable(lang, useLocalizedText);
    var value := ValueOrKey(lang, "M.1.NewString", useLocalizedText);
    var table := map["Hello" := Single(value)];
    var config := ScanConfig("M", false, useLocalizedText, None);
    var body := [Ldstr("Hello"), show];
    var mid := Visit(config, ScanState([], table, lang), body);
    assert mid == ScanState(Replacement(value, useLocalizedText), table, lang);
    var done := Visit(config, mid, body[1..]);
    assert done == ScanState(Replacement(value, useLocalizedText) + [show], table, lang);
    assert body[1..][1..] == [];
    assert Scan(config, done, []) == done;
    assert Scan(config, mid, body[1..]) == done;
    assert Scan(config, ScanState([], table, lang), body) == done;
    assert !useLocalizedText ==> value == "Bonjour" && Replacement(value, useLocalizedText) + [show] == [Ldstr("Bonjour"), show];
    assert useLocalizedText ==>
      value == "M.1.NewString" &&
      Replacement(value, useLocalizedText) + [show] == [Ldstr("M.1.NewString"), CallOrCallvirt(GetTextValueRef), show];
  }

  /** The registration index counts table entries, not persisted indices:
      when index 1 holds an `OldString` without any `NewString`, registering
      `B` reuses index 1, so the persisted pair 1 now maps the older text
      `A` to `B`. */
  lemma RegisterCollisionExample()
    ensures var lang := map["M.1.OldString" := "A"];
      var r := LocalizeMethod([Ldstr("B")], lang, "M", true, false, None);
      && r == Success(Patched([Ldstr("B")], map["M.1.OldString" := "A", "M.1.NewString" := "B"]))
      && BuildTable(r.value.lang, "M", false) == Success(map["A" := Single("B")])
  {
    var lang := map["M.1.OldString" := "A"];
    ExampleKeys();
    assert "M.1.NewString_1" !in lang && "M.1.NewString" !in lang;
    assert "M.2.OldString" !in lang;
    assert HasLdstr([Ldstr("B")]) by {
      assert [Ldstr("B")][0].Ldstr?;
    }
    var empty: Table := map[];
    assert BuildTable(lang, "M", false) == Success(empty) by {
      assert Entry(lang, "M", 1, false) == None;
      assert BuildTableFrom(lang, "M", false, 2, empty) == Success(empty);
    }
    assert RegisterIndex(empty) == 1;
    var after := map["M.1.OldString" := "A", "M.1.NewString" := "B"];
    assert "M.1.NewString_1" !in after && "M.2.OldString" !in after;
    assert Entry(after, "M", 1, false) == Some(Single("B"));
    assert BuildTableFrom(after, "M", false, 2, map["A" := Single("B")]) == Success(map["A" := Single("B")]);
  }
}
