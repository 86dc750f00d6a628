/** Filters over cursors positioned at a string literal, and the forward
    stack simulation that finds the call consuming that literal. */
module ILCursorFilter {
  import opened Wrappers
  import opened Cil
  import opened Filters

  /** `int.MinValue / 2`; the division is exact, so truncating and
      Euclidean division agree. */
  const PopAllSentinel: int := -0x8000_0000 / 2

  /** The stack-behaviour table: the signed count a tag contributes. Pop
      tags are negative, push tags positive, and `PopAll` is the sentinel. */
  function PushCount(b: StackBehaviour): (n: int)
    ensures IsPopSide(b) ==> n <= 0
    ensures IsPushSide(b) ==> 0 <= n <= 2
    ensures n == PopAllSentinel <==> b == PopAll
    ensures b.Pop0? || b.Push0? || b.Varpop? || b.Varpush? ==> n == 0
    ensures b != PopAll ==> -3 <= n
  {
    match b
    case Pop0 => 0
    case Pop1 => -1
    case Pop1_pop1 => -2
    case Popi => -1
    case Popi_pop1 => -2
    case Popi_popi => -2
    case Popi_popi8 => -2
    case Popi_popi_popi => -3
    case Popi_popr4 => -2
    case Popi_popr8 => -2
    case Popref => -1
    case Popref_pop1 => -2
    case Popref_popi => -2
    case Popref_popi_popi => -3
    case Popref_popi_popi8 => -3
    case Popref_popi_popr4 => -3
    case Popref_popi_popr8 => -3
    case Popref_popi_popref => -3
    case PopAll => PopAllSentinel
    case Push0 => 0
    case Push1 => 1
    case Push1_push1 => 2
    case Pushi => 1
    case Pushi8 => 1
    case Pushr4 => 1
    case Pushr8 => 1
    case Pushref => 1
    case _ => 0
  }

  /** How many values an opcode pops: the negated table entry of its pop
      tag. Never negative; `PopAll` pops 2^30. */
  function PopCount(op: OpCode): (n: int)
    ensures 0 <= n
    ensures op.pop == PopAll ==> n == 0x4000_0000
    ensures op.pop != PopAll ==> n <= 3
  {
    -PushCount(op.pop)
  }

  /** How many values an opcode pushes: never negative. */
  function PushCountOf(op: OpCode): (n: int)
    ensures 0 <= n <= 2
  {
    PushCount(op.push)
  }

  /** Flow classes the simulation walks through; everything else (branches,
      returns, throws, ...) ends it. */
  predicate StraightLine(ins: Instr)
  {
    OpCodeOf(ins).flow == Next || OpCodeOf(ins).flow == Call
  }

  /** The target of a `call`, `callvirt` or `newobj`, the only instructions
      that can be reported as a consumer. */
  function DirectTarget(ins: Instr): (r: Option<MethodRef>)
    ensures r.Some? <==> ins.CallOrCallvirt? || ins.Newobj?
  {
    match ins
    case CallOrCallvirt(m) => Some(m)
    case Newobj(m) => Some(m)
    case _ => None
  }

  /** One instruction of the simulation at stack depth `depth`: either the
      walk ends with a result, or it continues at a new depth. */
  datatype Step = Stop(result: Option<MethodRef>) | Continue(depth: int)

  function StepOf(ins: Instr, depth: int): (s: Step)
    requires depth >= 1
    ensures s.Continue? ==> s.depth >= 1 && StraightLine(ins)
    ensures s.Stop? && s.result.Some? ==>
      StraightLine(ins) && DirectTarget(ins) == s.result && s.result.value.paramCount >= depth
  {
    if !StraightLine(ins) then Stop(None)
    else if DirectTarget(ins).Some? then
      var m := DirectTarget(ins).value;
      var d := depth - m.paramCount;
      if d <= 0 then Stop(Some(m))
      else Continue(if m.hasReturnType then d + 1 else d)
    else if ins.Calli? then
      var d := depth - ins.site.paramCount;
      if d <= 0 then Stop(None)
      else Continue(if ins.site.hasReturnType then d + 1 else d)
    else
      var d := depth - PopCount(OpCodeOf(ins));
      if d <= 0 then Stop(None)
      else Continue(d + PushCountOf(OpCodeOf(ins)))
  }

  /** The stack simulation: `rest` is the code after the literal and `depth`
      the number of values on the simulated stack, the literal included.
      The result is the call whose arguments reach down to the literal, or
      `None` when the code leaves straight-line flow, the literal is
      consumed by anything else, or the code ends first. */
  function Resolve(rest: seq<Instr>, depth: int): (r: Option<MethodRef>)
    requires depth >= 1
    ensures r.Some? ==> r.value.paramCount >= 1
    ensures r.Some? ==> ReachedThrough(rest, r)
    decreases |rest|
  {
    if |rest| == 0 then None
    else
      match StepOf(rest[0], depth)
      case Stop(r) =>
        assert r.Some? ==> DirectTarget(rest[0]) == r && StraightPrefix(rest, 0);
        r
      case Continue(d) =>
        var r := Resolve(rest[1..], d);
        Shift(rest, r);
        r
  }

  /** `r` is the target of some call in `rest` reached through straight-line
      instructions only. */
  ghost predicate ReachedThrough(rest: seq<Instr>, r: Option<MethodRef>)
  {
    exists k :: 0 <= k < |rest| && DirectTarget(rest[k]) == r && StraightPrefix(rest, k)
  }

  ghost predicate StraightPrefix(rest: seq<Instr>, k: int)
  {
    forall j :: 0 <= j < k && j < |rest| ==> StraightLine(rest[j])
  }

  /** A witness position found in `rest[1..]` is one further in `rest`. */
  lemma Shift(rest: seq<Instr>, r: Option<MethodRef>)
    requires |rest| >= 1 && StraightLine(rest[0])
    requires r.Some? ==> ReachedThrough(rest[1..], r)
    ensures r.Some? ==> ReachedThrough(rest, r)
  {
    if r.Some? {
      var k :| 0 <= k < |rest| - 1 && DirectTarget(rest[1..][k]) == r && StraightPrefix(rest[1..], k);
      assert DirectTarget(rest[k + 1]) == r;
      forall j | 0 <= j < k + 1 ensures StraightLine(rest[j]) {
        if j > 0 {
          assert rest[j] == rest[1..][j - 1];
        }
      }
      assert StraightPrefix(rest, k + 1);
    }
  }

  /** `FindMethodUsage(cursor)` as a function: no `Next` means no usage;
      otherwise the literal at `Next` starts the simulation at depth 1. */
  function Usage(c: Cursor): (r: Option<MethodRef>)
    ensures c.index + 1 >= |c.body| ==> r.None?
  {
    if c.index >= |c.body| then None else Resolve(c.body[c.index + 1..], 1)
  }

  /** `FindMethodUsage`: the forward walk as the source writes it, a loop
      over the instructions after `Next` with a running stack depth. */
  method FindMethodUsage(c: Cursor) returns (r: Option<MethodRef>)
    ensures r == Usage(c)
    ensures r.Some? ==> r.value.paramCount >= 1
  {
    if c.index >= |c.body| {
      return None;
    }
    ghost var usage := Usage(c);
    var stack := 1;
    var i := c.index + 1;
    while i < |c.body|
      invariant c.index + 1 <= i <= |c.body|
      invariant stack >= 1
      invariant Resolve(c.body[i..], stack) == usage
      decreases |c.body| - i
    {
      var step := Advance(c.body[i], stack);
      ResolveUnfold(c.body, i, stack);
      if step.Stop? {
        return step.result;
      }
      assert Resolve(c.body[i + 1..], step.depth) == usage;
      stack := step.depth;
      i := i + 1;
    }
    return None;
  }

  /** The body of `FindMethodUsage`'s loop for one instruction: stop on
      anything that is not straight-line flow, subtract the arguments a call
      takes (reporting a direct call that reaches the literal), add its
      return value, and otherwise apply the opcode's pop and push counts. */
  method Advance(ins: Instr, stack: int) returns (s: Step)
    requires stack >= 1
    ensures s == StepOf(ins, stack)
  {
    if !StraightLine(ins) {
      return Stop(None);
    }
    var depth := stack;
    if DirectTarget(ins).Some? {
      var m := DirectTarget(ins).value;
      depth := depth - m.paramCount;
      if depth <= 0 {
        return Stop(Some(m));
      }
      if m.hasReturnType {
        depth := depth + 1;
      }
    } else if ins.Calli? {
      depth := depth - ins.site.paramCount;
      if depth <= 0 {
        return Stop(None);
      }
      if ins.site.hasReturnType {
        depth := depth + 1;
      }
    } else {
      depth := depth - PopCount(OpCodeOf(ins));
      if depth <= 0 {
        return Stop(None);
      }
      depth := depth + PushCountOf(OpCodeOf(ins));
    }
    return Continue(depth);
  }

  /** One step of the simulation at position `i` of `body`. */
  lemma ResolveUnfold(body: seq<Instr>, i: nat, depth: int)
    requires i < |body| && depth >= 1
    ensures StepOf(body[i], depth).Stop? ==> Resolve(body[i..], depth) == StepOf(body[i], depth).result
    ensures StepOf(body[i], depth).Continue? ==>
      Resolve(body[i..], depth) == Resolve(body[i + 1..], StepOf(body[i], depth).depth)
  {
    assert body[i..][0] == body[i] && body[i..][1..] == body[i + 1..];
  }

  // ----- Properties of the simulation -----

  /** The walk gives up at the end of the code and at any instruction that
      leaves straight-line flow, even when a matching call follows. */
  lemma StopsAtEndAndBranches(rest: seq<Instr>, depth: int)
    requires depth >= 1
    ensures |rest| == 0 ==> Resolve(rest, depth).None?
    ensures |rest| > 0 && !StraightLine(rest[0]) ==> Resolve(rest, depth).None?
  {
  }

  /** A `call`/`callvirt`/`newobj` taking at least `depth` arguments is the
      consumer. */
  lemma DirectConsumer(rest: seq<Instr>, depth: int, m: MethodRef)
    requires depth >= 1 && |rest| > 0 && DirectTarget(rest[0]) == Some(m)
    ensures Resolve(rest, depth) == Some(m) <== m.paramCount >= depth
    ensures m.paramCount < depth ==> Resolve(rest, depth) == Resolve(rest[1..], depth - m.paramCount + (if m.hasReturnType then 1 else 0))
  {
  }

  /** An indirect call that would consume the literal, or any other
      instruction whose pops reach it (a store, `PopAll`, ...), ends the walk
      with no usage. */
  lemma OtherConsumers(rest: seq<Instr>, depth: int)
    requires depth >= 1 && |rest| > 0
    ensures rest[0].Calli? && rest[0].site.paramCount >= depth ==> Resolve(rest, depth).None?
    ensures rest[0].Other? && StraightLine(rest[0]) && PopCount(rest[0].op) >= depth ==> Resolve(rest, depth).None?
    ensures rest[0].Other? && StraightLine(rest[0]) && rest[0].op.pop == PopAll && depth <= 0x4000_0000
      ==> Resolve(rest, depth).None?
  {
  }

  /** If a non-straight-line instruction precedes every call in `rest`, no
      usage is found. */
  lemma BranchBeforeCall(rest: seq<Instr>, depth: int, b: nat)
    requires depth >= 1
    requires b < |rest| && !StraightLine(rest[b])
    requires forall j :: 0 <= j < b ==> DirectTarget(rest[j]).None?
    ensures Resolve(rest, depth).None?
  {
  }

  const StringParam: MethodRef := MethodRef("Terraria.Main", "NewText", 1, true)

  /** `ldstr; call f(string)` resolves to `f`; `ldstr; brtrue; call f(string)`
      resolves to nothing. */
  lemma Examples()
    ensures Usage(Cursor([Ldstr("a"), CallOrCallvirt(StringParam)], 0)) == Some(StringParam)
    ensures Usage(Cursor([Ldstr("a"), Other(OpShape(CondBranch, Popi, Push0)), CallOrCallvirt(StringParam)], 0)).None?
    ensures Usage(Cursor([Ldstr("a")], 0)).None?
    ensures Usage(Cursor([Ldstr("a")], 1)).None?
  {
    var b := [Ldstr("a"), CallOrCallvirt(StringParam)];
    assert b[1..] == [CallOrCallvirt(StringParam)];
    var b2 := [Ldstr("a"), Other(OpShape(CondBranch, Popi, Push0)), CallOrCallvirt(StringParam)];
    assert b2[1..][0] == Other(OpShape(CondBranch, Popi, Push0));
  }

  // ----- Cursor filters -----

  type CursorFilter = Filter<Cursor>

  /** `CommonCursorFilter` with its deny-list of declaring-type full names
      as a parameter: admits when no usage is found, rejects when the
      consuming call's declaring type is on the list. */
  function CommonCursorFilter(denied: set<string>): (f: CursorFilter)
    ensures forall c :: Apply(f, c) <==> forall m :: Usage(c) == Some(m) ==> m.declaringType !in denied
  {
    Filter(c => var u := Usage(c); u.None? || u.value.declaringType !in denied)
  }

  /** `NoLanguageMethods`: drop literals passed to `Language`. */
  function NoLanguageMethods(): (f: CursorFilter)
    ensures forall c :: Apply(f, c) == Apply(CommonCursorFilter({LanguageTypeName}), c)
  {
    Filter(c => var u := Usage(c); u.None? || u.value.declaringType != LanguageTypeName)
  }

  /** `NoCommonLanguageMethods`: drop literals passed to `Language` or
      `LanguageManager`. */
  function NoCommonLanguageMethods(): (f: CursorFilter)
    ensures forall c :: Apply(f, c) == Apply(CommonCursorFilter({LanguageTypeName, LanguageManagerTypeName}), c)
  {
    Filter(c => var u := Usage(c);
      if u.None? then true
      else if u.value.declaringType == LanguageTypeName then false
      else if u.value.declaringType == LanguageManagerTypeName then false
      else true)
  }

  /** `MatchMethodUsage(f)`: hands the resolved usage (or `None`) to `f`. */
  function MatchMethodUsage(methodFilter: Option<MethodRef> -> bool): (f: CursorFilter)
    ensures forall c :: Usage(c).None? ==> Apply(f, c) == methodFilter(None)
    ensures forall c, m :: Usage(c) == Some(m) ==> Apply(f, c) == methodFilter(Some(m))
  {
    Filter(c => methodFilter(Usage(c)))
  }

  /** The deny-list filters are usage filters. */
  lemma CommonIsUsageFilter(denied: set<string>, c: Cursor)
    ensures Apply(CommonCursorFilter(denied), c)
      == Apply(MatchMethodUsage((u: Option<MethodRef>) => u.None? || u.value.declaringType !in denied), c)
  {
  }

  /** A longer deny-list admits less. */
  lemma DenyListMonotone(small: set<string>, large: set<string>, c: Cursor)
    requires small <= large
    ensures Apply(CommonCursorFilter(large), c) ==> Apply(CommonCursorFilter(small), c)
  {
  }
}
