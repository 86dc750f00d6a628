/** The slice of the CIL instruction model the patcher looks at: control-flow
    classes, the stack-behaviour tags every opcode carries, call targets, and
    a cursor into a method body. A method body is a plain sequence; branch
    labels are not represented. */
module Cil {
  import opened Wrappers

  /** Control-flow class of an opcode. */
  datatype FlowControl = Branch | Break | Call | CondBranch | Meta | Next | Phi | Return | Throw

  /** Stack-behaviour tags. Every opcode has one tag for its pop side and
      one for its push side. */
  datatype StackBehaviour =
    | Pop0 | Pop1 | Pop1_pop1 | Popi | Popi_pop1 | Popi_popi | Popi_popi8
    | Popi_popi_popi | Popi_popr4 | Popi_popr8 | Popref | Popref_pop1
    | Popref_popi | Popref_popi_popi | Popref_popi_popi8 | Popref_popi_popr4
    | Popref_popi_popr8 | Popref_popi_popref | PopAll
    | Push0 | Push1 | Push1_push1 | Pushi | Pushi8 | Pushr4 | Pushr8 | Pushref
    | Varpop | Varpush

  /** Tags that can describe the pop side of an opcode. */
  predicate IsPopSide(b: StackBehaviour)
  {
    !(b.Push0? || b.Push1? || b.Push1_push1? || b.Pushi? || b.Pushi8?
      || b.Pushr4? || b.Pushr8? || b.Pushref? || b.Varpush?)
  }

  /** Tags that can describe the push side of an opcode. */
  predicate IsPushSide(b: StackBehaviour)
  {
    b.Push0? || b.Push1? || b.Push1_push1? || b.Pushi? || b.Pushi8?
    || b.Pushr4? || b.Pushr8? || b.Pushref? || b.Varpush?
  }

  datatype OpShape = OpShape(flow: FlowControl, pop: StackBehaviour, push: StackBehaviour)

  /** An opcode: its pop tag is a pop-side tag and its push tag a push-side
      tag, as for every opcode of the instruction set. */
  type OpCode = op: OpShape | IsPopSide(op.pop) && IsPushSide(op.push)
    witness OpShape(Next, Pop0, Push0)

  /** A resolved call target: declaring type (by full name), name, number
      of declared parameters (the implicit `this` is not one of them) and
      whether a return type is present. */
  datatype MethodRef = MethodRef(declaringType: string, name: string, paramCount: nat, hasReturnType: bool)

  /** The signature operand of an indirect call. */
  datatype CallSite = CallSite(paramCount: nat, hasReturnType: bool)

  datatype Instr =
    | Ldstr(text: string)
    | CallOrCallvirt(target: MethodRef)
    | Newobj(target: MethodRef)
    | Calli(site: CallSite)
    | Other(op: OpCode)

  /** The opcode description of an instruction. Calls carry the variable
      tags; `ldstr` pushes one reference. */
  function OpCodeOf(ins: Instr): OpCode
  {
    match ins
    case Ldstr(_) => OpShape(Next, Pop0, Pushref)
    case CallOrCallvirt(_) => OpShape(Call, Varpop, Varpush)
    case Newobj(_) => OpShape(Call, Varpop, Varpush)
    case Calli(_) => OpShape(Call, Varpop, Varpush)
    case Other(op) => op
  }

  /** `Language.GetTextValue(string)`, the text provider's lookup-by-key. */
  const LanguageTypeName: string := "Terraria.Localization.Language"
  const LanguageManagerTypeName: string := "Terraria.Localization.LanguageManager"
  const GetTextValueRef: MethodRef := MethodRef(LanguageTypeName, "GetTextValue", 1, true)

  /** A cursor over a method body; `NextOf` gives the instruction at `index`. */
  datatype Cursor = Cursor(body: seq<Instr>, index: nat)

  function NextOf(c: Cursor): (r: Option<Instr>)
    ensures r.Some? <==> c.index < |c.body|
    ensures r.Some? ==> r.value == c.body[c.index]
  {
    if c.index < |c.body| then Some(c.body[c.index]) else None
  }

  predicate HasLdstr(body: seq<Instr>)
  {
    exists k :: 0 <= k < |body| && body[k].Ldstr?
  }
}
