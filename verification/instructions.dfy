/** The instruction model: an IL instruction is an opcode, an optional operand and the
    set of labels attached to it as a jump target. A method body is a `seq<Instr>`. */
module Instructions {

  /** A branch-target identity, minted by the label allocator (the IL generator). */
  type Label = nat

  /** The opcodes the patches of this repository search for or emit. */
  datatype OpCode =
    | Nop | Ret | Pop | Dup
    | Ldarg0 | Ldarg1 | Ldarg2 | LdargS | StargS
    | Ldloc0 | Ldloc1 | Ldloc2 | Ldloc3 | LdlocS | LdlocaS
    | Stloc0 | Stloc2 | Stloc3 | StlocS
    | LdcI4M1 | LdcI40 | LdcI41 | LdcI42 | LdcI4 | LdcI4S | LdcR4 | LdcR8
    | Ldnull | Ldstr
    | Ldfld | Stfld | Ldsfld | Stsfld | Ldftn
    | Call | Callvirt | Newobj | Isinst
    | ConvR4 | Add | Sub | Mul | Neg
    | Br | Brfalse | Brtrue | BneUn | Blt | Bgt
  {
    /** The IL mnemonic, the first word of an instruction's text rendering. */
    function Name(): string {
      match this
      case Nop => "nop"
      case Ret => "ret"
      case Pop => "pop"
      case Dup => "dup"
      case Ldarg0 => "ldarg.0"
      case Ldarg1 => "ldarg.1"
      case Ldarg2 => "ldarg.2"
      case LdargS => "ldarg.s"
      case StargS => "starg.s"
      case Ldloc0 => "ldloc.0"
      case Ldloc1 => "ldloc.1"
      case Ldloc2 => "ldloc.2"
      case Ldloc3 => "ldloc.3"
      case LdlocS => "ldloc.s"
      case LdlocaS => "ldloca.s"
      case Stloc0 => "stloc.0"
      case Stloc2 => "stloc.2"
      case Stloc3 => "stloc.3"
      case StlocS => "stloc.s"
      case LdcI4M1 => "ldc.i4.m1"
      case LdcI40 => "ldc.i4.0"
      case LdcI41 => "ldc.i4.1"
      case LdcI42 => "ldc.i4.2"
      case LdcI4 => "ldc.i4"
      case LdcI4S => "ldc.i4.s"
      case LdcR4 => "ldc.r4"
      case LdcR8 => "ldc.r8"
      case Ldnull => "ldnull"
      case Ldstr => "ldstr"
      case Ldfld => "ldfld"
      case Stfld => "stfld"
      case Ldsfld => "ldsfld"
      case Stsfld => "stsfld"
      case Ldftn => "ldftn"
      case Call => "call"
      case Callvirt => "callvirt"
      case Newobj => "newobj"
      case Isinst => "isinst"
      case ConvR4 => "conv.r4"
      case Add => "add"
      case Sub => "sub"
      case Mul => "mul"
      case Neg => "neg"
      case Br => "br"
      case Brfalse => "brfalse"
      case Brtrue => "brtrue"
      case BneUn => "bne.un"
      case Blt => "blt"
      case Bgt => "bgt"
    }
  }

  /** An operand. Member references (fields, methods, types) are identified by a
      qualified name such as "Crop::harvestMethod"; a branch carries its target label. */
  datatype Operand =
    | NoArg
    | Int(i: int)
    | Float(f: real)
    | Str(s: string)
    | Local(slot: nat)
    | Arg(index: nat)
    | Member(name: string)
    | Target(to: Label)

  datatype Instr = Instr(op: OpCode, arg: Operand, labels: set<Label>)

  /** An instruction without operand and without labels, as `Instructions.Ret()` builds it. */
  function Plain(op: OpCode): Instr {
    Instr(op, NoArg, {})
  }

  /** An instruction with an operand and without labels, as `Instructions.Ldfld(...)` builds it. */
  function With(op: OpCode, arg: Operand): Instr {
    Instr(op, arg, {})
  }

  /** A branch instruction jumping to `l`. */
  function Jump(op: OpCode, l: Label): Instr {
    Instr(op, Target(l), {})
  }

  /** A call of the method `m`, as `Instructions.Call(typeof(...), ...)` builds it. */
  function CallTo(m: string): Instr {
    With(Call, Member(m))
  }

  function DigitChar(d: nat): char
    requires d < 10
  {
    "0123456789"[d]
  }

  function NatText(n: nat): string
    decreases n
  {
    if n < 10 then [DigitChar(n)] else NatText(n / 10) + [DigitChar(n % 10)]
  }

  function IntText(i: int): string {
    if i < 0 then "-" + NatText(-i) else NatText(i)
  }

  /** The text of an operand. A float literal is written by its integer part. */
  function OperandText(a: Operand): string {
    match a
    case NoArg => ""
    case Int(i) => IntText(i)
    case Float(f) => IntText(f.Floor)
    case Str(s) => "\"" + s + "\""
    case Local(n) => "V_" + NatText(n)
    case Arg(n) => NatText(n)
    case Member(name) => name
    case Target(l) => "Label" + NatText(l)
  }

  /** The text rendering a string matcher searches in: mnemonic, then the operand. */
  function Render(i: Instr): string {
    if i.arg.NoArg? then i.op.Name() else i.op.Name() + " " + OperandText(i.arg)
  }
}
