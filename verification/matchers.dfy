/** The five matcher kinds a search pattern position can hold. */
module Matchers {
  import opened Instructions

  datatype Matcher =
    | Any                               // null: always matches
    | OpIs(op: OpCode)                  // an OpCode: is this the instruction's opcode
    | Exact(op: OpCode, arg: Operand)   // a CodeInstruction: opcode and operand both equal
    | RefersTo(member: string)          // a member reference: is the operand this reference
    | Mentions(text: string)            // a string: contained in the instruction's rendering

  /** `needle` occurs in `hay` at offset `k`. */
  predicate OccursAt(hay: string, needle: string, k: int) {
    0 <= k <= |hay| - |needle| && hay[k..k + |needle|] == needle
  }

  /** `needle` occurs in `hay` at some offset. */
  predicate Contains(hay: string, needle: string) {
    exists k | 0 <= k <= |hay| :: OccursAt(hay, needle, k)
  }

  predicate Accepts(m: Matcher, i: Instr) {
    match m
    case Any => true
    case OpIs(op) => i.op == op
    case Exact(op, arg) => i.op == op && i.arg == arg
    case RefersTo(member) => i.arg == Member(member)
    case Mentions(text) => Contains(Render(i), text)
  }

  /** A load of the field `m`, as `Instructions.Ldfld(typeof(...), ...)` builds it, used as
      a pattern element. */
  function Field(m: string): Matcher {
    Exact(Ldfld, Member(m))
  }

  /** The matcher a CodeInstruction stands for when it is passed as a pattern element. */
  function Like(i: Instr): Matcher {
    Exact(i.op, i.arg)
  }

  /** `a` accepts at least what `b` accepts. */
  ghost predicate Subsumes(a: Matcher, b: Matcher) {
    forall i :: Accepts(b, i) ==> Accepts(a, i)
  }

  /** The wildcard accepts every instruction, so it subsumes every matcher. */
  lemma AnySubsumesAll(m: Matcher)
    ensures Subsumes(Any, m)
  {
  }

  /** An opcode matcher ignores the operand: it accepts every instruction with its opcode,
      whatever operand and labels it carries, and nothing else. */
  lemma OpIsIgnoresOperand(op: OpCode, arg: Operand, labels: set<Label>, other: OpCode)
    ensures Accepts(OpIs(op), Instr(op, arg, labels))
    ensures other != op ==> !Accepts(OpIs(op), Instr(other, arg, labels))
  {
  }

  /** An exact matcher is the opcode matcher further restricted to one operand; a member
      matcher compares the operand alone, so it subsumes every exact matcher on that member. */
  lemma ExactRefinesOpAndMember(op: OpCode, arg: Operand, member: string)
    ensures Subsumes(OpIs(op), Exact(op, arg))
    ensures Subsumes(RefersTo(member), Exact(op, Member(member)))
    ensures forall other :: other != op ==> !Accepts(Exact(op, arg), Instr(other, arg, {}))
    ensures forall a :: a != arg ==> !Accepts(Exact(op, arg), Instr(op, a, {}))
  {
  }

  /** A CodeInstruction used as a pattern accepts itself, and every copy of itself that carries
      other labels, and rejects any instruction whose opcode or operand differs. */
  lemma LikeAcceptsCopies(i: Instr, j: Instr)
    ensures Accepts(Like(i), j) <==> j.op == i.op && j.arg == i.arg
    ensures Accepts(Like(i), i.(labels := j.labels))
  {
  }

  lemma PrefixContained(hay: string, needle: string)
    requires |needle| <= |hay| && hay[..|needle|] == needle
    ensures Contains(hay, needle)
  {
    assert hay[0..0 + |needle|] == hay[..|needle|];
    assert OccursAt(hay, needle, 0);
  }

  /** Textual matching is tolerant: the mnemonic of an opcode occurs in the rendering of
      every instruction with that opcode, so `Mentions(op.Name())` subsumes `OpIs(op)`;
      the empty string occurs in every rendering. */
  lemma MentionsNameSubsumesOpIs(op: OpCode)
    ensures Subsumes(Mentions(op.Name()), OpIs(op))
    ensures Subsumes(Mentions(""), Any)
  {
    forall i | Accepts(OpIs(op), i)
      ensures Accepts(Mentions(op.Name()), i)
    {
      var r := Render(i);
      assert r[..|op.Name()|] == op.Name();
      PrefixContained(r, op.Name());
    }
    forall i | Accepts(Any, i)
      ensures Accepts(Mentions(""), i)
    {
      PrefixContained(Render(i), "");
    }
  }

  /** Matching ignores the labels attached to an instruction, for every matcher that does not
      look at the text rendering; attaching a label therefore never changes a search result. */
  lemma AcceptsIgnoresLabels(m: Matcher, i: Instr, labels: set<Label>)
    requires !m.Mentions?
    ensures Accepts(m, i) <==> Accepts(m, i.(labels := labels))
  {
  }
}
