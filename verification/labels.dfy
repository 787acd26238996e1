/** Labels: the allocator that mints them (the IL generator), attaching a label to an
    instruction, resolving a label to the instruction that carries it, and redirecting the
    branches that jump to a set of labels. */
module Labels {
  import opened Wrappers
  import opened Instructions

  /** The code being patched together with its label allocator; `next` is the label the
      generator mints next. */
  datatype Buffer = Buffer(codes: seq<Instr>, next: Label)

  /** `i` carries `l` as a jump target or jumps to it. */
  predicate Uses(i: Instr, l: Label) {
    l in i.labels || i.arg == Target(l)
  }

  /** Every label in the buffer was minted before `next`: the generator's invariant, which
      makes each label it mints fresh. */
  ghost predicate LabelsBelow(codes: seq<Instr>, next: Label) {
    forall k, l: Label :: 0 <= k < |codes| && Uses(codes[k], l) ==> l < next
  }

  /** Exactly one instruction, the one at `p`, carries `l`. */
  ghost predicate CarriedOnlyAt(codes: seq<Instr>, l: Label, p: nat) {
    && p < |codes|
    && l in codes[p].labels
    && forall k :: 0 <= k < |codes| && k != p ==> l !in codes[k].labels
  }

  /** attachLabel: mint a label and attach it to the instruction at `pos`. */
  function Attach(b: Buffer, pos: nat): (r: (Buffer, Label))
    requires pos < |b.codes|
    ensures r.1 == b.next && r.0.next == b.next + 1
    ensures |r.0.codes| == |b.codes|
    ensures r.0.codes[pos] == b.codes[pos].(labels := b.codes[pos].labels + {r.1})
    ensures forall k :: 0 <= k < |b.codes| && k != pos ==> r.0.codes[k] == b.codes[k]
    ensures LabelsBelow(b.codes, b.next) ==>
              && (forall k :: 0 <= k < |b.codes| ==> !Uses(b.codes[k], r.1))
              && CarriedOnlyAt(r.0.codes, r.1, pos)
              && LabelsBelow(r.0.codes, r.0.next)
  {
    var l := b.next;
    var target := b.codes[pos];
    var codes := b.codes[pos := target.(labels := target.labels + {l})];
    AttachKeepsFresh(b.codes, b.next, pos, codes);
    (Buffer(codes, b.next + 1), l)
  }

  /** Attaching the next label keeps every label below the new allocator state, and makes
      the attached label the only one of its kind. */
  lemma AttachKeepsFresh(codes: seq<Instr>, next: Label, pos: nat, codes': seq<Instr>)
    requires pos < |codes| && codes' == codes[pos := codes[pos].(labels := codes[pos].labels + {next})]
    ensures LabelsBelow(codes, next) ==>
              && (forall k :: 0 <= k < |codes| ==> !Uses(codes[k], next))
              && CarriedOnlyAt(codes', next, pos)
              && LabelsBelow(codes', next + 1)
  {
    if LabelsBelow(codes, next) {
      forall k | 0 <= k < |codes|
        ensures !Uses(codes[k], next)
      {
      }
      forall k | 0 <= k < |codes'| && k != pos
        ensures next !in codes'[k].labels
      {
        assert codes'[k] == codes[k];
        assert !Uses(codes[k], next);
      }
      forall k, l: Label | 0 <= k < |codes'| && Uses(codes'[k], l)
        ensures l < next + 1
      {
        if k == pos {
          if l != next {
            assert Uses(codes[k], l);
          }
        } else {
          assert codes'[k] == codes[k];
        }
      }
    }
  }

  /** The first position at or after `from` whose instruction carries `l`. */
  function FindLabel(codes: seq<Instr>, l: Label, from: nat): (r: Option<nat>)
    ensures r.Some? ==> from <= r.value < |codes| && l in codes[r.value].labels
    ensures r.Some? ==> forall k :: from <= k < r.value ==> l !in codes[k].labels
    ensures r.None? ==> forall k :: from <= k < |codes| ==> l !in codes[k].labels
    decreases |codes| - from
  {
    if from >= |codes| then None
    else if l in codes[from].labels then Some(from)
    else FindLabel(codes, l, from + 1)
  }

  /** The position a branch to `l` lands on. */
  function Resolve(codes: seq<Instr>, l: Label): Option<nat> {
    FindLabel(codes, l, 0)
  }

  /** A label carried by exactly one instruction resolves to it. */
  lemma ResolveUnique(codes: seq<Instr>, l: Label, p: nat)
    requires CarriedOnlyAt(codes, l, p)
    ensures Resolve(codes, l) == Some(p)
  {
  }

  /** A freshly attached label resolves to the instruction it was attached to. */
  lemma AttachResolves(b: Buffer, pos: nat)
    requires pos < |b.codes| && LabelsBelow(b.codes, b.next)
    ensures Resolve(Attach(b, pos).0.codes, Attach(b, pos).1) == Some(pos)
  {
    ResolveUnique(Attach(b, pos).0.codes, Attach(b, pos).1, pos);
  }

  /** A branch into `from` now jumps to `to`; every other instruction is left alone. */
  function Redirect(i: Instr, from: set<Label>, to: Label): Instr {
    if i.arg.Target? && i.arg.to in from then i.(arg := Target(to)) else i
  }

  function Retarget(codes: seq<Instr>, from: set<Label>, to: Label): (r: seq<Instr>)
    ensures |r| == |codes|
    ensures forall k :: 0 <= k < |codes| ==> r[k].op == codes[k].op && r[k].labels == codes[k].labels
    ensures forall k :: 0 <= k < |codes| && codes[k].arg.Target? && codes[k].arg.to in from ==>
              r[k].arg == Target(to)
    ensures forall k :: 0 <= k < |codes| && !(codes[k].arg.Target? && codes[k].arg.to in from) ==>
              r[k] == codes[k]
  {
    seq(|codes|, k requires 0 <= k < |codes| => Redirect(codes[k], from, to))
  }
}
