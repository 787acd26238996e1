/** InstructionRange: a window {start, length} over the shared instruction buffer, and the
    operations the patches use on it. Every edit returns the new buffer together with the
    range's own new bookkeeping; other ranges held by the caller are not adjusted. */
module Ranges {
  import opened Wrappers
  import opened Instructions
  import opened Matchers
  import opened Search
  import opened Labels

  datatype Range = Range(start: nat, length: nat) {
    function End(): nat { start + length }

    /** The empty range just past this one (`InstructionRange.End`). */
    function Tail(): Range { Range(start + length, 0) }

    predicate In(codes: seq<Instr>) { start + length <= |codes| }
  }

  /** The conditions a range operation raises. */
  datatype Failure =
    | PatternNotFound(from: int, pattern: seq<Matcher>)
    | InvalidRange(at: int, size: int)
    | NotABranch(position: nat)
    | UnresolvedLabel(missing: Label)
    | IncompatibleTarget(name: string)

  /** A buffer after an edit, with the edited range's new bookkeeping. */
  datatype Edited = Edited(codes: seq<Instr>, range: Range)

  /** `after` is `before` with `removed` instructions at `at` replaced by `inserted`:
      everything before `at` is unchanged, everything after the removed span is unchanged
      and shifted by |inserted| - removed. */
  ghost predicate Spliced(before: seq<Instr>, after: seq<Instr>, at: nat, removed: nat, inserted: seq<Instr>) {
    && at + removed <= |before|
    && |after| == |before| - removed + |inserted|
    && (forall k {:trigger after[k]} :: 0 <= k < at ==> after[k] == before[k])
    && (forall k :: 0 <= k < |inserted| ==> after[at + k] == inserted[k])
    && (forall k :: at + |inserted| <= k < |after| ==> after[k] == before[k + removed - |inserted|])
  }

  /** A splice is determined by its parameters. */
  lemma SplicedUnique(before: seq<Instr>, a1: seq<Instr>, a2: seq<Instr>, at: nat, removed: nat, inserted: seq<Instr>)
    requires Spliced(before, a1, at, removed, inserted) && Spliced(before, a2, at, removed, inserted)
    ensures a1 == a2
  {
    forall k | 0 <= k < |a1|
      ensures a1[k] == a2[k]
    {
      if k < at {
      } else if k < at + |inserted| {
        assert a1[at + (k - at)] == inserted[k - at];
      } else {
        var j := k + removed - |inserted|;
        assert a1[j - removed + |inserted|] == before[j];
      }
    }
  }

  /** AllCode(): the range over the whole method body. */
  function Whole(codes: seq<Instr>): Range {
    Range(0, |codes|)
  }

  /** BeginCode(): the empty range at the start of the method body. */
  function Begin(): Range {
    Range(0, 0)
  }

  function Window(codes: seq<Instr>, r: Range): seq<Instr>
    requires r.In(codes)
  {
    codes[r.start..r.End()]
  }

  /** range[i]: indexing is relative to the range's start and may reach outside it. */
  function At(codes: seq<Instr>, r: Range, i: int): (res: Result<Instr, Failure>)
    ensures res.Ok? <==> 0 <= r.start + i < |codes|
    ensures res.Ok? ==> res.value == codes[r.start + i]
  {
    if 0 <= r.start + i < |codes| then Ok(codes[r.start + i]) else Err(InvalidRange(r.start + i, 1))
  }

  /** range[i] = x. */
  function Put(codes: seq<Instr>, r: Range, i: int, x: Instr): (res: Result<seq<Instr>, Failure>)
    ensures res.Ok? <==> 0 <= r.start + i < |codes|
    ensures res.Ok? ==> Spliced(codes, res.value, r.start + i, 1, [x])
  {
    if 0 <= r.start + i < |codes| then Ok(codes[r.start + i := x]) else Err(InvalidRange(r.start + i, 1))
  }

  /** Forward search from `from` (FindCode searches from 0, FindNext from a range's end). */
  function Find(codes: seq<Instr>, ms: seq<Matcher>, from: nat): (res: Result<Range, Failure>)
    ensures res.Ok? ==> res.value.length == |ms| && from <= res.value.start
    ensures res.Ok? ==> MatchesAt(codes, ms, res.value.start)
    ensures res.Ok? ==> forall k :: from <= k < res.value.start ==> !MatchesAt(codes, ms, k)
    ensures res.Err? ==> res.error == PatternNotFound(from, ms)
    ensures res.Err? ==> forall k :: from <= k ==> !MatchesAt(codes, ms, k)
  {
    match FindFrom(codes, ms, from)
    case Some(i) => Ok(Range(i, |ms|))
    case None => Err(PatternNotFound(from, ms))
  }

  /** Backward search for the last window ending at or before `before`
      (FindCodeLast searches before the buffer's end). */
  function FindLast(codes: seq<Instr>, ms: seq<Matcher>, before: nat): (res: Result<Range, Failure>)
    ensures res.Ok? ==> res.value.length == |ms| && res.value.End() <= before
    ensures res.Ok? ==> MatchesAt(codes, ms, res.value.start)
    ensures res.Ok? ==> forall k :: res.value.start < k && k + |ms| <= before ==> !MatchesAt(codes, ms, k)
    ensures res.Err? ==> res.error == PatternNotFound(before, ms)
    ensures res.Err? ==> forall k :: k + |ms| <= before ==> !MatchesAt(codes, ms, k)
  {
    match FindBefore(codes, ms, before)
    case Some(i) => Ok(Range(i, |ms|))
    case None => Err(PatternNotFound(before, ms))
  }

  /** FindNext: the first match that starts at or after this range's end. */
  function FindNext(codes: seq<Instr>, r: Range, ms: seq<Matcher>): (res: Result<Range, Failure>)
    ensures res.Ok? ==> r.End() <= res.value.start && res.value.length == |ms|
    ensures res.Ok? ==> MatchesAt(codes, ms, res.value.start)
    ensures res.Ok? ==> forall k :: r.End() <= k < res.value.start ==> !MatchesAt(codes, ms, k)
    ensures res.Err? <==> forall k :: r.End() <= k ==> !MatchesAt(codes, ms, k)
  {
    Find(codes, ms, r.End())
  }

  /** Extend(matchers): search forward from the range's end and grow the range so that the
      match becomes its tail. */
  function Extend(codes: seq<Instr>, r: Range, ms: seq<Matcher>): (res: Result<Range, Failure>)
    ensures res.Ok? ==> res.value.start == r.start && r.End() + |ms| <= res.value.End()
    ensures res.Ok? ==> MatchesAt(codes, ms, res.value.End() - |ms|)
    ensures res.Ok? ==> forall k :: r.End() <= k < res.value.End() - |ms| ==> !MatchesAt(codes, ms, k)
    ensures res.Err? <==> forall k :: r.End() <= k ==> !MatchesAt(codes, ms, k)
    ensures res.Ok? ==> FindFrom(codes, ms, r.End()) == Some(res.value.End() - |ms|)
  {
    match Find(codes, ms, r.End())
    case Err(e) => Err(e)
    case Ok(m) =>
      assert m.End() - |ms| == m.start;
      Ok(Range(r.start, m.End() - r.start))
  }

  /** FindCode(start) followed by Extend(end): the block from the first match of `start` at
      or after `from` through the next match of `end` after it. */
  function FindBlock(codes: seq<Instr>, start: seq<Matcher>, end: seq<Matcher>, from: nat): (res: Result<Range, Failure>)
    ensures res.Ok? ==> res.value.In(codes) && from <= res.value.start && |start| + |end| <= res.value.length
    ensures res.Ok? ==> MatchesAt(codes, start, res.value.start)
    ensures res.Ok? ==> MatchesAt(codes, end, res.value.End() - |end|)
  {
    var first :- Find(codes, start, from);
    Extend(codes, first, end)
  }

  /** Extend(other range): grow this range up to the end of `other`. */
  function ExtendTo(r: Range, other: Range): (res: Result<Range, Failure>)
    ensures res.Ok? <==> r.start <= other.End()
    ensures res.Ok? ==> res.value.start == r.start && res.value.End() == other.End()
  {
    if r.start <= other.End() then Ok(Range(r.start, other.End() - r.start))
    else Err(InvalidRange(other.start, other.length))
  }

  /** ExtendBackwards(matchers): search backward from the range's start and grow the range
      so that the match becomes its head. */
  function ExtendBackwards(codes: seq<Instr>, r: Range, ms: seq<Matcher>): (res: Result<Range, Failure>)
    ensures res.Ok? ==> res.value.End() == r.End() && res.value.start + |ms| <= r.start
    ensures res.Ok? ==> MatchesAt(codes, ms, res.value.start)
    ensures res.Ok? ==> forall k :: res.value.start < k && k + |ms| <= r.start ==> !MatchesAt(codes, ms, k)
    ensures res.Err? <==> forall k :: k + |ms| <= r.start ==> !MatchesAt(codes, ms, k)
  {
    var m :- FindLast(codes, ms, r.start);
    Ok(Range(m.start, r.End() - m.start))
  }

  /** SubRange(offset, length): a window inside this one. */
  function SubRange(r: Range, offset: int, length: int): (res: Result<Range, Failure>)
    ensures res.Ok? <==> 0 <= offset && 0 <= length && offset + length <= r.length
    ensures res.Ok? ==> r.start <= res.value.start && res.value.End() <= r.End()
    ensures res.Ok? ==> res.value.start == r.start + offset && res.value.length == length
  {
    if 0 <= offset && 0 <= length && offset + length <= r.length then Ok(Range(r.start + offset, length))
    else Err(InvalidRange(r.start + offset, length))
  }

  /** Replace(xs): the window becomes exactly `xs`; the range now spans `xs`. */
  function Replace(codes: seq<Instr>, r: Range, xs: seq<Instr>): (res: Result<Edited, Failure>)
    ensures res.Ok? <==> r.In(codes)
    ensures res.Ok? ==> res.value.range == Range(r.start, |xs|)
    ensures res.Ok? ==> Spliced(codes, res.value.codes, r.start, r.length, xs)
  {
    if r.In(codes) then Ok(Edited(codes[..r.start] + xs + codes[r.End()..], Range(r.start, |xs|)))
    else Err(InvalidRange(r.start, r.length))
  }

  /** Remove(): the window is deleted; the range becomes empty at its former start. */
  function Remove(codes: seq<Instr>, r: Range): (res: Result<Edited, Failure>)
    ensures res.Ok? <==> r.In(codes)
    ensures res.Ok? ==> res.value.range == Range(r.start, 0) && |res.value.codes| == |codes| - r.length
    ensures res.Ok? ==> Spliced(codes, res.value.codes, r.start, r.length, [])
  {
    Replace(codes, r, [])
  }

  /** Prepend(xs): insert `xs` just before the window; the range grows to include them. */
  function Prepend(codes: seq<Instr>, r: Range, xs: seq<Instr>): (res: Result<Edited, Failure>)
    ensures res.Ok? <==> r.In(codes)
    ensures res.Ok? ==> res.value.range == Range(r.start, |xs| + r.length)
    ensures res.Ok? ==> Spliced(codes, res.value.codes, r.start, 0, xs)
  {
    if r.In(codes) then Ok(Edited(codes[..r.start] + xs + codes[r.start..], Range(r.start, |xs| + r.length)))
    else Err(InvalidRange(r.start, r.length))
  }

  /** Append(xs): insert `xs` just after the window; the range grows to include them. */
  function Append(codes: seq<Instr>, r: Range, xs: seq<Instr>): (res: Result<Edited, Failure>)
    ensures res.Ok? <==> r.In(codes)
    ensures res.Ok? ==> res.value.range == Range(r.start, r.length + |xs|)
    ensures res.Ok? ==> Spliced(codes, res.value.codes, r.End(), 0, xs)
  {
    if r.In(codes) then Ok(Edited(codes[..r.End()] + xs + codes[r.End()..], Range(r.start, r.length + |xs|)))
    else Err(InvalidRange(r.start, r.length))
  }

  /** Splice(offset, count, xs): replace `count` instructions at `offset` inside the window
      by `xs`; the range keeps its start and changes length by |xs| - count. */
  function Splice(codes: seq<Instr>, r: Range, offset: int, count: int, xs: seq<Instr>): (res: Result<Edited, Failure>)
    ensures res.Ok? <==> r.In(codes) && 0 <= offset && 0 <= count && offset + count <= r.length
    ensures res.Ok? ==> res.value.range == Range(r.start, r.length - count + |xs|)
    ensures res.Ok? ==> Spliced(codes, res.value.codes, r.start + offset, count, xs)
  {
    if r.In(codes) && 0 <= offset && 0 <= count && offset + count <= r.length then
      var at := r.start + offset;
      Ok(Edited(codes[..at] + xs + codes[at + count..], Range(r.start, r.length - count + |xs|)))
    else Err(InvalidRange(r.start + offset, count))
  }

  /** Follow(i): the instruction at `i` must be a branch; the result is the empty range at
      the instruction its label is attached to. */
  function Follow(codes: seq<Instr>, r: Range, i: int): (res: Result<Range, Failure>)
    ensures res.Ok? ==> 0 <= r.start + i < |codes| && codes[r.start + i].arg.Target?
    ensures res.Ok? ==> res.value.length == 0 && Resolve(codes, codes[r.start + i].arg.to) == Some(res.value.start)
    ensures res.Err? <==>
              || !(0 <= r.start + i < |codes|)
              || !codes[r.start + i].arg.Target?
              || Resolve(codes, codes[r.start + i].arg.to).None?
  {
    var branch :- At(codes, r, i);
    if !branch.arg.Target? then Err(NotABranch(r.start + i))
    else match Resolve(codes, branch.arg.to)
      case Some(p) => Ok(Range(p, 0))
      case None => Err(UnresolvedLabel(branch.arg.to))
  }

  /** AttachLabel(range[i]): mint a label and attach it to that instruction. */
  function AttachLabel(b: Buffer, r: Range, i: int): (res: Result<(Buffer, Label), Failure>)
    ensures res.Ok? <==> 0 <= r.start + i < |b.codes|
    ensures res.Ok? ==> res.value == Attach(b, r.start + i)
  {
    var _ :- At(b.codes, r, i);
    Ok(Attach(b, r.start + i))
  }

  /** ReplaceJump(i, target): every branch that jumps to a label of range[i] is redirected
      to a fresh label attached to `target`. */
  function ReplaceJump(b: Buffer, r: Range, i: int, t: Range, ti: int): (res: Result<Buffer, Failure>)
    ensures res.Ok? <==> 0 <= r.start + i < |b.codes| && 0 <= t.start + ti < |b.codes|
    ensures res.Ok? ==>
              var labelled := Attach(b, t.start + ti);
              res.value == labelled.0.(codes := Retarget(labelled.0.codes, b.codes[r.start + i].labels, labelled.1))
  {
    var old_target :- At(b.codes, r, i);
    var _ :- At(b.codes, t, ti);
    var labelled := Attach(b, t.start + ti);
    Ok(labelled.0.(codes := Retarget(labelled.0.codes, old_target.labels, labelled.1)))
  }

  /** FindCode(pattern).Replace(xs): the first occurrence of the pattern becomes `xs`. */
  function FindReplace(codes: seq<Instr>, ms: seq<Matcher>, xs: seq<Instr>): (res: Result<Edited, Failure>)
    ensures res.Err? <==> forall k :: !MatchesAt(codes, ms, k)
    ensures res.Ok? ==> FindFrom(codes, ms, 0).Some?
    ensures res.Ok? ==> Spliced(codes, res.value.codes, FindFrom(codes, ms, 0).value, |ms|, xs)
  {
    var code :- Find(codes, ms, 0);
    Ok(Replace(codes, code, xs).value)
  }
}
