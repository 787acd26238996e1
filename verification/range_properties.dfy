/** Properties relating the range operations to one another and to search: reads after an
    edit, the frame of an edit, how a repeated search advances past an edited match, and how
    labels and jumps survive edits. */
module RangeProperties {
  import opened Wrappers
  import opened Instructions
  import opened Matchers
  import opened Search
  import opened Labels
  import opened Ranges

  /** Replacing a window by its own contents changes nothing. */
  lemma ReplaceWindowIsIdentity(codes: seq<Instr>, r: Range)
    requires r.In(codes)
    ensures Replace(codes, r, Window(codes, r)) == Ok(Edited(codes, r))
  {
    assert codes[..r.start] + codes[r.start..r.End()] + codes[r.End()..] == codes;
  }

  /** Prepend and Append are Replace with the old window kept after, respectively before,
      the inserted instructions. */
  lemma InsertIsReplace(codes: seq<Instr>, r: Range, xs: seq<Instr>)
    requires r.In(codes)
    ensures Prepend(codes, r, xs) == Replace(codes, r, xs + Window(codes, r))
    ensures Append(codes, r, xs) == Replace(codes, r, Window(codes, r) + xs)
  {
    var w := Window(codes, r);
    assert codes[..r.start] + xs + codes[r.start..] == codes[..r.start] + (xs + w) + codes[r.End()..] by {
      assert codes[r.start..] == w + codes[r.End()..];
    }
    assert codes[..r.End()] + xs + codes[r.End()..] == codes[..r.start] + (w + xs) + codes[r.End()..] by {
      assert codes[..r.End()] == codes[..r.start] + w;
    }
  }

  /** Splice(offset, count, xs) edits the buffer exactly as Replace(xs) on
      SubRange(offset, count) does, while the range keeps covering the whole edited window. */
  lemma SpliceIsReplaceOfSubRange(codes: seq<Instr>, r: Range, offset: nat, count: nat, xs: seq<Instr>)
    requires r.In(codes) && offset + count <= r.length
    ensures SubRange(r, offset, count).Ok?
    ensures Splice(codes, r, offset, count, xs).Ok?
    ensures Replace(codes, SubRange(r, offset, count).value, xs).Ok?
    ensures Splice(codes, r, offset, count, xs).value.codes ==
            Replace(codes, SubRange(r, offset, count).value, xs).value.codes
    ensures Splice(codes, r, offset, count, xs).value.range.End() ==
            r.End() - count + |xs|
  {
    var s := SubRange(r, offset, count).value;
    var a := Splice(codes, r, offset, count, xs).value.codes;
    var b := Replace(codes, s, xs).value.codes;
    SplicedUnique(codes, a, b, r.start + offset, count, xs);
  }

  /** After an edit, reads through the edited range see the new contents, and reads just
      outside it see the instructions that bordered the old window. */
  lemma ReadsAfterReplace(codes: seq<Instr>, r: Range, xs: seq<Instr>)
    requires r.In(codes)
    ensures Replace(codes, r, xs).Ok?
    ensures var e := Replace(codes, r, xs).value;
            && (forall k :: 0 <= k < |xs| ==> At(e.codes, e.range, k) == Ok(xs[k]))
            && At(e.codes, e.range, -1) == At(codes, r, -1)
            && (At(e.codes, e.range.Tail(), 0).Ok? <==> At(codes, r.Tail(), 0).Ok?)
            && (At(codes, r.Tail(), 0).Ok? ==> At(e.codes, e.range.Tail(), 0) == At(codes, r.Tail(), 0))
  {
    var e := Replace(codes, r, xs).value;
    forall k | 0 <= k < |xs|
      ensures At(e.codes, e.range, k) == Ok(xs[k])
    {
      assert e.codes[r.start + k] == xs[k];
    }
    if r.End() < |codes| {
      assert e.codes[r.End() - r.length + |xs|] == codes[r.End()];
    }
  }

  /** `InstructionRange.End` is the empty range past the window: End[-1] is the window's last
      instruction and End[0] the one after it. */
  lemma TailIndexing(codes: seq<Instr>, r: Range)
    requires r.In(codes) && 0 < r.length
    ensures At(codes, r.Tail(), -1) == Ok(codes[r.End() - 1]) == At(codes, r, r.length - 1)
    ensures At(codes, r.Tail(), 0) == At(codes, r, r.length)
    ensures At(codes, r.Tail(), 0).Ok? <==> r.End() < |codes|
  {
  }

  /** A sub-range sees the corresponding slice of its parent's window, and indexes into it
      with its own offset. */
  lemma SubRangeWindow(codes: seq<Instr>, r: Range, offset: int, length: int, k: int)
    requires r.In(codes) && SubRange(r, offset, length).Ok?
    ensures var s := SubRange(r, offset, length).value;
            && s.In(codes)
            && Window(codes, s) == Window(codes, r)[offset..offset + length]
            && At(codes, s, k) == At(codes, r, offset + k)
  {
  }

  /** A splice leaves every match that lies wholly before the edit, and every match that
      lies wholly after it (shifted by the change in length), as it was. */
  lemma MatchesOutsideSplice(before: seq<Instr>, after: seq<Instr>, at: nat, removed: nat,
                             inserted: seq<Instr>, ms: seq<Matcher>, i: int)
    requires Spliced(before, after, at, removed, inserted)
    ensures 0 <= i && i + |ms| <= at ==> (MatchesAt(before, ms, i) <==> MatchesAt(after, ms, i))
    ensures at + removed <= i ==>
              (MatchesAt(before, ms, i) <==> MatchesAt(after, ms, i - removed + |inserted|))
  {
    if 0 <= i && i + |ms| <= at {
      forall j | 0 <= j < |ms|
        ensures AcceptedAt(after, ms, i, j) <==> AcceptedAt(before, ms, i, j)
      {
        assert after[i + j] == before[i + j];
      }
    }
    if at + removed <= i {
      var i' := i - removed + |inserted|;
      if i + |ms| <= |before| {
        forall j | 0 <= j < |ms|
          ensures AcceptedAt(after, ms, i', j) <==> AcceptedAt(before, ms, i, j)
        {
          assert after[(i + j) - removed + |inserted|] == before[i + j];
        }
      }
    }
  }

  /** Repeating a search after replacing its first match `r` by `xs` moves on: the new first
      match does not lie wholly before the edit, a new match past the inserted code is an
      original occurrence after the old match, and a failed repeat means the pattern never
      occurred after the old match. With `xs` empty this is the Remove loop of
      HarvestWithScythe. */
  lemma FindAfterReplace(codes: seq<Instr>, ms: seq<Matcher>, xs: seq<Instr>, r: Range, once: seq<Instr>)
    requires |ms| > 0 && Find(codes, ms, 0) == Ok(r)
    requires Spliced(codes, once, r.start, r.length, xs)
    ensures match Find(once, ms, 0)
            case Ok(n) =>
              && r.start < n.End()
              && (r.start + |xs| <= n.start ==> MatchesAt(codes, ms, n.start - |xs| + r.length))
            case Err(_) =>
              forall k :: r.End() <= k ==> !MatchesAt(codes, ms, k)
  {
    match Find(once, ms, 0)
    case Ok(n) =>
      if n.End() <= r.start {
        MatchesOutsideSplice(codes, once, r.start, r.length, xs, ms, n.start);
        assert false;
      }
      if r.start + |xs| <= n.start {
        MatchesOutsideSplice(codes, once, r.start, r.length, xs, ms, n.start - |xs| + r.length);
      }
    case Err(_) =>
      forall k | r.End() <= k
        ensures !MatchesAt(codes, ms, k)
      {
        MatchesOutsideSplice(codes, once, r.start, r.length, xs, ms, k);
      }
  }

  /** FindAfterReplace for a repeat that succeeds, stated on offsets: the new first match `q`
      ends past the old one `p`, and a new match wholly past the inserted code lies `shift`
      places before an original match. */
  lemma RepeatMovesOn(codes: seq<Instr>, once: seq<Instr>, ms: seq<Matcher>, xs: seq<Instr>, p: nat, q: nat, shift: int)
    requires |ms| > 0 && FindFrom(codes, ms, 0) == Some(p) && FindFrom(once, ms, 0) == Some(q)
    requires Spliced(codes, once, p, |ms|, xs) && shift == |ms| - |xs|
    ensures p < q + |ms|
    ensures p + |xs| <= q ==> MatchesAt(codes, ms, q + shift)
  {
    if q + |ms| <= p {
      MatchesOutsideSplice(codes, once, p, |ms|, xs, ms, q);
      assert false;
    }
    if p + |xs| <= q {
      MatchesOutsideSplice(codes, once, p, |ms|, xs, ms, q + shift);
    }
  }

  /** The first match removed, the next search finds a window that overlaps the removed
      one's place or lies after it, and then it was a match of the original code. */
  lemma RemovedTwice(codes: seq<Instr>, once: seq<Instr>, ms: seq<Matcher>)
    requires |ms| > 0 && FindFrom(codes, ms, 0).Some? && FindFrom(once, ms, 0).Some?
    requires Spliced(codes, once, FindFrom(codes, ms, 0).value, |ms|, [])
    ensures var p, q := FindFrom(codes, ms, 0).value, FindFrom(once, ms, 0).value;
            && p < q + |ms|
            && (p <= q ==> MatchesAt(codes, ms, q + |ms|))
  {
    RepeatMovesOn(codes, once, ms, [], FindFrom(codes, ms, 0).value, FindFrom(once, ms, 0).value, |ms|);
  }

  /** A block starts at the first match of `start`, ends at the first match of `end` after
      it, and is not found exactly when either search fails. */
  lemma FindBlockSpec(codes: seq<Instr>, start: seq<Matcher>, end: seq<Matcher>, from: nat)
    ensures FindBlock(codes, start, end, from).Ok? ==>
              var w := FindBlock(codes, start, end, from).value;
              && FindFrom(codes, start, from) == Some(w.start)
              && forall k :: w.start + |start| <= k < w.End() - |end| ==> !MatchesAt(codes, end, k)
    ensures FindBlock(codes, start, end, from).Err? <==>
              || (forall k :: from <= k ==> !MatchesAt(codes, start, k))
              || (forall k :: FindFrom(codes, start, from).value + |start| <= k ==> !MatchesAt(codes, end, k))
  {
    var first := Find(codes, start, from);
    if first.Ok? {
      assert first.value == Range(FindFrom(codes, start, from).value, |start|);
    }
  }

  /** A label carried only at `p` outside the edited span is, after the splice, carried only
      at `p`'s new position, provided no inserted instruction carries it. */
  lemma LabelSurvivesSplice(before: seq<Instr>, after: seq<Instr>, at: nat, removed: nat,
                            inserted: seq<Instr>, l: Label, p: nat)
    requires Spliced(before, after, at, removed, inserted)
    requires CarriedOnlyAt(before, l, p) && (p < at || at + removed <= p)
    requires forall k :: 0 <= k < |inserted| ==> l !in inserted[k].labels
    ensures p < at ==> CarriedOnlyAt(after, l, p)
    ensures at + removed <= p ==> CarriedOnlyAt(after, l, p - removed + |inserted|)
  {
    var q := if p < at then p else p - removed + |inserted|;
    assert after[q] == before[p];
    forall k | 0 <= k < |after| && k != q
      ensures l !in after[k].labels
    {
      if k < at {
      } else if k < at + |inserted| {
        assert after[at + (k - at)] == inserted[k - at];
      } else {
        var j := k + removed - |inserted|;
        assert after[j - removed + |inserted|] == before[j];
      }
    }
  }

  /** A label carried only at `p` keeps marking that instruction through a splice that
      leaves it in place and inserts a branch to the label: following the inserted branch
      lands on `p`'s new position. This is how an AttachLabel taken before Prepend, Append
      or Replace stays a valid jump target for the inserted code. */
  lemma FollowInsertedJump(before: seq<Instr>, after: seq<Instr>, at: nat, removed: nat,
                           inserted: seq<Instr>, l: Label, p: nat, m: nat)
    requires Spliced(before, after, at, removed, inserted)
    requires CarriedOnlyAt(before, l, p) && (p < at || at + removed <= p)
    requires forall k :: 0 <= k < |inserted| ==> l !in inserted[k].labels
    requires m < |inserted| && inserted[m].arg == Target(l)
    ensures Follow(after, Range(at, 0), m) == Ok(Range(if p < at then p else p - removed + |inserted|, 0))
  {
    LabelSurvivesSplice(before, after, at, removed, inserted, l, p);
    assert after[at + m] == inserted[m];
    ResolveUnique(after, l, if p < at then p else p - removed + |inserted|);
  }

  /** ReplaceJump(i, target): every branch that jumped to range[i] now follows to `target`;
      every other branch still follows to where it did; no opcode and no other operand
      changes, and the buffer keeps its length. */
  lemma ReplaceJumpRedirects(b: Buffer, r: Range, i: int, t: Range, ti: int, k: nat)
    requires LabelsBelow(b.codes, b.next)
    requires ReplaceJump(b, r, i, t, ti).Ok? && k < |b.codes|
    ensures var b' := ReplaceJump(b, r, i, t, ti).value;
            && |b'.codes| == |b.codes|
            && b'.codes[k].op == b.codes[k].op
            && (b.codes[k].arg.Target? && b.codes[k].arg.to in b.codes[r.start + i].labels ==>
                  Follow(b'.codes, Range(k, 0), 0) == Ok(Range(t.start + ti, 0)))
            && (!(b.codes[k].arg.Target? && b.codes[k].arg.to in b.codes[r.start + i].labels) ==>
                  b'.codes[k].arg == b.codes[k].arg &&
                  Follow(b'.codes, Range(k, 0), 0) == Follow(b.codes, Range(k, 0), 0))
  {
    var pos := t.start + ti;
    var labelled := Attach(b, pos);
    var l := labelled.1;
    var b' := ReplaceJump(b, r, i, t, ti).value;
    var old_labels := b.codes[r.start + i].labels;
    assert b'.codes == Retarget(labelled.0.codes, old_labels, l);
    assert CarriedOnlyAt(labelled.0.codes, l, pos);
    assert CarriedOnlyAt(b'.codes, l, pos);
    ResolveUnique(b'.codes, l, pos);
    if !(b.codes[k].arg.Target? && b.codes[k].arg.to in old_labels) {
      if b.codes[k].arg.Target? {
        var y := b.codes[k].arg.to;
        assert Uses(b.codes[k], y);
        ResolveAfterAttach(b, pos, y, b'.codes);
      }
    }
  }

  /** ReplaceJump keeps the generator's invariant, and the label it mints is carried by the
      target instruction alone. */
  lemma ReplaceJumpKeepsLabels(b: Buffer, r: Range, i: int, t: Range, ti: int)
    requires LabelsBelow(b.codes, b.next) && ReplaceJump(b, r, i, t, ti).Ok?
    ensures var b' := ReplaceJump(b, r, i, t, ti).value;
            && LabelsBelow(b'.codes, b'.next)
            && CarriedOnlyAt(b'.codes, b.next, t.start + ti)
  {
    var labelled := Attach(b, t.start + ti);
    var b' := ReplaceJump(b, r, i, t, ti).value;
    assert b'.codes == Retarget(labelled.0.codes, b.codes[r.start + i].labels, labelled.1);
    forall k, l: Label | 0 <= k < |b'.codes| && Uses(b'.codes[k], l)
      ensures l < b'.next
    {
      assert Uses(labelled.0.codes[k], l) || l == labelled.1;
    }
  }

  /** Attaching a fresh label, and then redirecting branches, does not change where any
      older label resolves. */
  lemma ResolveAfterAttach(b: Buffer, pos: nat, y: Label, codes': seq<Instr>)
    requires pos < |b.codes| && y < b.next
    requires |codes'| == |b.codes|
    requires forall k :: 0 <= k < |b.codes| ==> codes'[k].labels == Attach(b, pos).0.codes[k].labels
    ensures Resolve(codes', y) == Resolve(b.codes, y)
  {
    forall k | 0 <= k < |b.codes|
      ensures y in codes'[k].labels <==> y in b.codes[k].labels
    {
    }
    LabelsAgree(codes', b.codes, y, 0);
  }

  lemma {:induction false} LabelsAgree(a: seq<Instr>, c: seq<Instr>, y: Label, from: nat)
    requires |a| == |c|
    requires forall k :: 0 <= k < |a| ==> (y in a[k].labels <==> y in c[k].labels)
    ensures FindLabel(a, y, from) == FindLabel(c, y, from)
    decreases |a| - from
  {
    if from < |a| && y !in a[from].labels {
      LabelsAgree(a, c, y, from + 1);
    }
  }

  /** A branch target at or past an edited span keeps being where its label resolves: the
      first instruction carrying `l` stays the first one, shifted by the splice, as long as
      the inserted code carries no label `l`. */
  lemma ResolvePastSplice(before: seq<Instr>, after: seq<Instr>, at: nat, removed: nat,
                          inserted: seq<Instr>, l: Label, p: nat)
    requires Spliced(before, after, at, removed, inserted)
    requires Resolve(before, l) == Some(p) && at + removed <= p
    requires forall k :: 0 <= k < |inserted| ==> l !in inserted[k].labels
    ensures Resolve(after, l) == Some(p - removed + |inserted|)
  {
    var q := p - removed + |inserted|;
    assert after[q] == before[p];
    forall k | 0 <= k < q
      ensures l !in after[k].labels
    {
      if k < at {
      } else if k < at + |inserted| {
        assert after[at + (k - at)] == inserted[k - at];
      } else {
        var j := k + removed - |inserted|;
        assert after[j - removed + |inserted|] == before[j];
      }
    }
  }

  /** A search that starts at or past an edited span finds the same match, shifted by the
      edit: the edit neither creates nor destroys matches there. */
  lemma FindPastSplice(before: seq<Instr>, after: seq<Instr>, at: nat, removed: nat,
                       inserted: seq<Instr>, ms: seq<Matcher>, from: nat)
    requires Spliced(before, after, at, removed, inserted) && at + removed <= from
    ensures Find(after, ms, from - removed + |inserted|).Ok? <==> Find(before, ms, from).Ok?
    ensures Find(before, ms, from).Ok? ==>
              Find(after, ms, from - removed + |inserted|).value ==
              Range(Find(before, ms, from).value.start - removed + |inserted|, |ms|)
  {
    FoundPastSplice(before, after, at, removed, inserted, ms, from);
    FoundAtPastSplice(before, after, at, removed, inserted, ms, from);
  }

  /** The search past a splice succeeds in the edited code exactly when it does in the original. */
  lemma FoundPastSplice(before: seq<Instr>, after: seq<Instr>, at: nat, removed: nat,
                        inserted: seq<Instr>, ms: seq<Matcher>, from: nat)
    requires Spliced(before, after, at, removed, inserted) && at + removed <= from
    ensures Find(after, ms, from - removed + |inserted|).Ok? <==> Find(before, ms, from).Ok?
  {
    FirstMatchMovesOn(before, after, at, removed, inserted, ms, from);
    FirstMatchMovesBack(before, after, at, removed, inserted, ms, from - removed + |inserted|);
    FindShiftFound(before, after, ms, from, removed, |inserted|);
  }

  /** The search past a splice finds the original's first match, shifted by the edit. */
  lemma FoundAtPastSplice(before: seq<Instr>, after: seq<Instr>, at: nat, removed: nat,
                          inserted: seq<Instr>, ms: seq<Matcher>, from: nat)
    requires Spliced(before, after, at, removed, inserted) && at + removed <= from
    ensures Find(before, ms, from).Ok? ==>
              Find(after, ms, from - removed + |inserted|) ==
              Ok(Range(Find(before, ms, from).value.start - removed + |inserted|, |ms|))
  {
    FirstMatchMovesOn(before, after, at, removed, inserted, ms, from);
    FirstMatchMovesBack(before, after, at, removed, inserted, ms, from - removed + |inserted|);
    FindShiftAt(before, after, ms, from, removed, |inserted|);
  }

  /** The first match past a splice in the original code is a match of the edited code,
      and the first match past the splice in the edited code is a match of the original. */
  lemma FirstMatchesAcrossSplice(before: seq<Instr>, after: seq<Instr>, at: nat, removed: nat,
                                 inserted: seq<Instr>, ms: seq<Matcher>, from: nat)
    requires Spliced(before, after, at, removed, inserted) && at + removed <= from
    ensures Find(before, ms, from).Ok? ==>
              MatchesAt(after, ms, Find(before, ms, from).value.start - removed + |inserted|)
    ensures Find(after, ms, from - removed + |inserted|).Ok? ==>
              MatchesAt(before, ms, Find(after, ms, from - removed + |inserted|).value.start + removed - |inserted|)
  {
    FirstMatchMovesOn(before, after, at, removed, inserted, ms, from);
    FirstMatchMovesBack(before, after, at, removed, inserted, ms, from - removed + |inserted|);
  }

  /** The first match past a splice in the original code is a match of the edited code. */
  lemma FirstMatchMovesOn(before: seq<Instr>, after: seq<Instr>, at: nat, removed: nat,
                          inserted: seq<Instr>, ms: seq<Matcher>, from: nat)
    requires Spliced(before, after, at, removed, inserted) && at + removed <= from
    ensures Find(before, ms, from).Ok? ==>
              MatchesAt(after, ms, Find(before, ms, from).value.start - removed + |inserted|)
  {
    var rb := Find(before, ms, from);
    if rb.Ok? {
      MatchMovesPastSplice(before, after, at, removed, inserted, ms, rb.value.start);
    }
  }

  /** The first match past the inserted code in the edited code is a match of the original. */
  lemma FirstMatchMovesBack(before: seq<Instr>, after: seq<Instr>, at: nat, removed: nat,
                            inserted: seq<Instr>, ms: seq<Matcher>, from: nat)
    requires Spliced(before, after, at, removed, inserted) && at + |inserted| <= from
    ensures Find(after, ms, from).Ok? ==>
              MatchesAt(before, ms, Find(after, ms, from).value.start + removed - |inserted|)
  {
    var ra := Find(after, ms, from);
    if ra.Ok? {
      MatchMovesBackPastSplice(before, after, at, removed, inserted, ms, ra.value.start);
    }
  }

  /** A match of the original code past the edited span is a match of the edited code. */
  lemma MatchMovesPastSplice(before: seq<Instr>, after: seq<Instr>, at: nat, removed: nat,
                             inserted: seq<Instr>, ms: seq<Matcher>, i: int)
    requires Spliced(before, after, at, removed, inserted) && at + removed <= i
    requires MatchesAt(before, ms, i)
    ensures MatchesAt(after, ms, i - removed + |inserted|)
  {
    MatchesOutsideSplice(before, after, at, removed, inserted, ms, i);
  }

  /** A match of the edited code past the inserted code is a match of the original code. */
  lemma MatchMovesBackPastSplice(before: seq<Instr>, after: seq<Instr>, at: nat, removed: nat,
                                 inserted: seq<Instr>, ms: seq<Matcher>, j: int)
    requires Spliced(before, after, at, removed, inserted) && at + |inserted| <= j
    requires MatchesAt(after, ms, j)
    ensures MatchesAt(before, ms, j + removed - |inserted|)
  {
    MatchesAfterSplice(before, after, at, removed, inserted, ms, j);
  }

  /** A match that lies wholly after a splice, seen from the edited code. */
  lemma MatchesAfterSplice(before: seq<Instr>, after: seq<Instr>, at: nat, removed: nat,
                           inserted: seq<Instr>, ms: seq<Matcher>, j: int)
    requires Spliced(before, after, at, removed, inserted) && at + |inserted| <= j
    ensures MatchesAt(after, ms, j) <==> MatchesAt(before, ms, j + removed - |inserted|)
  {
    var i := j + removed - |inserted|;
    if j + |ms| <= |after| {
      forall t | 0 <= t < |ms|
        ensures AcceptedAt(after, ms, j, t) <==> AcceptedAt(before, ms, i, t)
      {
        assert after[j + t] == before[(j + t) + removed - |inserted|];
      }
    }
  }

  /** Two searches whose first matches are each also a match of the other code at the
      shifted position both find a match or both fail. */
  lemma FindShiftFound(a: seq<Instr>, b: seq<Instr>, ms: seq<Matcher>, from: nat, removed: nat, added: nat)
    requires removed <= from
    requires Find(a, ms, from).Ok? ==> MatchesAt(b, ms, Find(a, ms, from).value.start - removed + added)
    requires Find(b, ms, from - removed + added).Ok? ==>
               MatchesAt(a, ms, Find(b, ms, from - removed + added).value.start + removed - added)
    ensures Find(b, ms, from - removed + added).Ok? <==> Find(a, ms, from).Ok?
  {
  }

  /** Two such searches find their first matches at the same place up to the shift. */
  lemma FindShiftAt(a: seq<Instr>, b: seq<Instr>, ms: seq<Matcher>, from: nat, removed: nat, added: nat)
    requires removed <= from
    requires Find(a, ms, from).Ok? ==> MatchesAt(b, ms, Find(a, ms, from).value.start - removed + added)
    requires Find(b, ms, from - removed + added).Ok? ==>
               MatchesAt(a, ms, Find(b, ms, from - removed + added).value.start + removed - added)
    ensures Find(a, ms, from).Ok? ==>
              Find(b, ms, from - removed + added) == Ok(Range(Find(a, ms, from).value.start - removed + added, |ms|))
  {
    var ra, rb := Find(a, ms, from), Find(b, ms, from - removed + added);
    if ra.Ok? {
      var i := ra.value.start;
      assert rb.Ok?;
      var j := rb.value.start;
      assert j <= i - removed + added;
      assert i <= j + removed - added;
    }
  }

  /** Extending a range that lies past a splice finds the same tail, shifted by the change
      in length. */
  lemma ExtendPastSplice(before: seq<Instr>, after: seq<Instr>, at: nat, removed: nat,
                         inserted: seq<Instr>, r: Range, ms: seq<Matcher>)
    requires Spliced(before, after, at, removed, inserted) && at + removed <= r.start
    ensures var moved := Range(r.start - removed + |inserted|, r.length);
            Extend(after, moved, ms).Ok? <==> Extend(before, r, ms).Ok?
    ensures var moved := Range(r.start - removed + |inserted|, r.length);
            Extend(before, r, ms).Ok? ==>
              Extend(after, moved, ms).value ==
              Range(moved.start, Extend(before, r, ms).value.length)
  {
    FindPastSplice(before, after, at, removed, inserted, ms, r.End());
  }

  /** After a replacement, the next match past the new code is the next match past the old
      window, shifted by the change in length. */
  lemma FindNextAfterReplace(codes: seq<Instr>, w: Range, xs: seq<Instr>, ms: seq<Matcher>)
    requires w.In(codes)
    ensures var e1 := Replace(codes, w, xs).value;
            FindNext(e1.codes, e1.range, ms).Ok? <==> FindNext(codes, w, ms).Ok?
    ensures var e1 := Replace(codes, w, xs).value;
            FindNext(codes, w, ms).Ok? ==>
              FindNext(e1.codes, e1.range, ms).value ==
              Range(FindNext(codes, w, ms).value.start - w.length + |xs|, |ms|)
  {
    var e1 := Replace(codes, w, xs).value;
    FindPastSplice(codes, e1.codes, w.start, w.length, xs, ms, w.End());
    assert e1.range.End() == w.End() - w.length + |xs|;
  }

  /** After a replacement, the block found by searching past the new code for `start` and
      extending to `end` is the block found the same way in the original code, shifted by
      the change in length. */
  lemma ExtendNextAfterReplace(codes: seq<Instr>, w: Range, xs: seq<Instr>, start: seq<Matcher>, end: seq<Matcher>)
    requires w.In(codes)
    ensures var e1 := Replace(codes, w, xs).value;
            var a := FindNext(e1.codes, e1.range, start);
            var b := FindNext(codes, w, start);
            && (a.Ok? <==> b.Ok?)
            && (b.Ok? ==> (Extend(e1.codes, a.value, end).Ok? <==> Extend(codes, b.value, end).Ok?))
            && (b.Ok? && Extend(codes, b.value, end).Ok? ==>
                  Extend(e1.codes, a.value, end).value ==
                  Range(Extend(codes, b.value, end).value.start - w.length + |xs|, Extend(codes, b.value, end).value.length))
  {
    var e1 := Replace(codes, w, xs).value;
    FindNextAfterReplace(codes, w, xs, start);
    var b := FindNext(codes, w, start);
    if b.Ok? {
      ExtendPastSplice(codes, e1.codes, w.start, w.length, xs, b.value, end);
    }
  }

  /** Replacing a window, then removing the block found past the new code (searching for
      `start` and extending to `end`), leaves both edits made on the original code. */
  lemma RemoveNextBlockLayout(codes: seq<Instr>, w: Range, xs: seq<Instr>, start: seq<Matcher>, end: seq<Matcher>)
    requires w.In(codes)
    requires FindNext(codes, w, start).Ok? && Extend(codes, FindNext(codes, w, start).value, end).Ok?
    ensures var e1 := Replace(codes, w, xs).value;
            var a := FindNext(e1.codes, e1.range, start);
            var second := Extend(codes, FindNext(codes, w, start).value, end).value;
            && a.Ok? && Extend(e1.codes, a.value, end).Ok?
            && Remove(e1.codes, Extend(e1.codes, a.value, end).value).Ok?
            && Remove(e1.codes, Extend(e1.codes, a.value, end).value).value.codes ==
                 codes[..w.start] + xs + codes[w.End()..second.start] + codes[second.End()..]
  {
    var e1 := Replace(codes, w, xs).value;
    var second := Extend(codes, FindNext(codes, w, start).value, end).value;
    ExtendNextAfterReplace(codes, w, xs, start, end);
    var moved := Extend(e1.codes, FindNext(e1.codes, e1.range, start).value, end).value;
    assert moved == Range(second.start - w.length + |xs|, second.length);
    RemoveAfterReplace(codes, w, xs, second);
  }

  /** On an empty range, appending and prepending insert at the same place. */
  lemma AppendToEmptyIsPrepend(codes: seq<Instr>, r: Range, xs: seq<Instr>)
    requires r.length == 0
    ensures Append(codes, r, xs) == Prepend(codes, r, xs)
  {
  }

  /** Replacing a window, then the next match past it by that match's first two
      instructions and `tail`, lays the code out as both edits made on the original. */
  lemma ReplaceNextLayout(codes: seq<Instr>, w: Range, xs: seq<Instr>, ms: seq<Matcher>, tail: seq<Instr>)
    requires w.In(codes) && FindNext(codes, w, ms).Ok? && 2 <= |ms|
    ensures var e1 := Replace(codes, w, xs).value;
            FindNext(e1.codes, e1.range, ms).Ok?
    ensures var e1 := Replace(codes, w, xs).value;
            var r := FindNext(e1.codes, e1.range, ms).value;
            var q := FindNext(codes, w, ms).value.start;
            && e1.codes[r.start] == codes[q] && e1.codes[r.start + 1] == codes[q + 1]
            && Replace(e1.codes, r, [codes[q], codes[q + 1]] + tail).Ok?
            && Replace(e1.codes, r, [codes[q], codes[q + 1]] + tail).value.codes ==
                 codes[..w.start] + xs + codes[w.End()..q] + ([codes[q], codes[q + 1]] + tail) + codes[q + |ms|..]
  {
    var e1 := Replace(codes, w, xs).value;
    FindNextAfterReplace(codes, w, xs, ms);
    var second := FindNext(codes, w, ms).value;
    var q := second.start;
    var r := FindNext(e1.codes, e1.range, ms).value;
    assert r == Range(second.start - w.length + |xs|, second.length);
    assert e1.codes[r.start] == codes[q];
    assert e1.codes[r.start + 1] == codes[q + 1];
    ReplaceAfterReplace(codes, w, xs, second, [codes[q], codes[q + 1]] + tail);
  }

  /** Replacing a window, then inserting `ys` before the next match past it, lays the code
      out as both edits made on the original. */
  lemma PrependNextLayout(codes: seq<Instr>, w: Range, xs: seq<Instr>, ms: seq<Matcher>, ys: seq<Instr>)
    requires w.In(codes) && FindNext(codes, w, ms).Ok?
    ensures var e1 := Replace(codes, w, xs).value;
            FindNext(e1.codes, e1.range, ms).Ok?
    ensures var e1 := Replace(codes, w, xs).value;
            var r := FindNext(e1.codes, e1.range, ms).value;
            var q := FindNext(codes, w, ms).value.start;
            && Prepend(e1.codes, r, ys).Ok?
            && Prepend(e1.codes, r, ys).value.codes == codes[..w.start] + xs + codes[w.End()..q] + ys + codes[q..]
  {
    var e1 := Replace(codes, w, xs).value;
    FindNextAfterReplace(codes, w, xs, ms);
    var second := FindNext(codes, w, ms).value;
    var r := FindNext(e1.codes, e1.range, ms).value;
    assert r == Range(second.start - w.length + |xs|, second.length);
    PrependAfterReplace(codes, w, xs, second, ys);
  }

  /** Replacing a window, then overwriting the first instruction of the next match past it
      by `x`, lays the code out as both edits made on the original. */
  lemma PutNextLayout(codes: seq<Instr>, w: Range, xs: seq<Instr>, ms: seq<Matcher>, x: Instr)
    requires w.In(codes) && FindNext(codes, w, ms).Ok? && 1 <= |ms|
    ensures var e1 := Replace(codes, w, xs).value;
            FindNext(e1.codes, e1.range, ms).Ok?
    ensures var e1 := Replace(codes, w, xs).value;
            var r := FindNext(e1.codes, e1.range, ms).value;
            var q := FindNext(codes, w, ms).value.start;
            && Put(e1.codes, r, 0, x).Ok?
            && Put(e1.codes, r, 0, x).value == codes[..w.start] + xs + codes[w.End()..q] + [x] + codes[q + 1..]
  {
    var e1 := Replace(codes, w, xs).value;
    FindNextAfterReplace(codes, w, xs, ms);
    var q := FindNext(codes, w, ms).value.start;
    var r := FindNext(e1.codes, e1.range, ms).value;
    assert r == Range(q - w.length + |xs|, |ms|);
    PutAfterReplace(codes, w, xs, q, |ms|, x);
  }

  /** A splice, written out: the code before it, the new code, the code after it. */
  lemma SplicedLayout(before: seq<Instr>, after: seq<Instr>, at: nat, removed: nat, inserted: seq<Instr>)
    requires Spliced(before, after, at, removed, inserted)
    ensures after == before[..at] + inserted + before[at + removed..]
  {
    var layout := before[..at] + inserted + before[at + removed..];
    forall k | 0 <= k < |after|
      ensures after[k] == layout[k]
    {
      if k < at {
      } else if k < at + |inserted| {
        assert after[at + (k - at)] == inserted[k - at];
      } else {
        var j := k + removed - |inserted|;
        assert after[j - removed + |inserted|] == before[j];
      }
    }
  }

  /** Removes the first `n` instructions of the first match of `ms`; the result also holds
      the match's position and the operand of its instruction `i`. */
  function RemoveFirstHead(codes: seq<Instr>, ms: seq<Matcher>, n: nat, i: nat): (res: Result<(seq<Instr>, nat, Operand), Failure>)
    requires n <= |ms| && i < |ms|
    ensures res.Err? <==> forall k :: !MatchesAt(codes, ms, k)
    ensures res.Ok? <==> FindFrom(codes, ms, 0).Some?
    ensures res.Ok? ==>
              var p := FindFrom(codes, ms, 0).value;
              p + |ms| <= |codes| && res.value == (codes[..p] + codes[p + n..], p, codes[p + i].arg)
  {
    var start := Find(codes, ms, 0);
    if start.Err? then Err(start.error)
    else
      var p := start.value.start;
      var e := Remove(codes, start.value.(length := n)).value;
      SplicedLayout(codes, e.codes, p, n, []);
      assert e.codes == codes[..p] + codes[p + n..];
      Ok((e.codes, p, codes[p + i].arg))
  }

  /** The first match of `ms`, with the operand of its instruction `i`, which the pattern
      requires to have opcode `op`. */
  function FindWithOperand(codes: seq<Instr>, ms: seq<Matcher>, i: nat, op: OpCode): (res: Result<(Range, Operand), Failure>)
    requires i < |ms| && ms[i] == OpIs(op)
    ensures res.Err? <==> forall k :: !MatchesAt(codes, ms, k)
    ensures res.Ok? ==> FindFrom(codes, ms, 0) == Some(res.value.0.start)
    ensures res.Ok? ==> res.value.0.length == |ms| && res.value.0.In(codes)
    ensures res.Ok? ==> codes[res.value.0.start + i].op == op && res.value.1 == codes[res.value.0.start + i].arg
  {
    var found :- Find(codes, ms, 0);
    MatchedAt(codes, ms, found.start, i);
    Ok((found, codes[found.start + i].arg))
  }

  /** A block found by FindBlock, extended to where the branch ending it lands; the result
      also holds that branch's label. */
  function BlockToBranchTarget(codes: seq<Instr>, start: seq<Matcher>, end: seq<Matcher>, from: nat): (res: Result<(Range, Label), Failure>)
    requires 0 < |end|
    ensures res.Ok? ==> FindBlock(codes, start, end, from).Ok?
    ensures res.Ok? ==> var block := FindBlock(codes, start, end, from).value;
                        && res.value.0.In(codes) && from <= res.value.0.start && res.value.0.start == block.start
                        && codes[block.End() - 1].arg == Target(res.value.1)
    ensures res.Ok? ==> Resolve(codes, res.value.1) == Some(res.value.0.End())
  {
    match FindBlock(codes, start, end, from)
    case Err(e) => Err(e)
    case Ok(block) =>
      var last := codes[block.End() - 1];
      if !last.arg.Target? then Err(NotABranch(block.End() - 1))
      else
        match Follow(codes, block.Tail(), -1)
        case Err(e) => Err(e)
        case Ok(target) =>
          if block.start <= target.End() then Ok((Range(block.start, target.End() - block.start), last.arg.to))
          else Err(InvalidRange(target.start, target.length))
  }

  /** From the branch at position `j` of the first match of `test`: the window ending where
      that branch lands and starting at the last match of `back` before it. */
  function BackFromBranch(codes: seq<Instr>, test: seq<Matcher>, j: nat, back: seq<Matcher>): (res: Result<Range, Failure>)
    requires j < |test|
    ensures res.Ok? ==> Find(codes, test, 0).Ok?
    ensures res.Ok? ==> res.value.In(codes) && res.value.End() < |codes| && |back| <= res.value.length
    ensures res.Ok? ==> MatchesAt(codes, back, res.value.start)
    ensures res.Ok? ==>
              var t := Find(codes, test, 0).value.start;
              codes[t + j].arg.Target? && Resolve(codes, codes[t + j].arg.to) == Some(res.value.End())
  {
    match Find(codes, test, 0)
    case Err(e) => Err(e)
    case Ok(found) =>
      match Follow(codes, found, j)
      case Err(e) => Err(e)
      case Ok(landing) => ExtendBackwards(codes, landing, back)
  }

  /** Replaces the inside of a window, keeping its first `keepHead` and last `keepTail`
      instructions. */
  function ReplaceInside(codes: seq<Instr>, w: Range, keepHead: nat, keepTail: nat, xs: seq<Instr>): (out: seq<Instr>)
    requires w.In(codes) && keepHead + keepTail <= w.length
    ensures out == codes[..w.start + keepHead] + xs + codes[w.End() - keepTail..]
    ensures out[w.start + keepHead..w.start + keepHead + |xs|] == xs
    ensures 0 < keepTail ==> out[w.start + keepHead + |xs|] == codes[w.End() - keepTail]
  {
    var inner := SubRange(w, keepHead, w.length - keepHead - keepTail).value;
    var e := Replace(codes, inner, xs).value;
    SplicedLayout(codes, e.codes, inner.start, inner.length, xs);
    SplicedParts(codes, e.codes, inner.start, inner.length, xs);
    e.codes
  }

  lemma SplicedParts(before: seq<Instr>, after: seq<Instr>, at: nat, removed: nat, inserted: seq<Instr>)
    requires Spliced(before, after, at, removed, inserted)
    ensures after[..at] == before[..at]
    ensures after[at..at + |inserted|] == inserted
    ensures after[at + |inserted|..] == before[at + removed..]
  {
    var mid, tail, rest := after[at..at + |inserted|], after[at + |inserted|..], before[at + removed..];
    forall k | 0 <= k < |inserted|
      ensures mid[k] == inserted[k]
    {
      assert after[at + k] == inserted[k];
    }
    forall k | 0 <= k < |tail|
      ensures tail[k] == rest[k]
    {
      assert after[at + |inserted| + k] == before[at + |inserted| + k + removed - |inserted|];
    }
  }

  /** Replacing a span and then removing a later span (located in the edited code) leaves
      the code before the first span, the new code, the code between the spans and the
      code after the second span. */
  lemma RemoveAfterReplace(codes: seq<Instr>, first: Range, xs: seq<Instr>, second: Range)
    requires first.End() <= second.start && second.In(codes)
    ensures Replace(codes, first, xs).Ok?
    ensures var e1 := Replace(codes, first, xs).value.codes;
            var moved := Range(second.start - first.length + |xs|, second.length);
            && Remove(e1, moved).Ok?
            && Remove(e1, moved).value.codes ==
                 codes[..first.start] + xs + codes[first.End()..second.start] + codes[second.End()..]
  {
    ReplaceAfterReplace(codes, first, xs, second, []);
    assert codes[..first.start] + xs + codes[first.End()..second.start] + [] == codes[..first.start] + xs + codes[first.End()..second.start];
  }

  /** Replacing a span and then replacing a later span (located in the edited code) leaves
      the two new pieces and the original code around and between them. */
  lemma ReplaceAfterReplace(codes: seq<Instr>, first: Range, xs: seq<Instr>, second: Range, ys: seq<Instr>)
    requires first.End() <= second.start && second.In(codes)
    ensures Replace(codes, first, xs).Ok?
    ensures var e1 := Replace(codes, first, xs).value.codes;
            var moved := Range(second.start - first.length + |xs|, second.length);
            && Replace(e1, moved, ys).Ok?
            && Replace(e1, moved, ys).value.codes ==
                 codes[..first.start] + xs + codes[first.End()..second.start] + ys + codes[second.End()..]
  {
    var a, b, c := codes[..first.start], codes[first.End()..second.start], codes[second.End()..];
    var mid := codes[second.start..second.End()];
    assert codes[first.End()..] == b + mid + c;
    var e1 := Replace(codes, first, xs).value.codes;
    assert e1 == a + xs + (b + mid + c);
    Regroup(a, xs, b, mid, c);
    var moved := Range(second.start - first.length + |xs|, second.length);
    assert |a + xs + b| == moved.start;
    assert e1[..moved.start] == a + xs + b;
    assert e1[moved.End()..] == c;
  }

  /** Regrouping a concatenation of five pieces. */
  lemma Regroup(a: seq<Instr>, xs: seq<Instr>, b: seq<Instr>, mid: seq<Instr>, c: seq<Instr>)
    ensures a + xs + (b + mid + c) == (a + xs + b) + mid + c
  {
  }

  /** Replacing a span and then overwriting one instruction after it (located in the edited
      code) changes exactly those two places. */
  lemma PutAfterReplace(codes: seq<Instr>, first: Range, xs: seq<Instr>, q: nat, len: nat, x: Instr)
    requires first.End() <= q < |codes|
    ensures Replace(codes, first, xs).Ok?
    ensures var e1 := Replace(codes, first, xs).value.codes;
            var moved := Range(q - first.length + |xs|, len);
            && Put(e1, moved, 0, x).Ok?
            && Put(e1, moved, 0, x).value ==
                 codes[..first.start] + xs + codes[first.End()..q] + [x] + codes[q + 1..]
  {
    var a, b, c := codes[..first.start], codes[first.End()..q], codes[q + 1..];
    assert codes[first.End()..] == b + [codes[q]] + c;
    var e1 := Replace(codes, first, xs).value.codes;
    assert e1 == (a + xs + b) + [codes[q]] + c;
    var p := q - first.length + |xs|;
    assert |a + xs + b| == p;
    assert e1[p := x] == (a + xs + b) + [x] + c;
  }

  /** The code up to the end of an insertion is the code before it and the insertion. */
  lemma PrefixThroughInsert(a: seq<Instr>, xs: seq<Instr>, b: seq<Instr>)
    ensures (a + xs + b)[..|a| + |xs|] == a + xs
  {
  }

  /** A window replaced by `xs`, then a later span of the result replaced by `ys`: the code
      up to the end of `xs` is the code before the window and `xs`. */
  lemma EarlierEditKept(codes: seq<Instr>, r: Range, xs: seq<Instr>, at: nat, ys: seq<Instr>, resume: nat)
    requires r.In(codes)
    requires r.start + |xs| <= at <= resume <= |codes[..r.start] + xs + codes[r.End()..]|
    ensures var mid := codes[..r.start] + xs + codes[r.End()..];
            (mid[..at] + ys + mid[resume..])[..r.start + |xs|] == codes[..r.start] + xs
  {
    var mid := codes[..r.start] + xs + codes[r.End()..];
    PrefixKept(mid, at, ys, resume, r.start + |xs|);
    PrefixThroughInsert(codes[..r.start], xs, codes[r.End()..]);
  }

  lemma PrefixKept(a: seq<Instr>, at: nat, xs: seq<Instr>, resume: nat, n: nat)
    requires n <= at <= resume <= |a|
    ensures (a[..at] + xs + a[resume..])[..n] == a[..n]
  {
  }

  /** Replacing a span and then inserting before a later window (located in the edited
      code) leaves the two edits and the original code around and between them. */
  lemma PrependAfterReplace(codes: seq<Instr>, first: Range, xs: seq<Instr>, second: Range, ys: seq<Instr>)
    requires first.End() <= second.start && second.In(codes)
    ensures Replace(codes, first, xs).Ok?
    ensures var e1 := Replace(codes, first, xs).value.codes;
            var moved := Range(second.start - first.length + |xs|, second.length);
            && Prepend(e1, moved, ys).Ok?
            && Prepend(e1, moved, ys).value.codes ==
                 codes[..first.start] + xs + codes[first.End()..second.start] + ys + codes[second.start..]
  {
    var a, b, c := codes[..first.start], codes[first.End()..second.start], codes[second.start..];
    assert codes[first.End()..] == b + c;
    var e1 := Replace(codes, first, xs).value.codes;
    assert e1 == (a + xs + b) + c;
    var moved := Range(second.start - first.length + |xs|, second.length);
    assert |a + xs + b| == moved.start;
    assert e1[..moved.start] == a + xs + b;
    assert e1[moved.start..] == c;
  }

  /** Attaching a label to the instruction at the start of `r` and inserting `xs` before
      it: the instruction, now carrying the label, follows the inserted code. */
  lemma LabelledInsert(b: Buffer, r: Range, xs: seq<Instr>)
    requires r.In(b.codes) && r.start < |b.codes|
    ensures var att := Attach(b, r.start);
            && Prepend(att.0.codes, r, xs).Ok?
            && Prepend(att.0.codes, r, xs).value.codes ==
                 b.codes[..r.start] + xs + [b.codes[r.start].(labels := b.codes[r.start].labels + {b.next})]
                 + b.codes[r.start + 1..]
  {
    var att := Attach(b, r.start);
    assert att.0.codes[..r.start] == b.codes[..r.start];
    assert att.0.codes[r.start..] == [att.0.codes[r.start]] + b.codes[r.start + 1..];
  }

  /** With the labels below the allocator, the attached label resolves to the instruction
      after `xs`, so a branch in `xs` to that label skips exactly the inserted code. */
  lemma GuardedInsert(b: Buffer, r: Range, xs: seq<Instr>)
    requires r.In(b.codes) && r.start < |b.codes| && LabelsBelow(b.codes, b.next)
    requires forall k :: 0 <= k < |xs| ==> b.next !in xs[k].labels
    ensures var att := Attach(b, r.start);
            && Prepend(att.0.codes, r, xs).Ok?
            && Prepend(att.0.codes, r, xs).value.codes ==
                 b.codes[..r.start] + xs + [b.codes[r.start].(labels := b.codes[r.start].labels + {b.next})]
                 + b.codes[r.start + 1..]
            && Resolve(Prepend(att.0.codes, r, xs).value.codes, b.next) == Some(r.start + |xs|)
  {
    var att := Attach(b, r.start);
    var out := Prepend(att.0.codes, r, xs).value.codes;
    AttachResolves(b, r.start);
    ResolvePastSplice(att.0.codes, out, r.start, 0, xs, b.next, r.start);
    LabelledInsert(b, r, xs);
  }

  /** Code `xs` put in front of the body, whose first instruction carries the fresh label:
      a branch of `xs` to that label lands right after `xs`. */
  lemma GuardBranchSkips(b: Buffer, xs: seq<Instr>, i: nat)
    requires 0 < |b.codes| && LabelsBelow(b.codes, b.next)
    requires forall k :: 0 <= k < |xs| ==> b.next !in xs[k].labels
    requires i < |xs| && xs[i].arg == Target(b.next)
    ensures Follow(xs + [b.codes[0].(labels := b.codes[0].labels + {b.next})] + b.codes[1..], Range(0, 0), i)
            == Ok(Range(|xs|, 0))
  {
    GuardedInsert(b, Range(0, 0), xs);
    var out := xs + [b.codes[0].(labels := b.codes[0].labels + {b.next})] + b.codes[1..];
    assert b.codes[..0] + xs == xs;
    assert Resolve(out, b.next) == Some(|xs|);
    assert out[i] == xs[i];
    assert Follow(out, Range(0, 0), i).Ok?;
  }

  /** A window replaced by `xs` after the instruction following it got the fresh label: a
      branch of `xs` to that label lands right after `xs`, on that instruction, which keeps
      its opcode and operand. */
  lemma ReplaceBeforeLabelled(b: Buffer, r: Range, xs: seq<Instr>, i: nat)
    requires r.In(b.codes) && r.End() < |b.codes| && LabelsBelow(b.codes, b.next)
    requires forall k :: 0 <= k < |xs| ==> b.next !in xs[k].labels
    requires i < |xs| && xs[i].arg == Target(b.next)
    ensures var out := Replace(Attach(b, r.End()).0.codes, r, xs).value.codes;
            && |out| == |b.codes| - r.length + |xs|
            && out[..r.start] == b.codes[..r.start]
            && out[r.start..r.start + |xs|] == xs
            && out[r.start + |xs|].op == b.codes[r.End()].op
            && out[r.start + |xs|].arg == b.codes[r.End()].arg
            && out[r.start + |xs| + 1..] == b.codes[r.End() + 1..]
            && Follow(out, Range(r.start, 0), i) == Ok(Range(r.start + |xs|, 0))
  {
    var att := Attach(b, r.End());
    var out := Replace(att.0.codes, r, xs).value.codes;
    SplicedLayout(att.0.codes, out, r.start, r.length, xs);
    SplicedParts(att.0.codes, out, r.start, r.length, xs);
    assert att.0.codes[..r.start] == b.codes[..r.start];
    assert att.0.codes[r.End() + 1..] == b.codes[r.End() + 1..];
    AttachResolves(b, r.End());
    ResolvePastSplice(att.0.codes, out, r.start, r.length, xs, att.1, r.End());
    assert out[r.start + i] == xs[i];
    assert out[r.start + |xs| + 1..] == att.0.codes[r.End() + 1..];
  }

  /** The reference meaning of replacing the first occurrence of a pattern: the code before
      the lowest matching window, `xs`, then the code after it; nothing without a match. */
  ghost function ReplaceFirst(codes: seq<Instr>, ms: seq<Matcher>, xs: seq<Instr>): Option<seq<Instr>> {
    match FindFrom(codes, ms, 0)
    case None => None
    case Some(p) => Some(codes[..p] + xs + codes[p + |ms|..])
  }

  /** FindCode(pattern).Replace(xs) is the reference replacement of the first occurrence. */
  lemma FindReplaceIsReplaceFirst(codes: seq<Instr>, ms: seq<Matcher>, xs: seq<Instr>)
    ensures FindReplace(codes, ms, xs).Ok? <==> ReplaceFirst(codes, ms, xs).Some?
    ensures FindReplace(codes, ms, xs).Ok? ==> ReplaceFirst(codes, ms, xs).value == FindReplace(codes, ms, xs).value.codes
  {
    if FindReplace(codes, ms, xs).Ok? {
      SplicedLayout(codes, FindReplace(codes, ms, xs).value.codes, FindFrom(codes, ms, 0).value, |ms|, xs);
    }
  }
}
