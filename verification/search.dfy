/** Pattern search over an instruction buffer: the first window at or after an offset, or the
    last window ending at or before an offset, whose instructions each satisfy the matcher
    at the same position of the pattern. */
module Search {
  import opened Wrappers
  import opened Instructions
  import opened Matchers

  /** The window of length |ms| starting at `i` lies inside `codes` and every position's
      matcher accepts the instruction there. */
  predicate MatchesAt(codes: seq<Instr>, ms: seq<Matcher>, i: int) {
    && 0 <= i
    && i + |ms| <= |codes|
    && forall j :: 0 <= j < |ms| ==> AcceptedAt(codes, ms, i, j)
  }

  /** The matcher at position `j` of the pattern accepts the instruction `j` places after `i`. */
  predicate AcceptedAt(codes: seq<Instr>, ms: seq<Matcher>, i: int, j: int) {
    0 <= j < |ms| && 0 <= i + j < |codes| && Accepts(ms[j], codes[i + j])
  }

  /** One position of a match: its matcher accepts the instruction there. */
  lemma MatchedAt(codes: seq<Instr>, ms: seq<Matcher>, i: int, j: int)
    requires MatchesAt(codes, ms, i) && 0 <= j < |ms|
    ensures Accepts(ms[j], codes[i + j])
  {
    assert AcceptedAt(codes, ms, i, j);
  }

  /** Forward search: the lowest offset `i >= from` at which the pattern matches. */
  function FindFrom(codes: seq<Instr>, ms: seq<Matcher>, from: nat): (r: Option<nat>)
    ensures r.Some? ==> from <= r.value && MatchesAt(codes, ms, r.value)
    ensures r.Some? ==> forall k :: from <= k < r.value ==> !MatchesAt(codes, ms, k)
    ensures r.None? ==> forall k :: from <= k ==> !MatchesAt(codes, ms, k)
    decreases |codes| + 1 - from
  {
    if from + |ms| > |codes| then None
    else if MatchesAt(codes, ms, from) then Some(from)
    else FindFrom(codes, ms, from + 1)
  }

  /** Backward search over candidate offsets `at, at-1, ..., 0`: the highest one at which
      the pattern matches. */
  function FindDown(codes: seq<Instr>, ms: seq<Matcher>, at: int): (r: Option<nat>)
    ensures r.Some? ==> r.value <= at && MatchesAt(codes, ms, r.value)
    ensures r.Some? ==> forall k :: r.value < k <= at ==> !MatchesAt(codes, ms, k)
    ensures r.None? ==> forall k :: k <= at ==> !MatchesAt(codes, ms, k)
    decreases at + 1
  {
    if at < 0 then None
    else if MatchesAt(codes, ms, at) then Some(at)
    else FindDown(codes, ms, at - 1)
  }

  /** Backward search: the highest offset whose window ends at or before `before`. */
  function FindBefore(codes: seq<Instr>, ms: seq<Matcher>, before: int): (r: Option<nat>)
    ensures r.Some? ==> r.value + |ms| <= before && MatchesAt(codes, ms, r.value)
    ensures r.Some? ==> forall k :: r.value < k && k + |ms| <= before ==> !MatchesAt(codes, ms, k)
    ensures r.None? ==> forall k :: k + |ms| <= before ==> !MatchesAt(codes, ms, k)
  {
    FindDown(codes, ms, before - |ms|)
  }

  /** Re-searching from one past a found offset yields the next occurrence: no window
      between the two matches, so consecutive searches enumerate the occurrences in order. */
  lemma NextOccurrence(codes: seq<Instr>, ms: seq<Matcher>, from: nat, i: nat)
    requires FindFrom(codes, ms, from) == Some(i)
    ensures FindFrom(codes, ms, i + 1).Some? ==>
              var j := FindFrom(codes, ms, i + 1).value;
              i < j && forall k :: from <= k < j && MatchesAt(codes, ms, k) ==> k == i
    ensures FindFrom(codes, ms, i + 1).None? ==>
              forall k :: from <= k && MatchesAt(codes, ms, k) ==> k == i
  {
  }

  /** The first and the last occurrence coincide exactly when the pattern occurs once. */
  lemma FirstAndLast(codes: seq<Instr>, ms: seq<Matcher>, i: nat, j: nat)
    requires FindFrom(codes, ms, 0) == Some(i)
    requires FindBefore(codes, ms, |codes|) == Some(j)
    ensures i <= j
    ensures i == j <==> forall k :: MatchesAt(codes, ms, k) ==> k == i
  {
    if i == j {
      forall k | MatchesAt(codes, ms, k)
        ensures k == i
      {
        assert k + |ms| <= |codes|;
      }
    }
  }

  /** A search succeeds from `from` exactly when some window at or after `from` matches. */
  lemma FindFromComplete(codes: seq<Instr>, ms: seq<Matcher>, from: nat, k: nat)
    requires from <= k && MatchesAt(codes, ms, k)
    ensures FindFrom(codes, ms, from).Some? && FindFrom(codes, ms, from).value <= k
  {
  }

  /** Two buffers that agree on opcodes and operands are indistinguishable to every
      pattern without textual matchers. */
  ghost predicate SameCode(a: seq<Instr>, b: seq<Instr>) {
    |a| == |b| && forall k :: 0 <= k < |a| ==> a[k].op == b[k].op && a[k].arg == b[k].arg
  }

  predicate NoText(ms: seq<Matcher>) {
    forall j :: 0 <= j < |ms| ==> !ms[j].Mentions?
  }

  /** Changing only the labels attached to instructions leaves every search for a pattern
      without textual matchers unchanged. */
  lemma {:induction false} FindIgnoresLabels(a: seq<Instr>, b: seq<Instr>, ms: seq<Matcher>, from: nat)
    requires SameCode(a, b) && NoText(ms)
    ensures FindFrom(a, ms, from) == FindFrom(b, ms, from)
    decreases |a| + 1 - from
  {
    assert MatchesAt(a, ms, from) <==> MatchesAt(b, ms, from) by {
      if from + |ms| <= |a| {
        forall j | 0 <= j < |ms|
          ensures AcceptedAt(a, ms, from, j) <==> AcceptedAt(b, ms, from, j)
        {
          assert b[from + j] == a[from + j].(labels := b[from + j].labels);
          AcceptsIgnoresLabels(ms[j], a[from + j], b[from + j].labels);
        }
      }
    }
    if from + |ms| <= |a| && !MatchesAt(a, ms, from) {
      FindIgnoresLabels(a, b, ms, from + 1);
    }
  }
}
