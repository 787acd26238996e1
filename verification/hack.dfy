/** The Hack base class: the search entry points a patch body calls (FindCode, FindCodeLast,
    AllCode, BeginCode), and the installer. Each declared patch is registered with Harmony as
    a transpiler; Harmony then reruns every transpiler registered for the target method, in
    registration order, each one receiving the previous one's output. A transpiler is a proxy
    that prepares the Hack's `codes` and `generator`, runs the patch body, and returns `codes`. */
module Hack {
  import opened Wrappers
  import opened Instructions
  import opened Matchers
  import opened Search
  import opened Labels
  import opened Ranges

  /** A patch body, run against the current codes and generator. */
  type Transform = Buffer -> Result<Buffer, Failure>

  /** A method as the runtime hands it to a transpiler: its body and its IL generator. */
  datatype Method = Method(body: seq<Instr>, generator: Label)

  /** A transpiler registered with Harmony: the target method and the patch method's name. */
  datatype Registration = Registration(target: string, patch: string)

  /** The Hack instance: `codes` and `generator` are meaningful only while a patch body runs;
      `registered` lists the transpilers registered so far and `installed` the body Harmony
      installed for each patched target. */
  datatype Hack = Hack(codes: seq<Instr>, generator: Label, registered: seq<Registration>,
                       installed: map<string, seq<Instr>>)

  /** FindCode: the first occurrence of the pattern in the method body. */
  function FindCode(b: Buffer, ms: seq<Matcher>): (res: Result<Range, Failure>)
    ensures res.Ok? ==> res.value.length == |ms| && MatchesAt(b.codes, ms, res.value.start)
    ensures res.Ok? ==> forall k :: 0 <= k < res.value.start ==> !MatchesAt(b.codes, ms, k)
    ensures res.Err? <==> forall k :: !MatchesAt(b.codes, ms, k)
  {
    Find(b.codes, ms, 0)
  }

  /** FindCodeLast: the last occurrence of the pattern, searching backward from the end. */
  function FindCodeLast(b: Buffer, ms: seq<Matcher>): (res: Result<Range, Failure>)
    ensures res.Ok? ==> res.value.length == |ms| && MatchesAt(b.codes, ms, res.value.start)
    ensures res.Ok? ==> forall k :: res.value.start < k ==> !MatchesAt(b.codes, ms, k)
    ensures res.Err? <==> forall k :: !MatchesAt(b.codes, ms, k)
  {
    FindLast(b.codes, ms, |b.codes|)
  }

  /** Prepare: install the incoming instructions as `codes` and the runtime's generator. */
  function Prepare(h: Hack, generator: Label, instructions: seq<Instr>): (h': Hack)
    ensures h'.codes == instructions && h'.generator == generator
    ensures h'.registered == h.registered && h'.installed == h.installed
  {
    h.(codes := instructions, generator := generator)
  }

  /** The proxy transpiler: Prepare, run the patch body, return the resulting `codes`. */
  function Proxy(h: Hack, body: Transform, input: Buffer): Result<(Hack, Buffer), Failure> {
    var prepared := Prepare(h, input.next, input.codes);
    var out :- body(Buffer(prepared.codes, prepared.generator));
    Ok((prepared.(codes := out.codes, generator := out.next), out))
  }

  /** Harmony running the transpilers registered for `target`, in registration order. */
  function Transpile(h: Hack, regs: seq<Registration>, target: string, bodies: string -> Transform,
                     input: Buffer): Result<(Hack, Buffer), Failure>
    decreases |regs|
  {
    if regs == [] then Ok((h, input))
    else if regs[0].target != target then Transpile(h, regs[1..], target, bodies, input)
    else
      var step :- Proxy(h, bodies(regs[0].patch), input);
      Transpile(step.0, regs[1..], target, bodies, step.1)
  }

  /** The reference meaning of a chain: the patch bodies for `target` composed in order. */
  function Compose(regs: seq<Registration>, target: string, bodies: string -> Transform,
                   input: Buffer): Result<Buffer, Failure>
    decreases |regs|
  {
    if regs == [] then Ok(input)
    else if regs[0].target != target then Compose(regs[1..], target, bodies, input)
    else
      var out :- bodies(regs[0].patch)(input);
      Compose(regs[1..], target, bodies, out)
  }

  /** Running the proxies through the Hack's shared `codes` field computes exactly the
      composition of the patch bodies, and touches nothing but `codes` and `generator`. */
  lemma {:induction false} TranspileIsCompose(h: Hack, regs: seq<Registration>, target: string,
                                              bodies: string -> Transform, input: Buffer)
    ensures Transpile(h, regs, target, bodies, input).Ok? <==> Compose(regs, target, bodies, input).Ok?
    ensures Transpile(h, regs, target, bodies, input).Ok? ==>
              var t := Transpile(h, regs, target, bodies, input).value;
              && t.1 == Compose(regs, target, bodies, input).value
              && t.0.registered == h.registered && t.0.installed == h.installed
    decreases |regs|
  {
    if regs != [] {
      if regs[0].target != target {
        TranspileIsCompose(h, regs[1..], target, bodies, input);
      } else {
        var p := Proxy(h, bodies(regs[0].patch), input);
        if p.Ok? {
          TranspileIsCompose(p.value.0, regs[1..], target, bodies, p.value.1);
        }
      }
    }
  }

  /** ChainPatch: register the patch for `target`; Harmony reruns the whole chain for that
      method on its original body and installs the result. The Hack's `codes` and
      `generator` are saved before and restored after. */
  function ChainPatch(h: Hack, target: string, patch: string, bodies: string -> Transform,
                      runtime: map<string, Method>): (res: Result<Hack, Failure>)
    ensures res.Ok? <==>
              && target in runtime
              && Compose(h.registered + [Registration(target, patch)], target, bodies,
                      Buffer(runtime[target].body, runtime[target].generator)).Ok?
    ensures res.Ok? ==> res.value.codes == h.codes && res.value.generator == h.generator
    ensures res.Ok? ==> res.value.registered == h.registered + [Registration(target, patch)]
    ensures res.Ok? ==> res.value.installed == h.installed[target :=
              Compose(res.value.registered, target, bodies,
                      Buffer(runtime[target].body, runtime[target].generator)).value.codes]
  {
    if target !in runtime then Err(IncompatibleTarget(target))
    else
      var old_generator := h.generator;
      var old_codes := h.codes;
      var regs := h.registered + [Registration(target, patch)];
      var input := Buffer(runtime[target].body, runtime[target].generator);
      TranspileIsCompose(h.(registered := regs), regs, target, bodies, input);
      var run :- Transpile(h.(registered := regs), regs, target, bodies, input);
      Ok(run.0.(generator := old_generator, codes := old_codes,
                installed := h.installed[target := run.1.codes]))
  }

  /** A patch as a mod class declares it: the target method, the patch method's name, and
      the name of the gate method, when the attribute carries one as its second argument, that
      decides at installation whether it is applied. A declaration without a gate is always
      applied, as every one-argument attribute is. */
  datatype Declaration = Declaration(target: string, patch: string, gate: Option<string>)

  /** The declaration is applied: it has no gate, or its gate holds at installation. */
  predicate Applies(d: Declaration, gates: string -> bool) {
    d.gate.None? || gates(d.gate.value)
  }

  /** The registrations the applied declarations make, in declaration order. */
  function Enabled(decls: seq<Declaration>, gates: string -> bool): (regs: seq<Registration>)
    ensures |regs| <= |decls|
    ensures forall r :: r in regs <==> exists d :: d in decls && Applies(d, gates) && r == Registration(d.target, d.patch)
  {
    if decls == [] then []
    else
      var rest := Enabled(decls[1..], gates);
      assert forall d :: d in decls <==> d == decls[0] || d in decls[1..];
      if Applies(decls[0], gates) then [Registration(decls[0].target, decls[0].patch)] + rest else rest
  }

  /** Entry: chain every declared patch whose gate holds, in declaration order, skipping
      the others; the first failure stops it. */
  function Entry(h: Hack, decls: seq<Declaration>, gates: string -> bool, bodies: string -> Transform,
                 runtime: map<string, Method>): (res: Result<Hack, Failure>)
    ensures res.Ok? ==> res.value.codes == h.codes && res.value.generator == h.generator
    ensures res.Ok? ==> res.value.registered == h.registered + Enabled(decls, gates)
    ensures res.Ok? ==> res.value.installed.Keys == h.installed.Keys + set r | r in Enabled(decls, gates) :: r.target
    ensures res.Ok? ==> forall t :: t in h.installed && (forall r :: r in Enabled(decls, gates) ==> r.target != t) ==>
              res.value.installed[t] == h.installed[t]
    decreases |decls|
  {
    if decls == [] then Ok(h)
    else if !Applies(decls[0], gates) then Entry(h, decls[1..], gates, bodies, runtime)
    else
      var h1 :- ChainPatch(h, decls[0].target, decls[0].patch, bodies, runtime);
      var res := Entry(h1, decls[1..], gates, bodies, runtime);
      ghost var regs := Enabled(decls, gates);
      assert regs == [Registration(decls[0].target, decls[0].patch)] + Enabled(decls[1..], gates);
      assert forall r :: r in regs <==> r == regs[0] || r in Enabled(decls[1..], gates);
      res
  }

  /** The chain input Harmony hands the transpilers of `target`: the method's original body. */
  function Original(runtime: map<string, Method>, target: string): Buffer
    requires target in runtime
  {
    Buffer(runtime[target].body, runtime[target].generator)
  }

  /** Every installed body is what the whole chain of patches registered for that method
      produces from its original body. */
  ghost predicate InstalledChains(h: Hack, bodies: string -> Transform, runtime: map<string, Method>) {
    forall t :: t in h.installed ==>
      && t in runtime
      && Compose(h.registered, t, bodies, Original(runtime, t)).Ok?
      && h.installed[t] == Compose(h.registered, t, bodies, Original(runtime, t)).value.codes
  }

  /** Chaining a patch onto one method keeps every other method's installed body equal to
      its own chain: a registration for another method does not take part in that chain. */
  lemma ChainPatchKeepsInstalledChains(h: Hack, target: string, patch: string,
                                       bodies: string -> Transform, runtime: map<string, Method>)
    requires InstalledChains(h, bodies, runtime)
    requires ChainPatch(h, target, patch, bodies, runtime).Ok?
    ensures InstalledChains(ChainPatch(h, target, patch, bodies, runtime).value, bodies, runtime)
  {
    var h1 := ChainPatch(h, target, patch, bodies, runtime).value;
    forall t | t in h1.installed && t != target
      ensures Compose(h1.registered, t, bodies, Original(runtime, t)) ==
              Compose(h.registered, t, bodies, Original(runtime, t))
    {
      ComposeAppend(h.registered, [Registration(target, patch)], t, bodies, Original(runtime, t));
      var mid := Compose(h.registered, t, bodies, Original(runtime, t));
      if mid.Ok? {
        ComposeSkipsOtherTargets([Registration(target, patch)], [], t, bodies, mid.value);
        assert [Registration(target, patch)] + [] == [Registration(target, patch)];
      }
    }
  }

  /** Installing a list of patches keeps the installed bodies equal to their chains. */
  lemma {:induction false} EntryKeepsInstalledChains(h: Hack, decls: seq<Declaration>, gates: string -> bool,
                                                     bodies: string -> Transform, runtime: map<string, Method>)
    requires InstalledChains(h, bodies, runtime)
    requires Entry(h, decls, gates, bodies, runtime).Ok?
    ensures InstalledChains(Entry(h, decls, gates, bodies, runtime).value, bodies, runtime)
    decreases |decls|
  {
    if decls != [] {
      if !Applies(decls[0], gates) {
        EntryKeepsInstalledChains(h, decls[1..], gates, bodies, runtime);
      } else {
        ChainPatchKeepsInstalledChains(h, decls[0].target, decls[0].patch, bodies, runtime);
        var h1 := ChainPatch(h, decls[0].target, decls[0].patch, bodies, runtime).value;
        EntryKeepsInstalledChains(h1, decls[1..], gates, bodies, runtime);
      }
    }
  }

  /** A chain over `a + b` runs the chain over `a`, then the chain over `b` on its output. */
  lemma {:induction false} ComposeAppend(a: seq<Registration>, b: seq<Registration>, target: string,
                                         bodies: string -> Transform, input: Buffer)
    ensures Compose(a + b, target, bodies, input) ==
            (var mid := Compose(a, target, bodies, input);
             if mid.Ok? then Compose(b, target, bodies, mid.value) else mid)
    decreases |a|
  {
    if a == [] {
      assert a + b == b;
    } else {
      assert (a + b)[0] == a[0];
      assert (a + b)[1..] == a[1..] + b;
      if a[0].target != target {
        ComposeAppend(a[1..], b, target, bodies, input);
      } else {
        var out := bodies(a[0].patch)(input);
        if out.Ok? {
          ComposeAppend(a[1..], b, target, bodies, out.value);
        }
      }
    }
  }

  /** Registrations for other methods do not take part in a method's chain. */
  lemma {:induction false} ComposeSkipsOtherTargets(others: seq<Registration>, rest: seq<Registration>,
                                                    target: string, bodies: string -> Transform, input: Buffer)
    requires forall k :: 0 <= k < |others| ==> others[k].target != target
    ensures Compose(others + rest, target, bodies, input) == Compose(rest, target, bodies, input)
    decreases |others|
  {
    if others == [] {
      assert others + rest == rest;
    } else {
      assert (others + rest)[0] == others[0];
      assert (others + rest)[1..] == others[1..] + rest;
      assert others[0].target != target;
      assert Compose(others + rest, target, bodies, input) == Compose(others[1..] + rest, target, bodies, input);
      ComposeSkipsOtherTargets(others[1..], rest, target, bodies, input);
    }
  }

  /** A chain of one patch body is that body. */
  lemma SingleCompose(reg: Registration, target: string, bodies: string -> Transform, input: Buffer)
    requires reg.target == target
    ensures Compose([reg], target, bodies, input) == bodies(reg.patch)(input)
  {
    var out := bodies(reg.patch)(input);
    if out.Ok? {
      assert [reg][1..] == [];
      assert Compose([], target, bodies, out.value) == Ok(out.value);
    }
  }

  /** Chaining: a second patch on the same method receives the first one's output. */
  lemma ChainedPatchesCompose(target: string, first: string, second: string,
                              bodies: string -> Transform, input: Buffer)
    requires bodies(first)(input).Ok?
    ensures Compose([Registration(target, first), Registration(target, second)], target, bodies, input) ==
            bodies(second)(bodies(first)(input).value)
  {
    var regs := [Registration(target, first), Registration(target, second)];
    var mid := bodies(first)(input).value;
    assert regs[1..] == [Registration(target, second)];
    SingleCompose(Registration(target, second), target, bodies, mid);
    assert Compose(regs, target, bodies, input) == Compose(regs[1..], target, bodies, mid);
  }
}
