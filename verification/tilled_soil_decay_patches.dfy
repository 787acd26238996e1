/** Tilled Soil Decay's bytecode patches as transforms of a method body, and a small
    evaluator for the straight-line code they emit, which ties the emitted code to the
    decay rules. */
module TilledSoilDecayPatches {
  import opened Wrappers
  import opened Instructions
  import opened Matchers
  import opened Search
  import opened Labels
  import opened Ranges
  import opened RangeProperties
  import opened TilledSoilDecay

  // ----- An evaluator for the emitted code -----

  /** The least value of a 32-bit signed integer, C#'s `int.MinValue`. */
  const Int32Min: int := -0x8000_0000

  predicate IsInt32(x: int) {
    Int32Min <= x < 0x8000_0000
  }

  /** The 32-bit two's-complement result of an integer operation, as IL `neg` and `sub`
      compute it on `int32`. */
  function Wrap32(x: int): (r: int)
    ensures IsInt32(r)
    ensures (x - r) % 0x1_0000_0000 == 0
    ensures IsInt32(x) ==> r == x
  {
    (x - Int32Min) % 0x1_0000_0000 + Int32Min
  }

  /** What the evaluated code pushes: the tilled soil, its `state` field, an integer, the
      mod's settings, one place's decay settings, or a drying rate. */
  datatype Value = Dirt | StateCell | Num(n: int) | Settings | Decay(d: DecayConfig) | Chance(p: real)

  /** The evaluation state: the operand stack, the locals, the soil's `state`, the mod's
      settings, the receiver `this`, and the label jumped to once a branch is taken. */
  datatype Machine = Machine(
    stack: seq<Value>,
    locals: map<Operand, Value>,
    state: int,
    config: ModConfig,
    receiver: Value,
    jump: Option<Label>)

  /** The settings field a `ldfld` of ModConfig reads. */
  function Section(c: ModConfig, field: string): Option<DecayConfig> {
    if field == "ModConfig::EachNight" then Some(c.eachNight)
    else if field == "ModConfig::EachSeason" then Some(c.eachSeason)
    else if field == "ModConfig::Greenhouse" then Some(c.greenhouse)
    else if field == "ModConfig::Island" then Some(c.island)
    else if field == "ModConfig::NonFarm" then Some(c.nonFarm)
    else None
  }

  /** A field load from the value on top of the stack. */
  function LoadField(c: ModConfig, v: Value, field: Operand): Option<Value> {
    if !field.Member? then None
    else
      match v
      case Dirt => if field.name == "HoeDirt::state" then Some(StateCell) else None
      case Settings =>
        (match Section(c, field.name)
         case Some(d) => Some(Decay(d))
         case None => None)
      case Decay(d) =>
        if field.name == "DecayConfig::Delay" then Some(Num(d.delay))
        else if field.name == "DecayConfig::DryingRate" then Some(Chance(d.dryingRate))
        else None
      case _ => None
  }

  /** One instruction; None when the instruction or the stack shape is outside what the
      emitted code uses. */
  function Step(m: Machine, x: Instr): Option<Machine> {
    var s := m.stack;
    var n := |s|;
    match x.op
    case Ldarg0 => Some(m.(stack := s + [m.receiver]))
    case LdcI40 => Some(m.(stack := s + [Num(0)]))
    case LdcI41 => Some(m.(stack := s + [Num(1)]))
    case Dup => if n == 0 then None else Some(m.(stack := s + [s[n - 1]]))
    case Ldfld =>
      if n == 0 then None
      else
        (match LoadField(m.config, s[n - 1], x.arg)
         case Some(v) => Some(m.(stack := s[..n - 1] + [v]))
         case None => None)
    case LdlocS => if x.arg in m.locals then Some(m.(stack := s + [m.locals[x.arg]])) else None
    case StlocS => if n == 0 then None else Some(m.(stack := s[..n - 1], locals := m.locals[x.arg := s[n - 1]]))
    case Neg => if n == 0 || !s[n - 1].Num? then None else Some(m.(stack := s[..n - 1] + [Num(Wrap32(-s[n - 1].n))]))
    case Sub =>
      if n < 2 || !s[n - 2].Num? || !s[n - 1].Num? then None
      else Some(m.(stack := s[..n - 2] + [Num(Wrap32(s[n - 2].n - s[n - 1].n))]))
    case Bgt =>
      if n < 2 || !s[n - 2].Num? || !s[n - 1].Num? || !x.arg.Target? then None
      else
        var taken := s[n - 2].n > s[n - 1].n;
        Some(m.(stack := s[..n - 2], jump := if taken then Some(x.arg.to) else None))
    case Call => Invoke(m, x.arg)
    case Callvirt => Invoke(m, x.arg)
    case _ => None
  }

  /** The three methods the emitted code calls: the `state` getter and setter, and the
      settings accessor. */
  function Invoke(m: Machine, target: Operand): Option<Machine> {
    var s := m.stack;
    var n := |s|;
    if target == Member("NetInt::get_Value") then
      if n == 0 || s[n - 1] != StateCell then None else Some(m.(stack := s[..n - 1] + [Num(m.state)]))
    else if target == Member("NetInt::set_Value") then
      if n < 2 || s[n - 2] != StateCell || !s[n - 1].Num? then None
      else Some(m.(stack := s[..n - 2], state := s[n - 1].n))
    else if target == Member("ModEntry::getConfig") then Some(m.(stack := s + [Settings]))
    else None
  }

  /** Straight-line evaluation, which stops once a branch is taken. */
  function Run(m: Machine, xs: seq<Instr>): Option<Machine>
    decreases |xs|
  {
    if xs == [] || m.jump.Some? then Some(m)
    else
      match Step(m, xs[0])
      case None => None
      case Some(next) => Run(next, xs[1..])
  }

  /** A machine with an empty stack and no locals, `this` being the soil. */
  function Start(state: int, c: ModConfig): Machine {
    Machine([], map[], state, c, Dirt, None)
  }

  // ----- HoeDirt.dayUpdate: count the nights without water -----

  /** `state.Value = 0`. */
  function StateReset(): seq<Matcher> {
    [OpIs(Ldarg0), Field("HoeDirt::state"), OpIs(LdcI40), OpIs(Callvirt)]
  }

  /** The setter the reset calls. */
  const SetValue: Instr := With(Callvirt, Member("NetInt::set_Value"))

  /** The value stored becomes `state.Value - 1`. */
  function Decrement(): seq<Instr> {
    [Plain(Dup), With(Callvirt, Member("NetInt::get_Value")), Plain(LdcI41), Plain(Sub)]
  }

  /** The constant 0 of the reset is spliced out and the decrement spliced in. */
  function HoeDirtDayUpdate(codes: seq<Instr>): (res: Result<seq<Instr>, Failure>)
    ensures res.Err? <==> forall k :: !MatchesAt(codes, StateReset(), k)
    ensures res.Ok? ==> FindFrom(codes, StateReset(), 0).Some?
    ensures res.Ok? ==> Spliced(codes, res.value, FindFrom(codes, StateReset(), 0).value + 2, 1, Decrement())
  {
    match Find(codes, StateReset(), 0)
    case Err(e) => Err(e)
    case Ok(w) => Ok(Splice(codes, w, 2, 1, Decrement()).value.codes)
  }

  /** The `state` setter pops the field and the new value and stores it. */
  lemma SetValueStep(m: Machine, s: seq<Value>, n: int, x: Instr)
    requires m.stack == s + [StateCell, Num(n)] && (x.op == Call || x.op == Callvirt)
    requires x.arg == Member("NetInt::set_Value")
    ensures Step(m, x) == Some(m.(stack := s, state := n))
  {
    assert Member("NetInt::set_Value") != Member("NetInt::get_Value") by {
      assert "NetInt::set_Value"[8] != "NetInt::get_Value"[8];
    }
    assert m.stack[..|s|] == s;
  }

  /** `ldarg.0`, `ldc.i4.0` and `ldc.i4.1` push `this`, 0 and 1. */
  lemma PushStep(m: Machine, x: Instr, v: Value)
    requires || (x.op == Ldarg0 && v == m.receiver)
             || (x.op == LdcI40 && v == Num(0))
             || (x.op == LdcI41 && v == Num(1))
    ensures Step(m, x) == Some(m.(stack := m.stack + [v]))
  {
  }

  /** `dup` pushes a second copy of the top of the stack. */
  lemma DupStep(m: Machine, s: seq<Value>, v: Value)
    requires m.stack == s + [v]
    ensures Step(m, Plain(Dup)) == Some(m.(stack := s + [v] + [v]))
  {
  }

  /** Subtraction of the two integers on top of the stack, wrapping to 32 bits. */
  lemma SubStep(m: Machine, s: seq<Value>, a: int, b: int)
    requires m.stack == s + [Num(a), Num(b)]
    ensures Step(m, Plain(Sub)) == Some(m.(stack := s + [Num(Wrap32(a - b))]))
  {
    assert m.stack[..|s|] == s;
  }

  /** The reset sets the soil's state to 0 whatever it was. */
  lemma ResetClearsState(state: int, c: ModConfig, ld: Instr, setter: Instr)
    requires ld.op == Ldfld && ld.arg == Member("HoeDirt::state")
    requires setter.op == Callvirt && setter.arg == Member("NetInt::set_Value")
    ensures Run(Start(state, c), [Plain(Ldarg0), ld, Plain(LdcI40), setter]) == Some(Start(0, c))
  {
    var m0 := Start(state, c);
    var m2 := m0.(stack := [] + [StateCell]);
    var head, tail := [Plain(Ldarg0), ld], [Plain(LdcI40), setter];
    assert [Plain(Ldarg0), ld, Plain(LdcI40), setter] == head + tail;
    LoadStateRuns(m0, ld);
    StoreZeroRuns(m2, [], setter);
    RunConcat(m0, head, tail);
  }

  /** `ldarg.0; ldfld state` pushes the soil's `state` field. */
  lemma LoadStateRuns(m: Machine, ld: Instr)
    requires m.jump.None? && m.receiver == Dirt
    requires ld.op == Ldfld && ld.arg == Member("HoeDirt::state")
    ensures Run(m, [Plain(Ldarg0), ld]) == Some(m.(stack := m.stack + [StateCell]))
  {
    var xs := [Plain(Ldarg0), ld];
    var m1 := m.(stack := m.stack + [Dirt]);
    var m2 := m.(stack := m.stack + [StateCell]);
    PushStep(m, Plain(Ldarg0), Dirt);
    RunAt(m, xs, 0, Plain(Ldarg0), m1);
    StateFieldStep(m1, m.stack, ld);
    RunAt(m1, xs, 1, ld, m2);
    assert xs[0..] == xs && xs[2..] == [];
  }

  /** `ldc.i4.0` and the setter store 0 into the field on the stack. */
  lemma StoreZeroRuns(m: Machine, s: seq<Value>, setter: Instr)
    requires m.jump.None? && m.stack == s + [StateCell]
    requires setter.op == Callvirt && setter.arg == Member("NetInt::set_Value")
    ensures Run(m, [Plain(LdcI40), setter]) == Some(m.(stack := s, state := 0))
  {
    var xs := [Plain(LdcI40), setter];
    var m3 := m.(stack := s + [StateCell] + [Num(0)]);
    PushStep(m, Plain(LdcI40), Num(0));
    RunAt(m, xs, 0, Plain(LdcI40), m3);
    assert m3.stack == s + [StateCell, Num(0)];
    SetValueStep(m3, s, 0, setter);
    RunAt(m3, xs, 1, setter, m.(stack := s, state := 0));
    assert xs[0..] == xs && xs[2..] == [];
  }

  /** The setter alone stores the integer on the stack into the field beneath it. */
  lemma StoreRuns(m: Machine, s: seq<Value>, n: int, setter: Instr)
    requires m.jump.None? && m.stack == s + [StateCell, Num(n)]
    requires setter.op == Callvirt && setter.arg == Member("NetInt::set_Value")
    ensures Run(m, [setter]) == Some(m.(stack := s, state := n))
  {
    var xs := [setter];
    SetValueStep(m, s, n, setter);
    RunAt(m, xs, 0, setter, m.(stack := s, state := n));
    assert xs[0..] == xs && xs[1..] == [];
  }

  /** The four inserted instructions replace the field on the stack by the field and one
      less than the state, in 32-bit arithmetic. */
  lemma DecrementRuns(m: Machine, s: seq<Value>)
    requires m.jump.None? && m.stack == s + [StateCell]
    ensures Run(m, Decrement()) == Some(m.(stack := s + [StateCell, Num(Wrap32(m.state - 1))]))
  {
    var c := s + [StateCell];
    var get := With(Callvirt, Member("NetInt::get_Value"));
    var less := Num(Wrap32(m.state - 1));
    var m1 := m.(stack := c + [StateCell]);
    var m2 := m.(stack := c + [Num(m.state)]);
    var m3 := m.(stack := c + [Num(m.state)] + [Num(1)]);
    var m4 := m.(stack := c + [less]);
    DupStep(m, s, StateCell);
    GetValueStep(m1, c, get);
    RunPair(m, Plain(Dup), get, m1, m2);
    PushStep(m2, Plain(LdcI41), Num(1));
    assert m3.stack == c + [Num(m.state), Num(1)];
    SubStep(m3, c, m.state, 1);
    RunPair(m2, Plain(LdcI41), Plain(Sub), m3, m4);
    assert Decrement() == [Plain(Dup), get] + [Plain(LdcI41), Plain(Sub)];
    RunThen(m, [Plain(Dup), get], [Plain(LdcI41), Plain(Sub)], m2, m4);
    assert c + [less] == s + [StateCell, less];
  }

  /** The patched code stores the state less one, in 32-bit arithmetic. */
  lemma PatchedResetRuns(state: int, c: ModConfig, ld: Instr, setter: Instr)
    requires ld.op == Ldfld && ld.arg == Member("HoeDirt::state")
    requires setter.op == Callvirt && setter.arg == Member("NetInt::set_Value")
    ensures Run(Start(state, c), [Plain(Ldarg0), ld] + Decrement() + [setter]) == Some(Start(Wrap32(state - 1), c))
  {
    var less := Wrap32(state - 1);
    var m0 := Start(state, c);
    var m2 := m0.(stack := [] + [StateCell]);
    var m6 := m0.(stack := [] + [StateCell, Num(less)]);
    var head := [Plain(Ldarg0), ld];
    LoadStateRuns(m0, ld);
    DecrementRuns(m2, []);
    StoreRuns(m6, [], less, setter);
    RunThen(m0, head, Decrement(), m2, m6);
    RunThen(m0, head + Decrement(), [setter], m6, Start(less, c));
  }

  /** The patched code sets the state to one less, so each night without water lowers it by
      one; only a state already at `int.MinValue` wraps round to `int.MaxValue`. */
  lemma DecrementLowersState(state: int, c: ModConfig, ld: Instr, setter: Instr)
    requires ld.op == Ldfld && ld.arg == Member("HoeDirt::state")
    requires setter.op == Callvirt && setter.arg == Member("NetInt::set_Value")
    ensures Run(Start(state, c), [Plain(Ldarg0), ld] + Decrement() + [setter]) == Some(Start(Wrap32(state - 1), c))
    ensures IsInt32(state) && state != Int32Min ==>
              Run(Start(state, c), [Plain(Ldarg0), ld] + Decrement() + [setter]) == Some(Start(state - 1, c))
    ensures state == Int32Min ==>
              Run(Start(state, c), [Plain(Ldarg0), ld] + Decrement() + [setter]) == Some(Start(0x7FFF_FFFF, c))
  {
    PatchedResetRuns(state, c, ld, setter);
    if state == Int32Min {
      assert Wrap32(state - 1) == 0x7FFF_FFFF;
    }
  }

  /** Two instructions that each step from the machine before them run as a pair. */
  lemma RunPair(m: Machine, a: Instr, b: Instr, m1: Machine, m2: Machine)
    requires m.jump.None? && Step(m, a) == Some(m1)
    requires m1.jump.None? && Step(m1, b) == Some(m2)
    ensures Run(m, [a, b]) == Some(m2)
  {
    var xs := [a, b];
    RunAt(m, xs, 0, a, m1);
    RunAt(m1, xs, 1, b, m2);
    assert xs[0..] == xs && xs[2..] == [];
  }

  /** One instruction that steps from the machine runs alone. */
  lemma RunSingle(m: Machine, a: Instr, m1: Machine)
    requires m.jump.None? && Step(m, a) == Some(m1)
    ensures Run(m, [a]) == Some(m1)
  {
    RunAt(m, [a], 0, a, m1);
    assert [a][0..] == [a] && [a][1..] == [];
  }

  /** Code that reaches `m1` followed by code that goes on from `m1` to `m2` reaches `m2`. */
  lemma RunThen(m: Machine, xs: seq<Instr>, ys: seq<Instr>, m1: Machine, m2: Machine)
    requires Run(m, xs) == Some(m1) && Run(m1, ys) == Some(m2)
    ensures Run(m, xs + ys) == Some(m2)
  {
    RunConcat(m, xs, ys);
  }

  /** The seven instructions that replace the reset keep its first two and its setter. */
  lemma DayUpdateWindow(codes: seq<Instr>)
    requires Find(codes, StateReset(), 0).Ok?
    ensures HoeDirtDayUpdate(codes).Ok?
    ensures var p := Find(codes, StateReset(), 0).value.start;
            var out := HoeDirtDayUpdate(codes).value;
            && p + 4 <= |codes|
            && out == codes[..p] + ([codes[p], codes[p + 1]] + Decrement() + [codes[p + 3]]) + codes[p + 4..]
  {
    var w := Find(codes, StateReset(), 0).value;
    var p := w.start;
    assert HoeDirtDayUpdate(codes) == Ok(Splice(codes, w, 2, 1, Decrement()).value.codes);
    var out := HoeDirtDayUpdate(codes).value;
    assert out == codes[..p + 2] + Decrement() + codes[p + 3..];
    ThirdOfFourReplaced(codes, p, Decrement());
  }

  /** Replacing the third of four instructions at `p`, seen as a rewrite of all four. */
  lemma ThirdOfFourReplaced(codes: seq<Instr>, p: nat, xs: seq<Instr>)
    requires p + 4 <= |codes|
    ensures codes[..p + 2] + xs + codes[p + 3..]
            == codes[..p] + ([codes[p], codes[p + 1]] + xs + [codes[p + 3]]) + codes[p + 4..]
  {
    assert codes[..p + 2] == codes[..p] + [codes[p], codes[p + 1]];
    assert codes[p + 3..] == [codes[p + 3]] + codes[p + 4..];
  }

  // ----- The delay check -----

  /** `if (hdv.state.Value > -getConfig().<section>.Delay) goto exit`: soil that is too fresh
      takes the exit. */
  function DelayCheck(hdv: Operand, section: string, exit: Label): seq<Instr> {
    [With(LdlocS, hdv), With(Ldfld, Member("HoeDirt::state")), CallTo("NetInt::get_Value"),
     CallTo("ModEntry::getConfig"), With(Ldfld, Member(section)), With(Ldfld, Member("DecayConfig::Delay")),
     Plain(Neg), Jump(Bgt, exit)]
  }

  /** `getConfig().<section>.DryingRate`, which replaces the constant chance. */
  function RateLoad(section: string): seq<Instr> {
    [CallTo("ModEntry::getConfig"), With(Ldfld, Member(section)), With(Ldfld, Member("DecayConfig::DryingRate"))]
  }

  /** Loading the soil's `state` field replaces the soil by the field. */
  lemma StateFieldStep(m: Machine, s: seq<Value>, x: Instr)
    requires m.stack == s + [Dirt] && x.op == Ldfld && x.arg == Member("HoeDirt::state")
    ensures Step(m, x) == Some(m.(stack := s + [StateCell]))
  {
    assert m.stack[..|s|] == s;
  }

  /** The `state` getter replaces the field by the soil's state. */
  lemma GetValueStep(m: Machine, s: seq<Value>, x: Instr)
    requires m.stack == s + [StateCell] && (x.op == Call || x.op == Callvirt) && x.arg == Member("NetInt::get_Value")
    ensures Step(m, x) == Some(m.(stack := s + [Num(m.state)]))
  {
    assert m.stack[..|s|] == s;
  }

  /** A delay load replaces decay settings by their delay. */
  lemma DelayStep(m: Machine, s: seq<Value>, d: DecayConfig)
    requires m.stack == s + [Decay(d)]
    ensures Step(m, With(Ldfld, Member("DecayConfig::Delay"))) == Some(m.(stack := s + [Num(d.delay)]))
  {
    assert m.stack[..|s|] == s;
  }

  /** Negation of the integer on top of the stack, wrapping to 32 bits. */
  lemma NegStep(m: Machine, s: seq<Value>, n: int)
    requires m.stack == s + [Num(n)]
    ensures Step(m, Plain(Neg)) == Some(m.(stack := s + [Num(Wrap32(-n))]))
  {
    assert m.stack[..|s|] == s;
  }

  /** `bgt` pops two integers and jumps when the first is the greater. */
  lemma BgtStep(m: Machine, s: seq<Value>, a: int, b: int, exit: Label)
    requires m.stack == s + [Num(a), Num(b)]
    ensures Step(m, Jump(Bgt, exit)) == Some(m.(stack := s, jump := if a > b then Some(exit) else None))
  {
    assert m.stack[..|s|] == s;
  }

  /** Evaluating two pieces of code in a row is evaluating them one after the other. */
  lemma {:induction false} RunConcat(m: Machine, xs: seq<Instr>, ys: seq<Instr>)
    requires Run(m, xs).Some?
    ensures Run(m, xs + ys) == Run(Run(m, xs).value, ys)
    decreases |xs|
  {
    if xs == [] {
      assert xs + ys == ys;
    } else if m.jump.None? {
      var next := Step(m, xs[0]).value;
      assert (xs + ys)[1..] == xs[1..] + ys;
      RunConcat(next, xs[1..], ys);
    }
  }

  /** A local load pushes the local. */
  lemma LoadLocalStep(m: Machine, x: Instr)
    requires x.op == LdlocS && x.arg in m.locals
    ensures Step(m, x) == Some(m.(stack := m.stack + [m.locals[x.arg]]))
  {
  }

  /** Evaluating the code from position `k` on, one instruction at a time. */
  lemma RunAt(m: Machine, xs: seq<Instr>, k: nat, x: Instr, next: Machine)
    requires k < |xs| && xs[k] == x && m.jump.None? && Step(m, x) == Some(next)
    ensures Run(m, xs[k..]) == Run(next, xs[k + 1..])
  {
    assert xs[k..][0] == xs[k] && xs[k..][1..] == xs[k + 1..];
  }

  /** The first three instructions of the check push the soil's state. */
  lemma PushStateRuns(m: Machine, hdv: Operand, section: string, exit: Label)
    requires m.jump.None? && hdv in m.locals && m.locals[hdv] == Dirt
    ensures Run(m, DelayCheck(hdv, section, exit)[..3]) == Some(m.(stack := m.stack + [Num(m.state)]))
  {
    var x0, x1, x2 := With(LdlocS, hdv), With(Ldfld, Member("HoeDirt::state")), CallTo("NetInt::get_Value");
    var xs := [x0, x1, x2];
    assert xs == DelayCheck(hdv, section, exit)[..3];
    var s := m.stack;
    var m1 := m.(stack := s + [Dirt]);
    var m2 := m.(stack := s + [StateCell]);
    var m3 := m.(stack := s + [Num(m.state)]);
    LoadLocalStep(m, x0);
    StateFieldStep(m1, s, x1);
    RunPair(m, x0, x1, m1, m2);
    GetValueStep(m2, s, x2);
    RunSingle(m2, x2, m3);
    assert xs == [x0, x1] + [x2];
    RunThen(m, [x0, x1], [x2], m2, m3);
  }

  /** The last five instructions of the check compare the pushed value with the negated
      delay and pop it. */
  lemma CompareDelayRuns(m: Machine, s: seq<Value>, a: int, hdv: Operand, section: string, exit: Label)
    requires m.jump.None? && m.stack == s + [Num(a)] && Section(m.config, section).Some?
    ensures var d := Section(m.config, section).value;
            Run(m, DelayCheck(hdv, section, exit)[3..]) ==
              Some(m.(stack := s, jump := if a > Wrap32(-d.delay) then Some(exit) else None))
  {
    var d := Section(m.config, section).value;
    LoadDelayRuns(m, hdv, section, exit);
    var m6 := m.(stack := m.stack + [Num(d.delay)]);
    assert m6.stack == s + [Num(a), Num(d.delay)];
    NegateCompareRuns(m6, s, a, d.delay, hdv, section, exit);
  }

  /** Instructions 3 to 5 of the check push the section's delay. */
  lemma LoadDelayRuns(m: Machine, hdv: Operand, section: string, exit: Label)
    requires m.jump.None? && Section(m.config, section).Some?
    ensures var d := Section(m.config, section).value;
            Run(m, DelayCheck(hdv, section, exit)[3..]) ==
              Run(m.(stack := m.stack + [Num(d.delay)]), DelayCheck(hdv, section, exit)[6..])
  {
    var d := Section(m.config, section).value;
    var xs := DelayCheck(hdv, section, exit);
    var s := m.stack;
    var m4 := m.(stack := s + [Settings]);
    var m5 := m.(stack := s + [Decay(d)]);
    var m6 := m.(stack := s + [Num(d.delay)]);
    GetConfigStep(m);
    RunAt(m, xs, 3, CallTo("ModEntry::getConfig"), m4);
    SectionStep(m4, s, section);
    RunAt(m4, xs, 4, With(Ldfld, Member(section)), m5);
    DelayStep(m5, s, d);
    RunAt(m5, xs, 5, With(Ldfld, Member("DecayConfig::Delay")), m6);
  }

  /** The last two instructions of the check negate the delay and jump when the value
      beneath it is the greater. */
  lemma NegateCompareRuns(m: Machine, s: seq<Value>, a: int, delay: int, hdv: Operand, section: string, exit: Label)
    requires m.jump.None? && m.stack == s + [Num(a), Num(delay)]
    ensures Run(m, DelayCheck(hdv, section, exit)[6..]) ==
              Some(m.(stack := s, jump := if a > Wrap32(-delay) then Some(exit) else None))
  {
    var xs := DelayCheck(hdv, section, exit);
    var n := Num(a);
    var neg := Wrap32(-delay);
    var m7 := m.(stack := (s + [n]) + [Num(neg)]);
    var out := m.(stack := s, jump := if a > neg then Some(exit) else None);
    assert m.stack == (s + [n]) + [Num(delay)];
    NegStep(m, s + [n], delay);
    RunAt(m, xs, 6, Plain(Neg), m7);
    assert (s + [n]) + [Num(neg)] == s + [n, Num(neg)];
    BgtStep(m7, s, a, neg, exit);
    RunAt(m7, xs, 7, Jump(Bgt, exit), out);
    assert xs[8..] == [];
  }

  /** The comparison the emitted check makes: `state > -Delay`, the negation taken in
      32-bit arithmetic. */
  predicate TooFreshAsEmitted(state: int, d: DecayConfig) {
    state > Wrap32(-d.delay)
  }

  /** For every 32-bit delay but `int.MinValue`, the emitted comparison is the decay rule's
      `-state < Delay`. */
  lemma EmittedIsTooFresh(state: int, d: DecayConfig)
    requires IsInt32(d.delay) && d.delay != Int32Min
    ensures TooFreshAsEmitted(state, d) <==> TooFresh(state, d)
  {
  }

  /** A delay of `int.MinValue` negates to itself, so the emitted check keeps every soil whose
      32-bit state is above `int.MinValue`, although none of it is too fresh under
      `-state < Delay`. */
  lemma MinDelayKeepsSoil(state: int, d: DecayConfig)
    requires d.delay == Int32Min && IsInt32(state) && state != Int32Min
    ensures TooFreshAsEmitted(state, d) && !TooFresh(state, d)
  {
    assert Wrap32(-d.delay) == Int32Min;
  }

  /** The delay check jumps to the exit exactly when the emitted comparison holds, which for
      every 32-bit delay but `int.MinValue` is when the soil is too fresh for the section's
      delay, and leaves the stack as it found it. */
  lemma DelayCheckJumps(m: Machine, hdv: Operand, section: string, exit: Label)
    requires m.jump.None? && hdv in m.locals && m.locals[hdv] == Dirt
    requires Section(m.config, section).Some?
    ensures Run(m, DelayCheck(hdv, section, exit)).Some?
    ensures var out := Run(m, DelayCheck(hdv, section, exit)).value;
            && out.stack == m.stack && out.state == m.state
            && (out.jump == Some(exit) <==> TooFreshAsEmitted(m.state, Section(m.config, section).value))
            && (out.jump.None? <==> !TooFreshAsEmitted(m.state, Section(m.config, section).value))
    ensures var d := Section(m.config, section).value;
            IsInt32(d.delay) && d.delay != Int32Min ==>
              (Run(m, DelayCheck(hdv, section, exit)).value.jump == Some(exit) <==> TooFresh(m.state, d))
  {
    var xs := DelayCheck(hdv, section, exit);
    assert xs == xs[..3] + xs[3..];
    PushStateRuns(m, hdv, section, exit);
    var m3 := m.(stack := m.stack + [Num(m.state)]);
    CompareDelayRuns(m3, m.stack, m.state, hdv, section, exit);
    RunConcat(m, xs[..3], xs[3..]);
  }

  /** The settings accessor pushes the settings. */
  lemma GetConfigStep(m: Machine)
    ensures Step(m, CallTo("ModEntry::getConfig")) == Some(m.(stack := m.stack + [Settings]))
  {
    assert Member("ModEntry::getConfig") != Member("NetInt::get_Value") by {
      assert "ModEntry::getConfig"[0] != "NetInt::get_Value"[0];
    }
    assert Member("ModEntry::getConfig") != Member("NetInt::set_Value") by {
      assert "ModEntry::getConfig"[0] != "NetInt::set_Value"[0];
    }
  }

  /** A load of a section replaces the settings by that section's decay settings. */
  lemma SectionStep(m: Machine, s: seq<Value>, section: string)
    requires m.stack == s + [Settings] && Section(m.config, section).Some?
    ensures Step(m, With(Ldfld, Member(section))) == Some(m.(stack := s + [Decay(Section(m.config, section).value)]))
  {
    assert m.stack[..|s|] == s;
  }

  /** A drying-rate load replaces decay settings by their drying rate. */
  lemma RateStep(m: Machine, s: seq<Value>, d: DecayConfig)
    requires m.stack == s + [Decay(d)]
    ensures Step(m, With(Ldfld, Member("DecayConfig::DryingRate"))) == Some(m.(stack := s + [Chance(d.dryingRate)]))
  {
    assert m.stack[..|s|] == s;
    assert "DecayConfig::DryingRate"[14] != "DecayConfig::Delay"[14];
  }

  /** The settings load pushes the section's drying rate. */
  lemma RateLoadPushesRate(m: Machine, section: string)
    requires m.jump.None? && Section(m.config, section).Some?
    ensures Run(m, RateLoad(section)) == Some(m.(stack := m.stack + [Chance(Section(m.config, section).value.dryingRate)]))
  {
    var d := Section(m.config, section).value;
    var xs := RateLoad(section);
    var s := m.stack;
    var m1 := m.(stack := s + [Settings]);
    var m2 := m.(stack := s + [Decay(d)]);
    var m3 := m.(stack := s + [Chance(d.dryingRate)]);
    GetConfigStep(m);
    RunAt(m, xs, 0, CallTo("ModEntry::getConfig"), m1);
    SectionStep(m1, s, section);
    RunAt(m1, xs, 1, With(Ldfld, Member(section)), m2);
    RateStep(m2, s, d);
    RunAt(m2, xs, 2, With(Ldfld, Member("DecayConfig::DryingRate")), m3);
    assert xs[0..] == xs && xs[3..] == [];
  }

  // ----- Farm.DayUpdate -----

  /** `if (terrainFeatures[key] is HoeDirt)`, whose branch skips the decay. */
  function HoeDirtTest(): seq<Matcher> {
    [OpIs(Ldarg0), OpIs(Ldfld), OpIs(LdlocS), OpIs(Callvirt), Like(With(Isinst, Member("HoeDirt"))), OpIs(Brfalse)]
  }

  /** `Game1.random.NextDouble() <= 0.1`, up to the constant. */
  function RandomRoll(): seq<Matcher> {
    [Like(With(Ldsfld, Member("Game1::random"))), OpIs(Callvirt), OpIs(LdcR8)]
  }

  /** The test keeps its six instructions, stores the soil in `hdv` before its branch, and
      gains the delay check, which exits through the test's own branch target. */
  function FarmDelayWindow(h: seq<Instr>, hdv: Operand): (w: seq<Instr>)
    requires |h| == 6 && h[5].arg.Target?
  {
    h[..5] + [With(StlocS, hdv), With(LdlocS, hdv), h[5]] + DelayCheck(hdv, "ModConfig::EachNight", h[5].arg.to)
  }

  /** Replace the window `w` by `xs`, then the next match of `ms` past the new code by that
      match's first two instructions followed by `tail`. */
  function RewriteNext(codes: seq<Instr>, w: Range, xs: seq<Instr>, ms: seq<Matcher>, tail: seq<Instr>): (res: Result<seq<Instr>, Failure>)
    requires w.In(codes) && 2 <= |ms|
  {
    var e1 := Replace(codes, w, xs).value;
    match FindNext(e1.codes, e1.range, ms)
    case Err(e) => Err(e)
    case Ok(r) =>
      var r0 := At(e1.codes, r, 0).value;
      var r1 := At(e1.codes, r, 1).value;
      Ok(Replace(e1.codes, r, [r0, r1] + tail).value.codes)
  }

  /** The rewrite applies exactly when the pattern occurs past the window, and lays the code
      out as both edits made on the original. */
  lemma RewriteNextLayout(codes: seq<Instr>, w: Range, xs: seq<Instr>, ms: seq<Matcher>, tail: seq<Instr>)
    requires w.In(codes) && 2 <= |ms|
    ensures RewriteNext(codes, w, xs, ms, tail).Ok? <==> FindNext(codes, w, ms).Ok?
    ensures RewriteNext(codes, w, xs, ms, tail).Ok? ==>
              var q := FindNext(codes, w, ms).value.start;
              RewriteNext(codes, w, xs, ms, tail).value ==
                codes[..w.start] + xs + codes[w.End()..q] + ([codes[q], codes[q + 1]] + tail) + codes[q + |ms|..]
  {
    FindNextAfterReplace(codes, w, xs, ms);
    if FindNext(codes, w, ms).Ok? {
      ReplaceNextLayout(codes, w, xs, ms, tail);
    }
  }

  /** The Farm.DayUpdate patch; `hdv` is the local the patch declares. With the test
      found, it is replaced, then the next random roll's constant becomes the nightly
      drying rate. */
  function FarmDayUpdate(codes: seq<Instr>, hdv: Operand): (res: Result<seq<Instr>, Failure>)
    ensures res.Ok? ==> Find(codes, HoeDirtTest(), 0).Ok?
    ensures res.Ok? ==> codes[Find(codes, HoeDirtTest(), 0).value.start + 5].arg.Target?
  {
    match Find(codes, HoeDirtTest(), 0)
    case Err(e) => Err(e)
    case Ok(w) =>
      if !codes[w.start + 5].arg.Target? then Err(NotABranch(w.start + 5))
      else RewriteNext(codes, w, FarmDelayWindow(Window(codes, w), hdv), RandomRoll(), RateLoad("ModConfig::EachNight"))
  }

  /** With the test found with a branch, the patch applies exactly when a random roll
      follows it, and is the two rewrites of `RewriteNext`. */
  lemma FarmDayUpdateApplies(codes: seq<Instr>, hdv: Operand)
    requires Find(codes, HoeDirtTest(), 0).Ok?
    requires codes[Find(codes, HoeDirtTest(), 0).value.start + 5].arg.Target?
    ensures var w := Find(codes, HoeDirtTest(), 0).value;
            && FarmDayUpdate(codes, hdv) ==
                 RewriteNext(codes, w, FarmDelayWindow(Window(codes, w), hdv), RandomRoll(), RateLoad("ModConfig::EachNight"))
            && (FarmDayUpdate(codes, hdv).Ok? <==> FindNext(codes, w, RandomRoll()).Ok?)
  {
    var w := Find(codes, HoeDirtTest(), 0).value;
    RewriteNextLayout(codes, w, FarmDelayWindow(Window(codes, w), hdv), RandomRoll(), RateLoad("ModConfig::EachNight"));
  }

  /** The patched code is the original code with the sixteen-instruction test and the rate
      load in place of the constant. */
  lemma FarmDayUpdateLayout(codes: seq<Instr>, hdv: Operand)
    requires FarmDayUpdate(codes, hdv).Ok?
    ensures var w := Find(codes, HoeDirtTest(), 0).value;
            var s := w.start;
            && FindNext(codes, w, RandomRoll()).Ok?
            && var q := FindNext(codes, w, RandomRoll()).value.start;
               FarmDayUpdate(codes, hdv).value ==
                 codes[..s] + FarmDelayWindow(Window(codes, w), hdv) + codes[s + 6..q]
                 + ([codes[q], codes[q + 1]] + RateLoad("ModConfig::EachNight")) + codes[q + 3..]
  {
    var w := Find(codes, HoeDirtTest(), 0).value;
    var xs := FarmDelayWindow(Window(codes, w), hdv);
    var tail := RateLoad("ModConfig::EachNight");
    FarmDayUpdateApplies(codes, hdv);
    RewriteNextLayout(codes, w, xs, RandomRoll(), tail);
    assert w.End() == w.start + 6;
    assert |RandomRoll()| == 3;
  }

  /** The new test still branches to the old target on non-soil, and its last instruction
      takes that same exit for soil that is too fresh under the nightly delay. */
  lemma FarmDelayExits(h: seq<Instr>, hdv: Operand, m: Machine)
    requires |h| == 6 && h[5].arg.Target?
    requires m.jump.None? && hdv in m.locals && m.locals[hdv] == Dirt
    ensures var w := FarmDelayWindow(h, hdv);
            && |w| == 16 && w[..5] == h[..5] && w[7] == h[5]
            && w[15] == Jump(Bgt, h[5].arg.to)
            && Run(m, w[8..]).Some?
            && (Run(m, w[8..]).value.jump == Some(h[5].arg.to) <==> TooFreshAsEmitted(m.state, m.config.eachNight))
            && (IsInt32(m.config.eachNight.delay) && m.config.eachNight.delay != Int32Min ==>
                  (Run(m, w[8..]).value.jump == Some(h[5].arg.to) <==> TooFresh(m.state, m.config.eachNight)))
  {
    var w := FarmDelayWindow(h, hdv);
    assert w[8..] == DelayCheck(hdv, "ModConfig::EachNight", h[5].arg.to);
    DelayCheckJumps(m, hdv, "ModConfig::EachNight", h[5].arg.to);
  }

  // ----- GameLocation.HandleGrassGrowth and IslandWest.DayUpdate -----

  /** `is HoeDirt && crop == null && Game1.random.NextDouble() <= <constant>`. */
  function CropRoll(): seq<Matcher> {
    [Like(With(Isinst, Member("HoeDirt"))), Like(With(Callvirt, Member("HoeDirt::get_crop"))), OpIs(Brtrue),
     Like(With(Ldsfld, Member("Game1::random"))), OpIs(Callvirt), OpIs(LdcR8)]
  }

  /** The test with the soil stored in `hdv`, the delay check exiting through the crop test's
      branch target, the soil reloaded, the crop test and the draw, then the section's drying
      rate in place of the constant. */
  function GrowthWindow(h: seq<Instr>, hdv: Operand, section: string): seq<Instr>
    requires |h| == 6 && h[2].arg.Target?
  {
    [h[0], With(StlocS, hdv)] + DelayCheck(hdv, section, h[2].arg.to)
    + [With(LdlocS, hdv), h[1], h[2], h[3], h[4]] + RateLoad(section)
  }

  /** The window at `w` replaced for a settings section. */
  function GrowthPatchAt(codes: seq<Instr>, w: Range, hdv: Operand, section: string): (res: seq<Instr>)
    requires w.In(codes) && w.length == 6 && codes[w.start + 2].arg.Target?
    ensures Spliced(codes, res, w.start, 6, GrowthWindow(codes[w.start..w.start + 6], hdv, section))
  {
    Replace(codes, w, GrowthWindow(Window(codes, w), hdv, section)).value.codes
  }

  /** The shared shape of the two patches, for a settings section. */
  function GrowthPatch(codes: seq<Instr>, hdv: Operand, section: string): (res: Result<seq<Instr>, Failure>)
    ensures res.Ok? ==> FindFrom(codes, CropRoll(), 0).Some?
    ensures res.Ok? ==>
              var p := FindFrom(codes, CropRoll(), 0).value;
              && codes[p + 2].arg.Target?
              && Spliced(codes, res.value, p, 6, GrowthWindow(codes[p..p + 6], hdv, section))
    ensures (forall k :: !MatchesAt(codes, CropRoll(), k)) ==> res.Err?
  {
    match Find(codes, CropRoll(), 0)
    case Err(e) => Err(e)
    case Ok(w) =>
      if !codes[w.start + 2].arg.Target? then Err(NotABranch(w.start + 2))
      else Ok(GrowthPatchAt(codes, w, hdv, section))
  }

  /** GameLocation.HandleGrassGrowth: the seasonal decay. */
  function GameLocationHandleGrassGrowth(codes: seq<Instr>, hdv: Operand): (res: Result<seq<Instr>, Failure>)
    ensures res.Ok? ==> |res.value| == |codes| + 12
    ensures res.Ok? ==> FindFrom(codes, CropRoll(), 0).Some?
    ensures res.Ok? ==>
              var p := FindFrom(codes, CropRoll(), 0).value;
              && codes[p + 2].arg.Target?
              && Spliced(codes, res.value, p, 6, GrowthWindow(codes[p..p + 6], hdv, "ModConfig::EachSeason"))
    ensures (forall k :: !MatchesAt(codes, CropRoll(), k)) ==> res.Err?
  {
    GrowthPatch(codes, hdv, "ModConfig::EachSeason")
  }

  /** IslandWest.DayUpdate: the island's nightly decay. */
  function IslandWestDayUpdate(codes: seq<Instr>, hdv: Operand): (res: Result<seq<Instr>, Failure>)
    ensures res.Ok? ==> |res.value| == |codes| + 12
    ensures res.Ok? ==> FindFrom(codes, CropRoll(), 0).Some?
    ensures res.Ok? ==>
              var p := FindFrom(codes, CropRoll(), 0).value;
              && codes[p + 2].arg.Target?
              && Spliced(codes, res.value, p, 6, GrowthWindow(codes[p..p + 6], hdv, "ModConfig::Island"))
    ensures (forall k :: !MatchesAt(codes, CropRoll(), k)) ==> res.Err?
  {
    GrowthPatch(codes, hdv, "ModConfig::Island")
  }

  /** The first five matched instructions survive in their order, and the constant chance
      is the only one dropped: no `ldc.r8` remains in the window, which ends with the load
      of the section's drying rate. */
  lemma GrowthWindowShape(h: seq<Instr>, hdv: Operand, section: string)
    requires |h| == 6 && h[2].arg.Target?
    requires forall k :: 0 <= k < 5 ==> h[k].op != LdcR8
    ensures var w := GrowthWindow(h, hdv, section);
            && |w| == 18
            && w[0] == h[0] && w[11..15] == h[1..5]
            && w[15..] == RateLoad(section)
            && (forall k :: 0 <= k < 18 ==> w[k].op != LdcR8)
  {
    var w := GrowthWindow(h, hdv, section);
    forall k | 0 <= k < 18
      ensures w[k].op != LdcR8
    {
      if k == 0 {
      } else if 11 <= k < 15 {
        assert w[k] == h[k - 10];
      }
    }
  }

  /** The delay check of the window exits through the crop test's branch target exactly for
      soil too fresh under the section's delay. */
  lemma GrowthDelayExits(h: seq<Instr>, hdv: Operand, section: string, m: Machine)
    requires |h| == 6 && h[2].arg.Target?
    requires m.jump.None? && hdv in m.locals && m.locals[hdv] == Dirt && Section(m.config, section).Some?
    ensures var w := GrowthWindow(h, hdv, section);
            && Run(m, w[2..10]).Some?
            && (Run(m, w[2..10]).value.jump == Some(h[2].arg.to) <==> TooFreshAsEmitted(m.state, Section(m.config, section).value))
            && (var d := Section(m.config, section).value;
                IsInt32(d.delay) && d.delay != Int32Min ==>
                  (Run(m, w[2..10]).value.jump == Some(h[2].arg.to) <==> TooFresh(m.state, d)))
  {
    var w := GrowthWindow(h, hdv, section);
    assert w[2..10] == DelayCheck(hdv, section, h[2].arg.to);
    DelayCheckJumps(m, hdv, section, h[2].arg.to);
  }

  /** Only the last of the six instructions the crop roll matches is a floating constant. */
  lemma CropRollOps(codes: seq<Instr>, p: nat)
    requires MatchesAt(codes, CropRoll(), p)
    ensures codes[p + 5].op == LdcR8 && forall k :: p <= k < p + 5 ==> codes[k].op != LdcR8
  {
    MatchedAt(codes, CropRoll(), p, 0);
    MatchedAt(codes, CropRoll(), p, 1);
    MatchedAt(codes, CropRoll(), p, 2);
    MatchedAt(codes, CropRoll(), p, 3);
    MatchedAt(codes, CropRoll(), p, 4);
    MatchedAt(codes, CropRoll(), p, 5);
  }

  /** The replaced window sits where the matched one was. */
  lemma GrowthPatchAtLayout(codes: seq<Instr>, w: Range, hdv: Operand, section: string)
    requires w.In(codes) && w.length == 6 && codes[w.start + 2].arg.Target?
    ensures var out := GrowthPatchAt(codes, w, hdv, section);
            out[w.start..w.start + 18] == GrowthWindow(codes[w.start..w.start + 6], hdv, section)
  {
    var p := w.start;
    var g := GrowthWindow(codes[p..p + 6], hdv, section);
    var out := GrowthPatchAt(codes, w, hdv, section);
    forall k | 0 <= k < 18
      ensures out[p + k] == g[k]
    {
    }
    assert out[p..p + 18] == g;
  }

  /** A slice equal to a window without floating constants has none either. */
  lemma NoConstantInSlice(out: seq<Instr>, p: nat, g: seq<Instr>)
    requires p + |g| <= |out| && out[p..p + |g|] == g
    requires forall k :: 0 <= k < |g| ==> g[k].op != LdcR8
    ensures forall k :: p <= k < p + |g| ==> out[k].op != LdcR8
  {
    forall k | p <= k < p + |g|
      ensures out[k].op != LdcR8
    {
      assert out[k] == g[k - p];
    }
  }

  /** At a matched window the replacement holds the eighteen-instruction window, in which
      the constant chance no longer occurs. */
  lemma GrowthPatchAtWindow(codes: seq<Instr>, w: Range, hdv: Operand, section: string)
    requires w.In(codes) && w.length == 6 && codes[w.start + 2].arg.Target?
    requires MatchesAt(codes, CropRoll(), w.start)
    ensures var p := w.start;
            var out := GrowthPatchAt(codes, w, hdv, section);
            && codes[p + 5].op == LdcR8
            && out[p..p + 18] == GrowthWindow(codes[p..p + 6], hdv, section)
            && (forall k :: p <= k < p + 18 ==> out[k].op != LdcR8)
  {
    var p := w.start;
    var h := codes[p..p + 6];
    CropRollOps(codes, p);
    assert forall k :: 0 <= k < 5 ==> h[k] == codes[p + k];
    GrowthWindowShape(h, hdv, section);
    GrowthPatchAtLayout(codes, w, hdv, section);
    var out := GrowthPatchAt(codes, w, hdv, section);
    NoConstantInSlice(out, p, GrowthWindow(h, hdv, section));
  }

  /** In the patched code the matched window became the eighteen-instruction window, in
      which the constant the original code compared the draw against no longer occurs. */
  lemma GrowthPatchWindow(codes: seq<Instr>, hdv: Operand, section: string)
    requires Find(codes, CropRoll(), 0).Ok?
    requires codes[Find(codes, CropRoll(), 0).value.start + 2].arg.Target?
    ensures GrowthPatch(codes, hdv, section).Ok?
    ensures var p := Find(codes, CropRoll(), 0).value.start;
            var out := GrowthPatch(codes, hdv, section).value;
            && codes[p + 5].op == LdcR8
            && out[p..p + 18] == GrowthWindow(codes[p..p + 6], hdv, section)
            && (forall k :: p <= k < p + 18 ==> out[k].op != LdcR8)
  {
    var r := Find(codes, CropRoll(), 0).value;
    assert GrowthPatch(codes, hdv, section) == Ok(GrowthPatchAt(codes, r, hdv, section));
    GrowthPatchAtWindow(codes, r, hdv, section);
  }

  // ----- GameLocation.DayUpdate -----

  /** `terrainFeatures.Remove(collection.ElementAt(num4))`. */
  function TerrainRemove(): seq<Matcher> {
    [Like(Plain(Ldarg0)), Field("GameLocation::terrainFeatures"), OpIs(LdlocS), OpIs(LdlocS),
     OpIs(Call), OpIs(Callvirt), OpIs(Pop)]
  }

  /** `remove_non_farm_hoedirt(this, collection.ElementAt(num4))`. */
  function RemovalCall(c: seq<Instr>): seq<Instr>
    requires |c| == 7
  {
    [c[0], c[2], c[3], c[4], CallTo("ModEntry::remove_non_farm_hoedirt")]
  }

  /** The unconditional removal becomes a call of the decay rule with the same location and
      key; the field load and the discarded result of Remove go. */
  function GameLocationDayUpdate(codes: seq<Instr>): (res: Result<seq<Instr>, Failure>)
    ensures res.Err? <==> forall k :: !MatchesAt(codes, TerrainRemove(), k)
    ensures res.Ok? ==> FindFrom(codes, TerrainRemove(), 0).Some?
    ensures res.Ok? ==>
              var p := FindFrom(codes, TerrainRemove(), 0).value;
              && |res.value| == |codes| - 2
              && res.value[..p] == codes[..p]
              && res.value[p..p + 5] == [codes[p], codes[p + 2], codes[p + 3], codes[p + 4],
                                         CallTo("ModEntry::remove_non_farm_hoedirt")]
              && res.value[p + 5..] == codes[p + 7..]
  {
    match Find(codes, TerrainRemove(), 0)
    case Err(e) => Err(e)
    case Ok(w) =>
      var xs := RemovalCall(Window(codes, w));
      var out := Replace(codes, w, xs).value.codes;
      SplicedLayout(codes, out, w.start, 7, xs);
      Ok(out)
  }
}
