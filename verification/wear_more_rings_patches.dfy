/** WearMoreRings' bytecode patches as transforms of a method body: each searches the
    original game code with a pattern and splices in a call to the mod. */
module WearMoreRingsPatches {
  import opened Wrappers
  import opened Instructions
  import opened Matchers
  import opened Search
  import opened Labels
  import opened Ranges
  import opened RangeProperties

  function PlayerGetter(): Matcher { Exact(Call, Member("Game1::get_player")) }

  // ----- Farmer.isWearingRing -----

  /** The new body of Farmer.isWearingRing: return CountEquippedRings(this, which). */
  function IsWearingRingBody(): seq<Instr> {
    [CallTo("ModEntry::getInstance"), Plain(Ldarg0), Plain(Ldarg1),
     CallTo("ModEntry::CountEquippedRings"), Plain(Ret)]
  }

  /** AllCode().Replace(...): whatever the original body, the method becomes the five
      instructions of the new body. */
  function FarmerIsWearingRing(b: Buffer): (res: Result<Buffer, Failure>)
    ensures res == Ok(Buffer(IsWearingRingBody(), b.next))
  {
    var e := Replace(b.codes, Whole(b.codes), IsWearingRingBody()).value;
    assert e.codes == IsWearingRingBody();
    Ok(Buffer(e.codes, b.next))
  }

  // ----- Farmer.updateCommon -----

  /** The two ring updates: `if (ring != null) ring.update(time, location, this)`, right then left. */
  function RingUpdates(): seq<Matcher> {
    [OpIs(Ldarg0), Field("Farmer::rightRing"), OpIs(Callvirt), OpIs(Brfalse),
     OpIs(Ldarg0), Field("Farmer::rightRing"), OpIs(Callvirt), OpIs(Ldarg1), OpIs(Ldarg2), OpIs(Ldarg0), OpIs(Callvirt),
     OpIs(Ldarg0), Field("Farmer::leftRing"), OpIs(Callvirt), OpIs(Brfalse),
     OpIs(Ldarg0), Field("Farmer::leftRing"), OpIs(Callvirt), OpIs(Ldarg1), OpIs(Ldarg2), OpIs(Ldarg0), OpIs(Callvirt)]
  }

  function UpdateRingsCall(): seq<Instr> {
    [Plain(Ldarg1), Plain(Ldarg2), Plain(Ldarg0), CallTo("ModEntry::UpdateRings")]
  }

  /** The first occurrence of the two ring updates becomes one call to UpdateRings. */
  function FarmerUpdateCommon(b: Buffer): (res: Result<Buffer, Failure>)
    ensures res.Err? <==> forall k :: !MatchesAt(b.codes, RingUpdates(), k)
    ensures res.Ok? ==> FindFrom(b.codes, RingUpdates(), 0).Some?
    ensures res.Ok? ==> Spliced(b.codes, res.value.codes, FindFrom(b.codes, RingUpdates(), 0).value, 22, UpdateRingsCall())
    ensures res.Ok? ==> res.value.next == b.next
  {
    var e :- FindReplace(b.codes, RingUpdates(), UpdateRingsCall());
    Ok(Buffer(e.codes, b.next))
  }

  // ----- GameLocation.cleanupBeforePlayerExit and resetLocalState -----

  function RightRingCheck(): seq<Matcher> {
    [PlayerGetter(), Field("Farmer::rightRing"), OpIs(Callvirt), OpIs(Brfalse)]
  }

  /** `Game1.player.leftRing.Value.<hook>(Game1.player, this)`, the end of the left-ring call. */
  function LeftRingHook(hook: string): seq<Matcher> {
    [PlayerGetter(), Field("Farmer::leftRing"), OpIs(Callvirt), PlayerGetter(), OpIs(Ldarg0),
     Exact(Callvirt, Member("Ring::" + hook))]
  }

  /** From the first right-ring check through the next left-ring call of `hook`. */
  function HookBlock(codes: seq<Instr>, hook: string): Result<Range, Failure> {
    FindBlock(codes, RightRingCheck(), LeftRingHook(hook), 0)
  }


  /** Both ring hook calls become one call of `replacement` with the location, which visits
      every worn ring. */
  function LocationRingHook(b: Buffer, hook: string, replacement: string): (res: Result<Buffer, Failure>)
    ensures res.Ok? <==> HookBlock(b.codes, hook).Ok?
    ensures res.Ok? ==>
              var w := HookBlock(b.codes, hook).value;
              Spliced(b.codes, res.value.codes, w.start, w.length, [Plain(Ldarg0), CallTo(replacement)])
    ensures res.Ok? ==> res.value.next == b.next
  {
    var whole :- HookBlock(b.codes, hook);
    var e := Replace(b.codes, whole, [Plain(Ldarg0), CallTo(replacement)]).value;
    Ok(Buffer(e.codes, b.next))
  }

  /** GameLocation.cleanupBeforePlayerExit: the rings' leave-location hooks. */
  function GameLocationCleanupBeforePlayerExit(b: Buffer): Result<Buffer, Failure> {
    LocationRingHook(b, "onLeaveLocation", "ModEntry::ring_onLeaveLocation")
  }

  /** GameLocation.resetLocalState: the rings' new-location hooks. */
  function GameLocationResetLocalState(b: Buffer): Result<Buffer, Failure> {
    LocationRingHook(b, "onNewLocation", "ModEntry::ring_onNewLocation")
  }

  // ----- GameLocation.damageMonster -----

  /** `if (who != null && who.leftRing.Value != null)`, with `who` the argument at `who`. */
  function RingCheck(who: nat): seq<Matcher> {
    [Exact(LdargS, Arg(who)), OpIs(Brfalse), Exact(LdargS, Arg(who)), Field("Farmer::leftRing"),
     OpIs(Callvirt), OpIs(Brfalse)]
  }

  /** `who.rightRing.Value.onMonsterSlay(monster, this, who)`. */
  function SlayCall(who: nat): seq<Matcher> {
    [Exact(LdargS, Arg(who)), Field("Farmer::rightRing"), OpIs(Callvirt),
     OpIs(Ldloc2), OpIs(Ldarg0), Exact(LdargS, Arg(who)),
     Exact(Callvirt, Member("Ring::onMonsterSlay"))]
  }

  /** The ring-slay block: from the first ring check to the end of the next right-ring
      onMonsterSlay call. */
  function SlayBlock(codes: seq<Instr>, who: nat): Result<Range, Failure> {
    FindBlock(codes, RingCheck(who), SlayCall(who), 0)
  }


  /** The last three loads before the final callvirt of a slay call: the monster local,
      `this` and `who`. */
  lemma SlayCallArguments(codes: seq<Instr>, who: nat, q: int)
    requires MatchesAt(codes, SlayCall(who), q)
    ensures 0 <= q && q + 7 <= |codes|
    ensures codes[q + 3].op == Ldloc2 && codes[q + 4].op == Ldarg0
    ensures codes[q + 5].op == LdargS && codes[q + 5].arg == Arg(who)
  {
    MatchedAt(codes, SlayCall(who), q, 3);
    MatchedAt(codes, SlayCall(who), q, 4);
    MatchedAt(codes, SlayCall(who), q, 5);
  }

  /** `out` is `codes` with the block `w` replaced by `ModEntry.ring_onMonsterSlay(monster,
      this, who)`: the code around the block is untouched, and the new call receives the
      monster local, `this` and `who`, in that order. */
  ghost predicate SlayReplaced(codes: seq<Instr>, who: nat, w: Range, out: seq<Instr>) {
    && w.In(codes)
    && |out| == |codes| - w.length + 4
    && out[..w.start] == codes[..w.start]
    && out[w.start + 4..] == codes[w.End()..]
    && out[w.start].op == Ldloc2
    && out[w.start + 1].op == Ldarg0
    && out[w.start + 2].op == LdargS && out[w.start + 2].arg == Arg(who)
    && out[w.start + 3] == CallTo("ModEntry::ring_onMonsterSlay")
  }

  /** The found block `w`, ending with a slay call, is replaced by the three loads SubRange(length
      - 4, 3) picks from it and the new call: exactly the arguments of the old call. */
  function ReplaceSlayBlock(codes: seq<Instr>, who: nat, w: Range): (out: seq<Instr>)
    requires SlayBlock(codes, who) == Ok(w)
    ensures SlayReplaced(codes, who, w, out)
  {
    var monster := SubRange(w, w.length - 4, 3).value;
    var m0 := At(codes, monster, 0).value;
    var m1 := At(codes, monster, 1).value;
    var m2 := At(codes, monster, 2).value;
    var q := w.End() - 7;
    assert m0 == codes[q + 3] && m1 == codes[q + 4] && m2 == codes[q + 5];
    SlayCallArguments(codes, who, q);
    ReplacedByFour(codes, w, m0, m1, m2, CallTo("ModEntry::ring_onMonsterSlay"));
    Replace(codes, w, [m0, m1, m2, CallTo("ModEntry::ring_onMonsterSlay")]).value.codes
  }

  /** GameLocation.damageMonster: the Farmer-ring slay block replaced as above. */
  function GameLocationDamageMonster(b: Buffer, who: nat): (res: Result<Buffer, Failure>)
    ensures res.Ok? <==> SlayBlock(b.codes, who).Ok?
    ensures res.Ok? ==> res.value.next == b.next
    ensures res.Ok? ==> SlayReplaced(b.codes, who, SlayBlock(b.codes, who).value, res.value.codes)
  {
    match SlayBlock(b.codes, who)
    case Err(err) => Err(err)
    case Ok(code) => Ok(Buffer(ReplaceSlayBlock(b.codes, who, code), b.next))
  }

  /** A window replaced by four instructions: the code around it is kept and the four sit
      where the window began. */
  lemma ReplacedByFour(codes: seq<Instr>, w: Range, x0: Instr, x1: Instr, x2: Instr, x3: Instr)
    requires w.In(codes)
    ensures var out := Replace(codes, w, [x0, x1, x2, x3]).value.codes;
            && |out| == |codes| - w.length + 4
            && out[..w.start] == codes[..w.start]
            && out[w.start + 4..] == codes[w.End()..]
            && out[w.start] == x0 && out[w.start + 1] == x1 && out[w.start + 2] == x2 && out[w.start + 3] == x3
  {
    var xs := [x0, x1, x2, x3];
    var out := Replace(codes, w, xs).value.codes;
    SplicedParts(codes, out, w.start, w.length, xs);
    assert out[w.start] == xs[0] && out[w.start + 1] == xs[1];
    assert out[w.start + 2] == xs[2] && out[w.start + 3] == xs[3];
  }

  // ----- InventoryPage constructor -----

  /** `equipmentIcons.Add(new ClickableComponent(...) { ..., xPositionOnScreen + 48, ... })`. */
  function IconStart(): seq<Matcher> {
    [OpIs(Ldarg0), Field("InventoryPage::equipmentIcons"), OpIs(Ldarg0),
     Field("IClickableMenu::xPositionOnScreen"), Exact(LdcI4S, Int(48))]
  }

  /** The end of an icon's initializer: a neighbour id, fullyImmutable = true, and the Add call. */
  function IconEnd(neighbour: string, id: int): seq<Matcher> {
    [OpIs(Dup), Exact(LdcI4S, Int(id)), Exact(Stfld, Member("ClickableComponent::" + neighbour)),
     OpIs(Dup), OpIs(LdcI41), Exact(Stfld, Member("ClickableComponent::fullyImmutable")), OpIs(Callvirt)]
  }

  /** The vanilla ring and boots icons: from the first icon creation to the one whose right
      neighbour is 109. */
  function RingIconsBlock(codes: seq<Instr>): Result<Range, Failure> {
    FindBlock(codes, IconStart(), IconEnd("rightNeighborID", 109), 0)
  }


  /** The vanilla hat, shirt and pants icons: the next icon creation after `r`, up to the one
      whose left neighbour is 104. */
  function VanillaIconsBlock(codes: seq<Instr>, r: Range): Result<Range, Failure> {
    FindBlock(codes, IconStart(), IconEnd("leftNeighborID", 104), r.End())
  }


  function AddEquipmentIconsCall(): seq<Instr> {
    [Plain(Ldarg0), CallTo("ModEntry::AddEquipmentIcons")]
  }

  /** With the ring and boots block `first` found: it becomes a call to AddEquipmentIcons,
      and the hat, shirt and pants block after it is removed. */
  function ReplaceIcons(codes: seq<Instr>, first: Range): (res: Result<seq<Instr>, Failure>)
    requires first.In(codes) && 2 <= first.length
  {
    var e1 := Replace(codes, first, AddEquipmentIconsCall()).value;
    match VanillaIconsBlock(e1.codes, e1.range)
    case Err(e) => Err(e)
    case Ok(second) => Ok(Remove(e1.codes, second).value.codes)
  }

  /** The removed block is the one the search finds in the original code after `first`, and
      the code between the two blocks is kept. */
  lemma ReplaceIconsLayout(codes: seq<Instr>, first: Range)
    requires first.In(codes) && 2 <= first.length
    ensures ReplaceIcons(codes, first).Ok? <==> VanillaIconsBlock(codes, first).Ok?
    ensures ReplaceIcons(codes, first).Ok? ==>
              var second := VanillaIconsBlock(codes, first).value;
              ReplaceIcons(codes, first).value ==
                codes[..first.start] + AddEquipmentIconsCall() + codes[first.End()..second.start] + codes[second.End()..]
  {
    if VanillaIconsBlock(codes, first).Ok? {
      RemoveNextBlockLayout(codes, first, AddEquipmentIconsCall(), IconStart(), IconEnd("leftNeighborID", 104));
    } else {
      ExtendNextAfterReplace(codes, first, AddEquipmentIconsCall(), IconStart(), IconEnd("leftNeighborID", 104));
    }
  }

  /** The constructor patch: locate the ring and boots block, then ReplaceIcons. */
  function InventoryPageCtor(b: Buffer): (res: Result<Buffer, Failure>)
    ensures res.Ok? ==> RingIconsBlock(b.codes).Ok? && res.value.next == b.next
  {
    match RingIconsBlock(b.codes)
    case Err(e) => Err(e)
    case Ok(first) =>
      match ReplaceIcons(b.codes, first)
      case Err(e) => Err(e)
      case Ok(codes) => Ok(Buffer(codes, b.next))
  }

  /** After the constructor patch the method is the code before the first icon, the call to
      AddEquipmentIcons, the original code between the two icon blocks, and the code after
      the second block, which is the block the search finds in the original code. */
  lemma InventoryPageCtorLayout(b: Buffer)
    requires InventoryPageCtor(b).Ok?
    ensures VanillaIconsBlock(b.codes, RingIconsBlock(b.codes).value).Ok?
    ensures var first := RingIconsBlock(b.codes).value;
            var second := VanillaIconsBlock(b.codes, first).value;
            InventoryPageCtor(b).value.codes ==
              b.codes[..first.start] + AddEquipmentIconsCall() + b.codes[first.End()..second.start] + b.codes[second.End()..]
  {
    var first := RingIconsBlock(b.codes).value;
    assert InventoryPageCtor(b).value.codes == ReplaceIcons(b.codes, first).value;
    ReplaceIconsLayout(b.codes, first);
  }

  // ----- InventoryPage.draw -----

  /** The switch over the icon name as the Linux and macOS build compiles it. */
  function DrawSwitchUnix(): seq<Matcher> {
    [OpIs(LdlocaS), OpIs(Call), OpIs(StlocS), OpIs(LdlocS), Field("ClickableComponent::name"),
     OpIs(StlocS), OpIs(LdlocS), OpIs(Brfalse), OpIs(LdlocS), Exact(Ldstr, Str("Hat"))]
  }

  /** The same switch as the Windows build compiles it: no null case. */
  function DrawSwitchWindows(): seq<Matcher> {
    [OpIs(LdlocaS), OpIs(Call), OpIs(StlocS), OpIs(LdlocS), Field("ClickableComponent::name"),
     OpIs(StlocS), OpIs(LdlocS), Exact(Ldstr, Str("Hat"))]
  }

  /** try FindCode(Unix pattern) catch FindCode(Windows pattern). */
  function DrawSwitch(codes: seq<Instr>): (res: Result<Range, Failure>)
    ensures res.Ok? ==> res.value.start + 8 <= |codes|
  {
    match Find(codes, DrawSwitchUnix(), 0)
    case Ok(r) => Ok(r)
    case Err(_) => Find(codes, DrawSwitchWindows(), 0)
  }

  /** The Unix form wins whenever it occurs, the Windows form is found otherwise, and the
      search fails only when neither form occurs. */
  lemma DrawSwitchPrefersUnix(codes: seq<Instr>)
    ensures DrawSwitch(codes).Err? <==>
              (forall k :: !MatchesAt(codes, DrawSwitchUnix(), k)) && (forall k :: !MatchesAt(codes, DrawSwitchWindows(), k))
    ensures (exists k :: MatchesAt(codes, DrawSwitchUnix(), k)) ==>
              && DrawSwitch(codes).Ok? && DrawSwitch(codes).value.length == 10
              && FindFrom(codes, DrawSwitchUnix(), 0) == Some(DrawSwitch(codes).value.start)
    ensures (forall k :: !MatchesAt(codes, DrawSwitchUnix(), k)) && DrawSwitch(codes).Ok? ==>
              && DrawSwitch(codes).value.length == 8
              && FindFrom(codes, DrawSwitchWindows(), 0) == Some(DrawSwitch(codes).value.start)
  {
    var unix := Find(codes, DrawSwitchUnix(), 0);
    if unix.Ok? {
      assert unix.value == Range(FindFrom(codes, DrawSwitchUnix(), 0).value, 10);
    } else {
      var windows := Find(codes, DrawSwitchWindows(), 0);
      assert DrawSwitch(codes) == windows;
      if windows.Ok? {
        assert windows.value == Range(FindFrom(codes, DrawSwitchWindows(), 0).value, 8);
      }
    }
  }

  /** The loop body: from the switch to where the branch just before it (the jump to the
      loop condition) lands. */
  function DrawLoopBody(codes: seq<Instr>): (res: Result<Range, Failure>)
    ensures res.Ok? ==> res.value.In(codes) && 1 <= res.value.start
    ensures res.Ok? ==> res.value.start + 8 <= |codes|
    ensures res.Ok? ==>
              && codes[res.value.start - 1].arg.Target?
              && Resolve(codes, codes[res.value.start - 1].arg.to) == Some(res.value.End())
  {
    var range :- DrawSwitch(codes);
    var target :- Follow(codes, range, -1);
    ExtendTo(range, target)
  }

  function Offset32(): seq<Matcher> {
    [Exact(LdcR4, Float(32.0)), OpIs(Stloc0)]
  }

  function DrawEquipmentCall(r0: Instr, r1: Instr): seq<Instr> {
    [r0, r1, Plain(Ldarg1), CallTo("ModEntry::DrawEquipment")]
  }

  /** With the loop body found: it becomes the DrawEquipment call, keeping the body's first
      two instructions (the current icon); then the first `ldc.r4 32; stloc.0` after it
      gets the constant 64. */
  function DrawEquipmentAt(codes: seq<Instr>, body: Range): (res: Result<seq<Instr>, Failure>)
    requires body.In(codes) && body.start + 2 <= |codes|
  {
    var r0 := At(codes, body, 0).value;
    var r1 := At(codes, body, 1).value;
    var e := Replace(codes, body, DrawEquipmentCall(r0, r1)).value;
    match FindNext(e.codes, e.range, Offset32())
    case Err(err) => Err(err)
    case Ok(shift) => Ok(Put(e.codes, shift, 0, With(LdcR4, Float(64.0))).value)
  }

  /** The constant changed is the first `ldc.r4 32; stloc.0` of the original code after the
      loop body, and nothing else changes. */
  lemma DrawEquipmentAtLayout(codes: seq<Instr>, body: Range)
    requires body.In(codes) && body.start + 2 <= |codes|
    ensures DrawEquipmentAt(codes, body).Ok? <==> FindNext(codes, body, Offset32()).Ok?
    ensures DrawEquipmentAt(codes, body).Ok? ==>
              var q := FindNext(codes, body, Offset32()).value.start;
              DrawEquipmentAt(codes, body).value ==
                codes[..body.start] + DrawEquipmentCall(codes[body.start], codes[body.start + 1])
                + codes[body.End()..q] + [With(LdcR4, Float(64.0))] + codes[q + 1..]
  {
    var xs := DrawEquipmentCall(codes[body.start], codes[body.start + 1]);
    assert At(codes, body, 0).value == codes[body.start] && At(codes, body, 1).value == codes[body.start + 1];
    var e := Replace(codes, body, xs).value;
    FindNextAfterReplace(codes, body, xs, Offset32());
    if FindNext(codes, body, Offset32()).Ok? {
      var shift := FindNext(e.codes, e.range, Offset32()).value;
      assert DrawEquipmentAt(codes, body) == Ok(Put(e.codes, shift, 0, With(LdcR4, Float(64.0))).value);
      PutNextLayout(codes, body, xs, Offset32(), With(LdcR4, Float(64.0)));
    }
  }

  /** The draw patch: locate the loop body, then DrawEquipmentAt. */
  function InventoryPageDraw(b: Buffer): (res: Result<Buffer, Failure>)
    ensures res.Ok? ==> DrawLoopBody(b.codes).Ok? && res.value.next == b.next
  {
    match DrawLoopBody(b.codes)
    case Err(e) => Err(e)
    case Ok(body) =>
      match DrawEquipmentAt(b.codes, body)
      case Err(e) => Err(e)
      case Ok(codes) => Ok(Buffer(codes, b.next))
  }

  /** After the draw patch the loop body is the DrawEquipment call, and the first
      `ldc.r4 32; stloc.0` of the original code after the loop body loads 64 instead;
      everything else is the original code. */
  lemma DrawMovesPortrait(b: Buffer, w: Range)
    requires DrawLoopBody(b.codes) == Ok(w) && InventoryPageDraw(b).Ok?
    ensures FindNext(b.codes, w, Offset32()).Ok?
    ensures var q := FindNext(b.codes, w, Offset32()).value.start;
            InventoryPageDraw(b).value.codes ==
              b.codes[..w.start] + DrawEquipmentCall(b.codes[w.start], b.codes[w.start + 1])
              + b.codes[w.End()..q] + [With(LdcR4, Float(64.0))] + b.codes[q + 1..]
  {
    InventoryPageDrawSteps(b);
    DrawEquipmentAtLayout(b.codes, w);
  }

  /** The draw patch's result is DrawEquipmentAt's on the loop body. */
  lemma InventoryPageDrawSteps(b: Buffer)
    requires InventoryPageDraw(b).Ok?
    ensures DrawLoopBody(b.codes).Ok?
    ensures DrawEquipmentAt(b.codes, DrawLoopBody(b.codes).value).Ok?
    ensures InventoryPageDraw(b).value.codes == DrawEquipmentAt(b.codes, DrawLoopBody(b.codes).value).value
  {
  }

  // ----- InventoryPage.performHoverAction and receiveLeftClick -----

  /** The switch over the hovered or clicked icon's name, kept in a local (2 or 3). */
  function IconSwitchUnix(store: OpCode, load: OpCode): seq<Matcher> {
    [OpIs(Ldloc1), Field("ClickableComponent::name"), OpIs(store), OpIs(load), OpIs(Brfalse),
     OpIs(load), Exact(Ldstr, Str("Hat"))]
  }

  function IconSwitchWindows(store: OpCode, load: OpCode): seq<Matcher> {
    [OpIs(Ldloc1), Field("ClickableComponent::name"), OpIs(store), OpIs(load), Exact(Ldstr, Str("Hat"))]
  }

  /** The last case test of the Windows switch: `case "Pants"`, then the jump past the switch. */
  function PantsCase(load: OpCode): seq<Matcher> {
    [OpIs(load), Exact(Ldstr, Str("Pants")), OpIs(Call), OpIs(Brtrue), OpIs(Br)]
  }

  /** The Unix attempt: the match, extended to the target of its null-case branch. */
  function UnixIconSwitch(codes: seq<Instr>, store: OpCode, load: OpCode): (res: Result<Range, Failure>)
    ensures res.Ok? ==> res.value.In(codes) && res.value.start + 7 <= |codes|
    ensures res.Ok? ==> && MatchesAt(codes, IconSwitchUnix(store, load), res.value.start)
                        && codes[res.value.start + 4].arg.Target?
                        && Resolve(codes, codes[res.value.start + 4].arg.to) == Some(res.value.End())
  {
    match Find(codes, IconSwitchUnix(store, load), 0)
    case Err(e) => Err(e)
    case Ok(code) =>
      match Follow(codes, code, 4)
      case Err(e) => Err(e)
      case Ok(target) => ExtendTo(code, target)
  }

  /** The instruction at `j` is an unconditional branch that lands on `p`. */
  predicate BrTo(codes: seq<Instr>, j: int, p: nat) {
    0 <= j < |codes| && codes[j].op == Br && codes[j].arg.Target? && Resolve(codes, codes[j].arg.to) == Some(p)
  }

  /** The Windows switch's case tests: from the match through the "Pants" case. */
  function WindowsCases(codes: seq<Instr>, store: OpCode, load: OpCode): (res: Result<Range, Failure>)
    ensures res.Ok? ==> res.value.In(codes) && 10 <= res.value.length
    ensures res.Ok? ==> MatchesAt(codes, IconSwitchWindows(store, load), res.value.start)
    ensures res.Ok? ==> codes[res.value.End() - 1].op == Br
    ensures (forall k :: !MatchesAt(codes, IconSwitchWindows(store, load), k)) ==> res.Err?
  {
    FindBlockEndingIn(codes, IconSwitchWindows(store, load), PantsCase(load), 0, Br)
  }

  /** FindBlock for an `end` pattern whose last matcher is `OpIs(op)`: the block ends with
      an `op` instruction. */
  function FindBlockEndingIn(codes: seq<Instr>, start: seq<Matcher>, end: seq<Matcher>, from: nat, op: OpCode): (res: Result<Range, Failure>)
    requires 0 < |end| && end[|end| - 1] == OpIs(op)
    ensures res.Ok? <==> FindBlock(codes, start, end, from).Ok?
    ensures res.Ok? ==> res == FindBlock(codes, start, end, from)
    ensures res.Ok? ==> res.value.In(codes) && |start| + |end| <= res.value.length
    ensures res.Ok? ==> MatchesAt(codes, start, res.value.start)
    ensures res.Ok? ==> codes[res.value.End() - 1].op == op
    ensures (forall k :: from <= k ==> !MatchesAt(codes, start, k)) ==> res.Err?
  {
    var found := FindBlock(codes, start, end, from);
    if found.Err? then found
    else
      MatchedAt(codes, end, found.value.End() - |end|, |end| - 1);
      found
  }

  /** The Windows attempt: the case tests, extended to the target of the `br` that ends
      them. */
  function WindowsIconSwitch(codes: seq<Instr>, store: OpCode, load: OpCode): (res: Result<Range, Failure>)
    ensures (forall k :: !MatchesAt(codes, IconSwitchWindows(store, load), k)) ==> res.Err?
    ensures res.Ok? ==> res.value.In(codes) && WindowsCases(codes, store, load).Ok?
    ensures res.Ok? ==> var cases := WindowsCases(codes, store, load).value;
                        res.value.start == cases.start && BrTo(codes, cases.End() - 1, res.value.End())
  {
    BlockToBrTarget(codes, IconSwitchWindows(store, load), PantsCase(load))
  }

  /** The block from `start` to `end` (which ends with a `br`), extended to where that
      branch lands. */
  function BlockToBrTarget(codes: seq<Instr>, start: seq<Matcher>, end: seq<Matcher>): (res: Result<Range, Failure>)
    requires 0 < |end| && end[|end| - 1] == OpIs(Br)
    ensures (forall k :: !MatchesAt(codes, start, k)) ==> res.Err?
    ensures res.Ok? ==> res.value.In(codes) && FindBlockEndingIn(codes, start, end, 0, Br).Ok?
    ensures res.Ok? ==> var block := FindBlockEndingIn(codes, start, end, 0, Br).value;
                        res.value.start == block.start && BrTo(codes, block.End() - 1, res.value.End())
  {
    match FindBlockEndingIn(codes, start, end, 0, Br)
    case Err(e) => Err(e)
    case Ok(block) => ExtendToBranchTarget(codes, block)
  }

  /** A range ending in a `br`, extended to where that branch lands. */
  function ExtendToBranchTarget(codes: seq<Instr>, r: Range): (res: Result<Range, Failure>)
    requires r.In(codes) && 0 < r.length && codes[r.End() - 1].op == Br
    ensures res.Ok? ==> res.value.In(codes) && res.value.start == r.start && BrTo(codes, r.End() - 1, res.value.End())
  {
    match Follow(codes, r.Tail(), -1)
    case Err(e) => Err(e)
    case Ok(target) =>
      assert BrTo(codes, r.End() - 1, target.start);
      ExtendTo(r, target)
  }

  /** The whole switch: the Unix form when every step of that attempt succeeds, otherwise
      the Windows form. */
  function IconSwitch(codes: seq<Instr>, store: OpCode, load: OpCode): (res: Result<Range, Failure>)
    ensures res.Ok? ==> res.value.In(codes) && res.value.start + 5 <= |codes|
    ensures res.Ok? ==>
              || (&& MatchesAt(codes, IconSwitchUnix(store, load), res.value.start)
                  && codes[res.value.start + 4].arg.Target?
                  && Resolve(codes, codes[res.value.start + 4].arg.to) == Some(res.value.End()))
              || (&& MatchesAt(codes, IconSwitchWindows(store, load), res.value.start)
                  && WindowsCases(codes, store, load).Ok?
                  && BrTo(codes, WindowsCases(codes, store, load).value.End() - 1, res.value.End()))
    ensures ((forall k :: !MatchesAt(codes, IconSwitchUnix(store, load), k)) &&
             (forall k :: !MatchesAt(codes, IconSwitchWindows(store, load), k))) ==> res.Err?
    ensures UnixIconSwitch(codes, store, load).Ok? ==> res == UnixIconSwitch(codes, store, load)
  {
    var unix := UnixIconSwitch(codes, store, load);
    if unix.Ok? then unix else WindowsIconSwitch(codes, store, load)
  }

  /** The tooltip code: take the icon's item into local `item`, and when it is not null set
      hoveredItem, hoverText and hoverTitle from it; otherwise jump to `skip`. */
  function HoverBody(first: Instr, item: nat, skip: Label): seq<Instr> {
    [first, With(Ldfld, Member("ClickableComponent::item")), With(StlocS, Local(item)),
     With(LdlocS, Local(item)), Jump(Brfalse, skip),
     Plain(Ldarg0), With(LdlocS, Local(item)), With(Stfld, Member("InventoryPage::hoveredItem")),
     Plain(Ldarg0), With(LdlocS, Local(item)), With(Callvirt, Member("Item::getDescription")),
     With(Stfld, Member("InventoryPage::hoverText")),
     Plain(Ldarg0), With(LdlocS, Local(item)), With(Callvirt, Member("Item::get_DisplayName")),
     With(Stfld, Member("InventoryPage::hoverTitle"))]
  }

  /** With the switch `code` found: a label is attached to the instruction after it (the
      target of the null check), and the switch becomes the tooltip code, which keeps the
      switch's first instruction (the icon). */
  function HoverAt(b: Buffer, code: Range, item: nat): (res: Result<Buffer, Failure>)
    requires code.In(b.codes) && code.start < |b.codes|
    ensures res.Ok? <==> code.End() < |b.codes|
    ensures res.Ok? ==> res.value.next == b.next + 1
  {
    var first := At(b.codes, code, 0).value;
    var att :- AttachLabel(b, code.Tail(), 0);
    var e := Replace(att.0.codes, code, HoverBody(first, item, att.1)).value;
    Ok(Buffer(e.codes, att.0.next))
  }

  /** The switch is replaced by the sixteen tooltip instructions; an icon without item
      skips exactly those and lands on the instruction that followed the switch, which
      keeps its opcode and operand. */
  ghost predicate TooltipSkipped(codes: seq<Instr>, code: Range, item: nat, skip: Label, out: seq<Instr>)
    requires code.In(codes) && code.start < |codes| && code.End() < |codes|
  {
    && |out| == |codes| - code.length + 16
    && out[..code.start] == codes[..code.start]
    && out[code.start..code.start + 16] == HoverBody(codes[code.start], item, skip)
    && out[code.start + 16].op == codes[code.End()].op
    && out[code.start + 16].arg == codes[code.End()].arg
    && out[code.start + 17..] == codes[code.End() + 1..]
    && Follow(out, Range(code.start, 0), 4) == Ok(Range(code.start + 16, 0))
  }

  lemma HoverAtSkipsTooltip(b: Buffer, code: Range, item: nat)
    requires code.In(b.codes) && code.start < |b.codes| && code.End() < |b.codes|
    requires LabelsBelow(b.codes, b.next)
    ensures TooltipSkipped(b.codes, code, item, b.next, HoverAt(b, code, item).value.codes)
  {
    var body := HoverBody(b.codes[code.start], item, b.next);
    assert HoverAt(b, code, item).value.codes == Replace(Attach(b, code.End()).0.codes, code, body).value.codes;
    ReplaceBeforeLabelled(b, code, body, 4);
  }

  /** The hover patch: locate the switch, then HoverAt with the local the patch declares. */
  function InventoryPagePerformHoverAction(b: Buffer, item: nat): (res: Result<Buffer, Failure>)
    ensures res.Ok? ==> IconSwitch(b.codes, Stloc2, Ldloc2).Ok? && res.value.next == b.next + 1
    ensures res.Ok? ==> var w := IconSwitch(b.codes, Stloc2, Ldloc2).value;
                        w.End() < |b.codes| && res == HoverAt(b, w, item)
  {
    match IconSwitch(b.codes, Stloc2, Ldloc2)
    case Err(e) => Err(e)
    case Ok(code) => HoverAt(b, code, item)
  }

  /** After the hover patch an icon without item skips the tooltip code and continues where
      the switch ended. */
  lemma HoverSkipsTooltip(b: Buffer, item: nat)
    requires InventoryPagePerformHoverAction(b, item).Ok?
    requires LabelsBelow(b.codes, b.next)
    ensures var w := IconSwitch(b.codes, Stloc2, Ldloc2).value;
            && w.End() < |b.codes|
            && TooltipSkipped(b.codes, w, item, b.next, InventoryPagePerformHoverAction(b, item).value.codes)
  {
    var w := IconSwitch(b.codes, Stloc2, Ldloc2).value;
    HoverAtSkipsTooltip(b, w, item);
  }

  /** `if (checkHeldItem(i => i is Ring)) { if (Game1.player.leftRing.Value == null)`. */
  function ShiftClickRing(): seq<Matcher> {
    [OpIs(Ldarg0), OpIs(Ldsfld), OpIs(Dup), OpIs(Brtrue),
     OpIs(Pop), OpIs(Ldsfld), OpIs(Ldftn), OpIs(Newobj), OpIs(Dup), OpIs(Stsfld),
     Exact(Callvirt, Member("InventoryPage::checkHeldItem")), OpIs(Brfalse),
     PlayerGetter(), Field("Farmer::leftRing"), OpIs(Callvirt), OpIs(Brtrue)]
  }

  /** `if (Game1.player.pantsItem.Value ...)`: the last shift-click equip test. */
  function PantsCheck(): seq<Matcher> {
    [PlayerGetter(), Field("Farmer::pantsItem"), OpIs(Callvirt), OpIs(Brtrue)]
  }

  /** The shift-click equip tests: from the ring test after `r` to the pants test. */
  function ShiftClickTests(codes: seq<Instr>, r: Range): Result<Range, Failure> {
    FindBlock(codes, ShiftClickRing(), PantsCheck(), r.End())
  }


  function EquipmentClickCall(first: Instr): seq<Instr> {
    [first, CallTo("ModEntry::EquipmentClick"), Plain(Pop)]
  }

  /** `if (!AutoEquipment(this)) goto failed; return;` */
  function AutoEquipCall(failed: Label): seq<Instr> {
    [Plain(Ldarg0), CallTo("ModEntry::AutoEquipment"), Jump(Brfalse, failed), Plain(Ret)]
  }

  /** The shift-click tests extended to where the pants test's branch (equip_failed, read
      from the tests' last instruction) lands, with that branch's label. */
  function EquipFailedSpan(codes: seq<Instr>, r: Range): (res: Result<(Range, Label), Failure>)
    ensures res.Ok? ==> res.value.0.In(codes) && r.End() <= res.value.0.start
    ensures res.Ok? ==> ShiftClickTests(codes, r).Ok? && res.value.0.start == ShiftClickTests(codes, r).value.start
    ensures res.Ok? ==> codes[ShiftClickTests(codes, r).value.End() - 1].arg == Target(res.value.1)
    ensures res.Ok? ==> Resolve(codes, res.value.1) == Some(res.value.0.End())
  {
    BlockToBranchTarget(codes, ShiftClickRing(), PantsCheck(), r.End())
  }

  /** The shift-click tests up to equip_failed become a call to AutoEquipment that goes to
      equip_failed when it equips nothing. */
  function AutoEquipAt(codes: seq<Instr>, r: Range): (res: Result<seq<Instr>, Failure>)
    ensures res.Ok? <==> EquipFailedSpan(codes, r).Ok?
  {
    match EquipFailedSpan(codes, r)
    case Err(e) => Err(e)
    case Ok(span) => Ok(Replace(codes, span.0, AutoEquipCall(span.1)).value.codes)
  }

  /** At `s` stands the AutoEquipment call, whose failure branch lands right after it. */
  ghost predicate AutoEquipFallsThrough(out: seq<Instr>, s: nat) {
    && s + 4 < |out|
    && out[s] == Plain(Ldarg0) && out[s + 1] == CallTo("ModEntry::AutoEquipment")
    && out[s + 2].op == Brfalse && out[s + 3] == Plain(Ret)
    && Follow(out, Range(s, 0), 2) == Ok(Range(s + 4, 0))
  }

  /** The new code replaces exactly the span, and its failure branch lands on the
      instruction equip_failed marked, right after it. */
  lemma AutoEquipAtLayout(codes: seq<Instr>, r: Range)
    requires AutoEquipAt(codes, r).Ok?
    ensures var span := EquipFailedSpan(codes, r).value;
            var out := AutoEquipAt(codes, r).value;
            && out == codes[..span.0.start] + AutoEquipCall(span.1) + codes[span.0.End()..]
            && AutoEquipFallsThrough(out, span.0.start)
  {
    var span := EquipFailedSpan(codes, r).value;
    var w, l := span.0, span.1;
    var out := Replace(codes, w, AutoEquipCall(l)).value.codes;
    SplicedLayout(codes, out, w.start, w.length, AutoEquipCall(l));
    ResolvePastSplice(codes, out, w.start, w.length, AutoEquipCall(l), l, w.End());
    assert out[w.start + 2] == AutoEquipCall(l)[2];
  }

  /** With the switch `code` found: it becomes `EquipmentClick(icon)`, keeping its first
      instruction, and the shift-click tests after it are replaced by AutoEquipAt. */
  function ClickAt(codes: seq<Instr>, code: Range): (res: Result<seq<Instr>, Failure>)
    requires code.In(codes) && code.start < |codes|
  {
    var first := At(codes, code, 0).value;
    var e1 := Replace(codes, code, EquipmentClickCall(first)).value;
    AutoEquipAt(e1.codes, e1.range)
  }

  lemma ClickAtLayout(codes: seq<Instr>, code: Range)
    requires code.In(codes) && code.start < |codes|
    requires ClickAt(codes, code).Ok?
    ensures var out := ClickAt(codes, code).value;
            && out[..code.start + 3] == codes[..code.start] + EquipmentClickCall(codes[code.start])
            && exists s :: code.start + 3 <= s && AutoEquipFallsThrough(out, s)
  {
    var xs := EquipmentClickCall(codes[code.start]);
    var e1 := Replace(codes, code, xs).value;
    var out := ClickAt(codes, code).value;
    assert out == AutoEquipAt(e1.codes, e1.range).value;
    AutoEquipAtLayout(e1.codes, e1.range);
    var span := EquipFailedSpan(e1.codes, e1.range).value;
    assert AutoEquipFallsThrough(out, span.0.start);
    EarlierEditKept(codes, code, xs, span.0.start, AutoEquipCall(span.1), span.0.End());
  }

  /** The click patch: locate the switch (kept in local 3), then ClickAt. */
  function InventoryPageReceiveLeftClick(b: Buffer): (res: Result<Buffer, Failure>)
    ensures res.Ok? ==> IconSwitch(b.codes, Stloc3, Ldloc3).Ok? && res.value.next == b.next
  {
    match IconSwitch(b.codes, Stloc3, Ldloc3)
    case Err(e) => Err(e)
    case Ok(code) =>
      match ClickAt(b.codes, code)
      case Err(e) => Err(e)
      case Ok(codes) => Ok(Buffer(codes, b.next))
  }

  /** After the click patch the switch calls EquipmentClick, and further on AutoEquipment's
      failure branch lands right after the new code. */
  lemma ReceiveLeftClickFallsThrough(b: Buffer)
    requires InventoryPageReceiveLeftClick(b).Ok?
    ensures var w := IconSwitch(b.codes, Stloc3, Ldloc3).value;
            var out := InventoryPageReceiveLeftClick(b).value.codes;
            && out[..w.start + 3] == b.codes[..w.start] + EquipmentClickCall(b.codes[w.start])
            && exists s :: w.start + 3 <= s && AutoEquipFallsThrough(out, s)
  {
    var w := IconSwitch(b.codes, Stloc3, Ldloc3).value;
    assert InventoryPageReceiveLeftClick(b).value.codes == ClickAt(b.codes, w).value;
    ClickAtLayout(b.codes, w);
  }

  // ----- Ring constructor -----

  /** `uniqueID.Value = (int)uniqueID + Game1.year + Game1.dayOfMonth + ...`. */
  function UniqueIdSeed(): seq<Matcher> {
    [OpIs(Ldarg0), Field("Ring::uniqueID"), Exact(Ldsfld, Member("Game1::year")),
     Exact(Ldsfld, Member("Game1::dayOfMonth")), OpIs(Add)]
  }

  /** `... + Game1.stats.itemsCrafted)`, ending in the setter call. */
  function UniqueIdSeedEnd(): seq<Matcher> {
    [Exact(Call, Member("Game1::get_stats")), Field("Stats::itemsCrafted"), OpIs(Add), OpIs(Callvirt)]
  }

  /** The seed computation: from `this.uniqueID` to the next setter call after it. */
  function SeedBlock(codes: seq<Instr>): (res: Result<Range, Failure>)
    ensures res.Ok? ==> res.value.In(codes) && 9 <= res.value.length
    ensures res.Ok? ==> codes[res.value.End() - 1].op == Callvirt
  {
    FindBlockEndingIn(codes, UniqueIdSeed(), UniqueIdSeedEnd(), 0, Callvirt)
  }

  function RandomNext(): seq<Instr> {
    [With(Ldsfld, Member("ModEntry::random")), CallTo("Random::Next")]
  }

  /** SubRange(2, length - 3) of the seed block becomes `ModEntry.random.Next()`: the block
      keeps its first two instructions (receiver and field) and its last (the setter), so the
      new unique id is `random.Next()` stored through the original setter call. */
  function RingCtor(b: Buffer): (res: Result<Buffer, Failure>)
    ensures res.Ok? <==> SeedBlock(b.codes).Ok?
    ensures res.Ok? ==> res.value.next == b.next
    ensures res.Ok? ==> var w := SeedBlock(b.codes).value;
                        res.value.codes == b.codes[..w.start + 2] + RandomNext() + b.codes[w.End() - 1..]
    ensures res.Ok? ==> var w := SeedBlock(b.codes).value;
                        res.value.codes[w.start + 2..w.start + 4] == RandomNext()
                        && res.value.codes[w.start + 4].op == Callvirt
  {
    var whole :- SeedBlock(b.codes);
    Ok(Buffer(ReplaceInside(b.codes, whole, 2, 1, RandomNext()), b.next))
  }
}
