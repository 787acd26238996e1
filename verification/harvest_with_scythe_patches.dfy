/** Harvest With Scythe's bytecode patches as transforms of a method body: Crop.harvest,
    HoeDirt.performToolAction, HoeDirt.performUseAction and Object.performToolAction. */
module HarvestWithScythePatches {
  import opened Wrappers
  import opened Instructions
  import opened Matchers
  import opened Search
  import opened Labels
  import opened Ranges
  import opened RangeProperties
  import opened HarvestWithScythe
  import Hack

  const Ld64: Instr := With(LdcR4, Float(64.0))

  // ----- Crop.harvest: the drop position is computed once, already scaled -----

  /** `Vector2 vector = new Vector2((float)xTile, (float)yTile)`. */
  function VectorCtor(): seq<Matcher> {
    [OpIs(LdlocaS), OpIs(Ldarg1), OpIs(ConvR4), OpIs(Ldarg2), OpIs(ConvR4), OpIs(Call)]
  }

  /** Removes the first vector construction and yields the constructor call it ended with. */
  function RemoveVectorCtor(codes: seq<Instr>): (res: Result<(seq<Instr>, Instr), Failure>)
    ensures res.Err? <==> forall k :: !MatchesAt(codes, VectorCtor(), k)
    ensures res.Ok? ==> FindFrom(codes, VectorCtor(), 0).Some?
    ensures res.Ok? ==>
              var p := FindFrom(codes, VectorCtor(), 0).value;
              && Spliced(codes, res.value.0, p, 6, [])
              && res.value.1 == codes[p + 5] && res.value.1.op == Call
  {
    var vec :- Find(codes, VectorCtor(), 0);
    var ctor := At(codes, vec, 5).value;
    MatchedAt(codes, VectorCtor(), vec.start, 5);
    Ok((Remove(codes, vec).value.codes, ctor))
  }

  /** Removing the first construction lets the next search reach another one: the second
      window removed overlaps the place of the first or lies after it, and in the latter
      case it was a construction of the original code after the first one. */
  lemma SecondCtorIsAnother(codes: seq<Instr>, once: seq<Instr>, ctor: Instr)
    requires RemoveVectorCtor(codes) == Ok((once, ctor)) && RemoveVectorCtor(once).Ok?
    ensures var p := FindFrom(codes, VectorCtor(), 0).value;
            var q := FindFrom(once, VectorCtor(), 0).value;
            && p < q + 6
            && (p <= q ==> MatchesAt(codes, VectorCtor(), q + 6))
  {
    RemovedTwice(codes, once, VectorCtor());
  }

  /** `Vector2 vector = new Vector2((float)xTile * 64f, (float)yTile * 64f)`, built with the
      constructor call taken from the removed code. */
  function ScaledVector(ctor: Instr): seq<Instr> {
    [With(LdlocaS, Local(3)), Plain(Ldarg1), Plain(ConvR4), Ld64, Plain(Mul),
     Plain(Ldarg2), Plain(ConvR4), Ld64, Plain(Mul), ctor]
  }

  /** `new Vector2(vector.X * 64f, vector.Y * 64f)`. */
  function ScaledUse(): seq<Matcher> {
    [Any, OpIs(Ldfld), Like(Ld64), OpIs(Mul), Any, OpIs(Ldfld), Like(Ld64), OpIs(Mul), OpIs(Newobj)]
  }

  /** The first scaled use becomes a load of the precomputed vector. */
  function UseVector(codes: seq<Instr>): (res: Result<seq<Instr>, Failure>)
    ensures res.Err? <==> forall k :: !MatchesAt(codes, ScaledUse(), k)
    ensures res.Ok? ==> FindFrom(codes, ScaledUse(), 0).Some?
    ensures res.Ok? ==> Spliced(codes, res.value, FindFrom(codes, ScaledUse(), 0).value, 9, [Plain(Ldloc3)])
  {
    var e :- FindReplace(codes, ScaledUse(), [Plain(Ldloc3)]);
    Ok(e.codes)
  }

  /** `n` rounds of loading the precomputed vector: each turns the first scaled use left into
      `ldloc.3` and keeps every other instruction. */
  ghost predicate UsesLoaded(before: seq<Instr>, after: seq<Instr>, n: nat)
    decreases n
  {
    if n == 0 then after == before
    else
      && ReplaceFirst(before, ScaledUse(), [Plain(Ldloc3)]).Some?
      && UsesLoaded(ReplaceFirst(before, ScaledUse(), [Plain(Ldloc3)]).value, after, n - 1)
  }

  /** One round of UseVector is one round of loading. */
  lemma UseVectorLoads(codes: seq<Instr>, rest: seq<Instr>, n: nat)
    requires UseVector(codes).Ok? && UsesLoaded(UseVector(codes).value, rest, n)
    ensures UsesLoaded(codes, rest, n + 1)
  {
    FindReplaceIsReplaceFirst(codes, ScaledUse(), [Plain(Ldloc3)]);
  }

  /** RemoveVectorCtor removes the first construction and nothing else. */
  lemma RemoveVectorCtorIsReplaceFirst(codes: seq<Instr>)
    requires RemoveVectorCtor(codes).Ok?
    ensures ReplaceFirst(codes, VectorCtor(), []) == Some(RemoveVectorCtor(codes).value.0)
  {
    var p := FindFrom(codes, VectorCtor(), 0).value;
    SplicedLayout(codes, RemoveVectorCtor(codes).value.0, p, 6, []);
  }

  /** The four scaled uses, each the first one left, load the precomputed vector. */
  function LoadUses(scaled: seq<Instr>): (res: Result<seq<Instr>, Failure>)
    ensures res.Ok? ==> |res.value| == |scaled| - 32
    ensures res.Ok? ==> UsesLoaded(scaled, res.value, 4)
  {
    var c1 :- UseVector(scaled);
    var c2 :- UseVector(c1);
    var c3 :- UseVector(c2);
    var c4 :- UseVector(c3);
    UseVectorLoads(c3, c4, 0);
    UseVectorLoads(c2, c4, 1);
    UseVectorLoads(c1, c4, 2);
    UseVectorLoads(scaled, c4, 3);
    Ok(c4)
  }

  /** The two unscaled vector constructions are removed; the constructor call of the second
      and what is left of the code. */
  function RemoveCtors(codes: seq<Instr>): (res: Result<(seq<Instr>, Instr), Failure>)
    ensures res.Ok? ==> |res.value.0| == |codes| - 12
    ensures res.Ok? ==>
              && ReplaceFirst(codes, VectorCtor(), []).Some?
              && var once := ReplaceFirst(codes, VectorCtor(), []).value;
                 && FindFrom(once, VectorCtor(), 0).Some?
                 && res.value.1 == once[FindFrom(once, VectorCtor(), 0).value + 5]
                 && ReplaceFirst(once, VectorCtor(), []) == Some(res.value.0)
  {
    var first :- RemoveVectorCtor(codes);
    var second :- RemoveVectorCtor(first.0);
    RemoveVectorCtorIsReplaceFirst(codes);
    RemoveVectorCtorIsReplaceFirst(first.0);
    Ok(second)
  }

  /** The two unscaled vector constructions are removed, the scaled one, built with the
      constructor call of the second, is computed at the start of the method, and four scaled
      uses, each the first one left, load it instead; nothing else changes. */
  function FixVector(codes: seq<Instr>): (res: Result<seq<Instr>, Failure>)
    ensures res.Ok? ==> |res.value| == |codes| - 34
    ensures res.Ok? ==>
              && ReplaceFirst(codes, VectorCtor(), []).Some?
              && var once := ReplaceFirst(codes, VectorCtor(), []).value;
                 && FindFrom(once, VectorCtor(), 0).Some?
                 && ReplaceFirst(once, VectorCtor(), []).Some?
                 && var p := FindFrom(once, VectorCtor(), 0).value;
                    UsesLoaded(ScaledVector(once[p + 5]) + ReplaceFirst(once, VectorCtor(), []).value, res.value, 4)
  {
    var second :- RemoveCtors(codes);
    var scaled := Append(second.0, Begin(), ScaledVector(second.1)).value.codes;
    ScaledVectorFirst(second.0, second.1);
    LoadUses(scaled)
  }

  /** The scaled construction goes in front of the method. */
  lemma ScaledVectorFirst(codes: seq<Instr>, ctor: Instr)
    ensures Append(codes, Begin(), ScaledVector(ctor)).value.codes == ScaledVector(ctor) + codes
  {
    var xs := ScaledVector(ctor);
    assert Append(codes, Begin(), xs).value.codes == codes[..0] + xs + codes[0..];
    assert codes[..0] == [] && codes[0..] == codes;
  }

  // ----- Crop.harvest: spring onions -----

  /** `if (Game1.player.addItemToInventoryBool(@object, false))`. */
  function AddItemCall(): seq<Matcher> {
    [Like(CallTo("Game1::get_player")), OpIs(Ldloc0), OpIs(LdcI40),
     Exact(Callvirt, Member("Farmer::addItemToInventoryBool")), OpIs(Brfalse)]
  }

  /** `if (harvestMethod != 0) { Game1.createItemDebris(@object, vector, -1, null, -1);
      Game1.player.gainExperience(2, howMuch); return true; }`, skipping to `pluck`. */
  function ScytheDrop(pluck: Label): seq<Instr> {
    [Plain(Ldarg0), With(Ldfld, Member("Crop::harvestMethod")), CallTo("NetInt::get_Value"), Jump(Brfalse, pluck),
     Plain(Ldloc0), Plain(Ldloc3), Plain(LdcI4M1), Plain(Ldnull), Plain(LdcI4M1), CallTo("Game1::createItemDebris"),
     CallTo("Game1::get_player"), Plain(LdcI42), Plain(Ldloc1), With(Callvirt, Member("Farmer::gainExperience")),
     Plain(LdcI41), Plain(Ret)]
  }

  /** With the inventory test found: a label is attached to its first instruction and the
      scythe drop is inserted before it. */
  function SpringOnionAt(b: Buffer, add: Range): (res: Buffer)
    requires add.In(b.codes) && add.start < |b.codes|
    ensures res.next == b.next + 1
    ensures var s := add.start;
            res.codes == b.codes[..s] + ScytheDrop(b.next)
                         + [b.codes[s].(labels := b.codes[s].labels + {b.next})] + b.codes[s + 1..]
  {
    var att := AttachLabel(b, add, 0).value;
    var e := Prepend(att.0.codes, add, ScytheDrop(att.1)).value;
    LabelledInsert(b, add, ScytheDrop(b.next));
    Buffer(e.codes, att.0.next)
  }

  /** A crop harvested by hand (harvestMethod 0) skips the sixteen new instructions to the
      inventory test. */
  lemma SpringOnionAtLayout(b: Buffer, add: Range)
    requires add.In(b.codes) && add.start < |b.codes| && LabelsBelow(b.codes, b.next)
    ensures Follow(SpringOnionAt(b, add).codes, Range(add.start, 0), 3) == Ok(Range(add.start + 16, 0))
  {
    GuardedInsert(b, add, ScytheDrop(b.next));
    var out := SpringOnionAt(b, add).codes;
    assert out[add.start + 3] == ScytheDrop(b.next)[3];
  }

  /** The spring onion patch: the drop goes before the first inventory test. */
  function SpringOnion(b: Buffer): (res: Result<Buffer, Failure>)
    ensures res.Err? <==> forall k :: !MatchesAt(b.codes, AddItemCall(), k)
    ensures res.Ok? ==> res.value.next == b.next + 1
    ensures res.Ok? ==> FindFrom(b.codes, AddItemCall(), 0).Some?
    ensures res.Ok? ==> var s := FindFrom(b.codes, AddItemCall(), 0).value;
              res.value.codes == b.codes[..s] + ScytheDrop(b.next)
                                 + [b.codes[s].(labels := b.codes[s].labels + {b.next})] + b.codes[s + 1..]
  {
    match Find(b.codes, AddItemCall(), 0)
    case Err(e) => Err(e)
    case Ok(add) => Ok(SpringOnionAt(b, add))
  }

  /** After the spring onion patch a crop harvested by hand skips the scythe drop and reaches
      the original inventory test, unchanged but for its new label. */
  lemma SpringOnionPlucksByHand(b: Buffer)
    requires SpringOnion(b).Ok? && LabelsBelow(b.codes, b.next)
    ensures Find(b.codes, AddItemCall(), 0).Ok?
    ensures var s := Find(b.codes, AddItemCall(), 0).value.start;
            Follow(SpringOnion(b).value.codes, Range(s, 0), 3) == Ok(Range(s + 16, 0))
  {
    var add := Find(b.codes, AddItemCall(), 0).value;
    assert SpringOnion(b).value == SpringOnionAt(b, add);
    SpringOnionAtLayout(b, add);
  }

  // ----- Crop.harvest: colored flowers -----

  /** `Game1.createObjectDebris(indexOfHarvest, xTile, yTile, -1, num3, 1f, null)`. */
  function ObjectDebris(): seq<Matcher> {
    [OpIs(Ldarg0), OpIs(Ldfld), OpIs(Call), OpIs(Ldarg1), OpIs(Ldarg2), OpIs(LdcI4M1),
     OpIs(LdlocS), OpIs(LdcR4), OpIs(Ldnull), OpIs(Call)]
  }

  /** `Game1.createItemDebris(CreateObject(this, quality), vector, -1, null, -1)`. */
  function ItemDebris(quality: Operand): seq<Instr> {
    [Plain(Ldarg0), With(LdlocS, quality), CallTo("ModEntry::CreateObject"),
     Plain(Ldloc3), Plain(LdcI4M1), Plain(Ldnull), Plain(LdcI4M1), CallTo("Game1::createItemDebris")]
  }

  /** The object debris call becomes an item debris call of CreateObject; the quality local
      is the one the replaced call loaded (index 6), and it is returned. */
  function ColoredFlowers(codes: seq<Instr>): (res: Result<(seq<Instr>, Operand), Failure>)
    ensures res.Err? <==> forall k :: !MatchesAt(codes, ObjectDebris(), k)
    ensures res.Ok? ==> FindFrom(codes, ObjectDebris(), 0).Some?
    ensures res.Ok? ==>
              var p := FindFrom(codes, ObjectDebris(), 0).value;
              && codes[p + 6].op == LdlocS && res.value.1 == codes[p + 6].arg
              && Spliced(codes, res.value.0, p, 10, ItemDebris(res.value.1))
  {
    var found :- FindWithOperand(codes, ObjectDebris(), 6, LdlocS);
    Ok((Replace(codes, found.0, ItemDebris(found.1)).value.codes, found.1))
  }

  // ----- Crop.harvest: sunflower seeds and a single scythe drop -----

  /** `for (int i = 0; ...)` with its first test `junimoHarvester != null`. */
  function LoopStart(): seq<Matcher> {
    [OpIs(LdcI40), OpIs(StlocS), OpIs(Br), Like(With(LdargS, Arg(4))), OpIs(Brfalse)]
  }

  /** `if (indexOfHarvest == 421)`: the sunflower seeds drop. */
  function SunflowerCheck(): seq<Matcher> {
    [OpIs(Ldarg0), Field("Crop::indexOfHarvest"), OpIs(Call), Like(With(LdcI4, Int(421))), OpIs(BneUn)]
  }

  /** `if (harvestMethod == 1)`. */
  function ScytheMethodTest(): seq<Matcher> {
    [OpIs(Ldarg0), Field("Crop::harvestMethod"), OpIs(Call), OpIs(LdcI41), OpIs(BneUn)]
  }

  /** `i++; if (i < num2) goto loop`, with `i` the loop variable. */
  function LoopTail(i: Operand): seq<Matcher> {
    [Like(With(LdlocS, i)), OpIs(LdcI41), OpIs(Add), Like(With(StlocS, i)), Like(With(LdlocS, i)),
     OpIs(LdlocS), OpIs(Blt)]
  }

  /** The loop head `i = 0; goto test` (the first 3 of the 5 matched instructions) is
      removed; the result also holds the loop head's position and the loop variable. */
  function RemoveLoopHead(codes: seq<Instr>): (res: Result<(seq<Instr>, nat, Operand), Failure>)
    ensures res.Err? <==> forall k :: !MatchesAt(codes, LoopStart(), k)
    ensures res.Ok? <==> FindFrom(codes, LoopStart(), 0).Some?
    ensures res.Ok? ==>
              var p := FindFrom(codes, LoopStart(), 0).value;
              res.value == (codes[..p] + codes[p + 3..], p, codes[p + 1].arg)
  {
    RemoveFirstHead(codes, LoopStart(), 3, 1)
  }

  /** Seeds get quality 0: `quality = 0` is appended to the sunflower test, whose range
      (now 7 long) is returned. */
  function SeedsQuality(codes: seq<Instr>, quality: Operand): (res: Result<Edited, Failure>)
    ensures res.Err? <==> forall k :: !MatchesAt(codes, SunflowerCheck(), k)
    ensures res.Ok? ==> FindFrom(codes, SunflowerCheck(), 0).Some?
    ensures res.Ok? ==>
              var p := FindFrom(codes, SunflowerCheck(), 0).value;
              && res.value.range == Range(p, 7)
              && Spliced(codes, res.value.codes, p + 5, 0, [Plain(LdcI40), With(StlocS, quality)])
  {
    var drop :- Find(codes, SunflowerCheck(), 0);
    Ok(Append(codes, drop, [Plain(LdcI40), With(StlocS, quality)]).value)
  }

  /** The tail of the scythe branch: from the loop's `i++` back from the end of the branch
      (where the `harvestMethod == 1` test jumps when it fails) up to that end. */
  function ScytheBranchTail(codes: seq<Instr>, i: Operand): (res: Result<Range, Failure>)
    ensures res.Ok? ==> Find(codes, ScytheMethodTest(), 0).Ok?
    ensures res.Ok? ==> res.value.In(codes) && res.value.End() < |codes| && 7 <= res.value.length
    ensures res.Ok? ==> MatchesAt(codes, LoopTail(i), res.value.start)
    ensures res.Ok? ==>
              var t := Find(codes, ScytheMethodTest(), 0).value.start;
              codes[t + 4].arg.Target? && Resolve(codes, codes[t + 4].arg.to) == Some(res.value.End())
  {
    BackFromBranch(codes, ScytheMethodTest(), 4, LoopTail(i))
  }

  /** With the tail and the seeds code found: branches to the tail's first instruction
      (`continue`) are redirected to the seeds code, and the tail becomes `br` to it. */
  function JumpToSeeds(b: Buffer, tail: Range, seeds: nat): (res: Buffer)
    requires tail.In(b.codes) && tail.start < |b.codes| && seeds < |b.codes|
    ensures res.next == b.next + 2
  {
    var redirected := ReplaceJump(b, tail, 0, Range(seeds, 0), 0).value;
    var att := AttachLabel(redirected, Range(seeds, 0), 0).value;
    Buffer(Replace(att.0.codes, tail, [Jump(Br, att.1)]).value.codes, att.0.next)
  }

  /** The tail shrinks to the one `br`; no instruction before it changes its opcode, and the
      instructions after it keep their opcodes too (only labels and branch operands change). */
  lemma JumpToSeedsLayout(b: Buffer, tail: Range, seeds: nat)
    requires tail.In(b.codes) && tail.start < |b.codes| && seeds < tail.start
    ensures var out := JumpToSeeds(b, tail, seeds).codes;
            && |out| == |b.codes| - tail.length + 1
            && out[tail.start] == Jump(Br, b.next + 1)
            && (forall k :: 0 <= k < tail.start ==> out[k].op == b.codes[k].op)
            && (forall k :: tail.End() <= k < |b.codes| ==> out[k - tail.length + 1].op == b.codes[k].op)
  {
    var redirected := ReplaceJump(b, tail, 0, Range(seeds, 0), 0).value;
    var att := Attach(redirected, seeds);
    var out := JumpToSeeds(b, tail, seeds).codes;
    assert Spliced(att.0.codes, out, tail.start, tail.length, [Jump(Br, att.1)]);
  }

  /** When the seeds code comes before the tail, the new `br` lands on it, and so does every
      branch before the tail that jumped to the tail's first instruction. */
  lemma JumpToSeedsLands(b: Buffer, tail: Range, seeds: nat, k: nat)
    requires tail.In(b.codes) && tail.start < |b.codes| && seeds < tail.start
    requires LabelsBelow(b.codes, b.next)
    requires k < tail.start
    ensures var out := JumpToSeeds(b, tail, seeds).codes;
            && Follow(out, Range(tail.start, 0), 0) == Ok(Range(seeds, 0))
            && (b.codes[k].arg.Target? && b.codes[k].arg.to in b.codes[tail.start].labels ==>
                  Follow(out, Range(k, 0), 0) == Ok(Range(seeds, 0)))
  {
    var redirected := ReplaceJump(b, tail, 0, Range(seeds, 0), 0).value;
    ReplaceJumpKeepsLabels(b, tail, 0, Range(seeds, 0), 0);
    var att := Attach(redirected, seeds);
    var inserted := [Jump(Br, att.1)];
    var out := JumpToSeeds(b, tail, seeds).codes;
    assert Spliced(att.0.codes, out, tail.start, tail.length, inserted);
    FollowInsertedJump(att.0.codes, out, tail.start, tail.length, inserted, att.1, seeds, 0);
    if b.codes[k].arg.Target? && b.codes[k].arg.to in b.codes[tail.start].labels {
      ReplaceJumpRedirects(b, tail, 0, Range(seeds, 0), 0, k);
      assert CarriedOnlyAt(att.0.codes, b.next, seeds);
      LabelSurvivesSplice(att.0.codes, out, tail.start, tail.length, inserted, b.next, seeds);
      ResolveUnique(out, b.next, seeds);
      assert out[k].arg == redirected.codes[k].arg;
    }
  }

  /** `codes` without the three-instruction loop head at `p`, and with `quality = 0` put
      after the five-instruction sunflower test at `s` of that code. */
  ghost function SeedsCode(codes: seq<Instr>, p: nat, s: nat, quality: Operand): seq<Instr>
    requires p + 3 <= |codes| && s + 5 <= |codes| - 3
  {
    var head := codes[..p] + codes[p + 3..];
    head[..s + 5] + [Plain(LdcI40), With(StlocS, quality)] + head[s + 5..]
  }

  /** Where the sunflower patch works: the code without the loop head and with the seeds'
      quality set, the scythe branch's tail in it, and the sunflower test's position. */
  datatype Plan = Plan(seeds: seq<Instr>, tail: Range, test: nat)

  /** The first two steps stated on slices: the first loop head at `p`, and the first
      sunflower test at `s` of the code without it; the result is the seeds code, `s` and the
      loop variable. */
  ghost function SeedsPlan(codes: seq<Instr>, quality: Operand): (r: Option<(seq<Instr>, nat, Operand)>)
    ensures r.Some? ==> r.value.1 + 5 < |r.value.0|
  {
    match FindFrom(codes, LoopStart(), 0)
    case None => None
    case Some(p) =>
      var head := codes[..p] + codes[p + 3..];
      match FindFrom(head, SunflowerCheck(), 0)
      case None => None
      case Some(s) => Some((SeedsCode(codes, p, s, quality), s, codes[p + 1].arg))
  }

  /** The whole patch stated on slices: the seeds code and the scythe branch's tail in it. */
  ghost function SunflowerPlan(codes: seq<Instr>, quality: Operand): (r: Option<Plan>)
    ensures r.Some? ==> r.value.tail.In(r.value.seeds) && r.value.tail.start < |r.value.seeds|
    ensures r.Some? ==> r.value.test < |r.value.seeds|
  {
    match SeedsPlan(codes, quality)
    case None => None
    case Some(st) =>
      match ScytheBranchTail(st.0, st.2)
      case Err(_) => None
      case Ok(tail) => Some(Plan(st.0, tail, st.1))
  }

  /** Remove the loop head and give seeds quality 0: succeeds exactly when both places are
      found, with the code, test position and loop variable of `SeedsPlan`. */
  function SeedsStage(codes: seq<Instr>, quality: Operand): (res: Result<(seq<Instr>, nat, Operand), Failure>)
    ensures res.Ok? <==> SeedsPlan(codes, quality).Some?
    ensures res.Ok? ==> res.value == SeedsPlan(codes, quality).value
  {
    var head :- RemoveLoopHead(codes);
    var seeds :- SeedsQuality(head.0, quality);
    var s := FindFrom(head.0, SunflowerCheck(), 0).value;
    SplicedLayout(head.0, seeds.codes, s + 5, 0, [Plain(LdcI40), With(StlocS, quality)]);
    Ok((seeds.codes, seeds.range.start, head.2))
  }

  /** The sunflower patch: remove the loop head, give seeds quality 0, and end the scythe
      branch with a jump to the seeds code, so a scythe drops one item and the seeds. It
      succeeds exactly when the three places are found. */
  function SunflowerDrops(b: Buffer, quality: Operand): (res: Result<Buffer, Failure>)
    ensures res.Ok? ==> res.value.next == b.next + 2
    ensures res.Ok? <==> SunflowerPlan(b.codes, quality).Some?
    ensures res.Ok? ==>
              var plan := SunflowerPlan(b.codes, quality).value;
              res.value == JumpToSeeds(Buffer(plan.seeds, b.next), plan.tail, plan.test)
  {
    var st :- SeedsStage(b.codes, quality);
    var tail :- ScytheBranchTail(st.0, st.2);
    Ok(JumpToSeeds(Buffer(st.0, b.next), tail, st.1))
  }

  // ----- Crop.harvest: the whole patch -----

  /** `if (harvestMethod == 1 && programColored) return false;`, skipping to `go`. */
  function FlowerCheck(go: Label): seq<Instr> {
    [Plain(Ldarg0), With(Ldfld, Member("Crop::harvestMethod")), CallTo("NetInt::get_Value"), Jump(Brfalse, go),
     Plain(Ldarg0), With(Ldfld, Member("Crop::programColored")), CallTo("NetBool::get_Value"), Jump(Brfalse, go),
     Plain(LdcI40), Plain(Ret)]
  }

  /** With a non-empty body: a label on the first instruction and the flower check appended
      to the empty range at the start. */
  function FlowerGateAt(b: Buffer): (res: Buffer)
    requires 0 < |b.codes|
    ensures res.next == b.next + 1
    ensures res.codes == FlowerCheck(b.next) + [b.codes[0].(labels := b.codes[0].labels + {b.next})] + b.codes[1..]
  {
    var att := AttachLabel(b, Begin(), 0).value;
    var e := Append(att.0.codes, Begin(), FlowerCheck(att.1)).value;
    AppendToEmptyIsPrepend(att.0.codes, Begin(), FlowerCheck(b.next));
    LabelledInsert(b, Begin(), FlowerCheck(b.next));
    assert b.codes[..0] == [];
    Buffer(e.codes, att.0.next)
  }

  /** The flower gate; attaching the label fails on an empty body. */
  function FlowerGate(b: Buffer): (res: Result<Buffer, Failure>)
    ensures res.Ok? <==> 0 < |b.codes|
  {
    if |b.codes| == 0 then Err(InvalidRange(0, 1)) else Ok(FlowerGateAt(b))
  }

  /** Both branches of the flower check skip exactly its ten instructions, to the original
      first instruction. */
  lemma FlowerGateSkips(b: Buffer)
    requires 0 < |b.codes| && LabelsBelow(b.codes, b.next)
    ensures var out := FlowerGateAt(b).codes;
            && Follow(out, Range(0, 0), 3) == Ok(Range(10, 0))
            && Follow(out, Range(0, 0), 7) == Ok(Range(10, 0))
  {
    GuardBranchSkips(b, FlowerCheck(b.next), 3);
    GuardBranchSkips(b, FlowerCheck(b.next), 7);
  }

  /** The four parts of the Crop.harvest patch, in order. */
  function HarvestParts(b: Buffer): (res: Result<Buffer, Failure>)
    ensures res.Ok? ==> res.value.next == b.next + 3
  {
    var fixedVector :- FixVector(b.codes);
    var onion :- SpringOnion(Buffer(fixedVector, b.next));
    var flowers :- ColoredFlowers(onion.codes);
    SunflowerDrops(Buffer(flowers.0, onion.next), flowers.1)
  }

  /** The four parts, then, when flowers may only be harvested by hand, the flower check in
      front of their code: it fails only on an empty body, and the former first
      instruction follows it carrying the check's label. */
  function CropHarvest(b: Buffer, c: ModConfig): (res: Result<Buffer, Failure>)
    ensures c.harvestFlowers != Hands ==> res == HarvestParts(b)
    ensures c.harvestFlowers == Hands ==>
              (res.Ok? <==> HarvestParts(b).Ok? && 0 < |HarvestParts(b).value.codes|)
    ensures c.harvestFlowers == Hands && res.Ok? ==>
              var parts := HarvestParts(b).value;
              && res.value.next == parts.next + 1
              && res.value.codes == FlowerCheck(parts.next)
                                    + [parts.codes[0].(labels := parts.codes[0].labels + {parts.next})] + parts.codes[1..]
  {
    var parts :- HarvestParts(b);
    if c.harvestFlowers == Hands then FlowerGate(parts) else Ok(parts)
  }

  // ----- HoeDirt.performToolAction -----

  /** `if (crop.harvestMethod == 1)`. */
  function HarvestMethodCheck(): seq<Matcher> {
    [OpIs(Ldarg0), Like(CallTo("HoeDirt::get_crop")), Field("Crop::harvestMethod"), OpIs(Call),
     OpIs(LdcI41), OpIs(BneUn)]
  }

  /** `damage = crop.harvestMethod; crop.harvestMethod = 1`, built from the check's first
      four instructions (`h`). */
  function ForceScytheMethod(h: seq<Instr>): seq<Instr>
    requires |h| == 4
  {
    [h[0], h[1], h[2], h[3], With(StargS, Arg(2)),
     h[0], h[1], h[2], Plain(LdcI41), CallTo("NetInt::set_Value")]
  }

  /** `if (crop.dead)`. */
  function CropDeadCheck(): seq<Matcher> {
    [OpIs(Ldarg0), Like(CallTo("HoeDirt::get_crop")), Field("Crop::dead"), OpIs(Call), OpIs(Brfalse)]
  }

  /** `crop.harvestMethod = damage`, built from three loads (`h`) of crop.harvestMethod. */
  function RestoreMethod(h0: Instr, h1: Instr, h2: Instr): seq<Instr> {
    [h0, h1, h2, Plain(Ldarg2), CallTo("NetInt::set_Value")]
  }

  /** The check becomes "save the harvest method and force the scythe method"; the method is
      restored before the next crop-dead test, from the first three instructions of the
      replaced range as they read after the replacement. The patch applies exactly when
      the check occurs and a crop-dead test follows it in the original code; the restore
      then copies the original check's first three instructions, and the code between the
      two and after the test is unchanged. */
  function HoeDirtPerformToolAction(codes: seq<Instr>): (res: Result<seq<Instr>, Failure>)
    ensures Find(codes, HarvestMethodCheck(), 0).Err? ==> res.Err?
    ensures Find(codes, HarvestMethodCheck(), 0).Ok? ==>
              var check := Find(codes, HarvestMethodCheck(), 0).value;
              && (res.Ok? <==> FindNext(codes, check, CropDeadCheck()).Ok?)
              && (res.Ok? ==>
                    var s, q := check.start, FindNext(codes, check, CropDeadCheck()).value.start;
                    res.value == codes[..s] + ForceScytheMethod(codes[s..s + 4]) + codes[s + 6..q]
                                 + RestoreMethod(codes[s], codes[s + 1], codes[s + 2]) + codes[q..])
  {
    var check :- Find(codes, HarvestMethodCheck(), 0);
    var s := check.start;
    var h := [At(codes, check, 0).value, At(codes, check, 1).value, At(codes, check, 2).value, At(codes, check, 3).value];
    assert h == codes[s..s + 4];
    var e1 := Replace(codes, check, ForceScytheMethod(h)).value;
    FindNextAfterReplace(codes, check, ForceScytheMethod(h), CropDeadCheck());
    match FindNext(e1.codes, e1.range, CropDeadCheck())
    case Err(e) => Err(e)
    case Ok(dead) =>
      var r0 := At(e1.codes, e1.range, 0).value;
      var r1 := At(e1.codes, e1.range, 1).value;
      var r2 := At(e1.codes, e1.range, 2).value;
      assert r0 == codes[s] && r1 == codes[s + 1] && r2 == codes[s + 2] by {
        assert e1.codes[s + 0] == ForceScytheMethod(h)[0];
        assert e1.codes[s + 1] == ForceScytheMethod(h)[1];
        assert e1.codes[s + 2] == ForceScytheMethod(h)[2];
      }
      PrependNextLayout(codes, check, ForceScytheMethod(h), CropDeadCheck(), RestoreMethod(r0, r1, r2));
      Ok(Prepend(e1.codes, dead, RestoreMethod(r0, r1, r2)).value.codes)
  }

  // ----- HoeDirt.performUseAction -----

  /** `if (crop.harvestMethod ... )`: the test guarding hand harvesting. */
  function HandHarvestTest(): seq<Matcher> {
    [OpIs(Ldarg0), OpIs(Call), OpIs(Ldfld), OpIs(Call), OpIs(Brtrue)]
  }

  /** `if (crop.harvestMethod == 1)`: the test guarding scythe harvesting. */
  function ScytheHarvestTest(): seq<Matcher> {
    [OpIs(Ldarg0), OpIs(Call), OpIs(Ldfld), OpIs(Call), OpIs(LdcI41), OpIs(BneUn)]
  }

  /** `if (crop.programColored) ...`: the crop load kept from the test, then a branch on the
      flower flag. */
  function FlowerTest(c0: Instr, c1: Instr, branch: OpCode, to: Label): seq<Instr> {
    [c0, c1, With(Ldfld, Member("Crop::programColored")), CallTo("NetBool::get_Value"), Jump(branch, to)]
  }

  /** Flowers harvested with the scythe only: everything from the hand test through the
      first scythe test after it is removed. */
  function RemoveHandHarvest(codes: seq<Instr>): (res: Result<seq<Instr>, Failure>)
    ensures res.Ok? ==> FindFrom(codes, HandHarvestTest(), 0).Some?
    ensures res.Ok? ==>
              var s := FindFrom(codes, HandHarvestTest(), 0).value;
              && FindFrom(codes, ScytheHarvestTest(), s + 5).Some?
              && res.value == codes[..s] + codes[FindFrom(codes, ScytheHarvestTest(), s + 5).value + 6..]
    ensures res.Ok? ==> |res.value| < |codes|
  {
    match Find(codes, HandHarvestTest(), 0)
    case Err(err) => Err(err)
    case Ok(hand) =>
      match Extend(codes, hand, ScytheHarvestTest())
      case Err(err) => Err(err)
      case Ok(whole) =>
        var out := Remove(codes, whole).value.codes;
        SplicedLayout(codes, out, whole.start, whole.length, []);
        assert codes[..whole.start] + [] == codes[..whole.start];
        assert out == codes[..hand.start] + codes[whole.End()..];
        assert hand.start == FindFrom(codes, HandHarvestTest(), 0).value;
        assert whole.End() == FindFrom(codes, ScytheHarvestTest(), hand.start + 5).value + 6;
        Ok(out)
  }

  /** `codes` with the `width`-long crop test at `at` turned into a flower test: the test's
      crop load is kept, and it branches with `branch` to the target of the test's last
      instruction. */
  ghost function WithFlowerTest(codes: seq<Instr>, at: nat, width: nat, branch: OpCode): (r: seq<Instr>)
    requires 2 <= width && at + width <= |codes| && codes[at + width - 1].arg.Target?
    ensures |r| == |codes| - width + 5
  {
    codes[..at] + FlowerTest(codes[at], codes[at + 1], branch, codes[at + width - 1].arg.to) + codes[at + width..]
  }

  /** Hand harvesting only for flowers: the hand test branches to its original target
      unless the crop is a flower. */
  function HandOnlyForFlowers(codes: seq<Instr>): (res: Result<seq<Instr>, Failure>)
    ensures res.Ok? ==> FindFrom(codes, HandHarvestTest(), 0).Some?
    ensures res.Ok? ==>
              var s := FindFrom(codes, HandHarvestTest(), 0).value;
              && codes[s + 4].arg.Target?
              && res.value == WithFlowerTest(codes, s, 5, Brfalse)
  {
    var hand :- Find(codes, HandHarvestTest(), 0);
    var branch := At(codes, hand, 4).value;
    if !branch.arg.Target? then Err(NotABranch(hand.start + 4))
    else
      var xs := FlowerTest(At(codes, hand, 0).value, At(codes, hand, 1).value, Brfalse, branch.arg.to);
      var out := Replace(codes, hand, xs).value.codes;
      SplicedLayout(codes, out, hand.start, 5, xs);
      Ok(out)
  }

  /** Scythe harvesting also for flowers: the scythe test branches to its original target
      when the crop is a flower. */
  function ScytheAlsoForFlowers(codes: seq<Instr>): (res: Result<seq<Instr>, Failure>)
    ensures res.Ok? ==> FindFrom(codes, ScytheHarvestTest(), 0).Some?
    ensures res.Ok? ==>
              var s := FindFrom(codes, ScytheHarvestTest(), 0).value;
              && codes[s + 5].arg.Target?
              && res.value == WithFlowerTest(codes, s, 6, Brtrue)
  {
    var scythe :- Find(codes, ScytheHarvestTest(), 0);
    var branch := At(codes, scythe, 5).value;
    if !branch.arg.Target? then Err(NotABranch(scythe.start + 5))
    else
      var xs := FlowerTest(At(codes, scythe, 0).value, At(codes, scythe, 1).value, Brtrue, branch.arg.to);
      var out := Replace(codes, scythe, xs).value.codes;
      SplicedLayout(codes, out, scythe.start, 6, xs);
      Ok(out)
  }

  /** Hand harvesting only for flowers, then scythe harvesting also for flowers; the two
      tests each become a five-instruction flower test. */
  function FlowersEitherWay(codes: seq<Instr>): (res: Result<seq<Instr>, Failure>)
    ensures res.Ok? ==> |res.value| < |codes|
    ensures res.Ok? ==> FindFrom(codes, HandHarvestTest(), 0).Some?
    ensures res.Ok? ==>
              var s := FindFrom(codes, HandHarvestTest(), 0).value;
              && codes[s + 4].arg.Target?
              && var mid := WithFlowerTest(codes, s, 5, Brfalse);
                 && FindFrom(mid, ScytheHarvestTest(), 0).Some?
                 && var t := FindFrom(mid, ScytheHarvestTest(), 0).value;
                    && mid[t + 5].arg.Target?
                    && res.value == WithFlowerTest(mid, t, 6, Brtrue)
  {
    var hand :- HandOnlyForFlowers(codes);
    ScytheAlsoForFlowers(hand)
  }

  /** Which of the two rewrites applies depends on how flowers may be harvested: scythe-only
      removes the hand branch through the scythe test; otherwise the hand test admits only
      flowers and the scythe test lets flowers through as well. */
  function HoeDirtPerformUseAction(codes: seq<Instr>, c: ModConfig): (res: Result<seq<Instr>, Failure>)
    ensures res.Ok? ==> |res.value| < |codes|
    ensures res.Ok? ==> FindFrom(codes, HandHarvestTest(), 0).Some?
    ensures c.harvestFlowers == Scythe ==> res == RemoveHandHarvest(codes)
    ensures c.harvestFlowers != Scythe ==> res == FlowersEitherWay(codes)
  {
    if c.harvestFlowers == Scythe then RemoveHandHarvest(codes)
    else FlowersEitherWay(codes)
  }

  // ----- Object.performToolAction -----

  /** `if (t is MeleeWeapon && t.BaseName.Equals("Scythe") && ScytheForage(this, t, location))
      return true;`, falling through to `go`. */
  function ScytheForageHook(go: Label): seq<Instr> {
    [Plain(Ldarg1), With(Isinst, Member("MeleeWeapon")), Jump(Brfalse, go),
     Plain(Ldarg1), With(Isinst, Member("MeleeWeapon")), With(Callvirt, Member("Tool::get_BaseName")),
     With(Ldstr, Str("Scythe")), With(Callvirt, Member("String::Equals")), Jump(Brfalse, go),
     Plain(Ldarg0), Plain(Ldarg1), Plain(Ldarg2), CallTo("ModEntry::ScytheForage"), Jump(Brfalse, go),
     Plain(LdcI41), Plain(Ret)]
  }

  /** A label on the first instruction and the hook prepended to the empty range there: the
      hook comes first, then the former first instruction carrying the label. */
  function ObjectPerformToolAction(b: Buffer): (res: Result<Buffer, Failure>)
    ensures res.Ok? <==> 0 < |b.codes|
    ensures res.Ok? ==> res.value.next == b.next + 1
    ensures res.Ok? ==> res.value.codes == ScytheForageHook(b.next)
                          + [b.codes[0].(labels := b.codes[0].labels + {b.next})] + b.codes[1..]
  {
    var att :- AttachLabel(b, Begin(), 0);
    var e := Prepend(att.0.codes, Begin(), ScytheForageHook(att.1)).value;
    LabelledInsert(b, Begin(), ScytheForageHook(b.next));
    assert b.codes[..0] == [];
    Ok(Buffer(e.codes, att.0.next))
  }

  /** Each of the hook's three failure branches skips its sixteen instructions to the
      original first instruction. */
  lemma ForageHookFallsThrough(b: Buffer)
    requires 0 < |b.codes| && LabelsBelow(b.codes, b.next)
    ensures var out := ObjectPerformToolAction(b).value.codes;
            && Follow(out, Range(0, 0), 2) == Ok(Range(16, 0))
            && Follow(out, Range(0, 0), 8) == Ok(Range(16, 0))
            && Follow(out, Range(0, 0), 13) == Ok(Range(16, 0))
  {
    GuardedInsert(b, Begin(), ScytheForageHook(b.next));
    var out := ObjectPerformToolAction(b).value.codes;
    assert out[2] == ScytheForageHook(b.next)[2];
    assert out[8] == ScytheForageHook(b.next)[8];
    assert out[13] == ScytheForageHook(b.next)[13];
  }

  // ----- Installation -----

  const CropHarvestTarget := "StardewValley.Crop::harvest"
  const ToolActionTarget := "StardewValley.TerrainFeatures.HoeDirt::performToolAction"
  const UseActionTarget := "StardewValley.TerrainFeatures.HoeDirt::performUseAction"
  const ForageTarget := "StardewValley.Object::performToolAction"

  /** The mod's four patch declarations, in declaration order; the hand-harvest and forage
      patches are gated by the two toggles. */
  function Declarations(): seq<Hack.Declaration> {
    [Hack.Declaration(CropHarvestTarget, "Crop_harvest", None),
     Hack.Declaration(ToolActionTarget, "HoeDirt_performToolAction", None),
     Hack.Declaration(UseActionTarget, "HoeDirt_performUseAction", Some("DisableHandHarvesting")),
     Hack.Declaration(ForageTarget, "Object_performToolAction", Some("HarvestForageEnabled"))]
  }

  /** The gate methods, evaluated against the configuration; no other name is a gate. */
  function Gates(c: ModConfig): string -> bool {
    name => (name == "DisableHandHarvesting" && DisableHandHarvesting(c))
         || (name == "HarvestForageEnabled" && HarvestForageEnabled(c))
  }

  /** A patch body that edits only the instruction list keeps the label counter. */
  function OnCodes(f: seq<Instr> -> Result<seq<Instr>, Failure>): Hack.Transform {
    (b: Buffer) => match f(b.codes)
         case Ok(codes) => Ok(Buffer(codes, b.next))
         case Err(e) => Err(e)
  }

  /** The patch methods by name. */
  function Bodies(c: ModConfig): string -> Hack.Transform {
    patch =>
      if patch == "Crop_harvest" then (b: Buffer) => CropHarvest(b, c)
      else if patch == "HoeDirt_performToolAction" then OnCodes(HoeDirtPerformToolAction)
      else if patch == "HoeDirt_performUseAction" then OnCodes(codes => HoeDirtPerformUseAction(codes, c))
      else if patch == "Object_performToolAction" then ObjectPerformToolAction
      else (b: Buffer) => Err(IncompatibleTarget(patch))
  }

  /** The registrations the declarations make under a configuration: the crop and
      tool-action patches always, the hand-harvest patch exactly when hand harvesting of
      pluckable crops is disabled, and the forage patch exactly when forage may be scythed. */
  lemma EnabledByConfig(c: ModConfig)
    ensures var regs := Hack.Enabled(Declarations(), Gates(c));
            && Hack.Registration(CropHarvestTarget, "Crop_harvest") in regs
            && Hack.Registration(ToolActionTarget, "HoeDirt_performToolAction") in regs
            && (Hack.Registration(UseActionTarget, "HoeDirt_performUseAction") in regs <==> DisableHandHarvesting(c))
            && (Hack.Registration(ForageTarget, "Object_performToolAction") in regs <==> HarvestForageEnabled(c))
  {
    EnabledLayout(c);
    GatedMembers(Hack.Registration(CropHarvestTarget, "Crop_harvest"),
                 Hack.Registration(ToolActionTarget, "HoeDirt_performToolAction"),
                 Hack.Registration(UseActionTarget, "HoeDirt_performUseAction"),
                 Hack.Registration(ForageTarget, "Object_performToolAction"),
                 DisableHandHarvesting(c), HarvestForageEnabled(c));
  }

  /** Two members always present and two present exactly when their condition holds. */
  lemma GatedMembers<T>(a: T, b: T, x: T, y: T, p: bool, q: bool)
    requires x != a && x != b && y != a && y != b && x != y
    ensures var s := [a, b] + (if p then [x] else []) + (if q then [y] else []);
            && a in s && b in s && (x in s <==> p) && (y in s <==> q)
  {
  }

  /** The registrations in declaration order: the two ungated ones, then each gated one
      whose gate holds. */
  lemma EnabledLayout(c: ModConfig)
    ensures Hack.Enabled(Declarations(), Gates(c)) ==
              [Hack.Registration(CropHarvestTarget, "Crop_harvest"),
               Hack.Registration(ToolActionTarget, "HoeDirt_performToolAction")]
              + (if DisableHandHarvesting(c) then [Hack.Registration(UseActionTarget, "HoeDirt_performUseAction")] else [])
              + (if HarvestForageEnabled(c) then [Hack.Registration(ForageTarget, "Object_performToolAction")] else [])
  {
    var ds := Declarations();
    assert ds[3..][1..] == [];
    assert ds[2..][1..] == ds[3..];
    assert ds[1..][1..] == ds[2..];
  }

  /** Installing the mod registers the patches `EnabledByConfig` names, after the ones
      registered before. */
  lemma InstallFollowsConfig(h: Hack.Hack, c: ModConfig, runtime: map<string, Hack.Method>)
    requires Hack.Entry(h, Declarations(), Gates(c), Bodies(c), runtime).Ok?
    ensures var added := Hack.Entry(h, Declarations(), Gates(c), Bodies(c), runtime).value.registered[|h.registered|..];
            && Hack.Registration(CropHarvestTarget, "Crop_harvest") in added
            && Hack.Registration(ToolActionTarget, "HoeDirt_performToolAction") in added
            && (Hack.Registration(UseActionTarget, "HoeDirt_performUseAction") in added <==> DisableHandHarvesting(c))
            && (Hack.Registration(ForageTarget, "Object_performToolAction") in added <==> HarvestForageEnabled(c))
  {
    var res := Hack.Entry(h, Declarations(), Gates(c), Bodies(c), runtime).value;
    EnabledByConfig(c);
    assert res.registered[|h.registered|..] == Hack.Enabled(Declarations(), Gates(c));
  }
}
