# StardewHack patching core, in Dafny

StardewHack is a helper library for Stardew Valley mods that rewrite the game's methods at
the level of their IL instructions. A mod declares transpiler patches. The library's `Hack`
class chains each patch through Harmony. Inside a patch body the mod finds instruction
patterns (`FindCode`, `FindCodeLast`), edits the found `InstructionRange`s (extend, replace,
remove, insert, splice), and attaches labels to build new jumps (`attachLabel`).

This project models:

- the pattern engine. A pattern is a sequence of matchers: any instruction, an opcode, an
  exact instruction, a member operand, or text in the instruction's rendering (`Matchers`).
  Forward and backward search (`Search`) and `FindCode`/`FindCodeLast` are built on it.
- labels as numbers minted by the IL generator, with the invariant that every label in the
  code was minted before the generator's counter (`Labels`);
- the `InstructionRange` operations, each a pure function from the code and a range to the
  edited code and the range's new bookkeeping (`Ranges`), and how they compose
  (`RangeProperties`);
- the `Hack` installer: `Prepare`, the proxy transpiler, `ChainPatch` (Harmony reruns the
  whole chain of registered patches for a method on its original body), and `Entry` (every
  declared patch is chained, in declaration order; a patch whose attribute names a gate
  method, as the mods' two-argument attributes do, is chained only when that gate holds)
  (`Hack`);
- the game rules of three mods built on the library, and every transpiler patch they
  declare:
  - WearMoreRings: extra ring slots kept in a hidden chest, ring counting, the equipment
    click and auto-equip logic;
  - HarvestWithScythe: harvest modes, gating of patches by the configuration;
  - TilledSoilDecay: the delay and drying rate that decide when tilled soil disappears.

  Each patch is modelled as the edit it makes to an instruction list. Its contract says
  which code it finds, what replaces it, and where the new jumps land.

StardewHack's `InstructionRange` and `Instructions` classes are not part of this model. The
range operations are modelled from how the three mods call them and what those calls rely
on. The instruction builders are modelled as plain constructors (`Instructions`).

For TilledSoilDecay's patches, a small stack machine (`TilledSoilDecayPatches.Step`/`Run`)
evaluates the straight-line code the patches emit. This connects the emitted instructions
to the rule they implement. Its `neg` and `sub` wrap to 32 bits, as IL does on `int32`.

Source paths below are relative to the repository root.

## Model

| member | source | states |
|---|---|---|
| Matchers.AnySubsumesAll | StardewHack/Hack.cs:107 | a null pattern element (any instruction) accepts everything any other matcher accepts |
| Matchers.OpIsIgnoresOperand | StardewHack/Hack.cs:105 | an opcode element accepts every instruction with that opcode, whatever its operand and labels, and no instruction with another opcode |
| Matchers.ExactRefinesOpAndMember | StardewHack/Hack.cs:104-106 | an instruction element accepts a subset of what its opcode alone accepts; a member element accepts every exact match on that member; an exact element rejects any other opcode or operand |
| Matchers.LikeAcceptsCopies | StardewHack/Hack.cs:106 | a CodeInstruction used as a pattern accepts exactly the instructions with its opcode and operand, whatever labels they carry |
| Matchers.MentionsNameSubsumesOpIs | StardewHack/Hack.cs:103 | textual matching on an opcode's name accepts every instruction with that opcode; the empty text accepts everything |
| Matchers.PrefixContained | StardewHack/Hack.cs:103 | a string element matches when it occurs in the rendering, in particular as a prefix |
| Matchers.AcceptsIgnoresLabels | StardewHack/Hack.cs:103-107 | every non-textual matcher gives the same answer whatever labels the instruction carries |
| Search.FindFrom | StardewHack/Hack.cs:101-111 | the result is the lowest matching offset at or after `from`; no result exactly when no window at or after `from` matches |
| Search.FindDown | StardewHack/Hack.cs:113-118 | the result is the highest matching offset at or below `at`; no result exactly when none matches there |
| Search.FindBefore | StardewHack/Hack.cs:113-118 | the result is the highest match whose window ends by `before`; no result exactly when there is none |
| Search.MatchedAt | StardewHack/Hack.cs:101-108 | in a match, each pattern element accepts the instruction at its position |
| Search.NextOccurrence | StardewHack/Hack.cs:101-111 | searching again from one past a match finds the next occurrence; no occurrence lies between the two |
| Search.FirstAndLast | StardewHack/Hack.cs:101-118 | the first occurrence is at or before the last one; they are equal exactly when the pattern occurs once |
| Search.FindFromComplete | StardewHack/Hack.cs:101-111 | any matching window at or after `from` makes the search succeed, at that offset or earlier |
| Search.FindIgnoresLabels | StardewHack/Hack.cs:124-128 | changing only labels never changes the result of a search without textual matchers |
| Hack.FindCode | StardewHack/Hack.cs:101-111 | FindCode returns the first occurrence of the pattern, of the pattern's length, and fails exactly when the pattern does not occur |
| Hack.FindCodeLast | StardewHack/Hack.cs:113-118 | FindCodeLast returns the last occurrence and fails exactly when the pattern does not occur |
| Hack.TranspileIsCompose | StardewHack/Hack.cs:64-99 | running the proxies (Prepare, patch body, return codes) through the shared fields computes the composition of the patch bodies, and leaves the registrations and installed bodies alone |
| Hack.ChainPatch | StardewHack/Hack.cs:56-92 | ChainPatch succeeds exactly when the method exists and the chain of its registered patches, with the new one last, succeeds on its original body; the saved codes and generator are restored, the registration is appended, and the method's installed body is the new chain's output |
| Hack.Enabled | HarvestWithScythe/ModEntry.cs:346-350 | the registrations are exactly those of the declarations whose gate is absent or holds, a gate being the attribute's second argument as in `[BytecodePatch(target, "DisableHandHarvesting")]` |
| Hack.Entry | StardewHack/Hack.cs:36-54 | on success, Entry chains every declared patch (every one, when none is gated; the gated ones only when their gate holds), that is, appends exactly the enabled registrations, restores codes and generator, installs a body for exactly their target methods, and leaves every other method's installed body unchanged |
| Hack.ChainPatchKeepsInstalledChains | StardewHack/Hack.cs:56-92 | after ChainPatch, every installed body is still the output of its method's whole chain on its original body |
| Hack.EntryKeepsInstalledChains | StardewHack/Hack.cs:47-53 | the same invariant holds after Entry installs all its patches |
| Hack.ComposeAppend | StardewHack/Hack.cs:88 | a chain over two lists of registrations is the first chain followed by the second on its output |
| Hack.ComposeSkipsOtherTargets | StardewHack/Hack.cs:88 | patches registered for other methods take no part in a method's chain |
| Hack.SingleCompose | StardewHack/Hack.cs:88 | a chain of one patch is that patch's body |
| Hack.ChainedPatchesCompose | StardewHack/Hack.cs:88 | a second patch on the same method receives the first one's output |
| Labels.Attach | StardewHack/Hack.cs:124-128 | attachLabel mints the generator's next label, adds it to exactly the chosen instruction, changes no opcode or operand, and advances the generator |
| Labels.AttachKeepsFresh | StardewHack/Hack.cs:124-128 | after attachLabel every label is still below the generator, and the new label is carried by the chosen instruction alone |
| Labels.AttachResolves | StardewHack/Hack.cs:124-128 | a branch to the freshly attached label lands on the instruction it was attached to |
| Labels.Retarget | HarvestWithScythe/ModEntry.cs:251 | branches into one label now jump to another; nothing else changes |
| Ranges.At | WearMoreRings/ModEntry.cs:402-403 | range[i] reads the instruction at start + i, which may be outside the range |
| Ranges.Put | WearMoreRings/ModEntry.cs:413 | range[i] = x overwrites exactly that one instruction |
| Ranges.Find | StardewHack/Hack.cs:109-110 | the range of the first match at or after `from`, or an error exactly when there is none |
| Ranges.FindLast | StardewHack/Hack.cs:116-117 | the range of the last match ending by `before`, or an error exactly when there is none |
| Ranges.FindNext | HarvestWithScythe/ModEntry.cs:331-336 | the first match starting at or after the range's end |
| Ranges.Extend | WearMoreRings/ModEntry.cs:188-195 | the range grows from its start to the end of the first match past its end, and fails exactly when there is none |
| Ranges.FindBlock | WearMoreRings/ModEntry.cs:308-323 | the block lies in the code at or after `from`, starts with a match of `start` and ends with a match of `end` |
| Ranges.ExtendTo | WearMoreRings/ModEntry.cs:400 | the range keeps its start and ends where the other range ends; it fails exactly when the other range ends before this one starts |
| Ranges.ExtendBackwards | HarvestWithScythe/ModEntry.cs:240-248 | the range grows back to the last match ending at or before its start, keeps its end, and fails exactly when there is none |
| Ranges.SubRange | WearMoreRings/ModEntry.cs:256 | the sub-range starts `offset` into the range, has the given length and lies inside it; it fails exactly when it would not fit |
| Ranges.Replace | WearMoreRings/ModEntry.cs:196-199 | the window is spliced out and the new instructions spliced in; the range spans them |
| Ranges.Remove | WearMoreRings/ModEntry.cs:346 | the window is spliced out; the range is empty at its old start |
| Ranges.Prepend | HarvestWithScythe/ModEntry.cs:337-343 | the new instructions go just before the window and the range covers both |
| Ranges.Append | HarvestWithScythe/ModEntry.cs:227-230 | the new instructions go just after the window and the range covers both |
| Ranges.Splice | TilledSoilDecay/ModEntry.cs:228-233 | `count` instructions at the offset are replaced; the range keeps its start and changes length by the difference |
| Ranges.Follow | HarvestWithScythe/ModEntry.cs:233-239 | following a branch gives the empty range at the first instruction its label marks; it fails exactly for a position outside the code, a non-branch, or a label no instruction carries |
| Ranges.AttachLabel | HarvestWithScythe/ModEntry.cs:143 | the label is attached to range[i] as attachLabel does |
| Ranges.ReplaceJump | HarvestWithScythe/ModEntry.cs:251 | a fresh label is attached to the target instruction and every branch into range[i]'s labels is redirected to it |
| Ranges.FindReplace | WearMoreRings/ModEntry.cs:141-172 | the first occurrence of the pattern is spliced out for the replacement, or an error when the pattern does not occur |
| RangeProperties.InsertIsReplace | HarvestWithScythe/ModEntry.cs:138-160 | Prepend and Append edit the code exactly as Replace with the old window kept after, respectively before, the new code |
| RangeProperties.SpliceIsReplaceOfSubRange | TilledSoilDecay/ModEntry.cs:228-233 | Splice edits the code exactly as Replace on the corresponding SubRange, while the range covers the whole edited window |
| RangeProperties.ReadsAfterReplace | HarvestWithScythe/ModEntry.cs:314-343 | after an edit, indexing the range reads the new code, and the neighbours read the instructions that bordered the old window |
| RangeProperties.TailIndexing | WearMoreRings/ModEntry.cs:640 | End[-1] is the range's last instruction and End[0] the one after it |
| RangeProperties.SubRangeWindow | WearMoreRings/ModEntry.cs:256-261 | a sub-range sees its slice of the parent window and indexes it from its own start |
| RangeProperties.MatchesOutsideSplice | HarvestWithScythe/ModEntry.cs:72-83 | matches wholly before an edit stay, and matches wholly after it stay, shifted by the change in length |
| RangeProperties.FindAfterReplace | HarvestWithScythe/ModEntry.cs:103-117 | repeating a search after replacing its first match moves on: the new first match is not before the edit, and one past the new code was an original later occurrence |
| RangeProperties.RemovedTwice | HarvestWithScythe/ModEntry.cs:72-83 | after removing a match, the next search's match either overlaps the removed place or was an original later match |
| RangeProperties.FindBlockSpec | WearMoreRings/ModEntry.cs:308-323 | a block starts at the first match of `start`, ends at the first match of `end` after it, and is missing exactly when either search fails |
| RangeProperties.LabelSurvivesSplice | HarvestWithScythe/ModEntry.cs:251-257 | a label carried by one instruction outside an edit is carried by that instruction alone afterwards |
| RangeProperties.FollowInsertedJump | HarvestWithScythe/ModEntry.cs:254-257 | a branch inserted to a label attached earlier lands on that instruction's new position |
| RangeProperties.ReplaceJumpRedirects | HarvestWithScythe/ModEntry.cs:251 | after ReplaceJump, branches that landed on range[i] land on the target; all other branches land where they did |
| RangeProperties.ReplaceJumpKeepsLabels | HarvestWithScythe/ModEntry.cs:251 | ReplaceJump keeps every label below the generator, and the new label is on the target alone |
| RangeProperties.ResolvePastSplice | HarvestWithScythe/ModEntry.cs:227-239 | a label resolving at or past an edit still resolves to the same instruction, shifted |
| RangeProperties.FindPastSplice | HarvestWithScythe/ModEntry.cs:314-336 | a search starting past an edit finds the same match, shifted, or fails in both codes |
| RangeProperties.ExtendPastSplice | WearMoreRings/ModEntry.cs:330-345 | extending a range that lies past an edit finds the same tail, shifted |
| RangeProperties.FindNextAfterReplace | HarvestWithScythe/ModEntry.cs:314-336 | after a Replace, FindNext finds the original next match, shifted by the change in length |
| RangeProperties.ExtendNextAfterReplace | WearMoreRings/ModEntry.cs:325-345 | after a Replace, the block found past the new code is the original block found past the old window, shifted |
| RangeProperties.RemoveNextBlockLayout | WearMoreRings/ModEntry.cs:325-346 | a Replace followed by removing the next block gives both edits made on the original code |
| RangeProperties.AppendToEmptyIsPrepend | HarvestWithScythe/ModEntry.cs:271-286 | on an empty range, Append and Prepend make the same edit |
| RangeProperties.ReplaceNextLayout | TilledSoilDecay/ModEntry.cs:93-129 | a Replace followed by rewriting the next match gives both edits made on the original code |
| RangeProperties.PrependNextLayout | HarvestWithScythe/ModEntry.cs:314-343 | a Replace followed by a Prepend before the next match gives both edits made on the original code |
| RangeProperties.PutNextLayout | WearMoreRings/ModEntry.cs:401-413 | a Replace followed by overwriting the next match's first instruction changes exactly those two places |
| RangeProperties.RemoveFirstHead | HarvestWithScythe/ModEntry.cs:202-216 | the first `head` instructions of the first match are removed, and the match's position is reported |
| RangeProperties.FindWithOperand | HarvestWithScythe/ModEntry.cs:166-179 | the first match, together with the operand the pattern read at the stated position |
| RangeProperties.BlockToBranchTarget | WearMoreRings/ModEntry.cs:634-641 | a found block extended to where the branch ending it lands, with that branch's label |
| RangeProperties.BackFromBranch | HarvestWithScythe/ModEntry.cs:233-248 | the window ends where a test's branch lands and starts at the last match of `back` before it |
| RangeProperties.ReplaceInside | WearMoreRings/ModEntry.cs:668-673 | the inside of a window is replaced; its first and last instructions are kept |
| RangeProperties.LabelledInsert | HarvestWithScythe/ModEntry.cs:404-406 | attaching a label and then inserting before the instruction leaves it, with the label, right after the new code |
| RangeProperties.GuardedInsert | HarvestWithScythe/ModEntry.cs:404-425 | a branch of inserted code to that label skips exactly the inserted code |
| RangeProperties.GuardBranchSkips | HarvestWithScythe/ModEntry.cs:271-286 | code put in front of the body, branching to the label on the old first instruction, lands right after itself |
| RangeProperties.ReplaceBeforeLabelled | WearMoreRings/ModEntry.cs:456-478 | replacement code branching to the label on the following instruction lands right after itself, on the unchanged instruction |
| RangeProperties.FindReplaceIsReplaceFirst | WearMoreRings/ModEntry.cs:141-172 | FindCode(pattern).Replace(xs) is the reference replace-first-occurrence |
| WearMoreRings.Padded | WearMoreRings/ModEntry.cs:101-105 | the chest's list keeps its items in place, padded with nulls to at least six slots |
| WearMoreRings.GetRingInventory | WearMoreRings/ModEntry.cs:101-105 | the padding loop returns the same list as Padded |
| WearMoreRings.AllocateChest | WearMoreRings/ModEntry.cs:72-99 | the recorded chest is reused when it is still there; otherwise the first free tile from the recorded id (or 0) onward gets an empty chest, whose id is recorded |
| WearMoreRings.AllocationIsStable | WearMoreRings/ModEntry.cs:77-85 | asking again after an allocation finds the same chest and changes nothing |
| WearMoreRings.AllocationKeepsOthers | WearMoreRings/ModEntry.cs:92-98 | an allocation places at most one chest and moves no other object |
| WearMoreRings.RingsIn | WearMoreRings/ModEntry.cs:49-52 | the rings of a list, in order: exactly the ring items |
| WearMoreRings.AllRings | WearMoreRings/ModEntry.cs:45-53 | ForEachRing visits only rings, at most one per ring slot and chest slot |
| WearMoreRings.CountEquippedRings | WearMoreRings/ModEntry.cs:55-59 | the count never exceeds the number of ring slots and chest slots |
| WearMoreRings.CountInIsMultiplicity | WearMoreRings/ModEntry.cs:49-57 | the count over a list is the number of rings of that index in it |
| WearMoreRings.CountIsMultiplicity | WearMoreRings/ModEntry.cs:55-59 | the count is the multiplicity among all worn rings, so the patched isWearingRing holds exactly when such a ring is worn |
| WearMoreRings.CountIgnoresOthers | WearMoreRings/ModEntry.cs:57 | other rings and non-ring items do not change the count |
| WearMoreRings.Convert | WearMoreRings/ModEntry.cs:485-487 | the copper pan becomes hat 71 and object 71 becomes pants 15; everything else is unchanged |
| WearMoreRings.SlotOf | WearMoreRings/ModEntry.cs:526-541 | a name reaches a slot only when it is that slot's name ("Extra Ring k" is chest item k-1), and it takes the default branch exactly when it is none of the twelve case names |
| WearMoreRings.SlotOfName | WearMoreRings/ModEntry.cs:527-538 | every slot, each chest slot included, is reached from its own name |
| WearMoreRings.SetSlot | WearMoreRings/ModEntry.cs:526-538 | writing a slot changes that slot only |
| WearMoreRings.FitsSlot | WearMoreRings/ModEntry.cs:492-538 | the type check of the first switch agrees with the type of the slot the second switch writes |
| WearMoreRings.EquipmentClick | WearMoreRings/ModEntry.cs:481-554 | a click succeeds exactly when it is accepted. It then puts the converted held item into the icon and its slot, leaves every other slot alone, and hands the grabbed old item to the cursor. A refused click changes nothing but the chest padding |
| WearMoreRings.ClickKeepsWellTyped | WearMoreRings/ModEntry.cs:481-554 | a click keeps every slot holding an item of its type |
| WearMoreRings.ClickTwiceRestores | WearMoreRings/ModEntry.cs:551-552 | clicking twice on the same slot restores the farmer and the icon when no conversion or grab applies |
| WearMoreRings.FirstEmptyAccepting | WearMoreRings/ModEntry.cs:558-561 | the first empty icon that accepts the held item, or none exactly when no icon does |
| WearMoreRings.AutoEquipment | WearMoreRings/ModEntry.cs:556-564 | when AutoEquipment equips nothing, the icons and the farmer are unchanged but for the chest padding |
| WearMoreRings.AutoEquipmentFillsFirst | WearMoreRings/ModEntry.cs:556-564 | it then fills the first such icon with the converted item and leaves the others alone |
| WearMoreRings.FirstIconClick | WearMoreRings/ModEntry.cs:558-561 | the click on the first icon succeeds exactly on an empty accepting icon; AutoEquipment stops there on success and goes on with the other icons otherwise |
| WearMoreRings.AutoEquipmentNeedsHeldItem | WearMoreRings/ModEntry.cs:488-489 | with nothing held, AutoEquipment fills no empty icon |
| WearMoreRingsPatches.FarmerIsWearingRing | WearMoreRings/ModEntry.cs:118-126 | whatever the original body, isWearingRing becomes the five instructions returning CountEquippedRings(this, which) |
| WearMoreRingsPatches.FarmerUpdateCommon | WearMoreRings/ModEntry.cs:140-173 | the first occurrence of the two ring updates becomes one call to UpdateRings, and the patch fails exactly when they do not occur |
| WearMoreRingsPatches.LocationRingHook | WearMoreRings/ModEntry.cs:181-200 | the right-ring to left-ring hook block becomes one call visiting every ring, for both location hooks; it fails exactly when the block is missing |
| WearMoreRingsPatches.SlayCallArguments | WearMoreRings/ModEntry.cs:244-254 | the three loads before the final call of a slay block are the monster, `this` and `who` |
| WearMoreRingsPatches.ReplaceSlayBlock | WearMoreRings/ModEntry.cs:256-263 | the slay block becomes ring_onMonsterSlay with exactly the old call's arguments |
| WearMoreRingsPatches.GameLocationDamageMonster | WearMoreRings/ModEntry.cs:232-264 | the patch applies exactly when the slay block is found, and then replaces it as above |
| WearMoreRingsPatches.ReplacedByFour | WearMoreRings/ModEntry.cs:257-263 | the replaced block's surroundings are unchanged and the four new instructions sit where it began |
| WearMoreRingsPatches.ReplaceIconsLayout | WearMoreRings/ModEntry.cs:325-346 | the removed block is the one found in the original code after the first, and the code between the blocks is kept |
| WearMoreRingsPatches.InventoryPageCtor | WearMoreRings/ModEntry.cs:305-347 | the constructor patch applies only where the ring and boots icon block is found, and mints no label |
| WearMoreRingsPatches.InventoryPageCtorLayout | WearMoreRings/ModEntry.cs:305-347 | the result is: the code before, AddEquipmentIcons, the original code between the blocks, the code after |
| WearMoreRingsPatches.DrawSwitch | WearMoreRings/ModEntry.cs:366-397 | the Unix switch is used when it occurs, otherwise the Windows switch |
| WearMoreRingsPatches.DrawSwitchPrefersUnix | WearMoreRings/ModEntry.cs:366-397 | the search fails only when neither form occurs |
| WearMoreRingsPatches.DrawLoopBody | WearMoreRings/ModEntry.cs:400 | the loop body runs from the switch to the target of the branch before it |
| WearMoreRingsPatches.DrawEquipmentAtLayout | WearMoreRings/ModEntry.cs:401-413 | only the loop body and the first `ldc.r4 32; stloc.0` after it change |
| WearMoreRingsPatches.InventoryPageDraw | WearMoreRings/ModEntry.cs:363-414 | the draw patch applies only where the loop body is found, and mints no label |
| WearMoreRingsPatches.DrawMovesPortrait | WearMoreRings/ModEntry.cs:363-414 | the loop body becomes the DrawEquipment call and the portrait offset 32 becomes 64; the rest is the original code |
| WearMoreRingsPatches.InventoryPageDrawSteps | WearMoreRings/ModEntry.cs:363-414 | the draw patch is DrawEquipmentAt on the found loop body |
| WearMoreRingsPatches.UnixIconSwitch | WearMoreRings/ModEntry.cs:422-434 | the Unix switch is extended to the target of its null-case branch |
| WearMoreRingsPatches.WindowsCases | WearMoreRings/ModEntry.cs:438-453 | the Windows case tests run from the match through the Pants case |
| WearMoreRingsPatches.FindBlockEndingIn | WearMoreRings/ModEntry.cs:447-453 | a found block ends in an instruction of the last matcher's opcode |
| WearMoreRingsPatches.WindowsIconSwitch | WearMoreRings/ModEntry.cs:438-454 | the Windows switch is extended to the target of the `br` ending its cases |
| WearMoreRingsPatches.BlockToBrTarget | WearMoreRings/ModEntry.cs:447-454 | a block ending in `br` is extended to where that branch lands |
| WearMoreRingsPatches.ExtendToBranchTarget | WearMoreRings/ModEntry.cs:454 | a range ending in `br` is extended forward to that branch's target |
| WearMoreRingsPatches.IconSwitch | WearMoreRings/ModEntry.cs:420-455 | the Unix form is used when every step of it succeeds, otherwise the Windows form |
| WearMoreRingsPatches.HoverAt | WearMoreRings/ModEntry.cs:456-478 | the hover rewrite succeeds exactly when an instruction follows the switch, and mints one label |
| WearMoreRingsPatches.HoverAtSkipsTooltip | WearMoreRings/ModEntry.cs:463 | an icon without an item skips exactly the tooltip code |
| WearMoreRingsPatches.InventoryPagePerformHoverAction | WearMoreRings/ModEntry.cs:416-479 | the hover patch is HoverAt on the switch found with local 2 |
| WearMoreRingsPatches.HoverSkipsTooltip | WearMoreRings/ModEntry.cs:416-479 | after the hover patch, an icon without an item continues where the switch ended |
| WearMoreRingsPatches.EquipFailedSpan | WearMoreRings/ModEntry.cs:612-641 | the shift-click tests, extended to equip_failed, together with its label |
| WearMoreRingsPatches.AutoEquipAt | WearMoreRings/ModEntry.cs:643-649 | the rewrite applies exactly when the shift-click tests and equip_failed are found |
| WearMoreRingsPatches.AutoEquipAtLayout | WearMoreRings/ModEntry.cs:643-649 | the failure branch lands on the instruction equip_failed marked, right after the new code |
| WearMoreRingsPatches.ClickAtLayout | WearMoreRings/ModEntry.cs:605-649 | the switch calls EquipmentClick, and AutoEquipment's failure falls through to equip_failed |
| WearMoreRingsPatches.InventoryPageReceiveLeftClick | WearMoreRings/ModEntry.cs:566-650 | the click patch applies only where the switch (kept in local 3) is found, and mints no label |
| WearMoreRingsPatches.ReceiveLeftClickFallsThrough | WearMoreRings/ModEntry.cs:566-650 | after the click patch, AutoEquipment's failure branch lands right after the new code |
| WearMoreRingsPatches.SeedBlock | WearMoreRings/ModEntry.cs:655-667 | the seed block lies in the code, spans at least the two patterns, and ends with the setter call |
| WearMoreRingsPatches.RingCtor | WearMoreRings/ModEntry.cs:654-674 | the patch applies exactly when the seed block is found; its inside becomes `random.Next()`, stored through the original setter call |
| HarvestWithScythe.DisableHandHarvesting | HarvestWithScythe/ModEntry.cs:346-348 | hand harvesting of pluckable crops is disabled exactly when their mode does not allow hands |
| HarvestWithScythe.HarvestForageEnabled | HarvestWithScythe/ModEntry.cs:398-400 | forage is harvested with the scythe exactly when its mode allows the scythe |
| HarvestWithScythePatches.RemoveVectorCtor | HarvestWithScythe/ModEntry.cs:72-83 | the first vector construction is removed and its constructor call is returned |
| HarvestWithScythePatches.SecondCtorIsAnother | HarvestWithScythe/ModEntry.cs:72-83 | the second removal is another construction of the original code, or overlaps the first's place |
| HarvestWithScythePatches.UseVector | HarvestWithScythe/ModEntry.cs:103-117 | the first scaled use becomes a load of the precomputed vector |
| HarvestWithScythePatches.UseVectorLoads | HarvestWithScythe/ModEntry.cs:103-117 | one UseVector round is one round of loading |
| HarvestWithScythePatches.RemoveVectorCtorIsReplaceFirst | HarvestWithScythe/ModEntry.cs:72-83 | RemoveVectorCtor removes the first construction and nothing else |
| HarvestWithScythePatches.LoadUses | HarvestWithScythe/ModEntry.cs:103-117 | four rounds, each replacing the first scaled use left with the load, shortening the code by 32 |
| HarvestWithScythePatches.RemoveCtors | HarvestWithScythe/ModEntry.cs:72-83 | the first construction is removed, then the first of the rest, whose constructor call is returned |
| HarvestWithScythePatches.FixVector | HarvestWithScythe/ModEntry.cs:67-118 | the unscaled constructions go, the scaled vector is built at the start, and four scaled uses load it |
| HarvestWithScythePatches.ScaledVectorFirst | HarvestWithScythe/ModEntry.cs:87-98 | the scaled construction goes in front of the method |
| HarvestWithScythePatches.SpringOnionAt | HarvestWithScythe/ModEntry.cs:138-160 | the scythe drop is inserted before the labelled inventory test |
| HarvestWithScythePatches.SpringOnionAtLayout | HarvestWithScythe/ModEntry.cs:139-143 | a crop harvested by hand skips the sixteen new instructions |
| HarvestWithScythePatches.SpringOnion | HarvestWithScythe/ModEntry.cs:121-161 | the patch applies exactly when the inventory test is found |
| HarvestWithScythePatches.SpringOnionPlucksByHand | HarvestWithScythe/ModEntry.cs:138-160 | a crop harvested by hand reaches the unchanged original inventory test |
| HarvestWithScythePatches.ColoredFlowers | HarvestWithScythe/ModEntry.cs:165-193 | the object debris call becomes an item debris call of CreateObject with the same quality local |
| HarvestWithScythePatches.RemoveLoopHead | HarvestWithScythe/ModEntry.cs:202-216 | the loop head is removed; its position and loop variable are reported |
| HarvestWithScythePatches.SeedsQuality | HarvestWithScythe/ModEntry.cs:219-230 | `quality = 0` is appended to the sunflower test |
| HarvestWithScythePatches.ScytheBranchTail | HarvestWithScythe/ModEntry.cs:233-248 | the tail runs from the loop's `i++` before the branch's end to that end |
| HarvestWithScythePatches.JumpToSeedsLayout | HarvestWithScythe/ModEntry.cs:250-257 | the tail shrinks to one `br`, and no other opcode changes |
| HarvestWithScythePatches.JumpToSeedsLands | HarvestWithScythe/ModEntry.cs:250-257 | the new `br`, and every branch that targeted the tail, lands on the seeds code |
| HarvestWithScythePatches.SeedsStage | HarvestWithScythe/ModEntry.cs:200-230 | this stage succeeds exactly when both places are found, giving the planned code |
| HarvestWithScythePatches.SunflowerDrops | HarvestWithScythe/ModEntry.cs:200-258 | the sunflower patch succeeds exactly when the three places are found, giving the planned code |
| HarvestWithScythePatches.FlowerGateAt | HarvestWithScythe/ModEntry.cs:271-286 | the flower check goes in front, and the old first instruction carries its label |
| HarvestWithScythePatches.FlowerGate | HarvestWithScythe/ModEntry.cs:267-287 | the gate succeeds exactly on a non-empty body |
| HarvestWithScythePatches.FlowerGateSkips | HarvestWithScythe/ModEntry.cs:271-281 | both branches of the flower check skip exactly its ten instructions |
| HarvestWithScythePatches.HarvestParts | HarvestWithScythe/ModEntry.cs:261-265 | the four parts together mint three labels: one for the spring onion and two for the sunflower jump |
| HarvestWithScythePatches.CropHarvest | HarvestWithScythe/ModEntry.cs:260-288 | the four parts run, then, when flowers may only be harvested by hand, the flower check goes in front |
| HarvestWithScythePatches.HoeDirtPerformToolAction | HarvestWithScythe/ModEntry.cs:301-344 | the method is forced to scythe and restored before the crop-dead test; it applies exactly when both tests are found |
| HarvestWithScythePatches.RemoveHandHarvest | HarvestWithScythe/ModEntry.cs:360-370 | the hand branch through the first scythe test is removed |
| HarvestWithScythePatches.HandOnlyForFlowers | HarvestWithScythe/ModEntry.cs:372-379 | the hand test admits only flowers |
| HarvestWithScythePatches.ScytheAlsoForFlowers | HarvestWithScythe/ModEntry.cs:380-394 | the scythe test also lets flowers through |
| HarvestWithScythePatches.FlowersEitherWay | HarvestWithScythe/ModEntry.cs:371-395 | both tests become five-instruction flower tests |
| HarvestWithScythePatches.HoeDirtPerformUseAction | HarvestWithScythe/ModEntry.cs:350-396 | scythe-only flowers remove the hand branch; every other flower mode rewrites both tests into flower tests |
| HarvestWithScythePatches.ObjectPerformToolAction | HarvestWithScythe/ModEntry.cs:402-426 | the forage hook goes in front, and the old first instruction carries its label |
| HarvestWithScythePatches.ForageHookFallsThrough | HarvestWithScythe/ModEntry.cs:404-425 | each failure branch of the hook skips its sixteen instructions |
| HarvestWithScythePatches.EnabledByConfig | HarvestWithScythe/ModEntry.cs:346-350 | the hand and forage patches are registered exactly when their toggles hold; the other two always are |
| HarvestWithScythePatches.InstallFollowsConfig | HarvestWithScythe/ModEntry.cs:346-402 | installing the mod registers exactly EnabledByConfig's patches, after earlier ones |
| HarvestWithScythePatches.EnabledLayout | HarvestWithScythe/ModEntry.cs:350-402 | the registrations follow declaration order |
| TilledSoilDecay.RemoveNonFarmHoeDirt | TilledSoilDecay/ModEntry.cs:236-247 | an error exactly when the tile is missing or not soil; otherwise the soil goes or the location is unchanged, and too fresh soil or a draw above the rate keeps it |
| TilledSoilDecay.RemovedExactly | TilledSoilDecay/ModEntry.cs:241-246 | the soil goes exactly when it is old enough and the draw is within the drying rate |
| TilledSoilDecay.RemovalIsMonotone | TilledSoilDecay/ModEntry.cs:241-243 | drier soil and a lower draw never save soil that would have gone |
| TilledSoilDecay.DefaultNonFarmDelays | TilledSoilDecay/ModEntry.cs:31-47 | by default, greenhouse soil needs a night without water and other soil can go any night |
| TilledSoilDecayPatches.HoeDirtDayUpdate | TilledSoilDecay/ModEntry.cs:219-234 | the reset's constant 0 is spliced out and the decrement spliced in |
| TilledSoilDecayPatches.ResetClearsState | TilledSoilDecay/ModEntry.cs:220-226 | running the original reset sets the state to 0 |
| TilledSoilDecayPatches.Wrap32 | TilledSoilDecay/ModEntry.cs:231-232 | the 32-bit result of `sub` and `neg`: an `int32`, congruent to the exact result modulo 2^32, and the exact result when that fits |
| TilledSoilDecayPatches.DecrementRuns | TilledSoilDecay/ModEntry.cs:228-233 | the inserted instructions leave the field and one less than the state, in 32-bit arithmetic, on the stack |
| TilledSoilDecayPatches.DecrementLowersState | TilledSoilDecay/ModEntry.cs:217-233 | the patched code lowers the state by one each night without water; a state at int.MinValue wraps to int.MaxValue |
| TilledSoilDecayPatches.DayUpdateWindow | TilledSoilDecay/ModEntry.cs:228-233 | the replacement keeps the reset's first two instructions and its setter |
| TilledSoilDecayPatches.DelayCheckJumps | TilledSoilDecay/ModEntry.cs:104-111 | the delay check jumps to the exit exactly when `state > -Delay` with 32-bit negation, which for every 32-bit delay but int.MinValue is when the soil is too fresh, and leaves the stack and state as they were |
| TilledSoilDecayPatches.EmittedIsTooFresh | TilledSoilDecay/ModEntry.cs:108-111 | for a 32-bit delay other than int.MinValue, the emitted `state > -Delay` is the rule `-state < Delay` |
| TilledSoilDecayPatches.MinDelayKeepsSoil | TilledSoilDecay/ModEntry.cs:108-111 | with Delay at int.MinValue the negation wraps, so the emitted check keeps every soil above int.MinValue although the rule calls none of it too fresh |
| TilledSoilDecayPatches.RateLoadPushesRate | TilledSoilDecay/ModEntry.cs:125-128 | the rate load pushes the section's drying rate |
| TilledSoilDecayPatches.RewriteNextLayout | TilledSoilDecay/ModEntry.cs:114-129 | the rewrite applies exactly when the roll occurs past the window, and gives both edits on the original code |
| TilledSoilDecayPatches.FarmDayUpdate | TilledSoilDecay/ModEntry.cs:79-130 | the Farm patch applies only where the soil test is found and ends in a branch |
| TilledSoilDecayPatches.FarmDayUpdateApplies | TilledSoilDecay/ModEntry.cs:79-130 | the Farm patch applies exactly when the test and a following roll are found |
| TilledSoilDecayPatches.FarmDayUpdateLayout | TilledSoilDecay/ModEntry.cs:93-129 | the result is the original code with the sixteen-instruction test and the rate load in place of the constant |
| TilledSoilDecayPatches.FarmDelayExits | TilledSoilDecay/ModEntry.cs:93-112 | the new test exits to the old target for non-soil, and for soil the emitted check calls too fresh under the nightly delay, which is the decay rule for every 32-bit delay but int.MinValue |
| TilledSoilDecayPatches.GrowthPatchAt | TilledSoilDecay/ModEntry.cs:146-171 | the crop-roll window is spliced out and the eighteen-instruction window spliced in |
| TilledSoilDecayPatches.GrowthPatch | TilledSoilDecay/ModEntry.cs:134-171 | the first crop roll, whose test ends in a branch, is spliced out for the new window; the patch fails when there is no crop roll |
| TilledSoilDecayPatches.GameLocationHandleGrassGrowth | TilledSoilDecay/ModEntry.cs:132-172 | the first crop roll is rewritten for the seasonal settings; it fails when there is none |
| TilledSoilDecayPatches.IslandWestDayUpdate | TilledSoilDecay/ModEntry.cs:174-215 | the first crop roll is rewritten for the island settings; it fails when there is none |
| TilledSoilDecayPatches.GrowthWindowShape | TilledSoilDecay/ModEntry.cs:146-171 | the matched instructions survive in order, and the constant chance is the only one dropped |
| TilledSoilDecayPatches.GrowthDelayExits | TilledSoilDecay/ModEntry.cs:151-158 | the window's delay check exits exactly where the emitted comparison holds, which for every 32-bit delay but int.MinValue is soil too fresh under the section's delay |
| TilledSoilDecayPatches.CropRollOps | TilledSoilDecay/ModEntry.cs:134-145 | only the last instruction of a crop roll is a floating constant |
| TilledSoilDecayPatches.GrowthPatchAtWindow | TilledSoilDecay/ModEntry.cs:146-171 | at a matched crop roll, the patched code holds the new window, which has no floating constant |
| TilledSoilDecayPatches.GrowthPatchWindow | TilledSoilDecay/ModEntry.cs:146-171 | in the patched code the matched window became the new one, without the old constant |
| TilledSoilDecayPatches.GameLocationDayUpdate | TilledSoilDecay/ModEntry.cs:249-267 | the unconditional removal becomes a call of remove_non_farm_hoedirt with the same location and key |

## Left out

- Hack.ChainPatch: Harmony's patch chain is global and ordered by priority; here it is the Hack's own registrations in order. Building the DynamicMethod and emitting IL are not modelled, and neither are Harmony's error messages.
- Hack.Transpile: the proxies are the only transpilers on a method; patches by other mods are not modelled.
- Hack.Entry: reflection over the class's attributes is modelled as a list of declarations, and the gate method as a named boolean. The loop at StardewHack/Hack.cs:47-52 chains every attribute with no gate; the gate follows the mods' two-argument attribute (HarvestWithScythe/ModEntry.cs:350 and 402), which belongs to a newer version of the library than the Hack.cs shown, so the model agrees with that loop exactly when no declaration is gated. The list's order stands in for the order `GetMethods` returns, which .NET does not specify. As at StardewHack/Hack.cs:47-53, where no patch is wrapped in a try/catch, the first failure stops installation; patches are not isolated from each other.
- Hack.Prepare: modelled only as the step of the proxy it is; it is not a separate entry point.
- Instructions.Render: the rendering used by textual matchers is the mnemonic plus the operand. Floats are rounded down, branch targets print as `Label` and the number, and no labels are printed; Harmony's own member formatting is not modelled.
- Ranges.Replace: labels carried by the replaced instructions go with them; moving them onto the new code is not modelled. WearMoreRingsPatches.HoverAt, for instance, attaches its label to the instruction after the replaced switch.
- Ranges.Follow: yields the empty range at the target, as the call sites use it; the range's later growth is done with Extend or ExtendBackwards.
- Ranges.ReplaceJump: follows the call site at HarvestWithScythe/ModEntry.cs:251, redirecting every branch into range[i]'s labels.
- WearMoreRings.AllocateChest: the chest id is an unbounded number, so the 32-bit wrap of `id++` (WearMoreRings/ModEntry.cs:93) is not modelled. int.Parse failing on a malformed record, the per-farmer cache, and logging are not modelled either.
- WearMoreRings.AllRings: a null farmer, which throws, is not modelled. The chest allocated as a side effect of reading the rings is not modelled: the rings are read from the padded chest contents.
- WearMoreRings.CountEquippedRings: the same simplification as AllRings.
- WearMoreRings.PositionFromId: the chest's tile is a pair of integers rather than a float vector.
- WearMoreRings.Convert: clothing kinds are only shirt and pants; clothing 15 is pants.
- WearMoreRings.EquipmentClick: sounds, onEquip/onUnequip calls, the NetField parent fix-up and logging are not modelled.
- HarvestWithScythe.CreateObject: only the fields of the spawned object are modelled; the game's object construction is not.
- TilledSoilDecay.RemoveNonFarmHoeDirt: the night's random draw is a parameter. The draw happens only when the soil is not too fresh, which the model reflects by not reading it then. The 32-bit negation of `state` and the double arithmetic are modelled as integers and reals.
- TilledSoilDecayPatches.DelayCheckJumps: the emitted check and the decay rule `-state < Delay` are proved to agree only for a 32-bit delay other than int.MinValue; at int.MinValue they differ, as MinDelayKeepsSoil shows. Values on the machine's stack are integers that the model does not force into 32 bits.
- ScytheForage (HarvestWithScythe/ModEntry.cs:428-468): the forage harvesting itself is game logic driven by random numbers; only the hook that calls it is modelled.
- AddIcon, AddEquipmentIcons and DrawEquipment (WearMoreRings): drawing and UI layout are not modelled.
- UpdateRings and the ring_on* visitors (WearMoreRings): they only call each ring's game method, in AllRings' order.
- SaveLoaded, the save migration (WearMoreRings): file and save-game I/O.
- GetApi and InitializeApi (all three mods): the configuration menu UI.
- bump_version.py: a release script that only rewrites files.
