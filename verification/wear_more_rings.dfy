/** WearMoreRings' game-side rules: the hidden chest that holds the six extra ring slots,
    counting the rings a farmer wears, and clicking an item into an equipment slot. */
module WearMoreRings {
  import opened Wrappers

  /** The number of extra ring slots kept in the farmer's ring chest. */
  const ExtraRings: nat := 6

  datatype ClothesKind = Shirt | Pants

  /** The items that matter to the equipment slots. Hats, clothing, boots and rings are not
      game objects (`Obj`); the copper pan and object 71 are the two items the click converts. */
  datatype Item =
    | Hat(which: int)
    | Clothing(kind: ClothesKind, which: int)
    | Boots(which: int)
    | Ring(which: int)
    | Pan
    | Obj(index: int)
    | OtherItem(name: string)

  /** The equipment slots a click can fill. */
  type ExtraIndex = k: nat | k < 6

  datatype Slot = HatSlot | ShirtSlot | PantsSlot | BootsSlot | LeftRing | RightRing | Extra(k: ExtraIndex)

  /** A farmer's equipment, the extra-ring chest's item list and the item held on the cursor. */
  datatype Farmer = Farmer(hat: Option<Item>, shirt: Option<Item>, pants: Option<Item>, boots: Option<Item>,
                           leftRing: Option<Item>, rightRing: Option<Item>,
                           chest: seq<Option<Item>>, cursor: Option<Item>)

  /** An equipment icon of the inventory page: its slot name and the item it shows. */
  datatype Icon = Icon(name: string, item: Option<Item>)

  // ----- The ring chest -----

  /** `padded` is `items` with nulls appended: the existing items keep their positions. */
  ghost predicate PadsWithNull(items: seq<Option<Item>>, padded: seq<Option<Item>>) {
    && |items| <= |padded|
    && padded[..|items|] == items
    && forall k :: |items| <= k < |padded| ==> padded[k].None?
  }

  /** The chest's item list as GetRingInventory hands it out. */
  function Padded(items: seq<Option<Item>>): (r: seq<Option<Item>>)
    ensures |r| == if |items| < ExtraRings then ExtraRings else |items|
    ensures PadsWithNull(items, r)
  {
    if |items| < ExtraRings then items + seq(ExtraRings - |items|, _ => None) else items
  }

  /** GetRingInventory's padding loop: append nulls until there are six slots. */
  method GetRingInventory(items: seq<Option<Item>>) returns (r: seq<Option<Item>>)
    ensures |r| >= ExtraRings
    ensures |items| >= ExtraRings ==> r == items
    ensures |items| < ExtraRings ==> |r| == ExtraRings
    ensures PadsWithNull(items, r)
    ensures r == Padded(items)
  {
    r := items;
    while |r| < ExtraRings
      invariant |items| <= |r|
      invariant |items| < ExtraRings ==> |r| <= ExtraRings
      invariant |items| >= ExtraRings ==> r == items
      invariant r[..|items|] == items
      invariant forall k :: |items| <= k < |r| ==> r[k].None?
      decreases ExtraRings - |r|
    {
      r := r + [None];
    }
  }

  // ----- Allocating the chest -----

  /** What stands on a farm tile. */
  datatype Placed = ChestAt(items: seq<Option<Item>>) | OtherObject

  type Pos = (int, int)

  /** The off-map tile of the ring chest with the given id. */
  function PositionFromId(id: int): (p: Pos)
    ensures p.0 == id && p.1 == -50
  {
    (id, -50)
  }

  /** The occupied chest tiles at or after `id`: a measure that shrinks as the search moves on. */
  ghost function OccupiedFrom(objects: map<Pos, Placed>, id: int): set<Pos> {
    set p | p in objects.Keys && p.1 == -50 && p.0 >= id
  }

  datatype Allocation = Allocation(id: int, objects: map<Pos, Placed>, stored: Option<int>)

  /** GetRingInventory_internal's outcome: reuse the chest whose id the farmer recorded when
      it is still there; otherwise take the first free tile from the recorded id (or 0)
      onward, place an empty chest there and record its id. */
  ghost predicate Allocates(objects: map<Pos, Placed>, stored: Option<int>, a: Allocation) {
    if stored.Some? && PositionFromId(stored.value) in objects && objects[PositionFromId(stored.value)].ChestAt? then
      a == Allocation(stored.value, objects, stored)
    else
      var start := if stored.Some? then stored.value else 0;
      && start <= a.id
      && PositionFromId(a.id) !in objects
      && (forall j :: start <= j < a.id ==> PositionFromId(j) in objects)
      && a.objects == objects[PositionFromId(a.id) := ChestAt([])]
      && a.stored == Some(a.id)
  }

  /** GetRingInventory_internal's search for the farmer's chest. */
  method AllocateChest(objects: map<Pos, Placed>, stored: Option<int>) returns (a: Allocation)
    ensures Allocates(objects, stored, a)
  {
    var id := 0;
    if stored.Some? {
      id := stored.value;
      var p := PositionFromId(id);
      if p in objects && objects[p].ChestAt? {
        return Allocation(id, objects, stored);
      }
    }
    var start := id;
    while PositionFromId(id) in objects
      invariant start <= id
      invariant forall j :: start <= j < id ==> PositionFromId(j) in objects
      decreases |OccupiedFrom(objects, id)|
    {
      assert OccupiedFrom(objects, id + 1) == OccupiedFrom(objects, id) - {PositionFromId(id)};
      id := id + 1;
    }
    a := Allocation(id, objects[PositionFromId(id) := ChestAt([])], Some(id));
  }

  /** The allocation is stable: asking again with the farm and the record it left behind
      finds the same chest and changes nothing. */
  lemma AllocationIsStable(objects: map<Pos, Placed>, stored: Option<int>, a: Allocation, again: Allocation)
    requires Allocates(objects, stored, a)
    requires Allocates(a.objects, a.stored, again)
    ensures again == a
  {
  }

  /** The allocation places at most one chest and moves nothing else on the farm. */
  lemma AllocationKeepsOthers(objects: map<Pos, Placed>, stored: Option<int>, a: Allocation)
    requires Allocates(objects, stored, a)
    ensures a.stored.Some? && PositionFromId(a.stored.value) in a.objects
    ensures a.objects[PositionFromId(a.stored.value)].ChestAt?
    ensures a.objects.Keys - objects.Keys <= {PositionFromId(a.id)}
    ensures forall p :: p in objects ==> p in a.objects && a.objects[p] == objects[p]
  {
  }

  // ----- Counting rings -----

  /** The rings among a list of items, in order. */
  function RingsIn(items: seq<Option<Item>>): (r: seq<Item>)
    ensures |r| <= |items|
    ensures forall k :: 0 <= k < |r| ==> r[k].Ring?
    ensures forall x :: x in r <==> Some(x) in items && x.Ring?
  {
    if items == [] then []
    else
      var rest := RingsIn(items[1..]);
      assert forall x :: Some(x) in items <==> Some(x) == items[0] || Some(x) in items[1..];
      if items[0].Some? && items[0].value.Ring? then [items[0].value] + rest else rest
  }

  /** ForEachRing's visiting order: left ring, right ring, then the chest's rings. */
  function AllRings(f: Farmer): (r: seq<Item>)
    ensures forall k :: 0 <= k < |r| ==> r[k].Ring?
    ensures |r| <= 2 + |Padded(f.chest)|
  {
    (if f.leftRing.Some? && f.leftRing.value.Ring? then [f.leftRing.value] else [])
    + (if f.rightRing.Some? && f.rightRing.value.Ring? then [f.rightRing.value] else [])
    + RingsIn(Padded(f.chest))
  }

  function CountIn(items: seq<Option<Item>>, which: int): (n: nat)
    ensures n <= |items|
  {
    if items == [] then 0
    else (if items[0] == Some(Ring(which)) then 1 else 0) + CountIn(items[1..], which)
  }

  /** CountEquippedRings: one for each of the left ring, the right ring and each chest slot
      holding a ring of the given index. */
  function CountEquippedRings(f: Farmer, which: int): (n: nat)
    ensures n <= 2 + |Padded(f.chest)|
  {
    (if f.leftRing == Some(Ring(which)) then 1 else 0)
    + (if f.rightRing == Some(Ring(which)) then 1 else 0)
    + CountIn(Padded(f.chest), which)
  }

  /** The patched Farmer.isWearingRing. */
  function IsWearingRing(f: Farmer, which: int): bool {
    CountEquippedRings(f, which) != 0
  }

  lemma {:induction false} CountInIsMultiplicity(items: seq<Option<Item>>, which: int)
    ensures CountIn(items, which) == multiset(RingsIn(items))[Ring(which)]
    decreases |items|
  {
    if items != [] {
      CountInIsMultiplicity(items[1..], which);
    }
  }

  /** The count is the number of times a ring of that index occurs among all worn rings, so
      the patched isWearingRing holds exactly when such a ring is worn somewhere. */
  lemma CountIsMultiplicity(f: Farmer, which: int)
    ensures CountEquippedRings(f, which) == multiset(AllRings(f))[Ring(which)]
    ensures IsWearingRing(f, which) <==> Ring(which) in AllRings(f)
  {
    CountInIsMultiplicity(Padded(f.chest), which);
  }

  /** Rings of other indices and items that are not rings do not count. */
  lemma {:induction false} CountIgnoresOthers(items: seq<Option<Item>>, which: int, x: Option<Item>)
    requires x != Some(Ring(which))
    ensures CountIn(items + [x], which) == CountIn(items, which)
    decreases |items|
  {
    if items == [] {
      assert ([] + [x])[1..] == [];
    } else {
      assert (items + [x])[1..] == items[1..] + [x];
      CountIgnoresOthers(items[1..], which, x);
    }
  }

  // ----- Equipping -----

  /** The copper pan becomes hat 71 and object 71 becomes Lewis's shorts (clothing 15, pants). */
  function Convert(held: Option<Item>): (r: Option<Item>)
    ensures held.None? <==> r.None?
    ensures r.Some? ==> r.value != Pan && !(r.value.Obj? && r.value.index == 71)
    ensures held.Some? && held.value != Pan && !(held.value.Obj? && held.value.index == 71) ==> r == held
  {
    var h := if held == Some(Pan) then Some(Hat(71)) else held;
    if h.Some? && h.value.Obj? && h.value.index == 71 then Some(Clothing(Pants, 15))
    else h
  }

  /** The type check of the first switch: the slot names with a required item type, and
      every other name asking for a ring. */
  function Fits(name: string, held: Item): bool {
    if name == "Hat" then held.Hat?
    else if name == "Shirt" then held.Clothing? && held.kind == Shirt
    else if name == "Pants" then held.Clothing? && held.kind == Pants
    else if name == "Boots" then held.Boots?
    else held.Ring?
  }

  /** The icon name of each slot: the equipment names, and "Extra Ring 1" to "Extra Ring 6"
      for the chest slots 0 to 5. */
  function SlotName(s: Slot): string {
    match s
    case HatSlot => "Hat"
    case ShirtSlot => "Shirt"
    case PantsSlot => "Pants"
    case BootsSlot => "Boots"
    case LeftRing => "Left Ring"
    case RightRing => "Right Ring"
    case Extra(k) => "Extra Ring " + [('1' as int + k) as char]
  }

  /** The twelve names the second switch has a case for. */
  const SlotNames: set<string> :=
    {"Hat", "Shirt", "Pants", "Boots", "Left Ring", "Right Ring",
     "Extra Ring 1", "Extra Ring 2", "Extra Ring 3", "Extra Ring 4", "Extra Ring 5", "Extra Ring 6"}

  /** The slot names the second switch writes to; any other name takes its default branch. */
  function SlotOf(name: string): (s: Option<Slot>)
    ensures s.Some? ==> SlotName(s.value) == name
    ensures s.None? <==> name !in SlotNames
  {
    if name == "Hat" then Some(HatSlot)
    else if name == "Shirt" then Some(ShirtSlot)
    else if name == "Pants" then Some(PantsSlot)
    else if name == "Boots" then Some(BootsSlot)
    else if name == "Left Ring" then Some(LeftRing)
    else if name == "Right Ring" then Some(RightRing)
    else if name == "Extra Ring 1" then Some(Extra(0))
    else if name == "Extra Ring 2" then Some(Extra(1))
    else if name == "Extra Ring 3" then Some(Extra(2))
    else if name == "Extra Ring 4" then Some(Extra(3))
    else if name == "Extra Ring 5" then Some(Extra(4))
    else if name == "Extra Ring 6" then Some(Extra(5))
    else None
  }

  /** Every slot's name leads back to that slot, so the switch reaches each slot from one name. */
  lemma SlotOfName(s: Slot)
    ensures SlotOf(SlotName(s)) == Some(s)
  {
    match s
    case Extra(k) =>
      if k == 0 { assert SlotName(s) == "Extra Ring 1"; }
      else if k == 1 { assert SlotName(s) == "Extra Ring 2"; }
      else if k == 2 { assert SlotName(s) == "Extra Ring 3"; }
      else if k == 3 { assert SlotName(s) == "Extra Ring 4"; }
      else if k == 4 { assert SlotName(s) == "Extra Ring 5"; }
      else { assert SlotName(s) == "Extra Ring 6"; }
    case _ =>
  }

  /** The item a slot holds; a chest slot past the end of the list holds nothing. */
  function SlotValue(f: Farmer, s: Slot): Option<Item> {
    match s
    case HatSlot => f.hat
    case ShirtSlot => f.shirt
    case PantsSlot => f.pants
    case BootsSlot => f.boots
    case LeftRing => f.leftRing
    case RightRing => f.rightRing
    case Extra(k) => if k < |f.chest| then f.chest[k] else None
  }

  function SetSlot(f: Farmer, s: Slot, v: Option<Item>): (f': Farmer)
    requires |f.chest| >= ExtraRings
    ensures SlotValue(f', s) == v && f'.cursor == f.cursor && |f'.chest| == |f.chest|
    ensures forall t :: t != s ==> SlotValue(f', t) == SlotValue(f, t)
  {
    match s
    case HatSlot => f.(hat := v)
    case ShirtSlot => f.(shirt := v)
    case PantsSlot => f.(pants := v)
    case BootsSlot => f.(boots := v)
    case LeftRing => f.(leftRing := v)
    case RightRing => f.(rightRing := v)
    case Extra(k) => f.(chest := f.chest[k := v])
  }

  /** The item type each slot takes: the extra ring slots, like the two ring slots, take rings. */
  predicate SlotTakes(s: Slot, x: Item) {
    match s
    case HatSlot => x.Hat?
    case ShirtSlot => x.Clothing? && x.kind == Shirt
    case PantsSlot => x.Clothing? && x.kind == Pants
    case BootsSlot => x.Boots?
    case LeftRing => x.Ring?
    case RightRing => x.Ring?
    case Extra(_) => x.Ring?
  }

  /** Every equipment slot holds nothing or an item of the slot's type. */
  ghost predicate WellTyped(f: Farmer) {
    forall s: Slot :: SlotValue(f, s).Some? ==> SlotTakes(s, SlotValue(f, s).value)
  }

  /** The first switch's type check agrees with the slot the second switch writes. */
  lemma FitsSlot(name: string, x: Item)
    requires SlotOf(name).Some? && Fits(name, x)
    ensures SlotTakes(SlotOf(name).value, x)
  {
  }

  /** When a click succeeds: something is moved (an item is held or the slot is full), the
      held item, once converted, fits the slot, and the slot name is one the mod knows. */
  predicate Accepted(f: Farmer, icon: Icon) {
    var held := Convert(f.cursor);
    && (held.Some? || icon.item.Some?)
    && (held.Some? ==> Fits(icon.name, held.value))
    && SlotOf(icon.name).Some?
  }

  datatype Click = Click(ok: bool, farmer: Farmer, icon: Icon)

  /** EquipmentClick: swap the held item with the icon's item and write it to the slot.
      `grab` is the game's PerformSpecialItemGrabReplacement. */
  function EquipmentClick(f: Farmer, icon: Icon, grab: Option<Item> -> Option<Item>): (c: Click)
    ensures c.ok <==> Accepted(f, icon)
    ensures !c.ok ==> c.icon == icon && c.farmer.(chest := f.chest) == f && PadsWithNull(f.chest, c.farmer.chest)
    ensures c.ok ==> var s := SlotOf(icon.name).value;
              && SlotValue(c.farmer, s) == Convert(f.cursor)
              && c.farmer.cursor == grab(icon.item)
              && c.icon == Icon(icon.name, Convert(f.cursor))
              && |c.farmer.chest| == |Padded(f.chest)|
              && (forall k :: ExtraRings <= k < |c.farmer.chest| ==> c.farmer.chest[k] == f.chest[k])
              && forall t :: t != s ==> SlotValue(c.farmer, t) == SlotValue(f, t)
  {
    var held := Convert(f.cursor);
    if held.None? && icon.item.None? then Click(false, f, icon)
    else if held.Some? && !Fits(icon.name, held.value) then Click(false, f, icon)
    else
      var padded := f.(chest := Padded(f.chest));
      match SlotOf(icon.name)
      case None => Click(false, padded, icon)
      case Some(s) =>
        var written := SetSlot(padded, s, held);
        assert forall t :: t != s ==> SlotValue(written, t) == SlotValue(f, t) by {
          forall t: Slot | t.Extra? && t != s
            ensures SlotValue(written, t) == SlotValue(f, t)
          {
            assert SlotValue(padded, t) == SlotValue(f, t);
          }
        }
        Click(true, written.(cursor := grab(icon.item)), icon.(item := held))
  }

  /** A click keeps every slot holding an item of its type. */
  lemma ClickKeepsWellTyped(f: Farmer, icon: Icon, grab: Option<Item> -> Option<Item>)
    requires WellTyped(f)
    ensures WellTyped(EquipmentClick(f, icon, grab).farmer)
  {
    var c := EquipmentClick(f, icon, grab);
    var held := Convert(f.cursor);
    forall t: Slot | SlotValue(c.farmer, t).Some?
      ensures SlotTakes(t, SlotValue(c.farmer, t).value)
    {
      if c.ok && t == SlotOf(icon.name).value {
        FitsSlot(icon.name, held.value);
      } else {
        if !c.ok && t.Extra? && t.k < |f.chest| {
          assert c.farmer.chest[..|f.chest|][t.k] == f.chest[t.k];
        }
        if !c.ok && !t.Extra? {
          assert c.farmer.(chest := f.chest) == f;
        }
        assert SlotValue(c.farmer, t) == SlotValue(f, t);
      }
    }
  }

  /** Clicking twice on a slot the icon mirrors restores the farmer (up to chest padding) and
      the icon, when neither item is converted and grabbing leaves items as they are. */
  lemma ClickTwiceRestores(f: Farmer, icon: Icon, grab: Option<Item> -> Option<Item>)
    requires forall x :: grab(x) == x
    requires Convert(f.cursor) == f.cursor && Convert(icon.item) == icon.item
    requires SlotOf(icon.name).Some? && SlotValue(f, SlotOf(icon.name).value) == icon.item
    requires EquipmentClick(f, icon, grab).ok
    requires icon.item.Some? ==> Fits(icon.name, icon.item.value)
    ensures var once := EquipmentClick(f, icon, grab);
            var twice := EquipmentClick(once.farmer, once.icon, grab);
            twice.ok && twice.icon == icon && twice.farmer == f.(chest := Padded(f.chest))
  {
    var once := EquipmentClick(f, icon, grab);
    var twice := EquipmentClick(once.farmer, once.icon, grab);
    var s := SlotOf(icon.name).value;
    assert Accepted(once.farmer, once.icon);
    assert |once.farmer.chest| == |Padded(f.chest)| by {
      if s.Extra? {
        assert |once.farmer.chest| >= ExtraRings;
      }
    }
    var g := f.(chest := Padded(f.chest));
    forall t ensures SlotValue(twice.farmer, t) == SlotValue(g, t) {
      if t.Extra? && t.k >= |f.chest| {
        assert Padded(f.chest)[t.k].None?;
      }
    }
    assert twice.farmer.chest == g.chest by {
      forall k | 0 <= k < |g.chest|
        ensures twice.farmer.chest[k] == g.chest[k]
      {
        if k < ExtraRings {
          assert SlotValue(twice.farmer, Extra(k)) == SlotValue(g, Extra(k));
        }
      }
    }
    assert SlotValue(twice.farmer, HatSlot) == SlotValue(g, HatSlot);
    assert SlotValue(twice.farmer, ShirtSlot) == SlotValue(g, ShirtSlot);
    assert SlotValue(twice.farmer, PantsSlot) == SlotValue(g, PantsSlot);
    assert SlotValue(twice.farmer, BootsSlot) == SlotValue(g, BootsSlot);
    assert SlotValue(twice.farmer, LeftRing) == SlotValue(g, LeftRing);
    assert SlotValue(twice.farmer, RightRing) == SlotValue(g, RightRing);
  }

  /** The first empty icon a click would accept: where AutoEquipment puts the held item. */
  function FirstEmptyAccepting(f: Farmer, icons: seq<Icon>): (r: Option<nat>)
    ensures r.Some? ==> r.value < |icons| && icons[r.value].item.None? && Accepted(f, icons[r.value])
    ensures r.Some? ==> forall j :: 0 <= j < r.value ==> !(icons[j].item.None? && Accepted(f, icons[j]))
    ensures r.None? ==> forall j :: 0 <= j < |icons| ==> !(icons[j].item.None? && Accepted(f, icons[j]))
  {
    if icons == [] then None
    else if icons[0].item.None? && Accepted(f, icons[0]) then Some(0)
    else
      var rest := FirstEmptyAccepting(f, icons[1..]);
      if rest.Some? then Some(rest.value + 1) else None
  }

  /** AutoEquipment: offer the held item to every empty icon in turn until a click succeeds. */
  function AutoEquipment(f: Farmer, icons: seq<Icon>, grab: Option<Item> -> Option<Item>): (r: (bool, Farmer, seq<Icon>))
    ensures |r.2| == |icons|
    ensures !r.0 ==> r.2 == icons && r.1.(chest := f.chest) == f
    decreases |icons|
  {
    if icons == [] then (false, f, icons)
    else
      var c := if icons[0].item.None? then EquipmentClick(f, icons[0], grab) else Click(false, f, icons[0]);
      if c.ok then (true, c.farmer, [c.icon] + icons[1..])
      else
        var rest := AutoEquipment(c.farmer, icons[1..], grab);
        assert !rest.0 ==> [icons[0]] + rest.2 == icons;
        (rest.0, rest.1, [icons[0]] + rest.2)
  }

  /** AutoEquipment succeeds exactly when some empty icon accepts the held item, and then it
      fills the first such icon with the (converted) held item and leaves the others alone. */
  lemma {:induction false} AutoEquipmentFillsFirst(f: Farmer, icons: seq<Icon>, grab: Option<Item> -> Option<Item>)
    ensures AutoEquipment(f, icons, grab).0 <==> FirstEmptyAccepting(f, icons).Some?
    ensures AutoEquipment(f, icons, grab).0 ==>
              var k := FirstEmptyAccepting(f, icons).value;
              AutoEquipment(f, icons, grab).2 == icons[k := Icon(icons[k].name, Convert(f.cursor))]
    decreases |icons|
  {
    if icons != [] {
      var c := FirstIconClick(f, icons, grab);
      if !c.ok {
        AutoEquipmentFillsFirst(c.farmer, icons[1..], grab);
        FirstEmptyAcceptingCursorOnly(c.farmer, f, icons[1..]);
        var r := AutoEquipment(c.farmer, icons[1..], grab);
        if r.0 {
          var k := FirstEmptyAccepting(f, icons[1..]).value;
          UpdateBehindHead(icons[0], icons[1..], k, Icon(icons[k + 1].name, Convert(f.cursor)));
          assert [icons[0]] + icons[1..] == icons;
        }
      }
    }
  }

  /** The click AutoEquipment makes on the first icon: it succeeds exactly on an empty icon
      that accepts the held item, fills it with the converted item, and otherwise keeps the
      held item. */
  function FirstIconClick(f: Farmer, icons: seq<Icon>, grab: Option<Item> -> Option<Item>): (c: Click)
    requires icons != []
    ensures c.ok <==> icons[0].item.None? && Accepted(f, icons[0])
    ensures c.ok ==> c.icon == Icon(icons[0].name, Convert(f.cursor))
    ensures !c.ok ==> c.farmer.cursor == f.cursor
    ensures AutoEquipment(f, icons, grab) ==
              if c.ok then (true, c.farmer, [c.icon] + icons[1..])
              else var rest := AutoEquipment(c.farmer, icons[1..], grab); (rest.0, rest.1, [icons[0]] + rest.2)
  {
    if icons[0].item.None? then EquipmentClick(f, icons[0], grab) else Click(false, f, icons[0])
  }

  /** Updating the tail of a sequence is updating the whole one past its head. */
  lemma UpdateBehindHead(head: Icon, tail: seq<Icon>, k: nat, x: Icon)
    requires k < |tail|
    ensures [head] + tail[k := x] == ([head] + tail)[k + 1 := x]
  {
  }

  /** Which icon accepts depends on the held item only. */
  lemma {:induction false} FirstEmptyAcceptingCursorOnly(f: Farmer, g: Farmer, icons: seq<Icon>)
    requires f.cursor == g.cursor
    ensures FirstEmptyAccepting(f, icons) == FirstEmptyAccepting(g, icons)
    decreases |icons|
  {
    if icons != [] {
      FirstEmptyAcceptingCursorOnly(f, g, icons[1..]);
    }
  }

  /** With nothing held, AutoEquipment never fills an empty icon. */
  lemma AutoEquipmentNeedsHeldItem(f: Farmer, icons: seq<Icon>, grab: Option<Item> -> Option<Item>)
    requires f.cursor.None?
    ensures !AutoEquipment(f, icons, grab).0
  {
    AutoEquipmentFillsFirst(f, icons, grab);
  }
}
