/** Menu construction (`createItems` of the levels menu button).
    An empty level list gives no items. Otherwise an "Auto" entry is put in
    front of the backend's levels and every position k of that list becomes
    either an item with the level's label and value k, or a null slot when
    the level has no label. The items that exist are also collected, in
    order, into the list of menu items that a click walks over, and the
    items of levels named "Auto" start selected. */
module Menu {
  import opened Labels

  /** A created menu item: the label it shows and its `value` attribute. */
  datatype Item = Item(caption: string, value: nat)

  /** The synthetic entry put in front of the backend's levels. Its
      `index: -1` field is never read, so it is not modelled. */
  const AutoEntry: Level := Level(Some("Auto"), None, None)

  /** The list that is mapped to items: "Auto" followed by the levels. */
  function Entries(levels: seq<Level>): (all: seq<Level>)
    ensures |all| == |levels| + 1 && all[0] == AutoEntry
    ensures forall i :: 0 <= i < |levels| ==> all[i + 1] == levels[i]
  {
    [AutoEntry] + levels
  }

  /** What position k of the mapped list becomes. */
  function SlotAt(l: Level, k: nat): Option<Item> {
    match LabelOf(l)
    case None => None
    case Some(s) => Some(Item(s, k))
  }

  /** The mapped list of a list of entries: position k becomes the slot of
      entry k. */
  function SlotsOf(all: seq<Level>): (r: seq<Option<Item>>)
    ensures |r| == |all|
  {
    if all == [] then []
    else SlotsOf(all[..|all| - 1]) + [SlotAt(all[|all| - 1], |all| - 1)]
  }

  /** For each entry that gets an item: whether that item starts selected,
      which is when the entry's name is exactly "Auto"; null otherwise. */
  function SelectionSlotsOf(all: seq<Level>): (r: seq<Option<bool>>)
    ensures |r| == |all|
  {
    if all == [] then []
    else
      var l := all[|all| - 1];
      SelectionSlotsOf(all[..|all| - 1]) +
        [if LabelOf(l).Some? then Some(l.name == Some("Auto")) else None]
  }

  /** The list `createItems` returns, null slots included. */
  function Slots(levels: seq<Level>): seq<Option<Item>> {
    if |levels| == 0 then [] else SlotsOf(Entries(levels))
  }

  function SelectionSlots(levels: seq<Level>): seq<Option<bool>> {
    if |levels| == 0 then [] else SelectionSlotsOf(Entries(levels))
  }

  /** The values held by the non-null slots, in order. */
  function Present<T>(xs: seq<Option<T>>): (r: seq<T>)
    ensures |r| <= |xs|
  {
    if xs == [] then []
    else Present(xs[..|xs| - 1]) + (if xs[|xs| - 1].Some? then [xs[|xs| - 1].value] else [])
  }

  /** The positions of the non-null slots, in order. */
  function Positions<T>(xs: seq<Option<T>>): seq<nat> {
    if xs == [] then []
    else Positions(xs[..|xs| - 1]) + (if xs[|xs| - 1].Some? then [|xs| - 1] else [])
  }

  /** The number of null slots. */
  function NullCount<T>(xs: seq<Option<T>>): nat {
    if xs == [] then 0
    else NullCount(xs[..|xs| - 1]) + (if xs[|xs| - 1].None? then 1 else 0)
  }

  /** The number of levels that have no label. */
  function Unlabelled(levels: seq<Level>): nat {
    if levels == [] then 0
    else Unlabelled(levels[..|levels| - 1]) + (if LabelOf(levels[|levels| - 1]).None? then 1 else 0)
  }

  /** The selected flags of the menu items right after construction. */
  function InitialSelection(levels: seq<Level>): seq<bool> {
    Present(SelectionSlots(levels))
  }

  /** `createItems`: maps the entries position by position, pushing every
      created item onto the menu item list and recording whether it starts
      selected. Returns the mapped list, the menu item list and the flags. */
  method CreateItems(levels: seq<Level>)
    returns (items: seq<Option<Item>>, menuItems: seq<Item>, selected: seq<bool>)
    ensures items == Slots(levels)
    ensures menuItems == Present(items)
    ensures selected == InitialSelection(levels)
    ensures |selected| == |menuItems|
  {
    if |levels| == 0 {
      return [], [], [];
    }
    var all := [AutoEntry] + levels;
    items, menuItems, selected := [], [], [];
    var index := 0;
    while index < |all|
      invariant 0 <= index <= |all|
      invariant items == SlotsOf(all[..index])
      invariant menuItems == Present(items)
      invariant selected == Present(SelectionSlotsOf(all[..index]))
      invariant |selected| == |menuItems|
    {
      var level := all[index];
      PrefixStep(all, index);
      var levelName := LabelOf(level);
      if levelName.None? {
        PresentSnoc(items, None);
        PresentSnoc(SelectionSlotsOf(all[..index]), None);
        items := items + [None];
      } else {
        var item := Item(levelName.value, index);
        PresentSnoc(items, Some(item));
        PresentSnoc(SelectionSlotsOf(all[..index]), Some(level.name == Some("Auto")));
        menuItems := menuItems + [item];
        selected := selected + [level.name == Some("Auto")];
        items := items + [Some(item)];
      }
      index := index + 1;
    }
    assert all[..index] == all;
  }

  /** Mapping one more entry adds one slot at the end. */
  lemma PrefixStep(all: seq<Level>, index: nat)
    requires index < |all|
    ensures SlotsOf(all[..index + 1]) == SlotsOf(all[..index]) + [SlotAt(all[index], index)]
    ensures SelectionSlotsOf(all[..index + 1]) == SelectionSlotsOf(all[..index]) +
      [if LabelOf(all[index]).Some? then Some(all[index].name == Some("Auto")) else None]
  {
    assert all[..index + 1][..index] == all[..index];
  }

  /** Adding a slot at the end adds its value, if any, at the end. */
  lemma PresentSnoc<T>(xs: seq<Option<T>>, x: Option<T>)
    ensures Present(xs + [x]) == Present(xs) + (if x.Some? then [x.value] else [])
  {
    assert (xs + [x])[..|xs|] == xs;
  }

  // ---------------------------------------------------------------------
  // Properties of the mapped list
  // ---------------------------------------------------------------------

  /** Slot k of a mapped list is made from entry k alone. */
  lemma {:induction false} SlotsOfAt(all: seq<Level>, k: nat)
    requires k < |all|
    ensures SlotsOf(all)[k] == SlotAt(all[k], k)
    ensures SelectionSlotsOf(all)[k] ==
      if LabelOf(all[k]).Some? then Some(all[k].name == Some("Auto")) else None
  {
    if k < |all| - 1 {
      SlotsOfAt(all[..|all| - 1], k);
    }
  }

  /** An empty level list gives an empty list; otherwise there is one slot
      per level plus one, "Auto" comes first with value 0, an item at
      position k has value k and shows the label of entry k, and a slot is
      null exactly when its level has no label. */
  lemma SlotsShape(levels: seq<Level>)
    ensures |levels| == 0 ==> Slots(levels) == []
    ensures |levels| > 0 ==> |Slots(levels)| == |levels| + 1
    ensures |levels| > 0 ==> Slots(levels)[0] == Some(Item("Auto", 0))
    ensures forall k :: 0 <= k < |Slots(levels)| && Slots(levels)[k].Some? ==>
      Slots(levels)[k].value.value == k &&
      LabelOf(Entries(levels)[k]) == Some(Slots(levels)[k].value.caption)
    ensures forall i :: 0 <= i < |levels| ==>
      (Slots(levels)[i + 1].None? <==> LabelOf(levels[i]).None?)
  {
    if |levels| > 0 {
      var all := Entries(levels);
      assert LabelOf(AutoEntry) == Some("Auto");
      forall k | 0 <= k < |all| ensures SlotsOf(all)[k] == SlotAt(all[k], k) {
        SlotsOfAt(all, k);
      }
    }
  }

  /** The selection slots have their nulls where the item slots have theirs. */
  lemma SelectionSlotsMatch(levels: seq<Level>)
    ensures |SelectionSlots(levels)| == |Slots(levels)|
    ensures forall k :: 0 <= k < |Slots(levels)| ==>
      (Slots(levels)[k].Some? <==> SelectionSlots(levels)[k].Some?) &&
      (SelectionSlots(levels)[k].Some? ==>
         SelectionSlots(levels)[k].value == (Entries(levels)[k].name == Some("Auto")))
  {
    if |levels| > 0 {
      var all := Entries(levels);
      forall k | 0 <= k < |all|
        ensures SlotsOf(all)[k] == SlotAt(all[k], k)
        ensures SelectionSlotsOf(all)[k] ==
          if LabelOf(all[k]).Some? then Some(all[k].name == Some("Auto")) else None
      {
        SlotsOfAt(all, k);
      }
    }
  }

  /** Positions and present values line up: the j-th present value sits in
      the slot at the j-th position, positions strictly increase, and every
      non-null slot is listed. */
  lemma {:induction false} PresentPositions<T>(xs: seq<Option<T>>)
    ensures |Positions(xs)| == |Present(xs)|
    ensures forall j :: 0 <= j < |Present(xs)| ==>
      Positions(xs)[j] < |xs| && xs[Positions(xs)[j]] == Some(Present(xs)[j])
    ensures forall i, j :: 0 <= i < j < |Positions(xs)| ==> Positions(xs)[i] < Positions(xs)[j]
    ensures forall k :: 0 <= k < |xs| && xs[k].Some? ==> k in Positions(xs)
  {
    if xs != [] {
      var init := xs[..|xs| - 1];
      PresentPositions(init);
      assert forall k :: 0 <= k < |init| ==> init[k] == xs[k];
    }
  }

  /** Two slot lists with nulls in the same places have the same positions. */
  lemma {:induction false} SamePositions<T, U>(xs: seq<Option<T>>, ys: seq<Option<U>>)
    requires |xs| == |ys|
    requires forall k :: 0 <= k < |xs| ==> (xs[k].Some? <==> ys[k].Some?)
    ensures Positions(xs) == Positions(ys)
  {
    if xs != [] {
      SamePositions(xs[..|xs| - 1], ys[..|ys| - 1]);
    }
  }

  /** Every slot is either present or null. */
  lemma {:induction false} PresentCount<T>(xs: seq<Option<T>>)
    ensures |Present(xs)| + NullCount(xs) == |xs|
  {
    if xs != [] {
      PresentCount(xs[..|xs| - 1]);
    }
  }

  /** The null slots of a mapped list are its unlabelled entries. */
  lemma {:induction false} NullSlotsOf(all: seq<Level>)
    ensures NullCount(SlotsOf(all)) == Unlabelled(all)
  {
    if all != [] {
      NullSlotsOf(all[..|all| - 1]);
      assert SlotsOf(all)[..|all| - 1] == SlotsOf(all[..|all| - 1]);
    }
  }

  /** Counting unlabelled entries from the front. */
  lemma {:induction false} UnlabelledCons(l: Level, levels: seq<Level>)
    ensures Unlabelled([l] + levels) == Unlabelled(levels) + (if LabelOf(l).None? then 1 else 0)
  {
    if levels != [] {
      var n := |levels|;
      var whole := [l] + levels;
      UnlabelledCons(l, levels[..n - 1]);
      assert whole[..n] == [l] + levels[..n - 1];
      assert whole[n] == levels[n - 1];
      assert Unlabelled(whole) == Unlabelled(whole[..n]) + (if LabelOf(whole[n]).None? then 1 else 0);
    }
  }

  /** The null slots are exactly the unlabelled levels ("Auto" always has
      a label). */
  lemma NullSlotsAreUnlabelled(levels: seq<Level>)
    requires |levels| > 0
    ensures NullCount(Slots(levels)) == Unlabelled(levels)
  {
    NullSlotsOf(Entries(levels));
    UnlabelledCons(AutoEntry, levels);
    assert LabelOf(AutoEntry).Some?;
  }

  /** The menu item list holds one item per level plus "Auto", less one
      for each level without a label. */
  lemma MenuItemCount(levels: seq<Level>)
    requires |levels| > 0
    ensures |Present(Slots(levels))| == |levels| + 1 - Unlabelled(levels)
  {
    PresentCount(Slots(levels));
    NullSlotsAreUnlabelled(levels);
    SlotsShape(levels);
  }

  /** The menu item list is the mapped list without its null slots: its
      values strictly increase, each item sits in the slot its value names,
      and every non-null slot's item is in it. The first item is "Auto". */
  lemma MenuItemsInOrder(levels: seq<Level>)
    ensures var m := Present(Slots(levels));
      (forall i, j :: 0 <= i < j < |m| ==> m[i].value < m[j].value) &&
      (forall j :: 0 <= j < |m| ==> m[j].value < |Slots(levels)| && Slots(levels)[m[j].value] == Some(m[j])) &&
      (forall k :: 0 <= k < |Slots(levels)| && Slots(levels)[k].Some? ==> Slots(levels)[k].value in m) &&
      (|levels| > 0 ==> |m| > 0 && m[0] == Item("Auto", 0))
  {
    var xs := Slots(levels);
    var m := Present(xs);
    SlotsShape(levels);
    PresentPositions(xs);
    forall j | 0 <= j < |m| ensures m[j].value == Positions(xs)[j] {
    }
    forall k | 0 <= k < |xs| && xs[k].Some? ensures xs[k].value in m {
      var j :| 0 <= j < |Positions(xs)| && Positions(xs)[j] == k;
    }
    if |levels| > 0 {
      assert xs[0].Some?;
      assert 0 in Positions(xs);
    }
  }

  /** Right after construction there is one flag per menu item, and an item
      is selected exactly when the level at its value is named "Auto"; the
      "Auto" item at position 0 is among them. */
  lemma InitialSelectionIsAuto(levels: seq<Level>)
    ensures var m := Present(Slots(levels));
      var sel := InitialSelection(levels);
      |sel| == |m| &&
      (forall j :: 0 <= j < |m| ==>
        m[j].value < |levels| + 1 &&
        (sel[j] <==> Entries(levels)[m[j].value].name == Some("Auto"))) &&
      (|levels| > 0 ==> |sel| > 0 && sel[0])
  {
    var xs := Slots(levels);
    var fs := SelectionSlots(levels);
    SlotsShape(levels);
    SelectionSlotsMatch(levels);
    SamePositions(xs, fs);
    PresentPositions(xs);
    PresentPositions(fs);
    MenuItemsInOrder(levels);
  }

  /** When no backend level is named "Auto", exactly the "Auto" item starts
      selected. */
  lemma OnlyAutoStartsSelected(levels: seq<Level>)
    requires |levels| > 0
    requires forall i :: 0 <= i < |levels| ==> levels[i].name != Some("Auto")
    ensures var sel := InitialSelection(levels);
      |sel| > 0 && forall j :: 0 <= j < |sel| ==> (sel[j] <==> j == 0)
  {
    var m := Present(Slots(levels));
    InitialSelectionIsAuto(levels);
    MenuItemsInOrder(levels);
    forall j | 0 < j < |m| ensures !InitialSelection(levels)[j] {
      assert m[0].value < m[j].value;
      assert Entries(levels)[m[j].value] == levels[m[j].value - 1];
    }
  }
}
