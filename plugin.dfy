/** The levels menu button and the plugin that (re)creates it.
    A button owns the items built by `createItems` and the "selected" flag
    of each menu item. A click on an item makes it the only selected one
    and hands the item's payload to the tech. The plugin keeps at most one
    live button: on every "loadedmetadata" event it disposes the previous
    button, if any, and attaches a new one to the control bar. */
module Plugin {
  import opened Labels
  import opened Menu
  import opened Tech

  /** The flags after a click on item k of n: only item k is selected. */
  function OnlySelected(n: nat, k: nat): (flags: seq<bool>)
    ensures |flags| == n
  {
    seq(n, j => j == k)
  }

  /** The number of selected items. */
  function CountSelected(flags: seq<bool>): nat {
    if flags == [] then 0
    else CountSelected(flags[..|flags| - 1]) + (if flags[|flags| - 1] then 1 else 0)
  }

  /** After a click exactly one item is selected, and it is the clicked one. */
  lemma {:induction false} ExactlyOneSelected(n: nat, k: nat)
    requires k < n
    ensures CountSelected(OnlySelected(n, k)) == 1
    ensures OnlySelected(n, k)[k]
  {
    var flags := OnlySelected(n, k);
    if n - 1 > k {
      ExactlyOneSelected(n - 1, k);
      assert flags[..n - 1] == OnlySelected(n - 1, k);
    } else {
      NoneSelected(n - 1, k);
      assert flags[..n - 1] == OnlySelected(n - 1, k);
    }
  }

  /** Before position k nothing is selected. */
  lemma {:induction false} NoneSelected(n: nat, k: nat)
    requires n <= k
    ensures CountSelected(OnlySelected(n, k)) == 0
  {
    if n > 0 {
      NoneSelected(n - 1, k);
      assert OnlySelected(n, k)[..n - 1] == OnlySelected(n - 1, k);
    }
  }

  /** The levels menu button. */
  class LevelsMenuButton {
    /** What `createItems` returned, null slots included. */
    var items: seq<Option<Item>>
    /** The created items, in order, as the click listener sees them. */
    var menuItems: seq<Item>
    /** Whether each menu item's element carries the selected class. */
    var selected: array<bool>
    var disposed: bool

    ghost predicate Valid()
      reads this
    {
      selected.Length == |menuItems|
    }

    /** The state of a live button just built from `levels`: what
        `createItems` returns, its non-null items and their initial flags. */
    ghost predicate BuiltFrom(levels: seq<Level>)
      reads this, selected
    {
      Valid() && !disposed &&
      items == Slots(levels) && menuItems == Present(items) &&
      selected[..] == InitialSelection(levels)
    }

    /** Builds the button's items from the tech's level list. */
    constructor (levels: seq<Level>)
      ensures Valid() && fresh(selected) && !disposed
      ensures items == Slots(levels) && menuItems == Present(items)
      ensures selected[..] == InitialSelection(levels)
      ensures BuiltFrom(levels)
    {
      var slots, created, flags := CreateItems(levels);
      items := slots;
      menuItems := created;
      var a := new bool[|flags|](j requires 0 <= j < |flags| => flags[j]);
      assert a[..] == flags;
      selected := a;
      disposed := false;
    }

    /** `onClickUnselectOthers`: clear the selected flag of every menu item,
        then set it on the clicked one. Clicking the only selected item again
        changes nothing. */
    method Click(k: nat)
      requires Valid() && k < |menuItems|
      modifies selected
      ensures selected[..] == OnlySelected(|menuItems|, k)
      ensures old(selected[..]) == OnlySelected(|menuItems|, k) ==> selected[..] == old(selected[..])
    {
      var j := 0;
      while j < selected.Length
        invariant 0 <= j <= selected.Length
        invariant forall i :: 0 <= i < j ==> !selected[i]
      {
        if selected[j] {
          selected[j] := false;
        }
        j := j + 1;
      }
      selected[k] := true;
    }

    /** A click or touch on menu item k: update the selection, then hand the
        payload to the tech. With Html5 the payload is the item element's
        `value`, its position in the mapped list; with Flash it is the item's
        `value` option, which the options never set (absent). */
    method OnClick(k: nat, tech: Tech)
      requires Valid() && k < |menuItems|
      modifies selected, tech`level
      ensures selected[..] == OnlySelected(|menuItems|, k)
      ensures tech.kind == Html5 ==> tech.level == Some(Html5Level(Some(menuItems[k].value)))
      ensures tech.kind == Html5 && menuItems[k].value == 0 ==> tech.level == Some(-1)
      ensures tech.kind == Flash ==> tech.level == None
    {
      Click(k);
      var payload := if tech.kind == Html5 then Some(menuItems[k].value) else None;
      tech.SetLevel(payload);
    }

    method Dispose()
      modifies this`disposed
      ensures disposed
    {
      disposed := true;
    }
  }

  /** What a click on menu item j of a new button hands to the Html5 tech:
      -1 for "Auto", and otherwise the engine index of the clicked level plus
      one. */
  lemma Html5ClickStoresIndexPlusOne(levels: seq<Level>, j: nat)
    requires j < |Present(Slots(levels))|
    ensures var item := Present(Slots(levels))[j];
      (j == 0 ==> Html5Level(Some(item.value)) == -1) &&
      (j > 0 ==> 0 < item.value <= |levels| &&
                 LabelOf(levels[item.value - 1]) == Some(item.caption) &&
                 Html5Level(Some(item.value)) == (item.value - 1) + 1)
  {
    var m := Present(Slots(levels));
    MenuItemsInOrder(levels);
    SlotsShape(levels);
    if j > 0 {
      assert m[0].value < m[j].value;
      assert Entries(levels)[m[j].value] == levels[m[j].value - 1];
    }
  }

  /** When the last level has a label, clicking its item makes the Html5
      tech store the length of the engine's level list, one past its last
      index. */
  lemma Html5ClickOnLastLevel(levels: seq<Level>)
    requires |levels| > 0 && LabelOf(levels[|levels| - 1]).Some?
    ensures var m := Present(Slots(levels));
      |m| > 0 && m[|m| - 1].value == |levels| && Html5Level(Some(m[|m| - 1].value)) == |levels|
  {
    var xs := Slots(levels);
    SlotsShape(levels);
    assert xs[|xs| - 1].Some?;
    assert Present(xs) == Present(xs[..|xs| - 1]) + [xs[|xs| - 1].value];
  }

  /** Every button on `bar` is disposed. */
  ghost predicate AllRetired(bar: seq<LevelsMenuButton>)
    reads bar
  {
    forall i :: 0 <= i < |bar| ==> bar[i].disposed
  }

  /** The number of buttons on the control bar that are not disposed. */
  ghost function LiveCount(bar: seq<LevelsMenuButton>): nat
    reads bar
  {
    if bar == [] then 0
    else LiveCount(bar[..|bar| - 1]) + (if bar[|bar| - 1].disposed then 0 else 1)
  }

  /** The plugin instance of one player: its current button and the buttons
      it has attached to the player's control bar. */
  class LevelsPlugin {
    var button: LevelsMenuButton?
    var controlBar: seq<LevelsMenuButton>

    /** Every attached button but the last is disposed, and the last one is
        the current, live button. */
    ghost predicate Valid()
      reads this, controlBar
    {
      if button == null then controlBar == []
      else
        |controlBar| > 0 && controlBar[|controlBar| - 1] == button && !button.disposed &&
        AllRetired(controlBar[..|controlBar| - 1])
    }

    constructor ()
      ensures Valid() && button == null && controlBar == []
    {
      button := null;
      controlBar := [];
    }

    /** The "loadedmetadata" handler: dispose the previous button, if any,
        then create a new button from the tech's levels and attach it. */
    method OnLoadedMetadata(tech: Tech)
      requires Valid()
      modifies this, button
      ensures Valid() && button != null && fresh(button) && fresh(button.selected)
      ensures controlBar == old(controlBar) + [button]
      ensures old(button) != null ==> old(button).disposed
      ensures button.BuiltFrom(tech.GetLevels())
      ensures old(button) != null ==>
        old(button).items == old(button.items) && old(button).menuItems == old(button.menuItems) &&
        old(button).selected == old(button.selected)
    {
      var levels := tech.GetLevels();
      if button != null {
        button.Dispose();
      }
      ghost var retired := controlBar;
      assert AllRetired(retired);
      var created := new LevelsMenuButton(levels);
      controlBar := controlBar + [created];
      assert controlBar[..|controlBar| - 1] == retired;
      button := created;
      assert tech.GetLevels() == levels;
    }
  }

  /** While the plugin is consistent, at most one attached button is live,
      and exactly one once a button exists. */
  lemma AtMostOneLive(p: LevelsPlugin)
    requires p.Valid()
    ensures LiveCount(p.controlBar) == if p.button == null then 0 else 1
  {
    var bar := p.controlBar;
    if bar != [] {
      AllDisposed(bar[..|bar| - 1]);
    }
  }

  /** A control bar whose buttons are all disposed has none live. */
  lemma {:induction false} AllDisposed(bar: seq<LevelsMenuButton>)
    requires AllRetired(bar)
    ensures LiveCount(bar) == 0
  {
    if bar != [] {
      AllDisposed(bar[..|bar| - 1]);
    }
  }
}
