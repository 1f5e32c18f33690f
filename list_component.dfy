/** The list view: reads the store, renders rows by the focus policy, and
    turns clicks, focus and key events into store updates and focus moves
    through the navigation table. `document.activeElement` is the `focus`
    argument of OnKeyDown, and the focus move it returns stands for the
    `.focus()` call on the chosen element of the selected row. */
module ListView {
  import opened Items
  import ListStore
  import opened FocusPolicy
  import opened Navigation

  /** Once the selected item is moved up, the one row with tabindex 0 is
      its new position, one above the old one. */
  lemma TabStopFollowsMoveUp(s: seq<ListItem>, k: int)
    requires UniqueIds(s) && 0 < k < |s|
    ensures TabStops(Some(s[k]), ListStore.MoveUp(s, s[k].id)) == {k - 1}
  {
  }

  /** Once the selected item is moved down, the one row with tabindex 0 is
      its new position, one below the old one. */
  lemma TabStopFollowsMoveDown(s: seq<ListItem>, k: int)
    requires UniqueIds(s) && 0 <= k < |s| - 1
    ensures TabStops(Some(s[k]), ListStore.MoveDown(s, s[k].id)) == {k + 1}
  {
  }

  /** Clicking "Move Down" on item 2 of the seeded list while item 2 is
      selected gives the order 1, 3, 2, 4, 5, and the tabindex-0 row is
      item 2's new position. */
  lemma MoveDownSecondSeedItem()
    ensures var s := ListStore.MoveDown(ListStore.Seed(), 2);
      |s| == 5 && s[0].id == 1 && s[1].id == 3 && s[2].id == 2 && s[3].id == 4 && s[4].id == 5 &&
      TabStops(Some(ListStore.Seed()[1]), s) == {2}
  {
    TabStopFollowsMoveDown(ListStore.Seed(), 1);
  }

  class ListComponent {
    const service: ListStore.ListService

    /** The component wired to the injected store. The selection effect
        set up by the source's constructor (focus the selected item once it
        is rendered) is not a method here: `Navigation.Step` stands for it,
        moving focus to every newly selected item. */
    constructor (service: ListStore.ListService)
      ensures this.service == service
    {
      this.service := service;
    }

    /** The position `findIndex` gives for the selected item's id, or None
        under a null selection. */
    function CurrentIndex(): (c: Option<int>)
      reads service
      ensures c.None? <==> service.selected.None?
      ensures c.Some? ==> -1 <= c.value < |service.items|
      ensures c.Some? ==> (c.value >= 0 <==> HasId(service.items, service.selected.value.id))
    {
      if service.selected.None? then None
      else Some(FindIndex(service.items, service.selected.value.id))
    }

    /** `selectItem(item)`: delegates to the store. */
    method SelectItem(item: ListItem)
      modifies service
      ensures service.items == old(service.items) && service.selected == Some(item)
    {
      service.SelectItem(item);
    }

    /** `onItemFocus(item)`: an item that receives focus becomes the selection. */
    method OnItemFocus(item: ListItem)
      modifies service
      ensures service.items == old(service.items) && service.selected == Some(item)
    {
      SelectItem(item);
    }

    /** `moveUp(item)`: the move-up button of `item`'s row was clicked. */
    method MoveUp(item: ListItem)
      requires service.Valid()
      modifies service
      ensures service.Valid()
      ensures service.items == ListStore.MoveUp(old(service.items), item.id)
      ensures service.selected == old(service.selected)
    {
      service.MoveItemUp(item.id);
    }

    /** `moveDown(item)`: the move-down button of `item`'s row was clicked.
        The template only offers the buttons of rendered rows, so `item` is
        in the list, and there the repaired move is the one the code makes. */
    method MoveDown(item: ListItem)
      requires service.Valid()
      modifies service
      ensures service.Valid()
      ensures service.items == ListStore.MoveDown(old(service.items), item.id)
      ensures HasId(old(service.items), item.id) ==>
        ListStore.Slots(service.items) == ListStore.MoveDownAsWritten(old(service.items), item.id)
      ensures service.selected == old(service.selected)
    {
      if HasId(service.items, item.id) {
        ListStore.MoveDownAgreesWhenPresent(service.items, item.id);
      }
      service.MoveItemDown(item.id);
    }

    /** `onKeyDown(event)` with `document.activeElement` given as `focus`:
        applies the decided selection to the store and returns whether
        `preventDefault` is called and which element of the selected row
        is focused. The order is never touched, and a selection the key
        changes is always an item of the list. */
    method OnKeyDown(key: Key, shift: bool, focus: Focus) returns (preventDefault: bool, moveFocus: Option<Role>)
      modifies service
      ensures var o := Navigation.OnKeyDown(old(CurrentIndex()), old(|service.items|), focus, key, shift);
        preventDefault == o.preventDefault && moveFocus == o.focus &&
        service.selected == if o.select.Some? then Some(old(service.items)[o.select.value]) else old(service.selected)
      ensures service.items == old(service.items)
      ensures service.selected == old(service.selected) ||
        (service.selected.Some? && service.selected.value in service.items)
    {
      var o := Navigation.OnKeyDown(CurrentIndex(), |service.items|, focus, key, shift);
      if o.select.Some? {
        SelectItem(service.items[o.select.value]);
      }
      preventDefault, moveFocus := o.preventDefault, o.focus;
    }
  }
}
