/** The roving-tabindex policy of the list view: which row is selected,
    which row and which move buttons carry tabindex 0, and which move
    buttons are disabled. Every binding is a pure function of the selection
    and the item sequence, recomputed on each render. */
module FocusPolicy {
  import opened Items

  /** The two move buttons of a row. */
  datatype Button = Up | Down

  /** A row is selected when its id is the selection's id; nothing is
      selected under a null selection. */
  predicate IsSelected(selection: Option<ListItem>, item: ListItem)
  {
    selection.Some? && selection.value.id == item.id
  }

  /** The row's `tabindex`: 0 for the selected row, -1 for every other. */
  function ItemTabIndex(selection: Option<ListItem>, item: ListItem): int
  {
    if IsSelected(selection, item) then 0 else -1
  }

  /** The move-up button of the row at position `i` is disabled on the first row. */
  predicate UpDisabled(i: int)
  {
    i == 0
  }

  /** The move-down button of the row at position `i` is disabled on the last row. */
  predicate DownDisabled(i: int, length: int)
  {
    i == length - 1
  }

  /** Whether a move button of `item`'s row is in the Tab order: only the
      selected row's buttons are, and not the up button of the first row nor
      the down button of the last. The row's position is looked up by id. */
  predicate IsButtonInTabOrder(selection: Option<ListItem>, items: seq<ListItem>, item: ListItem, button: Button)
  {
    if !IsSelected(selection, item) then false
    else
      var index := FindIndex(items, item.id);
      if button == Up && index == 0 then false
      else if button == Down && index == |items| - 1 then false
      else true
  }

  /** A move button's `tabindex`. */
  function ButtonTabIndex(selection: Option<ListItem>, items: seq<ListItem>, item: ListItem, button: Button): int
  {
    if IsButtonInTabOrder(selection, items, item, button) then 0 else -1
  }

  /** The positions of the rows whose `tabindex` is 0. */
  function TabStops(selection: Option<ListItem>, items: seq<ListItem>): set<int>
  {
    set i | 0 <= i < |items| && ItemTabIndex(selection, items[i]) == 0
  }

  /** Exactly one row is a Tab stop, the selected one, when the selection is
      in the list; none is when the selection is null or not in the list. */
  lemma ExactlyOneTabStop(selection: Option<ListItem>, items: seq<ListItem>)
    requires UniqueIds(items)
    ensures selection.None? ==> TabStops(selection, items) == {}
    ensures selection.Some? ==>
      var k := FindIndex(items, selection.value.id);
      TabStops(selection, items) == if k >= 0 then {k} else {}
  {
  }

  /** A move button is in the Tab order exactly when its row is selected
      and the button is not at the boundary: up needs a predecessor, down a
      successor. */
  lemma ButtonTabOrderMirrorsPosition(selection: Option<ListItem>, items: seq<ListItem>, i: int)
    requires UniqueIds(items) && 0 <= i < |items|
    ensures IsButtonInTabOrder(selection, items, items[i], Up) <==> IsSelected(selection, items[i]) && i > 0
    ensures IsButtonInTabOrder(selection, items, items[i], Down) <==> IsSelected(selection, items[i]) && i < |items| - 1
  {
  }

  /** A button with tabindex 0 is never disabled. */
  lemma TabbableButtonIsEnabled(selection: Option<ListItem>, items: seq<ListItem>, i: int)
    requires UniqueIds(items) && 0 <= i < |items|
    ensures ButtonTabIndex(selection, items, items[i], Up) == 0 ==> !UpDisabled(i)
    ensures ButtonTabIndex(selection, items, items[i], Down) == 0 ==> !DownDisabled(i, |items|)
  {
  }
}
