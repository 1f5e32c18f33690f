/** The item store: an ordered sequence of items and the current selection,
    seeded with five items of which the first is selected, with the three
    mutators the list view calls (select, move up, move down). The
    observable publication of each new state is not modelled: readers look
    at the two fields directly. */
module ListStore {
  import opened Items

  /** The five items the store starts with. */
  function Seed(): (r: seq<ListItem>)
    ensures |r| == 5 && UniqueIds(r)
    ensures forall k :: 0 <= k < |r| ==> r[k].id == k + 1
  {
    [ ListItem(1, "Item 1", "This is the first item with detailed information."),
      ListItem(2, "Item 2", "This is the second item with more detailed information."),
      ListItem(3, "Item 3", "This is the third item with even more detailed information."),
      ListItem(4, "Item 4", "This is the fourth item with additional detailed information."),
      ListItem(5, "Item 5", "This is the fifth item with comprehensive detailed information.") ]
  }

  /** The sequence after `moveItemUp(id)`: the item carrying `id` trades
      places with its predecessor when it has one; the first item and an
      absent id (index -1) leave the sequence as it was. */
  function MoveUp(s: seq<ListItem>, id: int): (r: seq<ListItem>)
    ensures |r| == |s| && multiset(r) == multiset(s)
    ensures var k := FindIndex(s, id);
      if k > 0 then
        r[k - 1] == s[k] && r[k] == s[k - 1] &&
        forall m :: 0 <= m < |s| && m != k - 1 && m != k ==> r[m] == s[m]
      else r == s
  {
    var k := FindIndex(s, id);
    if k > 0 then Swap(s, k - 1, k) else s
  }

  /** The sequence after `moveItemDown(id)`, with the guard `0 <= index`
      that the source leaves out (see MoveDownAsWritten): the item carrying
      `id` trades places with its successor when it has one; the last item
      and an absent id leave the sequence as it was. */
  function MoveDown(s: seq<ListItem>, id: int): (r: seq<ListItem>)
    ensures |r| == |s| && multiset(r) == multiset(s)
    ensures var k := FindIndex(s, id);
      if 0 <= k < |s| - 1 then
        r[k] == s[k + 1] && r[k + 1] == s[k] &&
        forall m :: 0 <= m < |s| && m != k && m != k + 1 ==> r[m] == s[m]
      else r == s
  {
    var k := FindIndex(s, id);
    if 0 <= k < |s| - 1 then Swap(s, k, k + 1) else s
  }

  /** A slot of the JavaScript array: an item, or `undefined`. */
  function Slots(s: seq<ListItem>): (r: seq<Option<ListItem>>)
    ensures |r| == |s| && forall m :: 0 <= m < |s| ==> r[m] == Some(s[m])
  {
    seq(|s|, m requires 0 <= m < |s| => Some(s[m]))
  }

  /** The array published by `moveItemDown(id)` as the code is written: the
      guard is only `index < length - 1`, so an absent id (index -1) passes
      it when the list is not empty; the swap then stores `items[0]` under
      the non-index key -1 and `undefined` into `items[0]`. */
  function MoveDownAsWritten(s: seq<ListItem>, id: int): (r: seq<Option<ListItem>>)
    ensures |r| == |s|
  {
    var k := FindIndex(s, id);
    if k < |s| - 1 then
      if k == -1 then Slots(s)[0 := None] else Slots(Swap(s, k, k + 1))
    else Slots(s)
  }

  /** As written, moving down an id that is not in a non-empty list replaces
      the first item by `undefined` and keeps every other slot. */
  lemma MoveDownAsWrittenLosesFirstItem(s: seq<ListItem>, id: int)
    requires |s| > 0 && !HasId(s, id)
    ensures var r := MoveDownAsWritten(s, id);
      |r| == |s| && r[0] == None &&
      forall m :: 1 <= m < |s| ==> r[m] == Some(s[m])
  {
  }

  /** On the seeded list, `moveItemDown(6)` as written loses item 1, where
      the guarded version leaves the list unchanged. */
  lemma MoveDownAbsentIdOnSeed()
    ensures MoveDownAsWritten(Seed(), 6)[0] == None
    ensures Some(Seed()[0]) !in MoveDownAsWritten(Seed(), 6)
    ensures MoveDown(Seed(), 6) == Seed()
  {
  }

  /** Where the id is present, the guarded and the as-written move down
      agree: the repair changes only the absent-id case. */
  lemma MoveDownAgreesWhenPresent(s: seq<ListItem>, id: int)
    requires HasId(s, id)
    ensures MoveDownAsWritten(s, id) == Slots(MoveDown(s, id))
  {
  }

  /** The new position of the item found at position `m` once positions
      `i` and `j` are exchanged. */
  lemma SwapMovesPositions(s: seq<ListItem>, i: int, j: int, m: int)
    requires UniqueIds(s) && 0 <= i < |s| && 0 <= j < |s| && 0 <= m < |s|
    ensures FindIndex(Swap(s, i, j), s[m].id) == if m == i then j else if m == j then i else m
  {
  }

  /** Both moves keep the ids unique. */
  lemma MovesKeepUniqueIds(s: seq<ListItem>, id: int)
    requires UniqueIds(s)
    ensures UniqueIds(MoveUp(s, id)) && UniqueIds(MoveDown(s, id))
  {
  }

  /** After `moveItemUp(id)` every item's position is known: the moved item
      goes up one, its former predecessor down one, all others stay. */
  lemma MoveUpPositions(s: seq<ListItem>, id: int, m: int)
    requires UniqueIds(s) && 0 <= m < |s|
    ensures var k := FindIndex(s, id);
      FindIndex(MoveUp(s, id), s[m].id) ==
        if k > 0 && m == k then k - 1 else if k > 0 && m == k - 1 then k else m
  {
  }

  /** After `moveItemDown(id)` every item's position is known: the moved
      item goes down one, its former successor up one, all others stay. */
  lemma MoveDownPositions(s: seq<ListItem>, id: int, m: int)
    requires UniqueIds(s) && 0 <= m < |s|
    ensures var k := FindIndex(s, id);
      FindIndex(MoveDown(s, id), s[m].id) ==
        if 0 <= k < |s| - 1 && m == k then k + 1
        else if 0 <= k < |s| - 1 && m == k + 1 then k
        else m
  {
  }

  /** Moving an item up and then down again restores the sequence, with
      or without unique ids: the moved item lands before every other item
      carrying its id. */
  lemma MoveUpThenDown(s: seq<ListItem>, id: int)
    requires FindIndex(s, id) > 0
    ensures MoveDown(MoveUp(s, id), id) == s
  {
    var k := FindIndex(s, id);
    assert FindIndex(MoveUp(s, id), id) == k - 1;
    SwapTwice(s, k - 1, k);
  }

  /** Moving an item down and then up again restores the sequence. */
  lemma MoveDownThenUp(s: seq<ListItem>, id: int)
    requires UniqueIds(s) && 0 <= FindIndex(s, id) < |s| - 1
    ensures MoveUp(MoveDown(s, id), id) == s
  {
  }

  /** The store. `items` is the private array the moves rearrange in place;
      `selected` holds the selected item itself (not its index), so a
      reorder carries the selection along with the item. */
  class ListService {
    var items: seq<ListItem>
    var selected: Option<ListItem>

    /** The store keeps ids unique. */
    ghost predicate Valid()
      reads this
    {
      UniqueIds(items)
    }

    /** The seeded store, with the first item selected. */
    constructor ()
      ensures Valid() && items == Seed() && selected == Some(Seed()[0])
    {
      items := Seed();
      selected := None;
      new;
      if |items| > 0 {
        selected := Some(items[0]);
      }
    }

    /** `selectItem(item)`: the selection becomes `item`, whether or not it
        is in the list; the order is untouched. */
    method SelectItem(item: ListItem)
      modifies this
      ensures items == old(items) && selected == Some(item)
    {
      selected := Some(item);
    }

    /** `moveItemUp(id)`: swap with the predecessor in place; the selection
        is not touched. */
    method MoveItemUp(id: int)
      requires Valid()
      modifies this
      ensures Valid()
      ensures items == MoveUp(old(items), id) && selected == old(selected)
    {
      MovesKeepUniqueIds(items, id);
      var index := FindIndex(items, id);
      if index > 0 {
        items := items[index - 1 := items[index]][index := items[index - 1]];
      }
    }

    /** `moveItemDown(id)` with the `0 <= index` guard restored: swap with
        the successor in place; the selection is not touched. */
    method MoveItemDown(id: int)
      requires Valid()
      modifies this
      ensures Valid()
      ensures items == MoveDown(old(items), id) && selected == old(selected)
    {
      MovesKeepUniqueIds(items, id);
      var index := FindIndex(items, id);
      if 0 <= index < |items| - 1 {
        items := items[index := items[index + 1]][index + 1 := items[index]];
      }
    }
  }
}
