# Accessible reorderable list: item store and roving-tabindex navigation

This project models the two pieces of logic in an Angular list/detail widget.

The first is the item store (`ListService`). It holds an ordered list of items `{id, name, description}` and the selected item. It starts with five seeded items, with the first one selected. It has three mutators:
- `selectItem` sets the selection.
- `moveItemUp` swaps an item with its predecessor in place.
- `moveItemDown` swaps an item with its successor in place.

The selection is held as the item itself, not as an index, so a selected item that is moved keeps its selection.

The second is the list view's keyboard accessibility (`ListComponent`):
- Exactly one row, the selected one, has tabindex 0.
- Only the selected row's move buttons are in the Tab order, and only when they are enabled.
- The `onKeyDown` / `handleTabNavigation` decision table maps a selected position, the list length, the focused element and a key to three things: the next selection, the next focused element, and whether the browser default is suppressed.

Modules:
- `Items` (items.dfy): the item record, `findIndex` by id, id uniqueness, and the two-position swap.
- `ListStore` (list_service.dfy): the seed, the reorder functions and the `ListService` class, which has a `seq` field for the items and a field for the selection.
- `FocusPolicy` (focus_policy.dfy): `isSelected`, the template's tabindex and disabled bindings, and `isButtonInTabOrder`.
- `Navigation` (navigation.dfy): the key handlers as a pure decision function, and a state machine built from it.
- `ListView` (list_component.dfy): the `ListComponent` class, which applies those decisions to the store.

The component reads `listService.items()` and `listService.selectedItem()` as signals, while the service keeps a private array and publishes observables. Both files are modelled against one store: the two fields of `ListService`.

## Model

| member | source | states |
|---|---|---|
| `Items.FindIndex` | src/app/services/list.service.ts:40 | `findIndex` by id returns the first position holding the id, or -1 exactly when no item has it |
| `Items.FindIndexOfPosition` | src/app/list/list.component.ts:120 | with unique ids, looking up the id at position k returns k |
| `Items.Swap` | src/app/services/list.service.ts:43 | the destructuring swap exchanges two positions, leaves every other position alone and keeps the multiset of items |
| `Items.SwapKeepsUniqueIds` | src/app/services/list.service.ts:52 | a swap keeps ids unique |
| `Items.SwapTwice` | src/app/services/list.service.ts:43 | swapping the same two positions twice restores the list |
| `ListStore.Seed` | src/app/services/list.service.ts:9-15 | the store starts with five items whose ids are 1..5 in order, all distinct |
| `ListStore.MoveUp` | src/app/services/list.service.ts:39-46 | the item at index k > 0 trades places with position k-1 and all other positions stay; the first item or an absent id leaves the list unchanged; length and multiset are kept |
| `ListStore.MoveDown` | src/app/services/list.service.ts:48-55 | the item at index 0 <= k < length-1 trades places with position k+1 and all other positions stay; the last item or an absent id leaves the list unchanged; length and multiset are kept (guard repaired, see Findings) |
| `ListStore.MoveDownAsWritten` | src/app/services/list.service.ts:48-55 | the published array as the code is written: an absent id in a non-empty list passes the guard and slot 0 becomes `undefined`; otherwise it is the swap or the unchanged list |
| `ListStore.MoveDownAsWrittenLosesFirstItem` | src/app/services/list.service.ts:49-52 | as written, moving down an absent id in a non-empty list turns slot 0 into `undefined` and keeps all other slots |
| `ListStore.MoveDownAbsentIdOnSeed` | src/app/services/list.service.ts:48-55 | on the seeded list, `moveItemDown(6)` as written loses item 1, while the repaired move leaves the list unchanged |
| `ListStore.MoveDownAgreesWhenPresent` | src/app/services/list.service.ts:49-53 | for an id that is present, the as-written and the repaired move down give the same array |
| `ListStore.SwapMovesPositions` | src/app/services/list.service.ts:43 | after a swap under unique ids, the two exchanged items are found at each other's positions and every other item stays where it was |
| `ListStore.MovesKeepUniqueIds` | src/app/services/list.service.ts:39-55 | both moves keep ids unique |
| `ListStore.MoveUpPositions` | src/app/services/list.service.ts:39-46 | after `moveItemUp`, the moved item is one position higher, its predecessor one lower, and the rest stay |
| `ListStore.MoveDownPositions` | src/app/services/list.service.ts:48-55 | after `moveItemDown`, the moved item is one position lower, its successor one higher, and the rest stay |
| `ListStore.MoveUpThenDown` | src/app/services/list.service.ts:41-52 | `moveItemUp(id)` then `moveItemDown(id)` restores the list whenever the item's index was > 0, for any list |
| `ListStore.MoveDownThenUp` | src/app/services/list.service.ts:41-52 | `moveItemDown(id)` then `moveItemUp(id)` restores the list when the item was not last |
| `ListStore.ListService.constructor` | src/app/services/list.service.ts:9-25 | the items are the seed and the selection is the first seeded item |
| `ListStore.ListService.SelectItem` | src/app/services/list.service.ts:35-37 | the selection becomes the given item without a membership check; the order is untouched |
| `ListStore.ListService.MoveItemUp` | src/app/services/list.service.ts:39-46 | the items become `MoveUp` of the old items, the selection is unchanged, and unique ids are kept |
| `ListStore.ListService.MoveItemDown` | src/app/services/list.service.ts:48-55 | the items become `MoveDown` of the old items, the selection is unchanged, and unique ids are kept |
| `FocusPolicy.IsSelected` | src/app/list/list.component.ts:94-96 | a row is selected exactly when the selection is not null and has the row's id |
| `FocusPolicy.ItemTabIndex` | src/app/list/list.component.ts:34 | the row's tabindex is 0 exactly when it is selected, otherwise -1 |
| `FocusPolicy.UpDisabled` | src/app/list/list.component.ts:44 | the move-up button is disabled exactly on row 0 |
| `FocusPolicy.DownDisabled` | src/app/list/list.component.ts:52 | the move-down button is disabled exactly on the last row |
| `FocusPolicy.IsButtonInTabOrder` | src/app/list/list.component.ts:116-127 | a button is in the Tab order only if its row is selected and is not looked up at index 0 (up) or at length-1 (down) |
| `FocusPolicy.ButtonTabIndex` | src/app/list/list.component.ts:46-54 | a move button's tabindex is 0 exactly when it is in the Tab order, otherwise -1 |
| `FocusPolicy.ExactlyOneTabStop` | src/app/list/list.component.ts:94-96 | the rows with tabindex 0 (template line 34) are exactly the selected item's position when the selection is in the list, and none when it is null or absent |
| `FocusPolicy.ButtonTabOrderMirrorsPosition` | src/app/list/list.component.ts:116-127 | the up button is in the Tab order iff its row is selected and its index is > 0; the down button iff its row is selected and its index is < length-1 |
| `FocusPolicy.TabbableButtonIsEnabled` | src/app/list/list.component.ts:42-55 | a button with tabindex 0 is never disabled (disabled is `i === 0` / `i === length-1`) |
| `Navigation.TabNavigation` | src/app/list/list.component.ts:154-258 | every selection it makes is within [0, length); it only focuses enabled elements of the selected row; it suppresses the default only when it acts; the branches at lines 219 and 237 are unreachable |
| `Navigation.OnKeyDown` | src/app/list/list.component.ts:129-152 | every selection it makes is within [0, length) and suppresses the default; a focus move targets an enabled element of the selected row; only Tab moves focus |
| `Navigation.ArrowKeys` | src/app/list/list.component.ts:136-147 | ArrowDown and ArrowUp always suppress the default; ArrowDown selects index+1 iff index < length-1, and ArrowUp selects index-1 iff index > 0 |
| `Navigation.UnhandledInputsIgnored` | src/app/list/list.component.ts:129-152 | with a null selection, with another key, or with Tab while focus is off the selected row, nothing changes and the default is not suppressed |
| `Navigation.ShiftTab` | src/app/list/list.component.ts:166-200 | Shift+Tab goes MoveUp → item, MoveDown → MoveUp (or → item on the first row), and item → previous row (or leaves the list on the first row) |
| `Navigation.ForwardTabExitsOnlyAtLastRow` | src/app/list/list.component.ts:203-257 | forward Tab does not suppress the default exactly on the last row: from MoveUp, from MoveDown, or from the item when length = 1 |
| `Navigation.ShiftTabExitsOnlyAtFirstRow` | src/app/list/list.component.ts:166-200 | Shift+Tab does not suppress the default exactly from the first row's item |
| `Navigation.ForwardTabMatchesReduced` | src/app/list/list.component.ts:205-256 | forward Tab equals a table without the branches at lines 219 and 237 on every input |
| `Navigation.Initial` | src/app/list/list.component.ts:88-90 | the state after first render (first item selected and focused) satisfies the navigation invariant |
| `Navigation.Step` | src/app/list/list.component.ts:76-84 | one arrow, Tab or Shift+Tab press, or another key whose default does not act on the list, plus "focus follows selection" keeps the invariant: the selection stays in bounds and moves by at most one row, focus lands only on an enabled element of the selected row, and focus leaves the list only by Tab, forward from the last row or backward from the first |
| `Navigation.Run` | src/app/list/list.component.ts:129-258 | any sequence of arrow, Tab and Shift+Tab presses, and of other keys whose default does not act on the list, keeps the navigation invariant (keyboard activation of a move button is left out) |
| `Navigation.ArrowDownPresses` | src/app/list/list.component.ts:136-141 | n ArrowDown presses select and focus the row min(index+n, length-1); at the last row nothing changes |
| `Navigation.ArrowUpPresses` | src/app/list/list.component.ts:142-147 | n ArrowUp presses select and focus the row max(index-n, 0); at the first row nothing changes |
| `Navigation.ArrowDownToLastRow` | src/app/list/list.component.ts:136-141 | four ArrowDowns from the initial five-item state select and focus item 5, whose move-down button is disabled |
| `Navigation.TabThroughMiddleRow` | src/app/list/list.component.ts:205-253 | from the third row's item, Tab goes to MoveUp, then MoveDown, then to the fourth row's item |
| `Navigation.TabFromFirstRowSkipsMoveUp` | src/app/list/list.component.ts:205-216 | Tab from the first row's item goes straight to MoveDown |
| `ListView.TabStopFollowsMoveUp` | src/app/list/list.component.ts:34 | after the selected item moves up, the only tabindex-0 row is its new position k-1 |
| `ListView.TabStopFollowsMoveDown` | src/app/list/list.component.ts:94-96 | after the selected item moves down, the only tabindex-0 row is its new position k+1 |
| `ListView.MoveDownSecondSeedItem` | src/app/list/list.component.ts:111-114 | Move Down on item 2 of the seed gives ids 1,3,2,4,5, and item 2's tabindex-0 row is index 2 |
| `ListView.ListComponent.CurrentIndex` | src/app/list/list.component.ts:130-133 | the selected item's `findIndex`: none under a null selection, otherwise -1 exactly when the item is not in the list |
| `ListView.ListComponent.SelectItem` | src/app/list/list.component.ts:98-100 | the selection becomes the item and the order is untouched |
| `ListView.ListComponent.OnItemFocus` | src/app/list/list.component.ts:102-104 | focusing an item selects it |
| `ListView.ListComponent.MoveUp` | src/app/list/list.component.ts:106-109 | the store's items become `MoveUp` of the old items by the row's id; the selection is kept |
| `ListView.ListComponent.MoveDown` | src/app/list/list.component.ts:111-114 | the store's items become `MoveDown` of the old items by the row's id; for a row's item (an id in the list) that is exactly the array `moveItemDown` publishes as written; the selection is kept |
| `ListView.ListComponent.OnKeyDown` | src/app/list/list.component.ts:129-152 | applies the decision table to the store: the order never changes, and a selection the key changes is an item of the list; the returned default-suppression and focus move are the table's |

## Left out

- Observable and signal publication is not modelled. This covers `getItems`, `getSelectedItem`, `itemsSubject.next` and the `computed` signals. Readers look at the store's two fields directly.
- `event.stopPropagation()` in `moveUp`/`moveDown` is not modelled. It is DOM event plumbing.
- The `effect` with `setTimeout`, `ngAfterViewInit` and `focusSelectedItem` are not modelled as timing. They appear only as "focus follows selection": `Navigation.Step` moves focus to a newly selected item, and `Navigation.Initial` starts with the first item focused.
- `document.activeElement`, `viewChildren` and the `getListItemElement` / `getMoveUpButton` / `getMoveDownButton` lookups become the `Focus` value. An element of row i exists only when 0 <= i < length. The `.focus()` calls become the returned focus role.
- Template text, aria labels, `aria-selected` and CSS classes are not modelled.
- src/app/detail/detail.component.ts, src/app/directives/key-manager.directive.ts and src/main.ts are not part of this model. The first is a subscriber that only displays. The second is unused by the list. The third is bootstrap.
- src/app/models/list-item.model.ts is not part of this model. The item's fields are taken from the seed literals.
- Ids are JavaScript numbers. They are modelled as unbounded integers, with no NaN and no fractional ids.
- The selection is held as an item value, not an object reference. Two items with equal fields cannot be told apart. Under unique ids this makes no difference.
- `Navigation.Step` and `Navigation.Run` do not model keyboard activation of a move button. `onKeyDown` does not suppress the default for Enter or Space, so on a focused Move Up / Move Down button that press fires its click, and `moveUp`/`moveDown` (src/app/list/list.component.ts:106-114) reorder the list. The selected index then shifts by one, and focus can end up on a button that has just become disabled, at an index that is neither end. That breaks `Navigation.Valid`. In the model, every key other than the arrows and Tab is `OtherKey`, and `Step` leaves the state as it was. So the invariant proved by `Step` and `Run` holds for sequences of arrow, Tab and Shift+Tab presses, and for other keys only when their default does not act on the list. A reorder is modelled on its own by `ListView.ListComponent.MoveUp`/`MoveDown`, `ListStore.MoveUpPositions`/`MoveDownPositions` and `ListView.TabStopFollowsMoveUp`/`TabStopFollowsMoveDown`.
- `Navigation.Step` and `Navigation.Run` do not cover mouse use either. Focus put by mouse on a button of a row that is not selected is outside their invariant. `Navigation.UnhandledInputsIgnored` covers what the handler does then.
- `Navigation.Step` models the browser's default for an unsuppressed Tab as leaving the list. That holds for the states in its invariant, but the browser's general tab traversal is not modelled.
- `ListStore.MoveDownAsWritten` models only the first call with an absent id. After it, slot 0 holds `undefined`, and the next `findIndex` in `moveItemUp`/`moveItemDown` (src/app/services/list.service.ts:40, :49) would throw reading `.id` of `undefined`. That failure is not modelled.
- `ListStore.ListService.MoveItemDown` uses the repaired guard `0 <= index < length - 1`, so it does not corrupt slot 0 for an absent id (see Findings). The as-written behaviour is `ListStore.MoveDownAsWritten`.
- `ListStore.ListService.SelectItem` does not check membership. `selectItem` (src/app/services/list.service.ts:35-37) stores whatever item it is given, so the selection can name an item that is not in the list. The model keeps this, and `Navigation.UnhandledInputsIgnored` and `FocusPolicy.ExactlyOneTabStop` cover a selection that is absent.
- The forward-Tab branches at src/app/list/list.component.ts:219 and :237 select the next row, but they can never run. The `assert false` in `Navigation.TabNavigation` proves this, and `Navigation.ForwardTabMatchesReduced` shows that removing them changes nothing.

## Findings

| source | as written | input that shows it | evidently intended | confidence | as-written member | corrected member |
|---|---|---|---|---|---|---|
| src/app/services/list.service.ts:48-55 | the guard is only `index < this.items.length - 1`. For an absent id, `findIndex` gives -1, which passes. The swap then stores `items[0]` under the non-index key -1 and writes `undefined` into `items[0]`. After that, every later `findIndex(item => item.id === id)` (lines 40 and 49) would throw a TypeError reading `.id` of `undefined`; the model covers only the first call | `moveItemDown(6)` on the seeded list | an absent id leaves the list unchanged, as in `moveItemUp` (guard `0 <= index`) | not executed | `ListStore.MoveDownAsWritten` (with `ListStore.MoveDownAsWrittenLosesFirstItem`) | `ListStore.MoveDown` |
