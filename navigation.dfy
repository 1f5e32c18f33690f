/** The keyboard navigation of the list view, as a decision table. The
    handler sees the position of the selected item (what `findIndex` gives
    for the selection's id, or nothing under a null selection), the list's
    length, which element holds focus, and the key; it decides which item
    to select next, which element of the selected row to focus, and whether
    the browser's default action is suppressed. The element lookups of the
    source become the `Focus` value: an element of row `i` exists only when
    `0 <= i < length`. */
module Navigation {
  import opened Items
  import opened FocusPolicy

  /** The keys the handler distinguishes; every other key is `OtherKey`. */
  datatype Key = ArrowDown | ArrowUp | Tab | OtherKey

  /** The three focusable elements of a row. */
  datatype Role = RowItem | MoveUpButton | MoveDownButton

  /** The element holding focus: one of a row's elements, or something
      outside the list. */
  datatype Focus = Focused(role: Role, row: int) | Outside

  /** What one key event decides: the position whose item is selected
      next, the element of the current row that receives focus, and
      whether `preventDefault` is called. */
  datatype Outcome = Outcome(select: Option<int>, focus: Option<Role>, preventDefault: bool)

  /** Nothing selected, nothing focused, the default left alone. */
  const Ignored := Outcome(None, None, false)

  /** The element with `role` of row `i` exists and holds focus. */
  predicate FocusIs(focus: Focus, role: Role, i: int, length: nat)
  {
    0 <= i < length && focus == Focused(role, i)
  }

  /** The element with `role` of row `i` is a disabled button. */
  predicate Disabled(role: Role, i: int, length: nat)
  {
    match role
    case RowItem => false
    case MoveUpButton => UpDisabled(i)
    case MoveDownButton => DownDisabled(i, length)
  }

  /** `handleTabNavigation`. Forward Tab walks item, move up, move down of
      the selected row and then on to the next row's item; Shift+Tab walks
      back. The two branches that select the next row although the row is
      the last are dead, which the `assert false` in each records. */
  function TabNavigation(current: Option<int>, length: nat, focus: Focus, shift: bool): (o: Outcome)
    requires current.Some? ==> -1 <= current.value < length
    ensures o.select.Some? ==> 0 <= o.select.value < length && o.focus.None? && o.preventDefault
    ensures o.focus.Some? ==>
      current.Some? && 0 <= current.value < length && o.select.None? && o.preventDefault &&
      !Disabled(o.focus.value, current.value, length)
    ensures o.preventDefault ==> o.select.Some? || o.focus.Some?
  {
    if current.None? then Ignored
    else
      var i := current.value;
      var isFirstItem := i == 0;
      var isLastItem := i == length - 1;
      if shift then
        if FocusIs(focus, RowItem, i, length) then
          if i > 0 then Outcome(Some(i - 1), None, true) else Ignored
        else if FocusIs(focus, MoveUpButton, i, length) then
          Outcome(None, Some(RowItem), true)
        else if FocusIs(focus, MoveDownButton, i, length) then
          if !isFirstItem then Outcome(None, Some(MoveUpButton), true)
          else Outcome(None, Some(RowItem), true)
        else Ignored
      else
        if FocusIs(focus, RowItem, i, length) then
          if !isFirstItem then Outcome(None, Some(MoveUpButton), true)
          else if !isLastItem then Outcome(None, Some(MoveDownButton), true)
          else if i < length - 1 then assert false; Outcome(Some(i + 1), None, true)
          else Ignored
        else if FocusIs(focus, MoveUpButton, i, length) then
          if !isLastItem then Outcome(None, Some(MoveDownButton), true)
          else if i < length - 1 then assert false; Outcome(Some(i + 1), None, true)
          else Ignored
        else if FocusIs(focus, MoveDownButton, i, length) then
          if i < length - 1 then Outcome(Some(i + 1), None, true) else Ignored
        else Ignored
  }

  /** `onKeyDown`. The arrows always suppress the default and select the
      neighbouring item when there is one; Tab is handed to TabNavigation;
      any other key, and any key under a null selection, is ignored. */
  function OnKeyDown(current: Option<int>, length: nat, focus: Focus, key: Key, shift: bool): (o: Outcome)
    requires current.Some? ==> -1 <= current.value < length
    ensures o.select.Some? ==> 0 <= o.select.value < length && o.focus.None? && o.preventDefault
    ensures o.focus.Some? ==>
      current.Some? && 0 <= current.value < length && o.select.None? && o.preventDefault &&
      !Disabled(o.focus.value, current.value, length)
    ensures key != Tab ==> o.focus.None?
  {
    if current.None? then Ignored
    else
      var i := current.value;
      match key
      case ArrowDown => Outcome(if i < length - 1 then Some(i + 1) else None, None, true)
      case ArrowUp => Outcome(if i > 0 then Some(i - 1) else None, None, true)
      case Tab => TabNavigation(current, length, focus, shift)
      case OtherKey => Ignored
  }

  /** ArrowDown and ArrowUp suppress the default wherever they are pressed
      and move the selection by one row unless it is already at that end. */
  lemma ArrowKeys(i: int, length: nat, focus: Focus, shift: bool)
    requires -1 <= i < length
    ensures var o := OnKeyDown(Some(i), length, focus, ArrowDown, shift);
      o.preventDefault && o.focus.None? &&
      (o.select.Some? <==> i < length - 1) && (o.select.Some? ==> o.select.value == i + 1)
    ensures var o := OnKeyDown(Some(i), length, focus, ArrowUp, shift);
      o.preventDefault && o.focus.None? &&
      (o.select.Some? <==> i > 0) && (o.select.Some? ==> o.select.value == i - 1)
  {
  }

  /** Under a null selection, for a key other than the arrows and Tab, and
      for Tab while focus is not on the selected row, nothing happens and
      the default is left alone. */
  lemma UnhandledInputsIgnored(current: Option<int>, length: nat, focus: Focus, key: Key, shift: bool)
    requires current.Some? ==> -1 <= current.value < length
    requires current.None? || key == OtherKey ||
      (key == Tab && !(focus.Focused? && focus.row == current.value && 0 <= focus.row < length))
    ensures OnKeyDown(current, length, focus, key, shift) == Ignored
  {
  }

  /** Shift+Tab from an element of the selected row `i`: from move up to
      the row's item; from move down to move up, or to the item on the
      first row; from the item to the previous row, or out of the list on
      the first row. */
  lemma ShiftTab(i: int, length: nat)
    requires 0 <= i < length
    ensures OnKeyDown(Some(i), length, Focused(MoveUpButton, i), Tab, true) ==
      Outcome(None, Some(RowItem), true)
    ensures OnKeyDown(Some(i), length, Focused(MoveDownButton, i), Tab, true) ==
      Outcome(None, Some(if i > 0 then MoveUpButton else RowItem), true)
    ensures OnKeyDown(Some(i), length, Focused(RowItem, i), Tab, true) ==
      if i > 0 then Outcome(Some(i - 1), None, true) else Ignored
  {
  }

  /** Forward Tab from an element of the selected row `i` leaves the
      default alone, and so leaves the list, exactly on the last row, and
      from the row's item only when that row is also the first. */
  lemma ForwardTabExitsOnlyAtLastRow(i: int, length: nat, role: Role)
    requires 0 <= i < length
    ensures var o := OnKeyDown(Some(i), length, Focused(role, i), Tab, false);
      !o.preventDefault <==> i == length - 1 && (role == RowItem ==> length == 1)
  {
  }

  /** Shift+Tab from an element of the selected row `i` leaves the list
      exactly from the first row's item. */
  lemma ShiftTabExitsOnlyAtFirstRow(i: int, length: nat, role: Role)
    requires 0 <= i < length
    ensures var o := OnKeyDown(Some(i), length, Focused(role, i), Tab, true);
      !o.preventDefault <==> role == RowItem && i == 0
  {
  }

  /** Forward Tab with the two dead branches taken out. */
  function ForwardTabReduced(i: int, length: nat, role: Role): Outcome
  {
    match role
    case RowItem =>
      if i > 0 then Outcome(None, Some(MoveUpButton), true)
      else if length > 1 then Outcome(None, Some(MoveDownButton), true)
      else Ignored
    case MoveUpButton =>
      if i < length - 1 then Outcome(None, Some(MoveDownButton), true) else Ignored
    case MoveDownButton =>
      if i < length - 1 then Outcome(Some(i + 1), None, true) else Ignored
  }

  /** The dead branches change nothing: forward Tab behaves as the
      reduced table on every input. */
  lemma ForwardTabMatchesReduced(i: int, length: nat, role: Role)
    requires 0 <= i < length
    ensures TabNavigation(Some(i), length, Focused(role, i), false) == ForwardTabReduced(i, length, role)
  {
  }

  /** The abstract widget state between key events: the selected position,
      the list's length and the focused element. */
  datatype NavState = NavState(index: int, length: nat, focus: Focus)

  /** One key press. */
  datatype KeyPress = KeyPress(key: Key, shift: bool)

  /** The states the keyboard can reach: the selection is in the list,
      focus is on an enabled element of the selected row, and the list was
      left only from its first or its last row. */
  predicate Valid(s: NavState)
  {
    0 <= s.index < s.length &&
    (s.focus.Focused? ==> s.focus.row == s.index && !Disabled(s.focus.role, s.index, s.length)) &&
    (s.focus.Outside? ==> s.index == 0 || s.index == s.length - 1)
  }

  /** After the view is first rendered: the first item selected and focused. */
  function Initial(length: nat): (s: NavState)
    requires length > 0
    ensures Valid(s)
  {
    NavState(0, length, Focused(RowItem, 0))
  }

  /** One key press handled. A new selection pulls focus to its item (the
      deferred focus of the selection effect); an explicit focus move stays
      on the current row; a Tab whose default is left alone leaves the list;
      anything else changes nothing. A key whose default acts on the list,
      such as Enter or Space on a move button (which clicks it and reorders
      the list), is outside what this step models. */
  function Step(s: NavState, p: KeyPress): (t: NavState)
    requires Valid(s) && s.focus.Focused?
    ensures Valid(t) && t.length == s.length
    ensures -1 <= t.index - s.index <= 1
    ensures t.focus.Outside? ==>
      p.key == Tab && if p.shift then t.index == 0 else t.index == t.length - 1
  {
    var o := OnKeyDown(Some(s.index), s.length, s.focus, p.key, p.shift);
    if o.select.Some? then NavState(o.select.value, s.length, Focused(RowItem, o.select.value))
    else if o.focus.Some? then s.(focus := Focused(o.focus.value, s.index))
    else if p.key == Tab && !o.preventDefault then s.(focus := Outside)
    else s
  }

  /** A run of key presses; presses after focus has left the list do not
      reach the handler. */
  function Run(s: NavState, keys: seq<KeyPress>): (t: NavState)
    requires Valid(s)
    ensures Valid(t) && t.length == s.length
    ensures s.focus.Outside? ==> t == s
    decreases |keys|
  {
    if |keys| == 0 || s.focus.Outside? then s
    else Run(Step(s, keys[0]), keys[1..])
  }

  /** `n` presses of the same key. */
  function Presses(p: KeyPress, n: nat): (r: seq<KeyPress>)
    ensures |r| == n && forall m :: 0 <= m < n ==> r[m] == p
  {
    seq(n, _ => p)
  }

  /** Holding ArrowDown for `n` presses moves the selection `n` rows down,
      stopping at the last row, and focuses the newly selected item; when
      the selection is already on the last row nothing changes. */
  lemma {:induction false} ArrowDownPresses(s: NavState, shift: bool, n: nat)
    requires Valid(s) && s.focus.Focused?
    ensures var k := if s.index + n < s.length then s.index + n else s.length - 1;
      Run(s, Presses(KeyPress(ArrowDown, shift), n)) ==
        if k == s.index then s else NavState(k, s.length, Focused(RowItem, k))
    decreases n
  {
    var p := KeyPress(ArrowDown, shift);
    if n > 0 {
      assert Presses(p, n)[1..] == Presses(p, n - 1);
      var t := Step(s, p);
      ArrowDownPresses(t, shift, n - 1);
    }
  }

  /** Holding ArrowUp for `n` presses moves the selection `n` rows up,
      stopping at the first row, and focuses the newly selected item; when
      the selection is already on the first row nothing changes. */
  lemma {:induction false} ArrowUpPresses(s: NavState, shift: bool, n: nat)
    requires Valid(s) && s.focus.Focused?
    ensures var k := if s.index - n >= 0 then s.index - n else 0;
      Run(s, Presses(KeyPress(ArrowUp, shift), n)) ==
        if k == s.index then s else NavState(k, s.length, Focused(RowItem, k))
    decreases n
  {
    var p := KeyPress(ArrowUp, shift);
    if n > 0 {
      assert Presses(p, n)[1..] == Presses(p, n - 1);
      var t := Step(s, p);
      ArrowUpPresses(t, shift, n - 1);
    }
  }

  /** Four ArrowDown presses from the initial state of the five-item list
      select and focus the fifth item, whose move-down button is disabled. */
  lemma ArrowDownToLastRow()
    ensures Run(Initial(5), Presses(KeyPress(ArrowDown, false), 4)) == NavState(4, 5, Focused(RowItem, 4))
    ensures DownDisabled(4, 5)
  {
    ArrowDownPresses(Initial(5), false, 4);
  }

  /** Three Tabs from the item of the third of five rows visit move up,
      move down, then select and focus the fourth item. */
  lemma TabThroughMiddleRow()
    ensures var t := KeyPress(Tab, false); var s := NavState(2, 5, Focused(RowItem, 2));
      Step(s, t) == NavState(2, 5, Focused(MoveUpButton, 2)) &&
      Step(Step(s, t), t) == NavState(2, 5, Focused(MoveDownButton, 2)) &&
      Step(Step(Step(s, t), t), t) == NavState(3, 5, Focused(RowItem, 3))
  {
  }

  /** Tab from the first row's item skips its disabled move-up button. */
  lemma TabFromFirstRowSkipsMoveUp()
    ensures Step(Initial(5), KeyPress(Tab, false)) == NavState(0, 5, Focused(MoveDownButton, 0))
  {
  }
}
