/** Keyboard and mouse navigation of the result list (src/gui/event_manager.py). The listbox is
    seen only through its number of lines; the two callbacks the manager is given are recorded
    as requests. */
module Events {
  import opened Widgets

  /** A call the manager makes to the callbacks it was constructed with. */
  datatype Request = HotkeySelected(index: int) | HideRequested

  /** Lines moved by Page Up / Page Down. */
  const PageStep: int := 5

  /** The index after moving up by `step` in a list of `size` lines: clamped at the top, and
      unchanged when the list is empty. */
  function Up(index: int, size: int, step: nat): int
  {
    if size > 0 then (if index - step < 0 then 0 else index - step) else index
  }

  /** The index after moving down by `step`: clamped at the last line. */
  function Down(index: int, size: int, step: nat): int
  {
    if size > 0 then (if index + step > size - 1 then size - 1 else index + step) else index
  }

  /** Every move keeps a valid index valid, and never passes the first or last line. */
  lemma MovesStayInRange(index: int, size: int, step: nat)
    requires 0 <= index < size
    ensures 0 <= Up(index, size, step) <= index
    ensures index <= Down(index, size, step) < size
  {
  }

  /** One step down undoes one step up away from the top, and the other way round away from the
      bottom. */
  lemma UpDownInverse(index: int, size: int)
    ensures 0 < index < size ==> Down(Up(index, size, 1), size, 1) == index
    ensures 0 <= index < size - 1 ==> Up(Down(index, size, 1), size, 1) == index
  {
  }

  /** `n` presses of the same downward move. */
  function DownTimes(index: int, size: int, step: nat, n: nat): int
    decreases n
  {
    if n == 0 then index else DownTimes(Down(index, size, step), size, step, n - 1)
  }

  /** `n` presses of the same upward move. */
  function UpTimes(index: int, size: int, step: nat, n: nat): int
    decreases n
  {
    if n == 0 then index else UpTimes(Up(index, size, step), size, step, n - 1)
  }

  /** Repeated paging reaches the last line once the presses cover the distance to it, and stays
      there. */
  lemma {:induction false} PagingDownReachesEnd(index: int, size: int, step: nat, n: nat)
    requires 0 <= index < size
    requires n * step >= size - 1 - index
    ensures DownTimes(index, size, step, n) == size - 1
    decreases n
  {
    if n > 0 {
      var next := Down(index, size, step);
      if next == size - 1 {
        StaysAtEnd(size, step, n - 1);
      } else {
        assert next == index + step;
        assert (n - 1) * step == n * step - step;
        PagingDownReachesEnd(next, size, step, n - 1);
      }
    } else {
      assert index == size - 1;
    }
  }

  lemma {:induction false} StaysAtEnd(size: int, step: nat, n: nat)
    requires size > 0
    ensures DownTimes(size - 1, size, step, n) == size - 1
    decreases n
  {
    if n > 0 {
      StaysAtEnd(size, step, n - 1);
    }
  }

  /** Repeated paging up reaches the first line once the presses cover the distance to it. */
  lemma {:induction false} PagingUpReachesTop(index: int, size: int, step: nat, n: nat)
    requires 0 <= index < size
    requires n * step >= index
    ensures UpTimes(index, size, step, n) == 0
    decreases n
  {
    if n > 0 {
      var next := Up(index, size, step);
      if next == 0 {
        StaysAtTop(size, step, n - 1);
      } else {
        assert next == index - step;
        assert (n - 1) * step == n * step - step;
        PagingUpReachesTop(next, size, step, n - 1);
      }
    } else {
      assert index == 0;
    }
  }

  lemma {:induction false} StaysAtTop(size: int, step: nat, n: nat)
    requires size > 0
    ensures UpTimes(0, size, step, n) == 0
    decreases n
  {
    if n > 0 {
      StaysAtTop(size, step, n - 1);
    }
  }

  /** Bit 0x4 of a Tk event state: the Control modifier. Python's `&` on a negative state acts
      on the two's-complement bits, which floor division reproduces. */
  predicate ControlHeld(state: int) {
    (state / 4) % 2 == 1
  }

  /** A wheel event scrolls down when it is X11 button 5 or carries a negative delta. */
  predicate ScrollsDown(num: int, delta: int) {
    num == 5 || delta < 0
  }

  /** The index a wheel event leads to: the arrow-key move, or the paging move with Control. */
  function WheelTarget(index: int, size: int, num: int, delta: int, state: int): (r: int)
    ensures 0 <= index < size ==> 0 <= r < size
    ensures 0 <= index < size && ScrollsDown(num, delta) ==> r >= index
    ensures 0 <= index < size && !ScrollsDown(num, delta) ==> r <= index
  {
    var step := if ControlHeld(state) then PageStep else 1;
    if ScrollsDown(num, delta) then Down(index, size, step) else Up(index, size, step)
  }

  class EventManager {
    const listbox: Listbox
    const entry: Entry
    var selectedIndex: int
    var requests: seq<Request>

    /** The selection is a line of the list, or 0 when the list is empty. */
    ghost predicate InRange()
      reads this, listbox
    {
      0 <= selectedIndex && (|listbox.items| > 0 ==> selectedIndex < |listbox.items|)
    }

    constructor (listbox: Listbox, entry: Entry)
      ensures this.listbox == listbox && this.entry == entry
      ensures selectedIndex == 0 && requests == []
    {
      this.listbox, this.entry := listbox, entry;
      selectedIndex, requests := 0, [];
    }

    /** `_update_selection`: select exactly the current line and scroll it into view. */
    method UpdateSelection()
      modifies listbox
      ensures listbox.selection == {selectedIndex} && listbox.seen == selectedIndex
      ensures listbox.items == old(listbox.items) && listbox.muted == old(listbox.muted)
      ensures listbox.height == old(listbox.height)
    {
      listbox.selection := {selectedIndex};
      listbox.seen := selectedIndex;
    }

    /** `_handle_enter`: hand the current index to the selection callback. */
    method HandleEnter()
      modifies this
      ensures requests == old(requests) + [HotkeySelected(selectedIndex)]
      ensures selectedIndex == old(selectedIndex)
    {
      requests := requests + [HotkeySelected(selectedIndex)];
    }

    /** `_handle_escape`: ask for the window to be hidden. */
    method HandleEscape()
      modifies this
      ensures requests == old(requests) + [HideRequested]
      ensures selectedIndex == old(selectedIndex)
    {
      requests := requests + [HideRequested];
    }

    /** `_handle_up` and `_handle_page_up`, by `step` lines. */
    method MoveUp(step: nat)
      modifies this, listbox
      ensures selectedIndex == Up(old(selectedIndex), |listbox.items|, step)
      ensures |listbox.items| > 0 ==> listbox.selection == {selectedIndex} && listbox.seen == selectedIndex
      ensures |listbox.items| == 0 ==> listbox.selection == old(listbox.selection) && listbox.seen == old(listbox.seen)
      ensures listbox.items == old(listbox.items) && listbox.muted == old(listbox.muted)
      ensures listbox.height == old(listbox.height) && requests == old(requests)
      ensures old(InRange()) ==> InRange()
    {
      if |listbox.items| > 0 {
        selectedIndex := if selectedIndex - step < 0 then 0 else selectedIndex - step;
        UpdateSelection();
      }
    }

    /** `_handle_down` and `_handle_page_down`, by `step` lines. */
    method MoveDown(step: nat)
      modifies this, listbox
      ensures selectedIndex == Down(old(selectedIndex), |listbox.items|, step)
      ensures |listbox.items| > 0 ==> listbox.selection == {selectedIndex} && listbox.seen == selectedIndex
      ensures |listbox.items| == 0 ==> listbox.selection == old(listbox.selection) && listbox.seen == old(listbox.seen)
      ensures listbox.items == old(listbox.items) && listbox.muted == old(listbox.muted)
      ensures listbox.height == old(listbox.height) && requests == old(requests)
      ensures old(InRange()) ==> InRange()
    {
      if |listbox.items| > 0 {
        var last := |listbox.items| - 1;
        selectedIndex := if selectedIndex + step > last then last else selectedIndex + step;
        UpdateSelection();
      }
    }

    method HandleUp()
      modifies this, listbox
      ensures selectedIndex == Up(old(selectedIndex), |listbox.items|, 1)
      ensures |listbox.items| > 0 ==> listbox.selection == {selectedIndex} && listbox.seen == selectedIndex
      ensures |listbox.items| == 0 ==> listbox.selection == old(listbox.selection) && listbox.seen == old(listbox.seen)
      ensures listbox.muted == old(listbox.muted) && listbox.height == old(listbox.height)
      ensures listbox.items == old(listbox.items) && requests == old(requests)
      ensures old(InRange()) ==> InRange()
    {
      MoveUp(1);
    }

    method HandleDown()
      modifies this, listbox
      ensures selectedIndex == Down(old(selectedIndex), |listbox.items|, 1)
      ensures |listbox.items| > 0 ==> listbox.selection == {selectedIndex} && listbox.seen == selectedIndex
      ensures |listbox.items| == 0 ==> listbox.selection == old(listbox.selection) && listbox.seen == old(listbox.seen)
      ensures listbox.muted == old(listbox.muted) && listbox.height == old(listbox.height)
      ensures listbox.items == old(listbox.items) && requests == old(requests)
      ensures old(InRange()) ==> InRange()
    {
      MoveDown(1);
    }

    method HandlePageUp()
      modifies this, listbox
      ensures selectedIndex == Up(old(selectedIndex), |listbox.items|, PageStep)
      ensures |listbox.items| > 0 ==> listbox.selection == {selectedIndex} && listbox.seen == selectedIndex
      ensures |listbox.items| == 0 ==> listbox.selection == old(listbox.selection) && listbox.seen == old(listbox.seen)
      ensures listbox.muted == old(listbox.muted) && listbox.height == old(listbox.height)
      ensures listbox.items == old(listbox.items) && requests == old(requests)
      ensures old(InRange()) ==> InRange()
    {
      MoveUp(PageStep);
    }

    method HandlePageDown()
      modifies this, listbox
      ensures selectedIndex == Down(old(selectedIndex), |listbox.items|, PageStep)
      ensures |listbox.items| > 0 ==> listbox.selection == {selectedIndex} && listbox.seen == selectedIndex
      ensures |listbox.items| == 0 ==> listbox.selection == old(listbox.selection) && listbox.seen == old(listbox.seen)
      ensures listbox.muted == old(listbox.muted) && listbox.height == old(listbox.height)
      ensures listbox.items == old(listbox.items) && requests == old(requests)
      ensures old(InRange()) ==> InRange()
    {
      MoveDown(PageStep);
    }

    /** The Control variants: the same move, with the entry's insertion cursor put back where it
        was. */
    method HandleCtrlUp()
      modifies this, listbox, entry
      ensures selectedIndex == Up(old(selectedIndex), |listbox.items|, 1)
      ensures entry.cursor == old(entry.cursor) && entry.text == old(entry.text)
      ensures |listbox.items| > 0 ==> listbox.selection == {selectedIndex} && listbox.seen == selectedIndex
      ensures |listbox.items| == 0 ==> listbox.selection == old(listbox.selection) && listbox.seen == old(listbox.seen)
      ensures listbox.muted == old(listbox.muted) && listbox.height == old(listbox.height)
      ensures entry.focused == old(entry.focused)
      ensures listbox.items == old(listbox.items) && requests == old(requests)
      ensures old(InRange()) ==> InRange()
    {
      var cursorPos := entry.cursor;
      MoveUp(1);
      entry.cursor := cursorPos;
    }

    method HandleCtrlDown()
      modifies this, listbox, entry
      ensures selectedIndex == Down(old(selectedIndex), |listbox.items|, 1)
      ensures entry.cursor == old(entry.cursor) && entry.text == old(entry.text)
      ensures |listbox.items| > 0 ==> listbox.selection == {selectedIndex} && listbox.seen == selectedIndex
      ensures |listbox.items| == 0 ==> listbox.selection == old(listbox.selection) && listbox.seen == old(listbox.seen)
      ensures listbox.muted == old(listbox.muted) && listbox.height == old(listbox.height)
      ensures entry.focused == old(entry.focused)
      ensures listbox.items == old(listbox.items) && requests == old(requests)
      ensures old(InRange()) ==> InRange()
    {
      var cursorPos := entry.cursor;
      MoveDown(1);
      entry.cursor := cursorPos;
    }

    method HandleCtrlPageUp()
      modifies this, listbox, entry
      ensures selectedIndex == Up(old(selectedIndex), |listbox.items|, PageStep)
      ensures entry.cursor == old(entry.cursor) && entry.text == old(entry.text)
      ensures |listbox.items| > 0 ==> listbox.selection == {selectedIndex} && listbox.seen == selectedIndex
      ensures |listbox.items| == 0 ==> listbox.selection == old(listbox.selection) && listbox.seen == old(listbox.seen)
      ensures listbox.muted == old(listbox.muted) && listbox.height == old(listbox.height)
      ensures entry.focused == old(entry.focused)
      ensures listbox.items == old(listbox.items) && requests == old(requests)
      ensures old(InRange()) ==> InRange()
    {
      var cursorPos := entry.cursor;
      MoveUp(PageStep);
      entry.cursor := cursorPos;
    }

    method HandleCtrlPageDown()
      modifies this, listbox, entry
      ensures selectedIndex == Down(old(selectedIndex), |listbox.items|, PageStep)
      ensures entry.cursor == old(entry.cursor) && entry.text == old(entry.text)
      ensures |listbox.items| > 0 ==> listbox.selection == {selectedIndex} && listbox.seen == selectedIndex
      ensures |listbox.items| == 0 ==> listbox.selection == old(listbox.selection) && listbox.seen == old(listbox.seen)
      ensures listbox.muted == old(listbox.muted) && listbox.height == old(listbox.height)
      ensures entry.focused == old(entry.focused)
      ensures listbox.items == old(listbox.items) && requests == old(requests)
      ensures old(InRange()) ==> InRange()
    {
      var cursorPos := entry.cursor;
      MoveDown(PageStep);
      entry.cursor := cursorPos;
    }

    /** `_handle_home` (Control-Home): the first line, when there is one. */
    method HandleHome()
      modifies this, listbox, entry
      ensures selectedIndex == if |listbox.items| > 0 then 0 else old(selectedIndex)
      ensures |listbox.items| > 0 ==> listbox.selection == {0} && listbox.seen == 0
      ensures |listbox.items| == 0 ==> listbox.selection == old(listbox.selection) && listbox.seen == old(listbox.seen)
      ensures listbox.muted == old(listbox.muted) && listbox.height == old(listbox.height)
      ensures entry.focused == old(entry.focused)
      ensures entry.cursor == old(entry.cursor) && entry.text == old(entry.text)
      ensures listbox.items == old(listbox.items) && requests == old(requests)
      ensures old(InRange()) ==> InRange()
    {
      if |listbox.items| > 0 {
        var cursorPos := entry.cursor;
        selectedIndex := 0;
        UpdateSelection();
        entry.cursor := cursorPos;
      }
    }

    /** `_handle_end` (Control-End): the last line, when there is one. */
    method HandleEnd()
      modifies this, listbox, entry
      ensures selectedIndex == if |listbox.items| > 0 then |listbox.items| - 1 else old(selectedIndex)
      ensures |listbox.items| > 0 ==> listbox.selection == {selectedIndex} && listbox.seen == selectedIndex
      ensures |listbox.items| == 0 ==> listbox.selection == old(listbox.selection) && listbox.seen == old(listbox.seen)
      ensures listbox.muted == old(listbox.muted) && listbox.height == old(listbox.height)
      ensures entry.focused == old(entry.focused)
      ensures entry.cursor == old(entry.cursor) && entry.text == old(entry.text)
      ensures listbox.items == old(listbox.items) && requests == old(requests)
      ensures old(InRange()) ==> InRange()
    {
      if |listbox.items| > 0 {
        var cursorPos := entry.cursor;
        selectedIndex := |listbox.items| - 1;
        UpdateSelection();
        entry.cursor := cursorPos;
      }
    }

    /** `_handle_listbox_click`: `nearest` is the line Tk reports under the pointer. A line of the
        list becomes the selection and the entry takes the focus back; anything else is ignored. */
    method HandleListboxClick(nearest: int)
      modifies this, listbox, entry
      ensures 0 <= nearest < |listbox.items| ==>
        selectedIndex == nearest && listbox.selection == {nearest} && listbox.seen == nearest && entry.focused
      ensures !(0 <= nearest < |listbox.items|) ==>
        selectedIndex == old(selectedIndex) && entry.focused == old(entry.focused)
        && listbox.selection == old(listbox.selection) && listbox.seen == old(listbox.seen)
      ensures listbox.muted == old(listbox.muted) && listbox.height == old(listbox.height)
      ensures entry.cursor == old(entry.cursor) && entry.text == old(entry.text)
      ensures listbox.items == old(listbox.items) && requests == old(requests)
      ensures old(InRange()) ==> InRange()
    {
      if |listbox.items| > 0 {
        var index := nearest;
        if 0 <= index < |listbox.items| {
          selectedIndex := index;
          UpdateSelection();
          entry.focused := true;
        }
      }
    }

    /** `_handle_listbox_double_click`: a line of the list becomes the selection and is handed to
        the selection callback at once. */
    method HandleListboxDoubleClick(nearest: int)
      modifies this
      ensures 0 <= nearest < |listbox.items| ==>
        selectedIndex == nearest && requests == old(requests) + [HotkeySelected(nearest)]
      ensures !(0 <= nearest < |listbox.items|) ==>
        selectedIndex == old(selectedIndex) && requests == old(requests)
      ensures old(InRange()) ==> InRange()
    {
      if |listbox.items| > 0 {
        var index := nearest;
        if 0 <= index < |listbox.items| {
          selectedIndex := index;
          requests := requests + [HotkeySelected(selectedIndex)];
        }
      }
    }

    /** `_handle_mouse_wheel`: down for button 5 or a negative delta, otherwise up; a page at a
        time with Control held. The entry takes the focus back. */
    method HandleMouseWheel(num: int, delta: int, state: int)
      modifies this, listbox, entry
      ensures selectedIndex == WheelTarget(old(selectedIndex), |listbox.items|, num, delta, state)
      ensures |listbox.items| > 0 ==> entry.focused
      ensures |listbox.items| == 0 ==> entry.focused == old(entry.focused)
      ensures entry.cursor == old(entry.cursor) && entry.text == old(entry.text)
      ensures |listbox.items| > 0 ==> listbox.selection == {selectedIndex} && listbox.seen == selectedIndex
      ensures |listbox.items| == 0 ==> listbox.selection == old(listbox.selection) && listbox.seen == old(listbox.seen)
      ensures listbox.muted == old(listbox.muted) && listbox.height == old(listbox.height)
      ensures listbox.items == old(listbox.items) && requests == old(requests)
      ensures old(InRange()) ==> InRange()
    {
      if |listbox.items| > 0 {
        var ctrlPressed := ControlHeld(state);
        if ScrollsDown(num, delta) {
          if ctrlPressed {
            HandleCtrlPageDown();
          } else {
            HandleDown();
          }
        } else {
          if ctrlPressed {
            HandleCtrlPageUp();
          } else {
            HandleUp();
          }
        }
        entry.focused := true;
      }
    }

    /** `reset_selection`: back to the first line whatever the list holds; the listbox is only
        touched when it has lines. */
    method ResetSelection()
      modifies this, listbox
      ensures selectedIndex == 0 && requests == old(requests)
      ensures |listbox.items| > 0 ==> listbox.selection == {0} && listbox.seen == 0
      ensures |listbox.items| == 0 ==> listbox.selection == old(listbox.selection) && listbox.seen == old(listbox.seen)
      ensures listbox.items == old(listbox.items) && listbox.muted == old(listbox.muted)
      ensures listbox.height == old(listbox.height)
      ensures InRange()
    {
      selectedIndex := 0;
      if |listbox.items| > 0 {
        UpdateSelection();
      }
    }

    method GetSelectedIndex() returns (index: int)
      ensures index == selectedIndex
    {
      index := selectedIndex;
    }
  }
}
