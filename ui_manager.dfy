/** Filling the result list and sizing the window to it (src/gui/ui_manager.py). */
module Ui {
  import opened Wrappers
  import opened JsonValues
  import opened Widgets

  /** Rows shown at most, and pixels added to the window per row shown. */
  const MaxRows: int := 5
  const RowHeight: int := 20

  /** Placeholder shown when there is nothing to list and the caller names none. */
  const DefaultPlaceholder: string := "No results"

  /** The listbox line for one result: `name (hotkey)` for an entry with a `hotkey` key, its
      `name` alone otherwise. `None` when building it raises: the result is not a dict or has no
      `name`. */
  function Line(result: Json): (l: Option<string>)
    ensures l.Some? <==> HasKey(result, "name")
  {
    if !HasKey(result, "name") then None
    else if HasKey(result, "hotkey") then
      Some(PyStr(result.fields["name"]) + " (" + PyStr(result.fields["hotkey"]) + ")")
    else Some(PyStr(result.fields["name"]))
  }

  /** A rendered line starts with the entry's name; with a `hotkey` it is longer and closes
      with a parenthesis, without one it is the name alone. */
  lemma LineShape(result: Json)
    requires HasKey(result, "name")
    ensures var l, name := Line(result).value, PyStr(result.fields["name"]);
      |l| >= |name| && l[..|name|] == name
      && (HasKey(result, "hotkey") ==> |l| > |name| && l[|l| - 1] == ')')
      && (!HasKey(result, "hotkey") ==> l == name)
  {
  }

  /** Every result can be rendered. */
  predicate Renderable(results: seq<Json>) {
    forall i :: 0 <= i < |results| ==> Line(results[i]).Some?
  }

  /** The lines inserted before the first result that cannot be rendered. */
  function Rendered(results: seq<Json>): seq<string>
  {
    if results == [] then []
    else
      var init := results[..|results| - 1];
      var last := Line(results[|results| - 1]);
      if Renderable(init) && last.Some? then Rendered(init) + [last.value] else Rendered(init)
  }

  /** For renderable results, one line per result, in order. */
  lemma {:induction false} RenderedLines(results: seq<Json>)
    requires Renderable(results)
    ensures |Rendered(results)| == |results|
    ensures forall i :: 0 <= i < |results| ==> Rendered(results)[i] == Line(results[i]).value
    decreases |results|
  {
    if results != [] {
      var init := results[..|results| - 1];
      assert Renderable(init) by {
        forall i | 0 <= i < |init| ensures Line(init[i]).Some? {
          assert init[i] == results[i];
        }
      }
      RenderedLines(init);
    }
  }

  /** Once a result cannot be rendered, nothing after it is. */
  lemma {:induction false} RenderedStops(results: seq<Json>, n: nat)
    requires n <= |results|
    requires !Renderable(results[..n])
    ensures Rendered(results) == Rendered(results[..n])
    decreases |results| - n
  {
    if n == |results| {
      assert results[..n] == results;
    } else {
      var next := results[..n + 1];
      assert next[..|next| - 1] == results[..n];
      assert !Renderable(next) by {
        var i :| 0 <= i < n && Line(results[..n][i]).None?;
        assert next[i] == results[..n][i];
      }
      RenderedStops(results, n + 1);
    }
  }

  /** Rows the listbox shows for `n` results. */
  function ListHeight(n: int): (h: int)
    requires n > 0
    ensures 1 <= h <= MaxRows && h <= n
    ensures n <= MaxRows ==> h == n
  {
    if n < MaxRows then n else MaxRows
  }

  class UiManager {
    const window: Window
    const listbox: Listbox
    const entry: Entry
    const baseHeight: int
    const width: int

    constructor (window: Window, listbox: Listbox, entry: Entry, baseHeight: int, width: int)
      ensures this.window == window && this.listbox == listbox && this.entry == entry
      ensures this.baseHeight == baseHeight && this.width == width
    {
      this.window, this.listbox, this.entry := window, listbox, entry;
      this.baseHeight, this.width := baseHeight, width;
    }

    /** The listbox and the window as a normal return of `update_results(results, placeholder)`
        leaves them: the lines, the greyed rows, the list height and the window size. */
    predicate Shows(results: seq<Json>, placeholder: string)
      reads listbox, window
    {
      if results == [] then
        listbox.items == [placeholder] && listbox.muted == {0} && listbox.height == 1
        && window.width == width && window.height == baseHeight
      else
        listbox.items == Rendered(results) && listbox.muted == {}
        && listbox.height == ListHeight(|results|)
        && window.width == width && window.height == baseHeight + RowHeight * ListHeight(|results|)
    }

    /** `update_results(results, placeholder_message)`. The listbox is emptied and gets one line
        per result, in order; it then shows at most five rows and the window grows 20 pixels per
        row. With no results it holds only the greyed placeholder, one row high, and the window
        has its base height. A result without a `name` raises (`ok` is false): the lines before
        it stay and neither the listbox nor the window is resized. */
    method UpdateResults(results: seq<Json>, placeholder: string) returns (ok: bool)
      modifies listbox, window
      ensures ok <==> Renderable(results)
      ensures results != [] ==> listbox.items == Rendered(results) && listbox.muted == {}
      ensures results != [] && ok ==>
        listbox.height == ListHeight(|results|)
        && window.width == width && window.height == baseHeight + RowHeight * ListHeight(|results|)
      ensures results == [] ==>
        listbox.items == [placeholder] && listbox.muted == {0} && listbox.height == 1
        && window.width == width && window.height == baseHeight
      ensures !ok ==>
        listbox.height == old(listbox.height) && window.height == old(window.height) && window.width == old(window.width)
      ensures ok ==> Shows(results, placeholder)
      ensures listbox.selection == {} && listbox.seen == old(listbox.seen)
      ensures window.x == old(window.x) && window.y == old(window.y) && window.visible == old(window.visible)
      ensures window.focused == old(window.focused)
    {
      listbox.items, listbox.muted, listbox.selection := [], {}, {};
      if results != [] {
        var i := 0;
        while i < |results|
          invariant 0 <= i <= |results|
          invariant Renderable(results[..i])
          invariant listbox.items == Rendered(results[..i])
          invariant listbox.muted == {} && listbox.selection == {} && listbox.seen == old(listbox.seen)
          invariant listbox.height == old(listbox.height)
          invariant window.height == old(window.height) && window.width == old(window.width)
          invariant window.x == old(window.x) && window.y == old(window.y) && window.visible == old(window.visible)
          invariant window.focused == old(window.focused)
        {
          var seen := results[..i + 1];
          assert seen[..|seen| - 1] == results[..i] && seen[|seen| - 1] == results[i];
          var line := Line(results[i]);
          if line.None? {
            assert !Renderable(seen);
            RenderedStops(results, i + 1);
            assert !Renderable(results) by {
              assert results[i] == seen[i];
            }
            return false;
          }
          listbox.items := listbox.items + [line.value];
          assert Renderable(seen) by {
            forall j | 0 <= j < |seen| ensures Line(seen[j]).Some? {
              if j < i { assert seen[j] == results[..i][j]; }
            }
          }
          i := i + 1;
        }
        assert results[..i] == results;
        var listHeight := if |results| < MaxRows then |results| else MaxRows;
        listbox.height := listHeight;
        window.width, window.height := width, baseHeight + listHeight * RowHeight;
      } else {
        listbox.items := listbox.items + [placeholder];
        listbox.muted := listbox.muted + {0};
        listbox.height := 1;
        window.width, window.height := width, baseHeight;
      }
      ok := true;
    }

    /** `clear_search()`: empty the search text. Tk keeps the insertion cursor within the text,
        so it ends at 0. */
    method ClearSearch()
      modifies entry
      ensures entry.text == [] && entry.cursor == 0 && entry.focused == old(entry.focused)
    {
      entry.text, entry.cursor := [], 0;
    }
  }

  /** A filled list makes the window between one and five rows taller than its base height. */
  lemma WindowGrowth(n: int, baseHeight: int)
    requires n > 0
    ensures baseHeight + RowHeight <= baseHeight + RowHeight * ListHeight(n) <= baseHeight + RowHeight * MaxRows
  {
  }
}
