/** Wiring search text, the catalog, the result list and the executor together
    (src/gui/search_manager.py). */
module Search {
  import opened Wrappers
  import opened JsonValues
  import opened Loader
  import opened Widgets
  import opened Ui
  import opened Events
  import opened Windows
  import opened Executor

  /** Dialog text when something is typed but no application was detected. */
  const NoAppMessage: string := "No hotkeys found for this application"

  /** The placeholder the list shows when a search change finds nothing. */
  function Placeholder(searchText: string): (p: string)
    ensures searchText != [] ==> p == "No matching hotkeys found"
    ensures searchText == [] ==> p == "No hotkeys available"
  {
    if searchText != [] then "No matching hotkeys found" else "No hotkeys available"
  }

  /** Dialog text when the detected application has no catalog entries. */
  function NoHotkeysMessage(app: string): string {
    "No hotkeys found for \"" + app + "\""
  }

  /** What a search change lists for an application whose catalog file yields `catalog`: all of
      it for an empty text, the name search otherwise. */
  function Found(catalog: seq<Json>, searchText: string): seq<Json> {
    if searchText == [] then catalog else SearchResult(catalog, searchText)
  }

  /** Every entry a search change lists comes from the catalog. */
  lemma FoundFromCatalog(catalog: seq<Json>, searchText: string)
    ensures forall e :: e in Found(catalog, searchText) ==> e in catalog
  {
    if searchText != [] && catalog != [] {
      NameFilterSpec(catalog, Strings.Lower(searchText));
    }
  }

  class SearchManager {
    const loader: HotkeyLoader
    const fs: FileSystem
    const ui: UiManager
    const events: EventManager
    const windows: WindowManager
    const devices: InputDevices
    var currentResults: seq<Json>
    /** Messages of the dialogs shown so far. */
    var dialogs: seq<string>

    /** The event manager navigates the list the UI manager fills. */
    ghost predicate Wired()
      reads this, ui, events
    {
      events.listbox == ui.listbox && events.entry == ui.entry
    }

    constructor (loader: HotkeyLoader, fs: FileSystem, ui: UiManager, events: EventManager,
                 windows: WindowManager, devices: InputDevices)
      ensures this.loader == loader && this.fs == fs && this.ui == ui && this.events == events
      ensures this.windows == windows && this.devices == devices
      ensures currentResults == [] && dialogs == []
    {
      this.loader, this.fs, this.ui, this.events := loader, fs, ui, events;
      this.windows, this.devices := windows, devices;
      currentResults, dialogs := [], [];
    }

    /** The cache and the disk-access log after one `get_hotkeys_for_app(app)`. */
    twostate predicate LookedUp(app: string)
      reads loader, fs
    {
      loader.hotkeyCache == CacheAfter(old(loader.hotkeyCache), fs.files, loader.dataDir, app)
      && fs.accessed == AccessedAfter(old(loader.hotkeyCache), old(fs.accessed), loader.dataDir, app)
    }

    /** The list after `update_results` raised on the current results: the lines rendered before
        the failing entry, nothing greyed or selected, and the list height, the window size and
        the selection index as they were. */
    twostate predicate RefillRaised()
      reads this, ui.listbox, ui.window, events
    {
      ui.listbox.items == Rendered(currentResults) && ui.listbox.muted == {} && ui.listbox.selection == {}
      && ui.listbox.seen == old(ui.listbox.seen) && ui.listbox.height == old(ui.listbox.height)
      && ui.window.width == old(ui.window.width) && ui.window.height == old(ui.window.height)
      && events.selectedIndex == old(events.selectedIndex)
    }

    /** The window keeps its place, whether it is mapped and whether it holds the focus. */
    twostate predicate WindowKept()
      reads ui.window
    {
      ui.window.x == old(ui.window.x) && ui.window.y == old(ui.window.y)
      && ui.window.visible == old(ui.window.visible) && ui.window.focused == old(ui.window.focused)
    }

    /** `on_search_change()`, run on every write to the search text. With an application, the
        results are its catalog or the name search over it; without one they are empty, and a
        dialog reports it when something was typed. The list is refilled with the placeholder
        matching the text, and the selection goes back to the first line. An entry without a
        `name` raises inside the refill, which skips the selection reset. */
    method OnSearchChange()
      requires Wired()
      modifies this, loader, fs, ui.listbox, ui.window, events
      ensures Truthy(windows.currentApp) && old(loader.CacheAgrees(fs)) ==>
        currentResults == Found(Fetch(StateOf(fs.files, JsonPath(loader.dataDir, windows.currentApp.value))).returned, ui.entry.text)
      ensures Truthy(windows.currentApp) && ui.entry.text == [] && windows.currentApp.value in old(loader.hotkeyCache) ==>
        currentResults == old(loader.hotkeyCache)[windows.currentApp.value]
      ensures !Truthy(windows.currentApp) ==> currentResults == []
      ensures dialogs == old(dialogs) + (if !Truthy(windows.currentApp) && ui.entry.text != [] then [NoAppMessage] else [])
      ensures currentResults == [] ==> ui.listbox.items == [Placeholder(ui.entry.text)]
      ensures currentResults != [] ==> ui.listbox.items == Rendered(currentResults)
      ensures Renderable(currentResults) ==> events.selectedIndex == 0 && events.InRange()
      ensures Renderable(currentResults) ==>
        ui.Shows(currentResults, Placeholder(ui.entry.text)) && ui.listbox.selection == {0} && ui.listbox.seen == 0
      ensures !Renderable(currentResults) ==> RefillRaised()
      ensures WindowKept()
      ensures events.requests == old(events.requests)
      ensures Truthy(windows.currentApp) ==> LookedUp(windows.currentApp.value)
      ensures !Truthy(windows.currentApp) ==> loader.hotkeyCache == old(loader.hotkeyCache) && fs.accessed == old(fs.accessed)
      ensures old(loader.CacheAgrees(fs)) ==> loader.CacheAgrees(fs)
    {
      var searchText := ui.entry.text;
      var currentApp := windows.currentApp;
      currentResults := FetchResults(currentApp, searchText);
      if !Truthy(currentApp) && searchText != [] {
        dialogs := dialogs + [NoAppMessage];
      }
      var _ := Refill(Placeholder(searchText));
    }

    /** The results branch of `on_search_change`: the whole catalog of `app` for an empty text,
        the name search over it otherwise, nothing without an application. */
    method FetchResults(app: Option<string>, searchText: string) returns (results: seq<Json>)
      modifies loader, fs
      ensures Truthy(app) && old(loader.CacheAgrees(fs)) ==>
        results == Found(Fetch(StateOf(fs.files, JsonPath(loader.dataDir, app.value))).returned, searchText)
      ensures Truthy(app) && searchText == [] && app.value in old(loader.hotkeyCache) ==>
        results == old(loader.hotkeyCache)[app.value]
      ensures !Truthy(app) ==> results == []
      ensures Truthy(app) ==> LookedUp(app.value)
      ensures !Truthy(app) ==> loader.hotkeyCache == old(loader.hotkeyCache) && fs.accessed == old(fs.accessed)
      ensures old(loader.CacheAgrees(fs)) ==> loader.CacheAgrees(fs)
    {
      if Truthy(app) {
        if searchText == [] {
          results := loader.GetHotkeysForApp(app.value, fs);
        } else {
          results := loader.SearchHotkeys(app.value, searchText, fs);
        }
      } else {
        results := [];
      }
    }

    /** `update_results` on the current results followed by `reset_selection`, as both callers
        do: the results, or the placeholder when there are none, and then the selection reset,
        which a result without a `name` (`ok` false) skips. */
    method Refill(placeholder: string) returns (ok: bool)
      requires Wired()
      modifies ui.listbox, ui.window, events
      ensures ok <==> Renderable(currentResults)
      ensures currentResults == [] ==> ui.listbox.items == [placeholder]
      ensures currentResults != [] ==> ui.listbox.items == Rendered(currentResults)
      ensures ok ==> events.selectedIndex == 0 && events.InRange()
      ensures ok ==> ui.Shows(currentResults, placeholder) && ui.listbox.selection == {0} && ui.listbox.seen == 0
      ensures !ok ==> RefillRaised()
      ensures WindowKept()
      ensures events.requests == old(events.requests)
    {
      ok := ui.UpdateResults(currentResults, placeholder);
      if !ok {
        return;
      }
      if currentResults != [] {
        RenderedLines(currentResults);
      }
      events.ResetSelection();
    }

    /** `show_initial_results()`. Without an application, or when its catalog is empty (reported
        in a dialog), the answer is false. Otherwise the search text is cleared, whose write runs
        `on_search_change` at once, the list is refilled with the whole catalog and the selection
        reset, and the answer is true. A catalog entry without a `name` raises out of the second
        refill. */
    method ShowInitialResults() returns (r: Result<bool>)
      requires Wired()
      modifies this, loader, fs, ui.listbox, ui.window, ui.entry, events
      ensures r == Ok(false) <==> !Truthy(windows.currentApp) || currentResults == []
      ensures Truthy(windows.currentApp) && old(loader.CacheAgrees(fs)) ==>
        currentResults == Fetch(StateOf(fs.files, JsonPath(loader.dataDir, windows.currentApp.value))).returned
      ensures Truthy(windows.currentApp) && currentResults == [] ==>
        dialogs == old(dialogs) + [NoHotkeysMessage(windows.currentApp.value)]
      ensures r.Err? <==> Truthy(windows.currentApp) && currentResults != [] && !Renderable(currentResults)
      ensures r == Ok(true) ==>
        ui.entry.text == [] && ui.listbox.items == Rendered(currentResults)
        && |ui.listbox.items| == |currentResults| && events.selectedIndex == 0
        && dialogs == old(dialogs)
      ensures r == Ok(true) ==>
        ui.entry.cursor == 0 && ui.Shows(currentResults, DefaultPlaceholder)
        && ui.listbox.selection == {0} && ui.listbox.seen == 0
      ensures r.Err? ==>
        ui.entry.text == [] && ui.entry.cursor == 0 && dialogs == old(dialogs) && RefillRaised()
      ensures !Truthy(windows.currentApp) ==> unchanged(this, loader, fs, ui.listbox, ui.entry, ui.window, events)
      ensures r == Ok(false) ==> unchanged(ui.listbox, ui.entry, ui.window, events)
      ensures Truthy(windows.currentApp) ==> LookedUp(windows.currentApp.value)
      ensures WindowKept() && ui.entry.focused == old(ui.entry.focused)
      ensures events.requests == old(events.requests)
      ensures old(loader.CacheAgrees(fs)) ==> loader.CacheAgrees(fs)
    {
      var currentApp := windows.currentApp;
      if !Truthy(currentApp) {
        return Ok(false);
      }
      currentResults := loader.GetHotkeysForApp(currentApp.value, fs);
      if currentResults == [] {
        dialogs := dialogs + [NoHotkeysMessage(currentApp.value)];
        return Ok(false);
      }
      var ok := ClearAndRefill();
      if !ok {
        return Err("KeyError: 'name'");
      }
      RenderedLines(currentResults);
      return Ok(true);
    }

    /** The tail of `show_initial_results` once the catalog is known and cached: clearing the
        search text runs `on_search_change`, which lists the cached catalog again, and the list
        is then refilled with the default placeholder and the selection reset. */
    method ClearAndRefill() returns (ok: bool)
      requires Wired() && Truthy(windows.currentApp) && currentResults != []
      requires windows.currentApp.value in loader.hotkeyCache
      requires loader.hotkeyCache[windows.currentApp.value] == currentResults
      modifies this, loader, fs, ui.listbox, ui.window, ui.entry, events
      ensures currentResults == old(currentResults) && dialogs == old(dialogs)
      ensures ok <==> Renderable(currentResults)
      ensures ok ==> ui.entry.text == [] && ui.listbox.items == Rendered(currentResults) && events.selectedIndex == 0
      ensures ok ==> ui.Shows(currentResults, DefaultPlaceholder) && ui.listbox.selection == {0} && ui.listbox.seen == 0
      ensures !ok ==> RefillRaised()
      ensures ui.entry.text == [] && ui.entry.cursor == 0 && ui.entry.focused == old(ui.entry.focused)
      ensures loader.hotkeyCache == old(loader.hotkeyCache) && fs.accessed == old(fs.accessed)
      ensures WindowKept() && events.requests == old(events.requests)
      ensures old(loader.CacheAgrees(fs)) ==> loader.CacheAgrees(fs)
    {
      ui.ClearSearch();
      OnSearchChange();
      ok := Refill(DefaultPlaceholder);
    }

    /** `execute_selected_hotkey(index)`. An index outside the current results does nothing. For
        an entry with both a `name` and a `hotkey` (the debug line reads them), the window is
        hidden first and the entry is then executed; any other entry raises before either. */
    method ExecuteSelectedHotkey(index: int) returns (executed: bool)
      modifies windows, windows.window, devices
      ensures executed <==>
        0 <= index < |currentResults|
        && HasKey(currentResults[index], "name") && HasKey(currentResults[index], "hotkey")
      ensures executed ==>
        !windows.window.visible && !windows.window.focused && windows.currentApp == None
        && devices.trace == old(devices.trace) + Outcome(currentResults[index], devices.known)
      ensures !executed ==> unchanged(windows, windows.window, devices)
      ensures windows.showing == old(windows.showing) && windows.clearPending == old(windows.clearPending)
        && windows.searchEntry == old(windows.searchEntry)
      ensures windows.window.x == old(windows.window.x) && windows.window.y == old(windows.window.y)
        && windows.window.width == old(windows.window.width) && windows.window.height == old(windows.window.height)
    {
      if 0 <= index < |currentResults| {
        var selectedHotkey := currentResults[index];
        if !(HasKey(selectedHotkey, "name") && HasKey(selectedHotkey, "hotkey")) {
          return false;
        }
        windows.Hide();
        ExecuteHotkey(selectedHotkey, devices);
        return true;
      }
      return false;
    }

    method GetCurrentResults() returns (results: seq<Json>)
      ensures results == currentResults
    {
      results := currentResults;
    }
  }
}
