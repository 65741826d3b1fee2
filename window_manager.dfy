/** Showing the search window centred on the active application window, hiding it, and the
    guard that keeps a focus loss during showing from hiding it again (src/gui/window_manager.py). */
module Windows {
  import opened Wrappers
  import opened Widgets

  /** The `width` and `height` of the window settings. */
  datatype WindowSettings = WindowSettings(width: int, height: int)

  /** `a + (span - size) // 2`: the origin that centres `size` in `span` starting at `a`. Python's
      floor division by 2 is Dafny's `/`, since the divisor is positive. */
  function Centre(a: int, span: int, size: int): int {
    a + (span - size) / 2
  }

  /** The centred window's middle is the active window's middle, rounded down by half a pixel
      when the two sizes differ in parity. */
  lemma CentreIsCentred(a: int, span: int, size: int)
    ensures 0 <= (2 * a + span) - (2 * Centre(a, span, size) + size) <= 1
  {
  }

  /** The centred window lies inside the active window whenever it fits. */
  lemma CentreFits(a: int, span: int, size: int)
    requires 0 <= size <= span
    ensures a <= Centre(a, span, size) && Centre(a, span, size) + size <= a + span
  {
  }

  /** Python truthiness of the process name `get_active_window_process` returns. */
  predicate Truthy(app: Option<string>) {
    app.Some? && app.value != []
  }

  /** The keys `show` reads from the active window position. */
  predicate HasGeometry(pos: map<string, int>) {
    "x" in pos && "y" in pos && "width" in pos && "height" in pos
  }

  /** The window height `update_size` applies: the requested one, but never below the configured
      one. */
  function SizedHeight(requested: int, configured: int): (h: int)
    ensures h >= requested && h >= configured
    ensures h == requested || h == configured
  {
    if requested > configured then requested else configured
  }

  class WindowManager {
    const window: Window
    const settings: WindowSettings
    var currentApp: Option<string>
    var searchEntry: Entry?
    var showing: bool
    /** A call of `_clear_showing_flag` is scheduled with `after`. */
    var clearPending: bool

    constructor (window: Window, settings: WindowSettings)
      modifies window
      ensures this.window == window && this.settings == settings
      ensures currentApp == None && searchEntry == null && !showing && !clearPending
      ensures window.width == settings.width && window.height == settings.height
    {
      this.window, this.settings := window, settings;
      currentApp, searchEntry, showing, clearPending := None, null, false, false;
      new;
      window.width, window.height := settings.width, settings.height;
    }

    method SetSearchEntry(entry: Entry)
      modifies this
      ensures searchEntry == entry
      ensures currentApp == old(currentApp) && showing == old(showing) && clearPending == old(clearPending)
    {
      searchEntry := entry;
    }

    /** `show()`. `app` and `pos` are what the process manager reports for the foreground window.
        The process name is recorded first, whatever happens next. Without a process, or without
        a position, nothing else changes and the answer is false; a position without one of its
        four keys raises, which withdraws the window. Otherwise the window is placed centred on
        the active one, mapped, focused, and guarded against focus loss until the scheduled
        `_clear_showing_flag` runs. */
    method Show(app: Option<string>, pos: Option<map<string, int>>) returns (shown: bool)
      modifies this, window, searchEntry
      ensures currentApp == app && searchEntry == old(searchEntry)
      ensures shown <==> Truthy(app) && pos.Some? && pos.value != map[] && HasGeometry(pos.value)
      ensures shown ==>
        window.x == Centre(pos.value["x"], pos.value["width"], settings.width)
        && window.y == Centre(pos.value["y"], pos.value["height"], settings.height)
        && window.visible && window.focused && showing && clearPending
        && (searchEntry != null ==> searchEntry.focused)
      ensures !shown ==> showing == old(showing) && clearPending == old(clearPending)
      ensures !shown ==> window.x == old(window.x) && window.y == old(window.y)
      ensures !shown && searchEntry != null ==> searchEntry.focused == old(searchEntry.focused)
      ensures !shown && Truthy(app) && pos.Some? && pos.value != map[] ==> !window.visible && !window.focused
      ensures !shown && !(Truthy(app) && pos.Some? && pos.value != map[]) ==>
        window.visible == old(window.visible) && window.focused == old(window.focused)
      ensures window.width == old(window.width) && window.height == old(window.height)
      ensures searchEntry != null ==> searchEntry.text == old(searchEntry.text) && searchEntry.cursor == old(searchEntry.cursor)
    {
      currentApp := app;
      if !Truthy(app) {
        return false;
      }
      if pos.None? || pos.value == map[] {
        return false;
      }
      var activePos := pos.value;
      if !HasGeometry(activePos) {
        window.visible, window.focused := false, false;
        return false;
      }
      var x := activePos["x"] + (activePos["width"] - settings.width) / 2;
      var y := activePos["y"] + (activePos["height"] - settings.height) / 2;
      window.x, window.y := x, y;
      showing := true;
      window.visible := true;
      window.focused := true;
      if searchEntry != null {
        searchEntry.focused := true;
      }
      clearPending := true;
      shown := true;
    }

    /** `hide()`: withdraw the window, which takes the focus away from it, and forget the
        application. */
    method Hide()
      modifies this, window
      ensures !window.visible && !window.focused && currentApp == None
      ensures showing == old(showing) && clearPending == old(clearPending) && searchEntry == old(searchEntry)
      ensures window.x == old(window.x) && window.y == old(window.y)
      ensures window.width == old(window.width) && window.height == old(window.height)
    {
      window.visible, window.focused := false, false;
      currentApp := None;
    }

    /** `_clear_showing_flag`, run by the timer `show` set. */
    method ClearShowingFlag()
      modifies this
      ensures !showing && !clearPending
      ensures currentApp == old(currentApp) && searchEntry == old(searchEntry)
    {
      showing := false;
      clearPending := false;
    }

    /** `handle_focus_loss()`: ignored while showing, otherwise hides. Always answers `break`. */
    method HandleFocusLoss() returns (r: string)
      modifies this, window
      ensures r == "break"
      ensures old(showing) ==>
        window.visible == old(window.visible) && window.focused == old(window.focused) && currentApp == old(currentApp)
      ensures !old(showing) ==> !window.visible && !window.focused && currentApp == None
      ensures showing == old(showing) && clearPending == old(clearPending) && searchEntry == old(searchEntry)
      ensures window.x == old(window.x) && window.y == old(window.y)
      ensures window.width == old(window.width) && window.height == old(window.height)
    {
      if showing {
        return "break";
      }
      Hide();
      return "break";
    }

    method GetCurrentApp() returns (app: Option<string>)
      ensures app == currentApp
    {
      app := currentApp;
    }

    /** `update_size(height)`: the configured width, and the larger of the two heights. */
    method UpdateSize(height: int)
      modifies window
      ensures window.width == settings.width
      ensures window.height == SizedHeight(height, settings.height)
      ensures window.x == old(window.x) && window.y == old(window.y) && window.visible == old(window.visible)
      ensures window.focused == old(window.focused)
    {
      if height > settings.height {
        window.width, window.height := settings.width, height;
      } else {
        window.width, window.height := settings.width, settings.height;
      }
    }
  }

  /** A focus loss right after a successful `show` never hides the window: it stays mapped and
      keeps its application until the scheduled flag reset has run. */
  method ShowThenLoseFocus(wm: WindowManager, app: string, pos: map<string, int>)
    returns (visible: bool, appKept: Option<string>)
    requires app != [] && pos != map[] && HasGeometry(pos)
    modifies wm, wm.window, wm.searchEntry
    ensures visible && appKept == Some(app)
  {
    var shown := wm.Show(Some(app), Some(pos));
    var _ := wm.HandleFocusLoss();
    visible := wm.window.visible;
    appKept := wm.currentApp;
  }
}
