/** The Tk widgets the GUI managers drive, reduced to the state those managers read and write
    (src/gui/ui_manager.py, src/gui/window_manager.py, src/gui/event_manager.py). */
module Widgets {

  /** The results listbox: its lines, the lines greyed out, the selected rows, the row last
      scrolled into view and its height in rows. */
  class Listbox {
    var items: seq<string>
    var muted: set<int>
    var selection: set<int>
    var seen: int
    var height: int

    constructor ()
      ensures items == [] && muted == {} && selection == {} && seen == 0 && height == 0
    {
      items, muted, selection, seen, height := [], {}, {}, 0, 0;
    }
  }

  /** The search entry: the text of its `StringVar`, its insertion cursor and whether it holds
      the keyboard focus. */
  class Entry {
    var text: string
    var cursor: int
    var focused: bool

    constructor ()
      ensures text == [] && cursor == 0 && !focused
    {
      text, cursor, focused := [], 0, false;
    }
  }

  /** The top-level window: its geometry, whether it is mapped, and whether it holds the focus
      (a withdrawn window does not). */
  class Window {
    var width: int
    var height: int
    var x: int
    var y: int
    var visible: bool
    var focused: bool

    constructor (width: int, height: int)
      ensures this.width == width && this.height == height && x == 0 && y == 0 && !visible && !focused
    {
      this.width, this.height, x, y, visible, focused := width, height, 0, 0, false, false;
    }
  }
}
