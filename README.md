# FastHotkeyExecuter in Dafny

FastHotkeyExecuter is a Windows launcher. Its search window lists the keyboard shortcuts stored for
the application in the foreground. The user picks one, and the program replays it as synthetic
keyboard and mouse input. A companion importer builds the per-application shortcut catalogs from
web pages. This project models the logic of both parts and proves what it does:

- **Replaying a combo** (`Executor`). A combo such as `ctrl+shift+p` or `ctrl+wheelup` becomes an
  ordered trace of `Press`, `Release`, `Wheel` and `Delay` events. The modifiers are pressed left to
  right. Then the final key is pressed and released, or one wheel tick is sent. Then the modifiers
  are released right to left. An input call that raises stops the replay; the exception is
  swallowed, and keys already pressed stay held.
- **Registering global hotkeys** (`HotkeyRegistry`). `_map_hotkey` normalises a combo: the `++`
  literal-plus case, the alias rewrite and the dropping of empty tokens. `register_hotkey` keeps the
  handler and callback dictionaries.
- **Key tables** (`KeyAliases`). The alias map and the valid-key set, as constants.
- **Catalog cache and search** (`Loader`). Catalogs are memoised per application; the name search is
  case-insensitive and keeps the matching entries in catalog order.
- **The search window** (`Events`, `Search`, `Windows`, `Ui`, `InternalCommands`, with the Tk widgets
  reduced to their state in `Widgets`):
  - selection clamping;
  - the choice between results and placeholder;
  - window centring and the focus-loss guard;
  - listbox lines and window heights;
  - the built-in `exit` command.
- **The importer's string cleaners** (`Prompts`, `JsonWriter`, `StringUtils`, `ContentCleaner`,
  `FileUtils`):
  - `clean_hotkey` and the extraction prompt;
  - file-name cleaning, entry validation and the saved document;
  - `trim_string` and the empty-text guard of `detect_language`;
  - line normalisation of extracted page text and the `save_html` file name;
  - the MIME-type predicates and the base-path state.

Two shared modules define the Python built-ins the source relies on:
- `Strings`: `str.isspace`, ASCII `lower`, `strip`, `split`, `join`, `in`, `replace` and
  `startswith`.
- `JsonValues`: decoded JSON values, with the subscripts that raise on a missing key.

Each operation that changes state step by step is a method, proved against a specification function.
That covers the executor's loops, the loader's cache and filter loop, the event handlers, the window
and UI managers, the validation loop and `clean_hotkey`. The remaining pure operations are functions,
and lemmas relate them to each other.

Behaviour kept as the code has it:
- `"ctrl++"` makes the executor press `ctrl` and then fail on an empty key name, so `ctrl` stays
  held (`Executor.TrailingPlusPlusLeavesModifierHeld`).
- The `numpad+` rewrite in `_map_hotkey` can never fire (`HotkeyRegistry.NumpadPlusUnreachable`).
- `ctrl` is an alias target that the valid-key set does not list (`KeyAliases.AliasTargets`).

## Model

| member | source | states |
|---|---|---|
| Executor.InputDevices.Press | src/hotkeys/hotkey_executor.py:29 | `keyboard.press(key)`: the press is recorded exactly when the key is known to the input library; otherwise the call raises and nothing is recorded |
| Executor.InputDevices.Release | src/hotkeys/hotkey_executor.py:40 | `keyboard.release(key)`: recorded exactly when the key is known, otherwise raises with nothing recorded |
| Executor.InputDevices.Wheel | src/hotkeys/hotkey_executor.py:35 | `mouse.wheel(delta)` appends one wheel event of that delta |
| Executor.InputDevices.Sleep | src/hotkeys/hotkey_executor.py:32 | `time.sleep` appends one delay marker of that length |
| Executor.KeysShape | src/hotkeys/hotkey_executor.py:17-22 | the combo is lower-cased, cut at every `+` and each piece stripped: one key per piece, each stripped, lower-case and free of `+`, and the pieces join back to the lower-cased combo |
| Executor.LowerSplit | src/hotkeys/hotkey_executor.py:17-21 | lower-casing never changes the number of `+`-separated pieces |
| Executor.TrailingPlusPlusKeys | src/hotkeys/hotkey_executor.py:21-22 | `++` is not special-cased: `w++` yields `[w, "", ""]` |
| Executor.StripAll | src/hotkeys/hotkey_executor.py:22 | the list comprehension strips every piece and keeps their number and order |
| Executor.StripAllIdentity | src/hotkeys/hotkey_executor.py:22 | pieces that are already stripped come back unchanged |
| Executor.PressAll | src/hotkeys/hotkey_executor.py:29-32 | a press and a delay per modifier: twice as many events as modifiers |
| Executor.ReleaseReversed | src/hotkeys/hotkey_executor.py:39-41 | a release and a delay per modifier: twice as many events as modifiers |
| Executor.ExecuteHotkey | src/hotkeys/hotkey_executor.py:13-63 | `execute_hotkey` never raises, and the devices see exactly the planned events of the lower-cased, split and stripped combo, cut at the first call that raises (nothing when `hotkey_data['hotkey']` is not a string) |
| Executor.ReplayKeys | src/hotkeys/hotkey_executor.py:25-58 | once the keys are known, the trace grows by the plan up to the first call that raises |
| Executor.PerformFinalKey | src/hotkeys/hotkey_executor.py:35-53 | the wheel tick and its delay, or the final key's press, delay and release; stops at the first call that raises and reports whether all went through |
| Executor.PressModifiers | src/hotkeys/hotkey_executor.py:28-48 | the press loop: the trace grows by the presses up to the first that raises; when none raises, `modifiers` holds exactly the keys pressed, in order |
| Executor.ReleaseModifiers | src/hotkeys/hotkey_executor.py:39-58 | the release loop over `reversed(modifiers)`, cut at the first release that raises |
| Executor.FinalKeyShape | src/hotkeys/hotkey_executor.py:51-53 | a final key that is not a wheel action is pressed, held for one delay and released |
| Executor.PressStep | src/hotkeys/hotkey_executor.py:28-32 | one turn of the press loop adds exactly one press and one delay, and the rest of the plan follows it |
| Executor.ReleaseStep | src/hotkeys/hotkey_executor.py:39-41 | one turn of the release loop, walking the modifiers from the right, adds exactly one release and one delay |
| Executor.ReleaseSplit | src/hotkeys/hotkey_executor.py:39-41 | the releases of a suffix of the modifiers come before those of the prefix |
| Executor.PressAllAppend | src/hotkeys/hotkey_executor.py:28-32 | pressing a concatenation presses the first part, then the second |
| Executor.ReleaseReversedAppend | src/hotkeys/hotkey_executor.py:39-41 | releasing a concatenation in reverse releases the second part first |
| Executor.ExecutedAll | src/hotkeys/hotkey_executor.py:13-63 | when no call raises, the whole plan happens |
| Executor.ExecutedAppend | src/hotkeys/hotkey_executor.py:13-63 | a part that goes through entirely is kept, and the cut continues in what follows |
| Executor.ExecutedFailsAt | src/hotkeys/hotkey_executor.py:62-63 | a call that raises after calls that went through: exactly those earlier calls happen |
| Executor.ExecutedPrefixFails | src/hotkeys/hotkey_executor.py:62-63 | once a call raises, nothing later happens |
| Executor.ExecutedIsCutAtFirstFailure | src/hotkeys/hotkey_executor.py:14-63 | what happens is a prefix of the plan in which every call went through; it ends at the end of the plan or just before a call that raises, and it is the whole plan exactly when no call raises |
| Executor.PressAllAt | src/hotkeys/hotkey_executor.py:28-32 | the i-th modifier's press is at position 2i and is followed by a delay |
| Executor.ReleaseReversedAt | src/hotkeys/hotkey_executor.py:39-41 | the j-th release is of the j-th modifier from the right, followed by a delay |
| Executor.PlanPresses | src/hotkeys/hotkey_executor.py:28-48 | the plan opens with a press and a delay per modifier, left to right |
| Executor.PlanFinal | src/hotkeys/hotkey_executor.py:35-53 | after the presses comes the final key's part, and the plan's length is accounted for exactly |
| Executor.PlanReleases | src/hotkeys/hotkey_executor.py:39-58 | the plan closes with a release and a delay per modifier, right to left |
| Executor.WheelPlan | src/hotkeys/hotkey_executor.py:8-41 | for a `wheelup`/`wheeldown` final token: presses left to right, each with a delay; one wheel tick of +1 or -1 and a delay; releases right to left, each with a delay |
| Executor.KeyPlan | src/hotkeys/hotkey_executor.py:42-58 | for any other final token: presses left to right; the final key pressed, a delay, the final key released; then the releases right to left, with a delay after every modifier press and release |
| Executor.SingleTokenPlan | src/hotkeys/hotkey_executor.py:29-53 | a lone key gives exactly press, delay, release; a lone wheel token gives one tick and a delay |
| Executor.PressedAppend | src/hotkeys/hotkey_executor.py:29-40 | the pressed and the released keys of a concatenated trace are those of each part, in order |
| Executor.PressAllKeys | src/hotkeys/hotkey_executor.py:28-32 | the press loop presses exactly the modifiers, in order, and releases nothing |
| Executor.ReleaseReversedKeys | src/hotkeys/hotkey_executor.py:39-41 | the release loop releases exactly the modifiers, reversed, and presses nothing |
| Executor.FinalKeyKeys | src/hotkeys/hotkey_executor.py:35-53 | the final part presses and releases the final key once, or nothing for a wheel action |
| Executor.PlanKeys | src/hotkeys/hotkey_executor.py:28-58 | the plan presses the modifiers in order and then the final key; it releases the final key and then the modifiers in reverse order |
| Executor.ReleasesMirrorPresses | src/hotkeys/hotkey_executor.py:29-58 | on normal completion every pressed key is released exactly once, and the releases are the presses in reverse order |
| Executor.ReverseAppend | src/hotkeys/hotkey_executor.py:39 | `reversed` of a concatenation reverses the parts and swaps them |
| Executor.ReverseMultiset | src/hotkeys/hotkey_executor.py:39 | `reversed` keeps every key, as often as it occurs |
| Executor.TrailingPlusPlusLeavesModifierHeld | src/hotkeys/hotkey_executor.py:21-63 | `w++` as written: `w` is pressed and held for a delay, pressing the empty key name raises, and the handler returns with `w` still held |
| Executor.PressFailsOnEmptyKey | src/hotkeys/hotkey_executor.py:29-63 | a plan whose second key cannot be pressed stops after the first press and its delay |
| Executor.NoHotkeyNoInput | src/hotkeys/hotkey_executor.py:17-63 | an entry without a string `hotkey` produces no input at all |
| HotkeyRegistry.NormTokens | src/hotkeys/hotkey_manager.py:60 | one normalised token per piece, in order |
| HotkeyRegistry.NonEmpty | src/hotkeys/hotkey_manager.py:67 | the filter never lengthens the list |
| HotkeyRegistry.AliasAll | src/hotkeys/hotkey_manager.py:63-66 | the rewrite is applied to every token, keeping their number and order |
| HotkeyRegistry.NormTokenShape | src/hotkeys/hotkey_manager.py:60 | a normalised token has no surrounding whitespace and no upper-case letter |
| HotkeyRegistry.NormTokenIdentity | src/hotkeys/hotkey_manager.py:60 | a stripped, lower-case token is left as it is |
| HotkeyRegistry.NormTokenNoPlus | src/hotkeys/hotkey_manager.py:60 | normalising never introduces a `+` |
| HotkeyRegistry.NonEmptyMembers | src/hotkeys/hotkey_manager.py:67 | the filter keeps exactly the non-empty tokens |
| HotkeyRegistry.NonEmptyAppend | src/hotkeys/hotkey_manager.py:67 | the filter keeps the order of what it keeps |
| HotkeyRegistry.NonEmptyIdentity | src/hotkeys/hotkey_manager.py:67 | tokens that are all non-empty pass unchanged |
| HotkeyRegistry.AliasTokenAgreesWithTable | src/hotkeys/hotkey_manager.py:63-66 | exactly `command`, `control`, `numpad+` and `numpad-` are rewritten, each to its entry in the alias table; every other token keeps its text |
| HotkeyRegistry.OtherAliasesNotApplied | src/hotkeys/hotkey_manager.py:63-66 | the table's other aliases (`plus`, `pgup`, `pgdn`, `pgdown`) are not applied when registering |
| HotkeyRegistry.KeptTokens | src/hotkeys/hotkey_manager.py:60-67 | every token that survives the filter is non-empty, stripped, lower-case and free of `+` |
| HotkeyRegistry.NumpadPlusUnreachable | src/hotkeys/hotkey_manager.py:60-65 | the `numpad+` rewrite never fires, since the tokens come from splitting at `+` |
| HotkeyRegistry.MappedTokensShape | src/hotkeys/hotkey_manager.py:60-70 | without `++` every output token is non-empty, stripped, lower-case, free of `+` and not a rewritten name, and splitting the joined result at `+` gives the tokens back |
| HotkeyRegistry.AliasTokenShape | src/hotkeys/hotkey_manager.py:63-66 | the rewrite keeps a token's shape and never yields a name it rewrites |
| HotkeyRegistry.PlusPlusCase | src/hotkeys/hotkey_manager.py:53-57 | with `++`, the tokens before the first `++` are normalised without any alias rewrite and `++` is appended; text after it is dropped |
| HotkeyRegistry.KeyPlusPlus | src/hotkeys/hotkey_manager.py:53-57 | a single key before `++` maps to its normalised name and `++`, whatever follows (`Ctrl++` becomes `ctrl++`) |
| HotkeyRegistry.JoinNoDoublePlus | src/hotkeys/hotkey_manager.py:70 | joining non-empty tokens without `+` never puts two `+` side by side |
| HotkeyRegistry.MapHotkeyIdempotent | src/hotkeys/hotkey_manager.py:60-70 | mapping a combo without `++` a second time changes nothing |
| HotkeyRegistry.MappedTokensFixed | src/hotkeys/hotkey_manager.py:60-70 | tokens of the shape `_map_hotkey` produces come back unchanged from a second pass |
| HotkeyRegistry.RetokeniseFixed | src/hotkeys/hotkey_manager.py:60-68 | normalising, filtering and rewriting such tokens again is the identity |
| HotkeyRegistry.EmptyMapsToEmpty | src/hotkeys/hotkey_manager.py:60-70 | the empty combo maps to the empty combo |
| HotkeyRegistry.HotkeyManager.constructor | src/hotkeys/hotkey_manager.py:14-17 | both dictionaries start empty |
| HotkeyRegistry.HotkeyManager.RegisterHotkey | src/hotkeys/hotkey_manager.py:19-40 | the handler, built from the mapped combo, and the callback are stored under the original combo, replacing an earlier entry; when the library raises, the error is swallowed and neither dictionary changes; both dictionaries always hold the same combos |
| KeyAliases.CtrlAliases | src/hotkeys/key_aliases.py:5-6 | exactly `command` and `control` alias to `ctrl` |
| KeyAliases.NavigationAliases | src/hotkeys/key_aliases.py:9-18 | `pgup` aliases to `pageup`; `pgdn` and `pgdown` to `pagedown`; `plus` and `numpad+` to `+`; `numpad-` to `-` |
| KeyAliases.LettersAndDigitsValid | src/hotkeys/key_aliases.py:30-33 | every letter `a`..`z` and every digit `0`..`9` is a valid key |
| KeyAliases.NamedKeysNotFunctionKeys | src/hotkeys/key_aliases.py:22-27 | no named key is a name of two or more characters starting with `f` |
| KeyAliases.FunctionKeysValid | src/hotkeys/key_aliases.py:36 | `f<i>` is valid exactly for `i` from 1 to 12 |
| KeyAliases.NoF13 | src/hotkeys/key_aliases.py:36 | `f13` is not a valid key |
| KeyAliases.AliasTargets | src/hotkeys/key_aliases.py:3-27 | every alias target is valid except `ctrl`, which the valid set does not list |
| KeyAliases.LongNamesOutsideRanges | src/hotkeys/key_aliases.py:22-36 | a name of two or more characters not starting with `f` is valid exactly when it is listed by name |
| KeyAliases.Decimal | src/hotkeys/key_aliases.py:36 | `str(i)` is non-empty, one digit exactly below 10, and ends in the last digit |
| KeyAliases.DecimalInjective | src/hotkeys/key_aliases.py:36 | different numbers have different decimal spellings |
| Loader.FileSystem.Load | src/data/hotkey_loader.py:21-32 | a look-up of the catalog file yields its state and is recorded as one disk access |
| Loader.Fetch | src/data/hotkey_loader.py:21-40 | a missing file or a decode error caches and returns `[]`; a parsed list is cached and returned as is; any other error returns `[]` without caching |
| Loader.HotkeyLoader.constructor | src/data/hotkey_loader.py:5-8 | the cache starts empty |
| Loader.HotkeyLoader.GetHotkeysForApp | src/data/hotkey_loader.py:10-40 | a cached name is answered from the cache without disk access; otherwise the file is read once and the outcome cached as `Fetch` says; the cache always agrees with the disk |
| Loader.HotkeyLoader.SearchHotkeys | src/data/hotkey_loader.py:42-64 | the result is the name filter applied to what `get_hotkeys_for_app` yields; a cached application leaves the cache and the disk untouched, an uncached one reads its file once and caches the outcome as `get_hotkeys_for_app` does |
| Loader.FilterEntries | src/data/hotkey_loader.py:51-57 | the filter loop computes exactly the name filter, raising on an entry without a string name |
| Loader.NameFilterExtend | src/data/hotkey_loader.py:54-57 | once an entry without a string name is reached, the loop raises whatever follows |
| Loader.NameFilterSpec | src/data/hotkey_loader.py:51-57 | the filter raises exactly when some entry lacks a string name; otherwise it keeps exactly the entries whose lower-cased name contains the lower-cased text, no more often than they occur |
| Loader.Keep | src/data/hotkey_loader.py:51-57 | the entries kept from the front are named matching entries of the catalog, never more than the catalog holds |
| Loader.KeepSnoc | src/data/hotkey_loader.py:51-57 | extending the catalog by one entry extends what is kept by that entry exactly when it matches |
| Loader.NameFilterKeeps | src/data/hotkey_loader.py:51-57 | when every entry is named, the loop's result is the matching entries in catalog order, each as often as it occurs |
| Loader.EmptyQueryKeepsAll | src/data/hotkey_loader.py:54-57 | an empty query keeps every entry |
| Loader.SearchEmptyText | src/data/hotkey_loader.py:47-56 | with an empty search text the whole catalog comes back |
| Loader.CachedTwice | src/data/hotkey_loader.py:14-32 | a second look-up after a successful first one gives the same list with no further disk access |
| InternalCommands.Commands | src/gui/internal_command_manager.py:3-8 | one command, named `exit - quit`, with command `exit` |
| InternalCommands.Matching | src/gui/internal_command_manager.py:15-19 | the comprehension never lengthens the list |
| InternalCommands.MatchingMembers | src/gui/internal_command_manager.py:15-19 | a command is kept exactly when its lower-cased name contains the query; nothing outside the table is returned |
| InternalCommands.SearchCommandsShape | src/gui/internal_command_manager.py:10-19 | the result is the whole table or nothing; the whole table exactly when the text is empty or the lower-cased name contains the lower-cased text |
| InternalCommands.ExecuteCommand | src/gui/internal_command_manager.py:21-25 | `exit` exactly when the `command` field is the string `exit`, `None` for any other value, an error when the key is missing |
| InternalCommands.ListedCommandsExit | src/gui/internal_command_manager.py:10-25 | every listed command executes to `exit` |
| Events.MovesStayInRange | src/gui/event_manager.py:58-86 | every move keeps a valid index valid and never passes the first or last line |
| Events.UpDownInverse | src/gui/event_manager.py:58-71 | one step down undoes one step up away from the top, and the other way round away from the bottom |
| Events.PagingDownReachesEnd | src/gui/event_manager.py:80-86 | repeated paging down reaches the last line once the presses cover the distance |
| Events.StaysAtEnd | src/gui/event_manager.py:65-86 | at the last line, moving down stays there |
| Events.PagingUpReachesTop | src/gui/event_manager.py:73-78 | repeated paging up reaches the first line once the presses cover the distance |
| Events.StaysAtTop | src/gui/event_manager.py:58-78 | at the first line, moving up stays there |
| Events.WheelTarget | src/gui/event_manager.py:153-170 | a wheel event keeps the index in range, moving it down for button 5 or a negative delta and up otherwise |
| Events.EventManager.constructor | src/gui/event_manager.py:4-11 | the selection starts at 0 |
| Events.EventManager.UpdateSelection | src/gui/event_manager.py:172-176 | exactly the current line is selected and scrolled into view; the lines are untouched |
| Events.EventManager.HandleEnter | src/gui/event_manager.py:48-51 | the current index is handed to the selection callback |
| Events.EventManager.HandleEscape | src/gui/event_manager.py:53-56 | the window is asked to hide |
| Events.EventManager.MoveUp | src/gui/event_manager.py:58-78 | the index moves up by the step, clamped at 0, unchanged on an empty list; the list's lines are untouched and a valid index stays valid |
| Events.EventManager.MoveDown | src/gui/event_manager.py:65-86 | the index moves down by the step, clamped at the last line, unchanged on an empty list |
| Events.EventManager.HandleUp | src/gui/event_manager.py:58-63 | one line up, clamped at the top; on a non-empty list the listbox selects and shows exactly that line, on an empty one its selection is unchanged |
| Events.EventManager.HandleDown | src/gui/event_manager.py:65-71 | one line down, clamped at the bottom; the listbox selects and shows the new line when it has lines |
| Events.EventManager.HandlePageUp | src/gui/event_manager.py:73-78 | five lines up, clamped; the listbox selects and shows the new line when it has lines |
| Events.EventManager.HandlePageDown | src/gui/event_manager.py:80-86 | five lines down, clamped; the listbox selects and shows the new line when it has lines |
| Events.EventManager.HandleCtrlUp | src/gui/event_manager.py:88-93 | the same move as Up, the listbox selecting the new line, and the entry's cursor, text and focus unchanged |
| Events.EventManager.HandleCtrlDown | src/gui/event_manager.py:95-100 | the same move as Down, the listbox selecting the new line, and the entry's cursor, text and focus unchanged |
| Events.EventManager.HandleCtrlPageUp | src/gui/event_manager.py:102-107 | the same move as PageUp, the listbox selecting the new line, and the entry's cursor, text and focus unchanged |
| Events.EventManager.HandleCtrlPageDown | src/gui/event_manager.py:109-114 | the same move as PageDown, the listbox selecting the new line, and the entry's cursor, text and focus unchanged |
| Events.EventManager.HandleHome | src/gui/event_manager.py:116-123 | the first line when there is one, otherwise unchanged |
| Events.EventManager.HandleEnd | src/gui/event_manager.py:125-132 | the last line when there is one, otherwise unchanged |
| Events.EventManager.HandleListboxClick | src/gui/event_manager.py:134-142 | a line of the list under the pointer becomes the selection and the entry takes the focus back; a point outside the list leaves the index, the focus and the listbox's selection as they were |
| Events.EventManager.HandleListboxDoubleClick | src/gui/event_manager.py:144-151 | a line of the list becomes the selection and is handed to the selection callback; otherwise nothing happens |
| Events.EventManager.HandleMouseWheel | src/gui/event_manager.py:153-170 | the index moves as `WheelTarget` says: a step, or a page with Control held; the listbox selects and shows the new line, and the entry takes the focus back |
| Events.EventManager.ResetSelection | src/gui/event_manager.py:178-182 | the index becomes 0 whatever the list holds; a list with lines selects and shows line 0, an empty one keeps its selection and scroll position; the lines, greyed rows and height stay |
| Events.EventManager.GetSelectedIndex | src/gui/event_manager.py:184-186 | the current index |
| Search.Placeholder | src/gui/search_manager.py:38-41 | `No matching hotkeys found` exactly for a non-empty search text, `No hotkeys available` otherwise |
| Search.FoundFromCatalog | src/gui/search_manager.py:22-26 | every entry a search change lists comes from the application's catalog |
| Search.SearchManager.constructor | src/gui/search_manager.py:2-8 | the results start empty |
| Search.SearchManager.OnSearchChange | src/gui/search_manager.py:13-44 | with an application, the results are its catalog for an empty text and the name search otherwise, and the cache and disk-access log change as one lookup does; without one the results are empty, the cache and log stay, and a dialog is shown only for a non-empty text; when every result renders, the list shows them or the placeholder with its height and the window size, and line 0 is selected; otherwise the lines before the failing entry are listed and sizes and selection stay; the window keeps its place, mapping and focus |
| Search.SearchManager.FetchResults | src/gui/search_manager.py:18-30 | the results branch: catalog, name search, or nothing without an application; with one, the cache and access log change as one lookup does, without one they stay |
| Search.SearchManager.Refill | src/gui/search_manager.py:38-44 | the list shows the results, or the placeholder when there are none, with its height, the window size and line 0 selected; when an entry raises, the lines before it are listed and the sizes and selection stay; the window keeps its place, mapping and focus |
| Search.SearchManager.ShowInitialResults | src/gui/search_manager.py:46-66 | without an application nothing changes at all; with an empty catalog (reported in a dialog naming the application) the widgets stay and the answer is false; otherwise the search text is cleared with the cursor at 0, the catalog listed with its sizes, line 0 selected, and the answer true; the cache and access log change as one lookup does |
| Search.SearchManager.ClearAndRefill | src/gui/search_manager.py:62-65 | clearing the search text lists the cached catalog again with its sizes and selects line 0, without touching the cache or the disk |
| Search.SearchManager.ExecuteSelectedHotkey | src/gui/search_manager.py:68-74 | an index outside the results, or an entry missing `name` or `hotkey`, changes nothing; otherwise the window ends withdrawn and unfocused with no current application, and the input trace gains exactly the replay of the chosen entry; the showing flags, the entry and the geometry stay |
| Search.SearchManager.GetCurrentResults | src/gui/search_manager.py:76-78 | the current results |
| Windows.CentreIsCentred | src/gui/window_manager.py:52-53 | the centred window's middle is the active window's middle, within half a pixel |
| Windows.CentreFits | src/gui/window_manager.py:52-53 | the centred window lies inside the active window whenever it fits |
| Windows.SizedHeight | src/gui/window_manager.py:101-104 | the applied height is the larger of the requested and the configured one |
| Windows.WindowManager.constructor | src/gui/window_manager.py:5-29 | no application and not showing; the window gets the configured size |
| Windows.WindowManager.SetSearchEntry | src/gui/window_manager.py:31-33 | the entry is recorded and nothing else changes |
| Windows.WindowManager.Show | src/gui/window_manager.py:35-73 | the detected process is recorded first; the answer is true exactly with a process and a position; then the window is centred, shown and focused and the showing flag set; an error in the position withdraws the window; on a false answer the place, the flags and the entry's focus stay |
| Windows.WindowManager.Hide | src/gui/window_manager.py:75-80 | the window is withdrawn, loses the focus, and the application is forgotten; flags and geometry stay |
| Windows.WindowManager.ClearShowingFlag | src/gui/window_manager.py:82-84 | the showing flag is cleared |
| Windows.WindowManager.HandleFocusLoss | src/gui/window_manager.py:86-91 | ignored while showing, otherwise hides; flags and geometry stay; always answers `break` |
| Windows.WindowManager.GetCurrentApp | src/gui/window_manager.py:93-95 | the current application |
| Windows.WindowManager.UpdateSize | src/gui/window_manager.py:97-104 | the configured width, and the larger of the two heights; place, mapping and focus stay |
| Windows.ShowThenLoseFocus | src/gui/window_manager.py:58-89 | a focus loss right after a successful show never hides the window or forgets the application |
| Ui.Line | src/gui/ui_manager.py:64-67 | a line exists exactly for a result with a `name` |
| Ui.LineShape | src/gui/ui_manager.py:64-67 | a line starts with the name; with a `hotkey` it is longer and ends in `)`, without one it is the name alone |
| Ui.RenderedLines | src/gui/ui_manager.py:62-67 | one line per result, in order |
| Ui.RenderedStops | src/gui/ui_manager.py:62-67 | once a result cannot be rendered, nothing after it is inserted |
| Ui.ListHeight | src/gui/ui_manager.py:68 | between 1 and 5 rows and no more than the results; exactly their number up to 5 |
| Ui.UiManager.constructor | src/gui/ui_manager.py:5-13 | the widgets and the base height are recorded |
| Ui.UiManager.UpdateResults | src/gui/ui_manager.py:57-78 | the listbox is emptied and gets one line per result, at most five rows shown and the window 20 pixels taller per row; with no results only the greyed placeholder, one row and the base height; the selection is cleared and the scroll position, the window's place, mapping and focus stay |
| Ui.UiManager.ClearSearch | src/gui/ui_manager.py:166-168 | the search text becomes empty and the cursor goes to 0 |
| Ui.WindowGrowth | src/gui/ui_manager.py:68-72 | a filled list makes the window between one and five rows taller than the base |
| Prompts.CleanContent | src/import_hotkeys/openai/prompt_builder.py:22 | the content has no NUL and no surrounding whitespace |
| Prompts.PromptShape | src/import_hotkeys/openai/prompt_builder.py:25-33 | the prompt opens with the instructions and ends with a blank line and the cleaned content |
| Prompts.PromptInjective | src/import_hotkeys/openai/prompt_builder.py:25-33 | under the same instructions, two contents give the same prompt exactly when they are equal |
| Prompts.SamePromptSameContent | src/import_hotkeys/openai/prompt_builder.py:10-35 | for one platform, equal prompts come only from contents that clean to the same text |
| Prompts.AppliedNoUpper | src/import_hotkeys/openai/prompt_builder.py:68-69 | replacing with lower-case text keeps lower-case text lower-case, however many replacements run |
| Prompts.ReplacementsLowerCase | src/import_hotkeys/openai/prompt_builder.py:51-66 | every replacement in the table is lower-case |
| Prompts.CleanHotkey | src/import_hotkeys/openai/prompt_builder.py:38-74 | lower-case, each replacement of the table in order, then strip; the result has no surrounding whitespace and no upper-case letter |
| JsonWriter.Sanitize | src/import_hotkeys/data/json_writer.py:79-80 | each of `<>:"/\|?*` becomes `_`, every other character stays |
| JsonWriter.CleanFilenameValid | src/import_hotkeys/data/json_writer.py:79-81 | a cleaned name holds no invalid character, no upper-case letter and no surrounding whitespace |
| JsonWriter.SanitizeIdentity | src/import_hotkeys/data/json_writer.py:80 | a name without invalid characters passes unchanged |
| JsonWriter.CleanFilenameIdempotent | src/import_hotkeys/data/json_writer.py:79-81 | cleaning a cleaned name changes nothing |
| JsonWriter.AcceptableSplit | src/import_hotkeys/data/json_writer.py:99-107 | all entries are acceptable exactly when all but the last are and the last is |
| JsonWriter.RefusalAccepts | src/import_hotkeys/data/json_writer.py:99-107 | the loop raises nothing exactly when every entry is acceptable |
| JsonWriter.RefusalStops | src/import_hotkeys/data/json_writer.py:99-107 | once a prefix is refused, the whole list is refused for the same reason |
| JsonWriter.RefusalAt | src/import_hotkeys/data/json_writer.py:99-107 | a list is refused for its first entry that is not acceptable, with that entry's reason |
| JsonWriter.CleanAll | src/import_hotkeys/data/json_writer.py:110-115 | one cleaned entry per entry, in order |
| JsonWriter.Validated | src/import_hotkeys/data/json_writer.py:98-117 | the loop succeeds exactly when every entry is acceptable |
| JsonWriter.ValidateHotkeys | src/import_hotkeys/data/json_writer.py:83-117 | the loop refuses a non-list, and otherwise refuses at the first bad entry or returns every entry cleaned, in order |
| JsonWriter.CleanedIdempotent | src/import_hotkeys/data/json_writer.py:110-113 | a cleaned entry is acceptable and is its own cleaned copy |
| JsonWriter.ValidateIdempotent | src/import_hotkeys/data/json_writer.py:98-117 | validating the output of a successful validation gives it back unchanged |
| JsonWriter.SaveHotkeys | src/import_hotkeys/data/json_writer.py:38-67 | a save succeeds exactly when the directory is made, the list validates and the write succeeds |
| JsonWriter.SaveErrors | src/import_hotkeys/data/json_writer.py:66-67 | a failed save raises one exception whose message is the fixed prefix followed by the cause |
| JsonWriter.BlankCleansToNothing | src/import_hotkeys/data/json_writer.py:69-81 | a name of blanks alone cleans to the empty name |
| JsonWriter.BlankNameSavesInOutputDir | src/import_hotkeys/data/json_writer.py:40-46 | a name of blanks saves directly under the output directory, as pathlib drops the empty component |
| JsonWriter.SavedPath | src/import_hotkeys/data/json_writer.py:40-64 | a successful save writes `<output_dir>/<clean name>/<clean filename>.json`, or `<output_dir>/<clean filename>.json` when the name cleans to nothing or `.` |
| JsonWriter.SavedEntries | src/import_hotkeys/data/json_writer.py:49-57 | the saved document holds the validated entries under `hotkeys` |
| JsonWriter.SavedMetadata | src/import_hotkeys/data/json_writer.py:52-56 | the saved document holds the URL and the timestamp under `metadata` |
| JsonValues.Get | src/import_hotkeys/data/json_writer.py:103-106 | a subscript succeeds exactly on a dict holding the key |
| JsonValues.GetStr | src/import_hotkeys/data/json_writer.py:106 | a string field is present exactly when the subscript yields a string |
| JsonValues.HotkeyObject | src/import_hotkeys/data/json_writer.py:110-113 | the cleaned entry has exactly the string fields `name` and `hotkey` |
| StringUtils.Prefix | src/utils/StringUtils.py:25 | `s[:n]`: the length for a non-negative and for a negative `n`, and the result is a prefix of `s` |
| StringUtils.Collapse | src/utils/StringUtils.py:26 | never longer, empty exactly for empty text, and starting with whitespace exactly when the text does |
| StringUtils.CollapseCollapsed | src/utils/StringUtils.py:26 | after collapsing, every whitespace character is a space and no two are adjacent |
| StringUtils.CollapseIdentity | src/utils/StringUtils.py:26 | text without whitespace collapses to itself |
| StringUtils.CollapseKeepsText | src/utils/StringUtils.py:26 | collapsing keeps every non-whitespace character, in order |
| StringUtils.StripKeepsText | src/utils/StringUtils.py:28 | stripping keeps every non-whitespace character, in order |
| StringUtils.TrimStringLength | src/utils/StringUtils.py:25-28 | for a non-negative length the result is no longer than it |
| StringUtils.TrimStringShape | src/utils/StringUtils.py:26-28 | the result has no surrounding whitespace, no two adjacent whitespace characters, and no whitespace but spaces |
| StringUtils.TrimStringKeepsText | src/utils/StringUtils.py:25-28 | the result keeps every non-whitespace character of the first `length` characters, in order |
| StringUtils.TrimStringPlain | src/utils/StringUtils.py:25-28 | when the first `length` characters hold no whitespace, they are the result |
| StringUtils.DetectLanguage | src/utils/StringUtils.py:38-48 | `unknown` for empty text; otherwise the detector's answer, or the default when it raises |
| StringUtils.EmptyTextIgnoresDetector | src/utils/StringUtils.py:40-41 | empty text is answered without the detector: any two detectors agree |
| ContentCleaner.SplitLinesJoin | src/import_hotkeys/web/content_cleaner.py:48 | for text broken only by `\n`, joining the lines with `\n` gives the text back, less a final newline |
| ContentCleaner.SplitLinesKeepsText | src/import_hotkeys/web/content_cleaner.py:48 | whatever the breaks, the lines together hold exactly the text's other characters, in order |
| ContentCleaner.SplitLines | src/import_hotkeys/web/content_cleaner.py:48 | `splitlines` yields lines without any line-break character |
| ContentCleaner.Clean | src/import_hotkeys/web/content_cleaner.py:41-42 | no page gives the empty text |
| ContentCleaner.NonBlankAppend | src/import_hotkeys/web/content_cleaner.py:48 | the kept lines stay in their order |
| ContentCleaner.NonBlankMembers | src/import_hotkeys/web/content_cleaner.py:48 | a line is kept exactly when it is the non-empty stripped form of an input line |
| ContentCleaner.NonBlankLines | src/import_hotkeys/web/content_cleaner.py:48 | every kept line is non-empty, stripped and free of line breaks |
| ContentCleaner.CleanSplits | src/import_hotkeys/web/content_cleaner.py:48-49 | the cleaned text splits at its newlines back into exactly the kept lines, so it holds no empty line; it is empty when nothing is kept |
| ContentCleaner.CleanStripped | src/import_hotkeys/web/content_cleaner.py:41-49 | the cleaned text has no leading or trailing whitespace |
| ContentCleaner.SaveHtmlStem | src/import_hotkeys/web/content_cleaner.py:25 | same length as the name; each space becomes `_` and every other character is lower-cased |
| ContentCleaner.SaveHtmlStemClean | src/import_hotkeys/web/content_cleaner.py:25 | the stem holds no space and no upper-case letter |
| FileUtils.Concat | src/utils/FileUtils.py:28-47 | `base + rest` raises while the base path is unset; otherwise it starts with the base and continues with `rest` |
| FileUtils.DirUnder | src/utils/FileUtils.py:27-48 | a directory path exists exactly when the base path is set, and ends with `/` |
| FileUtils.Files.constructor | src/utils/FileUtils.py:20 | the base path starts unset |
| FileUtils.Files.SetBasePath | src/utils/FileUtils.py:22-52 | `base_dir` then returns the value passed |
| FileUtils.Files.DownloadsPath | src/utils/FileUtils.py:26-29 | `<base>downloads/` normalised with a trailing `/`; an error while the base is unset |
| FileUtils.Files.DataPath | src/utils/FileUtils.py:31-34 | `<base>data/` normalised with a trailing `/`; an error while the base is unset |
| FileUtils.Files.TmpPath | src/utils/FileUtils.py:45-48 | `<base>tmp/` normalised with a trailing `/`; an error while the base is unset |
| FileUtils.Files.ToolsPath | src/utils/FileUtils.py:35-38 | `<base>tools/<path>` normalised; an error while the base is unset |
| FileUtils.Files.ChromeExtensionPath | src/utils/FileUtils.py:40-43 | `<base><path>` normalised; an error while the base is unset |
| FileUtils.SetThenDataPath | src/utils/FileUtils.py:22-52 | once a base path is set, the data path is built from that value, whatever was set before |
| FileUtils.MimeClassesDisjoint | src/utils/FileUtils.py:74-88 | no MIME string is both an image and audio or video |
| FileUtils.TopLevelPrefix | src/utils/FileUtils.py:76-85 | the prefix test holds for `<top>/<sub>` exactly when the top-level type is the expected one |
| FileUtils.MimeTopLevel | src/utils/FileUtils.py:74-88 | `is_image` holds exactly for the `image` type, `is_audio_or_video` exactly for `audio` and `video` |
| Strings.StripLower | src/import_hotkeys/data/json_writer.py:112 | stripping and lower-casing commute |
| Strings.JoinSplit | src/hotkeys/hotkey_executor.py:21 | splitting at a character and joining with it gives the text back |
| Strings.SplitJoin | src/import_hotkeys/web/content_cleaner.py:49 | joining parts without the separator and splitting again gives the parts back |
| Strings.ReplaceNoUpper | src/import_hotkeys/openai/prompt_builder.py:69 | replacing with lower-case text keeps lower-case text lower-case |
| Strings.ReplaceChar | src/import_hotkeys/web/content_cleaner.py:25 | replacing one character by another rewrites exactly the positions that held it |

## Left out

- Tk widgets: construction, theming, dialogs and event binding are not modelled. `create_dialog`/`show_dialog` become a recorded message, and the listbox, entry and root window are reduced to the state the handlers read and write.
- Real keyboard and mouse injection and `time.sleep`: these are foreign calls and wall-clock time. The model records them as trace events. A press or release fails exactly when the key name is not in the set the input library knows; that set is a parameter.
- `winhotkeys.HotkeyHandler` and `__del__` cleanup: the library is not shown and runs a listener thread. A handler is an opaque value, and a failure while building or starting it is a boolean parameter.
- Window and process lookup through win32 and psutil: these are OS calls. Their results are parameters of `Show`.
- Web fetching, LLM calls, `download_file`, `get_mime_type` and `file_exists`: these use the network, Selenium, OpenAI, libmagic or the file system.
- Configuration through configparser: this is file I/O through a library parser. Window settings are a parameter.
- The command-line entry points and their `input()` loops: interactive I/O.
- `strip_html_tags`, `contains_html`, `convert_html_to_markdown` and `convert_language_code`: these call BeautifulSoup, html2text and pycountry. `soup.get_text` in `clean` is also one of these calls; its text is an input. The language detector of `detect_language` is a function parameter.
- Reading and writing JSON files, and `datetime.now()`: I/O and a clock. The disk is a map from file name to file state, and the timestamp is a parameter.
- `Loader.Fetch`: a catalog file whose top-level JSON value is not a list is not modelled.
- `os.path.join` and `Path` joins: `os.path.join` is plain concatenation with `/`; a `Path` join drops an empty or `.` component. An absolute component, which would replace the prefix, is not modelled, and the output directory is taken as already normalised (no trailing `/`, not empty). `os.path.normpath` is a function parameter.
- `Strings.Lower`: covers ASCII letters only. Python's Unicode case mapping is not modelled.
- `Prompts.CleanHotkey`: the concrete examples `clean_hotkey("Control + Shift + P") == "ctrl+shift+p"` and `"mouse wheel up"` becoming `"mouse wheelup"` are not proved. Evaluating the fourteen-entry replacement table on literals is beyond the verifier's budget. The order of replacements is modelled as written.
- `StringUtils.TrimString`: a `length` of `None` (the whole string) is not modelled; the length is an integer.
- `ExecuteSelectedHotkey`: the contract states the end state of the window and of the input trace, not that the window is hidden before the first key event. The window and the input devices are separate objects, and no shared log of their calls is modelled.
- `JsonValues.PyStr`: a list or a dictionary renders as a fixed marker, not as Python's `repr` of its contents. A catalog entry whose `name` or `hotkey` is a list or a dictionary is therefore listed with the marker, where the source shows the repr.
- `InternalCommands.Matching`: an entry without a string `name` is skipped, where the comprehension would raise. Every entry of the fixed command table has a name, so the case does not arise.
- `FileUtils.Files`: the `mime` class attribute is not modelled, since only `get_mime_type` uses it.
