/** Loading an application's shortcut catalog from disk, with a per-application cache, and
    searching it by name (src/data/hotkey_loader.py). */
module Loader {
  import opened Strings
  import opened Wrappers
  import opened JsonValues

  /** What opening and decoding `<data_dir>/<app_name>.json` yields. */
  datatype FileState =
    | Absent                        // `os.path.exists` is false
    | Undecodable                   // `json.load` raises `JSONDecodeError`
    | Unreadable                    // opening or reading raises any other exception
    | Holds(entries: seq<Json>)     // the file decodes to a list

  /** The catalog files, as seen through `os.path.exists`, `open` and `json.load`. Every lookup
      of a path is recorded in `accessed`. */
  class FileSystem {
    const files: map<string, FileState>
    var accessed: seq<string>

    constructor (files: map<string, FileState>)
      ensures this.files == files && accessed == []
    {
      this.files := files;
      accessed := [];
    }

    method Load(path: string) returns (state: FileState)
      modifies this
      ensures state == StateOf(files, path)
      ensures accessed == old(accessed) + [path]
    {
      state := StateOf(files, path);
      accessed := accessed + [path];
    }
  }

  function StateOf(files: map<string, FileState>, path: string): FileState {
    if path in files then files[path] else Absent
  }

  /** `os.path.join(data_dir, f"{app_name}.json")` for a relative file name. */
  function JsonPath(dataDir: string, appName: string): string {
    dataDir + "/" + appName + ".json"
  }

  /** What `get_hotkeys_for_app` returns for a file that is not yet cached, and what it caches:
      a missing or undecodable file caches and returns `[]`, a decoded list is cached and
      returned, and any other failure returns `[]` and caches nothing. */
  datatype Fetched = Fetched(returned: seq<Json>, cached: Option<seq<Json>>)

  function Fetch(state: FileState): (f: Fetched)
    ensures f.cached.Some? ==> f.cached.value == f.returned
    ensures f.cached.None? <==> state.Unreadable?
    ensures state.Holds? ==> f.returned == state.entries
    ensures !state.Holds? ==> f.returned == []
  {
    match state
    case Absent => Fetched([], Some([]))
    case Undecodable => Fetched([], Some([]))
    case Unreadable => Fetched([], None)
    case Holds(es) => Fetched(es, Some(es))
  }

  /** The cache after one `get_hotkeys_for_app(appName)`: unchanged for a cached name, otherwise
      extended by what the file yields when `Fetch` caches it. */
  function CacheAfter(cache: map<string, seq<Json>>, files: map<string, FileState>, dataDir: string,
                      appName: string): map<string, seq<Json>>
  {
    if appName in cache then cache
    else
      var f := Fetch(StateOf(files, JsonPath(dataDir, appName)));
      if f.cached.Some? then cache[appName := f.cached.value] else cache
  }

  /** The access log after one `get_hotkeys_for_app(appName)`: the disk is consulted only for a
      name missing from the cache. */
  function AccessedAfter(cache: map<string, seq<Json>>, accessed: seq<string>, dataDir: string,
                         appName: string): seq<string>
  {
    if appName in cache then accessed else accessed + [JsonPath(dataDir, appName)]
  }

  class HotkeyLoader {
    const dataDir: string
    var hotkeyCache: map<string, seq<Json>>

    /** Every cached list is what the file on disk yields. */
    ghost predicate CacheAgrees(fs: FileSystem)
      reads this
    {
      forall a :: a in hotkeyCache ==> Fetch(StateOf(fs.files, JsonPath(dataDir, a))).cached == Some(hotkeyCache[a])
    }

    constructor (dataDir: string)
      ensures this.dataDir == dataDir && hotkeyCache == map[]
    {
      this.dataDir := dataDir;
      hotkeyCache := map[];
    }

    /** `get_hotkeys_for_app(app_name)`: a cached name is answered from the cache without touching
        the disk; otherwise the file is looked up once and the outcome cached as `Fetch` says. */
    method GetHotkeysForApp(appName: string, fs: FileSystem) returns (hotkeys: seq<Json>)
      modifies this, fs
      ensures appName in old(hotkeyCache) ==>
        hotkeys == old(hotkeyCache)[appName] && hotkeyCache == old(hotkeyCache) && fs.accessed == old(fs.accessed)
      ensures appName !in old(hotkeyCache) ==>
        var f := Fetch(StateOf(fs.files, JsonPath(dataDir, appName)));
        hotkeys == f.returned
        && fs.accessed == old(fs.accessed) + [JsonPath(dataDir, appName)]
        && hotkeyCache == (if f.cached.Some? then old(hotkeyCache)[appName := f.cached.value] else old(hotkeyCache))
      ensures hotkeyCache == CacheAfter(old(hotkeyCache), fs.files, dataDir, appName)
        && fs.accessed == AccessedAfter(old(hotkeyCache), old(fs.accessed), dataDir, appName)
      ensures old(CacheAgrees(fs)) ==> CacheAgrees(fs)
      ensures old(CacheAgrees(fs)) ==> hotkeys == Fetch(StateOf(fs.files, JsonPath(dataDir, appName))).returned
      ensures hotkeys != [] ==> appName in hotkeyCache && hotkeyCache[appName] == hotkeys
    {
      if appName in hotkeyCache {
        hotkeys := hotkeyCache[appName];
        return;
      }
      var path := JsonPath(dataDir, appName);
      var state := fs.Load(path);
      match state
      case Absent =>
        hotkeyCache := hotkeyCache[appName := []];
        hotkeys := [];
      case Holds(es) =>
        hotkeyCache := hotkeyCache[appName := es];
        hotkeys := es;
      case Undecodable =>
        hotkeyCache := hotkeyCache[appName := []];
        hotkeys := [];
      case Unreadable =>
        hotkeys := [];
    }

    /** `search_hotkeys(app_name, search_text)`: the app's entries whose lower-cased name contains
        the lower-cased text, in catalog order; `[]` when the catalog is empty or when some entry
        has no string `name` (the exception is caught). */
    method SearchHotkeys(appName: string, searchText: string, fs: FileSystem) returns (results: seq<Json>)
      modifies this, fs
      ensures hotkeyCache == CacheAfter(old(hotkeyCache), fs.files, dataDir, appName)
        && fs.accessed == AccessedAfter(old(hotkeyCache), old(fs.accessed), dataDir, appName)
      ensures old(CacheAgrees(fs)) ==> CacheAgrees(fs)
      ensures old(CacheAgrees(fs)) ==>
        results == SearchResult(Fetch(StateOf(fs.files, JsonPath(dataDir, appName))).returned, searchText)
    {
      var hotkeys := GetHotkeysForApp(appName, fs);
      if hotkeys == [] {
        return [];
      }
      var r := FilterEntries(hotkeys, Lower(searchText));
      results := if r.Some? then r.value else [];
    }
  }

  /** The loop of `search_hotkeys`: entries whose lower-cased `name` contains `query`. `None`
      when an entry's `name` is missing or not a string, which raises. */
  method FilterEntries(hotkeys: seq<Json>, query: string) returns (r: Option<seq<Json>>)
    ensures r == NameFilter(hotkeys, query)
  {
    var results := [];
    var i := 0;
    while i < |hotkeys|
      invariant 0 <= i <= |hotkeys|
      invariant NameFilter(hotkeys[..i], query) == Some(results)
    {
      var seen := hotkeys[..i + 1];
      assert seen[..|seen| - 1] == hotkeys[..i] && seen[|seen| - 1] == hotkeys[i];
      var name := GetStr(hotkeys[i], "name");
      if name.None? {
        NameFilterExtend(hotkeys, i + 1, query);
        return None;
      }
      if Contains(Lower(name.value), query) {
        results := results + [hotkeys[i]];
      } else {
        assert results + [] == results;
      }
      i := i + 1;
    }
    assert hotkeys[..i] == hotkeys;
    r := Some(results);
  }

  /** An entry is kept when its lower-cased name contains the query. */
  predicate NameMatches(entry: Json, query: string)
    requires GetStr(entry, "name").Some?
  {
    Contains(Lower(GetStr(entry, "name").value), query)
  }

  /** The filter of `search_hotkeys`, over the entries seen so far (written from the last entry
      backwards, the order in which the loop extends it). */
  function NameFilter(hs: seq<Json>, query: string): Option<seq<Json>>
  {
    if hs == [] then Some([])
    else
      var prev := NameFilter(hs[..|hs| - 1], query);
      var last := hs[|hs| - 1];
      if prev.None? || GetStr(last, "name").None? then None
      else Some(prev.value + (if NameMatches(last, query) then [last] else []))
  }

  /** What `search_hotkeys` returns for the entries `get_hotkeys_for_app` gave. */
  function SearchResult(hotkeys: seq<Json>, searchText: string): seq<Json>
  {
    if hotkeys == [] then []
    else
      var r := NameFilter(hotkeys, Lower(searchText));
      if r.Some? then r.value else []
  }

  /** Once an entry without a string name is reached, the filter raises whatever follows. */
  lemma {:induction false} NameFilterExtend(hs: seq<Json>, n: nat, query: string)
    requires 1 <= n <= |hs|
    requires NameFilter(hs[..n], query).None?
    ensures NameFilter(hs, query).None?
    decreases |hs| - n
  {
    if n < |hs| {
      assert hs[..n + 1][..n] == hs[..n];
      NameFilterExtend(hs, n + 1, query);
    } else {
      assert hs[..n] == hs;
    }
  }

  /** Every entry has a string `name`. */
  predicate AllNamed(hs: seq<Json>) {
    forall i :: 0 <= i < |hs| ==> GetStr(hs[i], "name").Some?
  }

  /** The filter raises exactly when some entry has no string `name`; otherwise it keeps the
      matching entries and nothing else (their order is fixed by `NameFilterKeeps`). */
  lemma {:induction false} NameFilterSpec(hs: seq<Json>, query: string)
    ensures NameFilter(hs, query).Some? <==> AllNamed(hs)
    ensures NameFilter(hs, query).Some? ==>
      var r := NameFilter(hs, query).value;
      |r| <= |hs|
      && multiset(r) <= multiset(hs)
      && (forall e :: e in r <==> e in hs && NameMatches(e, query))
    decreases |hs|
  {
    if hs != [] {
      var init, last := hs[..|hs| - 1], hs[|hs| - 1];
      NameFilterSpec(init, query);
      assert hs == init + [last];
      assert AllNamed(hs) ==> AllNamed(init) by {
        if AllNamed(hs) {
          forall i | 0 <= i < |init| ensures GetStr(init[i], "name").Some? {
            assert init[i] == hs[i];
          }
        }
      }
      assert AllNamed(hs) <==> AllNamed(init) && GetStr(last, "name").Some? by {
        if AllNamed(init) && GetStr(last, "name").Some? {
          forall i | 0 <= i < |hs| ensures GetStr(hs[i], "name").Some? {
            if i < |init| { assert hs[i] == init[i]; }
          }
        }
      }
      if AllNamed(hs) {
        var r := NameFilter(init, query).value;
        assert multiset(hs) == multiset(init) + multiset{last};
        forall e ensures e in hs <==> e in init || e == last {
        }
      }
    }
  }

  /** A named entry whose lower-cased name contains the query. */
  predicate Kept(entry: Json, query: string) {
    GetStr(entry, "name").Some? && NameMatches(entry, query)
  }

  /** The matching entries, taken from the front: an independent statement of what the loop
      of `search_hotkeys` keeps and in which order. */
  function Keep(hs: seq<Json>, query: string): (r: seq<Json>)
    ensures |r| <= |hs|
    ensures forall e :: e in r ==> e in hs && Kept(e, query)
  {
    if hs == [] then []
    else (if Kept(hs[0], query) then [hs[0]] else []) + Keep(hs[1..], query)
  }

  /** Keeping over a catalog extended by one entry extends what is kept by that entry alone. */
  lemma {:induction false} KeepSnoc(init: seq<Json>, last: Json, query: string)
    ensures Keep(init + [last], query) == Keep(init, query) + (if Kept(last, query) then [last] else [])
    decreases |init|
  {
    if init == [] {
      assert [] + [last] == [last];
      assert [last][1..] == [];
    } else {
      var hs := init + [last];
      assert hs[0] == init[0] && hs[1..] == init[1..] + [last];
      KeepSnoc(init[1..], last, query);
    }
  }

  /** When every entry is named, the filter of `search_hotkeys` keeps exactly `Keep`: the
      matching entries, each as often as it occurs, in catalog order. */
  lemma {:induction false} NameFilterKeeps(hs: seq<Json>, query: string)
    requires AllNamed(hs)
    ensures NameFilter(hs, query) == Some(Keep(hs, query))
    decreases |hs|
  {
    if hs != [] {
      var init, last := hs[..|hs| - 1], hs[|hs| - 1];
      assert AllNamed(init) by {
        forall i | 0 <= i < |init| ensures GetStr(init[i], "name").Some? {
          assert init[i] == hs[i];
        }
      }
      NameFilterKeeps(init, query);
      assert init + [last] == hs;
      KeepSnoc(init, last, query);
    }
  }

  /** An empty query keeps every entry: `"" in name` always holds. */
  lemma {:induction false} EmptyQueryKeepsAll(hs: seq<Json>, query: string)
    requires AllNamed(hs) && query == []
    ensures NameFilter(hs, query) == Some(hs)
    decreases |hs|
  {
    if hs != [] {
      var init := hs[..|hs| - 1];
      assert AllNamed(init) by {
        forall i | 0 <= i < |init| ensures GetStr(init[i], "name").Some? {
          assert init[i] == hs[i];
        }
      }
      EmptyQueryKeepsAll(init, query);
      assert StartsWith(Lower(GetStr(hs[|hs| - 1], "name").value), query);
      assert init + [hs[|hs| - 1]] == hs;
    }
  }

  /** With an empty search text, `search_hotkeys` returns the whole catalog when every entry is
      named; it returns `[]` for an empty catalog. */
  lemma SearchEmptyText(hotkeys: seq<Json>, searchText: string)
    requires searchText == [] && AllNamed(hotkeys)
    ensures SearchResult(hotkeys, searchText) == hotkeys
  {
    assert Lower(searchText) == [];
    if hotkeys != [] {
      EmptyQueryKeepsAll(hotkeys, Lower(searchText));
    }
  }

  /** After one lookup of an uncached app, a second lookup is answered from the cache: same
      result, no new disk access. */
  method CachedTwice(loader: HotkeyLoader, appName: string, fs: FileSystem)
      returns (first: seq<Json>, second: seq<Json>)
    requires appName !in loader.hotkeyCache
    requires !StateOf(fs.files, JsonPath(loader.dataDir, appName)).Unreadable?
    modifies loader, fs
    ensures first == second
    ensures |fs.accessed| == |old(fs.accessed)| + 1
  {
    first := loader.GetHotkeysForApp(appName, fs);
    second := loader.GetHotkeysForApp(appName, fs);
  }
}
