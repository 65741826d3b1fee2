/** Writing an imported catalog to disk (src/import_hotkeys/data/json_writer.py): file-name
    cleaning, validation of the extracted entries, and the path and document `save_hotkeys`
    writes. The directory creation and the file write are outcomes passed in as parameters. */
module JsonWriter {
  import opened Strings
  import opened Wrappers
  import opened JsonValues

  /** The characters `_clean_filename` replaces with `_`. */
  const InvalidChars: string := "<>:\"/\\|?*"

  /** The generator of `_clean_filename`: every invalid character becomes `_`, every other
      character stays. */
  function Sanitize(name: string): (r: string)
    ensures |r| == |name|
    ensures forall i :: 0 <= i < |name| ==> r[i] == (if name[i] in InvalidChars then '_' else name[i])
  {
    seq(|name|, i requires 0 <= i < |name| => if name[i] in InvalidChars then '_' else name[i])
  }

  /** `_clean_filename(name)`: sanitised, lower-cased, stripped. */
  function CleanFilename(name: string): string {
    Strip(Lower(Sanitize(name)))
  }

  /** No character of `s` is an invalid file-name character. */
  predicate ValidName(s: string) {
    forall i :: 0 <= i < |s| ==> s[i] !in InvalidChars
  }

  /** A cleaned file name holds no invalid character, no upper-case letter, and no surrounding
      whitespace. */
  lemma CleanFilenameValid(name: string)
    ensures ValidName(CleanFilename(name)) && NoUpper(CleanFilename(name)) && Stripped(CleanFilename(name))
  {
    var l := Lower(Sanitize(name));
    assert ValidName(l) by {
      forall i | 0 <= i < |l| ensures l[i] !in InvalidChars {
        assert !IsUpper(Sanitize(name)[i]) ==> l[i] == Sanitize(name)[i];
      }
    }
    LowerNoUpper(Sanitize(name));
    StripChars(l);
    var r := Strip(l);
    forall i | 0 <= i < |r| ensures r[i] !in InvalidChars && !IsUpper(r[i]) {
      assert r[i] in l;
    }
  }

  /** A name without invalid characters goes through the generator unchanged. */
  lemma SanitizeIdentity(name: string)
    requires ValidName(name)
    ensures Sanitize(name) == name
  {
  }

  /** Cleaning a cleaned name changes nothing. */
  lemma CleanFilenameIdempotent(name: string)
    ensures CleanFilename(CleanFilename(name)) == CleanFilename(name)
  {
    var c := CleanFilename(name);
    CleanFilenameValid(name);
    SanitizeIdentity(c);
    LowerIdentity(c);
    StripIdentity(c);
  }

  /** The `ValueError`s `_validate_hotkeys` raises. */
  datatype Refusal = NotAList | NotADict | MissingKey | NotStrings

  /** The message of each `ValueError`. */
  function Message(r: Refusal): string {
    match r
    case NotAList => "Hotkeys must be a list"
    case NotADict => "Each hotkey item must be a dictionary"
    case MissingKey => "Each hotkey must have 'name' and 'hotkey' keys"
    case NotStrings => "Hotkey name and value must be strings"
  }

  /** Why `item` is refused by `_validate_hotkeys`, checked in the source's order, or `None` for
      an acceptable entry. */
  function ItemError(item: Json): (e: Option<Refusal>)
  {
    if !item.JObject? then Some(NotADict)
    else if "name" !in item.fields || "hotkey" !in item.fields then Some(MissingKey)
    else if !item.fields["name"].JStr? || !item.fields["hotkey"].JStr? then Some(NotStrings)
    else None
  }

  /** The cleaned copy of an acceptable entry: the stripped name and the stripped, lower-cased
      combo, and no other key. */
  function Cleaned(item: Json): Json
    requires ItemError(item).None?
  {
    HotkeyObject(Strip(GetStr(item, "name").value), Lower(Strip(GetStr(item, "hotkey").value)))
  }

  /** Every entry of `items` is acceptable. */
  predicate AllAcceptable(items: seq<Json>) {
    forall i :: 0 <= i < |items| ==> ItemError(items[i]).None?
  }

  /** All entries are acceptable exactly when all but the last are and the last is. */
  lemma AcceptableSplit(items: seq<Json>)
    requires items != []
    ensures AllAcceptable(items) <==> AllAcceptable(items[..|items| - 1]) && ItemError(items[|items| - 1]).None?
  {
    var init := items[..|items| - 1];
    assert forall i :: 0 <= i < |init| ==> init[i] == items[i];
  }

  /** The refusal the validation loop raises over `items`, if any: the first refused entry's,
      written from the last entry backwards, the order in which the loop reaches them. */
  function FirstRefusal(items: seq<Json>): Option<Refusal>
  {
    if items == [] then None
    else if FirstRefusal(items[..|items| - 1]).Some? then FirstRefusal(items[..|items| - 1])
    else ItemError(items[|items| - 1])
  }

  /** The loop raises nothing exactly when every entry is acceptable. */
  lemma {:induction false} RefusalAccepts(items: seq<Json>)
    ensures FirstRefusal(items).None? <==> AllAcceptable(items)
    decreases |items|
  {
    if items != [] {
      RefusalAccepts(items[..|items| - 1]);
      AcceptableSplit(items);
    }
  }

  /** Once a prefix is refused, the whole list is refused for the same reason. */
  lemma {:induction false} RefusalStops(items: seq<Json>, n: nat)
    requires n <= |items| && FirstRefusal(items[..n]).Some?
    ensures FirstRefusal(items) == FirstRefusal(items[..n])
    decreases |items| - n
  {
    if n == |items| {
      assert items[..n] == items;
    } else {
      var next := items[..n + 1];
      assert next[..|next| - 1] == items[..n];
      RefusalStops(items, n + 1);
    }
  }

  /** A refused list is refused for the first entry that is not acceptable. */
  lemma RefusalAt(items: seq<Json>, k: nat)
    requires k < |items| && ItemError(items[k]).Some?
    requires forall i :: 0 <= i < k ==> ItemError(items[i]).None?
    ensures FirstRefusal(items) == ItemError(items[k])
  {
    var before, upTo := items[..k], items[..k + 1];
    assert forall i :: 0 <= i < k ==> before[i] == items[i];
    RefusalAccepts(before);
    assert upTo[..|upTo| - 1] == before && upTo[|upTo| - 1] == items[k];
    RefusalStops(items, k + 1);
  }

  /** `f` applied to every element of `xs`, in order. */
  function MapAll<T, U>(xs: seq<T>, f: T --> U): (r: seq<U>)
    requires forall i :: 0 <= i < |xs| ==> f.requires(xs[i])
    ensures |r| == |xs|
    ensures forall i :: 0 <= i < |xs| ==> r[i] == f(xs[i])
  {
    seq(|xs|, i requires 0 <= i < |xs| => f(xs[i]))
  }

  /** Mapping a sequence is mapping all but its last element, then the last. */
  lemma MapAllSnoc<T, U>(xs: seq<T>, init: seq<T>, f: T --> U)
    requires xs != [] && init == xs[..|xs| - 1] && forall i :: 0 <= i < |xs| ==> f.requires(xs[i])
    ensures forall i :: 0 <= i < |init| ==> f.requires(init[i])
    ensures MapAll(xs, f) == MapAll(init, f) + [f(xs[|xs| - 1])]
  {
    assert forall i :: 0 <= i < |init| ==> init[i] == xs[i];
  }

  /** The cleaned copy of every entry, in order. */
  function CleanAll(items: seq<Json>): (r: seq<Json>)
    requires AllAcceptable(items)
    ensures |r| == |items|
    ensures forall i :: 0 <= i < |items| ==> r[i] == Cleaned(items[i])
  {
    MapAll(items, Cleaned)
  }

  /** Cleaning all entries is cleaning all but the last, then the last. */
  lemma CleanAllSnoc(items: seq<Json>)
    requires items != [] && AllAcceptable(items)
    ensures AllAcceptable(items[..|items| - 1])
    ensures CleanAll(items) == CleanAll(items[..|items| - 1]) + [Cleaned(items[|items| - 1])]
  {
    AcceptableSplit(items);
    MapAllSnoc(items, items[..|items| - 1], Cleaned);
  }

  /** The outcome of `_validate_hotkeys`: the cleaned entries, or the refusal it raises. */
  datatype Validation = Valid(entries: seq<Json>) | Invalid(refusal: Refusal)

  /** The outcome of the validation loop over `items`: the first refusal, or else every entry
      cleaned, in order. */
  function Validated(items: seq<Json>): (r: Validation)
    ensures r.Valid? <==> AllAcceptable(items)
  {
    RefusalAccepts(items);
    if FirstRefusal(items).Some? then Invalid(FirstRefusal(items).value) else Valid(CleanAll(items))
  }

  /** `_validate_hotkeys(hotkeys)` as a value: a non-list is refused outright. */
  function ValidateSpec(hotkeys: Json): Validation {
    if !hotkeys.JList? then Invalid(NotAList) else Validated(hotkeys.items)
  }

  /** `_validate_hotkeys(hotkeys)`: walk the list, refuse at the first bad entry, collect the
      cleaned entries otherwise. */
  method ValidateHotkeys(hotkeys: Json) returns (r: Validation)
    ensures r == ValidateSpec(hotkeys)
  {
    if !hotkeys.JList? {
      return Invalid(NotAList);
    }
    var items := hotkeys.items;
    var validated: seq<Json> := [];
    for i := 0 to |items|
      invariant FirstRefusal(items[..i]).None? && AllAcceptable(items[..i])
      invariant validated == CleanAll(items[..i])
    {
      var seen := items[..i + 1];
      assert seen[..|seen| - 1] == items[..i] && seen[|seen| - 1] == items[i];
      var error := ItemError(items[i]);
      if error.Some? {
        RefusalStops(items, i + 1);
        return Invalid(error.value);
      }
      AcceptableSplit(seen);
      CleanAllSnoc(seen);
      RefusalAccepts(seen);
      validated := validated + [Cleaned(items[i])];
    }
    assert items[..|items|] == items;
    return Valid(validated);
  }

  /** A cleaned entry is its own cleaned copy. */
  lemma CleanedIdempotent(item: Json)
    requires ItemError(item).None?
    ensures ItemError(Cleaned(item)).None? && Cleaned(Cleaned(item)) == Cleaned(item)
  {
    var n, h := Strip(GetStr(item, "name").value), Strip(GetStr(item, "hotkey").value);
    StripIdentity(n);
    StripLower(h);
    StripIdentity(h);
    LowerNoUpper(h);
    LowerIdentity(Lower(h));
  }

  /** Validating the output of a successful validation gives it back unchanged. */
  lemma ValidateIdempotent(hotkeys: Json)
    requires ValidateSpec(hotkeys).Valid?
    ensures ValidateSpec(JList(ValidateSpec(hotkeys).entries)) == Valid(ValidateSpec(hotkeys).entries)
  {
    var items := hotkeys.items;
    var v := CleanAll(items);
    forall i | 0 <= i < |v| ensures ItemError(v[i]).None? && Cleaned(v[i]) == v[i] {
      CleanedIdempotent(items[i]);
    }
    MapAllFixed(v, Cleaned);
  }

  /** Mapping a function that leaves every element as it is gives the sequence back. */
  lemma MapAllFixed<T>(xs: seq<T>, f: T --> T)
    requires forall i :: 0 <= i < |xs| ==> f.requires(xs[i]) && f(xs[i]) == xs[i]
    ensures MapAll(xs, f) == xs
  {
  }

  /** Prefix of the one exception `save_hotkeys` raises for any failure. */
  const SaveFailure: string := "Failed to save hotkeys to JSON: "

  /** What a successful save wrote: the file's path and the JSON document in it. */
  datatype SavedFile = SavedFile(path: string, document: Json)

  /** `str(url)` as `json.dump` writes an optional URL. */
  function UrlValue(url: Option<string>): Json {
    if url.Some? then JStr(url.value) else JNull
  }

  /** `base / part` for a `Path` and one relative component without `/`, as pathlib joins them:
      an empty or `.` component adds nothing. */
  function PathJoin(base: string, part: string): string {
    if part == [] || part == "." then base else base + "/" + part
  }

  /** `save_hotkeys(name, hotkeys, filename, url)` writing under `outputDir`. `timestamp` is what
      `datetime.now().isoformat()` returns; `dirError` and `writeError` are the messages of the
      exceptions the directory creation and the file write raise, if they do. */
  function SaveHotkeys(outputDir: string, name: string, hotkeys: Json, filename: string, url: Option<string>,
                       timestamp: string, dirError: Option<string>, writeError: Option<string>): (r: Result<SavedFile>)
    ensures r.Ok? <==> dirError.None? && ValidateSpec(hotkeys).Valid? && writeError.None?
  {
    if dirError.Some? then Err(SaveFailure + dirError.value)
    else
      var appDir := PathJoin(outputDir, CleanFilename(name));
      var outputPath := PathJoin(appDir, CleanFilename(filename) + ".json");
      match ValidateSpec(hotkeys)
      case Invalid(e) => Err(SaveFailure + Message(e))
      case Valid(validated) =>
        if writeError.Some? then Err(SaveFailure + writeError.value)
        else
          var metadata := JObject(map["url" := UrlValue(url), "timestamp" := JStr(timestamp)]);
          Ok(SavedFile(outputPath, JObject(map["metadata" := metadata, "hotkeys" := JList(validated)])))
  }

  /** A save that fails raises one exception whose message starts with the fixed prefix and
      carries the cause: the directory error, the validation error or the write error, checked in
      that order. */
  lemma SaveErrors(outputDir: string, name: string, hotkeys: Json, filename: string, url: Option<string>,
                   timestamp: string, dirError: Option<string>, writeError: Option<string>)
    ensures var r := SaveHotkeys(outputDir, name, hotkeys, filename, url, timestamp, dirError, writeError);
      r.Err? ==>
        StartsWith(r.error, SaveFailure)
        && r.error[|SaveFailure|..] == SaveCause(hotkeys, dirError, writeError)
  {
    var r := SaveHotkeys(outputDir, name, hotkeys, filename, url, timestamp, dirError, writeError);
    if r.Err? {
      PrefixOf(SaveFailure, SaveCause(hotkeys, dirError, writeError));
    }
  }

  /** The cause a failed save reports: the directory error, else the validation error, else the
      write error. */
  function SaveCause(hotkeys: Json, dirError: Option<string>, writeError: Option<string>): string {
    if dirError.Some? then dirError.value
    else if ValidateSpec(hotkeys).Invalid? then Message(ValidateSpec(hotkeys).refusal)
    else if writeError.Some? then writeError.value
    else []
  }

  lemma PrefixOf(p: string, rest: string)
    ensures StartsWith(p + rest, p) && (p + rest)[|p|..] == rest
  {
    assert (p + rest)[..|p|] == p;
  }

  /** A save whose directory creation and write succeed, of a list that validates, writes
      `<outputDir>/<clean name>/<clean filename>.json`, or `<outputDir>/<clean filename>.json`
      when the name cleans to nothing or to `.`. */
  lemma SavedPath(outputDir: string, name: string, hotkeys: Json, filename: string, url: Option<string>,
                  timestamp: string)
    requires ValidateSpec(hotkeys).Valid?
    ensures var r := SaveHotkeys(outputDir, name, hotkeys, filename, url, timestamp, None, None);
      var file := CleanFilename(filename) + ".json";
      r.Ok?
      && (CleanFilename(name) != [] && CleanFilename(name) != "." ==>
            r.value.path == outputDir + "/" + CleanFilename(name) + "/" + file)
      && (CleanFilename(name) == [] || CleanFilename(name) == "." ==> r.value.path == outputDir + "/" + file)
  {
    var file := CleanFilename(filename) + ".json";
    assert file != [] && file != ".";
  }

  /** A name of blanks alone cleans to the empty name. */
  lemma BlankCleansToNothing(name: string)
    requires forall i :: 0 <= i < |name| ==> name[i] == ' '
    ensures CleanFilename(name) == []
  {
    var t := Lower(Sanitize(name));
    assert forall i :: 0 <= i < |t| ==> IsSpace(t[i]);
    assert StripStart(t) == |t|;
  }

  /** A name of blanks alone, such as `"   "`, cleans to nothing, so the file lands directly in
      the output directory. */
  lemma BlankNameSavesInOutputDir(outputDir: string, name: string, hotkeys: Json, filename: string,
                                  url: Option<string>, timestamp: string)
    requires ValidateSpec(hotkeys).Valid?
    requires forall i :: 0 <= i < |name| ==> name[i] == ' '
    ensures var r := SaveHotkeys(outputDir, name, hotkeys, filename, url, timestamp, None, None);
      r.Ok? && r.value.path == outputDir + "/" + CleanFilename(filename) + ".json"
  {
    BlankCleansToNothing(name);
    SavedPath(outputDir, name, hotkeys, filename, url, timestamp);
  }

  /** The document a successful save writes holds the validated entries under `hotkeys`. */
  lemma SavedEntries(outputDir: string, name: string, hotkeys: Json, filename: string, url: Option<string>,
                     timestamp: string)
    requires ValidateSpec(hotkeys).Valid?
    ensures var r := SaveHotkeys(outputDir, name, hotkeys, filename, url, timestamp, None, None);
      r.Ok? && Get(r.value.document, "hotkeys") == Some(JList(ValidateSpec(hotkeys).entries))
  {
  }

  /** The document a successful save writes holds the URL and the timestamp under `metadata`. */
  lemma SavedMetadata(outputDir: string, name: string, hotkeys: Json, filename: string, url: Option<string>,
                      timestamp: string)
    requires ValidateSpec(hotkeys).Valid?
    ensures var r := SaveHotkeys(outputDir, name, hotkeys, filename, url, timestamp, None, None);
      r.Ok? && Get(r.value.document, "metadata") == Some(JObject(map["url" := UrlValue(url), "timestamp" := JStr(timestamp)]))
  {
  }
}
