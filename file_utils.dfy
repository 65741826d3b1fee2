/** The base-path state and the path and MIME helpers of src/utils/FileUtils.py. `os.path.normpath`
    is passed in as a function; MIME detection, downloads and file-existence checks touch the
    file system or the network and are not part of this model. */
module FileUtils {
  import opened Strings
  import opened Wrappers

  /** Python's `a + b` where `a` is the configured base path: a `TypeError` while it is unset. */
  function Concat(base: Option<string>, rest: string): (r: Result<string>)
    ensures r.Ok? <==> base.Some?
    ensures r.Ok? ==> StartsWith(r.value, base.value) && r.value[|base.value|..] == rest
  {
    if base.None? then Err("TypeError: unsupported operand type(s) for +: 'NoneType' and 'str'")
    else
      assert (base.value + rest)[..|base.value|] == base.value;
      Ok(base.value + rest)
  }

  /** A directory under the base path, normalised and given its trailing separator. */
  function DirUnder(base: Option<string>, dir: string, normpath: string -> string): (r: Result<string>)
    ensures r.Ok? <==> base.Some?
    ensures r.Ok? ==> EndsWith(r.value, "/")
  {
    match Concat(base, dir)
    case Err(e) => Err(e)
    case Ok(p) =>
      var d := normpath(p) + "/";
      assert d[|d| - 1..] == "/";
      Ok(d)
  }

  /** The class attribute `FileUtils.base_path`, shared by all callers. */
  class Files {
    var basePath: Option<string>

    /** The attribute starts out as `None`. */
    constructor ()
      ensures basePath.None?
    {
      basePath := None;
    }

    /** `set_base_path(p)`. */
    method SetBasePath(p: string)
      modifies this
      ensures BaseDir() == Some(p)
    {
      basePath := Some(p);
    }

    /** `base_dir()`: the value last set, `None` before any. */
    function BaseDir(): Option<string>
      reads this
    {
      basePath
    }

    /** `downloads_path()`. */
    function DownloadsPath(normpath: string -> string): (r: Result<string>)
      reads this
      ensures r.Ok? <==> BaseDir().Some?
      ensures r.Ok? ==> EndsWith(r.value, "/") && r.value == normpath(BaseDir().value + "downloads/") + "/"
    {
      DirUnder(BaseDir(), "downloads/", normpath)
    }

    /** `data_path()`. */
    function DataPath(normpath: string -> string): (r: Result<string>)
      reads this
      ensures r.Ok? <==> BaseDir().Some?
      ensures r.Ok? ==> EndsWith(r.value, "/") && r.value == normpath(BaseDir().value + "data/") + "/"
    {
      DirUnder(BaseDir(), "data/", normpath)
    }

    /** `tmp_path()`. */
    function TmpPath(normpath: string -> string): (r: Result<string>)
      reads this
      ensures r.Ok? <==> BaseDir().Some?
      ensures r.Ok? ==> EndsWith(r.value, "/") && r.value == normpath(BaseDir().value + "tmp/") + "/"
    {
      DirUnder(BaseDir(), "tmp/", normpath)
    }

    /** `tools_path(path)`: normalised, no trailing separator added. */
    function ToolsPath(path: string, normpath: string -> string): (r: Result<string>)
      reads this
      ensures r.Ok? <==> BaseDir().Some?
      ensures r.Ok? ==> r.value == normpath(BaseDir().value + "tools/" + path)
    {
      match Concat(BaseDir(), "tools/" + path)
      case Err(e) => Err(e)
      case Ok(p) =>
        assert p == BaseDir().value + "tools/" + path;
        Ok(normpath(p))
    }

    /** `chrome_extension_path(path)`. */
    function ChromeExtensionPath(path: string, normpath: string -> string): (r: Result<string>)
      reads this
      ensures r.Ok? <==> BaseDir().Some?
      ensures r.Ok? ==> r.value == normpath(BaseDir().value + path)
    {
      match Concat(BaseDir(), path)
      case Err(e) => Err(e)
      case Ok(p) => Ok(normpath(p))
    }
  }

  /** Once a base path is set, the data directory is `<base>data/` normalised, with a trailing
      separator, whatever was set before. */
  method SetThenDataPath(files: Files, p: string, normpath: string -> string) returns (r: Result<string>)
    modifies files
    ensures files.BaseDir() == Some(p)
    ensures r == Ok(normpath(p + "data/") + "/")
  {
    files.SetBasePath(p);
    r := files.DataPath(normpath);
  }

  /** `is_image(mime_type)`. */
  predicate IsImage(mime: string) {
    StartsWith(mime, "image/")
  }

  /** `is_audio_or_video(mime_type)`. */
  predicate IsAudioOrVideo(mime: string) {
    StartsWith(mime, "audio/") || StartsWith(mime, "video/")
  }

  /** No MIME type is both an image and audio or video. */
  lemma MimeClassesDisjoint(mime: string)
    ensures !(IsImage(mime) && IsAudioOrVideo(mime))
  {
    if IsImage(mime) {
      assert mime[0] == "image/"[0] == 'i';
    }
  }

  /** For a top-level type without a separator, the prefix test holds exactly for that one
      top-level type. */
  lemma TopLevelPrefix(top: string, sub: string, expected: string)
    requires '/' !in top && '/' !in expected
    ensures StartsWith(top + "/" + sub, expected + "/") <==> top == expected
  {
    var m, e := top + "/" + sub, expected + "/";
    if top == expected {
      assert m[..|e|] == e;
    }
    if StartsWith(m, e) {
      assert forall i :: 0 <= i < |top| ==> m[i] == top[i];
      assert m[|top|] == '/';
      assert forall i :: 0 <= i <= |expected| ==> m[i] == e[i];
      FirstSlashUnique(m, |top|, |expected|);
      assert top == m[..|top|] == expected;
    }
  }

  /** A string has one first separator. */
  lemma FirstSlashUnique(s: string, a: nat, b: nat)
    requires a < |s| && b < |s| && s[a] == '/' && s[b] == '/'
    requires forall i :: 0 <= i < a ==> s[i] != '/'
    requires forall i :: 0 <= i < b ==> s[i] != '/'
    ensures a == b
  {
  }

  /** `is_image` and `is_audio_or_video` classify `<top>/<sub>` by its top-level type alone. */
  lemma MimeTopLevel(top: string, sub: string)
    requires '/' !in top
    ensures IsImage(top + "/" + sub) <==> top == "image"
    ensures IsAudioOrVideo(top + "/" + sub) <==> top == "audio" || top == "video"
  {
    TopLevelPrefix(top, sub, "image");
    TopLevelPrefix(top, sub, "audio");
    TopLevelPrefix(top, sub, "video");
  }
}
