/** Text helpers of src/utils/StringUtils.py: `trim_string` (slice, whitespace-run collapsing,
    strip) and the empty-input guard of `detect_language`. The HTML, Markdown and language-code
    helpers call foreign libraries and are not part of this model. */
module StringUtils {
  import opened Strings
  import opened Wrappers

  /** Python's `s[:n]`: a negative `n` counts from the end, and the slice never runs past either
      end. */
  function Prefix(s: string, n: int): (r: string)
    ensures n >= 0 ==> |r| == if n < |s| then n else |s|
    ensures n < 0 ==> |r| == if |s| + n > 0 then |s| + n else 0
    ensures r == s[..|r|]
  {
    if n >= 0 then (if n < |s| then s[..n] else s)
    else if |s| + n > 0 then s[..|s| + n] else []
  }

  /** `re.sub(r'\s+', ' ', s)`: every maximal run of whitespace becomes one space. */
  function Collapse(s: string): (r: string)
    ensures |r| <= |s|
    ensures s == [] <==> r == []
    ensures s != [] ==> IsSpace(r[0]) == IsSpace(s[0])
    decreases |s|
  {
    if s == [] then []
    else if IsSpace(s[0]) then [' '] + Collapse(s[SkipSpace(s, 0)..])
    else [s[0]] + Collapse(s[1..])
  }

  /** `trim_string(s, n)`: the first `n` characters, whitespace runs collapsed, then stripped. */
  function TrimString(s: string, n: int): string {
    Strip(Collapse(Prefix(s, n)))
  }

  /** Every whitespace character of `s` is a plain space, and no two whitespace characters are
      adjacent. */
  predicate Collapsed(s: string) {
    (forall i :: 0 <= i < |s| && IsSpace(s[i]) ==> s[i] == ' ')
    && (forall i :: 0 < i < |s| && IsSpace(s[i - 1]) ==> !IsSpace(s[i]))
  }

  /** The non-whitespace characters of `s`, in order. */
  function NonSpace(s: string): string
    decreases |s|
  {
    if s == [] then [] else (if IsSpace(s[0]) then [] else [s[0]]) + NonSpace(s[1..])
  }

  /** Collapsing leaves no whitespace other than single spaces. */
  lemma {:induction false} CollapseCollapsed(s: string)
    ensures Collapsed(Collapse(s))
    decreases |s|
  {
    if s != [] {
      var rest := if IsSpace(s[0]) then s[SkipSpace(s, 0)..] else s[1..];
      CollapseCollapsed(rest);
      var r, t := Collapse(s), Collapse(rest);
      assert r[1..] == t;
      forall i | 0 < i < |r| && IsSpace(r[i - 1]) ensures !IsSpace(r[i]) {
        if i > 1 {
          assert r[i - 1] == t[i - 2] && r[i] == t[i - 1];
        }
      }
      forall i | 0 <= i < |r| && IsSpace(r[i]) ensures r[i] == ' ' {
        if i > 0 {
          assert r[i] == t[i - 1];
        }
      }
    }
  }

  /** Every slice of a collapsed string is collapsed. */
  lemma CollapsedSlice(s: string, a: nat, b: nat)
    requires a <= b <= |s| && Collapsed(s)
    ensures Collapsed(s[a..b])
  {
    var t := s[a..b];
    forall i | 0 < i < |t| && IsSpace(t[i - 1]) ensures !IsSpace(t[i]) {
      assert t[i - 1] == s[a + i - 1] && t[i] == s[a + i];
    }
  }

  /** A string without whitespace collapses to itself. */
  lemma {:induction false} CollapseIdentity(s: string)
    requires forall i :: 0 <= i < |s| ==> !IsSpace(s[i])
    ensures Collapse(s) == s
    decreases |s|
  {
    if s != [] {
      var rest := s[1..];
      assert forall i :: 0 <= i < |rest| ==> rest[i] == s[i + 1];
      CollapseIdentity(rest);
      assert s == [s[0]] + rest;
    }
  }

  lemma {:induction false} NonSpaceAppend(a: string, b: string)
    ensures NonSpace(a + b) == NonSpace(a) + NonSpace(b)
    decreases |a|
  {
    if a != [] {
      var ab := a + b;
      assert ab[0] == a[0] && ab[1..] == a[1..] + b;
      NonSpaceAppend(a[1..], b);
      assert NonSpace(ab) == (if IsSpace(a[0]) then [] else [a[0]]) + NonSpace(a[1..] + b);
    } else {
      assert a + b == b;
    }
  }

  /** Whitespace alone has no non-whitespace characters. */
  lemma {:induction false} NonSpaceOfSpaces(s: string)
    requires forall i :: 0 <= i < |s| ==> IsSpace(s[i])
    ensures NonSpace(s) == []
    decreases |s|
  {
    if s != [] {
      NonSpaceOfSpaces(s[1..]);
    }
  }

  /** Collapsing keeps every non-whitespace character, in order. */
  lemma {:induction false} CollapseKeepsText(s: string)
    ensures NonSpace(Collapse(s)) == NonSpace(s)
    decreases |s|
  {
    if s != [] {
      var k := if IsSpace(s[0]) then SkipSpace(s, 0) else 1;
      var head, rest := s[..k], s[k..];
      assert s == head + rest;
      CollapseKeepsText(rest);
      NonSpaceAppend(head, rest);
      var r := Collapse(s);
      assert r == [r[0]] + Collapse(rest);
      NonSpaceAppend([r[0]], Collapse(rest));
      if IsSpace(s[0]) {
        NonSpaceOfSpaces(head);
      } else {
        assert NonSpace(head) == [s[0]] + NonSpace(head[1..]);
      }
    }
  }

  /** Stripping keeps every non-whitespace character, in order. */
  lemma StripKeepsText(s: string)
    ensures NonSpace(Strip(s)) == NonSpace(s)
  {
    var a, b := StripStart(s), StripEnd(s);
    StripCutsSpace(s);
    var lead, mid, trail := s[..a], s[a..b], s[b..];
    assert s == lead + mid + trail;
    assert Strip(s) == mid;
    NonSpaceAppend(lead + mid, trail);
    NonSpaceAppend(lead, mid);
    assert forall j :: 0 <= j < |lead| ==> lead[j] == s[j];
    assert forall j :: 0 <= j < |trail| ==> trail[j] == s[b + j];
    NonSpaceOfSpaces(lead);
    NonSpaceOfSpaces(trail);
  }

  /** For a non-negative length the result is no longer than that length. */
  lemma TrimStringLength(s: string, n: int)
    requires n >= 0
    ensures |TrimString(s, n)| <= n
  {
  }

  /** The result has no surrounding whitespace, no two adjacent whitespace characters, and no
      whitespace but plain spaces. */
  lemma TrimStringShape(s: string, n: int)
    ensures Stripped(TrimString(s, n)) && Collapsed(TrimString(s, n))
  {
    var c := Collapse(Prefix(s, n));
    CollapseCollapsed(Prefix(s, n));
    CollapsedSlice(c, StripStart(c), StripEnd(c));
  }

  /** The result keeps every non-whitespace character of the first `n` characters, in order. */
  lemma TrimStringKeepsText(s: string, n: int)
    ensures NonSpace(TrimString(s, n)) == NonSpace(Prefix(s, n))
  {
    CollapseKeepsText(Prefix(s, n));
    StripKeepsText(Collapse(Prefix(s, n)));
  }

  /** When the first `n` characters hold no whitespace, they are the result. */
  lemma TrimStringPlain(s: string, n: int)
    requires forall i :: 0 <= i < |Prefix(s, n)| ==> !IsSpace(Prefix(s, n)[i])
    ensures TrimString(s, n) == Prefix(s, n)
  {
    var p := Prefix(s, n);
    CollapseIdentity(p);
    StripIdentity(p);
  }

  /** `detect_language(text, default)`, with the language detector passed in as `detect`
      (`None` when it raises, which the source catches and answers with `default`). */
  function DetectLanguage(text: string, default: string, detect: string -> Option<string>): (lang: string)
    ensures text == [] ==> lang == "unknown"
    ensures text != [] ==> lang == default || detect(text) == Some(lang)
  {
    if |text| < 1 then "unknown"
    else if detect(text).Some? then detect(text).value
    else default
  }

  /** Empty text is answered without consulting the detector: any two detectors agree. */
  lemma EmptyTextIgnoresDetector(default: string, d1: string -> Option<string>, d2: string -> Option<string>)
    ensures DetectLanguage([], default, d1) == DetectLanguage([], default, d2) == "unknown"
  {
  }
}
