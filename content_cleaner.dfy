/** Line normalisation of the text extracted from a web page
    (src/import_hotkeys/web/content_cleaner.py): `clean` keeps the stripped, non-blank lines and
    joins them with newlines; `save_html` derives the file it writes from the page name. The text
    extraction itself (`soup.get_text`) belongs to a foreign library and is taken as an input. */
module ContentCleaner {
  import opened Strings
  import opened Wrappers

  /** The characters at which Python's `str.splitlines()` ends a line (`\r\n` counts as one). */
  predicate LineBreak(c: char) {
    c == '\n' || c == '\r' || c == '\U{b}' || c == '\U{c}' || c == '\U{1c}' || c == '\U{1d}'
    || c == '\U{1e}' || c == '\U{85}' || c == '\U{2028}' || c == '\U{2029}'
  }

  /** `s` holds no line-break character. */
  predicate OneLine(s: string) {
    forall i :: 0 <= i < |s| ==> !LineBreak(s[i])
  }

  /** The first line break at or after `i`, or the end of `s`. */
  function LineEnd(s: string, i: nat): (k: nat)
    requires i <= |s|
    ensures i <= k <= |s|
    ensures forall j :: i <= j < k ==> !LineBreak(s[j])
    ensures k == |s| || LineBreak(s[k])
    decreases |s| - i
  {
    if i < |s| && !LineBreak(s[i]) then LineEnd(s, i + 1) else i
  }

  /** Python's `s.splitlines()`: the lines without their breaks; no line follows a final break,
      and the empty text has no line at all. */
  function SplitLines(s: string): (lines: seq<string>)
    ensures forall k :: 0 <= k < |lines| ==> OneLine(lines[k])
    decreases |s|
  {
    if s == [] then []
    else
      var k := LineEnd(s, 0);
      if k == |s| then [s]
      else
        var next := if s[k] == '\r' && k + 1 < |s| && s[k + 1] == '\n' then k + 2 else k + 1;
        [s[..k]] + SplitLines(s[next..])
  }

  /** For text whose only line breaks are `\n`, the lines joined with `\n` give the text back,
      less the final newline when there is one: nothing is lost or reordered, and a line ends
      exactly at each break. */
  lemma {:induction false} SplitLinesJoin(s: string)
    requires forall i :: 0 <= i < |s| && LineBreak(s[i]) ==> s[i] == '\n'
    ensures s == [] || s[|s| - 1] != '\n' ==> Join(SplitLines(s), ['\n']) == s
    ensures s != [] && s[|s| - 1] == '\n' ==> Join(SplitLines(s), ['\n']) + ['\n'] == s
    decreases |s|
  {
    if s != [] {
      var k := LineEnd(s, 0);
      if k < |s| {
        var rest := s[k + 1..];
        assert s[..k] + ['\n'] + rest == s;
        if rest != [] {
          SplitLinesJoin(rest);
          assert rest[|rest| - 1] == s[|s| - 1];
          assert SplitLines(rest) != [];
        }
      }
    }
  }

  /** The characters of `s` that are not line breaks, in order. */
  function Unbroken(s: string): (r: string)
    ensures |r| <= |s|
  {
    if s == [] then [] else (if LineBreak(s[0]) then [] else [s[0]]) + Unbroken(s[1..])
  }

  /** The lines written one after another, with nothing between them. */
  function Concat(lines: seq<string>): string {
    if lines == [] then [] else lines[0] + Concat(lines[1..])
  }

  lemma {:induction false} UnbrokenAppend(a: string, b: string)
    ensures Unbroken(a + b) == Unbroken(a) + Unbroken(b)
    decreases |a|
  {
    if a == [] {
      assert a + b == b;
    } else {
      assert (a + b)[0] == a[0] && (a + b)[1..] == a[1..] + b;
      UnbrokenAppend(a[1..], b);
    }
  }

  lemma {:induction false} UnbrokenOneLine(s: string)
    requires OneLine(s)
    ensures Unbroken(s) == s
    decreases |s|
  {
    if s != [] {
      UnbrokenOneLine(s[1..]);
    }
  }

  /** Whatever the breaks, the lines hold every other character of the text, in order, and
      nothing else. */
  lemma {:induction false} SplitLinesKeepsText(s: string)
    ensures Concat(SplitLines(s)) == Unbroken(s)
    decreases |s|
  {
    if s != [] {
      var k := LineEnd(s, 0);
      var a := s[..k];
      assert OneLine(a);
      if k == |s| {
        assert a == s;
        UnbrokenOneLine(a);
      } else {
        var next := if s[k] == '\r' && k + 1 < |s| && s[k + 1] == '\n' then k + 2 else k + 1;
        var brk, c := s[k..next], s[next..];
        assert a + brk + c == s;
        BreakRun(s, k, next);
        SplitLinesKeepsText(c);
        KeepsTextStep(a, brk, c);
      }
    }
  }

  /** One line, its break, and the lines after it. */
  lemma KeepsTextStep(a: string, brk: string, c: string)
    requires OneLine(a)
    requires forall j :: 0 <= j < |brk| ==> LineBreak(brk[j])
    requires Concat(SplitLines(c)) == Unbroken(c)
    ensures Concat([a] + SplitLines(c)) == Unbroken(a + brk + c)
  {
    UnbrokenOneLine(a);
    UnbrokenDropsBreaks(a, brk, c);
    assert ([a] + SplitLines(c))[1..] == SplitLines(c);
  }

  /** The one- or two-character break `SplitLines` skips holds break characters only. */
  lemma BreakRun(s: string, k: nat, next: nat)
    requires k < |s| && LineBreak(s[k])
    requires next == (if s[k] == '\r' && k + 1 < |s| && s[k + 1] == '\n' then k + 2 else k + 1)
    ensures forall j :: 0 <= j < |s[k..next]| ==> LineBreak(s[k..next][j])
  {
  }

  /** Break characters between two pieces of text contribute nothing. */
  lemma UnbrokenDropsBreaks(a: string, brk: string, c: string)
    requires forall j :: 0 <= j < |brk| ==> LineBreak(brk[j])
    ensures Unbroken(a + brk + c) == Unbroken(a) + Unbroken(c)
  {
    UnbrokenAppend(a + brk, c);
    UnbrokenAppend(a, brk);
    UnbrokenBreaks(brk);
    assert Unbroken(a) + [] == Unbroken(a);
  }

  lemma {:induction false} UnbrokenBreaks(b: string)
    requires forall j :: 0 <= j < |b| ==> LineBreak(b[j])
    ensures Unbroken(b) == []
    decreases |b|
  {
    if b != [] {
      UnbrokenBreaks(b[1..]);
    }
  }

  /** `[line.strip() for line in lines if line.strip()]`. */
  function NonBlank(lines: seq<string>): seq<string>
    decreases |lines|
  {
    if lines == [] then []
    else (if Strip(lines[0]) == [] then [] else [Strip(lines[0])]) + NonBlank(lines[1..])
  }

  /** `clean(soup)` with `soup.get_text(...)` given as `text`: the empty text when there is no
      page, otherwise the stripped non-blank lines joined with newlines. */
  function Clean(text: Option<string>): (r: string)
    ensures text.None? ==> r == []
  {
    if text.None? then [] else Join(NonBlank(SplitLines(text.value)), ['\n'])
  }

  /** Filtering a concatenation filters each part: the kept lines stay in their order. */
  lemma {:induction false} NonBlankAppend(a: seq<string>, b: seq<string>)
    ensures NonBlank(a + b) == NonBlank(a) + NonBlank(b)
    decreases |a|
  {
    if a != [] {
      assert (a + b)[0] == a[0] && (a + b)[1..] == a[1..] + b;
      NonBlankAppend(a[1..], b);
    } else {
      assert a + b == b;
    }
  }

  /** A line is kept exactly when it is the stripped form of some input line and not empty. */
  lemma {:induction false} NonBlankMembers(lines: seq<string>, x: string)
    ensures x in NonBlank(lines) <==> x != [] && exists i :: 0 <= i < |lines| && Strip(lines[i]) == x
    decreases |lines|
  {
    if lines != [] {
      NonBlankMembers(lines[1..], x);
      if x != [] && exists i :: 0 <= i < |lines| && Strip(lines[i]) == x {
        var i :| 0 <= i < |lines| && Strip(lines[i]) == x;
        if i > 0 {
          assert lines[1..][i - 1] == lines[i];
        }
      }
      if exists i :: 0 <= i < |lines[1..]| && Strip(lines[1..][i]) == x {
        var i :| 0 <= i < |lines[1..]| && Strip(lines[1..][i]) == x;
        assert lines[i + 1] == lines[1..][i];
      }
    }
  }

  /** Every kept line is non-empty and stripped, and holds no character the input lines did not
      hold. */
  lemma {:induction false} NonBlankLines(lines: seq<string>)
    ensures forall k :: 0 <= k < |NonBlank(lines)| ==> NonBlank(lines)[k] != [] && Stripped(NonBlank(lines)[k])
    ensures (forall k :: 0 <= k < |lines| ==> OneLine(lines[k])) ==>
      forall k :: 0 <= k < |NonBlank(lines)| ==> OneLine(NonBlank(lines)[k])
    decreases |lines|
  {
    if lines != [] {
      NonBlankLines(lines[1..]);
      var head := Strip(lines[0]);
      var kept := if head == [] then [] else [head];
      assert NonBlank(lines) == kept + NonBlank(lines[1..]);
      StripChars(lines[0]);
      if OneLine(lines[0]) {
        assert OneLine(head) by {
          forall i | 0 <= i < |head| ensures !LineBreak(head[i]) {
            assert head[i] in lines[0];
          }
        }
      }
    }
  }

  /** The cleaned text splits at its newlines back into the kept lines, so it contains no
      empty line; when nothing is kept it is empty. */
  lemma CleanSplits(text: string)
    ensures var lines := NonBlank(SplitLines(text));
      (lines == [] ==> Clean(Some(text)) == [])
      && (lines != [] ==> Split(Clean(Some(text)), '\n') == lines)
  {
    var lines := NonBlank(SplitLines(text));
    NonBlankLines(SplitLines(text));
    if lines != [] {
      forall k | 0 <= k < |lines| ensures '\n' !in lines[k] {
        assert OneLine(lines[k]);
      }
      SplitJoin(lines, '\n');
    }
  }

  /** The cleaned text has no leading or trailing whitespace. */
  lemma CleanStripped(text: Option<string>)
    ensures Stripped(Clean(text))
  {
    if text.Some? {
      var lines := NonBlank(SplitLines(text.value));
      NonBlankLines(SplitLines(text.value));
      if lines != [] {
        JoinEnds(lines, ['\n']);
        var last := lines[|lines| - 1];
        assert Stripped(lines[0]) && Stripped(last);
      }
    }
  }

  /** The file `save_html(html, name)` writes: the name lower-cased, its spaces turned into
      underscores, under `tmp/html`. */
  function SaveHtmlPath(name: string): string {
    "tmp/html/" + SaveHtmlStem(name) + ".html"
  }

  /** The file name stem `save_html` derives from `name`. */
  function SaveHtmlStem(name: string): (stem: string)
    ensures |stem| == |name|
    ensures forall i :: 0 <= i < |name| ==> stem[i] == if name[i] == ' ' then '_' else LowerChar(name[i])
  {
    ReplaceChar(Lower(name), ' ', '_');
    Replace(Lower(name), [' '], ['_'])
  }

  /** The stem holds no space and no upper-case letter. */
  lemma SaveHtmlStemClean(name: string)
    ensures ' ' !in SaveHtmlStem(name) && NoUpper(SaveHtmlStem(name))
  {
    LowerNoUpper(name);
    ReplaceRemovesChar(Lower(name), ' ', ['_']);
    ReplaceNoUpper(Lower(name), [' '], ['_']);
  }
}
