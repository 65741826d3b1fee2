/** The Python `str` operations the application relies on, over `seq<char>`.

    Case mapping is ASCII-only (`Lower` maps 'A'..'Z'); whitespace is the full set of
    characters for which Python's `str.isspace()` holds. */
module Strings {

  /** Python's `str.isspace()` on one character. */
  predicate IsSpace(c: char) {
    c == ' ' || ('\t' <= c <= '\r') || ('\U{1c}' <= c <= '\U{1f}') || c == '\U{85}' || c == '\U{a0}'
    || c == '\U{1680}' || ('\U{2000}' <= c <= '\U{200a}') || c == '\U{2028}' || c == '\U{2029}'
    || c == '\U{202f}' || c == '\U{205f}' || c == '\U{3000}'
  }

  predicate IsUpper(c: char) {
    'A' <= c <= 'Z'
  }

  /** No character of `s` is an upper-case ASCII letter. */
  predicate NoUpper(s: string) {
    forall i :: 0 <= i < |s| ==> !IsUpper(s[i])
  }

  /** `s` has neither leading nor trailing whitespace. */
  predicate Stripped(s: string) {
    s == [] || (!IsSpace(s[0]) && !IsSpace(s[|s| - 1]))
  }

  function LowerChar(c: char): (d: char)
    ensures !IsUpper(d)
    ensures IsSpace(d) == IsSpace(c)
    ensures !IsUpper(c) ==> d == c
  {
    if IsUpper(c) then (c as int + 32) as char else c
  }

  /** Python's `s.lower()`, restricted to ASCII letters. */
  function Lower(s: string): (r: string)
    ensures |r| == |s|
    ensures forall i :: 0 <= i < |s| ==> r[i] == LowerChar(s[i])
  {
    seq(|s|, i requires 0 <= i < |s| => LowerChar(s[i]))
  }

  lemma LowerNoUpper(s: string)
    ensures NoUpper(Lower(s))
  {
  }

  lemma LowerIdentity(s: string)
    requires NoUpper(s)
    ensures Lower(s) == s
  {
  }

  lemma LowerAppend(a: string, b: string)
    ensures Lower(a + b) == Lower(a) + Lower(b)
  {
  }

  /** The first position at or after `i` that is not whitespace (or the end). */
  function SkipSpace(s: string, i: nat): (k: nat)
    requires i <= |s|
    ensures i <= k <= |s|
    ensures forall j :: i <= j < k ==> IsSpace(s[j])
    ensures k == |s| || !IsSpace(s[k])
    decreases |s| - i
  {
    if i < |s| && IsSpace(s[i]) then SkipSpace(s, i + 1) else i
  }

  /** The end of `s[lo..n]` once its trailing whitespace is cut off. */
  function TrimSpace(s: string, lo: nat, n: nat): (k: nat)
    requires lo <= n <= |s|
    ensures lo <= k <= n
    ensures forall j :: k <= j < n ==> IsSpace(s[j])
    ensures k == lo || !IsSpace(s[k - 1])
    decreases n
  {
    if n > lo && IsSpace(s[n - 1]) then TrimSpace(s, lo, n - 1) else n
  }

  /** Where `Strip(s)` starts and ends in `s`. */
  function StripStart(s: string): nat {
    SkipSpace(s, 0)
  }

  function StripEnd(s: string): (e: nat)
    ensures StripStart(s) <= e <= |s|
  {
    TrimSpace(s, StripStart(s), |s|)
  }

  /** Python's `s.strip()`: `s` without its leading and trailing whitespace. */
  function Strip(s: string): (r: string)
    ensures Stripped(r)
    ensures |r| <= |s|
  {
    s[StripStart(s)..StripEnd(s)]
  }

  /** Only whitespace is cut off on either side. */
  lemma StripCutsSpace(s: string)
    ensures forall j :: 0 <= j < StripStart(s) ==> IsSpace(s[j])
    ensures forall j :: StripEnd(s) <= j < |s| ==> IsSpace(s[j])
  {
  }

  /** Every character of `Strip(s)` is a character of `s`. */
  lemma StripChars(s: string)
    ensures forall c :: c in Strip(s) ==> c in s
  {
    var r := Strip(s);
    var i := StripStart(s);
    forall c | c in r ensures c in s {
      var k :| 0 <= k < |r| && r[k] == c;
      assert s[i + k] == c;
    }
  }

  /** Stripping text that is already stripped changes nothing. */
  lemma StripIdentity(s: string)
    requires Stripped(s)
    ensures Strip(s) == s
  {
    assert StripStart(s) == 0;
    assert StripEnd(s) == |s|;
  }

  lemma {:induction false} SkipSpaceLower(s: string, i: nat)
    requires i <= |s|
    ensures SkipSpace(Lower(s), i) == SkipSpace(s, i)
    decreases |s| - i
  {
    if i < |s| {
      SkipSpaceLower(s, i + 1);
    }
  }

  lemma {:induction false} TrimSpaceLower(s: string, lo: nat, n: nat)
    requires lo <= n <= |s|
    ensures TrimSpace(Lower(s), lo, n) == TrimSpace(s, lo, n)
    decreases n
  {
    if n > lo {
      TrimSpaceLower(s, lo, n - 1);
    }
  }

  /** Lower-casing and stripping commute: case mapping never touches whitespace. */
  lemma StripLower(s: string)
    ensures Strip(Lower(s)) == Lower(Strip(s))
  {
    StripBoundsLower(s);
    LowerSlice(s, StripStart(s), StripEnd(s));
  }

  /** Lower-casing moves neither end of the stripped part. */
  lemma StripBoundsLower(s: string)
    ensures StripStart(Lower(s)) == StripStart(s) && StripEnd(Lower(s)) == StripEnd(s)
  {
    SkipSpaceLower(s, 0);
    TrimSpaceLower(s, StripStart(s), |s|);
  }

  lemma LowerSlice(s: string, a: nat, b: nat)
    requires a <= b <= |s|
    ensures Lower(s)[a..b] == Lower(s[a..b])
  {
    var l, t := Lower(s), s[a..b];
    forall k | 0 <= k < b - a ensures l[a..b][k] == Lower(t)[k] {
      assert l[a..b][k] == LowerChar(s[a + k]) == LowerChar(t[k]);
    }
  }

  /** Python's `s.split(sep)` for a one-character separator. */
  function Split(s: string, sep: char): (parts: seq<string>)
    ensures |parts| >= 1
    ensures forall k :: 0 <= k < |parts| ==> sep !in parts[k]
  {
    if s == [] then [[]]
    else
      var rest := Split(s[1..], sep);
      if s[0] == sep then [[]] + rest else [[s[0]] + rest[0]] + rest[1..]
  }

  /** Python's `sep.join(parts)`. */
  function Join(parts: seq<string>, sep: string): string
  {
    if |parts| == 0 then []
    else if |parts| == 1 then parts[0]
    else parts[0] + sep + Join(parts[1..], sep)
  }

  /** Splitting at a character and joining again with that character gives back the text. */
  lemma {:induction false} JoinSplit(s: string, sep: char)
    ensures Join(Split(s, sep), [sep]) == s
    decreases |s|
  {
    if s != [] {
      JoinSplit(s[1..], sep);
      var rest := Split(s[1..], sep);
      if s[0] != sep {
        if |rest| > 1 {
          assert Join(rest, [sep]) == rest[0] + [sep] + Join(rest[1..], [sep]);
        }
      }
    }
  }

  /** Joining parts that do not contain the separator and splitting again gives back the parts. */
  lemma {:induction false} SplitJoin(parts: seq<string>, sep: char)
    requires |parts| >= 1
    requires forall k :: 0 <= k < |parts| ==> sep !in parts[k]
    ensures Split(Join(parts, [sep]), sep) == parts
    decreases |parts|, |parts[0]|
  {
    var j := Join(parts, [sep]);
    if |parts[0]| > 0 {
      var p0 := parts[0];
      var tail := [p0[1..]] + parts[1..];
      SplitJoin(tail, sep);
      JoinDropFirst(parts, sep);
      assert [p0[0]] + p0[1..] == p0;
    } else if |parts| > 1 {
      SplitJoin(parts[1..], sep);
      assert j == [sep] + Join(parts[1..], [sep]);
      assert j[1..] == Join(parts[1..], [sep]);
    }
  }

  /** Dropping the first character of a joined text whose first part is not empty drops it from
      that part. */
  lemma JoinDropFirst(parts: seq<string>, sep: char)
    requires |parts| >= 1 && |parts[0]| > 0
    ensures var j := Join(parts, [sep]);
      |j| > 0 && j[0] == parts[0][0] && j[1..] == Join([parts[0][1..]] + parts[1..], [sep])
  {
    var p0 := parts[0];
    var tail := [p0[1..]] + parts[1..];
    var j := Join(parts, [sep]);
    if |parts| == 1 {
      assert j[1..] == Join(tail, [sep]);
    } else {
      assert tail[1..] == parts[1..];
      assert j == p0 + [sep] + Join(parts[1..], [sep]);
      assert j[1..] == p0[1..] + [sep] + Join(parts[1..], [sep]);
    }
  }

  /** A join of non-empty parts starts with the first part's first character and ends with the
      last part's last character. */
  lemma {:induction false} JoinEnds(parts: seq<string>, sep: string)
    requires |parts| >= 1 && forall k :: 0 <= k < |parts| ==> |parts[k]| > 0
    ensures var j, last := Join(parts, sep), parts[|parts| - 1];
      |j| > 0 && j[0] == parts[0][0] && j[|j| - 1] == last[|last| - 1]
    decreases |parts|
  {
    if |parts| > 1 {
      JoinEnds(parts[1..], sep);
      assert parts[1..][|parts| - 2] == parts[|parts| - 1];
    }
  }

  /** Python's `s.startswith(p)`. */
  predicate StartsWith(s: string, p: string) {
    |p| <= |s| && s[..|p|] == p
  }

  /** Python's `s.endswith(p)`. */
  predicate EndsWith(s: string, p: string) {
    |p| <= |s| && s[|s| - |p|..] == p
  }

  /** Python's `t in s`: `t` occurs in `s` as a contiguous substring. */
  predicate Contains(s: string, t: string)
    decreases |s|
  {
    StartsWith(s, t) || (s != [] && Contains(s[1..], t))
  }

  /** `Contains` agrees with the direct definition "some slice of `s` equals `t`". */
  lemma {:induction false} ContainsAt(s: string, t: string)
    ensures Contains(s, t) <==> exists i :: 0 <= i <= |s| - |t| && s[i..][..|t|] == t
    decreases |s|
  {
    if StartsWith(s, t) {
      assert s[0..][..|t|] == t;
    }
    if s != [] {
      ContainsAt(s[1..], t);
      if Contains(s[1..], t) {
        var i :| 0 <= i <= |s| - 1 - |t| && s[1..][i..][..|t|] == t;
        assert s[i + 1..][..|t|] == t;
      }
      if exists i :: 0 <= i <= |s| - |t| && s[i..][..|t|] == t {
        var i :| 0 <= i <= |s| - |t| && s[i..][..|t|] == t;
        if i > 0 {
          assert s[1..][i - 1..] == s[i..];
        }
      }
    }
  }

  /** Python's `s.split(pat)[0]` for a non-empty pattern: the text before the first occurrence of `pat`. */
  function SplitFirst(s: string, pat: string): (r: string)
    requires |pat| > 0
    ensures StartsWith(s, r)
    decreases |s|
  {
    if s == [] || StartsWith(s, pat) then [] else [s[0]] + SplitFirst(s[1..], pat)
  }

  /** Python's `s.replace("", repl)`: `repl` before every character and at the end. */
  function Interleave(s: string, repl: string): string
  {
    if s == [] then repl else repl + [s[0]] + Interleave(s[1..], repl)
  }

  /** Python's `s.replace(pat, repl)`: every non-overlapping occurrence of `pat`, scanning left to right, becomes `repl`. */
  function Replace(s: string, pat: string, repl: string): string
    decreases |s|
  {
    if pat == [] then Interleave(s, repl)
    else if s == [] then []
    else if StartsWith(s, pat) then repl + Replace(s[|pat|..], pat, repl)
    else [s[0]] + Replace(s[1..], pat, repl)
  }

  lemma {:induction false} InterleaveNoUpper(s: string, repl: string)
    requires NoUpper(s) && NoUpper(repl)
    ensures NoUpper(Interleave(s, repl))
    decreases |s|
  {
    if s != [] {
      InterleaveNoUpper(s[1..], repl);
    }
  }

  /** Replacing with lower-case text keeps lower-case text lower-case. */
  lemma {:induction false} ReplaceNoUpper(s: string, pat: string, repl: string)
    requires NoUpper(s) && NoUpper(repl)
    ensures NoUpper(Replace(s, pat, repl))
    decreases |s|
  {
    if pat == [] {
      InterleaveNoUpper(s, repl);
    } else if s != [] {
      if StartsWith(s, pat) {
        ReplaceNoUpper(s[|pat|..], pat, repl);
      } else {
        ReplaceNoUpper(s[1..], pat, repl);
      }
    }
  }

  /** Replacing one character by text that does not hold it removes that character altogether. */
  lemma {:induction false} ReplaceRemovesChar(s: string, c: char, repl: string)
    requires c !in repl
    ensures c !in Replace(s, [c], repl)
    decreases |s|
  {
    if s != [] {
      if StartsWith(s, [c]) {
        ReplaceRemovesChar(s[1..], c, repl);
      } else {
        assert s[0] != c;
        ReplaceRemovesChar(s[1..], c, repl);
      }
    }
  }

  /** Text that does not contain `pat` is left as it is. */
  lemma {:induction false} ReplaceAbsent(s: string, pat: string, repl: string)
    requires pat != [] && !Contains(s, pat)
    ensures Replace(s, pat, repl) == s
    decreases |s|
  {
    if s != [] {
      ReplaceAbsent(s[1..], pat, repl);
    }
  }

  /** Replacing one character by another character rewrites exactly the positions that held it. */
  lemma {:induction false} ReplaceChar(s: string, c: char, d: char)
    ensures var r := Replace(s, [c], [d]);
      |r| == |s| && forall i :: 0 <= i < |s| ==> r[i] == if s[i] == c then d else s[i]
    decreases |s|
  {
    if s != [] {
      ReplaceChar(s[1..], c, d);
      var r, rest := Replace(s, [c], [d]), Replace(s[1..], [c], [d]);
      assert StartsWith(s, [c]) <==> s[0] == c;
      assert r == [if s[0] == c then d else s[0]] + rest;
    }
  }
}
