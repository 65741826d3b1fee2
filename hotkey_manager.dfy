/** Registering global shortcuts (src/hotkeys/hotkey_manager.py): the combo string is rewritten
    into the form the hotkey library expects, and the library's handler and the callback are
    kept in two dictionaries keyed by the combo as the caller wrote it. */
module HotkeyRegistry {
  import opened Strings
  import KeyAliases

  /** `k.strip().lower()`. */
  function NormToken(k: string): string
  {
    Lower(Strip(k))
  }

  /** `[k.strip().lower() for k in parts]`. */
  function NormTokens(parts: seq<string>): (r: seq<string>)
    ensures |r| == |parts|
    ensures forall i :: 0 <= i < |r| ==> r[i] == NormToken(parts[i])
  {
    seq(|parts|, i requires 0 <= i < |parts| => NormToken(parts[i]))
  }

  /** The rewrite inside the comprehension of `_map_hotkey`. */
  function AliasToken(k: string): string
  {
    if k == "command" || k == "control" then "ctrl"
    else if k == "numpad+" then "+"
    else if k == "numpad-" then "-"
    else k
  }

  /** `[... for k in keys if k]`: the tokens that are not empty, in order. */
  function NonEmpty(ts: seq<string>): (r: seq<string>)
    ensures |r| <= |ts|
  {
    if ts == [] then [] else (if ts[0] != [] then [ts[0]] else []) + NonEmpty(ts[1..])
  }

  function AliasAll(ts: seq<string>): (r: seq<string>)
    ensures |r| == |ts|
    ensures forall i :: 0 <= i < |r| ==> r[i] == AliasToken(ts[i])
  {
    seq(|ts|, i requires 0 <= i < |ts| => AliasToken(ts[i]))
  }

  /** The tokens `_map_hotkey` joins when the combo holds no `++`. */
  function MappedTokens(hotkey: string): seq<string>
  {
    AliasAll(NonEmpty(NormTokens(Split(hotkey, '+'))))
  }

  /** `HotkeyManager._map_hotkey`. */
  function MapHotkey(hotkey: string): string
  {
    if Contains(hotkey, "++") then
      Join(NormTokens(Split(SplitFirst(hotkey, "++"), '+')) + ["+"], "+")
    else
      Join(MappedTokens(hotkey), "+")
  }

  // ---------------------------------------------------------------------------------------------
  // Normalisation of single tokens

  lemma LowerStripped(s: string)
    requires Stripped(s)
    ensures Stripped(Lower(s))
  {
  }

  /** A normalised token has no surrounding whitespace and no upper-case letter. */
  lemma NormTokenShape(k: string)
    ensures Stripped(NormToken(k)) && NoUpper(NormToken(k))
  {
    LowerStripped(Strip(k));
    LowerNoUpper(Strip(k));
  }

  /** A token that is already stripped and lower-case is left as it is. */
  lemma NormTokenIdentity(k: string)
    requires Stripped(k) && NoUpper(k)
    ensures NormToken(k) == k
  {
    StripIdentity(k);
    LowerIdentity(k);
  }

  lemma NormTokenNoPlus(k: string)
    requires '+' !in k
    ensures '+' !in NormToken(k)
  {
    StripChars(k);
    var s := Strip(k);
    forall i | 0 <= i < |s| ensures Lower(s)[i] != '+' {
      assert s[i] in s;
    }
  }

  // ---------------------------------------------------------------------------------------------
  // The filter and the rewrite

  /** The filter keeps exactly the non-empty tokens. */
  lemma {:induction false} NonEmptyMembers(ts: seq<string>)
    ensures forall t :: t in NonEmpty(ts) <==> t in ts && t != []
    decreases |ts|
  {
    if ts != [] {
      NonEmptyMembers(ts[1..]);
      assert ts == [ts[0]] + ts[1..];
    }
  }

  /** The filter keeps the order of what it keeps: it distributes over concatenation. */
  lemma {:induction false} NonEmptyAppend(a: seq<string>, b: seq<string>)
    ensures NonEmpty(a + b) == NonEmpty(a) + NonEmpty(b)
    decreases |a|
  {
    if a == [] {
      assert a + b == b;
    } else {
      assert (a + b)[0] == a[0];
      assert (a + b)[1..] == a[1..] + b;
      NonEmptyAppend(a[1..], b);
    }
  }

  /** Tokens that are all non-empty pass the filter unchanged. */
  lemma {:induction false} NonEmptyIdentity(ts: seq<string>)
    requires forall i :: 0 <= i < |ts| ==> ts[i] != []
    ensures NonEmpty(ts) == ts
    decreases |ts|
  {
    if ts != [] {
      NonEmptyIdentity(ts[1..]);
    }
  }

  /** Exactly `command`, `control`, `numpad+` and `numpad-` are rewritten, each to its entry in
      the alias table; every other token keeps its text. */
  lemma AliasTokenAgreesWithTable(k: string)
    ensures AliasToken(k) != k <==> k in {"command", "control", "numpad+", "numpad-"}
    ensures AliasToken(k) != k ==> k in KeyAliases.KeyAliases && AliasToken(k) == KeyAliases.KeyAliases[k]
  {
  }

  /** The table's other aliases (`plus`, `pgup`, `pgdn`, `pgdown`) are not applied when registering. */
  lemma OtherAliasesNotApplied()
    ensures forall k :: k in KeyAliases.KeyAliases && k !in {"command", "control", "numpad+", "numpad-"} ==>
      AliasToken(k) == k && KeyAliases.KeyAliases[k] != k
  {
  }

  /** Every token that survives the filter is non-empty, stripped, lower-case and free of `+`. */
  lemma KeptTokens(hotkey: string)
    ensures forall t :: t in NonEmpty(NormTokens(Split(hotkey, '+'))) ==>
      t != [] && Stripped(t) && NoUpper(t) && '+' !in t
  {
    var ps := Split(hotkey, '+');
    var ts := NormTokens(ps);
    NonEmptyMembers(ts);
    forall t | t in ts ensures Stripped(t) && NoUpper(t) && '+' !in t {
      var i :| 0 <= i < |ts| && ts[i] == t;
      NormTokenNoPlus(ps[i]);
      NormTokenShape(ps[i]);
    }
  }

  /** The `numpad+` branch can never fire: the tokens come from splitting at `+`. */
  lemma NumpadPlusUnreachable(hotkey: string)
    ensures forall t :: t in NonEmpty(NormTokens(Split(hotkey, '+'))) ==> t != "numpad+"
  {
    KeptTokens(hotkey);
    assert '+' in "numpad+";
  }

  /** Without `++`, every token of the result is stripped, lower-case, not empty and free of `+`,
      and none is one of the rewritten names; splitting the result at `+` gives the tokens back. */
  lemma MappedTokensShape(hotkey: string)
    ensures forall i :: 0 <= i < |MappedTokens(hotkey)| ==>
      var t := MappedTokens(hotkey)[i];
      t != [] && Stripped(t) && NoUpper(t) && '+' !in t
      && t !in {"command", "control", "numpad+", "numpad-"}
    ensures |MappedTokens(hotkey)| >= 1 ==> Split(Join(MappedTokens(hotkey), "+"), '+') == MappedTokens(hotkey)
  {
    var kept := NonEmpty(NormTokens(Split(hotkey, '+')));
    var r := MappedTokens(hotkey);
    KeptTokens(hotkey);
    forall i | 0 <= i < |r|
      ensures r[i] != [] && Stripped(r[i]) && NoUpper(r[i]) && '+' !in r[i]
        && r[i] !in {"command", "control", "numpad+", "numpad-"}
    {
      assert kept[i] in kept;
      AliasTokenShape(kept[i]);
    }
    if |r| >= 1 {
      SplitJoin(r, '+');
    }
  }

  /** The rewrite keeps a token's shape and never yields one of the names it rewrites. */
  lemma AliasTokenShape(t: string)
    requires t != [] && Stripped(t) && NoUpper(t) && '+' !in t
    ensures var a := AliasToken(t);
      a != [] && Stripped(a) && NoUpper(a) && '+' !in a && a !in {"command", "control", "numpad+", "numpad-"}
  {
  }

  // ---------------------------------------------------------------------------------------------
  // The `++` case

  /** With `++` in the combo, the tokens before the first `++` are normalised (without any alias
      rewrite) and `++` is appended; text after the first `++` is dropped. */
  lemma PlusPlusCase(hotkey: string)
    requires Contains(hotkey, "++")
    ensures MapHotkey(hotkey) == Join(NormTokens(Split(SplitFirst(hotkey, "++"), '+')), "+") + "++"
  {
    var ks := NormTokens(Split(SplitFirst(hotkey, "++"), '+'));
    JoinAppendOne(ks, "+");
  }

  lemma {:induction false} JoinAppendOne(ks: seq<string>, sep: string)
    requires |ks| >= 1
    ensures Join(ks + [sep], sep) == Join(ks, sep) + sep + sep
    decreases |ks|
  {
    if |ks| == 1 {
      assert ks + [sep] == [ks[0], sep];
      assert [ks[0], sep][1..] == [sep];
    } else {
      assert (ks + [sep])[1..] == ks[1..] + [sep];
      JoinAppendOne(ks[1..], sep);
    }
  }

  /** A single key written before `++`, such as `Ctrl++`, maps to its normalised name and `++`,
      whatever follows: `Ctrl++` becomes `ctrl++` and `command++` stays `command++`. */
  lemma KeyPlusPlus(w: string, rest: string)
    requires '+' !in w
    ensures MapHotkey(w + "++" + rest) == NormToken(w) + "++"
  {
    var h := w + "++" + rest;
    SplitFirstBeforePlusPlus(w, rest, "++");
    ContainsSuffix(w, "++" + rest, "++");
    assert h == w + ("++" + rest);
    SplitSingle(w);
    PlusPlusCase(h);
  }

  lemma {:induction false} SplitFirstBeforePlusPlus(w: string, rest: string, pp: string)
    requires '+' !in w && pp == "++"
    ensures Contains(w + pp + rest, pp)
    ensures SplitFirst(w + pp + rest, pp) == w
    decreases |w|
  {
    var h := w + pp + rest;
    if w == [] {
      assert h == pp + rest;
      assert StartsWith(h, pp);
    } else {
      assert h[0] == w[0] && h[1..] == w[1..] + pp + rest;
      assert !StartsWith(h, pp) by { assert h[0] != '+'; }
      SplitFirstBeforePlusPlus(w[1..], rest, pp);
      assert [w[0]] + w[1..] == w;
    }
  }

  lemma ContainsSuffix(w: string, s: string, t: string)
    requires StartsWith(s, t)
    ensures Contains(w + s, t)
  {
    ContainsAt(w + s, t);
    assert (w + s)[|w|..] == s;
  }

  lemma SplitSingle(w: string)
    requires '+' !in w
    ensures Split(w, '+') == [w]
  {
    JoinSplit(w, '+');
  }

  // ---------------------------------------------------------------------------------------------
  // Idempotence without `++`

  /** No two `+` are adjacent anywhere in `s`. */
  predicate NoDoublePlus(s: string) {
    forall i :: 0 <= i < |s| - 1 ==> !(s[i] == '+' && s[i + 1] == '+')
  }

  lemma {:induction false} NoDoublePlusNotContains(s: string, pp: string)
    requires NoDoublePlus(s) && pp == "++"
    ensures !Contains(s, pp)
    decreases |s|
  {
    if s != [] {
      if |s| >= 2 {
        assert s[..2][0] == s[0] && s[..2][1] == s[1];
      }
      NoDoublePlusNotContains(s[1..], pp);
    }
  }

  /** Joining non-empty tokens without `+` never puts two `+` side by side. */
  lemma {:induction false} JoinNoDoublePlus(ts: seq<string>)
    requires forall i :: 0 <= i < |ts| ==> ts[i] != [] && '+' !in ts[i]
    ensures NoDoublePlus(Join(ts, "+"))
    ensures |ts| >= 1 ==> |Join(ts, "+")| >= 1 && Join(ts, "+")[0] == ts[0][0]
    decreases |ts|
  {
    if |ts| >= 2 {
      JoinNoDoublePlus(ts[1..]);
      var t0, r' := ts[0], Join(ts[1..], "+");
      var r := Join(ts, "+");
      assert r == t0 + "+" + r';
      forall i | 0 <= i < |r| - 1 ensures !(r[i] == '+' && r[i + 1] == '+') {
        if i < |t0| {
          assert r[i] == t0[i];
        } else if i == |t0| {
          assert r[i + 1] == r'[0] == ts[1][0];
        } else {
          assert r[i] == r'[i - |t0| - 1] && r[i + 1] == r'[i - |t0|];
        }
      }
    } else if |ts| == 1 {
      assert Join(ts, "+") == ts[0];
      forall i | 0 <= i < |ts[0]| - 1 ensures ts[0][i] != '+' {
        assert ts[0][i] in ts[0];
      }
    }
  }

  /** Mapping a combo without `++` a second time changes nothing. */
  lemma MapHotkeyIdempotent(hotkey: string)
    requires !Contains(hotkey, "++")
    ensures MapHotkey(MapHotkey(hotkey)) == MapHotkey(hotkey)
  {
    var ts := MappedTokens(hotkey);
    var r := Join(ts, "+");
    assert MapHotkey(hotkey) == r;
    MappedTokensShape(hotkey);
    if |ts| == 0 {
      EmptyMapsToEmpty(r);
    } else {
      MappedTokensFixed(ts);
    }
  }

  /** Tokens of the shape `_map_hotkey` produces come back unchanged from a second pass. */
  lemma MappedTokensFixed(ts: seq<string>)
    requires |ts| >= 1
    requires forall i :: 0 <= i < |ts| ==>
      ts[i] != [] && Stripped(ts[i]) && NoUpper(ts[i]) && '+' !in ts[i]
      && ts[i] !in {"command", "control", "numpad+", "numpad-"}
    ensures MapHotkey(Join(ts, "+")) == Join(ts, "+")
  {
    var r := Join(ts, "+");
    JoinNoDoublePlus(ts);
    NoDoublePlusNotContains(r, "++");
    SplitJoin(ts, '+');
    RetokeniseFixed(ts);
  }

  lemma RetokeniseFixed(ts: seq<string>)
    requires forall i :: 0 <= i < |ts| ==>
      ts[i] != [] && Stripped(ts[i]) && NoUpper(ts[i]) && '+' !in ts[i]
      && ts[i] !in {"command", "control", "numpad+", "numpad-"}
    ensures AliasAll(NonEmpty(NormTokens(ts))) == ts
  {
    var nts := NormTokens(ts);
    forall i | 0 <= i < |ts| ensures nts[i] == ts[i] {
      NormTokenIdentity(ts[i]);
    }
    assert nts == ts;
    NonEmptyIdentity(ts);
    var again := AliasAll(ts);
    assert again == ts;
  }

  lemma EmptyMapsToEmpty(r: string)
    requires r == []
    ensures MapHotkey(r) == r
  {
    assert !Contains(r, "++");
    assert Split(r, '+') == [r];
    assert NormTokens([r]) == [NormToken(r)];
    assert |Strip(r)| == 0;
    assert NormToken(r) == r;
    assert NonEmpty([r]) == [];
  }

  // ---------------------------------------------------------------------------------------------
  // The registry

  /** The caller's callback, an opaque value. */
  datatype Callback = Callback(id: nat)

  /** A `HotkeyHandler(mapped_hotkey, callback, suppress=True)` of the hotkey library, as the
      arguments it was built from. */
  datatype Handler = Handler(combo: string, callback: Callback, suppress: bool)

  class HotkeyManager {
    var registeredCallbacks: map<string, Callback>
    var registeredHandlers: map<string, Handler>

    /** Both dictionaries hold the same combos; each handler was built from the mapped form of
        its key, with that key's callback and with suppression on. */
    ghost predicate Valid()
      reads this
    {
      registeredHandlers.Keys == registeredCallbacks.Keys
      && forall k :: k in registeredHandlers ==>
           registeredHandlers[k] == Handler(MapHotkey(k), registeredCallbacks[k], true)
    }

    constructor ()
      ensures Valid()
      ensures registeredCallbacks == map[] && registeredHandlers == map[]
    {
      registeredCallbacks := map[];
      registeredHandlers := map[];
    }

    /** `register_hotkey(hotkey, callback)`. `handlerFails` stands for the hotkey library raising
        while the handler is built or started; the exception is swallowed. */
    method RegisterHotkey(hotkey: string, callback: Callback, handlerFails: bool)
      requires Valid()
      modifies this
      ensures Valid()
      ensures handlerFails ==>
        registeredHandlers == old(registeredHandlers) && registeredCallbacks == old(registeredCallbacks)
      ensures !handlerFails ==>
        registeredHandlers == old(registeredHandlers)[hotkey := Handler(MapHotkey(hotkey), callback, true)]
        && registeredCallbacks == old(registeredCallbacks)[hotkey := callback]
    {
      var mapped := MapHotkey(hotkey);
      if handlerFails {
        return;
      }
      var handler := Handler(mapped, callback, true);
      registeredHandlers := registeredHandlers[hotkey := handler];
      registeredCallbacks := registeredCallbacks[hotkey := callback];
    }
  }
}
