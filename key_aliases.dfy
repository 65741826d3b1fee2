/** The key alias table and the set of key names accepted as valid (src/hotkeys/key_aliases.py).
    Both are constants; the `update` calls that add letters, digits and function keys are folded
    into the definition of `ValidKeys`. */
module KeyAliases {

  /** Alias to canonical key name. */
  const KeyAliases: map<string, string> := map[
    "command" := "ctrl",
    "control" := "ctrl",
    "numpad+" := "+",
    "numpad-" := "-",
    "plus" := "+",
    "pgup" := "pageup",
    "pgdn" := "pagedown",
    "pgdown" := "pagedown"
  ]

  /** The named keys written out in the literal set. */
  const NamedKeys: set<string> := {
    "esc", "enter", "tab", "space", "backspace", "delete",
    "up", "down", "left", "right", "home", "end", "pageup", "pagedown",
    "insert", "+", "-", "*", "/", "\\", "=", "win", "command", "control",
    "numpad+", "numpad-", "?", ";", ","
  }

  /** `chr(i) for i in range(ord('a'), ord('z') + 1)`. */
  const Letters: set<string> := set c: char | 'a' <= c <= 'z' :: [c]

  /** `str(i) for i in range(10)`. */
  const Digits: set<string> := set i: nat | i < 10 :: Decimal(i)

  /** `f'f{i}' for i in range(1, 13)`. */
  const FunctionKeys: set<string> := set i: nat | 1 <= i < 13 :: "f" + Decimal(i)

  const ValidKeys: set<string> := NamedKeys + Letters + Digits + FunctionKeys

  function DigitChar(d: nat): (c: char)
    requires d < 10
    ensures '0' <= c <= '9'
  {
    (48 + d) as char
  }

  /** Python's `str(n)` for a natural number. */
  function Decimal(n: nat): (s: string)
    ensures |s| >= 1
    ensures (n < 10) == (|s| == 1)
    ensures s[|s| - 1] == DigitChar(n % 10)
  {
    if n < 10 then [DigitChar(n)] else Decimal(n / 10) + [DigitChar(n % 10)]
  }

  /** Different numbers have different decimal spellings. */
  lemma {:induction false} DecimalInjective(a: nat, b: nat)
    requires Decimal(a) == Decimal(b)
    ensures a == b
    decreases a
  {
    var s := Decimal(a);
    assert DigitChar(a % 10) == DigitChar(b % 10);
    assert a % 10 == b % 10;
    if a >= 10 {
      assert b >= 10;
      assert Decimal(a / 10) == s[..|s| - 1] == Decimal(b / 10);
      DecimalInjective(a / 10, b / 10);
    }
  }

  /** Both spellings of the command modifier alias to `ctrl`. */
  lemma CtrlAliases()
    ensures forall a :: a in KeyAliases && KeyAliases[a] == "ctrl" <==> a == "command" || a == "control"
  {
  }

  /** The page and plus/minus aliases. */
  lemma NavigationAliases()
    ensures KeyAliases["pgup"] == "pageup"
    ensures KeyAliases["pgdn"] == "pagedown" && KeyAliases["pgdown"] == "pagedown"
    ensures KeyAliases["plus"] == "+" && KeyAliases["numpad+"] == "+"
    ensures KeyAliases["numpad-"] == "-"
  {
  }

  /** Every lower-case letter and every decimal digit is a valid key name. */
  lemma LettersAndDigitsValid()
    ensures forall c: char :: 'a' <= c <= 'z' ==> [c] in ValidKeys
    ensures forall c: char :: '0' <= c <= '9' ==> [c] in ValidKeys
  {
    forall c: char | '0' <= c <= '9' ensures [c] in ValidKeys {
      var i: nat := c as int - 48;
      assert Decimal(i) == [c];
    }
  }

  /** No named key is a two-or-more-character name starting with `f`. */
  lemma NamedKeysNotFunctionKeys(k: string)
    requires |k| >= 2 && k[0] == 'f'
    ensures k !in NamedKeys
  {
  }

  /** A function key `f<i>` is valid exactly for `i` from 1 to 12. */
  lemma FunctionKeysValid(i: nat)
    ensures "f" + Decimal(i) in ValidKeys <==> 1 <= i <= 12
  {
    var k := "f" + Decimal(i);
    assert |k| >= 2 && k[0] == 'f' && k[1..] == Decimal(i);
    if 1 <= i <= 12 {
      assert k in FunctionKeys;
    } else {
      NamedKeysNotFunctionKeys(k);
      assert k !in Letters && k !in Digits;
      if k in FunctionKeys {
        var j: nat :| 1 <= j < 13 && k == "f" + Decimal(j);
        assert Decimal(i) == k[1..] == Decimal(j);
        DecimalInjective(i, j);
      }
    }
  }

  /** Consequently `f13` is not a valid key. */
  lemma NoF13()
    ensures "f13" !in ValidKeys
  {
    FunctionKeysValid(13);
    SpelledF13();
  }

  /** Every alias target is a valid key name except `ctrl`, which the valid set does not list. */
  lemma AliasTargets()
    ensures forall a :: a in KeyAliases ==> (KeyAliases[a] in ValidKeys <==> KeyAliases[a] != "ctrl")
    ensures "ctrl" !in ValidKeys
  {
    CtrlNotValid();
    assert "+" in NamedKeys && "-" in NamedKeys && "pageup" in NamedKeys && "pagedown" in NamedKeys;
  }

  lemma CtrlNotValid()
    ensures "ctrl" !in ValidKeys
  {
    assert "ctrl" !in NamedKeys;
    LongNamesOutsideRanges("ctrl");
  }

  /** A name of two or more characters not starting with `f` is valid only if it is listed by
      name. */
  lemma LongNamesOutsideRanges(k: string)
    requires |k| >= 2 && k[0] != 'f'
    ensures k in ValidKeys <==> k in NamedKeys
  {
  }

  lemma SpelledF13()
    ensures "f" + Decimal(13) == "f13"
  {
    assert Decimal(13) == Decimal(1) + [DigitChar(3)];
  }
}
