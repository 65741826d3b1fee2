/** The extraction prompt sent to the language model and the normalisation of the shortcut
    strings it answers with (src/import_hotkeys/openai/prompt_builder.py). */
module Prompts {
  import opened Strings

  const DefaultPlatform: string := "windows"

  /** The page content as the prompt carries it: NUL characters removed, then stripped. */
  function CleanContent(content: string): (c: string)
    ensures Stripped(c) && '\0' !in c
  {
    var r := Replace(content, "\0", "");
    ReplaceRemovesChar(content, '\0', "");
    StripChars(r);
    Strip(r)
  }

  /** The fixed instructions, with the platform named twice. */
  function Instructions(platform: string): string {
    "Extract " + platform + " keyboard shortcuts from the following content. "
    + "Format the response as a JSON object with a 'hotkeys' array. "
    + "Each item in the array should have 'name' (description of the action) "
    + "and 'hotkey' (the keyboard shortcut) properties. "
    + "Format hotkeys in lowercase with '+' between keys (e.g., 'ctrl+shift+p'). "
    + "For mouse actions, use 'wheelup' for scroll up and 'wheeldown' for scroll down. "
    + "Only include " + platform + " shortcuts."
  }

  /** `build_extraction_prompt(content, platform)`. */
  function BuildExtractionPrompt(content: string, platform: string): string {
    Prompt(Instructions(platform), CleanContent(content))
  }

  /** The prompt layout: the instructions, a blank line, the content. */
  function Prompt(instructions: string, content: string): string {
    instructions + "\n\n" + content
  }

  /** A prompt opens with its instructions and closes with a blank line and its content. */
  lemma PromptShape(instructions: string, content: string)
    ensures StartsWith(Prompt(instructions, content), instructions)
    ensures EndsWith(Prompt(instructions, content), "\n\n" + content)
  {
    var p := Prompt(instructions, content);
    assert p[..|instructions|] == instructions;
    assert p[|p| - |"\n\n" + content|..] == "\n\n" + content;
  }

  /** Under the same instructions, two contents give the same prompt exactly when they are the
      same. */
  lemma PromptInjective(instructions: string, a: string, b: string)
    ensures Prompt(instructions, a) == Prompt(instructions, b) <==> a == b
  {
    var head := instructions + "\n\n";
    if Prompt(instructions, a) == Prompt(instructions, b) {
      assert a == Prompt(instructions, a)[|head|..];
    }
  }

  /** For one platform, two page contents give the same prompt only when they clean to the same
      text: the prompt loses nothing but NULs and surrounding whitespace. */
  lemma SamePromptSameContent(c1: string, c2: string, platform: string)
    requires BuildExtractionPrompt(c1, platform) == BuildExtractionPrompt(c2, platform)
    ensures CleanContent(c1) == CleanContent(c2)
  {
    PromptInjective(Instructions(platform), CleanContent(c1), CleanContent(c2));
  }

  /** The replacement table of `clean_hotkey`, in the order the loop applies it. */
  const Replacements: seq<(string, string)> := [
    ("control", "ctrl"),
    ("command", "ctrl"),
    ("cmd", "ctrl"),
    ("return", "enter"),
    ("plus", "+"),
    (" + ", "+"),
    (" +", "+"),
    ("+ ", "+"),
    ("scroll up", "wheelup"),
    ("scroll down", "wheeldown"),
    ("wheel up", "wheelup"),
    ("wheel down", "wheeldown"),
    ("mouse wheel up", "wheelup"),
    ("mouse wheel down", "wheeldown")
  ]

  /** `s` after each replacement of `table` in turn (written from the last entry backwards, the
      order in which the loop extends it). */
  function Applied(s: string, table: seq<(string, string)>): string
  {
    if table == [] then s
    else
      var last := table[|table| - 1];
      Replace(Applied(s, table[..|table| - 1]), last.0, last.1)
  }

  /** Replacing with lower-case text keeps lower-case text lower-case, however many
      replacements run. */
  lemma {:induction false} AppliedNoUpper(s: string, table: seq<(string, string)>)
    requires NoUpper(s)
    requires forall k :: 0 <= k < |table| ==> NoUpper(table[k].1)
    ensures NoUpper(Applied(s, table))
    decreases |table|
  {
    if table != [] {
      var init := table[..|table| - 1];
      assert forall k :: 0 <= k < |init| ==> init[k] == table[k];
      AppliedNoUpper(s, init);
      ReplaceNoUpper(Applied(s, init), table[|table| - 1].0, table[|table| - 1].1);
    }
  }

  lemma ReplacementsLowerCase()
    ensures forall k :: 0 <= k < |Replacements| ==> NoUpper(Replacements[k].1)
  {
  }

  /** Stripping keeps text free of upper-case letters. */
  lemma StripNoUpper(s: string)
    requires NoUpper(s)
    ensures NoUpper(Strip(s))
  {
    var r := Strip(s);
    StripChars(s);
    forall i | 0 <= i < |r| ensures !IsUpper(r[i]) {
      assert r[i] in s;
    }
  }

  /** `clean_hotkey(hotkey)`: lower-case, every replacement of the table in order, then strip.
      The result has no surrounding whitespace and no upper-case letter. */
  method CleanHotkey(hotkey: string) returns (cleaned: string)
    ensures cleaned == Strip(Applied(Lower(hotkey), Replacements))
    ensures Stripped(cleaned) && NoUpper(cleaned)
  {
    var h := Lower(hotkey);
    for i := 0 to |Replacements|
      invariant h == Applied(Lower(hotkey), Replacements[..i])
    {
      var entry := Replacements[i];
      assert Replacements[..i + 1][..i] == Replacements[..i];
      h := Replace(h, entry.0, entry.1);
    }
    assert Replacements[..|Replacements|] == Replacements;
    cleaned := Strip(h);
    LowerNoUpper(hotkey);
    ReplacementsLowerCase();
    AppliedNoUpper(Lower(hotkey), Replacements);
    StripNoUpper(h);
  }
}
