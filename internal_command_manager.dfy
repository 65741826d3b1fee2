/** The built-in commands offered when the search text starts with `>`
    (src/gui/internal_command_manager.py). */
module InternalCommands {
  import opened Strings
  import opened Wrappers
  import opened JsonValues

  const ExitName: string := "exit - quit"
  const ExitCommand: string := "exit"

  /** The command table: one entry, `exit`. */
  function Commands(): (cs: seq<Json>)
    ensures |cs| == 1
    ensures GetStr(cs[0], "name") == Some(ExitName)
    ensures GetStr(cs[0], "command") == Some(ExitCommand)
  {
    [JObject(map["name" := JStr(ExitName), "command" := JStr(ExitCommand)])]
  }

  /** `search_commands(search_text)`: every command for an empty text, otherwise those whose
      lower-cased name contains the lower-cased text, in table order. */
  function SearchCommands(searchText: string): seq<Json>
  {
    if searchText == [] then Commands()
    else Matching(Commands(), Lower(searchText))
  }

  /** The list comprehension of `search_commands`. Entries without a string name are never
      matched; the table has none. */
  function Matching(cmds: seq<Json>, query: string): (r: seq<Json>)
    ensures |r| <= |cmds|
  {
    if cmds == [] then []
    else
      var name := GetStr(cmds[0], "name");
      (if name.Some? && Contains(Lower(name.value), query) then [cmds[0]] else [])
      + Matching(cmds[1..], query)
  }

  /** A command is kept exactly when its lower-cased name contains the query, and nothing that is
      not in the table is ever returned. */
  lemma {:induction false} MatchingMembers(cmds: seq<Json>, query: string)
    ensures forall c :: c in Matching(cmds, query) <==>
      c in cmds && GetStr(c, "name").Some? && Contains(Lower(GetStr(c, "name").value), query)
    decreases |cmds|
  {
    if cmds != [] {
      MatchingMembers(cmds[1..], query);
      assert cmds == [cmds[0]] + cmds[1..];
    }
  }

  /** Whatever the search text, the result is the whole table or nothing: the exit command is
      listed exactly when its lower-cased name contains the lower-cased text. */
  lemma SearchCommandsShape(searchText: string)
    ensures SearchCommands(searchText) == Commands() || SearchCommands(searchText) == []
    ensures SearchCommands(searchText) == Commands() <==>
      searchText == [] || Contains(Lower(ExitName), Lower(searchText))
  {
    var cs := Commands();
    if searchText != [] {
      assert cs[1..] == [];
      assert Matching(cs, Lower(searchText))
        == (if Contains(Lower(ExitName), Lower(searchText)) then [cs[0]] else []) + Matching(cs[1..], Lower(searchText));
      assert cs == [cs[0]];
    }
  }

  /** `execute_command(command)`: `"exit"` when the entry's `command` is the string `exit`,
      nothing for any other value; a missing `command` key raises, modelled as `Err`. */
  function ExecuteCommand(command: Json): (r: Result<Option<string>>)
    ensures r.Err? <==> Get(command, "command").None?
    ensures r == Ok(Some(ExitCommand)) <==> Get(command, "command") == Some(JStr(ExitCommand))
    ensures r.Ok? && r.value.Some? ==> r.value.value == ExitCommand
  {
    match Get(command, "command")
    case None => Err("KeyError: 'command'")
    case Some(v) => Ok(if v == JStr(ExitCommand) then Some(ExitCommand) else None)
  }

  /** Every command the search lists can be executed, and executing it asks the window to exit. */
  lemma ListedCommandsExit(searchText: string, c: Json)
    requires c in SearchCommands(searchText)
    ensures ExecuteCommand(c) == Ok(Some(ExitCommand))
  {
    SearchCommandsShape(searchText);
    assert c == Commands()[0];
  }
}
