/** The earlier task record of src/task.rs, and its twin in src/command.rs,
    which differs only in its default name and in taking `&mut self`: a
    first word classified as a `wk:` alias or a shell program, the other
    words as arguments. */
module Task {
  import opened Wrappers
  import opened Text

  datatype Kind = WK | Shell

  datatype Task = Task(
    cwd: Option<string>,
    args: seq<string>,
    name: string,
    kind: Kind,
    hidden: bool,
    source: string,
    command: string,
    variables: map<string, string>,
    description: Option<string>,
    dependencies: seq<string>)

  /** A fresh record under the given default name: a shell kind with nothing set. */
  function Fresh(name: string): (t: Task)
    ensures t.name == name && t.kind == Shell && !t.hidden
    ensures t.command == [] && t.args == [] && t.dependencies == [] && t.variables == map[]
    ensures t.cwd.None? && t.description.None? && t.source == []
  {
    Task(None, [], name, Shell, false, "", "", map[], None, [])
  }

  /** `Task::new`. */
  function New(): (t: Task)
    ensures t == Fresh("task")
    ensures t.name == "task" && t.kind == Shell && t.command == [] && t.args == []
  {
    Fresh("task")
  }

  /** `Command::new` of src/command.rs. */
  function NewCommand(): (t: Task)
    ensures t == Fresh("command")
    ensures t.name == "command" && t.kind == Shell && t.command == [] && t.args == []
  {
    Fresh("command")
  }

  /** The `^wk:` test of `with_command`: unlike the resolver's, it also
      accepts a bare `wk:`. */
  predicate IsAlias(word: string) {
    StartsWith(word, "wk:")
  }

  /** The first word: its kind, and the word without the marker. */
  function Classify(t: Task, word: string): (r: Task)
    ensures r.kind == (if IsAlias(word) then WK else Shell)
    ensures IsAlias(word) ==> "wk:" + r.command == word
    ensures !IsAlias(word) ==> r.command == word
    ensures r.(kind := t.kind, command := t.command) == t
  {
    if IsAlias(word) then
      assert word == word[..3] + word[3..];
      t.(kind := WK, command := word[3..])
    else t.(kind := Shell, command := word)
  }

  /** The loop of `with_command` over the words and their indices: past the
      first word, every word is appended to the arguments. */
  function Absorb(t: Task, words: seq<string>, index: nat): (r: Task)
    ensures index > 0 ==> r == t.(args := t.args + words)
    decreases |words|
  {
    if words == [] then
      assert t.args + words == t.args;
      t
    else
      var next := if index == 0 then Classify(t, words[0]) else t.(args := t.args + [words[0]]);
      assert index > 0 ==> next.args + words[1..] == t.args + words;
      Absorb(next, words[1..], index + 1)
  }

  /** `with_command`: the first word sets kind and command, the others are
      appended after the existing arguments; a blank string changes nothing. */
  function WithCommand(t: Task, command: string): (r: Task)
    ensures var words := SplitWhitespace(command);
      && (words == [] ==> r == t)
      && (words != [] ==>
            && r.kind == (if IsAlias(words[0]) then WK else Shell)
            && (IsAlias(words[0]) ==> "wk:" + r.command == words[0])
            && (!IsAlias(words[0]) ==> r.command == words[0])
            && r.args == t.args + words[1..]
            && r.(kind := t.kind, command := t.command, args := t.args) == t)
  {
    var words := SplitWhitespace(command);
    if words == [] then t
    else
      Absorb(t, words, 0)
  }

  function WithName(t: Task, name: string): (r: Task)
    ensures r.name == name && r.(name := t.name) == t
  {
    t.(name := name)
  }

  function WithDescription(t: Task, description: string): (r: Task)
    ensures r.description == Some(description) && r.(description := t.description) == t
  {
    t.(description := Some(description))
  }

  /** Replaces the working directory, so `None` clears it. */
  function WithCwd(t: Task, cwd: Option<string>): (r: Task)
    ensures r.cwd == cwd && r.(cwd := t.cwd) == t
  {
    t.(cwd := cwd)
  }

  function WithSource(t: Task, source: string): (r: Task)
    ensures r.source == source && r.(source := t.source) == t
  {
    t.(source := source)
  }

  function WithHidden(t: Task, hidden: bool): (r: Task)
    ensures r.hidden == hidden && r.(hidden := t.hidden) == t
  {
    t.(hidden := hidden)
  }

  function WithDependency(t: Task, dependency: string): (r: Task)
    ensures r.dependencies == t.dependencies + [dependency]
    ensures r.(dependencies := t.dependencies) == t
  {
    t.(dependencies := t.dependencies + [dependency])
  }

  /** One `with_dependency` per element: appended in order, duplicates kept. */
  function WithDependencies(t: Task, dependencies: seq<string>): (r: Task)
    ensures r.dependencies == t.dependencies + dependencies
    ensures r.(dependencies := t.dependencies) == t
    decreases |dependencies|
  {
    if dependencies == [] then t
    else
      assert t.dependencies + dependencies
          == (t.dependencies + [dependencies[0]]) + dependencies[1..];
      WithDependencies(WithDependency(t, dependencies[0]), dependencies[1..])
  }

  function WithArg(t: Task, arg: string): (r: Task)
    ensures r.args == t.args + [arg] && r.(args := t.args) == t
  {
    t.(args := t.args + [arg])
  }

  /** One `with_arg` per element: appended in order, duplicates kept. */
  function WithArgs(t: Task, args: seq<string>): (r: Task)
    ensures r.args == t.args + args && r.(args := t.args) == t
    decreases |args|
  {
    if args == [] then t
    else
      assert t.args + args == (t.args + [args[0]]) + args[1..];
      WithArgs(WithArg(t, args[0]), args[1..])
  }

  /** Incoming keys overwrite, other keys are kept. */
  function WithVariables(t: Task, variables: map<string, string>): (r: Task)
    ensures Overlays(r.variables, t.variables, variables)
    ensures r.(variables := t.variables) == t
  {
    t.(variables := t.variables + variables)
  }

  /** `Task::from_str`: never fails; the words after the first are the
      arguments, and a blank string gives a fresh task. */
  function FromStr(s: string): (r: Result<Task, string>)
    ensures r.Ok? && r.value.name == "task"
    ensures var words := SplitWhitespace(s);
      && r.value.args == (if words == [] then [] else words[1..])
      && (words == [] ==> r.value == New())
  {
    Ok(WithCommand(New(), s))
  }

  /** `Command::from_str` of src/command.rs: the same reading under the
      default name "command". */
  function CommandFromStr(s: string): (r: Result<Task, string>)
    ensures r.Ok? && r.value.name == "command"
    ensures var words := SplitWhitespace(s);
      && r.value.args == (if words == [] then [] else words[1..])
      && (words == [] ==> r.value == NewCommand())
  {
    Ok(WithCommand(NewCommand(), s))
  }

  /** Words joined by spaces and read back: an alias first word gives its
      target as the command, any other first word is the shell command, and
      the remaining words are the arguments. */
  lemma FromStrOfWords(words: seq<string>)
    requires words != [] && forall i :: 0 <= i < |words| ==> IsWord(words[i])
    ensures var t := FromStr(JoinWords(words)).value;
      && t.kind == (if IsAlias(words[0]) then WK else Shell)
      && t.command == (if IsAlias(words[0]) then words[0][3..] else words[0])
      && t.args == words[1..]
  {
    SplitJoin(words);
  }

  /** A bare `wk:` is an alias with an empty command. */
  lemma BareMarkerIsAlias(t: Task)
    ensures var r := WithCommand(t, "wk:");
      r.kind == WK && r.command == [] && r.args == t.args
  {
    assert IsWord("wk:");
    SplitWord("wk:");
    assert StartsWith("wk:", "wk:");
    assert SplitWhitespace("wk:")[1..] == [];
    assert t.args + [] == t.args;
  }
}
