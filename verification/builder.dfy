/** The command builder of src/command/builder.rs: the definition of one
    task as the registry stores it, its setters, and its materialisation
    into a ready-to-run command (`to_command`). */
module Builder {
  import opened Wrappers
  import opened Errors
  import opened Text

  /** `CommandBuilder`. Paths are strings. */
  datatype CommandBuilder = CommandBuilder(
    cwd: Option<string>,
    args: seq<string>,
    name: string,
    shell: Option<string>,
    hidden: bool,
    source: string,
    variables: map<string, string>,
    environments: map<string, string>,
    description: Option<string>,
    dependencies: seq<string>)

  /** The materialised command of src/command/command.rs. */
  datatype Command = Command(
    name: string,
    cwd: Option<string>,
    args: seq<string>,
    shell: string,
    dependencies: seq<string>,
    environments: map<string, string>)

  /** What `to_command` reads from outside the builder: the platform
      (`cfg!(windows)`), the process working directory (`env::current_dir`),
      the parent directory of each source path that is an existing file, and
      the iteration order a `HashMap` with the given contents yields. */
  datatype Host = Host(
    windows: bool,
    currentDir: Option<string>,
    fileParents: map<string, string>,
    keyOrder: map<string, string> -> seq<string>)

  /** `order` lists each key of `keys` exactly once, as a map iteration does. */
  ghost predicate Enumerates(order: seq<string>, keys: set<string>) {
    NoDuplicates(order) && forall k :: k in order <==> k in keys
  }

  /** A host whose key order behaves like a real `HashMap` iteration on
      every map: each key once, and nothing else. */
  ghost predicate ValidHost(host: Host) {
    forall m: map<string, string> {:trigger host.keyOrder(m)} :: Enumerates(host.keyOrder(m), m.Keys)
  }

  /** `CommandBuilder::new`: the name "command", no arguments, no shell,
      working directory or description, not hidden, empty maps. */
  function New(): (r: CommandBuilder)
    ensures r.name == "command" && r.args == [] && r.dependencies == []
    ensures r.cwd.None? && r.shell.None? && r.description.None? && !r.hidden && r.source == []
    ensures r.variables == map[] && r.environments == map[]
  {
    CommandBuilder(None, [], "command", None, false, "", map[], map[], None, [])
  }

  function WithName(b: CommandBuilder, name: string): (r: CommandBuilder)
    ensures r.name == name && r.(name := b.name) == b
  {
    b.(name := name)
  }

  /** The old arguments are dropped; the new ones are the white-space
      separated words of `command`, program first. */
  function WithCommand(b: CommandBuilder, command: string): (r: CommandBuilder)
    ensures r.args == SplitWhitespace(command) && r.(args := b.args) == b
    ensures r.args == [] <==> IsBlank(command)
  {
    SplitWhitespaceWords(command);
    b.(args := SplitWhitespace(command))
  }

  function WithDescription(b: CommandBuilder, description: string): (r: CommandBuilder)
    ensures r.description == Some(description) && r.(description := b.description) == b
  {
    b.(description := Some(description))
  }

  /** Replaces the working directory, so `None` clears it. */
  function WithCwd(b: CommandBuilder, cwd: Option<string>): (r: CommandBuilder)
    ensures r.cwd == cwd && r.(cwd := b.cwd) == b
  {
    b.(cwd := cwd)
  }

  function WithSource(b: CommandBuilder, source: string): (r: CommandBuilder)
    ensures r.source == source && r.(source := b.source) == b
  {
    b.(source := source)
  }

  function WithHidden(b: CommandBuilder, hidden: bool): (r: CommandBuilder)
    ensures r.hidden == hidden && r.(hidden := b.hidden) == b
  {
    b.(hidden := hidden)
  }

  /** Always leaves a shell set. */
  function WithShell(b: CommandBuilder, shell: string): (r: CommandBuilder)
    ensures r.shell == Some(shell) && r.(shell := b.shell) == b
  {
    b.(shell := Some(shell))
  }

  function WithDependency(b: CommandBuilder, dependency: string): (r: CommandBuilder)
    ensures r.dependencies == b.dependencies + [dependency]
    ensures r.(dependencies := b.dependencies) == b
  {
    b.(dependencies := b.dependencies + [dependency])
  }

  /** One `with_dependency` per element: all of them appended, in order,
      duplicates kept. */
  function WithDependencies(b: CommandBuilder, dependencies: seq<string>): (r: CommandBuilder)
    ensures r.dependencies == b.dependencies + dependencies
    ensures r.(dependencies := b.dependencies) == b
    decreases |dependencies|
  {
    if dependencies == [] then b
    else
      assert b.dependencies + dependencies
          == (b.dependencies + [dependencies[0]]) + dependencies[1..];
      WithDependencies(WithDependency(b, dependencies[0]), dependencies[1..])
  }

  function WithArg(b: CommandBuilder, arg: string): (r: CommandBuilder)
    ensures r.args == b.args + [arg] && r.(args := b.args) == b
  {
    b.(args := b.args + [arg])
  }

  /** One `with_arg` per element: all of them appended, in order, duplicates kept. */
  function WithArgs(b: CommandBuilder, args: seq<string>): (r: CommandBuilder)
    ensures r.args == b.args + args && r.(args := b.args) == b
    decreases |args|
  {
    if args == [] then b
    else
      assert b.args + args == (b.args + [args[0]]) + args[1..];
      WithArgs(WithArg(b, args[0]), args[1..])
  }

  /** Clears the arguments, then appends: the new arguments are exactly `args`. */
  function OverrideArgs(b: CommandBuilder, args: seq<string>): (r: CommandBuilder)
    ensures r.args == args && r.(args := b.args) == b
  {
    WithArgs(b.(args := []), args)
  }

  /** Incoming keys overwrite, other keys are kept. */
  function WithVariables(b: CommandBuilder, variables: map<string, string>): (r: CommandBuilder)
    ensures Overlays(r.variables, b.variables, variables)
    ensures r.(variables := b.variables) == b
  {
    b.(variables := b.variables + variables)
  }

  /** Incoming keys overwrite, other keys are kept. */
  function WithEnvironments(b: CommandBuilder, environments: map<string, string>): (r: CommandBuilder)
    ensures Overlays(r.environments, b.environments, environments)
    ensures r.(environments := b.environments) == b
  {
    b.(environments := b.environments + environments)
  }

  /** The text `${key}` that stands for a variable in an argument. */
  function Token(key: string): string {
    "${" + key + "}"
  }

  lemma TokenNeedsMarker(s: string, key: string)
    ensures Contains(s, Token(key)) ==> Contains(s, "${")
  {
    if Contains(s, Token(key)) {
      assert Token(key)[..2] == "${";
      ContainsPrefixOf(s, Token(key), "${");
    }
  }

  /** The builder's variables, then the caller's on top. */
  function MergeVariables(own: map<string, string>, overrides: Option<map<string, string>>): (r: map<string, string>)
    ensures overrides.None? ==> r == own
    ensures overrides.Some? ==> Overlays(r, own, overrides.value)
  {
    match overrides
    case None => own
    case Some(o) => own + o
  }

  /** One argument after replacing, key by key in `order`, every `${key}`
      by the key's value. Each replacement works on the previous one's result. */
  function Substitute(arg: string, vars: map<string, string>, order: seq<string>): (r: string)
    ensures !Contains(arg, "${") ==> r == arg
    decreases |order|
  {
    if order == [] then arg
    else
      var k := order[0];
      TokenNeedsMarker(arg, k);
      var next := if k in vars then ReplaceAll(arg, Token(k), vars[k]) else arg;
      Substitute(next, vars, order[1..])
  }

  /** Keys absent from the map substitute nothing. */
  lemma {:induction false} SubstituteUnknownKeys(arg: string, vars: map<string, string>, order: seq<string>)
    requires forall i :: 0 <= i < |order| ==> order[i] !in vars
    ensures Substitute(arg, vars, order) == arg
    decreases |order|
  {
    if order != [] {
      SubstituteUnknownKeys(arg, vars, order[1..]);
    }
  }

  /** With a single variable, substitution replaces every non-overlapping
      `${K}` by its value and changes nothing else; unknown `${X}` stay. */
  lemma {:induction false} SubstituteSingleKey(arg: string, k: string, v: string, order: seq<string>)
    requires NoDuplicates(order) && k in order
    ensures Substitute(arg, map[k := v], order) == ReplaceAll(arg, Token(k), v)
    decreases |order|
  {
    var vars := map[k := v];
    if order[0] == k {
      assert forall i :: 0 <= i < |order[1..]| ==> order[1..][i] != k by {
        forall i | 0 <= i < |order[1..]| ensures order[1..][i] != k {
          assert order[1..][i] == order[i + 1];
        }
      }
      SubstituteUnknownKeys(ReplaceAll(arg, Token(k), v), vars, order[1..]);
    } else {
      assert k in order[1..] by {
        var i :| 0 <= i < |order| && order[i] == k;
        assert order[1..][i - 1] == k;
      }
      SubstituteSingleKey(arg, k, v, order[1..]);
    }
  }

  /** `to_command`: variables merged with the overrides winning, every
      argument substituted on its own, the shell's flag put in front, the
      working directory falling back to the process's and then to the
      source file's directory, and name, dependencies and environments copied. */
  function ToCommand(b: CommandBuilder, overrides: Option<map<string, string>>, host: Host): (c: Command)
    ensures c.name == b.name && c.dependencies == b.dependencies && c.environments == b.environments
    ensures |c.args| == |b.args| + 1
    ensures c.args[0] == (if b.shell.None? && host.windows then "/c" else "-c")
    ensures b.shell.Some? ==> c.shell == b.shell.value
    ensures b.shell.None? ==> c.shell == (if host.windows then "cmd.exe" else "bash")
    ensures b.cwd.Some? ==> c.cwd == b.cwd
    ensures b.cwd.None? && host.currentDir.Some? ==> c.cwd == host.currentDir
    ensures b.cwd.None? && host.currentDir.None? ==>
      c.cwd == (if b.source in host.fileParents then Some(host.fileParents[b.source]) else None)
  {
    var vars := MergeVariables(b.variables, overrides);
    var order := host.keyOrder(vars);
    var substituted := seq(|b.args|, i requires 0 <= i < |b.args| => Substitute(b.args[i], vars, order));
    var cwd :=
      if b.cwd.Some? then b.cwd
      else if host.currentDir.Some? then host.currentDir
      else if b.source in host.fileParents then Some(host.fileParents[b.source])
      else None;
    var (shell, flag) :=
      match b.shell
      case Some(s) => (s, "-c")
      case None => if host.windows then ("cmd.exe", "/c") else ("bash", "-c");
    Command(b.name, cwd, [flag] + substituted, shell, b.dependencies, b.environments)
  }

  /** Every argument is substituted on its own, after the flag; an argument
      without a `${` is copied unchanged. */
  lemma ToCommandArgs(b: CommandBuilder, overrides: Option<map<string, string>>, host: Host)
    ensures var c := ToCommand(b, overrides, host);
      var vars := MergeVariables(b.variables, overrides);
      && (forall i :: 0 <= i < |b.args| ==> c.args[i + 1] == Substitute(b.args[i], vars, host.keyOrder(vars)))
      && (forall i :: 0 <= i < |b.args| && !Contains(b.args[i], "${") ==> c.args[i + 1] == b.args[i])
  {
  }

  /** An override `K=V` on a builder whose own variables are at most `K`:
      every argument gets each `${K}` replaced by `V`, nothing else changed. */
  lemma ToCommandSingleOverride(b: CommandBuilder, k: string, v: string, host: Host)
    requires b.variables.Keys <= {k}
    requires Enumerates(host.keyOrder(map[k := v]), {k})
    ensures var c := ToCommand(b, Some(map[k := v]), host);
      forall i :: 0 <= i < |b.args| ==> c.args[i + 1] == ReplaceAll(b.args[i], Token(k), v)
  {
    var vars := MergeVariables(b.variables, Some(map[k := v]));
    assert vars == map[k := v];
    ToCommandArgs(b, Some(map[k := v]), host);
    forall i | 0 <= i < |b.args|
      ensures ToCommand(b, Some(map[k := v]), host).args[i + 1] == ReplaceAll(b.args[i], Token(k), v)
    {
      SubstituteSingleKey(b.args[i], k, v, host.keyOrder(vars));
    }
  }

  /** The same on any host whose key order is a real map iteration. */
  lemma ToCommandSingleOverrideValid(b: CommandBuilder, k: string, v: string, host: Host)
    requires b.variables.Keys <= {k}
    requires ValidHost(host)
    ensures var c := ToCommand(b, Some(map[k := v]), host);
      forall i :: 0 <= i < |b.args| ==> c.args[i + 1] == ReplaceAll(b.args[i], Token(k), v)
  {
    assert map[k := v].Keys == {k};
    assert Enumerates(host.keyOrder(map[k := v]), {k});
    ToCommandSingleOverride(b, k, v, host);
  }

  /** `FromStr`: only the empty string is refused; a white-space-only string
      gives a builder with no arguments. */
  function FromStr(s: string): (r: Result<CommandBuilder, Error>)
    ensures r.Err? <==> s == []
    ensures r.Err? ==> r.error == EmptyCommand
    ensures r.Ok? ==> r.value == New().(args := SplitWhitespace(s))
    ensures r.Ok? ==> (r.value.args == [] <==> IsBlank(s))
  {
    if s == [] then Err(EmptyCommand) else Ok(WithCommand(New(), s))
  }
}
