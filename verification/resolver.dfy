/** The resolver of src/importer/resolver.rs: it turns the parsed entries of
    one configuration file into a registry of named entries, rewriting `wk:`
    alias tasks into extensions, cascading the file's variables and
    environments, and resolving extensions with a worklist. */
module Resolver {
  import opened Wrappers
  import opened Errors
  import opened Text
  import Argv
  import Builder
  import Concurrent

  // ----- values declared in a file -----

  /** A variable or environment value as written in the file. A float keeps
      the text Rust's formatter gives it; float formatting is not modelled. */
  datatype Primitive = S(s: string) | B(b: bool) | F(text: string) | I(i: int)

  function Digit(d: nat): (c: char)
    requires d < 10
    ensures '0' <= c <= '9' && c as int - '0' as int == d
  {
    "0123456789"[d]
  }

  predicate IsDigits(s: string) {
    forall i :: 0 <= i < |s| ==> '0' <= s[i] <= '9'
  }

  /** Decimal text without sign or leading zeros. */
  function NatText(n: nat): (r: string)
    ensures r != [] && IsDigits(r)
    ensures r[0] == '0' ==> n == 0
    decreases n
  {
    if n < 10 then [Digit(n)] else NatText(n / 10) + [Digit(n % 10)]
  }

  /** Decimal text of an integer, as `i32::to_string` writes it. */
  function IntText(i: int): (r: string)
    ensures r != [] && (r[0] == '-' <==> i < 0)
  {
    if i < 0 then "-" + NatText(-i) else NatText(i)
  }

  /** The value of a string of decimal digits, most significant first. */
  function DecimalValue(s: string): nat
    requires IsDigits(s)
    decreases |s|
  {
    if s == [] then 0
    else DecimalValue(s[..|s| - 1]) * 10 + (s[|s| - 1] as int - '0' as int)
  }

  /** Reading decimal text back, as `str::parse` does on an optional
      minus sign followed by digits (range limits aside). */
  function ParseInt(s: string): Option<int> {
    if s != [] && s[0] == '-' then
      if s[1..] != [] && IsDigits(s[1..]) then Some(-(DecimalValue(s[1..]) as int)) else None
    else if s != [] && IsDigits(s) then Some(DecimalValue(s))
    else None
  }

  lemma {:induction false} NatTextValue(n: nat)
    ensures DecimalValue(NatText(n)) == n
    decreases n
  {
    if n >= 10 {
      var t := NatText(n / 10) + [Digit(n % 10)];
      assert t[..|t| - 1] == NatText(n / 10);
      NatTextValue(n / 10);
    }
  }

  /** Integer text reads back as the same integer. */
  lemma IntTextValue(i: int)
    ensures ParseInt(IntText(i)) == Some(i)
  {
    if i < 0 {
      NatTextValue(-i);
      assert IntText(i)[1..] == NatText(-i);
    } else {
      NatTextValue(i);
    }
  }

  /** `From<Primitive> for String`: text as it is, booleans as `true` and
      `false`, integers in decimal so that they read back unchanged. */
  function PrimitiveText(p: Primitive): (r: string)
    ensures p.S? ==> r == p.s
    ensures p.B? ==> (r == "true" <==> p.b) && (r == "false" <==> !p.b)
    ensures p.I? ==> ParseInt(r) == Some(p.i)
  {
    match p
    case S(s) => s
    case B(b) => if b then "true" else "false"
    case F(t) => t
    case I(i) => IntTextValue(i); IntText(i)
  }

  /** `p_to_s`: every value turned into text, the keys kept. */
  function PToS(m: map<string, Primitive>): (r: map<string, string>)
    ensures r.Keys == m.Keys
    ensures forall k :: k in m ==> r[k] == PrimitiveText(m[k])
  {
    map k | k in m :: PrimitiveText(m[k])
  }

  /** `s_to_p`: every value wrapped as a string primitive. */
  function SToP(m: map<string, string>): (r: map<string, Primitive>)
    ensures r.Keys == m.Keys
    ensures forall k :: k in m ==> r[k] == S(m[k])
  {
    map k | k in m :: S(m[k])
  }

  /** Wrapping text as primitives and back gives the same map. */
  lemma PToSAfterSToP(m: map<string, string>)
    ensures PToS(SToP(m)) == m
  {
    assert forall k :: k in m ==> PToS(SToP(m))[k] == m[k];
  }

  /** `p_to_s` distributes over overlaying: converting an overlay is
      overlaying the conversions. */
  lemma PToSOverlay(base: map<string, Primitive>, top: map<string, Primitive>)
    ensures PToS(base + top) == PToS(base) + PToS(top)
  {
    var l := PToS(base + top);
    var r := PToS(base) + PToS(top);
    assert l.Keys == r.Keys;
    forall k | k in l ensures l[k] == r[k] {
      if k in top {
        assert (base + top)[k] == top[k];
      } else {
        assert (base + top)[k] == base[k];
      }
    }
  }

  // ----- the descriptions a file holds -----

  datatype CommandDescription = CommandDescription(
    cwd: Option<string>,
    args: Option<seq<string>>,
    shell: Option<string>,
    hidden: Option<bool>,
    command: string,
    depends: Option<seq<string>>,
    variables: Option<map<string, Primitive>>,
    environments: Option<map<string, Primitive>>,
    description: Option<string>)

  datatype ExtendedDescription = ExtendedDescription(
    cwd: Option<string>,
    args: Option<seq<string>>,
    shell: Option<string>,
    hidden: Option<bool>,
    extend: string,
    depends: Option<seq<string>>,
    variables: Option<map<string, Primitive>>,
    description: Option<string>,
    environments: Option<map<string, Primitive>>)

  datatype ConcurrentDescription = ConcurrentDescription(
    hidden: Option<bool>,
    depends: Option<seq<string>>,
    commands: seq<string>,
    variables: Option<map<string, Primitive>>,
    description: Option<string>,
    environments: Option<map<string, Primitive>>)

  /** One entry under `commands:`, as the YAML layer classified it. */
  datatype FileDescription =
    | StringCommand(text: string)
    | Command(command: CommandDescription)
    | ExtendedCommand(extended: ExtendedDescription)
    | Concurrent(concurrent: ConcurrentDescription)

  /** The file after parsing, with absent `variables`/`environments` read as empty. */
  datatype CommandsFile = CommandsFile(
    commands: map<string, FileDescription>,
    variables: map<string, Primitive>,
    environments: map<string, Primitive>)

  /** `CommandImported`: what a registry name is bound to. */
  datatype Entry =
    | CommandEntry(builder: Builder.CommandBuilder)
    | ConcurrentEntry(group: Concurrent.ConcurrentBuilder)

  // ----- alias detection -----

  /** A word with the `wk:` marker and at least one character after it. */
  predicate IsAliasWord(w: string) {
    |w| >= 4 && w[..3] == "wk:"
  }

  /** `is_shell_task`: false exactly for a command of length at least 4
      starting with `wk:`; a bare `wk:` is still a shell task. */
  function IsShellTask(d: CommandDescription): (b: bool)
    ensures !b <==> |d.command| >= 4 && d.command[..3] == "wk:"
  {
    !IsAliasWord(d.command)
  }

  /** `split_command`: the words of the command, the `wk:` marker taken off
      the first word only, and only when something follows it. */
  function SplitCommand(command: string): (r: seq<string>)
    ensures var words := SplitWhitespace(command);
      && |r| == |words|
      && (forall i :: 1 <= i < |r| ==> r[i] == words[i])
      && (|r| > 0 && IsAliasWord(words[0]) ==> "wk:" + r[0] == words[0])
      && (|r| > 0 && !IsAliasWord(words[0]) ==> r[0] == words[0])
  {
    var words := SplitWhitespace(command);
    if words == [] then []
    else
      var first := if IsAliasWord(words[0]) then words[0][3..] else words[0];
      assert IsAliasWord(words[0]) ==> words[0] == words[0][..3] + words[0][3..];
      [first] + words[1..]
  }

  /** Splitting words joined by spaces strips the marker from the first word
      alone, and only from a word that has something after it. */
  lemma SplitCommandOfWords(words: seq<string>)
    requires words != []
    requires forall i :: 0 <= i < |words| ==> IsWord(words[i])
    ensures SplitCommand(JoinWords(words))
         == [if IsAliasWord(words[0]) then words[0][3..] else words[0]] + words[1..]
  {
    SplitJoin(words);
  }

  // ----- shorthand strings -----

  function EmptyDescription(command: string, args: Option<seq<string>>): CommandDescription {
    CommandDescription(None, args, None, None, command, None, None, None, None)
  }

  /** `CommandDescription::from_str`: the first word is the command, the
      remaining words are the arguments; a blank string is an error. */
  function ParseShorthand(s: string): (r: Result<CommandDescription, Error>)
    ensures r.Err? <==> IsBlank(s)
    ensures r.Err? ==> r.error == EmptyCommand
    ensures r.Ok? ==> var words := SplitWhitespace(s);
      words != [] && r.value == EmptyDescription(words[0], Some(words[1..]))
  {
    var words := SplitWhitespace(s);
    SplitWhitespaceWords(s);
    if |words| == 0 then Err(EmptyCommand)
    else Ok(EmptyDescription(words[0], Some(words[1..])))
  }

  // ----- the three conversions -----

  // Each optional field of a description is applied with its setter when
  // present and leaves the builder alone when absent.

  function OptArgs(t: Builder.CommandBuilder, args: Option<seq<string>>): (r: Builder.CommandBuilder)
    ensures r == t.(args := t.args + args.GetOr([]))
  {
    if args.Some? then Builder.WithArgs(t, args.value) else assert t.args + [] == t.args; t
  }

  function OptShell(t: Builder.CommandBuilder, shell: Option<string>): (r: Builder.CommandBuilder)
    ensures r == t.(shell := if shell.Some? then shell else t.shell)
  {
    if shell.Some? then Builder.WithShell(t, shell.value) else t
  }

  function OptHidden(t: Builder.CommandBuilder, hidden: Option<bool>): (r: Builder.CommandBuilder)
    ensures r == t.(hidden := hidden.GetOr(t.hidden))
  {
    if hidden.Some? then Builder.WithHidden(t, hidden.value) else t
  }

  function OptDependencies(t: Builder.CommandBuilder, depends: Option<seq<string>>): (r: Builder.CommandBuilder)
    ensures r == t.(dependencies := t.dependencies + depends.GetOr([]))
  {
    if depends.Some? then Builder.WithDependencies(t, depends.value)
    else assert t.dependencies + [] == t.dependencies; t
  }

  function OptVariables(t: Builder.CommandBuilder, vars: Option<map<string, Primitive>>): (r: Builder.CommandBuilder)
    ensures r == t.(variables := t.variables + PToS(vars.GetOr(map[])))
  {
    if vars.Some? then
      var r := Builder.WithVariables(t, PToS(vars.value));
      OverlaysUnique(r.variables, t.variables, PToS(vars.value));
      r
    else assert t.variables + PToS(map[]) == t.variables; t
  }

  function OptEnvironments(t: Builder.CommandBuilder, envs: Option<map<string, Primitive>>): (r: Builder.CommandBuilder)
    ensures r == t.(environments := t.environments + PToS(envs.GetOr(map[])))
  {
    if envs.Some? then
      var r := Builder.WithEnvironments(t, PToS(envs.value));
      OverlaysUnique(r.environments, t.environments, PToS(envs.value));
      r
    else assert t.environments + PToS(map[]) == t.environments; t
  }

  function OptDescription(t: Builder.CommandBuilder, description: Option<string>): (r: Builder.CommandBuilder)
    ensures r == t.(description := if description.Some? then description else t.description)
  {
    if description.Some? then Builder.WithDescription(t, description.value) else t
  }

  /** The optional fields both conversions lay over a builder: arguments
      and dependencies appended, variables and environments merged with the
      new ones winning, shell, hidden and description replaced when present. */
  function LayOver(t: Builder.CommandBuilder, args: Option<seq<string>>, shell: Option<string>,
                   hidden: Option<bool>, depends: Option<seq<string>>,
                   variables: Option<map<string, Primitive>>, environments: Option<map<string, Primitive>>,
                   description: Option<string>): (r: Builder.CommandBuilder)
    ensures r == t.(args := t.args + args.GetOr([]),
                    shell := if shell.Some? then shell else t.shell,
                    hidden := hidden.GetOr(t.hidden),
                    dependencies := t.dependencies + depends.GetOr([]),
                    variables := t.variables + PToS(variables.GetOr(map[])),
                    environments := t.environments + PToS(environments.GetOr(map[])),
                    description := if description.Some? then description else t.description)
  {
    var t := OptHidden(OptShell(OptArgs(t, args), shell), hidden);
    var t := OptEnvironments(OptVariables(OptDependencies(t, depends), variables), environments);
    OptDescription(t, description)
  }

  /** `From<CommandDescription> for CommandBuilder`: the command's words are
      the first arguments, the description's `args` follow; every other
      field is taken from the description when present. */
  function FromDescription(d: CommandDescription): (b: Builder.CommandBuilder)
    ensures b.args == SplitWhitespace(d.command) + d.args.GetOr([])
    ensures b.cwd == d.cwd && b.shell == d.shell && b.description == d.description
    ensures b.hidden == d.hidden.GetOr(false)
    ensures b.dependencies == d.depends.GetOr([])
    ensures b.variables == PToS(d.variables.GetOr(map[]))
    ensures b.environments == PToS(d.environments.GetOr(map[]))
    ensures b.name == "command" && b.source == ""
  {
    var t := Builder.WithCwd(Builder.WithCommand(Builder.New(), d.command), d.cwd);
    assert t.dependencies == [] && t.variables == map[] && t.environments == map[];
    assert t.args == SplitWhitespace(d.command) && t.shell.None? && t.description.None? && !t.hidden;
    assert map[] + PToS(d.variables.GetOr(map[])) == PToS(d.variables.GetOr(map[]));
    assert map[] + PToS(d.environments.GetOr(map[])) == PToS(d.environments.GetOr(map[]));
    assert [] + d.depends.GetOr([]) == d.depends.GetOr([]);
    LayOver(t, d.args, d.shell, d.hidden, d.depends, d.variables, d.environments, d.description)
  }

  function GroupOptHidden(g: Concurrent.ConcurrentBuilder, hidden: Option<bool>): (r: Concurrent.ConcurrentBuilder)
    ensures r == g.(hidden := hidden.GetOr(g.hidden))
  {
    if hidden.Some? then Concurrent.WithHidden(g, hidden.value) else g
  }

  function GroupOptDependencies(g: Concurrent.ConcurrentBuilder, depends: Option<seq<string>>): (r: Concurrent.ConcurrentBuilder)
    ensures r == g.(dependencies := g.dependencies + depends.GetOr([]))
  {
    if depends.Some? then Concurrent.WithDependencies(g, depends.value)
    else assert g.dependencies + [] == g.dependencies; g
  }

  function GroupOptDescription(g: Concurrent.ConcurrentBuilder, description: Option<string>): (r: Concurrent.ConcurrentBuilder)
    ensures r == g.(description := if description.Some? then description else g.description)
  {
    if description.Some? then Concurrent.WithDescription(g, description.value) else g
  }

  function GroupOptVariables(g: Concurrent.ConcurrentBuilder, vars: Option<map<string, Primitive>>): (r: Concurrent.ConcurrentBuilder)
    ensures r == g.(variables := g.variables + PToS(vars.GetOr(map[])))
  {
    if vars.Some? then
      var r := Concurrent.WithVariables(g, PToS(vars.value));
      OverlaysUnique(r.variables, g.variables, PToS(vars.value));
      r
    else assert g.variables + PToS(map[]) == g.variables; g
  }

  function GroupOptEnvironments(g: Concurrent.ConcurrentBuilder, envs: Option<map<string, Primitive>>): (r: Concurrent.ConcurrentBuilder)
    ensures r == g.(environments := g.environments + PToS(envs.GetOr(map[])))
  {
    if envs.Some? then
      var r := Concurrent.WithEnvironments(g, PToS(envs.value));
      OverlaysUnique(r.environments, g.environments, PToS(envs.value));
      r
    else assert g.environments + PToS(map[]) == g.environments; g
  }

  /** `From<ConcurrentDescription> for ConcurrentBuilder`. */
  function FromConcurrentDescription(d: ConcurrentDescription): (g: Concurrent.ConcurrentBuilder)
    ensures g.commands == d.commands
    ensures g.hidden == d.hidden.GetOr(false)
    ensures g.dependencies == d.depends.GetOr([])
    ensures g.description == d.description
    ensures g.variables == PToS(d.variables.GetOr(map[]))
    ensures g.environments == PToS(d.environments.GetOr(map[]))
    ensures g.name == "task" && g.source == ""
  {
    var g := Concurrent.WithCommands(Concurrent.New(), d.commands);
    var g := GroupOptDescription(GroupOptDependencies(GroupOptHidden(g, d.hidden), d.depends), d.description);
    var g := GroupOptEnvironments(GroupOptVariables(g, d.variables), d.environments);
    assert map[] + PToS(d.variables.GetOr(map[])) == PToS(d.variables.GetOr(map[]));
    assert map[] + PToS(d.environments.GetOr(map[])) == PToS(d.environments.GetOr(map[]));
    assert [] + d.depends.GetOr([]) == d.depends.GetOr([]);
    assert [] + d.commands == d.commands;
    g
  }

  /** `From<ExtendedCommand> for CommandBuilder`: the description laid over
      a copy of the base. The working directory is always replaced (absent
      clears it), arguments and dependencies are appended, shell, hidden and
      description replace only when present, and variables and environments
      are merged with the description winning. */
  function Extend(base: Builder.CommandBuilder, desc: ExtendedDescription): (b: Builder.CommandBuilder)
    ensures b.cwd == desc.cwd
    ensures b.args == base.args + desc.args.GetOr([])
    ensures b.dependencies == base.dependencies + desc.depends.GetOr([])
    ensures b.shell == (if desc.shell.Some? then desc.shell else base.shell)
    ensures b.hidden == desc.hidden.GetOr(base.hidden)
    ensures b.description == (if desc.description.Some? then desc.description else base.description)
    ensures Overlays(b.variables, base.variables, PToS(desc.variables.GetOr(map[])))
    ensures Overlays(b.environments, base.environments, PToS(desc.environments.GetOr(map[])))
    ensures b.name == base.name && b.source == base.source
  {
    LayOver(Builder.WithCwd(base, desc.cwd), desc.args, desc.shell, desc.hidden, desc.depends,
            desc.variables, desc.environments, desc.description)
  }

  /** An extension that sets only the working directory materialises to the
      base's command with that directory: same arguments, shell and environments. */
  lemma ExtendOnlyCwd(base: Builder.CommandBuilder, cwd: string, target: string,
                      overrides: Option<map<string, string>>, host: Builder.Host)
    ensures var desc := ExtendedDescription(Some(cwd), None, None, None, target, None, None, None, None);
      var c := Builder.ToCommand(Extend(base, desc), overrides, host);
      var c0 := Builder.ToCommand(base, overrides, host);
      c == c0.(cwd := Some(cwd))
  {
    var desc := ExtendedDescription(Some(cwd), None, None, None, target, None, None, None, None);
    var e := Extend(base, desc);
    assert e.variables == base.variables && e.environments == base.environments;
    assert e == base.(cwd := Some(cwd));
  }

  /** `From<CommandDescription> for ExtendedCommandDescription`: the alias
      rewrite. For a `wk:` command the words (marker stripped) are scanned for
      `--var.` settings, which are laid over the description's variables; the
      first remaining word is the extended target, and the others are appended
      to the arguments, except that a description without arguments gets all
      remaining words, the target included. A shell command keeps its fields
      and extends "". */
  function AliasToExtended(d: CommandDescription): (e: ExtendedDescription)
    ensures e.cwd == d.cwd && e.shell == d.shell && e.hidden == d.hidden
    ensures e.depends == d.depends && e.environments == d.environments
    ensures e.description == d.description
    ensures IsShellTask(d) ==> e.extend == "" && e.args == d.args && e.variables == d.variables
    ensures !IsShellTask(d) ==>
      var x := Argv.ExtractVars(SplitCommand(d.command));
      && e.variables.Some?
      && Overlays(e.variables.value, d.variables.GetOr(map[]), SToP(x.vars))
      && e.extend == (if x.params == [] then "" else x.params[0])
      && e.args == (if x.params == [] then d.args
                    else if d.args.Some? then Some(d.args.value + x.params[1..])
                    else Some(x.params))
  {
    var extendAndRest :=
      if IsShellTask(d) then ("", d.args, d.variables)
      else
        var x := Argv.ExtractVars(SplitCommand(d.command));
        var vars := match d.variables
          case Some(v) => v + SToP(x.vars)
          case None => SToP(x.vars);
        if x.params == [] then ("", d.args, Some(vars))
        else
          var args := match d.args
            case Some(a) => a + x.params[1..]
            case None => x.params;
          (x.params[0], Some(args), Some(vars));
    ExtendedDescription(d.cwd, extendAndRest.1, d.shell, d.hidden, extendAndRest.0,
                        d.depends, extendAndRest.2, d.description, d.environments)
  }

  /** Rewriting a one-word `wk:` command that carries no settings. */
  lemma AliasOfPlainWord(d: CommandDescription)
    requires IsWord(d.command) && IsAliasWord(d.command) && !Argv.IsVarOption(d.command[3..])
    ensures !IsShellTask(d)
    ensures Argv.ExtractVars(SplitCommand(d.command)) == Argv.Extraction([d.command[3..]], map[])
  {
    SplitWord(d.command);
    var t := d.command[3..];
    assert SplitCommand(d.command) == [t];
    assert [t][1..] == [];
    assert Argv.Run(Argv.VarsOnly, Argv.Start, [t]) == Argv.Step(Argv.VarsOnly, Argv.Start, t);
  }

  /** A shorthand is split into command and arguments before the alias
      rewrite, so only its first word reaches the `--var.` scanner: settings
      written after the target stay in the arguments and no variable is set. */
  lemma AliasShorthandKeepsSettings(s: string)
    requires var words := SplitWhitespace(s);
      words != [] && IsAliasWord(words[0]) && !Argv.IsVarOption(words[0][3..])
    ensures var words := SplitWhitespace(s);
      var d := ParseShorthand(s);
      && d.Ok?
      && AliasToExtended(d.value).extend == words[0][3..]
      && AliasToExtended(d.value).args == Some(words[1..])
      && AliasToExtended(d.value).variables == Some(map[])
  {
    var words := SplitWhitespace(s);
    SplitWhitespaceWords(s);
    var d := ParseShorthand(s).value;
    AliasOfPlainWord(d);
    var x := Argv.ExtractVars(SplitCommand(d.command));
    var e := AliasToExtended(d);
    assert x.params[1..] == [];
    assert words[1..] + [] == words[1..];
    assert SToP(map[]) == map[];
    OverlaysUnique(e.variables.value, map[], SToP(x.vars));
  }

  lemma AliasOfTwoWords(w: string, setting: string)
    requires IsWord(w) && IsAliasWord(w) && IsWord(setting)
    ensures !IsShellTask(EmptyDescription(w + " " + setting, None))
    ensures SplitCommand(w + " " + setting) == [w[3..], setting]
  {
    var words := [w, setting];
    assert words[1..] == [setting];
    assert JoinWords(words) == w + " " + setting;
    SplitCommandOfWords(words);
    assert (w + " " + setting)[..3] == w[..3];
  }

  lemma ExtractTargetThenSetting(t: string, k: string, v: string)
    requires !Argv.IsVarOption(t)
    requires k != [] && '=' !in k && v != []
    ensures Argv.ExtractVars([t, "--var." + k + "=" + v]) == Argv.Extraction([t], map[k := v])
  {
    var setting := "--var." + k + "=" + v;
    var st1 := Argv.Step(Argv.VarsOnly, Argv.Start, t);
    assert Argv.Read(Argv.VarsOnly, t) == Argv.Plain;
    assert st1 == Argv.Scan([t], map[], None);
    Argv.VarAssignment(st1, k, v);
    var st2 := Argv.Step(Argv.VarsOnly, st1, setting);
    assert [t, setting][1..] == [setting];
    assert [setting][1..] == [];
    assert Argv.Run(Argv.VarsOnly, Argv.Start, [t, setting]) == Argv.Run(Argv.VarsOnly, st1, [setting]);
    assert Argv.Run(Argv.VarsOnly, st1, [setting]) == Argv.Run(Argv.VarsOnly, st2, []);
  }

  /** In a full description without `args`, the `--var.` settings of a `wk:`
      command become variables, and the description's arguments are all the
      remaining words, the target's name included. */
  lemma AliasDescriptionExtractsSettings(w: string, k: string, v: string)
    requires IsWord(w) && IsAliasWord(w) && !Argv.IsVarOption(w[3..])
    requires IsWord("--var." + k + "=" + v)
    requires k != [] && '=' !in k && v != []
    ensures var e := AliasToExtended(EmptyDescription(w + " " + ("--var." + k + "=" + v), None));
      && e.extend == w[3..]
      && e.variables == Some(map[k := S(v)])
      && e.args == Some([w[3..]])
  {
    var setting := "--var." + k + "=" + v;
    AliasOfTwoWords(w, setting);
    ExtractTargetThenSetting(w[3..], k, v);
    var d := EmptyDescription(w + " " + setting, None);
    var e := AliasToExtended(d);
    assert SToP(map[k := v]) == map[k := S(v)];
    OverlaysUnique(e.variables.value, map[], SToP(map[k := v]));
  }

  // ----- the resolver's state and its first pass -----

  /** `Resolver`: the file's path, the entries resolved so far, the
      extensions still to resolve (`extended_tasks`), and the file-level
      variables and environments. */
  datatype Resolver = Resolver(
    source: string,
    tasks: map<string, Entry>,
    extended: seq<(string, ExtendedDescription)>,
    variables: map<string, Primitive>,
    environments: map<string, Primitive>)

  /** The names a worklist holds. */
  function Names(worklist: seq<(string, ExtendedDescription)>): set<string> {
    set i | 0 <= i < |worklist| :: worklist[i].0
  }

  /** `_add_task`: the task is named, given the file as source, and gets the
      file's variables and environments with its own laid on top. */
  function InsertTask(r: Resolver, name: string, task: Builder.CommandBuilder): (r': Resolver)
    ensures r'.tasks.Keys == r.tasks.Keys + {name}
    ensures forall n :: n in r.tasks && n != name ==> r'.tasks[n] == r.tasks[n]
    ensures r'.(tasks := r.tasks) == r
    ensures r'.tasks[name].CommandEntry?
    ensures var b := r'.tasks[name].builder;
      && b.name == name && b.source == r.source
      && Overlays(b.variables, PToS(r.variables), task.variables)
      && Overlays(b.environments, PToS(r.environments), task.environments)
      && b.(name := task.name, source := task.source,
            variables := task.variables, environments := task.environments) == task
  {
    var vars := task.variables;
    var envs := task.environments;
    var t := Builder.WithSource(Builder.WithName(task, name), r.source);
    var t := Builder.WithVariables(Builder.WithVariables(t, PToS(r.variables)), vars);
    var t := Builder.WithEnvironments(Builder.WithEnvironments(t, PToS(r.environments)), envs);
    r.(tasks := r.tasks[name := CommandEntry(t)])
  }

  /** `add_concurrent`: the same cascading for a group. */
  function AddConcurrent(r: Resolver, name: string, group: Concurrent.ConcurrentBuilder): (r': Resolver)
    ensures r'.tasks.Keys == r.tasks.Keys + {name}
    ensures forall n :: n in r.tasks && n != name ==> r'.tasks[n] == r.tasks[n]
    ensures r'.(tasks := r.tasks) == r
    ensures r'.tasks[name].ConcurrentEntry?
    ensures var g := r'.tasks[name].group;
      && g.name == name && g.source == r.source
      && Overlays(g.variables, PToS(r.variables), group.variables)
      && Overlays(g.environments, PToS(r.environments), group.environments)
      && g.(name := group.name, source := group.source,
            variables := group.variables, environments := group.environments) == group
  {
    var vars := group.variables;
    var envs := group.environments;
    var g := Concurrent.WithSource(Concurrent.WithName(group, name), r.source);
    var g := Concurrent.WithVariables(Concurrent.WithVariables(g, PToS(r.variables)), vars);
    var g := Concurrent.WithEnvironments(Concurrent.WithEnvironments(g, PToS(r.environments)), envs);
    r.(tasks := r.tasks[name := ConcurrentEntry(g)])
  }

  /** `add_extend`: queue the extension. */
  function AddExtend(r: Resolver, name: string, desc: ExtendedDescription): (r': Resolver)
    ensures r'.extended == r.extended + [(name, desc)]
    ensures r'.(extended := r.extended) == r
  {
    r.(extended := r.extended + [(name, desc)])
  }

  /** `add_task`: a shell task is converted and bound to its name at once,
      its arguments being the command's words followed by the listed ones;
      an alias task binds nothing yet and is queued, last, as an extension of
      the first word its `--var.` scan keeps as a parameter. */
  function AddTask(r: Resolver, name: string, d: CommandDescription): (r': Resolver)
    ensures r'.source == r.source && r'.variables == r.variables && r'.environments == r.environments
    ensures IsShellTask(d) ==>
      && r'.extended == r.extended
      && r'.tasks.Keys == r.tasks.Keys + {name}
      && (forall n :: n in r.tasks && n != name ==> r'.tasks[n] == r.tasks[n])
      && r'.tasks[name].CommandEntry?
      && r'.tasks[name].builder.name == name
      && r'.tasks[name].builder.source == r.source
      && r'.tasks[name].builder.args == SplitWhitespace(d.command) + d.args.GetOr([])
    ensures !IsShellTask(d) ==>
      var x := Argv.ExtractVars(SplitCommand(d.command));
      && r'.tasks == r.tasks
      && |r'.extended| == |r.extended| + 1
      && r'.extended[..|r.extended|] == r.extended
      && r'.extended[|r.extended|].0 == name
      && r'.extended[|r.extended|].1.extend == (if x.params == [] then "" else x.params[0])
  {
    if !IsShellTask(d) then AddExtend(r, name, AliasToExtended(d))
    else InsertTask(r, name, FromDescription(d))
  }

  /** Queuing a name adds it to the worklist's names and keeps the others. */
  lemma NamesAppend(worklist: seq<(string, ExtendedDescription)>, item: (string, ExtendedDescription))
    ensures Names(worklist + [item]) == Names(worklist) + {item.0}
  {
    var w := worklist + [item];
    forall n | n in Names(w) ensures n in Names(worklist) + {item.0} {
      var i :| 0 <= i < |w| && w[i].0 == n;
      if i < |worklist| { assert w[i] == worklist[i]; }
    }
    forall n | n in Names(worklist) ensures n in Names(w) {
      var i :| 0 <= i < |worklist| && worklist[i].0 == n;
      assert w[i] == worklist[i];
    }
    assert w[|worklist|] == item;
  }

  /** After `r'` declares `name`: nothing resolved or queued is lost, and
      `name` is resolved or queued. */
  ghost predicate Declares(r: Resolver, r': Resolver, name: string) {
    && r.tasks.Keys <= r'.tasks.Keys
    && Names(r.extended) <= Names(r'.extended)
    && name in r'.tasks.Keys + Names(r'.extended)
  }

  lemma AddTaskDeclares(r: Resolver, name: string, d: CommandDescription)
    ensures Declares(r, AddTask(r, name, d), name)
  {
    if !IsShellTask(d) {
      NamesAppend(r.extended, (name, AliasToExtended(d)));
    }
  }

  /** One entry of the file, handled by its kind. Only a blank shorthand fails. */
  function Declare(r: Resolver, name: string, fd: FileDescription): (r': Result<Resolver, Error>)
    ensures r'.Err? <==> fd.StringCommand? && IsBlank(fd.text)
    ensures r'.Ok? ==> name in r'.value.tasks.Keys + Names(r'.value.extended)
    ensures r'.Ok? ==> r.tasks.Keys <= r'.value.tasks.Keys
    ensures r'.Ok? ==> Names(r.extended) <= Names(r'.value.extended)
  {
    match fd
    case StringCommand(s) =>
      (match ParseShorthand(s)
       case Err(e) => Err(e)
       case Ok(d) => AddTaskDeclares(r, name, d); Ok(AddTask(r, name, d)))
    case Command(d) => AddTaskDeclares(r, name, d); Ok(AddTask(r, name, d))
    case Concurrent(cd) => Ok(AddConcurrent(r, name, FromConcurrentDescription(cd)))
    case ExtendedCommand(ed) =>
      NamesAppend(r.extended, (name, ed));
      Ok(AddExtend(r, name, ed))
  }

  /** The loop of `resolve` over the file's keys, in the order the map
      yields them; a key already taken out is skipped. */
  function ResolvePass(r: Resolver, commands: map<string, FileDescription>, keys: seq<string>): (r': Result<Resolver, Error>)
    ensures r'.Ok? ==> r.tasks.Keys <= r'.value.tasks.Keys
    ensures r'.Ok? ==> Names(r.extended) <= Names(r'.value.extended)
    ensures r'.Ok? ==> forall i :: 0 <= i < |keys| && keys[i] in commands ==>
      keys[i] in r'.value.tasks.Keys + Names(r'.value.extended)
    decreases |keys|
  {
    if keys == [] then Ok(r)
    else if keys[0] !in commands then ResolvePass(r, commands, keys[1..])
    else
      match Declare(r, keys[0], commands[keys[0]])
      case Err(e) => Err(e)
      case Ok(next) =>
        var result := ResolvePass(next, commands - {keys[0]}, keys[1..]);
        assert result.Ok? ==> forall i :: 1 <= i < |keys| && keys[i] in commands ==>
          keys[i] in result.value.tasks.Keys + Names(result.value.extended) by {
          if result.Ok? {
            forall i | 1 <= i < |keys| && keys[i] in commands
              ensures keys[i] in result.value.tasks.Keys + Names(result.value.extended)
            {
              if keys[i] == keys[0] {
              } else {
                assert keys[1..][i - 1] == keys[i];
              }
            }
          }
        }
        result
  }

  // ----- the second pass -----

  /** The names already sent to the front once. */
  function Pended(pending: seq<string>): set<string> {
    set p | p in pending
  }

  lemma {:induction false} SubsetCard(a: set<string>, b: set<string>)
    requires a <= b
    ensures |a| <= |b|
    decreases |b|
  {
    if a != {} {
      var x :| x in a;
      SubsetCard(a - {x}, b - {x});
    }
  }

  lemma NamesPop(worklist: seq<(string, ExtendedDescription)>)
    requires worklist != []
    ensures Names(worklist) == Names(worklist[..|worklist| - 1]) + {worklist[|worklist| - 1].0}
  {
    var last := |worklist| - 1;
    var rest := worklist[..last];
    forall n | n in Names(worklist) ensures n in Names(rest) + {worklist[last].0} {
      var i :| 0 <= i < |worklist| && worklist[i].0 == n;
      if i < last { assert rest[i] == worklist[i]; }
    }
    forall n | n in Names(rest) ensures n in Names(worklist) {
      var i :| 0 <= i < |rest| && rest[i].0 == n;
      assert worklist[i] == rest[i];
    }
  }

  lemma NamesPush(item: (string, ExtendedDescription), rest: seq<(string, ExtendedDescription)>)
    ensures Names([item] + rest) == Names(rest) + {item.0}
  {
    var wl := [item] + rest;
    assert wl[0] == item;
    forall n | n in Names(rest) ensures n in Names(wl) {
      var i :| 0 <= i < |rest| && rest[i].0 == n;
      assert wl[i + 1] == rest[i];
    }
    forall n | n in Names(wl) ensures n in Names(rest) + {item.0} {
      var i :| 0 <= i < |wl| && wl[i].0 == n;
      if i > 0 { assert wl[i] == rest[i - 1]; }
    }
  }

  /** Popping a record never adds a name still to be tried. */
  lemma PopShrinks(worklist: seq<(string, ExtendedDescription)>, pending: seq<string>)
    requires worklist != []
    ensures |Names(worklist[..|worklist| - 1]) - Pended(pending)| <= |Names(worklist) - Pended(pending)|
  {
    NamesPop(worklist);
    SubsetCard(Names(worklist[..|worklist| - 1]) - Pended(pending), Names(worklist) - Pended(pending));
  }

  /** Sending the last record to the front marks a new name as tried. */
  lemma RequeueShrinks(worklist: seq<(string, ExtendedDescription)>, pending: seq<string>)
    requires worklist != [] && worklist[|worklist| - 1].0 !in pending
    ensures var last := |worklist| - 1;
      |Names([worklist[last]] + worklist[..last]) - Pended(pending + [worklist[last].0])|
        < |Names(worklist) - Pended(pending)|
  {
    var last := |worklist| - 1;
    var name := worklist[last].0;
    var rest := worklist[..last];
    NamesPop(worklist);
    NamesPush(worklist[last], rest);
    var before := Names(worklist) - Pended(pending);
    assert Pended(pending + [name]) == Pended(pending) + {name};
    assert name in before;
    assert Names([worklist[last]] + rest) - Pended(pending + [name]) == before - {name};
  }

  /** What a successful second pass guarantees: no entry is lost, every
      queued name ends up bound to a command, a command stays a command, an
      entry that was not queued keeps its binding, and every record's target
      is bound to a command. */
  ghost predicate Settles(tasks: map<string, Entry>, worklist: seq<(string, ExtendedDescription)>,
                          result: map<string, Entry>) {
    && tasks.Keys <= result.Keys
    && (forall n :: n in Names(worklist) ==> n in result && result[n].CommandEntry?)
    && (forall n :: n in tasks && tasks[n].CommandEntry? ==> result[n].CommandEntry?)
    && (forall n :: n in tasks && n !in Names(worklist) ==> result[n] == tasks[n])
    && (forall i :: 0 <= i < |worklist| ==>
          worklist[i].1.extend in result && result[worklist[i].1.extend].CommandEntry?)
  }

  /** The records carry distinct names, none of them already bound: what the
      first pass produces, since every key of the file is declared once. */
  ghost predicate Fresh(tasks: map<string, Entry>, worklist: seq<(string, ExtendedDescription)>) {
    && (forall i, j :: 0 <= i < j < |worklist| ==> worklist[i].0 != worklist[j].0)
    && (forall i :: 0 <= i < |worklist| ==> worklist[i].0 !in tasks)
  }

  /** Each record's name is bound to its description laid over what its
      target is bound to. */
  ghost predicate Laid(worklist: seq<(string, ExtendedDescription)>, result: map<string, Entry>) {
    forall i :: 0 <= i < |worklist| ==> LaidAt(worklist[i], result)
  }

  ghost predicate LaidAt(record: (string, ExtendedDescription), result: map<string, Entry>) {
    var (name, d) := record;
    && name in result && d.extend in result && result[d.extend].CommandEntry?
    && result[name] == CommandEntry(Builder.WithName(Extend(result[d.extend].builder, d), name))
  }

  /** Settling the rest after binding the last record's name to a command
      settles the whole worklist. */
  lemma SettlesAfterInsert(tasks: map<string, Entry>, worklist: seq<(string, ExtendedDescription)>,
                           task: Builder.CommandBuilder, result: map<string, Entry>)
    requires worklist != []
    requires var t := worklist[|worklist| - 1].1.extend; t in tasks && tasks[t].CommandEntry?
    requires var last := |worklist| - 1;
      Settles(tasks[worklist[last].0 := CommandEntry(task)], worklist[..last], result)
    ensures Settles(tasks, worklist, result)
  {
    var last := |worklist| - 1;
    var rest := worklist[..last];
    NamesPop(worklist);
    forall i | 0 <= i < |worklist|
      ensures worklist[i].1.extend in result && result[worklist[i].1.extend].CommandEntry?
    {
      if i < last {
        assert rest[i] == worklist[i];
      }
    }
  }

  lemma NotInNames(worklist: seq<(string, ExtendedDescription)>, n: string)
    requires forall i :: 0 <= i < |worklist| ==> worklist[i].0 != n
    ensures n !in Names(worklist)
  {
  }

  /** Binding the popped name keeps the rest fresh. */
  lemma FreshAfterPop(tasks: map<string, Entry>, worklist: seq<(string, ExtendedDescription)>, e: Entry)
    requires worklist != [] && Fresh(tasks, worklist)
    ensures var last := |worklist| - 1;
      Fresh(tasks[worklist[last].0 := e], worklist[..last])
  {
    var last := |worklist| - 1;
    var rest := worklist[..last];
    forall i, j | 0 <= i < j < |rest| ensures rest[i].0 != rest[j].0 {
      assert rest[i] == worklist[i] && rest[j] == worklist[j];
    }
    forall i | 0 <= i < |rest| ensures rest[i].0 !in tasks[worklist[last].0 := e] {
      assert rest[i] == worklist[i];
    }
  }

  /** If the rest is laid,
      so is the whole worklist: the target was bound before the pop and is
      not rebound later. */
  lemma LaidAfterInsert(tasks: map<string, Entry>, worklist: seq<(string, ExtendedDescription)>,
                        result: map<string, Entry>)
    requires worklist != []
    requires var d := worklist[|worklist| - 1].1; d.extend in tasks && tasks[d.extend].CommandEntry?
    requires var last := |worklist| - 1;
      var (name, d) := worklist[last];
      var tasks' := tasks[name := CommandEntry(Builder.WithName(Extend(tasks[d.extend].builder, d), name))];
      Settles(tasks', worklist[..last], result) && (Fresh(tasks', worklist[..last]) ==> Laid(worklist[..last], result))
    ensures Fresh(tasks, worklist) ==> Laid(worklist, result)
  {
    var last := |worklist| - 1;
    var (name, d) := worklist[last];
    var rest := worklist[..last];
    var tasks' := tasks[name := CommandEntry(Builder.WithName(Extend(tasks[d.extend].builder, d), name))];
    if Fresh(tasks, worklist) {
      FreshAfterPop(tasks, worklist, tasks'[name]);
      LaidPopped(tasks, worklist, result);
      LaidPush(worklist, result);
    }
  }

  /** The popped record is laid: neither its name nor its target is bound
      again by the rest. */
  lemma LaidPopped(tasks: map<string, Entry>, worklist: seq<(string, ExtendedDescription)>,
                   result: map<string, Entry>)
    requires worklist != [] && Fresh(tasks, worklist)
    requires var d := worklist[|worklist| - 1].1; d.extend in tasks && tasks[d.extend].CommandEntry?
    requires var last := |worklist| - 1;
      var (name, d) := worklist[last];
      var tasks' := tasks[name := CommandEntry(Builder.WithName(Extend(tasks[d.extend].builder, d), name))];
      Settles(tasks', worklist[..last], result)
    ensures LaidAt(worklist[|worklist| - 1], result)
  {
    var last := |worklist| - 1;
    var (name, d) := worklist[last];
    var rest := worklist[..last];
    forall i | 0 <= i < |rest| ensures rest[i].0 != name && rest[i].0 != d.extend {
      assert rest[i] == worklist[i];
    }
    NotInNames(rest, name);
    NotInNames(rest, d.extend);
  }

  /** A laid rest and a laid last record make a laid worklist. */
  lemma LaidPush(worklist: seq<(string, ExtendedDescription)>, result: map<string, Entry>)
    requires worklist != []
    requires Laid(worklist[..|worklist| - 1], result) && LaidAt(worklist[|worklist| - 1], result)
    ensures Laid(worklist, result)
  {
    var last := |worklist| - 1;
    forall i | 0 <= i < last ensures LaidAt(worklist[i], result) {
      assert worklist[..last][i] == worklist[i];
    }
  }

  /** Sending the last record to the front does not change what settles. */
  lemma SettlesAfterRequeue(tasks: map<string, Entry>, worklist: seq<(string, ExtendedDescription)>,
                            result: map<string, Entry>)
    requires worklist != []
    requires var last := |worklist| - 1;
      Settles(tasks, [worklist[last]] + worklist[..last], result)
    ensures Settles(tasks, worklist, result)
  {
    var last := |worklist| - 1;
    var wl := [worklist[last]] + worklist[..last];
    NamesPop(worklist);
    NamesPush(worklist[last], worklist[..last]);
    forall i | 0 <= i < |worklist|
      ensures worklist[i].1.extend in result && result[worklist[i].1.extend].CommandEntry?
    {
      if i < last { assert wl[i + 1] == worklist[i]; } else { assert wl[0] == worklist[i]; }
    }
  }

  /** Sending the last record to the front keeps the records fresh. */
  lemma FreshAfterRequeue(tasks: map<string, Entry>, worklist: seq<(string, ExtendedDescription)>)
    requires worklist != [] && Fresh(tasks, worklist)
    ensures var last := |worklist| - 1;
      Fresh(tasks, [worklist[last]] + worklist[..last])
  {
    var last := |worklist| - 1;
    var wl := [worklist[last]] + worklist[..last];
    forall i, j | 0 <= i < j < |wl| ensures wl[i].0 != wl[j].0 {
      assert wl[i] == worklist[Back(i, last)] && wl[j] == worklist[Back(j, last)];
    }
    forall i | 0 <= i < |wl| ensures wl[i].0 !in tasks {
      assert wl[i] == worklist[Back(i, last)];
    }
  }

  /** ... and laid, since the records are the same. */
  lemma LaidAfterRequeue(tasks: map<string, Entry>, worklist: seq<(string, ExtendedDescription)>,
                         result: map<string, Entry>)
    requires worklist != []
    requires var last := |worklist| - 1;
      var wl := [worklist[last]] + worklist[..last];
      Fresh(tasks, wl) ==> Laid(wl, result)
    ensures Fresh(tasks, worklist) ==> Laid(worklist, result)
  {
    var last := |worklist| - 1;
    var wl := [worklist[last]] + worklist[..last];
    if Fresh(tasks, worklist) {
      FreshAfterRequeue(tasks, worklist);
      forall i | 0 <= i < |worklist| ensures LaidAt(worklist[i], result) {
        assert wl[Moved(i, last)] == worklist[i];
      }
    }
  }

  /** Where index `i` of a worklist of `last + 1` records goes when the last
      record is sent to the front, and back. */
  function Moved(i: nat, last: nat): nat {
    if i == last then 0 else i + 1
  }

  function Back(i: nat, last: nat): nat {
    if i == 0 then last else i - 1
  }

  /** `resolve_extends`. Records are popped from the back; a record whose
      target is a command is laid over a copy of it and inserted under its
      own name; a target that is a group fails; a missing target sends the
      record to the front once, and fails the second time its name comes up.
      Every step removes a record or adds a new name to `pending`, so the
      loop ends even when extensions form a cycle. */
  function ResolveExtends(tasks: map<string, Entry>, worklist: seq<(string, ExtendedDescription)>,
                          pending: seq<string>): (r: Result<map<string, Entry>, Error>)
    ensures r.Ok? ==> Settles(tasks, worklist, r.value)
    ensures r.Ok? && Fresh(tasks, worklist) ==> Laid(worklist, r.value)
    decreases |Names(worklist) - Pended(pending)|, |worklist|
  {
    if worklist == [] then Ok(tasks)
    else
      var last := |worklist| - 1;
      var name := worklist[last].0;
      var desc := worklist[last].1;
      var rest := worklist[..last];
      if desc.extend in tasks then
        match tasks[desc.extend]
        case CommandEntry(base) =>
          PopShrinks(worklist, pending);
          var task := Builder.WithName(Extend(base, desc), name);
          var res := ResolveExtends(tasks[name := CommandEntry(task)], rest, pending);
          if res.Ok? then
            SettlesAfterInsert(tasks, worklist, task, res.value);
            LaidAfterInsert(tasks, worklist, res.value);
            res
          else res
        case ConcurrentEntry(_) => Err(CannotExtend(name, desc.extend))
      else if name !in pending then
        RequeueShrinks(worklist, pending);
        var res := ResolveExtends(tasks, [(name, desc)] + rest, pending + [name]);
        if res.Ok? then
          SettlesAfterRequeue(tasks, worklist, res.value);
          LaidAfterRequeue(tasks, worklist, res.value);
          res
        else res
      else Err(CannotExtend(name, desc.extend))
  }

  /** Extending a group fails as soon as the record is taken. */
  lemma ExtendGroupFails(tasks: map<string, Entry>, rest: seq<(string, ExtendedDescription)>,
                         name: string, desc: ExtendedDescription, pending: seq<string>)
    requires desc.extend in tasks && tasks[desc.extend].ConcurrentEntry?
    ensures ResolveExtends(tasks, rest + [(name, desc)], pending) == Err(CannotExtend(name, desc.extend))
  {
    var wl := rest + [(name, desc)];
    assert wl[|wl| - 1] == (name, desc);
  }

  /** A target that is neither bound nor provided by any record makes the
      pass fail, wherever its record sits: the target never gets bound, so
      the record is sent to the front once and fails the next time. */
  lemma {:induction false} MissingTargetFails(tasks: map<string, Entry>, worklist: seq<(string, ExtendedDescription)>,
                                              pending: seq<string>, i: nat)
    requires i < |worklist|
    requires worklist[i].1.extend !in tasks && worklist[i].1.extend !in Names(worklist)
    ensures ResolveExtends(tasks, worklist, pending).Err?
    decreases |Names(worklist) - Pended(pending)|, |worklist|
  {
    var last := |worklist| - 1;
    var (name, desc) := worklist[last];
    var rest := worklist[..last];
    var t := worklist[i].1.extend;
    NamesPop(worklist);
    if desc.extend in tasks {
      if tasks[desc.extend].CommandEntry? {
        assert i < last;
        assert rest[i] == worklist[i];
        PopShrinks(worklist, pending);
        var task := Builder.WithName(Extend(tasks[desc.extend].builder, desc), name);
        MissingTargetFails(tasks[name := CommandEntry(task)], rest, pending, i);
      }
    } else if name !in pending {
      RequeueShrinks(worklist, pending);
      NamesPush(worklist[last], rest);
      var wl := [(name, desc)] + rest;
      assert wl[Moved(i, last)] == worklist[i];
      MissingTargetFails(tasks, wl, pending + [name], Moved(i, last));
    }
  }

  /** A lone record whose target is missing fails on its second attempt,
      naming the task and its target. */
  lemma LoneMissingTargetFails(tasks: map<string, Entry>, name: string, desc: ExtendedDescription)
    requires desc.extend !in tasks
    ensures ResolveExtends(tasks, [(name, desc)], []) == Err(CannotExtend(name, desc.extend))
  {
    var wl := [(name, desc)];
    assert wl[..0] == [];
    assert [(name, desc)] + [] == wl;
    assert ResolveExtends(tasks, wl, []) == ResolveExtends(tasks, wl, [name]);
    assert name in [name];
  }

  /** One forward reference is tolerated: `a` extends `b`, which is resolved
      only after `a` is first taken. */
  lemma ForwardReferenceResolves(tasks: map<string, Entry>, a: string, da: ExtendedDescription,
                                 b: string, db: ExtendedDescription)
    requires a != b && da.extend == b && b !in tasks
    requires db.extend in tasks && tasks[db.extend].CommandEntry?
    ensures var r := ResolveExtends(tasks, [(b, db), (a, da)], []);
      r.Ok? && a in r.value && b in r.value
      && r.value[a].CommandEntry? && r.value[b].CommandEntry?
  {
    var wl := [(b, db), (a, da)];
    assert wl[..1] == [(b, db)];
    assert [] + [a] == [a];
    var requeued := [(a, da), (b, db)];
    assert [(a, da)] + [(b, db)] == requeued;
    assert ResolveExtends(tasks, wl, []) == ResolveExtends(tasks, requeued, [a]);
    assert requeued[..1] == [(a, da)];
    var base := tasks[db.extend].builder;
    var tasks1 := tasks[b := CommandEntry(Builder.WithName(Extend(base, db), b))];
    assert ResolveExtends(tasks, requeued, [a]) == ResolveExtends(tasks1, [(a, da)], [a]);
    assert [(a, da)][..0] == [];
    var tasks2 := tasks1[a := CommandEntry(Builder.WithName(Extend(tasks1[b].builder, da), a))];
    assert ResolveExtends(tasks1, [(a, da)], [a]) == ResolveExtends(tasks2, [], [a]);
  }

  /** Two extensions targeting each other fail instead of looping. */
  lemma MutualExtendFails(tasks: map<string, Entry>, a: string, da: ExtendedDescription,
                          b: string, db: ExtendedDescription)
    requires a != b && da.extend == b && db.extend == a && a !in tasks && b !in tasks
    ensures ResolveExtends(tasks, [(a, da), (b, db)], []) == Err(CannotExtend(b, a))
  {
    var wl := [(a, da), (b, db)];
    assert wl[..1] == [(a, da)];
    assert [] + [b] == [b];
    assert [b] + [a] == [b, a];
    var wl2 := [(b, db), (a, da)];
    assert [(b, db)] + [(a, da)] == wl2;
    assert ResolveExtends(tasks, wl, []) == ResolveExtends(tasks, wl2, [b]);
    assert wl2[..1] == [(b, db)];
    assert [(a, da)] + [(b, db)] == wl;
    assert ResolveExtends(tasks, wl2, [b]) == ResolveExtends(tasks, wl, [b, a]);
    assert b in [b, a];
  }

  /** `resolve` without the loading of other files: the first pass over the
      entries in the map's iteration order `keyOrder`, then the extensions.
      On success every entry of the file is bound. */
  function Resolve(file: CommandsFile, source: string, keyOrder: seq<string>): (r: Result<map<string, Entry>, Error>)
    requires Builder.Enumerates(keyOrder, file.commands.Keys)
    ensures r.Ok? ==> file.commands.Keys <= r.value.Keys
  {
    var start := Resolver(source, map[], [], file.variables, file.environments);
    match ResolvePass(start, file.commands, keyOrder)
    case Err(e) => Err(e)
    case Ok(r) =>
      assert forall k :: k in file.commands ==> k in r.tasks.Keys + Names(r.extended) by {
        forall k | k in file.commands ensures k in r.tasks.Keys + Names(r.extended) {
          var i :| 0 <= i < |keyOrder| && keyOrder[i] == k;
        }
      }
      ResolveExtends(r.tasks, r.extended, [])
  }

  /** A blank shorthand anywhere in the file makes the whole resolution fail. */
  lemma {:induction false} BlankShorthandFailsPass(r: Resolver, commands: map<string, FileDescription>,
                                                   keys: seq<string>, k: string)
    requires k in keys && k in commands && commands[k].StringCommand? && IsBlank(commands[k].text)
    ensures ResolvePass(r, commands, keys).Err?
    decreases |keys|
  {
    if keys[0] == k {
    } else {
      assert k in keys[1..] by {
        var i :| 0 <= i < |keys| && keys[i] == k;
        assert keys[1..][i - 1] == k;
      }
      if keys[0] !in commands {
        BlankShorthandFailsPass(r, commands, keys[1..], k);
      } else {
        var d := Declare(r, keys[0], commands[keys[0]]);
        if d.Ok? {
          BlankShorthandFailsPass(d.value, commands - {keys[0]}, keys[1..], k);
        }
      }
    }
  }

  /** A blank shorthand anywhere in the file makes the whole resolution fail. */
  lemma BlankShorthandFails(file: CommandsFile, source: string, keyOrder: seq<string>, k: string)
    requires Builder.Enumerates(keyOrder, file.commands.Keys)
    requires k in file.commands
    requires file.commands[k].StringCommand? && IsBlank(file.commands[k].text)
    ensures Resolve(file, source, keyOrder).Err?
  {
    BlankShorthandFailsPass(Resolver(source, map[], [], file.variables, file.environments),
                            file.commands, keyOrder, k);
  }

  /** A shorthand converted to a task has all the shorthand's words as its
      arguments, the program first. */
  lemma ShorthandWords(s: string)
    requires !IsBlank(s)
    ensures ParseShorthand(s).Ok?
    ensures FromDescription(ParseShorthand(s).value).args == SplitWhitespace(s)
  {
    var words := SplitWhitespace(s);
    SplitWhitespaceWords(s);
    SplitWord(words[0]);
    assert [words[0]] + words[1..] == words;
  }
}
