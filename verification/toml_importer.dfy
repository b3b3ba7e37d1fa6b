/** The earlier TOML importer of src/importer.rs: a task per entry, and for
    an entry with subcommands one more task per subcommand, each made from
    the parent's description with the subcommand's fields laid over it. */
module TomlImporter {
  import opened Wrappers
  import opened Text
  import Task

  datatype TaskDescription = TaskDescription(
    command: string,
    cwd: Option<string>,
    args: Option<seq<string>>,
    visible: Option<bool>,
    binPath: Option<string>,
    variables: Option<map<string, string>>,
    dependsOn: Option<seq<string>>,
    description: Option<string>,
    subcommands: Option<seq<SubTaskDescription>>)

  datatype SubTaskDescription = SubTaskDescription(
    command: Option<string>,
    cwd: Option<string>,
    name: string,
    args: Option<seq<string>>,
    visible: Option<bool>,
    binPath: Option<string>,
    variables: Option<map<string, string>>,
    dependsOn: Option<seq<string>>,
    description: Option<string>)

  /** What `for value in iterator.next()` visits: the first element only,
      since it iterates over an `Option`. */
  function FirstOnly(xs: Option<seq<string>>): (r: seq<string>)
    ensures |r| <= 1
    ensures r == [] <==> xs.None? || xs.value == []
    ensures r != [] ==> r[0] == xs.value[0]
  {
    if xs.Some? && xs.value != [] then [xs.value[0]] else []
  }

  // Each optional field is applied with its setter when present.

  function OptCwd(t: Task.Task, cwd: Option<string>): (r: Task.Task)
    ensures r == t.(cwd := if cwd.Some? then cwd else t.cwd)
  {
    if cwd.Some? then Task.WithCwd(t, cwd) else t
  }

  /** `with_visible`: a visible task is not hidden. */
  function OptVisible(t: Task.Task, visible: Option<bool>): (r: Task.Task)
    ensures r == t.(hidden := if visible.Some? then !visible.value else t.hidden)
  {
    if visible.Some? then Task.WithHidden(t, !visible.value) else t
  }

  function OptDescription(t: Task.Task, description: Option<string>): (r: Task.Task)
    ensures r == t.(description := if description.Some? then description else t.description)
  {
    if description.Some? then Task.WithDescription(t, description.value) else t
  }

  function OptVariables(t: Task.Task, vars: Option<map<string, string>>): (r: Task.Task)
    ensures r == t.(variables := t.variables + vars.GetOr(map[]))
  {
    if vars.Some? then
      var r := Task.WithVariables(t, vars.value);
      OverlaysUnique(r.variables, t.variables, vars.value);
      r
    else assert t.variables + map[] == t.variables; t
  }

  /** Everything `From<TaskDescription> for Task` does after the command:
      the working directory, the visibility, the description, the first
      dependency, the first argument and the variables, each laid over `t`. */
  function Settings(t: Task.Task, d: TaskDescription): (r: Task.Task)
    ensures r == t.(cwd := if d.cwd.Some? then d.cwd else t.cwd,
                    hidden := if d.visible.Some? then !d.visible.value else t.hidden,
                    description := if d.description.Some? then d.description else t.description,
                    dependencies := t.dependencies + FirstOnly(d.dependsOn),
                    args := t.args + FirstOnly(d.args),
                    variables := t.variables + d.variables.GetOr(map[]))
  {
    var t1 := OptDescription(OptVisible(OptCwd(t, d.cwd), d.visible), d.description);
    var t2 := Task.WithArgs(Task.WithDependencies(t1, FirstOnly(d.dependsOn)), FirstOnly(d.args));
    OptVariables(t2, d.variables)
  }

  /** `From<TaskDescription> for Task`: the command's words, then the other
      fields. The binary path has no field to go to. */
  function ToTask(d: TaskDescription): (t: Task.Task)
    ensures t.name == "task"
  {
    Settings(Task.WithCommand(Task.New(), d.command), d)
  }

  /** `t`, variables aside, is the task that a description with these
      fields yields under `name` with source `path`: the first word of the
      command gives the kind and the command, the other words and the first
      listed argument the arguments, the first listed dependency the
      dependencies, a visible flag the opposite hidden flag. */
  ghost predicate Built(t: Task.Task, name: string, path: string, command: string, cwd: Option<string>,
                        args: Option<seq<string>>, visible: Option<bool>, dependsOn: Option<seq<string>>,
                        description: Option<string>) {
    var words := SplitWhitespace(command);
    && t.name == name && t.source == path
    && (words == [] ==> t.kind == Task.Shell && t.command == [] && t.args == FirstOnly(args))
    && (words != [] ==>
          && t.kind == (if Task.IsAlias(words[0]) then Task.WK else Task.Shell)
          && (Task.IsAlias(words[0]) ==> "wk:" + t.command == words[0])
          && (!Task.IsAlias(words[0]) ==> t.command == words[0])
          && t.args == words[1..] + FirstOnly(args))
    && t.cwd == cwd
    && t.hidden == (visible.Some? && !visible.value)
    && t.description == description
    && t.dependencies == FirstOnly(dependsOn)
  }

  /** What each field of the task is made from. */
  lemma ToTaskFields(d: TaskDescription)
    ensures var t := ToTask(d);
      && Built(t, "task", [], d.command, d.cwd, d.args, d.visible, d.dependsOn, d.description)
      && t.variables == d.variables.GetOr(map[])
  {
    var words := SplitWhitespace(d.command);
    var t0 := Task.WithCommand(Task.New(), d.command);
    assert t0.args == (if words == [] then [] else words[1..]) by {
      if words != [] { assert [] + words[1..] == words[1..]; }
    }
    assert t0.dependencies == [] && t0.variables == map[] && t0.name == "task";
    assert [] + FirstOnly(d.dependsOn) == FirstOnly(d.dependsOn);
    assert map[] + d.variables.GetOr(map[]) == d.variables.GetOr(map[]);
  }

  /** The subcommand's description: the parent's (with its subcommands
      already detached), each field the subcommand sets replacing the
      parent's. Variables are merged, the subcommand's winning, only when the
      parent has some; otherwise the subcommand's are dropped. */
  function SubDescription(parent: TaskDescription, sub: SubTaskDescription): (d: TaskDescription)
    ensures d.command == sub.command.GetOr(parent.command)
    ensures d.cwd == sub.cwd.Or(parent.cwd)
    ensures d.args == sub.args.Or(parent.args)
    ensures d.visible == sub.visible.Or(parent.visible)
    ensures d.binPath == sub.binPath.Or(parent.binPath)
    ensures d.dependsOn == sub.dependsOn.Or(parent.dependsOn)
    ensures d.description == sub.description.Or(parent.description)
    ensures parent.variables.None? ==> d.variables.None?
    ensures parent.variables.Some? && sub.variables.None? ==> d.variables == parent.variables
    ensures parent.variables.Some? && sub.variables.Some? ==>
      d.variables.Some? && Overlays(d.variables.value, parent.variables.value, sub.variables.value)
    ensures d.subcommands == parent.subcommands
  {
    var d := if sub.command.Some? then parent.(command := sub.command.value) else parent;
    var d := match sub.variables
      case None => d
      case Some(vars) =>
        d.(variables := match d.variables
             case None => None
             case Some(v) => Some(v + vars));
    d.(cwd := sub.cwd.Or(d.cwd), args := sub.args.Or(d.args), visible := sub.visible.Or(d.visible),
       binPath := sub.binPath.Or(d.binPath), dependsOn := sub.dependsOn.Or(d.dependsOn),
       description := sub.description.Or(d.description))
  }

  /** The task of one subcommand: the merged description, under the
      subcommand's name, with the file's path as source. */
  function SubTask(parent: TaskDescription, sub: SubTaskDescription, path: string): (t: Task.Task)
    ensures t.name == sub.name && t.source == path
  {
    Task.WithSource(Task.WithName(ToTask(SubDescription(parent, sub)), sub.name), path)
  }

  /** The subtasks of one entry, in the order the subcommands are listed. */
  function SubTasks(parent: TaskDescription, subs: seq<SubTaskDescription>, path: string): (ts: seq<Task.Task>)
    ensures |ts| == |subs|
    ensures forall i :: 0 <= i < |subs| ==> ts[i] == SubTask(parent, subs[i], path)
  {
    seq(|subs|, i requires 0 <= i < |subs| => SubTask(parent, subs[i], path))
  }

  /** One entry of the file: its subtasks first, then its own task, all with
      the file's path as source. */
  function ExpandEntry(name: string, desc: TaskDescription, path: string): (ts: seq<Task.Task>)
    ensures var subs := desc.subcommands.GetOr([]);
      && |ts| == |subs| + 1
      && ts[|subs|].name == name
      && forall i :: 0 <= i < |subs| ==> ts[i].name == subs[i].name
    ensures forall i :: 0 <= i < |ts| ==> ts[i].source == path
  {
    var parent := desc.(subcommands := None);
    var subtasks := match desc.subcommands
      case None => []
      case Some(subs) => SubTasks(parent, subs, path);
    subtasks + [Task.WithSource(Task.WithName(ToTask(parent), name), path)]
  }

  /** `t` is the task of subcommand `sub` of an entry described by `desc`:
      each field the subcommand sets, and the entry's otherwise; its
      variables are the entry's with the subcommand's laid over them, or
      none when the entry has none. */
  ghost predicate FromSubcommand(t: Task.Task, desc: TaskDescription, sub: SubTaskDescription, path: string) {
    && Built(t, sub.name, path, sub.command.GetOr(desc.command), sub.cwd.Or(desc.cwd),
             sub.args.Or(desc.args), sub.visible.Or(desc.visible),
             sub.dependsOn.Or(desc.dependsOn), sub.description.Or(desc.description))
    && (desc.variables.None? ==> t.variables == map[])
    && (desc.variables.Some? ==> Overlays(t.variables, desc.variables.value, sub.variables.GetOr(map[])))
  }

  lemma SubTaskFields(desc: TaskDescription, sub: SubTaskDescription, path: string)
    ensures FromSubcommand(SubTask(desc.(subcommands := None), sub, path), desc, sub, path)
  {
    var d := SubDescription(desc.(subcommands := None), sub);
    var t := ToTask(d);
    ToTaskFields(d);
    Renamed(t, "task", [], sub.name, path, d.command, d.cwd, d.args, d.visible, d.dependsOn, d.description);
  }

  /** Renaming a built task and giving it a source builds it under the new
      name and source. */
  lemma Renamed(t: Task.Task, name: string, path: string, name': string, path': string,
                command: string, cwd: Option<string>, args: Option<seq<string>>, visible: Option<bool>,
                dependsOn: Option<seq<string>>, description: Option<string>)
    requires Built(t, name, path, command, cwd, args, visible, dependsOn, description)
    ensures Built(Task.WithSource(Task.WithName(t, name'), path'), name', path', command, cwd, args, visible,
                  dependsOn, description)
  {
  }

  lemma SubTasksFields(desc: TaskDescription, subs: seq<SubTaskDescription>, path: string)
    ensures var ts := SubTasks(desc.(subcommands := None), subs, path);
      forall i :: 0 <= i < |subs| ==> FromSubcommand(ts[i], desc, subs[i], path)
  {
    forall i | 0 <= i < |subs|
      ensures FromSubcommand(SubTask(desc.(subcommands := None), subs[i], path), desc, subs[i], path)
    {
      SubTaskFields(desc, subs[i], path);
    }
  }

  /** The entry's own task is built from its description under its name. */
  lemma OwnTaskFields(name: string, desc: TaskDescription, path: string)
    ensures var t := Task.WithSource(Task.WithName(ToTask(desc.(subcommands := None)), name), path);
      && Built(t, name, path, desc.command, desc.cwd, desc.args, desc.visible, desc.dependsOn, desc.description)
      && t.variables == desc.variables.GetOr(map[])
  {
    var parent := desc.(subcommands := None);
    ToTaskFields(parent);
    Renamed(ToTask(parent), "task", [], name, path, desc.command, desc.cwd, desc.args, desc.visible,
            desc.dependsOn, desc.description);
  }

  /** What each task of an entry is made from: the entry's own task from its
      description under the entry's name, and each subtask from the
      subcommand's fields laid over the entry's. */
  lemma ExpandEntryTasks(name: string, desc: TaskDescription, path: string)
    ensures var subs := desc.subcommands.GetOr([]);
      var ts := ExpandEntry(name, desc, path);
      && Built(ts[|subs|], name, path, desc.command, desc.cwd, desc.args, desc.visible,
               desc.dependsOn, desc.description)
      && ts[|subs|].variables == desc.variables.GetOr(map[])
      && forall i :: 0 <= i < |subs| ==> FromSubcommand(ts[i], desc, subs[i], path)
  {
    var subs := desc.subcommands.GetOr([]);
    var parent := desc.(subcommands := None);
    var sts := SubTasks(parent, subs, path);
    var own := Task.WithSource(Task.WithName(ToTask(parent), name), path);
    assert ExpandEntry(name, desc, path) == sts + [own];
    OwnTaskFields(name, desc, path);
    SubTasksFields(desc, subs, path);
    assert forall i :: 0 <= i < |subs| ==> (sts + [own])[i] == sts[i];
  }

  /** `load` after reading and parsing: the entries in the order the map
      yields them, each expanded in turn. */
  function Load(entries: seq<(string, TaskDescription)>, path: string): (ts: seq<Task.Task>)
    ensures forall i :: 0 <= i < |ts| ==> ts[i].source == path
    decreases |entries|
  {
    if entries == [] then []
    else ExpandEntry(entries[0].0, entries[0].1, path) + Load(entries[1..], path)
  }

  /** The number of tasks a file yields: one per entry and one per subcommand. */
  function TaskCount(entries: seq<(string, TaskDescription)>): nat
    decreases |entries|
  {
    if entries == [] then 0
    else 1 + |entries[0].1.subcommands.GetOr([])| + TaskCount(entries[1..])
  }

  lemma {:induction false} LoadCount(entries: seq<(string, TaskDescription)>, path: string)
    ensures |Load(entries, path)| == TaskCount(entries)
    decreases |entries|
  {
    if entries != [] {
      LoadCount(entries[1..], path);
    }
  }
}
