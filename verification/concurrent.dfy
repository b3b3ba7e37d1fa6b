/** The group builder of src/concurrent/builder.rs: a named set of other
    task names with its own dependencies, variables and environments. */
module Concurrent {
  import opened Wrappers
  import opened Text

  datatype ConcurrentBuilder = ConcurrentBuilder(
    name: string,
    source: string,
    hidden: bool,
    commands: seq<string>,
    variables: map<string, string>,
    environments: map<string, string>,
    description: Option<string>,
    dependencies: seq<string>)

  /** A fresh group: named "task", visible, with an empty source and nothing in it. */
  function New(): (g: ConcurrentBuilder)
    ensures g.name == "task" && g.source == "" && !g.hidden && g.description.None?
    ensures g.commands == [] && g.dependencies == []
    ensures g.variables == map[] && g.environments == map[]
  {
    ConcurrentBuilder("task", "", false, [], map[], map[], None, [])
  }

  function WithName(g: ConcurrentBuilder, name: string): (r: ConcurrentBuilder)
    ensures r.name == name && r.(name := g.name) == g
  {
    g.(name := name)
  }

  function WithDescription(g: ConcurrentBuilder, description: string): (r: ConcurrentBuilder)
    ensures r.description == Some(description) && r.(description := g.description) == g
  {
    g.(description := Some(description))
  }

  function WithSource(g: ConcurrentBuilder, source: string): (r: ConcurrentBuilder)
    ensures r.source == source && r.(source := g.source) == g
  {
    g.(source := source)
  }

  function WithHidden(g: ConcurrentBuilder, hidden: bool): (r: ConcurrentBuilder)
    ensures r.hidden == hidden && r.(hidden := g.hidden) == g
  {
    g.(hidden := hidden)
  }

  function WithDependency(g: ConcurrentBuilder, dependency: string): (r: ConcurrentBuilder)
    ensures r.dependencies == g.dependencies + [dependency]
    ensures r.(dependencies := g.dependencies) == g
  {
    g.(dependencies := g.dependencies + [dependency])
  }

  /** One `with_dependency` per element: appended in order, duplicates kept. */
  function WithDependencies(g: ConcurrentBuilder, dependencies: seq<string>): (r: ConcurrentBuilder)
    ensures r.dependencies == g.dependencies + dependencies
    ensures r.(dependencies := g.dependencies) == g
    decreases |dependencies|
  {
    if dependencies == [] then g
    else
      assert g.dependencies + dependencies
          == (g.dependencies + [dependencies[0]]) + dependencies[1..];
      WithDependencies(WithDependency(g, dependencies[0]), dependencies[1..])
  }

  function WithCommand(g: ConcurrentBuilder, command: string): (r: ConcurrentBuilder)
    ensures r.commands == g.commands + [command] && r.(commands := g.commands) == g
  {
    g.(commands := g.commands + [command])
  }

  /** One `with_command` per element: every name appended, in order. */
  function WithCommands(g: ConcurrentBuilder, commands: seq<string>): (r: ConcurrentBuilder)
    ensures r.commands == g.commands + commands && r.(commands := g.commands) == g
    decreases |commands|
  {
    if commands == [] then g
    else
      assert g.commands + commands == (g.commands + [commands[0]]) + commands[1..];
      WithCommands(WithCommand(g, commands[0]), commands[1..])
  }

  /** Incoming keys overwrite, other keys are kept. */
  function WithVariables(g: ConcurrentBuilder, variables: map<string, string>): (r: ConcurrentBuilder)
    ensures Overlays(r.variables, g.variables, variables)
    ensures r.(variables := g.variables) == g
  {
    g.(variables := g.variables + variables)
  }

  /** Incoming keys overwrite, other keys are kept. */
  function WithEnvironments(g: ConcurrentBuilder, environments: map<string, string>): (r: ConcurrentBuilder)
    ensures Overlays(r.environments, g.environments, environments)
    ensures r.(environments := g.environments) == g
  {
    g.(environments := g.environments + environments)
  }
}
