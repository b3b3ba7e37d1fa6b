/** The context of src/context.rs: the registry a file resolves to, and
    the ordering of a task and its dependencies into the list of commands a
    run executes. */
module Context {
  import opened Wrappers
  import opened Errors
  import opened Text
  import Builder
  import Resolver

  /** `Context::tasks`: every resolved name and what it is bound to. */
  type Registry = map<string, Resolver.Entry>

  /** `name` is bound to a command (not a concurrent group). */
  predicate IsCommand(reg: Registry, name: string) {
    name in reg && reg[name].CommandEntry?
  }

  /** `find_builder`: the command bound to `name`; a group counts as absent. */
  function FindBuilder(reg: Registry, name: string): (r: Option<Builder.CommandBuilder>)
    ensures r.Some? <==> IsCommand(reg, name)
    ensures r.Some? ==> r.value == reg[name].builder
  {
    if name in reg then
      match reg[name]
      case CommandEntry(b) => Some(b)
      case ConcurrentEntry(_) => None
    else None
  }

  /** `create_command`: the named command, materialised with the overrides. */
  function CreateCommand(reg: Registry, name: string, overrides: Option<map<string, string>>,
                         host: Builder.Host): (r: Option<Builder.Command>)
    ensures r.Some? <==> IsCommand(reg, name)
    ensures r.Some? ==> r.value.name == reg[name].builder.name
    ensures r.Some? ==> r.value.dependencies == reg[name].builder.dependencies
  {
    match FindBuilder(reg, name)
    case None => None
    case Some(b) => Some(Builder.ToCommand(b, overrides, host))
  }

  /** The dependencies `create_stack` follows from `name`: those bound to a
      command, other than `name` itself. */
  predicate Follows(reg: Registry, name: string, dep: string)
    requires IsCommand(reg, name)
  {
    dep in reg[name].builder.dependencies && IsCommand(reg, dep) && dep != name
  }

  /** Every command has a rank, and every dependency it follows ranks lower:
      the dependency graph, self-loops aside, has no cycle. */
  ghost predicate Ranked(reg: Registry, rank: map<string, nat>) {
    forall n :: IsCommand(reg, n) ==>
      && n in rank
      && forall d :: Follows(reg, n, d) ==> d in rank && rank[d] < rank[n]
  }

  function RankOf(rank: map<string, nat>, name: string): nat {
    if name in rank then rank[name] else 0
  }

  /** `n` is the command `root` or is reached from it through followed
      dependencies, each step going down in rank. */
  ghost predicate Reaches(reg: Registry, rank: map<string, nat>, root: string, n: string)
    decreases RankOf(rank, root)
  {
    && IsCommand(reg, root)
    && (|| n == root
        || exists d :: Follows(reg, root, d) && RankOf(rank, d) < RankOf(rank, root) && Reaches(reg, rank, d, n))
  }

  /** A command reaches whatever the dependencies it follows reach. */
  lemma ReachesStep(reg: Registry, rank: map<string, nat>, name: string, d: string, n: string)
    requires Ranked(reg, rank) && IsCommand(reg, name) && Follows(reg, name, d)
    requires Reaches(reg, rank, d, n)
    ensures Reaches(reg, rank, name, n)
  {
    assert RankOf(rank, d) < RankOf(rank, name);
  }

  /** The `order` and `tasks` that `create_stack` fills in. */
  datatype Stack = Stack(order: seq<string>, tasks: map<string, Builder.Command>)

  const Empty: Stack := Stack([], map[])

  /** Each name is listed once and has exactly one command. */
  ghost predicate WellFormed(st: Stack) {
    NoDuplicates(st.order) && forall n :: n in st.tasks <==> n in st.order
  }

  /** `after` only appends names and never replaces a command. */
  ghost predicate Grows(before: Stack, after: Stack) {
    && |before.order| <= |after.order|
    && after.order[..|before.order|] == before.order
    && forall n :: n in before.tasks ==> n in after.tasks && after.tasks[n] == before.tasks[n]
  }

  /** Every name `after` adds is a command of the registry, materialised with
      the overrides. */
  ghost predicate AddsCommands(reg: Registry, before: Stack, after: Stack,
                               overrides: Option<map<string, string>>, host: Builder.Host) {
    forall n :: n in after.tasks && n !in before.tasks ==>
      IsCommand(reg, n) && after.tasks[n] == Builder.ToCommand(reg[n].builder, overrides, host)
  }

  /** Every name `after` adds is reached from `root`. */
  ghost predicate Reached(reg: Registry, rank: map<string, nat>, root: string, before: Stack, after: Stack) {
    forall n :: n in after.tasks && n !in before.tasks ==> Reaches(reg, rank, root, n)
  }

  lemma ReachedStep(reg: Registry, rank: map<string, nat>, name: string, d: string, before: Stack, after: Stack)
    requires Ranked(reg, rank) && IsCommand(reg, name) && Follows(reg, name, d)
    requires Reached(reg, rank, d, before, after)
    ensures Reached(reg, rank, name, before, after)
  {
    forall n | n in after.tasks && n !in before.tasks ensures Reaches(reg, rank, name, n) {
      ReachesStep(reg, rank, name, d, n);
    }
  }

  lemma ReachedTrans(reg: Registry, rank: map<string, nat>, root: string, a: Stack, b: Stack, c: Stack)
    requires Grows(a, b) && Reached(reg, rank, root, a, b) && Reached(reg, rank, root, b, c)
    ensures Reached(reg, rank, root, a, c)
  {
  }

  /** From position `from` on, every dependency a listed command follows is
      listed earlier. */
  ghost predicate DepsFirst(reg: Registry, order: seq<string>, from: nat) {
    forall i :: from <= i < |order| && IsCommand(reg, order[i]) ==>
      forall d :: Follows(reg, order[i], d) ==> d in order[..i]
  }

  lemma DepsFirstJoin(reg: Registry, o1: seq<string>, o2: seq<string>, from: nat)
    requires from <= |o1| <= |o2| && o2[..|o1|] == o1
    requires DepsFirst(reg, o1, from) && DepsFirst(reg, o2, |o1|)
    ensures DepsFirst(reg, o2, from)
  {
    forall i | from <= i < |o1| && IsCommand(reg, o2[i])
      ensures forall d :: Follows(reg, o2[i], d) ==> d in o2[..i]
    {
      assert o2[i] == o1[i];
      assert o2[..i] == o1[..i];
    }
  }

  /** `create_stack`: the dependencies are stacked first, in the order the
      command lists them, skipping any already stacked; then the command
      itself is stacked unless a dependency already put it there. A name not
      bound to a command adds nothing. */
  function CreateStack(reg: Registry, rank: map<string, nat>, name: string, st: Stack,
                       overrides: Option<map<string, string>>, host: Builder.Host): (r: Stack)
    requires Ranked(reg, rank) && WellFormed(st)
    ensures WellFormed(r) && Grows(st, r) && AddsCommands(reg, st, r, overrides, host)
    ensures IsCommand(reg, name) ==> name in r.tasks
    ensures !IsCommand(reg, name) ==> r == st
    ensures forall n :: n in r.tasks && n !in st.tasks ==> n in rank && rank[n] <= RankOf(rank, name)
    ensures IsCommand(reg, name) && name !in st.tasks ==> r.order[|r.order| - 1] == name
    ensures DepsFirst(reg, r.order, |st.order|)
    ensures Reached(reg, rank, name, st, r)
    decreases RankOf(rank, name), 1, 0
  {
    match CreateCommand(reg, name, overrides, host)
    case None => st
    case Some(c) =>
      var st1 := VisitDependencies(reg, rank, name, c.dependencies, st, overrides, host);
      if name in st1.tasks then st1
      else
        PushStacksLast(reg, name, st, st1, c, overrides, host);
        assert Reaches(reg, rank, name, name);
        Stack(st1.order + [name], st1.tasks[name := c])
  }

  /** Stacking a command whose followed dependencies are all stacked keeps
      every property of the stack. */
  lemma PushStacksLast(reg: Registry, name: string, st: Stack, st1: Stack, c: Builder.Command,
                       overrides: Option<map<string, string>>, host: Builder.Host)
    requires WellFormed(st1) && Grows(st, st1) && AddsCommands(reg, st, st1, overrides, host)
    requires DepsFirst(reg, st1.order, |st.order|)
    requires IsCommand(reg, name) && c == Builder.ToCommand(reg[name].builder, overrides, host)
    requires name !in st1.tasks
    requires forall d :: Follows(reg, name, d) ==> d in st1.tasks
    ensures var r := Stack(st1.order + [name], st1.tasks[name := c]);
      && WellFormed(r) && Grows(st, r) && AddsCommands(reg, st, r, overrides, host)
      && DepsFirst(reg, r.order, |st.order|)
  {
    var r := Stack(st1.order + [name], st1.tasks[name := c]);
    assert r.order[..|st1.order|] == st1.order;
    assert r.order[..|st.order|] == st.order by {
      assert r.order[..|st.order|] == st1.order[..|st.order|];
    }
    assert DepsFirst(reg, r.order, |st1.order|) by {
      forall i | |st1.order| <= i < |r.order| && IsCommand(reg, r.order[i])
        ensures forall d :: Follows(reg, r.order[i], d) ==> d in r.order[..i]
      {
        assert i == |st1.order| && r.order[i] == name;
      }
    }
    DepsFirstJoin(reg, st1.order, r.order, |st.order|);
    assert NoDuplicates(r.order) by {
      forall i, j | 0 <= i < j < |r.order| ensures r.order[i] != r.order[j] {
        if j < |st1.order| {
          assert r.order[i] == st1.order[i] && r.order[j] == st1.order[j];
        } else {
          assert r.order[i] == st1.order[i];
        }
      }
    }
  }

  /** Growing in two steps is growing, and the guarantees of the steps add up. */
  lemma GrowsTrans(reg: Registry, a: Stack, b: Stack, c: Stack,
                   overrides: Option<map<string, string>>, host: Builder.Host)
    requires Grows(a, b) && AddsCommands(reg, a, b, overrides, host) && DepsFirst(reg, b.order, |a.order|)
    requires Grows(b, c) && AddsCommands(reg, b, c, overrides, host) && DepsFirst(reg, c.order, |b.order|)
    ensures Grows(a, c) && AddsCommands(reg, a, c, overrides, host) && DepsFirst(reg, c.order, |a.order|)
  {
    assert c.order[..|a.order|] == a.order by {
      assert c.order[..|a.order|] == c.order[..|b.order|][..|a.order|];
    }
    DepsFirstJoin(reg, b.order, c.order, |a.order|);
  }

  /** The loop over a command's dependencies in `create_stack`. */
  function VisitDependencies(reg: Registry, rank: map<string, nat>, name: string, deps: seq<string>,
                             st: Stack, overrides: Option<map<string, string>>,
                             host: Builder.Host): (r: Stack)
    requires Ranked(reg, rank) && WellFormed(st) && IsCommand(reg, name)
    requires forall d :: d in deps ==> d in reg[name].builder.dependencies
    ensures WellFormed(r) && Grows(st, r) && AddsCommands(reg, st, r, overrides, host)
    ensures forall d :: d in deps && IsCommand(reg, d) && d != name ==> d in r.tasks
    ensures forall n :: n in r.tasks && n !in st.tasks ==> n in rank && rank[n] < rank[name]
    ensures DepsFirst(reg, r.order, |st.order|)
    ensures Reached(reg, rank, name, st, r)
    decreases rank[name], 0, |deps|
  {
    if deps == [] then st
    else
      var d := deps[0];
      var st1 :=
        if FindBuilder(reg, d).Some? && d != name && d !in st.tasks
        then
          assert Follows(reg, name, d);
          var s := CreateStack(reg, rank, d, st, overrides, host);
          ReachedStep(reg, rank, name, d, st, s);
          s
        else st;
      var r := VisitDependencies(reg, rank, name, deps[1..], st1, overrides, host);
      GrowsTrans(reg, st, st1, r, overrides, host);
      ReachedTrans(reg, rank, name, st, st1, r);
      r
  }

  /** The command-list loop of `run`: each listed name's command is taken out
      of the map, in order; a name already taken yields nothing. */
  function Drain(order: seq<string>, tasks: map<string, Builder.Command>): (r: seq<Builder.Command>)
    ensures |r| <= |order|
    ensures forall i :: 0 <= i < |r| ==> r[i] in tasks.Values
    decreases |order|
  {
    if order == [] then []
    else if order[0] in tasks then [tasks[order[0]]] + Drain(order[1..], tasks - {order[0]})
    else Drain(order[1..], tasks)
  }

  /** With distinct names all present, every listed command is taken, in order. */
  lemma {:induction false} DrainAll(order: seq<string>, tasks: map<string, Builder.Command>)
    requires NoDuplicates(order)
    requires forall i :: 0 <= i < |order| ==> order[i] in tasks
    ensures |Drain(order, tasks)| == |order|
    ensures forall i :: 0 <= i < |order| ==> Drain(order, tasks)[i] == tasks[order[i]]
    decreases |order|
  {
    if order != [] {
      var rest := order[1..];
      var smaller := tasks - {order[0]};
      forall i | 0 <= i < |rest| ensures rest[i] in smaller {
        assert rest[i] == order[i + 1];
      }
      DrainAll(rest, smaller);
      forall i | 0 <= i < |order| ensures Drain(order, tasks)[i] == tasks[order[i]] {
        if i > 0 {
          assert Drain(order, tasks)[i] == Drain(rest, smaller)[i - 1];
          assert rest[i - 1] == order[i];
        }
      }
    }
  }

  /** What `run` executes for `root`: the names stacked, each once, `root`
      last; one command per name, materialised from the registry; every
      dependency a command follows stacked before it. */
  ghost predicate RunsInOrder(reg: Registry, root: string, order: seq<string>, cmds: seq<Builder.Command>,
                              overrides: Option<map<string, string>>, host: Builder.Host) {
    && NoDuplicates(order)
    && |cmds| == |order| > 0
    && order[|order| - 1] == root
    && (forall i :: 0 <= i < |order| ==>
          IsCommand(reg, order[i])
          && cmds[i] == Builder.ToCommand(reg[order[i]].builder, overrides, host))
    && DepsFirst(reg, order, 0)
  }

  /** ... and nothing the root does not reach is run. */
  ghost predicate Schedules(reg: Registry, rank: map<string, nat>, root: string, order: seq<string>,
                            cmds: seq<Builder.Command>, overrides: Option<map<string, string>>,
                            host: Builder.Host) {
    && RunsInOrder(reg, root, order, cmds, overrides, host)
    && (forall i :: 0 <= i < |order| ==> Reaches(reg, rank, root, order[i]))
  }

  /** A stack built from nothing that ends with `root` and lists each
      dependency first, drained in order, runs in that order. */
  lemma DrainRunsInOrder(reg: Registry, root: string, st: Stack,
                         overrides: Option<map<string, string>>, host: Builder.Host)
    requires WellFormed(st) && AddsCommands(reg, Empty, st, overrides, host)
    requires st.order != [] && st.order[|st.order| - 1] == root
    requires DepsFirst(reg, st.order, 0)
    ensures RunsInOrder(reg, root, st.order, Drain(st.order, st.tasks), overrides, host)
  {
    forall i | 0 <= i < |st.order| ensures st.order[i] in st.tasks {
      assert st.order[i] in st.order;
    }
    DrainAll(st.order, st.tasks);
  }

  /** If moreover every name it adds is reached from `root`, it is a
      schedule for `root`. */
  lemma DrainSchedules(reg: Registry, rank: map<string, nat>, root: string, st: Stack,
                       overrides: Option<map<string, string>>, host: Builder.Host)
    requires WellFormed(st) && AddsCommands(reg, Empty, st, overrides, host)
    requires Reached(reg, rank, root, Empty, st)
    requires st.order != [] && st.order[|st.order| - 1] == root
    requires DepsFirst(reg, st.order, 0)
    ensures Schedules(reg, rank, root, st.order, Drain(st.order, st.tasks), overrides, host)
  {
    DrainRunsInOrder(reg, root, st, overrides, host);
    ReachedListed(reg, rank, root, st);
  }

  /** Every name of a stack built from nothing is reached from the root. */
  lemma ReachedListed(reg: Registry, rank: map<string, nat>, root: string, st: Stack)
    requires WellFormed(st) && Reached(reg, rank, root, Empty, st)
    ensures forall i :: 0 <= i < |st.order| ==> Reaches(reg, rank, root, st.order[i])
  {
    forall i | 0 <= i < |st.order| ensures Reaches(reg, rank, root, st.order[i]) {
      assert st.order[i] in st.order;
    }
  }

  /** `run` without the execution: a root not bound to a command is an
      error; otherwise the commands of the stack built from the root, in
      stacking order. */
  function Run(reg: Registry, rank: map<string, nat>, root: string,
               overrides: Option<map<string, string>>, host: Builder.Host): (r: Result<seq<Builder.Command>, Error>)
    requires Ranked(reg, rank)
    ensures r.Err? <==> !IsCommand(reg, root)
    ensures r.Err? ==> r.error == CommandNotFound(root)
    ensures r.Ok? ==> Schedules(reg, rank, root, CreateStack(reg, rank, root, Empty, overrides, host).order,
                                r.value, overrides, host)
  {
    if FindBuilder(reg, root).None? then Err(CommandNotFound(root))
    else
      var st := CreateStack(reg, rank, root, Empty, overrides, host);
      DrainSchedules(reg, rank, root, st, overrides, host);
      Ok(Drain(st.order, st.tasks))
  }
}
