# wk-rs task resolution and ordering, in Dafny

wk-rs is a task runner. A YAML commands file declares tasks. Each is one of:

- a shorthand string;
- a full description;
- an extension of another task;
- a concurrent group of task names.

The resolver turns the file into a registry that maps each name to a command builder or a group. On the way it:

- rewrites `wk:` alias tasks into extensions;
- cascades the file's variables and environments under each task's own;
- resolves extensions with a worklist that tolerates one forward reference per name.

Asked to run a task, the context stacks the task's dependencies depth-first, each name once. Each stacked builder is then materialised into a command:

- the variables, with the caller's overrides on top, are substituted into the arguments;
- a shell and its `-c`/`/c` flag are chosen;
- the working directory falls back to the process's.

The `--var.` scanner of `src/utils/argv.rs` extracts variable settings from a token list. The tree also holds two earlier iterations, modelled on their own terms:

- the `Task`/`Command` records of `src/task.rs` and `src/command.rs`, which classify the first word as a `wk:` alias or a shell program;
- the TOML importer of `src/importer.rs`, which expands subcommands into tasks.

The model is functional. Records are immutable datatypes, collections are `seq` and `map`, and every operation is a pure function. Rust's `HashMap` iteration order is a parameter: `keyOrder` for the resolver's pass, `Host.keyOrder` for substitution, and the entry sequence for the TOML importer. Everything `to_command` reads from outside the builder is a `Host` value:

- `cfg!(windows)`;
- `env::current_dir`;
- the parent directory of a source path that is a file.

Errors are one datatype, `Errors.Error`:

- `EmptyCommand` for the two empty-string refusals;
- `CannotExtend(name, target)` for both failures of `resolve_extends`;
- `CommandNotFound(name)` for `run`.

The files:

- `text.dfy`: the `str` and `HashMap` operations the code relies on. These are `split_whitespace`, `replace`, the first item of `split('=')`, and `extend` as a map overlay.
- `argv.dfy`: `src/utils/argv.rs`.
- `builder.dfy`: `src/command/builder.rs`.
- `concurrent.dfy`: `src/concurrent/builder.rs`.
- `resolver.dfy`: `src/importer/resolver.rs`.
- `context.dfy`: `src/context.rs`.
- `task.dfy`: `src/task.rs` and `src/command.rs`.
- `toml_importer.dfy`: `src/importer.rs`.
- `wrappers.dfy`: `Option`, `Result` and the error datatype.

Three behaviours of the code are easy to misread, and the model follows the code in each:

- **`--var.` flags in a shorthand stay arguments.** `wk:build --var.x=1` as a shorthand string sets no variable. `CommandDescription::from_str` has already moved every word after the first into `args`, so only the first word reaches the `--var.` scanner. `Resolver.AliasShorthandKeepsSettings` states this.
- **The target's name can be its own first argument.** A full `wk:` description without `args` gets all remaining words as arguments, the extended target's name included. `Resolver.AliasDescriptionExtractsSettings` states this.
- **An extension always replaces the working directory.** An extension that does not set `cwd` clears the base's working directory instead of keeping it (`src/importer/resolver.rs:155`). `Resolver.Extend` states this.

`resolve_extends` also terminates on every input, cycles of any length included. Each step either removes a record or adds a new name to `pending`, and `Resolver.ResolveExtends` carries that measure.

## Model

| member | source | states |
|---|---|---|
| Text.SplitWhitespaceWords | src/command/builder.rs:52-58 | every piece `split_whitespace` yields is a non-empty word without white space, and there are none exactly when the string is blank |
| Text.SplitWordThen | src/importer/resolver.rs:249 | a word followed by white space or by nothing is split off as the first piece, and splitting continues on the remainder |
| Text.SplitJoin | src/importer/resolver.rs:249 | splitting words joined by single spaces gives back exactly those words (the partner of `split_whitespace`) |
| Text.SplitWord | src/importer/resolver.rs:441 | a single word splits into the one-element list of itself |
| Text.ContainsPrefixOf | src/command/builder.rs:179-180 | an occurrence of a pattern is an occurrence of each of its prefixes, so an argument containing `${K}` contains `${` |
| Text.ReplaceAllSkipsPrefix | src/command/builder.rs:180 | a prefix in which no occurrence of the pattern starts comes out of `replace` unchanged |
| Text.ReplaceAllAtMatch | src/command/builder.rs:180 | an occurrence at the front is replaced by the value, and the scan resumes right after it (non-overlapping replacement) |
| Text.ReplaceAllSelf | src/command/builder.rs:180 | replacing a pattern by itself leaves any string unchanged |
| Text.Before | src/utils/argv.rs:85-87 | the first item of `split('=')` is a prefix free of `=`, and when the string holds `=` it stops exactly at the first one |
| Argv.MatchPattern | src/utils/argv.rs:5-20 | `Some` exactly when the pattern is non-empty and a strict prefix of the string; then the matched part is the pattern, matched plus rest is the string, and the rest is non-empty |
| Argv.IsOption | src/utils/argv.rs:22-30 | an option is exactly a string of length at least 2 starting with `-` |
| Argv.GetOption | src/utils/argv.rs:32-40 | succeeds exactly on options; the `--` split is preferred whenever it applies, otherwise the `-` split |
| Argv.IsBoolOption | src/utils/argv.rs:42-46 | a bool option is an option that the `--` match does not take |
| Argv.GetBoolOption | src/utils/argv.rs:48-55 | succeeds exactly on bool options and yields the name after the single dash |
| Argv.IsVarOption | src/utils/argv.rs:57-59 | a var option is exactly `--var.` followed by at least one character |
| Argv.GetVarOption | src/utils/argv.rs:61-63 | succeeds exactly on var options and yields the text after `--var.` |
| Argv.SplitAssignment | src/utils/argv.rs:84-101 | a text without `=` is a value-less flag for the whole text; a text with `=` is never a flag, and when it is read as an assignment the key is non-empty and free of `=` and the value is non-empty; never a switch |
| Argv.AssignmentOfShape | src/utils/argv.rs:84-96 | `K=V` with a non-empty `K` free of `=` and a non-empty `V` reads as the assignment of everything after the first `=` to `K` |
| Argv.ShapeOfAssignment | src/utils/argv.rs:84-96 | an assignment is read only from that shape |
| Argv.AssignmentShape | src/utils/argv.rs:84-101 | both directions: a token's text reads as assignment `K=V` if and only if it has that shape |
| Argv.Read | src/utils/argv.rs:84-103 | `extract_vars` never reads a switch, and reads a token as a plain parameter only when it is not a var option or its text after `--var.` holds an `=` (a bare `--var.K` is never a parameter) |
| Argv.Flush | src/utils/argv.rs:106-108 | a waiting key gets the value "true" and stops waiting; the parameters are untouched |
| Argv.RoleOf | src/utils/argv.rs:75-82 | a token is taken as a waiting key's value exactly when a key is waiting and the token is not an option |
| Argv.RunAppend | src/utils/argv.rs:69-110 | scanning is a left fold: scanning `a + b` is scanning `b` from where `a` left off |
| Argv.Step | src/utils/argv.rs:75-103 | after a token a key waits exactly when the token was a value-less flag, and the token is appended to the parameters exactly when its role is parameter, the parameters being untouched otherwise |
| Argv.Run | src/utils/argv.rs:74-104 | the loop only ever appends parameters, at most one per token |
| Argv.Finish | src/utils/argv.rs:106-110 | after the loop a key still waiting gets "true"; the parameters and the other variables are returned as they are |
| Argv.KeepFirst | src/utils/argv.rs:69-110 | the roles of a token list and the tokens kept unfold one token at a time |
| Argv.RunParams | src/utils/argv.rs:69-110 | the parameters a scan collects are the input tokens whose role is parameter, in input order, after those collected before; every token has exactly one role |
| Argv.ExtractVars | src/utils/argv.rs:65-111 | `extract_vars` returns as parameters exactly the tokens of role parameter, an order-preserving subsequence of its input |
| Argv.ExtractOption | src/utils/argv.rs:113-164 | the same for `extract_option`, where every option is read |
| Argv.VarAssignment | src/utils/argv.rs:84-96 | `--var.K=V` with non-empty `K` and `V` sets `K` to `V` and adds no parameter |
| Argv.VarMalformed | src/utils/argv.rs:84-103 | `--var.K=` and `--var.=V` set nothing and are kept as parameters |
| Argv.VarFlagTakesValue | src/utils/argv.rs:75-99 | a bare `--var.K` takes the next token as its value when that token is not an option |
| Argv.VarFlagBeforeOption | src/utils/argv.rs:75-99 | a bare `--var.K` followed by an option gets "true", and the option is then read as usual |
| Argv.VarFlagAtEnd | src/utils/argv.rs:75-108 | a bare `--var.K` at the end of any input gets "true" and adds no parameter, whether or not a key was already waiting |
| Argv.AssignmentStep | src/utils/argv.rs:75-96 | `--var.K=V` with non-empty `K` and `V` binds `K` to `V` whether or not a key was waiting, leaves no key waiting and adds no parameter |
| Argv.LastAssignmentWins | src/utils/argv.rs:74-108 | a final `--var.K=V` leaves `K` bound to `V` whatever came before, and adds no parameter |
| Argv.OptionStepFlushes | src/utils/argv.rs:75-82 | an option token first gives any waiting key "true" |
| Argv.OptionSwitch | src/utils/argv.rs:133-137 | in `extract_option` a single-dash token `-K` sets `K` to "true" |
| Argv.OptionAssignment | src/utils/argv.rs:139-153 | in `extract_option`, `--K=V` sets `K` to `V` as `--var.K=V` does |
| Argv.OptionFlagTakesValue | src/utils/argv.rs:124-152 | in `extract_option`, `--K V` sets `K` to `V` as `--var.K V` does |
| Builder.New | src/command/builder.rs:25-38 | a fresh builder is named "command" and has no arguments, dependencies, shell, working directory or description, is not hidden, has an empty source and empty variable and environment maps |
| Builder.WithName | src/command/builder.rs:40-46 | the name is replaced and nothing else changes |
| Builder.WithCommand | src/command/builder.rs:48-64 | the old arguments are dropped and replaced by the words of the command, program first; there are none exactly when the command is blank; nothing else changes |
| Builder.WithDescription | src/command/builder.rs:66-72 | the description is set and nothing else changes |
| Builder.WithCwd | src/command/builder.rs:74-80 | the working directory becomes the given option, so `None` clears it; nothing else changes |
| Builder.WithSource | src/command/builder.rs:82-88 | the source is replaced and nothing else changes |
| Builder.WithHidden | src/command/builder.rs:90-93 | the flag is replaced and nothing else changes |
| Builder.WithShell | src/command/builder.rs:95-101 | a shell is always set afterwards; nothing else changes |
| Builder.WithDependency | src/command/builder.rs:103-109 | one name appended at the end, duplicates kept; nothing else changes |
| Builder.WithDependencies | src/command/builder.rs:111-120 | all names appended in order, duplicates kept; nothing else changes |
| Builder.WithArg | src/command/builder.rs:122-128 | one argument appended at the end; nothing else changes |
| Builder.WithArgs | src/command/builder.rs:130-139 | all arguments appended in order; nothing else changes |
| Builder.OverrideArgs | src/command/builder.rs:141-151 | the arguments become exactly the given list; nothing else changes |
| Builder.WithVariables | src/command/builder.rs:153-156 | the result is the old map overlaid by the new one: incoming keys win, other keys keep their values, no key is lost |
| Builder.WithEnvironments | src/command/builder.rs:158-161 | the same overlay for environments |
| Builder.TokenNeedsMarker | src/command/builder.rs:179 | an argument containing `${K}` for any key contains `${` |
| Builder.MergeVariables | src/command/builder.rs:164-169 | without overrides the builder's variables; with overrides, the builder's overlaid by them, overrides winning |
| Builder.Substitute | src/command/builder.rs:175-184 | an argument without `${` is returned unchanged whatever the variables |
| Builder.SubstituteUnknownKeys | src/command/builder.rs:178-181 | keys of the order that are absent from the map substitute nothing: a step of the loop only replaces a key the map holds |
| Builder.SubstituteSingleKey | src/command/builder.rs:178-181 | with a single variable `K`, substitution replaces every non-overlapping `${K}` by its value and changes nothing else, whatever the iteration order |
| Builder.ToCommand | src/command/builder.rs:163-231 | name, dependencies and environments copied; one argument more than the builder; the flag is `/c` exactly when no shell is set on Windows, else `-c`; the shell is the builder's or `cmd.exe`/`bash`; the working directory is the builder's, else the process's, else the source file's parent |
| Builder.ToCommandArgs | src/command/builder.rs:171-185 | after the flag, each argument is the builder's argument substituted on its own with the merged variables, and an argument without `${` is copied unchanged |
| Builder.ToCommandSingleOverride | src/command/builder.rs:164-185 | an override `K=V` over a builder whose variables are at most `K` replaces every `${K}` by `V` in every argument and nothing else |
| Builder.ToCommandSingleOverrideValid | src/command/builder.rs:164-185 | the same on every host whose key order lists each key of every map exactly once, as a `HashMap` iteration does |
| Builder.FromStr | src/command/builder.rs:234-247 | only the empty string is refused; otherwise the builder's arguments are the string's words, none for a white-space-only string |
| Concurrent.New | src/concurrent/builder.rs:16-27 | a fresh group is named "task", has an empty source, is visible, without description, with no commands, dependencies, variables or environments |
| Concurrent.WithName | src/concurrent/builder.rs:29-35 | the name is replaced and nothing else changes |
| Concurrent.WithDescription | src/concurrent/builder.rs:37-43 | the description is set and nothing else changes |
| Concurrent.WithSource | src/concurrent/builder.rs:45-51 | the source is replaced and nothing else changes |
| Concurrent.WithHidden | src/concurrent/builder.rs:53-56 | the flag is replaced and nothing else changes |
| Concurrent.WithDependency | src/concurrent/builder.rs:58-64 | one name appended, duplicates kept; nothing else changes |
| Concurrent.WithDependencies | src/concurrent/builder.rs:66-75 | all names appended in order, duplicates kept; nothing else changes |
| Concurrent.WithCommand | src/concurrent/builder.rs:77-83 | one task name appended; nothing else changes |
| Concurrent.WithCommands | src/concurrent/builder.rs:85-94 | all task names appended in order; nothing else changes |
| Concurrent.WithVariables | src/concurrent/builder.rs:96-99 | the old map overlaid by the new one, incoming keys winning |
| Concurrent.WithEnvironments | src/concurrent/builder.rs:101-104 | the same overlay for environments |
| Resolver.PToS | src/importer/resolver.rs:412-418 | the keys are kept and each value is replaced by its text |
| Resolver.SToP | src/importer/resolver.rs:420-429 | the keys are kept and each value is wrapped as a string primitive |
| Resolver.PToSAfterSToP | src/importer/resolver.rs:412-429 | wrapping text values as primitives and converting them back gives the same map |
| Resolver.PToSOverlay | src/importer/resolver.rs:412-418 | converting an overlaid map is overlaying the converted maps |
| Resolver.NatText | src/importer/resolver.rs:233 | the decimal text of a natural number is a non-empty digit string with no leading zero |
| Resolver.IntText | src/importer/resolver.rs:233 | an integer's text starts with `-` exactly when the integer is negative |
| Resolver.NatTextValue | src/importer/resolver.rs:233 | the decimal text of a natural number reads back as that number |
| Resolver.IntTextValue | src/importer/resolver.rs:233 | an integer's text parses back to the same integer |
| Resolver.PrimitiveText | src/importer/resolver.rs:228-237 | a string is kept as it is, a boolean becomes `true` or `false` according to its value, and an integer becomes text that parses back to it |
| Resolver.IsShellTask | src/importer/resolver.rs:431-438 | not a shell task exactly when the command has at least 4 characters and starts with `wk:`; a bare `wk:` is a shell task |
| Resolver.SplitCommand | src/importer/resolver.rs:440-457 | as many pieces as words; the marker is stripped from the first word only, and only when something follows it; later words unchanged |
| Resolver.SplitCommandOfWords | src/importer/resolver.rs:440-457 | for words joined by spaces, the result is the words with the marker stripped from the first alias word alone |
| Resolver.ParseShorthand | src/importer/resolver.rs:245-271 | fails exactly on a blank string, with the empty-command error; otherwise the command is the first word and the arguments are the remaining words in order |
| Resolver.LayOver | src/importer/resolver.rs:101-177 | arguments and dependencies appended; shell, hidden and description replaced only when present; variables and environments overlaid with the new values converted to text; nothing else changes |
| Resolver.FromDescription | src/importer/resolver.rs:96-125 | the arguments are the command's words followed by the description's; every other field comes from the description or its default; name "command", no source |
| Resolver.FromConcurrentDescription | src/importer/resolver.rs:127-150 | the group lists the description's commands, and takes its hidden flag, dependencies, description, variables and environments or their defaults |
| Resolver.Extend | src/importer/resolver.rs:152-181 | over a copy of the base: the working directory replaced unconditionally, arguments and dependencies appended, shell, hidden and description replaced only when present, variables and environments overlaid with the extension winning, name and source kept |
| Resolver.ExtendOnlyCwd | src/importer/resolver.rs:152-181 | an extension that sets only a working directory materialises to the base's command with that directory |
| Resolver.AliasToExtended | src/importer/resolver.rs:183-226 | a shell task keeps its fields and extends ""; an alias's scanned variables are laid over its own; the target is the first parameter or ""; the other parameters are appended to existing arguments, and absent arguments become all parameters |
| Resolver.AliasOfPlainWord | src/importer/resolver.rs:440-457 | a one-word alias without settings scans to its target alone and no variables |
| Resolver.AliasShorthandKeepsSettings | src/importer/resolver.rs:183-271 | an alias shorthand extends its first word's target, keeps every later word, `--var.` flags included, as arguments, and sets no variable |
| Resolver.AliasOfTwoWords | src/importer/resolver.rs:431-457 | a two-word alias command is not a shell task and splits into the target and the second word |
| Resolver.ExtractTargetThenSetting | src/utils/argv.rs:84-103 | scanning a target followed by `--var.K=V` gives the target as the only parameter and `K` bound to `V` |
| Resolver.AliasDescriptionExtractsSettings | src/importer/resolver.rs:186-211 | in a full alias description without arguments the `--var.` setting becomes a variable, and the arguments are the remaining words, the target's name included |
| Resolver.InsertTask | src/importer/resolver.rs:311-326 | the task is bound to its name as a command with that name and the file as source; variables and environments are the file's overlaid by the task's own; other bindings and fields unchanged |
| Resolver.AddConcurrent | src/importer/resolver.rs:328-339 | the same cascading and binding for a group |
| Resolver.AddExtend | src/importer/resolver.rs:341-343 | the extension is queued at the back and nothing else changes |
| Resolver.AddTask | src/importer/resolver.rs:302-309 | a shell task is bound at once under its name, as a command with the file as source whose arguments are the command's words followed by the listed ones, the queue untouched; an alias task binds nothing and is queued last under its name, extending the first parameter its `--var.` scan keeps |
| Resolver.NamesAppend | src/importer/resolver.rs:341-343 | queuing a record adds exactly its name to the names awaiting resolution |
| Resolver.AddTaskDeclares | src/importer/resolver.rs:302-309 | after adding a task, nothing resolved or queued is lost and the name is resolved or queued |
| Resolver.Declare | src/importer/resolver.rs:279-294 | an entry fails exactly when it is a blank shorthand; otherwise its name ends up resolved or queued and nothing earlier is lost |
| Resolver.ResolvePass | src/importer/resolver.rs:275-296 | on success every key of the file visited in iteration order is resolved or queued, and nothing earlier is lost |
| Resolver.PopShrinks | src/importer/resolver.rs:347 | popping a record never adds a name still to be tried |
| Resolver.RequeueShrinks | src/importer/resolver.rs:367-369 | sending a record to the front marks a new name as tried, so the measure of names still to try drops |
| Resolver.SettlesAfterInsert | src/importer/resolver.rs:351-360 | binding the popped name to a command over a target that is a command, then settling the rest, settles the whole worklist |
| Resolver.SettlesAfterRequeue | src/importer/resolver.rs:367-369 | sending the last record to the front does not change what settles |
| Resolver.FreshAfterPop | src/importer/resolver.rs:347-360 | binding the popped name keeps the remaining records distinct and unbound |
| Resolver.FreshAfterRequeue | src/importer/resolver.rs:367-369 | sending the last record to the front keeps the records distinct and unbound |
| Resolver.LaidPopped | src/importer/resolver.rs:351-360 | with distinct unbound names, the popped record ends up bound to its description laid over its target's final binding, since neither is rebound later |
| Resolver.LaidPush | src/importer/resolver.rs:347-360 | a laid rest and a laid popped record make a laid worklist |
| Resolver.LaidAfterInsert | src/importer/resolver.rs:351-360 | if the rest is laid whenever fresh, so is the whole worklist after a pop |
| Resolver.LaidAfterRequeue | src/importer/resolver.rs:367-369 | sending the last record to the front does not change what is laid |
| Resolver.ResolveExtends | src/importer/resolver.rs:345-379 | terminates on every input; on success no entry is lost, every queued name is bound to a command, every record's target is bound to a command, a command stays a command, entries not queued keep their binding; with distinct names none already bound, each name is bound to its description laid over its target's binding |
| Resolver.ExtendGroupFails | src/importer/resolver.rs:361-365 | extending a group fails as soon as its record is popped |
| Resolver.MissingTargetFails | src/importer/resolver.rs:347-374 | a record anywhere in the worklist whose target is neither bound nor the name of any record makes the pass fail |
| Resolver.LoneMissingTargetFails | src/importer/resolver.rs:367-374 | a lone record with a missing target fails on the second attempt, naming the task and its target |
| Resolver.ForwardReferenceResolves | src/importer/resolver.rs:345-379 | a record whose target is queued after it is requeued once and then resolves, and both names are bound to commands |
| Resolver.MutualExtendFails | src/importer/resolver.rs:345-379 | two extensions targeting each other fail instead of looping |
| Resolver.Resolve | src/importer/resolver.rs:274-298 | given a key order that lists each key of the file once, on success every key of the file is bound in the registry |
| Resolver.BlankShorthandFailsPass | src/importer/resolver.rs:281 | a blank shorthand anywhere in the keys makes the first pass fail |
| Resolver.BlankShorthandFails | src/importer/resolver.rs:274-298 | a blank shorthand anywhere in the file makes resolution fail, whatever the key order |
| Resolver.ShorthandWords | src/importer/resolver.rs:96-125 | a shorthand converted to a builder has all of the shorthand's words as arguments, program first |
| Context.FindBuilder | src/context.rs:13-27 | found exactly when the name is bound to a command, and then it is that command's builder; a group behaves as absent |
| Context.CreateCommand | src/context.rs:29-38 | defined exactly for command names, and then it carries the builder's name and dependencies |
| Context.ReachesStep | src/context.rs:47-58 | a command reaches whatever each dependency it follows reaches |
| Context.ReachedStep | src/context.rs:47-58 | names added by stacking a followed dependency are reached from the dependant |
| Context.DepsFirstJoin | src/context.rs:47-83 | dependency-first order over a prefix and over the rest of a list holds over the whole list |
| Context.CreateStack | src/context.rs:40-86 | names are only appended, each listed once with exactly one command, and never replaced; only command names are added, materialised from the registry, each reached from the name; a command name ends up stacked, last if it was new; every followed dependency is listed before its dependant; a non-command name changes nothing |
| Context.PushStacksLast | src/context.rs:78-83 | stacking a name whose followed dependencies are all stacked keeps every property of the stack |
| Context.GrowsTrans | src/context.rs:47-58 | growing in two steps is growing, and the guarantees of the two steps add up |
| Context.VisitDependencies | src/context.rs:47-58 | every dependency bound to a command other than the name itself ends up stacked, ranked lower than the name and reached from it; missing dependencies and groups are skipped |
| Context.Drain | src/context.rs:102-107 | at most one command per listed name, each a command of the map |
| Context.DrainAll | src/context.rs:102-107 | over distinct names all present, one command per listed name is taken, in list order |
| Context.DrainRunsInOrder | src/context.rs:97-107 | a stack built from nothing that ends with the root and lists dependencies first drains to one command per name in that order |
| Context.ReachedListed | src/context.rs:97-99 | every name of a stack built from nothing is reached from the root |
| Context.DrainSchedules | src/context.rs:97-107 | such a stack, when every name it adds is reached from the root, drains to a schedule for the root |
| Context.Run | src/context.rs:88-110 | fails with not-found exactly when the root is not a command; otherwise one command per stacked name, in order, each once, the root last, every followed dependency before its dependant, and only names the root reaches |
| Task.Fresh | src/task.rs:23-36 | a fresh record has the given name, a shell kind, and nothing else set |
| Task.New | src/task.rs:23-36 | `Task::new` is named "task" with shell kind and empty command, arguments, dependencies and variables |
| Task.NewCommand | src/command.rs:23-36 | `Command::new` is the same record named "command" |
| Task.Classify | src/task.rs:56-65 | an alias word gives kind WK and the word without its marker; any other word gives kind Shell and the word itself; nothing else changes |
| Task.Absorb | src/task.rs:66-68 | past the first word, every word is appended to the arguments |
| Task.WithCommand | src/task.rs:47-72 | a blank string changes nothing; otherwise the first word sets kind and command, and the rest are appended after the existing arguments without clearing them |
| Task.WithName | src/task.rs:38-44 | the name is replaced and nothing else changes |
| Task.WithDescription | src/task.rs:74-80 | the description is set and nothing else changes |
| Task.WithCwd | src/task.rs:82-88 | the working directory becomes the given option; nothing else changes |
| Task.WithSource | src/task.rs:90-96 | the source is replaced and nothing else changes |
| Task.WithHidden | src/task.rs:98-101 | the flag is replaced and nothing else changes |
| Task.WithDependency | src/task.rs:103-109 | one name appended; nothing else changes |
| Task.WithDependencies | src/task.rs:111-120 | all names appended in order, duplicates kept; nothing else changes |
| Task.WithArg | src/task.rs:123-129 | one argument appended; nothing else changes |
| Task.WithArgs | src/task.rs:131-140 | all arguments appended in order; nothing else changes |
| Task.WithVariables | src/task.rs:142-145 | the old map overlaid by the new one, incoming keys winning |
| Task.FromStr | src/task.rs:149-155 | never fails; the arguments are the words after the first, and a blank string gives a fresh task |
| Task.CommandFromStr | src/command.rs:149-157 | the same reading under the default name "command" |
| Task.FromStrOfWords | src/task.rs:149-155 | words joined by spaces read back as kind, command and arguments: an alias's target or the program first, the other words as arguments |
| Task.BareMarkerIsAlias | src/task.rs:57-61 | a bare `wk:` is an alias with an empty command and adds no argument |
| TomlImporter.FirstOnly | src/importer.rs:65-76 | `for … in iterator.next()` visits at most the first element |
| TomlImporter.Settings | src/importer.rs:52-82 | working directory, visibility and description replaced when present; the first dependency and first argument appended; variables overlaid |
| TomlImporter.ToTask | src/importer.rs:48-86 | the converted task keeps the default name "task" |
| TomlImporter.ToTaskFields | src/importer.rs:48-86 | the first word of the command gives kind and command; the arguments are the other words, then the first listed argument; only the first dependency is kept; a visible task is not hidden; the working directory, description and variables are the description's |
| TomlImporter.SubDescription | src/importer.rs:110-129 | each field the subcommand sets replaces the parent's; variables are merged with the subcommand winning only when the parent has some, otherwise dropped |
| TomlImporter.SubTask | src/importer.rs:131-132 | a subtask carries the subcommand's name and the file's path as source |
| TomlImporter.SubTasks | src/importer.rs:106-133 | one subtask per subcommand, in order |
| TomlImporter.ExpandEntry | src/importer.rs:101-137 | an entry yields its subtasks first, named after the subcommands, then its own task named by its key, all with the file's path as source |
| TomlImporter.SubTaskFields | src/importer.rs:110-132 | a subtask's command, working directory, arguments, visibility, dependencies and description are the subcommand's where it sets them and the parent's otherwise; its variables are the parent's with the subcommand's on top, or none when the parent has none |
| TomlImporter.SubTasksFields | src/importer.rs:106-133 | the same for every subtask, in order |
| TomlImporter.OwnTaskFields | src/importer.rs:134-136 | an entry's own task is built from its description under the entry's key |
| TomlImporter.ExpandEntryTasks | src/importer.rs:104-137 | each task of an entry is built field by field: the entry's own from its description, each subtask from the subcommand's fields laid over the entry's |
| TomlImporter.Load | src/importer.rs:95-140 | every task loaded from a file has that file's path as source |
| TomlImporter.LoadCount | src/importer.rs:95-140 | a file yields one task per entry plus one per subcommand |

## Left out

- `src/executor.rs` is not part of this model. It is a concurrency primitive built on a mutex slot, a channel and wakers.
- `src/command/future.rs` and `src/runner.rs` are not part of this model. They spawn OS processes and wait on them.
- The `execute` and display code of `src/command/command.rs` is left out. Its `Command` struct is the output datatype of `Builder.ToCommand`.
- The command-running loop of `run` (`src/context.rs:105`) is left out: it is process I/O. `Context.Run` returns the commands it would execute, in order.
- `to_context` and `load` of `src/importer/resolver.rs` (381-409, 459-479) are left out. They read files, parse YAML, join paths and merge other files' registries. `Resolver.Resolve` stops at the registry of one file.
- YAML and TOML parsing are left out. The models start from the parsed descriptions.
- `extract_vars_from_args` and `extract_option_from_args` (`src/utils/argv.rs:166-204`) are left out: they only read `std::env::Args`.
- The WK merge branch of `create_stack` (`src/context.rs:62-76`) is left out. It reads a `kind` field that `CommandBuilder` (`src/command/builder.rs:11-22`) does not have.
- Context.CreateStack, Context.VisitDependencies, Context.Run: these require an acyclic dependency graph, given as a rank map. On a true cycle such as A→B→A the source recurses without end, because a name is stacked only after its dependencies. The rank map covers every command of the registry, so a registry with a cycle that the root never reaches is excluded too, although the source handles it.
- Context.CreateStack, Context.Run: they do not require `Builder.ValidHost`. Their contracts hold for every key order, so they hold in particular for the orders a `HashMap` yields.
- Context.Run: the not-found error is `CommandNotFound(name)`, not the formatted message.
- Resolver.ResolveExtends: both failures are `CannotExtend(name, target)`. The source formats the same message for a group target and for a missing target.
- Resolver.PrimitiveText: a float value is kept as the text Rust's formatter would give it, because float formatting is not modelled. An integer is written in decimal for any size, not just the `i32` range.
- Rust indexes strings by byte (`&c[0..3]`, `len() >= 4`). The model indexes by character, so it agrees with the source on ASCII text only.
- The `println!` calls in `src/task.rs` and `src/command.rs` are left out.
- `src/command.rs` takes `&mut self` where `src/task.rs` takes `self`. Both are modelled by the pure functions of the `Task` module, which differ only in the default name.
- TomlImporter.ToTask: `with_visible`, `with_parameter` and `with_bin_path`, called at `src/importer.rs:55-79`, are missing from `src/task.rs`.
  - `with_visible` is modelled as setting `hidden` to the negation of `visible`.
  - `with_parameter` is modelled as appending one argument.
  - The binary path is dropped, because the task record has no field for it.
- TomlImporter.ToTask, TomlImporter.SubTasks: their own contracts state only the name and the length. The per-field facts are in `TomlImporter.ToTaskFields`, `TomlImporter.SubTaskFields` and `TomlImporter.ExpandEntryTasks`.
- TomlImporter.Settings: `src/importer.rs:53` passes a bare path to `Task::with_cwd`, which takes an `Option` (`src/task.rs:82`). The model reads the call as `with_cwd(Some(cwd))`.
- Resolver.Resolve: its contract states that every key is bound, not what it is bound to. How an extension record ends up bound is stated by `Resolver.ResolveExtends` for records with distinct names, none already bound. The first pass produces such records, but the model does not prove it.
- Builder.ToCommand: its own contract does not state the arguments. `Builder.ToCommandArgs` states them.
- Builder.Substitute: replacement follows the iteration order given by `Host.keyOrder`. Only the single-key case (`Builder.SubstituteSingleKey`) is stated independently of that order. With several keys, the result may depend on the order, as it does in the source.
- The `Error::Import`/`Error::Command` variants used by the resolver are missing from `src/error.rs`. The error messages are replaced by the `Errors.Error` datatype.
