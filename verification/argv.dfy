/** The `--var.` / option scanner of src/utils/argv.rs: it splits a token
    list into positional parameters and a key/value map. */
module Argv {
  import opened Wrappers
  import opened Text

  /** `MATCHES[4]`: the value a flag without a value gets. */
  const TrueText: string := "true"

  /** A strict, non-empty prefix match: `Some((pattern, rest))` exactly when
      `pattern` is non-empty and `s` is `pattern` followed by a non-empty rest. */
  function MatchPattern(s: string, pattern: string): (r: Option<(string, string)>)
    ensures r.Some? <==> pattern != [] && |pattern| < |s| && s[..|pattern|] == pattern
    ensures r.Some? ==> r.value.0 == pattern && r.value.0 + r.value.1 == s && r.value.1 != []
  {
    if |s| >= |pattern| + 1 && s[..|pattern|] == pattern then
      if pattern == [] then None else Some((s[..|pattern|], s[|pattern|..]))
    else None
  }

  /** `--` or `-` matches: an option is a dash followed by at least one character. */
  function IsOption(s: string): (b: bool)
    ensures b <==> |s| >= 2 && s[0] == '-'
  {
    MatchPattern(s, "--").Some? || MatchPattern(s, "-").Some?
  }

  /** The `--` split if there is one, otherwise the `-` split. */
  function GetOption(s: string): (r: Option<(string, string)>)
    ensures r.Some? <==> IsOption(s)
    ensures |s| >= 3 && s[..2] == "--" ==> r == Some(("--", s[2..]))
    ensures !(|s| >= 3 && s[..2] == "--") && IsOption(s) ==> r == Some(("-", s[1..]))
  {
    var long := MatchPattern(s, "--");
    if long.Some? then long else MatchPattern(s, "-")
  }

  /** A single-dash option: `-` matches and `--` does not. */
  function IsBoolOption(s: string): (b: bool)
    ensures b <==> IsOption(s) && !(|s| >= 3 && s[..2] == "--")
  {
    MatchPattern(s, "--").None? && MatchPattern(s, "-").Some?
  }

  function GetBoolOption(s: string): (r: Option<(string, string)>)
    ensures r.Some? <==> IsBoolOption(s)
    ensures r.Some? ==> r.value == ("-", s[1..])
  {
    var long := MatchPattern(s, "--");
    var short := MatchPattern(s, "-");
    if long.None? && short.Some? then short else None
  }

  function IsVarOption(s: string): (b: bool)
    ensures b <==> |s| > 6 && s[..6] == "--var."
  {
    MatchPattern(s, "--var.").Some?
  }

  function GetVarOption(s: string): (r: Option<(string, string)>)
    ensures r.Some? <==> IsVarOption(s)
    ensures r.Some? ==> r.value == ("--var.", s[6..])
  {
    MatchPattern(s, "--var.")
  }

  /** How one token is read, before the pending-key rule is applied. */
  datatype Reading =
    | Plain                               // a positional parameter
    | Assign(key: string, value: string)  // `K=V`
    | Flag(key: string)                   // `K` with no `=`: may take the next token
    | Switch(key: string)                 // a single-dash option: `K` is set to "true"

  /** The text after the option prefix, split at its first `=`, with the
      guards of the Rust code: a key and a value must both be non-empty,
      otherwise the token is a plain parameter. */
  function SplitAssignment(rest: string): (r: Reading)
    ensures !r.Switch?
    ensures r.Flag? <==> '=' !in rest
    ensures r.Flag? ==> r.key == rest
    ensures r.Assign? ==> r.key != [] && '=' !in r.key && r.value != []
  {
    if '=' !in rest then Flag(rest)
    else
      var key := Before(rest, '=');
      match MatchPattern(rest, key)
      case None => Plain
      case Some((_, tail)) =>
        if key != [] && tail != [] then
          match MatchPattern(tail, "=")
          case Some((_, value)) => Assign(key, value)
          case None => Plain
        else Plain
  }

  /** `K=V` with non-empty `K` free of `=` and non-empty `V` is an assignment. */
  lemma AssignmentOfShape(k: string, v: string)
    requires k != [] && '=' !in k && v != []
    ensures SplitAssignment(k + "=" + v) == Assign(k, v)
  {
    var rest := k + "=" + v;
    BeforeOfKey(k, v);
    assert rest[..|k|] == k;
    assert rest[|k|..] == "=" + v;
    assert ("=" + v)[1..] == v;
  }

  /** An assignment is read only from that shape. */
  lemma ShapeOfAssignment(rest: string)
    requires SplitAssignment(rest).Assign?
    ensures var a := SplitAssignment(rest);
      rest == a.key + "=" + a.value && a.key != [] && '=' !in a.key && a.value != []
  {
    var key := Before(rest, '=');
    var tail := rest[|key|..];
    assert rest == key + tail;
    assert tail == "=" + tail[1..];
  }

  /** `SplitAssignment` recognises exactly `K=V` with non-empty `K` free of
      `=` and non-empty `V`; the value is everything after the first `=`. */
  lemma AssignmentShape(rest: string, k: string, v: string)
    ensures SplitAssignment(rest) == Assign(k, v)
        <==> rest == k + "=" + v && k != [] && '=' !in k && v != []
  {
    if rest == k + "=" + v && k != [] && '=' !in k && v != [] {
      AssignmentOfShape(k, v);
    }
    if SplitAssignment(rest) == Assign(k, v) {
      ShapeOfAssignment(rest);
    }
  }

  lemma {:induction false} BeforeOfKey(k: string, v: string)
    requires '=' !in k
    ensures Before(k + "=" + v, '=') == k
    decreases |k|
  {
    if k == [] {
      assert (k + "=" + v)[0] == '=';
    } else {
      assert (k + "=" + v)[1..] == k[1..] + "=" + v;
      BeforeOfKey(k[1..], v);
      assert k == [k[0]] + k[1..];
    }
  }

  /** Which scanner: `extract_vars` reads only `--var.` tokens,
      `extract_option` reads every option. */
  datatype Mode = VarsOnly | AllOptions

  function Read(mode: Mode, arg: string): (r: Reading)
    ensures mode == VarsOnly ==> !r.Switch?
    ensures r.Plain? && mode == VarsOnly ==> !IsVarOption(arg) || '=' in arg[6..]
  {
    match mode
    case VarsOnly =>
      (match GetVarOption(arg)
       case None => Plain
       case Some((_, rest)) => SplitAssignment(rest))
    case AllOptions =>
      (match GetOption(arg)
       case None => Plain
       case Some((_, rest)) =>
         match GetBoolOption(arg)
         case Some((_, name)) => Switch(name)
         case None => SplitAssignment(rest))
  }

  /** The scanner's state: parameters so far, variables so far, and the key
      of a value-less flag waiting for the next token (`tmp_key`). */
  datatype Scan = Scan(params: seq<string>, vars: map<string, string>, pending: Option<string>)

  const Start: Scan := Scan([], map[], None)

  /** A waiting key gets "true". */
  function Flush(st: Scan): (r: Scan)
    ensures r.pending == None && r.params == st.params
    ensures st.pending.Some? ==> r.vars == st.vars[st.pending.value := TrueText]
    ensures st.pending.None? ==> r == st
  {
    match st.pending
    case None => st
    case Some(k) => Scan(st.params, st.vars[k := TrueText], None)
  }

  /** The part a token plays in a scan. */
  datatype Role =
    | Param                             // kept as a positional parameter
    | Setting(key: string, value: string) // sets a variable by itself (`--var.K=V`, or `-K`)
    | KeyOnly(key: string)              // a value-less flag (`--var.K`) that may take the next token
    | Value                             // the value of the flag just before it

  /** The role of `arg`, given whether a key is waiting for a value. */
  function RoleOf(mode: Mode, waiting: bool, arg: string): (r: Role)
    ensures r.Value? <==> waiting && !IsOption(arg)
  {
    if waiting && !IsOption(arg) then Value
    else
      match Read(mode, arg)
      case Plain => Param
      case Flag(k) => KeyOnly(k)
      case Assign(k, v) => Setting(k, v)
      case Switch(k) => Setting(k, TrueText)
  }

  /** One iteration of the scanning loop: a waiting key takes a non-option
      token as its value; otherwise the waiting key (if any) gets "true" and
      the token is read on its own. */
  function Step(mode: Mode, st: Scan, arg: string): (r: Scan)
    ensures r.pending.Some? <==> RoleOf(mode, st.pending.Some?, arg).KeyOnly?
    ensures RoleOf(mode, st.pending.Some?, arg) == Param ==> r.params == st.params + [arg]
    ensures RoleOf(mode, st.pending.Some?, arg) != Param ==> r.params == st.params
  {
    match RoleOf(mode, st.pending.Some?, arg)
    case Value => Scan(st.params, st.vars[st.pending.value := arg], None)
    case Setting(k, v) => var s := Flush(st); s.(vars := s.vars[k := v])
    case KeyOnly(k) => Flush(st).(pending := Some(k))
    case Param => var s := Flush(st); s.(params := s.params + [arg])
  }

  /** The whole loop. Parameters are only ever appended, at most one per token. */
  function Run(mode: Mode, st: Scan, args: seq<string>): (r: Scan)
    ensures st.params <= r.params
    ensures |r.params| <= |st.params| + |args|
    decreases |args|
  {
    if args == [] then st else Run(mode, Step(mode, st, args[0]), args[1..])
  }

  /** What a scanner returns: the positional parameters and the variables. */
  datatype Extraction = Extraction(params: seq<string>, vars: map<string, string>)

  /** After the loop a key still waiting for a value gets "true". */
  function Finish(st: Scan): (r: Extraction)
    ensures r.params == st.params
    ensures st.pending.Some? ==> r.vars == st.vars[st.pending.value := TrueText]
    ensures st.pending.None? ==> r.vars == st.vars
  {
    var s := Flush(st);
    Extraction(s.params, s.vars)
  }

  /** `extract_vars`: the parameters are exactly the tokens of role `Param`,
      in their input order. */
  function ExtractVars(args: seq<string>): (r: Extraction)
    ensures r.params == Keep(args, Roles(VarsOnly, false, args))
  {
    RunParams(VarsOnly, Start, args);
    Finish(Run(VarsOnly, Start, args))
  }

  /** `extract_option`: the same, with every option read. */
  function ExtractOption(args: seq<string>): (r: Extraction)
    ensures r.params == Keep(args, Roles(AllOptions, false, args))
  {
    RunParams(AllOptions, Start, args);
    Finish(Run(AllOptions, Start, args))
  }

  /** Scanning is a left fold: scanning `a + b` is scanning `b` from where `a` left off. */
  lemma {:induction false} RunAppend(mode: Mode, st: Scan, a: seq<string>, b: seq<string>)
    ensures Run(mode, st, a + b) == Run(mode, Run(mode, st, a), b)
    decreases |a|
  {
    if a == [] {
      assert a + b == b;
    } else {
      assert (a + b)[0] == a[0];
      assert (a + b)[1..] == a[1..] + b;
      RunAppend(mode, Step(mode, st, a[0]), a[1..], b);
    }
  }

  // ----- roles: which tokens a scan keeps -----

  /** One role per token; a token can be a value exactly after a `KeyOnly`. */
  function Roles(mode: Mode, waiting: bool, args: seq<string>): (roles: seq<Role>)
    ensures |roles| == |args|
    decreases |args|
  {
    if args == [] then []
    else
      var r := RoleOf(mode, waiting, args[0]);
      [r] + Roles(mode, r.KeyOnly?, args[1..])
  }

  /** The tokens whose role is `Param`, in order. */
  function Keep(args: seq<string>, roles: seq<Role>): seq<string>
    requires |roles| == |args|
    decreases |args|
  {
    if args == [] then []
    else (if roles[0] == Param then [args[0]] else []) + Keep(args[1..], roles[1..])
  }

  lemma AppendAssoc(a: seq<string>, b: seq<string>, c: seq<string>)
    ensures (a + b) + c == a + (b + c)
  {
  }

  /** Roles and kept tokens unfold one token at a time. */
  lemma KeepFirst(mode: Mode, waiting: bool, args: seq<string>)
    requires args != []
    ensures var r := RoleOf(mode, waiting, args[0]);
      Keep(args, Roles(mode, waiting, args))
        == (if r == Param then [args[0]] else []) + Keep(args[1..], Roles(mode, r.KeyOnly?, args[1..]))
  {
    var r := RoleOf(mode, waiting, args[0]);
    var roles := Roles(mode, waiting, args);
    assert roles[1..] == Roles(mode, r.KeyOnly?, args[1..]);
  }

  /** The parameters are exactly the `Param` tokens, in input order. */
  lemma {:induction false} RunParams(mode: Mode, st: Scan, args: seq<string>)
    ensures Run(mode, st, args).params
         == st.params + Keep(args, Roles(mode, st.pending.Some?, args))
    decreases |args|
  {
    if args != [] {
      var r := RoleOf(mode, st.pending.Some?, args[0]);
      var kept := if r == Param then [args[0]] else [];
      var waiting := r.KeyOnly?;
      var st' := Step(mode, st, args[0]);
      var rest := Keep(args[1..], Roles(mode, waiting, args[1..]));
      assert st'.params == st.params + kept && st'.pending.Some? == waiting;
      assert Keep(args, Roles(mode, st.pending.Some?, args)) == kept + rest by {
        KeepFirst(mode, st.pending.Some?, args);
      }
      assert Run(mode, st', args[1..]).params == st'.params + rest by {
        RunParams(mode, st', args[1..]);
      }
      assert Run(mode, st, args).params == (st.params + kept) + rest;
      AppendAssoc(st.params, kept, rest);
    }
  }

  // ----- the individual token forms -----

  /** `--var.K=V` with non-empty `K` (no `=`) and non-empty `V` sets `K` to `V`
      and is not a parameter. */
  lemma VarAssignment(st: Scan, k: string, v: string)
    requires st.pending.None?
    requires k != [] && '=' !in k && v != []
    ensures Step(VarsOnly, st, "--var." + k + "=" + v) == st.(vars := st.vars[k := v])
  {
    var arg := "--var." + k + "=" + v;
    assert arg[..6] == "--var.";
    assert arg[6..] == k + "=" + v;
    AssignmentShape(k + "=" + v, k, v);
  }

  /** Malformed forms fall through to the parameters: `--var.K=` (no value)
      and `--var.=V` (no key). */
  lemma VarMalformed(st: Scan, k: string, v: string)
    requires st.pending.None?
    requires '=' !in k
    requires k == [] || v == []
    ensures Step(VarsOnly, st, "--var." + k + "=" + v) == st.(params := st.params + ["--var." + k + "=" + v])
  {
    var arg := "--var." + k + "=" + v;
    var rest := k + "=" + v;
    assert arg[..6] == "--var.";
    assert arg[6..] == rest;
    BeforeOfKey(k, v);
    if SplitAssignment(rest).Assign? {
      AssignmentShape(rest, SplitAssignment(rest).key, SplitAssignment(rest).value);
      assert false;
    }
    assert '=' in rest by { assert rest[|k|] == '='; }
  }

  /** A bare `--var.K` takes the following token as its value when that token
      is not an option. */
  lemma VarFlagTakesValue(k: string, v: string, rest: seq<string>)
    requires k != [] && '=' !in k
    requires !IsOption(v)
    ensures Run(VarsOnly, Start, ["--var." + k, v] + rest)
         == Run(VarsOnly, Scan([], map[k := v], None), rest)
  {
    var flag := "--var." + k;
    assert flag[..6] == "--var." && flag[6..] == k;
    assert Step(VarsOnly, Start, flag) == Scan([], map[], Some(k));
    RunAppend(VarsOnly, Start, [flag, v], rest);
  }

  /** A bare `--var.K` followed by an option gets "true", and the option is
      then read as usual. */
  lemma VarFlagBeforeOption(k: string, opt: string, rest: seq<string>)
    requires k != [] && '=' !in k
    requires IsOption(opt)
    ensures Run(VarsOnly, Start, ["--var." + k, opt] + rest)
         == Run(VarsOnly, Step(VarsOnly, Scan([], map[k := TrueText], None), opt), rest)
  {
    var flag := "--var." + k;
    assert flag[..6] == "--var." && flag[6..] == k;
    assert Step(VarsOnly, Start, flag) == Scan([], map[], Some(k));
    RunAppend(VarsOnly, Start, [flag, opt], rest);
  }

  /** A bare `--var.K` at the end of the input gets "true". */
  lemma VarFlagAtEnd(args: seq<string>, k: string)
    requires k != [] && '=' !in k
    ensures ExtractVars(args + ["--var." + k]).vars == ExtractVars(args).vars[k := TrueText]
    ensures ExtractVars(args + ["--var." + k]).params == ExtractVars(args).params
  {
    var flag := "--var." + k;
    assert flag[..6] == "--var." && flag[6..] == k;
    RunAppend(VarsOnly, Start, args, [flag]);
  }

  /** `--var.K=V` sets `K` to `V` whether or not a key was waiting, and adds no parameter. */
  lemma AssignmentStep(st: Scan, k: string, v: string)
    requires k != [] && '=' !in k && v != []
    ensures var after := Step(VarsOnly, st, "--var." + k + "=" + v);
      && after.pending.None? && k in after.vars && after.vars[k] == v
      && after.params == st.params
  {
    var arg := "--var." + k + "=" + v;
    assert IsOption(arg) by { assert arg[0] == '-' && arg[1] == '-'; }
    OptionStepFlushes(VarsOnly, st, arg);
    VarAssignment(Flush(st), k, v);
  }

  /** The last assignment to a key wins, whatever came before it, and adds no parameter. */
  lemma LastAssignmentWins(args: seq<string>, k: string, v: string)
    requires k != [] && '=' !in k && v != []
    ensures var vars := ExtractVars(args + ["--var." + k + "=" + v]).vars; k in vars && vars[k] == v
    ensures ExtractVars(args + ["--var." + k + "=" + v]).params == ExtractVars(args).params
  {
    var arg := "--var." + k + "=" + v;
    var st := Run(VarsOnly, Start, args);
    RunAppend(VarsOnly, Start, args, [arg]);
    assert Run(VarsOnly, st, [arg]) == Step(VarsOnly, st, arg);
    AssignmentStep(st, k, v);
    assert Flush(st).params == st.params;
  }

  /** An option token first gives a waiting key "true". */
  lemma OptionStepFlushes(mode: Mode, st: Scan, arg: string)
    requires IsOption(arg)
    ensures Step(mode, st, arg) == Step(mode, Flush(st), arg)
  {
  }

  /** `extract_option`: a single-dash token `-K` maps `K` to "true". */
  lemma OptionSwitch(st: Scan, k: string)
    requires st.pending.None?
    requires k != [] && k[0] != '-'
    ensures Step(AllOptions, st, "-" + k) == st.(vars := st.vars[k := TrueText])
  {
    var arg := "-" + k;
    assert arg[1..] == k;
    assert arg[1] == k[0];
  }

  /** `extract_option`: `--K=V` is read like `--var.K=V`. */
  lemma OptionAssignment(st: Scan, k: string, v: string)
    requires st.pending.None?
    requires k != [] && '=' !in k && v != []
    ensures Step(AllOptions, st, "--" + k + "=" + v) == st.(vars := st.vars[k := v])
  {
    var arg := "--" + k + "=" + v;
    assert arg[..2] == "--";
    assert arg[2..] == k + "=" + v;
    AssignmentShape(k + "=" + v, k, v);
  }

  /** `extract_option`: `--K V` is read like `--var.K V`. */
  lemma OptionFlagTakesValue(k: string, v: string, rest: seq<string>)
    requires k != [] && '=' !in k
    requires !IsOption(v)
    ensures Run(AllOptions, Start, ["--" + k, v] + rest)
         == Run(AllOptions, Scan([], map[k := v], None), rest)
  {
    var flag := "--" + k;
    assert flag[..2] == "--" && flag[2..] == k;
    assert Step(AllOptions, Start, flag) == Scan([], map[], Some(k));
    RunAppend(AllOptions, Start, [flag, v], rest);
  }
}
