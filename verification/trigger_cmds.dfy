/** The two client commands of cmds/trigger.c, `trigger` and `trigger-list`,
    as pure functions from (registry, request array) to (registry', reply).
    Each handler's access to the registry happens under the root lock, so it
    is one atomic step here. */
module TriggerCmds {
  import opened JsonArgs
  import opened TriggerRegistry

  /** Index of the trigger name in the request array
      `["trigger", root, name, rule spec ..., command ...]`. */
  const NameIndex: nat := 2
  /** Index at which the rule-spec parser starts reading. */
  const RuleSpecStart: nat := 3
  /** The array-length guard of `trigger`. */
  const MinArgs: nat := 2

  /** What the rule-spec parser reports: the parsed rules and the index of
      the first element after the spec, or a reason for rejecting it. */
  datatype ParseResult<R> = ParseOk(rules: R, nextArg: nat) | ParseError(reason: string)

  /** The helpers the handlers call but whose code is not part of this model,
      as uninterpreted inputs:
      - `resolves(args, create)`: whether the root named by the request
        resolves (to the registry passed to the handler); on failure the
        resolver has already answered the client;
      - `parse(args, start)`: the rule-spec parser;
      - `allocOk`: whether allocating the command record succeeds;
      - `argvCopyOk`: whether copying the command's argv succeeds. */
  datatype Collaborators<R> = Collaborators(
    resolves: (seq<Value>, bool) -> bool,
    parse: (seq<Value>, nat) -> ParseResult<R>,
    allocOk: bool,
    argvCopyOk: bool)

  /** The reasons a request can be refused. */
  datatype Failure =
    | RootUnresolved
    | NotEnoughArguments
    | NameNotString
    | InvalidRuleSpec(reason: string)
    | NoCommand
    | NoMemory
    | ArgvCopyFailed

  /** What the client is sent back. */
  datatype Response<R> =
    | Failed(failure: Failure)
    | TriggerId(id: string)
    | Triggers(commands: Commands<R>)

  /** A handler's effect: the registry afterwards, the reply, and whether a
      save of the daemon state was requested. */
  datatype Outcome<R> = Outcome(registry: Commands<R>, response: Response<R>, saveRequested: bool)

  /** The fixed part of the rule-spec error text. */
  const RuleSpecPrefix := "invalid rule spec: "

  /** The error text sent for each failure. A root that does not resolve is
      answered by the resolver itself, whose text is not part of this model. */
  function Message(f: Failure): (m: string)
    requires !f.RootUnresolved?
    ensures |m| > 0
    // the parser's reason can be read back from the text
    ensures f.InvalidRuleSpec? ==>
      |RuleSpecPrefix| <= |m| && m[..|RuleSpecPrefix|] == RuleSpecPrefix && m[|RuleSpecPrefix|..] == f.reason
  {
    match f
    case NotEnoughArguments => "not enough arguments"
    case NameNotString => "expected 2nd parameter to be trigger name"
    case InvalidRuleSpec(reason) => RuleSpecPrefix + reason
    case NoCommand => "no command was specified"
    case NoMemory => "no memory!"
    case ArgvCopyFailed => "unable to build argv array"
  }

  /** Distinct failures are told apart by their text, so a client can see
      which check refused its request. */
  lemma MessageIdentifiesFailure(f: Failure, g: Failure)
    requires !f.RootUnresolved? && !g.RootUnresolved?
    requires Message(f) == Message(g)
    ensures f == g
  {
    RuleSpecTextStandsApart(f);
    RuleSpecTextStandsApart(g);
    if f.InvalidRuleSpec? && g.InvalidRuleSpec? {
      assert f.reason == Message(f)[|RuleSpecPrefix|..] == g.reason;
    }
  }

  /** The rule-spec text begins with "in", which none of the fixed texts
      does, whatever reason the parser gives. */
  lemma RuleSpecTextStandsApart(f: Failure)
    requires !f.RootUnresolved?
    ensures |Message(f)| >= 2
    ensures Message(f)[..2] == "in" <==> f.InvalidRuleSpec?
  {
    if f.InvalidRuleSpec? {
      assert Message(f)[..2] == RuleSpecPrefix[..2];
    } else {
      assert Message(f)[0] != 'i' && Message(f)[..2][0] == Message(f)[0];
    }
  }

  function Fail<R>(commands: Commands<R>, f: Failure): Outcome<R> {
    Outcome(commands, Failed(f), false)
  }

  /** `trigger /root name [rule spec] -- command...`: register a command to
      run when files under the root change.

      The checks run in a fixed order and the first one that fails decides
      the reply (see `Guards` and `TriggerFollowsGuards`); none of them
      touches the registry. On success the record built from the request
      replaces whatever was registered under the name, the daemon state is
      saved and the reply carries the name as the trigger id. */
  function Trigger<R>(commands: Commands<R>, args: seq<Value>, env: Collaborators<R>): (out: Outcome<R>)
    // every refusal leaves the registry as it was and saves nothing
    ensures out.response.Failed? ==> out.registry == commands && !out.saveRequested
    ensures out.response.Failed? || out.response.TriggerId?
    // an unresolvable root is refused before any argument is looked at
    ensures !env.resolves(args, true) <==> out.response == Failed(RootUnresolved)
    // success: the id is the name argument, and the state is saved
    ensures out.response.TriggerId? ==>
      && StringAt(args, NameIndex) == Some(out.response.id)
      && out.saveRequested
    // success: the name now holds the new record, and nothing else changed
    ensures out.response.TriggerId? ==>
      var name := out.response.id;
      && out.registry.Keys == commands.Keys + {name}
      && (forall other | other in commands && other != name :: out.registry[other] == commands[other])
      && env.parse(args, RuleSpecStart).ParseOk?
      && var cmd := out.registry[name];
         && WellFormedCommand(name, cmd)
         && cmd.rules == env.parse(args, RuleSpecStart).rules
         && env.parse(args, RuleSpecStart).nextArg + cmd.argc == |args|
         && args == args[..|args| - cmd.argc] + cmd.argv
  {
    if !env.resolves(args, true) then
      Fail(commands, RootUnresolved)
    else if |args| < MinArgs then
      Fail(commands, NotEnoughArguments)
    else
      match StringAt(args, NameIndex)
      case None => Fail(commands, NameNotString)
      case Some(name) =>
        match env.parse(args, RuleSpecStart)
        case ParseError(reason) => Fail(commands, InvalidRuleSpec(reason))
        case ParseOk(rules, nextArg) =>
          if nextArg >= |args| then
            Fail(commands, NoCommand)
          else if !env.allocOk then
            Fail(commands, NoMemory)
          else if !env.argvCopyOk then
            Fail(commands, ArgvCopyFailed)
          else
            var cmd := TriggerCommand(name, rules, |args| - nextArg, args[nextArg..]);
            Outcome(Replace(commands, cmd), TriggerId(name), true)
  }

  /** `trigger-list /root`: reply with the registry of the root, read in one
      step under the root lock. The root is looked up without creating it. */
  function TriggerList<R>(commands: Commands<R>, args: seq<Value>, env: Collaborators<R>): (out: Outcome<R>)
    // listing never changes the registry and never saves
    ensures out.registry == commands && !out.saveRequested
    // either the root resolves and the reply is the registry's contents,
    // or the resolver has refused the request
    ensures env.resolves(args, false) <==> out.response == Triggers(commands)
    ensures !env.resolves(args, false) <==> out.response == Failed(RootUnresolved)
  {
    if !env.resolves(args, false) then
      Fail(commands, RootUnresolved)
    else
      Outcome(commands, Triggers(commands), false)
  }

  // ---------------------------------------------------------------------
  // The order of the checks, as a list

  /** One check of `trigger`: whether it passes, and the failure it reports
      if it does not. */
  datatype Guard = Guard(passes: bool, failure: Failure)

  /** The checks of `trigger` in the order the handler makes them. Each check
      is only consulted when all earlier ones passed, so a check that needs
      an earlier one's result may report anything when that result is
      missing. */
  function Guards<R>(args: seq<Value>, env: Collaborators<R>): (gs: seq<Guard>)
    // the root check comes first
    ensures |gs| == 7 && gs[0] == Guard(env.resolves(args, true), RootUnresolved)
    // then length, name, rule spec, command, allocation, argv copy
    ensures && gs[1].failure == NotEnoughArguments
            && gs[2].failure == NameNotString
            && gs[3].failure.InvalidRuleSpec?
            && gs[4].failure == NoCommand
            && gs[5].failure == NoMemory
            && gs[6].failure == ArgvCopyFailed
    // each check reports a failure of its own
    ensures forall i, j | 0 <= i < j < |gs| :: gs[i].failure != gs[j].failure
    // all checks pass exactly when the request is acceptable: the root
    // resolves, a string name is present, the rule spec parses, a command
    // follows it, and allocation and argv copy succeed
    ensures (forall i | 0 <= i < |gs| :: gs[i].passes) <==>
      && env.resolves(args, true)
      && |args| > NameIndex && args[NameIndex].String?
      && env.parse(args, RuleSpecStart).ParseOk?
      && env.parse(args, RuleSpecStart).nextArg < |args|
      && env.allocOk && env.argvCopyOk
  {
    var parsed := env.parse(args, RuleSpecStart);
    var gs :=
      [ Guard(env.resolves(args, true), RootUnresolved),
        Guard(|args| >= MinArgs, NotEnoughArguments),
        Guard(StringAt(args, NameIndex).Some?, NameNotString),
        Guard(parsed.ParseOk?, InvalidRuleSpec(if parsed.ParseError? then parsed.reason else "")),
        Guard(parsed.ParseOk? && parsed.nextArg < |args|, NoCommand),
        Guard(env.allocOk, NoMemory),
        Guard(env.argvCopyOk, ArgvCopyFailed) ];
    assert (forall i | 0 <= i < |gs| :: gs[i].passes) <==>
      gs[0].passes && gs[1].passes && gs[2].passes && gs[3].passes
      && gs[4].passes && gs[5].passes && gs[6].passes;
    gs
  }

  /** The failure of the first check that does not pass, if any. */
  function FirstFailing(gs: seq<Guard>): (r: Option<Failure>)
    ensures r.None? <==> forall i | 0 <= i < |gs| :: gs[i].passes
    ensures r.Some? ==>
      exists i | 0 <= i < |gs| ::
        && !gs[i].passes
        && gs[i].failure == r.value
        && forall j | 0 <= j < i :: gs[j].passes
  {
    if |gs| == 0 then None
    else if !gs[0].passes then Some(gs[0].failure)
    else
      var r := FirstFailing(gs[1..]);
      if r.Some? then
        var i :| 0 <= i < |gs| - 1 && !gs[1..][i].passes && gs[1..][i].failure == r.value
                  && forall j | 0 <= j < i :: gs[1..][j].passes;
        assert forall j | 0 <= j < i + 1 :: gs[j].passes by {
          forall j | 0 <= j < i + 1 ensures gs[j].passes {
            if j > 0 { assert gs[j] == gs[1..][j - 1]; }
          }
        }
        assert !gs[i + 1].passes && gs[i + 1].failure == r.value;
        r
      else
        assert forall i | 0 <= i < |gs| :: gs[i].passes by {
          forall i | 0 <= i < |gs| ensures gs[i].passes {
            if i > 0 { assert gs[i] == gs[1..][i - 1]; }
          }
        }
        r
  }
}
