/** Properties of the `trigger` and `trigger-list` handlers: the order in
    which the checks take precedence, replace-by-name, and what a sequence of
    requests against one root does to its registry. The root lock serializes
    the handlers' registry accesses, so a run of requests is a sequence. */
module TriggerProps {
  import opened JsonArgs
  import opened TriggerRegistry
  import opened TriggerCmds

  // ---------------------------------------------------------------------
  // One request

  /** The reply of `trigger` is decided by the first check in `Guards` that
      fails; when all of them pass, the request is accepted. */
  lemma TriggerFollowsGuards<R>(commands: Commands<R>, args: seq<Value>, env: Collaborators<R>)
    ensures var out := Trigger(commands, args, env);
      match FirstFailing(Guards(args, env))
      case Some(f) => out.response == Failed(f)
      case None => out.response.TriggerId?
  {
  }

  /** An array with fewer than two elements is refused with "not enough
      arguments" once the root resolves. */
  lemma ShortArgsRejected<R>(commands: Commands<R>, args: seq<Value>, env: Collaborators<R>)
    requires env.resolves(args, true)
    requires |args| < 2
    ensures Trigger(commands, args, env) == Outcome(commands, Failed(NotEnoughArguments), false)
  {
  }

  /** The length check only asks for two elements but the name is read from
      the third: a two-element array passes the length check and is refused
      because element 2 is missing, i.e. not a string. */
  lemma TwoArgsRejectedForName<R>(commands: Commands<R>, args: seq<Value>, env: Collaborators<R>)
    requires env.resolves(args, true)
    requires |args| == 2
    ensures Trigger(commands, args, env) == Outcome(commands, Failed(NameNotString), false)
  {
  }

  /** The checks never consult the registry: the reply, and the record a
      successful request stores, depend on the request alone. */
  lemma TriggerIndependentOfRegistry<R>(c1: Commands<R>, c2: Commands<R>, args: seq<Value>, env: Collaborators<R>)
    ensures Trigger(c1, args, env).response == Trigger(c2, args, env).response
    ensures var out1 := Trigger(c1, args, env);
      var out2 := Trigger(c2, args, env);
      out1.response.TriggerId? ==>
        out1.registry[out1.response.id] == out2.registry[out1.response.id]
  {
  }

  // ---------------------------------------------------------------------
  // Replace by name

  /** Registering the same name twice keeps only the second definition: the
      registry is what the second request alone would have made of it. */
  lemma ReregisterKeepsSecond<R>(commands: Commands<R>,
                                 args1: seq<Value>, env1: Collaborators<R>,
                                 args2: seq<Value>, env2: Collaborators<R>)
    requires Trigger(commands, args1, env1).response.TriggerId?
    requires Trigger(Trigger(commands, args1, env1).registry, args2, env2).response
             == Trigger(commands, args1, env1).response
    ensures Trigger(Trigger(commands, args1, env1).registry, args2, env2).registry
            == Trigger(commands, args2, env2).registry
  {
  }

  /** Repeating a successful registration changes nothing more. */
  lemma TriggerIdempotent<R>(commands: Commands<R>, args: seq<Value>, env: Collaborators<R>)
    requires Trigger(commands, args, env).response.TriggerId?
    ensures var out := Trigger(commands, args, env);
      Trigger(out.registry, args, env) == out
  {
  }

  /** Registrations under different names do not interfere: either order
      gives the same registry. */
  lemma DistinctNamesCommute<R>(commands: Commands<R>,
                                args1: seq<Value>, env1: Collaborators<R>,
                                args2: seq<Value>, env2: Collaborators<R>)
    requires Trigger(commands, args1, env1).response.TriggerId?
    requires Trigger(commands, args2, env2).response.TriggerId?
    requires Trigger(commands, args1, env1).response != Trigger(commands, args2, env2).response
    ensures Trigger(Trigger(commands, args1, env1).registry, args2, env2).registry
            == Trigger(Trigger(commands, args2, env2).registry, args1, env1).registry
  {
  }

  /** After a successful `trigger`, `trigger-list` on the same root shows
      exactly one entry under the name, holding the new rules and command,
      next to the entries it had before. */
  lemma ListShowsRegistration<R>(commands: Commands<R>, args: seq<Value>, env: Collaborators<R>,
                                 listArgs: seq<Value>, listEnv: Collaborators<R>)
    requires Trigger(commands, args, env).response.TriggerId?
    requires listEnv.resolves(listArgs, false)
    ensures var name := Trigger(commands, args, env).response.id;
      var parsed := env.parse(args, RuleSpecStart);
      var reply := TriggerList(Trigger(commands, args, env).registry, listArgs, listEnv).response;
      && reply.Triggers?
      && reply.commands.Keys == commands.Keys + {name}
      && parsed.ParseOk?
      && reply.commands[name].rules == parsed.rules
      && reply.commands[name].argv == args[parsed.nextArg..]
      && forall other | other in commands && other != name :: reply.commands[other] == commands[other]
  {
  }

  // ---------------------------------------------------------------------
  // A run of requests against one root

  datatype Request<R> =
    | Register(args: seq<Value>, env: Collaborators<R>)
    | List(args: seq<Value>, env: Collaborators<R>)

  function Handle<R>(commands: Commands<R>, req: Request<R>): Outcome<R> {
    match req
    case Register(args, env) => Trigger(commands, args, env)
    case List(args, env) => TriggerList(commands, args, env)
  }

  /** Serve the requests in order, threading the registry through them;
      returns the final registry and one reply per request. Every stored
      command stays well formed: it is filed under its own name and has at
      least one argument to run. */
  function Serve<R>(commands: Commands<R>, reqs: seq<Request<R>>): (r: (Commands<R>, seq<Response<R>>))
    ensures |r.1| == |reqs|
    ensures WellFormed(commands) ==> WellFormed(r.0)
    decreases |reqs|
  {
    if |reqs| == 0 then (commands, [])
    else
      var out := Handle(commands, reqs[0]);
      var rest := Serve(out.registry, reqs[1..]);
      (rest.0, [out.response] + rest.1)
  }

  /** If no request in the run was accepted as a registration, the registry
      is exactly what it was before the run. */
  lemma {:induction false} RefusedRunChangesNothing<R>(commands: Commands<R>, reqs: seq<Request<R>>)
    requires forall i | 0 <= i < |reqs| :: !Serve(commands, reqs).1[i].TriggerId?
    ensures Serve(commands, reqs).0 == commands
    decreases |reqs|
  {
    if |reqs| > 0 {
      var out := Handle(commands, reqs[0]);
      var responses := Serve(commands, reqs).1;
      assert responses[0] == out.response;
      assert out.registry == commands;
      forall i | 0 <= i < |reqs| - 1
        ensures !Serve(commands, reqs[1..]).1[i].TriggerId?
      {
        assert Serve(commands, reqs[1..]).1[i] == responses[i + 1];
      }
      RefusedRunChangesNothing(commands, reqs[1..]);
    }
  }

  /** Whether `req` is a `trigger` request accepted under `name`. Acceptance
      does not depend on the registry (`TriggerIndependentOfRegistry`). */
  predicate Defines<R>(req: Request<R>, name: string) {
    req.Register? && Trigger(map[], req.args, req.env).response == TriggerId(name)
  }

  /** The definition of `name` made by the last request of the run that
      registered it, if any. */
  function LastDefinition<R>(reqs: seq<Request<R>>, name: string): Option<TriggerCommand<R>>
    decreases |reqs|
  {
    if |reqs| == 0 then None
    else
      match LastDefinition(reqs[1..], name)
      case Some(cmd) => Some(cmd)
      case None =>
        if Defines(reqs[0], name) then Some(Trigger(map[], reqs[0].args, reqs[0].env).registry[name])
        else None
  }

  /** Last write wins: after a run, each name holds the definition of the
      last request that registered it, and a name no request registered is
      held exactly as before the run (or stays absent). */
  lemma {:induction false} ServeLastWriteWins<R>(commands: Commands<R>, reqs: seq<Request<R>>, name: string)
    ensures var final := Serve(commands, reqs).0;
      match LastDefinition(reqs, name)
      case Some(cmd) => name in final && final[name] == cmd
      case None => (name in final <==> name in commands)
                   && (name in commands ==> final[name] == commands[name])
    decreases |reqs|
  {
    if |reqs| > 0 {
      var out := Handle(commands, reqs[0]);
      ServeLastWriteWins(out.registry, reqs[1..], name);
      if reqs[0].Register? {
        TriggerIndependentOfRegistry(commands, map[], reqs[0].args, reqs[0].env);
      }
    }
  }
}
