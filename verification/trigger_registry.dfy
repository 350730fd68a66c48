/** The per-root trigger registry: the table `root->commands` that maps a
    trigger name to the command record registered under it. */
module TriggerRegistry {
  import opened JsonArgs

  /** A registered trigger. `rules` is whatever the rule-spec parser produced
      (a type parameter: nothing here depends on its shape); `argc` and `argv`
      are the command to run, `argv` being the JSON elements it was copied
      from. */
  datatype TriggerCommand<R> = TriggerCommand(
    triggerName: string,
    rules: R,
    argc: nat,
    argv: seq<Value>)

  /** The registry of one root, keyed by trigger name. */
  type Commands<R> = map<string, TriggerCommand<R>>

  /** What every stored command satisfies: it is filed under its own name,
      its `argc` counts its `argv`, and it has at least one argument to run. */
  predicate WellFormedCommand<R>(name: string, cmd: TriggerCommand<R>) {
    && cmd.triggerName == name
    && cmd.argc == |cmd.argv|
    && cmd.argc >= 1
  }

  predicate WellFormed<R>(commands: Commands<R>) {
    forall name | name in commands :: WellFormedCommand(name, commands[name])
  }

  /** Hash-table replace keyed by the command's own name: insert it if the
      name is new, overwrite the old record if it is not, and touch no other
      entry. */
  function Replace<R>(commands: Commands<R>, cmd: TriggerCommand<R>): (r: Commands<R>)
    ensures r.Keys == commands.Keys + {cmd.triggerName}
    ensures r[cmd.triggerName] == cmd
    ensures forall name | name in commands && name != cmd.triggerName :: r[name] == commands[name]
  {
    commands[cmd.triggerName := cmd]
  }
}
