# Trigger registration and listing, modelled in Dafny

This project models the two client commands of watchman's `cmds/trigger.c`:

- `trigger /root name [rule spec] -- command...` registers a command that the
  daemon runs when files under a watched root change;
- `trigger-list /root` returns the triggers registered on that root.

Both commands work on one root's trigger registry, `root->commands`. This
table maps each trigger name to a command record holding the name, the
parsed rules, `argc` and `argv`.

Each handler is a pure function
`(registry, request array, collaborators) -> Outcome(registry', reply, saveRequested)`:

- `TriggerCmds.Trigger` works through the handler's chain of checks. These
  are: the root resolves, the array has at least two elements, element 2 is
  a string, the rule spec parses, a command follows the spec, the record can
  be allocated and argv can be copied. If every check passes, it builds the
  command record from the tail of the array and replaces the registry entry
  for the name. It then requests a state save and replies with the name as
  the trigger id.
- `TriggerCmds.TriggerList` replies with the registry as it stands.

The root lock serializes each handler's registry access. So a single call is
one atomic step, and a run of requests is a sequence (`TriggerProps.Serve`).

The helpers whose code is not part of this model are the fields of
`Collaborators`, and nothing is claimed about what they do:

- the root resolver, with its `create` flag (`true` for `trigger`, `false`
  for `trigger-list`);
- the rule-spec parser `parse_watch_params`, called from index 3;
- the success of the record allocation;
- the success of the argv copy.

Rules are a type parameter.

Modules:

- `JsonArgs` (json_args.dfy): request elements, and reading one as a string.
- `TriggerRegistry` (trigger_registry.dfy): the command record, the
  registry, its well-formedness invariant, and replace-by-name.
- `TriggerCmds` (trigger_cmds.dfy): the two handlers, failures and their
  messages, and the ordered list of checks.
- `TriggerProps` (trigger_props.dfy): precedence of the checks,
  replace-by-name laws, and runs of requests.

Three behaviours of the code worth knowing:

- The code does not reject an empty trigger name.
- The length guard asks for two elements but the name is read at index 2.
  So a two-element array is refused with the "trigger name" message, not
  with "not enough arguments".
- The root resolver is handed element 1 (cmds/trigger.c:42), so a resolver
  that reads it would already refuse an array shorter than two elements, and
  "not enough arguments" may never be sent. The resolver's code is not part
  of this model, so `ShortArgsRejected` assumes a resolver that accepts such
  an array.

## Model

| member | source | states |
|---|---|---|
| TriggerCmds.Trigger | cmds/trigger.c:32-92 | Every refusal leaves the registry unchanged and requests no save. An unresolvable root is refused before any argument check. On success the reply is the name read from element 2, a save is requested, and the name then holds a record with the parsed rules. That record's argv is the array's tail from `next_arg` and its argc is `size - next_arg`, at least 1. Every other entry is unchanged. |
| TriggerCmds.TriggerList | cmds/trigger.c:9-27 | Listing never changes the registry. It replies with the registry's contents exactly when the root resolves without being created, and is refused otherwise. |
| TriggerRegistry.Replace | cmds/trigger.c:82-85 | Hash-table replace: the name maps to the new record, the key set gains at most that name, and every other entry is untouched. |
| TriggerCmds.Message | cmds/trigger.c:47-79 | The six error texts of the handler, each non-empty; the rule-spec text is its fixed prefix followed by the parser's reason, which can be read back from it. |
| TriggerCmds.Guards | cmds/trigger.c:42-80 | The seven checks in the handler's order (root, length, name, rule spec, command, allocation, argv copy), each reporting a failure of its own. All of them pass exactly when the root resolves, element 2 is a string, the rule spec parses, a command follows it, and allocation and argv copy succeed. |
| TriggerCmds.MessageIdentifiesFailure | cmds/trigger.c:47-79 | The error texts of the checks are pairwise distinct, so the reply says which check refused the request. |
| TriggerProps.TriggerFollowsGuards | cmds/trigger.c:42-80 | The reply is the failure of the first check in the handler's order that fails. If none fails, the request is accepted. |
| TriggerProps.ShortArgsRejected | cmds/trigger.c:47-50 | With the root resolved, an array of fewer than two elements is refused with "not enough arguments", and the registry is unchanged. |
| TriggerProps.TwoArgsRejectedForName | cmds/trigger.c:47-55 | A two-element array passes the length guard but is refused because element 2 is missing. |
| TriggerProps.TriggerIndependentOfRegistry | cmds/trigger.c:42-82 | The reply, and the record a successful request stores, do not depend on what the registry held before. |
| TriggerProps.ReregisterKeepsSecond | cmds/trigger.c:82-84 | Registering a name twice leaves the registry as the second registration alone would have left it. |
| TriggerProps.TriggerIdempotent | cmds/trigger.c:82-84 | Repeating a successful registration returns the same reply and leaves the same registry. |
| TriggerProps.DistinctNamesCommute | cmds/trigger.c:82-84 | Two successful registrations under different names give the same registry in either order. |
| TriggerProps.ListShowsRegistration | cmds/trigger.c:73-84 | After a successful registration, a listing shows exactly the old names plus the new one. The new name holds the parsed rules and the array's tail from `next_arg`, and the other entries are unchanged. |
| TriggerProps.Serve | cmds/trigger.c:62-75 | Over any run of requests, every stored record stays filed under its own name with `argc == \|argv\| >= 1`. |
| TriggerProps.RefusedRunChangesNothing | cmds/trigger.c:42-80 | A run in which no registration is accepted ends with the registry exactly as it began. |
| TriggerProps.ServeLastWriteWins | cmds/trigger.c:82-84 | After a run, each name holds the definition of the last request that registered it. A name that no request registered is held exactly as before, or stays absent. |

## Left out

- JSON encoding of replies and their transport (`make_response`, `set_prop`, `send_*`): a reply is a `Response` value.
- The root resolver's own error text: it answers the client itself, so the model only records `RootUnresolved`.
- The internals of `resolve_root_or_err` and `parse_watch_params`: their code is not part of this model, so they are inputs.
- `w_argv_copy_from_json`: only whether it succeeds is an input. The stored argv is the array's tail from `next_arg`, kept as JSON elements; the conversion of each element to a C string is not modelled.
- `w_root_trigger_list_to_json`: the listing reply is the registry map itself. The fields of the JSON array it builds, and the order of its entries, are not modelled.
- The truncation of the parser's reason to a 128-byte buffer: the reason is carried as the parser reports it.
- `w_root_lock`/`w_root_unlock`: each handler's registry access is one atomic step.
- `w_state_save`: only the request for a save after a successful registration is recorded. Its format and failure are not modelled.
- `calloc`/`free`, the leak of parsed rules on the later error paths, and the hash table itself: the registry is a `map`, and allocation failure is a boolean input.
- The width of `next_arg` (`uint32_t`) and of `argc`: the code checks `next_arg < size` before subtracting, so the subtraction cannot wrap and integers are unbounded here.
- Rule matching, trigger execution, debouncing, subprocesses, removal of triggers and persistence of the registry: these are not in `cmds/trigger.c`.
