# FSM: a finite-state machine with undo/redo history, in Dafny

This project models the `FSM` class of `src/fsm.js`. An FSM is built from a
configuration `{ initial, states }`. `states` maps each state name to a
descriptor `{ transitions: event -> target }`. The machine keeps a current
`state`, a `history` of recorded states and a `historyCursor`.

- `changeState`, `trigger` and `reset` set the state and record it with
  `_addToHistory`.
- `undo` and `redo` move the cursor by one and restore a recorded state.
- `clearHistory` empties the record.
- `getState` and `getStates` are queries.

## Layout

- `js_semantics.dfy`, module `JsSemantics`: the JavaScript semantics the class
  relies on. This covers `undefined` (`Option`), array reads that are absent out
  of range (`At`), string truthiness (`Truthy`), and the array
  `Array.prototype.splice` returns, as ECMA-262 defines it (`SpliceRemoved`).
- `fsm_config.dfy`, module `FsmConfig`: the configuration as a value. The `states`
  table is a sequence of `(name, descriptor)` pairs in key order. The module also
  holds the lookup of a state by name and `getStates` (`StatesFor`).
- `machine.dfy`, module `Machine`: the mutable fields as a value (`Snapshot`). Each
  operation is a function from the old snapshot to the new one (`ChangeStep`,
  `TriggerStep`, `ResetStep`, `UndoStep`, `RedoStep`, `ClearStep`, with `Record`
  for `_addToHistory`). The lemmas about them live here too.
- `fsm.dfy`, module `Fsm`: the class `FSM`. Its fields are `config`, `state`,
  `history` and `historyCursor`, and its methods assign them step by step as the
  JavaScript does. Each method's `ensures` equates the new fields with the
  matching `Machine` function of the old ones. Each public method also keeps the
  object invariant `Valid()`: the cursor is never below -1, and on a closed configuration
  the current state and every history entry are declared states.

## History truncation as written

`src/fsm.js:23` assigns the value returned by
`history.splice(historyCursor, history.length)` to `history`. That value is the
removed suffix, from the cursor to the end. It is not the prefix before the
cursor. The model follows this code:

- With a cursor of 0 or more that is off the last entry, the new history is the
  entries from the cursor on, followed by the new state (`BranchTruncation`).
- With a cursor of -1 over a non-empty history, a negative start counts from the
  end, so only the last entry survives.
- The cursor always grows by exactly one. It can therefore point past the end of
  the history (`CursorCanPassEnd`).
- A `redo` can still succeed after a new forward move made after an `undo`
  (`RedoAfterBranch`, `RedoSurvivesNewBranch`).

A common undo/redo policy discards the redo future when a new move is made
after an `undo`. This code does not. On a traffic light, after `next`, `next`,
`undo`, `next`, a `redo` returns true (`RedoSurvivesNewBranch`). The cursor is
also not kept inside a non-empty history: it can point past its end
(`CursorCanPassEnd`).

`undo` restores the entry at the new cursor only when that entry is truthy
(line 97). It falls back to `initial` when the cursor is -1 and also when the
entry there is the empty string.

## Model

| member | source | states |
|---|---|---|
| `Fsm.FSM.constructor` | src/fsm.js:11-19 | the state is `config.initial`, the history is empty and the cursor is -1; the initial state is not recorded; the invariant holds |
| `Fsm.FSM.Create` | src/fsm.js:11-19 | a machine is built iff the configuration is present; a refusal is always `ConfigMissing`; a built machine is fresh and valid and its snapshot is `Start(config)` |
| `Fsm.FSM.AddToHistory` | src/fsm.js:21-27 | the new history and cursor are `Record` of the old ones, and the state is untouched |
| `Fsm.FSM.GetState` | src/fsm.js:33-35 | returns the current state and changes nothing |
| `Fsm.FSM.ChangeState` | src/fsm.js:41-47 | succeeds iff the target is declared; the new fields are `ChangeStep` of the old ones, so a failure (`UndeclaredState`) changes nothing; the invariant is kept |
| `Fsm.FSM.Trigger` | src/fsm.js:53-59 | the new fields and the outcome are `TriggerStep` of the old ones; the invariant is kept |
| `Fsm.FSM.Reset` | src/fsm.js:64-67 | always succeeds and leaves the state at `config.initial`; the new fields are `ResetStep` of the old ones |
| `Fsm.FSM.GetStates` | src/fsm.js:75-85 | returns `StatesFor(config, event)` and changes nothing |
| `Fsm.FSM.Undo` | src/fsm.js:92-103 | returns true iff the old cursor was at least 0; the new fields are `UndoStep` of the old ones |
| `Fsm.FSM.Redo` | src/fsm.js:110-117 | returns true iff the old cursor was at most the history length minus 2; the new fields are `RedoStep` of the old ones |
| `Fsm.FSM.ClearHistory` | src/fsm.js:122-125 | the history is empty, the cursor is -1 and the state is unchanged |
| `JsSemantics.At` | src/fsm.js:97 | reading `a[i]` gives an element exactly when `i` is an index of the array, negative `i` included, and then it is `a[i]` |
| `JsSemantics.Truthy` | src/fsm.js:97 | only the empty string is a falsy string; a definition with no contract of its own, used in the contracts of `UndoStep`, `MatchingMembers` and `StatesForEvent` |
| `JsSemantics.SpliceRemoved` | src/fsm.js:23 | what `splice` returns is the run of elements from the clamped start, as long as the clamped delete count; a delete count of at least the length returns the whole suffix from the start |
| `FsmConfig.IndexOf` | src/fsm.js:42 | -1 exactly when no entry has the name; otherwise the position of the first entry with it |
| `FsmConfig.Names` | src/fsm.js:77 | the key list has one name per entry, in entry order |
| `FsmConfig.Declared` | src/fsm.js:42 | `states[name]` is defined iff the name is one of `Object.keys(states)` |
| `FsmConfig.Lookup` | src/fsm.js:54 | for a declared name, the descriptor of the first entry with that name |
| `FsmConfig.Fires` | src/fsm.js:81 | `transitions[event]` is truthy; a definition with no contract of its own, characterised by `TriggerStep`, `MatchingMembers` and `StatesForEvent` |
| `FsmConfig.LookupUnique` | src/fsm.js:54 | under distinct keys, looking up an entry's name finds that entry |
| `FsmConfig.Matching` | src/fsm.js:80-84 | never more names than entries, and every name produced is truthy and one of the keys |
| `FsmConfig.StatesFor` | src/fsm.js:75-85 | never more names than entries, and every name returned is declared |
| `FsmConfig.MatchingAreKeys` | src/fsm.js:80-84 | every name the event filter produces is a key |
| `FsmConfig.MatchingMembers` | src/fsm.js:80-84 | a name is produced iff it is truthy, declared and its `transitions[event]` is truthy |
| `FsmConfig.MatchingInOrder` | src/fsm.js:80-84 | the produced names are the key list with some names left out, the rest in declared order |
| `FsmConfig.MatchingNoRepeats` | src/fsm.js:80-84 | under distinct keys, no produced name occurs twice |
| `FsmConfig.StatesForAll` | src/fsm.js:76-77 | with no event or an empty event, returns every declared name in declared order |
| `FsmConfig.StatesForEvent` | src/fsm.js:80-84 | with an event, returns exactly the truthy declared names whose transitions fire on it, in declared order and without repeats; an event no state knows gives an empty list |
| `FsmConfig.StatesForPlainEvent` | src/fsm.js:80-84 | with non-empty names and targets, a name is returned iff it is declared and its transitions define the event |
| `Machine.Start` | src/fsm.js:15-18 | the state is `initial`, the history is empty, the machine is linear, and neither `undo` nor `redo` is possible |
| `Machine.Record` | src/fsm.js:21-27 | the cursor grows by one, the last entry is the recorded state, and a cursor on the last entry (including -1 on an empty history) means a plain append |
| `Machine.Forward` | src/fsm.js:45-46 | the state becomes the target, the cursor grows by one and the last history entry is the new state |
| `Machine.ChangeStep` | src/fsm.js:41-47 | `Ok` iff the target is declared; a failure is `UndeclaredState` and changes nothing; a success is a forward move to the target |
| `Machine.TriggerStep` | src/fsm.js:53-59 | `Ok` iff the current state's transitions map the event to a non-empty target; a failure is `UnknownEvent` and changes nothing; a success is a forward move to `transitions[state][event]` |
| `Machine.ResetStep` | src/fsm.js:64-67 | a forward move to `initial`, which never fails |
| `Machine.UndoStep` | src/fsm.js:92-103 | performed iff the cursor is at least 0, else nothing changes; otherwise the cursor drops by one, the history is kept, and the state is the entry at the new cursor when it exists and is non-empty, else `initial` |
| `Machine.RedoStep` | src/fsm.js:110-117 | performed iff the cursor is at most the history length minus 2, else nothing changes; otherwise the cursor rises by one to an in-range index, the history is kept and the state is the entry there |
| `Machine.ClearStep` | src/fsm.js:122-125 | the history is empty, the cursor is -1 and the state is kept |
| `Machine.BranchTruncation` | src/fsm.js:22-26 | off the last entry, a cursor of 0 or more keeps the entries from position min(cursor, history length) on, and a cursor of -1 keeps only the last entry; the new state follows and the cursor grows by one |
| `Machine.ForwardKeepsLinear` | src/fsm.js:21-27 | from a linear machine a forward move appends and keeps the machine linear |
| `Machine.ForwardRunAppends` | src/fsm.js:21-27 | a run of forward moves from a linear machine appends its states in order, ends with the cursor on the last entry, and the state equals that entry |
| `Machine.EmptyHistoryIsStuck` | src/fsm.js:92-125 | after `clearHistory` both `undo` and `redo` return false; clearing keeps the state and leaves the machine linear |
| `Machine.UndoCursorFloor` | src/fsm.js:92-96 | `undo` never takes the cursor below -1 |
| `Machine.UndoThenRedo` | src/fsm.js:92-117 | on a linear machine with a recorded move, `undo` then `redo` restores state, history and cursor |
| `Machine.UndoTimes` | src/fsm.js:92-103 | any number of undos keeps the history and never takes the cursor below -1 |
| `Machine.RedoTimes` | src/fsm.js:110-117 | repeated `redo` keeps the cursor at -1 or above |
| `Machine.UndoTimesSpec` | src/fsm.js:92-103 | `n` undos, with at most cursor + 1 of them, all succeed and lower the cursor by `n` |
| `Machine.RedoTimesSpec` | src/fsm.js:110-117 | `n` redos, with that many entries past the cursor, all succeed, keep the history, raise the cursor by `n` and end on the entry there |
| `Machine.UndoRedoInverse` | src/fsm.js:92-117 | on a linear history, `n` undos then `n` redos all succeed and restore the machine exactly; undoing every entry leaves no further undo, and a linear machine has no redo |
| `Machine.CursorCanPassEnd` | src/fsm.js:22-26 | a concrete branch after which the cursor points past the end of the history |
| `Machine.RedoAfterBranch` | src/fsm.js:22-26 | from `[a, b, c]` with the cursor at 0, a move to `d` gives `[a, b, c, d]` with the cursor at 1, and `redo` then goes to `c` |
| `Machine.RedoSurvivesNewBranch` | src/fsm.js:21-27 | on the traffic light, `next`, `next`, `undo`, `next` leaves `[yellow, red, red]` with the cursor at 1, and `redo` succeeds |
| `Machine.ForwardKeepsDeclared` | src/fsm.js:21-27 | recording a declared state keeps the state and every history entry declared |
| `Machine.TargetDeclared` | src/fsm.js:57 | on a closed configuration, a transition target is a declared state |
| `Machine.Apply` | src/fsm.js:41-125 | any single call keeps the cursor at -1 or above |
| `Machine.ApplyKeepsDeclared` | src/fsm.js:41-125 | on a closed configuration, every call keeps the state and every history entry declared |
| `Machine.Run` | src/fsm.js:41-125 | on a closed configuration, after any sequence of calls the state is declared and the cursor is at -1 or above |

A closed configuration is one whose initial state and all transition targets are
declared. A linear machine is one whose cursor is on the last history entry and
whose state equals that entry, as after any run of forward moves with no undo.

## Left out

- Fsm.FSM.Trigger: it requires the current state to be declared. With an
  undeclared state, line 54 reads `transitions` from `undefined` and throws a
  `TypeError`. That exception is not modelled as an outcome. On a closed
  configuration, `Valid()` makes the requirement hold always.
- Fsm.FSM.Create: a configuration is either missing (`None`) or a full
  `{ initial, states }` value. A present but malformed configuration is not
  modelled. That includes a missing `initial`, a missing `transitions` object,
  or a falsy descriptor.
- Keys inherited from `Object.prototype` are not modelled. Names such as
  `toString` make `states[name]` or `transitions[event]` truthy in JavaScript
  even when they were never declared.
- The key order of `Object.keys` is given by the sequence of entries. JavaScript
  puts integer-like keys first; that rule is not modelled.
- Truthiness is modelled for strings only. The empty string is the one falsy
  name or target. Non-string values in the configuration and non-string event
  arguments are not modelled.
- Aliasing of the configuration is not modelled. The class keeps the caller's
  configuration object, so the caller could change it later. Here it is an
  immutable value.
- Error messages (lines 13, 43, 55) are not modelled; only the error kind is.
- The module export and the authorship comment (lines 128-130) are not logic.
- There is no concurrency, I/O, clock or randomness in the source.
