/**
 * The `FSM` class: a configuration fixed at construction, and the fields
 * `state`, `history` and `historyCursor`, which its methods assign step by
 * step. Every method is proved to leave the fields as the matching
 * function of the `Machine` module says, and every public one to keep
 * the object invariant: the cursor is never below -1, and on a closed
 * configuration the current state and every history entry are declared.
 */
module Fsm {
  import opened JsSemantics
  import opened FsmConfig
  import opened Machine

  /** What `new FSM(config)` yields: a machine, or the error it throws. */
  datatype Created = Created(fsm: FSM) | Refused(error: Error)

  class FSM {
    const config: Config
    var state: string
    var history: seq<string>
    var historyCursor: int

    /** The mutable fields as one value. */
    function Snap(): Snapshot
      reads this
    {
      Snapshot(state, history, historyCursor)
    }

    /** The object invariant. */
    ghost predicate Valid()
      reads this
    {
      && historyCursor >= -1
      && (Closed(config) ==> AllDeclared(config, Snap()))
    }

    /** Construction from a present configuration: the initial state,
        nothing recorded, the cursor at -1. */
    constructor (config: Config)
      ensures Valid()
      ensures this.config == config && Snap() == Start(config)
    {
      this.config := config;
      state := config.initial;
      history := [];
      historyCursor := -1;
    }

    /** `new FSM(config)`, where a missing configuration throws. */
    static method Create(config: Option<Config>) returns (r: Created)
      ensures r.Created? <==> config.Some?
      ensures r.Refused? ==> r.error == ConfigMissing
      ensures r.Created? ==> && fresh(r.fsm) && r.fsm.Valid()
                             && r.fsm.config == config.value
                             && r.fsm.Snap() == Start(config.value)
    {
      if config.None? {
        return Refused(ConfigMissing);
      }
      var fsm := new FSM(config.value);
      r := Created(fsm);
    }

    /** `_addToHistory(x)`. */
    method AddToHistory(x: string)
      modifies this
      ensures state == old(state)
      ensures (history, historyCursor) == Record(old(history), old(historyCursor), x)
    {
      if historyCursor != |history| - 1 {
        history := SpliceRemoved(history, historyCursor, |history|);
      }
      history := history + [x];
      historyCursor := historyCursor + 1;
    }

    /** `getState()`. */
    method GetState() returns (s: string)
      ensures s == state
    {
      s := state;
    }

    /** `changeState(target)`. */
    method ChangeState(target: string) returns (r: Outcome)
      requires Valid()
      modifies this
      ensures Valid()
      ensures r == Ok <==> Declared(config, target)
      ensures Moved(r, Snap()) == ChangeStep(config, old(Snap()), target)
    {
      if !Declared(config, target) {
        return Fail(UndeclaredState);
      }
      ghost var before := Snap();
      state := target;
      AddToHistory(state);
      r := Ok;
      if Closed(config) {
        ApplyKeepsDeclared(config, before, Op.ChangeState(target));
      }
    }

    /** `trigger(event)`; the current state must be declared, since the
        lookup of its transitions would throw otherwise. */
    method Trigger(event: string) returns (r: Outcome)
      requires Valid() && Declared(config, state)
      modifies this
      ensures Valid()
      ensures Moved(r, Snap()) == TriggerStep(config, old(Snap()), event)
    {
      var transitions := Lookup(config, state).transitions;
      if !(event in transitions && Truthy(transitions[event])) {
        return Fail(UnknownEvent);
      }
      ghost var before := Snap();
      state := transitions[event];
      AddToHistory(state);
      r := Ok;
      if Closed(config) {
        ApplyKeepsDeclared(config, before, Op.Trigger(event));
      }
    }

    /** `reset()`. */
    method Reset()
      requires Valid()
      modifies this
      ensures Valid()
      ensures state == config.initial
      ensures Snap() == ResetStep(config, old(Snap()))
    {
      ghost var before := Snap();
      state := config.initial;
      AddToHistory(state);
      if Closed(config) {
        ApplyKeepsDeclared(config, before, Op.Reset);
      }
    }

    /** `getStates(event)`, with `None` for a missing argument. */
    method GetStates(event: Option<string>) returns (r: seq<string>)
      ensures r == StatesFor(config, event)
    {
      if event.None? || event.value == "" {
        return Names(config.states);
      }
      r := Matching(config.states, event.value);
    }

    /** `undo()`. */
    method Undo() returns (done: bool)
      requires Valid()
      modifies this
      ensures Valid()
      ensures done <==> old(historyCursor) >= 0
      ensures Stepped(done, Snap()) == UndoStep(config, old(Snap()))
    {
      if historyCursor < 0 {
        return false;
      }
      historyCursor := historyCursor - 1;
      var entry := At(history, historyCursor);
      if entry.Some? && Truthy(entry.value) {
        state := entry.value;
      } else {
        state := config.initial;
      }
      done := true;
    }

    /** `redo()`. */
    method Redo() returns (done: bool)
      requires Valid()
      modifies this
      ensures Valid()
      ensures done <==> old(historyCursor) <= |old(history)| - 2
      ensures Stepped(done, Snap()) == RedoStep(old(Snap()))
    {
      if historyCursor > |history| - 2 {
        return false;
      }
      historyCursor := historyCursor + 1;
      state := history[historyCursor];
      done := true;
    }

    /** `clearHistory()`. */
    method ClearHistory()
      requires Valid()
      modifies this
      ensures Valid()
      ensures Snap() == ClearStep(old(Snap()))
    {
      history := [];
      historyCursor := -1;
    }
  }
}
