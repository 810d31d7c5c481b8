/**
 * What every FSM operation does to the machine's mutable part, the current
 * state, the history and the history cursor, stated as functions of the
 * configuration and the old values, together with what follows from them:
 * forward moves are recorded, undo and redo move the cursor by one,
 * undoing and redoing a linear history restores it, and on a closed
 * configuration the current state stays declared.
 */
module Machine {
  import opened JsSemantics
  import opened FsmConfig

  /** The ways an operation can fail. */
  datatype Error = ConfigMissing | UndeclaredState | UnknownEvent

  /** Whether an operation that may throw went through. */
  datatype Outcome = Ok | Fail(error: Error)

  /** The mutable fields of an FSM: `state`, `history`, `historyCursor`. */
  datatype Snapshot = Snapshot(state: string, history: seq<string>, cursor: int)

  /** A forward move's outcome and the machine after it. */
  datatype Moved = Moved(outcome: Outcome, after: Snapshot)

  /** The boolean `undo`/`redo` return and the machine after it. */
  datatype Stepped = Stepped(performed: bool, after: Snapshot)

  /** The machine the constructor builds: the initial state, nothing
      recorded, so that neither `undo` nor `redo` can do anything yet. */
  function Start(c: Config): (m: Snapshot)
    ensures m.state == c.initial && m.history == [] && Linear(m)
    ensures !UndoStep(c, m).performed && !RedoStep(m).performed
  {
    Snapshot(c.initial, [], -1)
  }

  /** The cursor points at the last entry and the current state is that
      entry: what a run of forward moves with no undo leaves behind. */
  predicate Linear(m: Snapshot)
  {
    && m.cursor == |m.history| - 1
    && (m.history != [] ==> m.history[m.cursor] == m.state)
  }

  /** `_addToHistory(x)`: when the cursor is off the last entry, the history
      becomes what `splice(cursor, length)` returns; then `x` is pushed and
      the cursor moves up by one. */
  function Record(h: seq<string>, cursor: int, x: string): (r: (seq<string>, int))
    ensures r.1 == cursor + 1
    ensures |r.0| > 0 && r.0[|r.0| - 1] == x
    ensures cursor == |h| - 1 ==> r.0 == h + [x]
  {
    var kept := if cursor != |h| - 1 then SpliceRemoved(h, cursor, |h|) else h;
    (kept + [x], cursor + 1)
  }

  /** Setting `state` to `x` and recording it, as all forward moves do. */
  function Forward(m: Snapshot, x: string): (r: Snapshot)
    ensures r.state == x && r.cursor == m.cursor + 1
    ensures |r.history| > 0 && r.history[|r.history| - 1] == x
    ensures m.cursor == |m.history| - 1 ==> r.history == m.history + [x]
  {
    var rec := Record(m.history, m.cursor, x);
    Snapshot(x, rec.0, rec.1)
  }

  /** `changeState(target)`. */
  function ChangeStep(c: Config, m: Snapshot, target: string): (r: Moved)
    ensures r.outcome.Ok? <==> Declared(c, target)
    ensures r.outcome.Fail? ==> r.outcome.error == UndeclaredState && r.after == m
    ensures r.outcome.Ok? ==> r.after == Forward(m, target)
  {
    if !Declared(c, target) then Moved(Fail(UndeclaredState), m)
    else Moved(Ok, Forward(m, target))
  }

  /** `trigger(event)`, from a declared current state. */
  function TriggerStep(c: Config, m: Snapshot, event: string): (r: Moved)
    requires Declared(c, m.state)
    ensures r.outcome.Ok? <==> event in Lookup(c, m.state).transitions
                               && Lookup(c, m.state).transitions[event] != ""
    ensures r.outcome.Fail? ==> r.outcome.error == UnknownEvent && r.after == m
    ensures r.outcome.Ok? ==> r.after == Forward(m, Lookup(c, m.state).transitions[event])
  {
    var transitions := Lookup(c, m.state).transitions;
    if !(event in transitions && Truthy(transitions[event])) then Moved(Fail(UnknownEvent), m)
    else Moved(Ok, Forward(m, transitions[event]))
  }

  /** `reset()`. */
  function ResetStep(c: Config, m: Snapshot): (r: Snapshot)
    ensures r.state == c.initial && r.cursor == m.cursor + 1
    ensures |r.history| > 0 && r.history[|r.history| - 1] == c.initial
    ensures m.cursor == |m.history| - 1 ==> r.history == m.history + [c.initial]
  {
    Forward(m, c.initial)
  }

  /** `undo()`. */
  function UndoStep(c: Config, m: Snapshot): (r: Stepped)
    ensures r.performed <==> m.cursor >= 0
    ensures !r.performed ==> r.after == m
    ensures r.performed ==> r.after.cursor == m.cursor - 1 && r.after.history == m.history
    ensures r.performed && 0 <= m.cursor - 1 < |m.history| && m.history[m.cursor - 1] != "" ==>
              r.after.state == m.history[m.cursor - 1]
    ensures r.performed && !(0 <= m.cursor - 1 < |m.history| && m.history[m.cursor - 1] != "") ==>
              r.after.state == c.initial
  {
    if m.cursor < 0 then Stepped(false, m)
    else
      var k := m.cursor - 1;
      var entry := At(m.history, k);
      Stepped(true, Snapshot(if entry.Some? && Truthy(entry.value) then entry.value else c.initial, m.history, k))
  }

  /** `redo()`, with the cursor never below -1 (every operation keeps it so). */
  function RedoStep(m: Snapshot): (r: Stepped)
    requires m.cursor >= -1
    ensures r.performed <==> m.cursor <= |m.history| - 2
    ensures !r.performed ==> r.after == m
    ensures r.performed ==> && 0 <= r.after.cursor < |m.history|
                            && r.after.cursor == m.cursor + 1
                            && r.after.history == m.history
                            && r.after.state == m.history[r.after.cursor]
  {
    if m.cursor > |m.history| - 2 then Stepped(false, m)
    else Stepped(true, Snapshot(m.history[m.cursor + 1], m.history, m.cursor + 1))
  }

  /** `clearHistory()`. */
  function ClearStep(m: Snapshot): (r: Snapshot)
    ensures r.state == m.state && r.history == [] && r.cursor == -1
  {
    Snapshot(m.state, [], -1)
  }

  // ---------------------------------------------------------------------
  // Recording forward moves
  // ---------------------------------------------------------------------

  /** Off the last entry, the history keeps what `splice` returns: for a
      cursor at 0 or beyond, the entries from the cursor on (none, when it
      is past the end); for cursor -1, the last entry alone. The new state
      goes after them and the cursor moves up by one. */
  lemma BranchTruncation(h: seq<string>, cursor: int, x: string)
    requires cursor >= -1 && cursor != |h| - 1
    ensures cursor >= 0 ==>
              Record(h, cursor, x).0 == h[(if cursor < |h| then cursor else |h|)..] + [x]
    ensures cursor == -1 ==> |h| > 0 && Record(h, cursor, x).0 == [h[|h| - 1], x]
    ensures Record(h, cursor, x).1 == cursor + 1
  {
  }

  /** A forward move from a linear machine is a plain append and leaves the
      machine linear. */
  lemma ForwardKeepsLinear(m: Snapshot, x: string)
    requires Linear(m)
    ensures Forward(m, x).history == m.history + [x]
    ensures Linear(Forward(m, x))
  {
  }

  /** A run of forward moves to `xs`, one after another. */
  function ForwardAll(m: Snapshot, xs: seq<string>): Snapshot
    decreases |xs|
  {
    if xs == [] then m else ForwardAll(Forward(m, xs[0]), xs[1..])
  }

  /** Forward-only moves from a linear machine append their states in
      order, keep the cursor on the last entry and the state equal to it. */
  lemma {:induction false} ForwardRunAppends(m: Snapshot, xs: seq<string>)
    requires Linear(m)
    ensures ForwardAll(m, xs).history == m.history + xs
    ensures ForwardAll(m, xs).cursor == |m.history| + |xs| - 1
    ensures Linear(ForwardAll(m, xs))
    ensures xs != [] ==> ForwardAll(m, xs).state == xs[|xs| - 1]
    decreases |xs|
  {
    if xs != [] {
      var m' := Forward(m, xs[0]);
      ForwardKeepsLinear(m, xs[0]);
      ForwardRunAppends(m', xs[1..]);
      assert m.history + [xs[0]] + xs[1..] == m.history + xs;
    }
  }

  // ---------------------------------------------------------------------
  // Empty history
  // ---------------------------------------------------------------------

  /** A cleared machine cannot undo or redo, and clearing keeps the
      current state. */
  lemma EmptyHistoryIsStuck(c: Config, m: Snapshot)
    ensures !UndoStep(c, ClearStep(m)).performed && !RedoStep(ClearStep(m)).performed
    ensures ClearStep(m).state == m.state && Linear(ClearStep(m))
  {
  }

  // ---------------------------------------------------------------------
  // Undo and redo
  // ---------------------------------------------------------------------

  /** `undo` never takes the cursor below -1: it only moves a cursor that is
      at least 0, and then by one. */
  lemma UndoCursorFloor(c: Config, m: Snapshot)
    requires m.cursor >= -1
    ensures UndoStep(c, m).after.cursor >= -1
  {
  }

  /** On a linear machine with a recorded move, `undo` then `redo` gives
      back the same state, history and cursor. */
  lemma UndoThenRedo(c: Config, m: Snapshot)
    requires Linear(m) && m.cursor >= 0
    ensures UndoStep(c, m).performed
    ensures RedoStep(UndoStep(c, m).after) == Stepped(true, m)
  {
  }

  /** `n` calls of `undo`; `performed` says whether every one returned true.
      However many there are, the history is untouched and the cursor never
      falls below -1. */
  function UndoTimes(c: Config, m: Snapshot, n: nat): (r: Stepped)
    ensures r.after.history == m.history
    ensures m.cursor >= -1 ==> r.after.cursor >= -1
    decreases n
  {
    if n == 0 then Stepped(true, m)
    else
      var first := UndoStep(c, m);
      var rest := UndoTimes(c, first.after, n - 1);
      Stepped(first.performed && rest.performed, rest.after)
  }

  /** `n` calls of `redo`; `performed` says whether every one returned true. */
  function RedoTimes(m: Snapshot, n: nat): (r: Stepped)
    requires m.cursor >= -1
    ensures r.after.cursor >= -1
    decreases n
  {
    if n == 0 then Stepped(true, m)
    else
      var first := RedoStep(m);
      var rest := RedoTimes(first.after, n - 1);
      Stepped(first.performed && rest.performed, rest.after)
  }

  /** While the cursor has `n` entries to step back over, `n` undos all
      succeed and lower the cursor by `n`. */
  lemma {:induction false} UndoTimesSpec(c: Config, m: Snapshot, n: nat)
    requires n <= m.cursor + 1
    ensures UndoTimes(c, m, n).performed
    ensures UndoTimes(c, m, n).after.cursor == m.cursor - n
    decreases n
  {
    if n > 0 {
      UndoTimesSpec(c, UndoStep(c, m).after, n - 1);
    }
  }

  /** While there are `n` entries past the cursor, `n` redos all succeed,
      keep the history, raise the cursor by `n` and end on the entry it
      points at. */
  lemma {:induction false} RedoTimesSpec(m: Snapshot, n: nat)
    requires m.cursor >= -1 && m.cursor + n <= |m.history| - 1
    ensures RedoTimes(m, n).performed
    ensures RedoTimes(m, n).after.history == m.history
    ensures RedoTimes(m, n).after.cursor == m.cursor + n
    ensures n > 0 ==> RedoTimes(m, n).after.state == m.history[m.cursor + n]
    decreases n
  {
    if n > 0 {
      RedoTimesSpec(RedoStep(m).after, n - 1);
    }
  }

  /** Undo and redo are inverse on a linear history: after `n` undos (at most
      one per recorded entry), all of which succeed, `n` redos all succeed
      and restore the machine exactly; once every entry is undone a further
      undo fails, and from the linear machine no redo is possible. */
  lemma UndoRedoInverse(c: Config, m: Snapshot, n: nat)
    requires Linear(m) && n <= |m.history|
    ensures UndoTimes(c, m, n).performed
    ensures UndoTimes(c, m, n).after.cursor == |m.history| - 1 - n
    ensures RedoTimes(UndoTimes(c, m, n).after, n) == Stepped(true, m)
    ensures n == |m.history| ==> !UndoStep(c, UndoTimes(c, m, n).after).performed
    ensures !RedoStep(m).performed
  {
    UndoTimesSpec(c, m, n);
    var back := UndoTimes(c, m, n).after;
    RedoTimesSpec(back, n);
  }

  // ---------------------------------------------------------------------
  // Consequences of keeping the splice result
  // ---------------------------------------------------------------------

  /** After a branch the cursor can point past the end of the history:
      from four entries with the cursor on the third, a move keeps the last
      two entries, appends one and puts the cursor at 3 of 3 entries. */
  lemma CursorCanPassEnd()
    ensures var m := Forward(Snapshot("c", ["a", "b", "c", "d"], 2), "e");
            m.history == ["c", "d", "e"] && m.cursor == 3 && m.cursor > |m.history| - 1
  {
  }

  /** After a branch `redo` can still succeed: from `[a, b, c]` with the
      cursor at 0, a move to `d` gives `[a, b, c, d]` with the cursor at 1,
      and `redo` then goes to `c`. */
  lemma RedoAfterBranch()
    ensures var m := Forward(Snapshot("a", ["a", "b", "c"], 0), "d");
            && m == Snapshot("d", ["a", "b", "c", "d"], 1)
            && RedoStep(m) == Stepped(true, Snapshot("c", ["a", "b", "c", "d"], 2))
  {
  }

  /** A traffic light: green, yellow and red, each moving to the next on
      `next`, starting at green. */
  function TrafficLight(): Config
  {
    Config("green", [("green", StateDesc(map["next" := "yellow"])),
                     ("yellow", StateDesc(map["next" := "red"])),
                     ("red", StateDesc(map["next" := "green"]))])
  }

  /** On the traffic light: `next` twice, one `undo`, then `next` again.
      The move after the undo keeps the two recorded entries, so `redo`
      still succeeds, onto the entry just added. */
  lemma RedoSurvivesNewBranch()
    ensures var c := TrafficLight();
            var m1 := TriggerStep(c, Start(c), "next");
            m1 == Moved(Ok, Snapshot("yellow", ["yellow"], 0)) &&
            var m2 := TriggerStep(c, m1.after, "next");
            m2 == Moved(Ok, Snapshot("red", ["yellow", "red"], 1)) &&
            var m3 := UndoStep(c, m2.after);
            m3 == Stepped(true, Snapshot("yellow", ["yellow", "red"], 0)) &&
            var m4 := TriggerStep(c, m3.after, "next");
            m4 == Moved(Ok, Snapshot("red", ["yellow", "red", "red"], 1)) &&
            RedoStep(m4.after) == Stepped(true, Snapshot("red", ["yellow", "red", "red"], 2))
  {
  }

  // ---------------------------------------------------------------------
  // The current state stays declared
  // ---------------------------------------------------------------------

  /** The current state and every history entry are declared states. */
  predicate AllDeclared(c: Config, m: Snapshot)
  {
    && Declared(c, m.state)
    && forall i :: 0 <= i < |m.history| ==> Declared(c, m.history[i])
  }

  /** Recording a declared state keeps every entry declared (splice only
      ever keeps entries that were already there). */
  lemma ForwardKeepsDeclared(c: Config, m: Snapshot, x: string)
    requires AllDeclared(c, m) && Declared(c, x)
    ensures AllDeclared(c, Forward(m, x))
  {
  }

  /** On a closed configuration, a transition out of a declared state leads
      to a declared state. */
  lemma TargetDeclared(c: Config, s: string, event: string)
    requires Closed(c) && Declared(c, s) && event in Lookup(c, s).transitions
    ensures Declared(c, Lookup(c, s).transitions[event])
  {
  }

  /** The calls a client can make on an FSM. */
  datatype Op = ChangeState(target: string) | Trigger(event: string) | Reset | Undo | Redo | ClearHistory

  /** The machine after one call (a call that fails leaves it unchanged). */
  function Apply(c: Config, m: Snapshot, op: Op): (r: Snapshot)
    requires m.cursor >= -1
    requires op.Trigger? ==> Declared(c, m.state)
    ensures r.cursor >= -1
  {
    match op
    case ChangeState(t) => ChangeStep(c, m, t).after
    case Trigger(e) => TriggerStep(c, m, e).after
    case Reset => ResetStep(c, m)
    case Undo => UndoStep(c, m).after
    case Redo => RedoStep(m).after
    case ClearHistory => ClearStep(m)
  }

  /** On a closed configuration every call keeps the current state and the
      history entries declared. */
  lemma ApplyKeepsDeclared(c: Config, m: Snapshot, op: Op)
    requires Closed(c) && AllDeclared(c, m) && m.cursor >= -1
    ensures AllDeclared(c, Apply(c, m, op))
  {
  }

  /** The machine after a sequence of calls, on a closed configuration;
      the current state is declared after each of them, so every `trigger`
      in the sequence is well defined. */
  function Run(c: Config, m: Snapshot, ops: seq<Op>): (r: Snapshot)
    requires Closed(c) && AllDeclared(c, m) && m.cursor >= -1
    ensures AllDeclared(c, r) && r.cursor >= -1
    decreases |ops|
  {
    if ops == [] then m
    else
      ApplyKeepsDeclared(c, m, ops[0]);
      Run(c, Apply(c, m, ops[0]), ops[1..])
  }
}
