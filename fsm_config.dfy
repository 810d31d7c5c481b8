/**
 * The configuration an FSM is built from, `{ initial, states }`, and the
 * read-only queries over it: looking a state up by name and listing the
 * states that react to an event (`getStates`).
 */
module FsmConfig {
  import opened JsSemantics

  /** A state descriptor `{ transitions: event -> target }`. */
  datatype StateDesc = StateDesc(transitions: map<string, string>)

  /** The `states` object as its keys are enumerated: each declared name with
      its descriptor, in declared order. */
  type StateTable = seq<(string, StateDesc)>

  /** `{ initial, states }`. */
  datatype Config = Config(initial: string, states: StateTable)

  /** The keys of a JavaScript object are distinct. */
  predicate DistinctNames(states: StateTable)
  {
    forall i, j :: 0 <= i < j < |states| ==> states[i].0 != states[j].0
  }

  /** Position of the entry named `name`, or -1 when there is none. */
  function IndexOf(states: StateTable, name: string): (r: int)
    ensures -1 <= r < |states|
    ensures r >= 0 ==> states[r].0 == name && forall j :: 0 <= j < r ==> states[j].0 != name
    ensures r == -1 <==> forall j :: 0 <= j < |states| ==> states[j].0 != name
  {
    if states == [] then -1
    else if states[0].0 == name then 0
    else
      var k := IndexOf(states[1..], name);
      if k == -1 then -1 else k + 1
  }

  /** `Object.keys(states)`: the declared names in declared order. */
  function Names(states: StateTable): (r: seq<string>)
    ensures |r| == |states|
    ensures forall i :: 0 <= i < |states| ==> r[i] == states[i].0
  {
    if states == [] then [] else [states[0].0] + Names(states[1..])
  }

  /** `states[name]` is defined: the name is one of `Object.keys(states)`. */
  predicate Declared(c: Config, name: string)
    ensures Declared(c, name) <==> name in Names(c.states)
  {
    IndexOf(c.states, name) >= 0
  }

  /** `states[name]`, for a declared name: the descriptor of the first
      entry with that name. */
  function Lookup(c: Config, name: string): (d: StateDesc)
    requires Declared(c, name)
    ensures exists i :: && 0 <= i < |c.states| && c.states[i] == (name, d)
                        && forall j :: 0 <= j < i ==> c.states[j].0 != name
  {
    c.states[IndexOf(c.states, name)].1
  }

  /** `transitions[event]` is truthy. */
  predicate Fires(d: StateDesc, event: string)
  {
    event in d.transitions && Truthy(d.transitions[event])
  }

  /** A configuration whose initial state and every transition target are
      declared states. */
  predicate Closed(c: Config)
  {
    && Declared(c, c.initial)
    && forall i :: 0 <= i < |c.states| ==>
         forall e :: e in c.states[i].1.transitions ==> Declared(c, c.states[i].1.transitions[e])
  }

  /** A configuration whose names and targets are all non-empty strings, so
      that no truthiness test ever meets an empty string. */
  predicate NonEmptyNames(c: Config)
  {
    forall i :: 0 <= i < |c.states| ==>
      && c.states[i].0 != ""
      && forall e :: e in c.states[i].1.transitions ==> c.states[i].1.transitions[e] != ""
  }

  /** The `map`/`filter(Boolean)` pipeline of `getStates(event)`: each name
      whose descriptor fires on `event`, dropping the falsy ones. */
  function Matching(states: StateTable, event: string): (r: seq<string>)
    ensures |r| <= |states|
    ensures forall x :: x in r ==> Truthy(x) && x in Names(states)
  {
    if states == [] then []
    else
      (if Truthy(states[0].0) && Fires(states[0].1, event) then [states[0].0] else [])
      + Matching(states[1..], event)
  }

  /** `getStates(event)`, with `None` for a missing argument: never more
      names than entries, and only declared ones. */
  function StatesFor(c: Config, event: Option<string>): (r: seq<string>)
    ensures |r| <= |c.states|
    ensures forall x :: x in r ==> Declared(c, x)
  {
    if event.None? || event.value == "" then Names(c.states)
    else Matching(c.states, event.value)
  }

  /** Under distinct keys the entry `Lookup` finds is the only one with its name. */
  lemma LookupUnique(c: Config, i: int)
    requires DistinctNames(c.states) && 0 <= i < |c.states|
    ensures Declared(c, c.states[i].0) && IndexOf(c.states, c.states[i].0) == i
    ensures Lookup(c, c.states[i].0) == c.states[i].1
  {
  }

  /** Every name `Matching` produces is a key of the table. */
  lemma {:induction false} MatchingAreKeys(states: StateTable, event: string, x: string)
    ensures x in Matching(states, event) ==> IndexOf(states, x) >= 0
  {
    if states != [] && states[0].0 != x {
      MatchingAreKeys(states[1..], event, x);
    }
  }

  /** Under distinct keys a name is produced by `Matching` exactly when it is
      truthy, declared, and its descriptor fires on the event. */
  lemma {:induction false} MatchingMembers(states: StateTable, event: string, x: string)
    requires DistinctNames(states)
    ensures x in Matching(states, event) <==>
              Truthy(x) && IndexOf(states, x) >= 0 && Fires(states[IndexOf(states, x)].1, event)
  {
    if states != [] {
      var rest := states[1..];
      assert DistinctNames(rest);
      MatchingMembers(rest, event, x);
      MatchingAreKeys(rest, event, x);
      if states[0].0 == x {
        forall j | 0 <= j < |rest| ensures rest[j].0 != x {
          assert rest[j] == states[j + 1];
        }
      } else if IndexOf(states, x) >= 0 {
        assert states[IndexOf(states, x)] == rest[IndexOf(rest, x)];
      }
    }
  }

  /** `a` is `b` with some elements left out, the rest kept in order. */
  predicate Subsequence(a: seq<string>, b: seq<string>)
    decreases |b|
  {
    if b == [] then a == []
    else (a != [] && a[0] == b[0] && Subsequence(a[1..], b[1..])) || Subsequence(a, b[1..])
  }

  /** No name occurs twice. */
  predicate NoRepeats(r: seq<string>)
  {
    forall i, j :: 0 <= i < j < |r| ==> r[i] != r[j]
  }

  /** `Matching` keeps the declared order: it is the key list with some
      names left out. */
  lemma {:induction false} MatchingInOrder(states: StateTable, event: string)
    ensures Subsequence(Matching(states, event), Names(states))
  {
    if states != [] {
      var rest := states[1..];
      MatchingInOrder(rest, event);
      assert Names(states)[1..] == Names(rest);
      if Truthy(states[0].0) && Fires(states[0].1, event) {
        assert Matching(states, event) == [states[0].0] + Matching(rest, event);
        assert Matching(states, event)[1..] == Matching(rest, event);
      } else {
        assert Matching(states, event) == Matching(rest, event);
      }
    }
  }

  /** Under distinct keys `Matching` lists each name at most once. */
  lemma {:induction false} MatchingNoRepeats(states: StateTable, event: string)
    requires DistinctNames(states)
    ensures NoRepeats(Matching(states, event))
  {
    if states != [] {
      var rest := states[1..];
      assert DistinctNames(rest);
      MatchingNoRepeats(rest, event);
      var x := states[0].0;
      var tail := Matching(rest, event);
      if Truthy(x) && Fires(states[0].1, event) {
        MatchingAreKeys(rest, event, x);
        forall j | 0 <= j < |rest| ensures rest[j].0 != x {
          assert rest[j] == states[j + 1];
        }
        assert x !in tail;
        var r := [x] + tail;
        assert Matching(states, event) == r;
        forall i, j | 0 <= i < j < |r| ensures r[i] != r[j] {
          assert r[j] == tail[j - 1];
          if i > 0 {
            assert r[i] == tail[i - 1];
          }
        }
      }
    }
  }

  /** `getStates()` and `getStates('')` return every declared name in order. */
  lemma StatesForAll(c: Config, event: Option<string>)
    requires event.None? || event.value == ""
    ensures |StatesFor(c, event)| == |c.states|
    ensures forall i :: 0 <= i < |c.states| ==> StatesFor(c, event)[i] == c.states[i].0
  {
  }

  /** `getStates(event)` for a non-empty event returns, in declared order and
      each once, exactly the truthy names whose transitions fire on it; an
      event no state knows gives the empty list, never an error. */
  lemma StatesForEvent(c: Config, event: string)
    requires DistinctNames(c.states) && event != ""
    ensures var r := StatesFor(c, Some(event));
            && (forall x :: x in r <==> Truthy(x) && Declared(c, x) && Fires(Lookup(c, x), event))
            && Subsequence(r, Names(c.states))
            && NoRepeats(r)
  {
    forall x {
      MatchingMembers(c.states, event, x);
    }
    MatchingInOrder(c.states, event);
    MatchingNoRepeats(c.states, event);
    assert StatesFor(c, Some(event)) == Matching(c.states, event);
  }

  /** With non-empty names and targets, the filter is exactly "the state's
      transitions define the event". */
  lemma StatesForPlainEvent(c: Config, event: string)
    requires DistinctNames(c.states) && NonEmptyNames(c) && event != ""
    ensures forall x :: x in StatesFor(c, Some(event)) <==>
              Declared(c, x) && event in Lookup(c, x).transitions
  {
    StatesForEvent(c, event);
    forall x | Declared(c, x)
      ensures Truthy(x) && (event in Lookup(c, x).transitions ==> Fires(Lookup(c, x), event))
    {
      var i := IndexOf(c.states, x);
      assert c.states[i].0 == x;
    }
  }
}
