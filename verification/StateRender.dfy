/** StateRender (nShared/StateRender.hpp): recursive activation and clearing of the states of a
    window over an arbitrary dependency graph, with the topmost active state cached. */
module StateRender {
  import opened StateGraph

  /** `dependents[d]` lists exactly the states that depend on `d`. */
  ghost predicate Inverted(deps: Graph, dependents: Graph) {
    && |dependents| == |deps|
    && (forall d: nat, x: nat :: d < |deps| && x in dependents[d] ==> x < |deps|)
    && (forall d: nat, x: nat :: d < |deps| && x in dependents[d] ==> x < |deps| && d in deps[x])
    && (forall d: nat, x: nat :: d < |deps| && x < |deps| && d in deps[x] ==> x in dependents[d])
  }

  ghost function Inactive(active: seq<bool>): set<nat> {
    set x: nat | x < |active| && !active[x]
  }

  ghost function ActiveSet(active: seq<bool>): set<nat> {
    set x: nat | x < |active| && active[x]
  }

  /** `top` bounds every active state outside `pending`, the states whose activation is still
      under way, and is itself active or the base state. */
  ghost predicate BoundsOutside(active: seq<bool>, top: nat, pending: set<nat>) {
    && top < |active| && (top != 0 ==> active[top])
    && forall x: nat :: x < |active| && active[x] ==> x <= top || x in pending
  }

  ghost predicate OnlyMissing(deps: Graph, active: seq<bool>, allowed: set<nat>) {
    forall x: nat :: Missing(deps, active, x) ==> x in allowed
  }

  ghost predicate OnlyExcess(deps: Graph, active: seq<bool>, allowed: set<nat>) {
    forall x: nat :: Excess(deps, active, x) ==> x in allowed
  }

  ghost predicate AllFollow(deps: Graph, active: seq<bool>, on: set<nat>) {
    forall x: nat :: x < |active| && active[x] ==> Follows(deps, on, x)
  }

  /** Primitives other than `s` are as they were. */
  ghost predicate SamePrimitives(deps: Graph, before: seq<bool>, after: seq<bool>, s: nat)
    requires |before| == |after|
  {
    forall x: nat :: x < |after| && x != s && Primitive(deps, x) ==> before[x] == after[x]
  }

  ghost predicate Grown(before: seq<bool>, after: seq<bool>)
  {
    |before| == |after| && forall x: nat :: x < |after| && before[x] ==> after[x]
  }

  ghost function Elements(s: seq<nat>): set<nat> {
    set x | x in s
  }

  /** Right after `s` is switched on, only its dependents can be missing. */
  lemma SwitchedOn(deps: Graph, dependents: Graph, before: seq<bool>, after: seq<bool>, s: nat, late: set<nat>, on: set<nat>)
    requires Inverted(deps, dependents) && s < |deps| == |before| && after == before[s := true]
    requires OnlyMissing(deps, before, late + {s})
    requires AllFollow(deps, before, on) && Follows(deps, on, s)
    ensures OnlyMissing(deps, after, late + Elements(dependents[s]))
    ensures AllFollow(deps, after, on)
  {
    forall x: nat | Missing(deps, after, x) ensures x in late + Elements(dependents[s]) {
      if s !in deps[x] {
        forall d | d in deps[x] ensures d < |before| && before[d] {
          assert after[d];
        }
        assert Missing(deps, before, x);
      }
    }
  }

  lemma FewerInactive(before: seq<bool>, after: seq<bool>, s: nat)
    requires s < |before| && !before[s] && Grown(before[s := true], after)
    ensures Inactive(after) < Inactive(before)
  {
    assert s in Inactive(before) && after[s];
    forall x | x in Inactive(after) ensures x in Inactive(before) {
      assert !before[s := true][x];
    }
  }

  lemma StartActivation(deps: Graph, active: seq<bool>, s: nat, on: set<nat>, late: set<nat>, expected: bool)
    requires WellFormed(deps) && |active| == |deps| && s < |deps|
    requires expected ==> Settled(deps, active) && on == On(deps, active) + {s} && late == {}
    requires !expected ==> on == ActiveSet(active) + {s} && late == Elements(seq(|active|, i => i))
    ensures OnlyMissing(deps, active, late + {s})
    ensures AllFollow(deps, active, on) && Follows(deps, on, s)
  {
    assert Derivable(deps, on, s, 0);
    if expected {
      SettledIsConsistent(deps, active);
      forall x: nat | x < |active| && active[x] ensures Follows(deps, on, x) {
        var k: nat :| Derivable(deps, On(deps, active), x, k);
        DerivableFromMore(deps, On(deps, active), on, x, k);
      }
    } else {
      forall x: nat | x < |active| ensures x in late {
        assert seq(|active|, i => i)[x] == x;
      }
      forall x: nat | x < |active| && active[x] ensures Follows(deps, on, x) {
        assert Derivable(deps, on, x, 0);
      }
    }
  }

  lemma ActivationSettles(deps: Graph, before: seq<bool>, after: seq<bool>, s: nat)
    requires WellFormed(deps) && |before| == |after| == |deps| && Primitive(deps, s)
    requires after[s] && SamePrimitives(deps, before, after, s)
    requires OnlyMissing(deps, after, {}) && AllFollow(deps, after, On(deps, before) + {s})
    ensures Settled(deps, after) && On(deps, after) == On(deps, before) + {s}
  {
    assert On(deps, after) == On(deps, before) + {s};
    SettledByDerivation(deps, after);
  }

  /** Right after `s` is switched off, only its dependents can be active in excess. */
  lemma SwitchedOff(deps: Graph, dependents: Graph, before: seq<bool>, after: seq<bool>, s: nat, late: set<nat>, stale: set<nat>)
    requires Inverted(deps, dependents) && s < |deps| == |before| && after == before[s := false]
    requires OnlyMissing(deps, before, late) && OnlyExcess(deps, before, stale + {s})
    requires s in late || deps[s] == [] || !AllActive(before, deps[s])
    ensures OnlyMissing(deps, after, late)
    ensures OnlyExcess(deps, after, stale + Elements(dependents[s]))
  {
    forall x: nat | Missing(deps, after, x) ensures x in late {
      forall d | d in deps[x] ensures d < |before| && before[d] {
        assert after[d];
      }
      assert x != s ==> Missing(deps, before, x);
    }
    forall x: nat | Excess(deps, after, x) ensures x in stale + Elements(dependents[s]) {
      if s !in deps[x] {
        if AllActive(before, deps[x]) {
          forall d | d in deps[x] ensures d < |after| && after[d] {
            assert before[d];
          }
        }
        assert Excess(deps, before, x);
      }
    }
  }

  lemma FewerActive(before: seq<bool>, after: seq<bool>, s: nat)
    requires s < |before| && before[s] && Grown(after, before[s := false])
    ensures ActiveSet(after) < ActiveSet(before)
  {
    assert s in ActiveSet(before) && !after[s];
    forall x | x in ActiveSet(after) ensures x in ActiveSet(before) {
      assert before[s := false][x];
    }
  }

  lemma StartClearing(deps: Graph, active: seq<bool>, any: set<nat>, expected: bool)
    requires WellFormed(deps) && |active| == |deps|
    requires expected ==> Settled(deps, active)
    requires !expected ==> any == Elements(seq(|active|, i => i))
    ensures OnlyMissing(deps, active, any) && OnlyExcess(deps, active, any)
  {
    if expected {
      SettledIsConsistent(deps, active);
    } else {
      forall x: nat | x < |active| ensures x in any {
        assert seq(|active|, i => i)[x] == x;
      }
    }
  }

  lemma ClearingSettles(deps: Graph, before: seq<bool>, after: seq<bool>, s: nat)
    requires WellFormed(deps) && |before| == |after| == |deps| && Primitive(deps, s)
    requires Settled(deps, before) && !after[s] && Grown(after, before)
    requires SamePrimitives(deps, before, after, s)
    requires OnlyMissing(deps, after, {}) && OnlyExcess(deps, after, {})
    ensures Settled(deps, after) && On(deps, after) == On(deps, before) - {s}
  {
    assert On(deps, after) == On(deps, before) - {s};
    forall x: nat | x < |deps| && after[x] ensures Follows(deps, On(deps, after), x) {
      var k: nat :| Derivable(deps, On(deps, before), x, k);
      DerivationSurvives(deps, before, after, x, k);
    }
    SettledByDerivation(deps, after);
  }

  /** The per-window part: which states are active, and which one is drawn. */
  class WindowData {
    var active: array<bool>
    var currentState: nat
    var repaints: nat

    constructor (count: nat)
      requires count > 0
      ensures fresh(active) && active.Length == count
      ensures active[..] == seq(count, i => false) && currentState == 0 && repaints == 0
    {
      active := new bool[count](i => false);
      currentState := 0;
      repaints := 0;
    }
  }

  class StateRender {
    var dependencies: Graph
    var dependents: Graph

    ghost predicate Valid()
      reads this
    {
      WellFormed(dependencies) && Inverted(dependencies, dependents)
    }

    /** `data` belongs to this renderer and draws its topmost active state. */
    ghost predicate Drawn(data: WindowData)
      reads this, data, data.active
    {
      data.active.Length == |dependencies| && IsGreatest(data.active[..], data.currentState)
    }

    /** Turns the dependency lists of the states around. */
    constructor Load(initDependencies: Graph)
      requires WellFormed(initDependencies)
      ensures Valid() && dependencies == initDependencies
    {
      dependencies := initDependencies;
      var inverse: Graph := seq(|initDependencies|, i => []);
      for state := 0 to |initDependencies|
        invariant |inverse| == |initDependencies|
        invariant forall d: nat, x: nat :: d < |inverse| && x in inverse[d] ==> x < state
        invariant forall d: nat, x: nat :: d < |inverse| && x in inverse[d] ==> x < |inverse| && d in initDependencies[x]
        invariant forall d: nat, x: nat :: d < |inverse| && x < state && d in initDependencies[x] ==> x in inverse[d]
      {
        ghost var before := inverse;
        var own := initDependencies[state];
        for i := 0 to |own|
          invariant |inverse| == |initDependencies|
          invariant forall d: nat, x: nat :: d < |inverse| ==>
            (x in inverse[d] <==> x in before[d] || (x == state && d in own[..i]))
        {
          assert own[..i + 1] == own[..i] + [own[i]];
          assert own[i] in initDependencies[state];
          inverse := inverse[own[i] := inverse[own[i]] + [state]];
        }
        assert own[..|own|] == own;
      }
      dependents := inverse;
    }

    method DependenciesActive(state: nat, data: WindowData) returns (all: bool)
      requires Valid() && state < |dependencies| == data.active.Length
      ensures all <==> AllActive(data.active[..], dependencies[state])
    {
      var needed := dependencies[state];
      for j := 0 to |needed|
        invariant AllActive(data.active[..], needed[..j])
      {
        assert needed[j] in needed && needed[..j + 1] == needed[..j] + [needed[j]];
        if !data.active[needed[j]] {
          return false;
        }
      }
      assert needed[..|needed|] == needed;
      return true;
    }

    /** The recursive step. `on` are states from which everything active may follow, `late` the
        states that may still be missing when the call ends, `pending` the states whose
        activation is under way. */
    method Activate(state: nat, data: WindowData, ghost on: set<nat>, ghost late: set<nat>, ghost pending: set<nat>)
      requires Valid() && state < |dependencies| == data.active.Length
      requires BoundsOutside(data.active[..], data.currentState, pending)
      requires OnlyMissing(dependencies, data.active[..], late + {state})
      requires AllFollow(dependencies, data.active[..], on) && Follows(dependencies, on, state)
      modifies data`currentState, data`repaints, data.active
      ensures data.active[state] && Grown(old(data.active[..]), data.active[..])
      ensures SamePrimitives(dependencies, old(data.active[..]), data.active[..], state)
      ensures BoundsOutside(data.active[..], data.currentState, pending)
      ensures OnlyMissing(dependencies, data.active[..], late)
      ensures AllFollow(dependencies, data.active[..], on)
      ensures old(data.currentState) <= data.currentState && old(data.repaints) <= data.repaints
      ensures data.currentState != old(data.currentState) ==> data.repaints > old(data.repaints)
      decreases Inactive(data.active[..])
    {
      if !data.active[state] {
        data.active[state] := true;
        var waiting := dependents[state];
        SwitchedOn(dependencies, dependents, old(data.active[..]), data.active[..], state, late, on);
        for i := 0 to |waiting|
          invariant Grown(old(data.active[..])[state := true], data.active[..])
          invariant SamePrimitives(dependencies, old(data.active[..]), data.active[..], state)
          invariant BoundsOutside(data.active[..], data.currentState, pending + {state})
          invariant OnlyMissing(dependencies, data.active[..], late + Elements(waiting[i..]))
          invariant AllFollow(dependencies, data.active[..], on)
          invariant old(data.currentState) <= data.currentState && old(data.repaints) <= data.repaints
          invariant data.currentState != old(data.currentState) ==> data.repaints > old(data.repaints)
        {
          var dependent := waiting[i];
          assert Valid() && dependent in dependents[state];
          assert dependent < |dependencies|;
          ghost var later := late + Elements(waiting[i + 1..]);
          assert late + Elements(waiting[i..]) <= later + {dependent};
          var shouldActivate := DependenciesActive(dependent, data);
          if shouldActivate {
            assert dependencies[dependent] != [];
            FollowsFromDeps(dependencies, on, dependent);
            FewerInactive(old(data.active[..]), data.active[..], state);
            Activate(dependent, data, on, later, pending + {state});
          }
        }

        if data.currentState < state {
          data.currentState := state;
          data.repaints := data.repaints + 1;
        }
      }
    }

    /** Activates a state. For a primitive on a settled window the outcome is the settled set of
        the larger set of primitives. */
    method ActivateState(state: nat, data: WindowData)
      requires Valid() && Drawn(data) && state < |dependencies|
      modifies data`currentState, data`repaints, data.active
      ensures Drawn(data) && data.active[state] && Grown(old(data.active[..]), data.active[..])
      ensures data.currentState != old(data.currentState) ==> data.repaints > old(data.repaints)
      ensures old(Settled(dependencies, data.active[..])) && Primitive(dependencies, state) ==>
                && Settled(dependencies, data.active[..])
                && On(dependencies, data.active[..]) == old(On(dependencies, data.active[..])) + {state}
    {
      ghost var before := data.active[..];
      ghost var expected := Settled(dependencies, before) && Primitive(dependencies, state);
      ghost var on := (if expected then On(dependencies, before) else ActiveSet(before)) + {state};
      ghost var late: set<nat> := if expected then {} else Elements(seq(|before|, i => i));
      StartActivation(dependencies, before, state, on, late, expected);
      Activate(state, data, on, late, {});
      if expected {
        ActivationSettles(dependencies, before, data.active[..], state);
      }
    }

    /** Moves the drawn state down to the next active one. */
    method StepDown(data: WindowData)
      requires data.currentState < data.active.Length
      requires forall x: nat :: x < data.active.Length && data.active[x] ==> x <= data.currentState
      modifies data`currentState
      ensures IsGreatest(data.active[..], data.currentState) && data.currentState <= old(data.currentState)
    {
      while !data.active[data.currentState] && data.currentState != 0
        invariant data.currentState < data.active.Length
        invariant data.currentState <= old(data.currentState)
        invariant forall x: nat :: x < data.active.Length && data.active[x] ==> x <= data.currentState
        decreases data.currentState
      {
        data.currentState := data.currentState - 1;
      }
    }

    /** The recursive step. `late` are the states that may be missing, `stale` those that may be
        active in excess when the call ends. */
    method Clear(state: nat, data: WindowData, ghost late: set<nat>, ghost stale: set<nat>)
      requires Valid() && Drawn(data) && 0 < state < |dependencies|
      requires OnlyMissing(dependencies, data.active[..], late)
      requires OnlyExcess(dependencies, data.active[..], stale + {state})
      requires state in late || dependencies[state] == [] || !AllActive(data.active[..], dependencies[state])
      modifies data`currentState, data`repaints, data.active
      ensures Drawn(data) && !data.active[state] && Grown(data.active[..], old(data.active[..]))
      ensures SamePrimitives(dependencies, old(data.active[..]), data.active[..], state)
      ensures OnlyMissing(dependencies, data.active[..], late)
      ensures OnlyExcess(dependencies, data.active[..], stale)
      ensures data.currentState <= old(data.currentState) && old(data.repaints) <= data.repaints
      ensures data.currentState != old(data.currentState) ==> data.repaints > old(data.repaints)
      decreases ActiveSet(data.active[..])
    {
      if data.active[state] {
        data.active[state] := false;
        SwitchedOff(dependencies, dependents, old(data.active[..]), data.active[..], state, late, stale);

        if state == data.currentState {
          StepDown(data);
          data.repaints := data.repaints + 1;
        }

        var waiting := dependents[state];
        for i := 0 to |waiting|
          invariant Drawn(data) && Grown(data.active[..], old(data.active[..])[state := false])
          invariant SamePrimitives(dependencies, old(data.active[..]), data.active[..], state)
          invariant OnlyMissing(dependencies, data.active[..], late)
          invariant OnlyExcess(dependencies, data.active[..], stale + Elements(waiting[i..]))
          invariant data.currentState <= old(data.currentState) && old(data.repaints) <= data.repaints
          invariant data.currentState != old(data.currentState) ==> data.repaints > old(data.repaints)
        {
          var dependent := waiting[i];
          assert Valid() && dependent in dependents[state];
          assert dependent < |dependencies| && state in dependencies[dependent];
          ghost var later := stale + Elements(waiting[i + 1..]);
          assert stale + Elements(waiting[i..]) <= later + {dependent};
          FewerActive(old(data.active[..]), data.active[..], state);
          Clear(dependent, data, late, later);
        }
      }
    }

    /** Clears a state other than the base state. For a primitive on a settled window the
        outcome is the settled set of the smaller set of primitives. */
    method ClearState(state: nat, data: WindowData)
      requires Valid() && Drawn(data) && 0 < state < |dependencies|
      modifies data`currentState, data`repaints, data.active
      ensures Drawn(data) && !data.active[state] && Grown(data.active[..], old(data.active[..]))
      ensures data.currentState != old(data.currentState) ==> data.repaints > old(data.repaints)
      ensures old(Settled(dependencies, data.active[..])) && Primitive(dependencies, state) ==>
                && Settled(dependencies, data.active[..])
                && On(dependencies, data.active[..]) == old(On(dependencies, data.active[..])) - {state}
    {
      ghost var before := data.active[..];
      ghost var expected := Settled(dependencies, before) && Primitive(dependencies, state);
      ghost var any: set<nat> := if expected then {} else Elements(seq(|before|, i => i));
      StartClearing(dependencies, before, any, expected);
      assert expected || state in any by { assert state < |before| ==> seq(|before|, i => i)[state] == state; }
      Clear(state, data, any, any);
      if expected {
        ClearingSettles(dependencies, before, data.active[..], state);
      }
    }

    /** Flips a state. */
    method ToggleState(state: nat, data: WindowData)
      requires Valid() && Drawn(data) && state < |dependencies|
      requires state == 0 ==> !data.active[state]
      modifies data`currentState, data`repaints, data.active
      ensures Drawn(data) && data.active[state] == !old(data.active[state])
      ensures data.currentState != old(data.currentState) ==> data.repaints > old(data.repaints)
      ensures old(Settled(dependencies, data.active[..])) && Primitive(dependencies, state) ==>
                && Settled(dependencies, data.active[..])
                && On(dependencies, data.active[..]) == Switch(old(On(dependencies, data.active[..])), Op.Toggle(state))
    {
      if data.active[state] {
        ClearState(state, data);
      } else {
        ActivateState(state, data);
      }
    }
  }

  /** Whoever calls what in which order: after any run of calls on primitive states, the window is
      settled and has exactly those primitives on that the calls leave on. */
  method AnyRun(render: StateRender, data: WindowData, calls: seq<Op>)
    requires render.Valid() && render.Drawn(data) && Settled(render.dependencies, data.active[..])
    requires forall c :: c in calls ==> c.state < |render.dependencies| && Primitive(render.dependencies, c.state)
    requires SparesBase(On(render.dependencies, data.active[..]), calls)
    modifies data`currentState, data`repaints, data.active
    ensures render.Drawn(data) && Settled(render.dependencies, data.active[..])
    ensures On(render.dependencies, data.active[..]) == Run(old(On(render.dependencies, data.active[..])), calls)
  {
    hide Settled, On, Primitive, IsGreatest;
    assert calls[0..] == calls;
    for i := 0 to |calls|
      invariant render.Drawn(data) && Settled(render.dependencies, data.active[..])
      invariant SparesBase(On(render.dependencies, data.active[..]), calls[i..])
      invariant Run(On(render.dependencies, data.active[..]), calls[i..]) == Run(old(On(render.dependencies, data.active[..])), calls)
    {
      var call := calls[i];
      assert calls[i..][1..] == calls[i + 1..];
      OnTells(render.dependencies, data.active[..], call.state);
      match call
      case Activate(state) => render.ActivateState(state, data);
      case Clear(state) => render.ClearState(state, data);
      case Toggle(state) => render.ToggleState(state, data);
    }
  }

  lemma OnTells(deps: Graph, active: seq<bool>, x: nat)
    requires |active| == |deps| && x < |deps| && Primitive(deps, x)
    ensures x in On(deps, active) <==> active[x]
  {
  }

  /** What a new window has active after any run of calls is a function of the primitives that the
      calls leave on: what follows from them, and in an acyclic graph every state all of whose
      primitives, direct or not, are on. */
  method AnyRunFromStart(render: StateRender, calls: seq<Op>, ghost rank: nat -> nat) returns (data: WindowData)
    requires render.Valid() && render.dependencies != []
    requires forall c :: c in calls ==> c.state < |render.dependencies| && Primitive(render.dependencies, c.state)
    requires SparesBase({}, calls)
    ensures render.Drawn(data)
    ensures forall x: nat :: x < |render.dependencies| ==> (data.active[x] <==> Follows(render.dependencies, Run({}, calls), x))
    ensures Ranked(render.dependencies, rank) ==> forall x: nat :: x < |render.dependencies| ==>
              (data.active[x] <==> forall p: nat :: IsRoot(render.dependencies, rank, x, p) ==> p in Run({}, calls))
  {
    hide IsRoot;
    data := new WindowData(|render.dependencies|);
    NothingActiveIsSettled(render.dependencies, data.active[..]);
    AnyRun(render, data, calls);
    ghost var on := Run({}, calls);
    assert forall x: nat :: x < |render.dependencies| ==> (data.active[..][x] <==> Follows(render.dependencies, on, x));
    if Ranked(render.dependencies, rank) {
      forall x: nat | x < |render.dependencies|
        ensures data.active[x] <==> forall p: nat :: IsRoot(render.dependencies, rank, x, p) ==> p in on
      {
        FollowsIffRootsOn(render.dependencies, rank, on, x);
      }
    }
  }
}
