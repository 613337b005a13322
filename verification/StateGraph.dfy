/** The meaning of a state dependency graph (nShared/StateRender.hpp), independent of the order
    in which states are switched on and off. State 0 is the base state; `deps[x]` lists the
    states that `x` depends on. A state without dependencies is primitive. */
module StateGraph {

  type Graph = seq<seq<nat>>

  /** Every dependency is a state, and the base state depends on nothing. */
  ghost predicate WellFormed(deps: Graph) {
    && |deps| > 0 && deps[0] == []
    && forall x, d :: 0 <= x < |deps| && d in deps[x] ==> d < |deps|
  }

  ghost predicate Primitive(deps: Graph, x: nat) {
    x < |deps| && deps[x] == []
  }

  ghost predicate AllActive(active: seq<bool>, states: seq<nat>) {
    forall d :: d in states ==> d < |active| && active[d]
  }

  /** `x` should be active and is not. */
  ghost predicate Missing(deps: Graph, active: seq<bool>, x: nat) {
    x < |deps| == |active| && !active[x] && deps[x] != [] && AllActive(active, deps[x])
  }

  /** `x` is active and should not be. */
  ghost predicate Excess(deps: Graph, active: seq<bool>, x: nat) {
    x < |deps| == |active| && active[x] && deps[x] != [] && !AllActive(active, deps[x])
  }

  /** The states that are switched on by hand: the active primitives. */
  ghost function On(deps: Graph, active: seq<bool>): set<nat> {
    set x: nat | x < |active| && Primitive(deps, x) && active[x]
  }

  /** `x` follows from the states in `on` by a derivation of height at most `k`. */
  ghost predicate Derivable(deps: Graph, on: set<nat>, x: nat, k: nat)
    decreases k
  {
    x in on || (k > 0 && x < |deps| && deps[x] != [] && forall d :: d in deps[x] ==> Derivable(deps, on, d, k - 1))
  }

  ghost predicate Follows(deps: Graph, on: set<nat>, x: nat) {
    exists k: nat :: Derivable(deps, on, x, k)
  }

  /** The active states are exactly those that follow from the active primitives. */
  ghost predicate Settled(deps: Graph, active: seq<bool>) {
    |active| == |deps| && forall x: nat :: x < |deps| ==> (active[x] <==> Follows(deps, On(deps, active), x))
  }

  /** `top` is the greatest active state, or the base state when none is active. */
  ghost predicate IsGreatest(active: seq<bool>, top: nat) {
    && top < |active| && (top != 0 ==> active[top])
    && forall x: nat :: x < |active| && active[x] ==> x <= top
  }

  // ----- Derivations

  lemma {:induction false} DerivableMonotone(deps: Graph, on: set<nat>, x: nat, j: nat, k: nat)
    requires Derivable(deps, on, x, j) && j <= k
    ensures Derivable(deps, on, x, k)
    decreases j
  {
    if x !in on {
      forall d | d in deps[x] ensures Derivable(deps, on, d, k - 1) {
        DerivableMonotone(deps, on, d, j - 1, k - 1);
      }
    }
  }

  lemma {:induction false} DerivableFromMore(deps: Graph, on: set<nat>, more: set<nat>, x: nat, k: nat)
    requires Derivable(deps, on, x, k) && on <= more
    ensures Derivable(deps, more, x, k)
    decreases k
  {
    if x !in on {
      forall d | d in deps[x] ensures Derivable(deps, more, d, k - 1) {
        DerivableFromMore(deps, on, more, d, k - 1);
      }
    }
  }

  /** Finitely many derivations fit under one height. */
  lemma {:induction false} CommonHeight(deps: Graph, on: set<nat>, states: seq<nat>) returns (k: nat)
    requires forall d :: d in states ==> Follows(deps, on, d)
    ensures forall d :: d in states ==> Derivable(deps, on, d, k)
  {
    if states == [] {
      k := 0;
    } else {
      var rest := CommonHeight(deps, on, states[1..]);
      assert states[0] in states;
      var first: nat :| Derivable(deps, on, states[0], first);
      k := if rest < first then first else rest;
      forall d | d in states ensures Derivable(deps, on, d, k) {
        if d == states[0] {
          DerivableMonotone(deps, on, d, first, k);
        } else {
          assert d in states[1..];
          DerivableMonotone(deps, on, d, rest, k);
        }
      }
    }
  }

  lemma FollowsFromDeps(deps: Graph, on: set<nat>, x: nat)
    requires x < |deps| && deps[x] != []
    requires forall d :: d in deps[x] ==> Follows(deps, on, d)
    ensures Follows(deps, on, x)
  {
    var k := CommonHeight(deps, on, deps[x]);
    assert Derivable(deps, on, x, k + 1);
  }

  /** Where nothing is missing, whatever follows is active. */
  lemma {:induction false} DerivedIsActive(deps: Graph, active: seq<bool>, x: nat, k: nat)
    requires WellFormed(deps) && |active| == |deps| && x < |deps|
    requires forall y: nat :: !Missing(deps, active, y)
    requires Derivable(deps, On(deps, active), x, k)
    ensures active[x]
    decreases k
  {
    if x !in On(deps, active) {
      forall d | d in deps[x] ensures active[d] {
        DerivedIsActive(deps, active, d, k - 1);
      }
      assert !Missing(deps, active, x);
    }
  }

  /** Nothing missing and every active state derived: settled. */
  lemma SettledByDerivation(deps: Graph, active: seq<bool>)
    requires WellFormed(deps) && |active| == |deps|
    requires forall y: nat :: !Missing(deps, active, y)
    requires forall x: nat :: x < |deps| && active[x] ==> Follows(deps, On(deps, active), x)
    ensures Settled(deps, active)
  {
    forall x: nat | x < |deps| && Follows(deps, On(deps, active), x) ensures active[x] {
      var k: nat :| Derivable(deps, On(deps, active), x, k);
      DerivedIsActive(deps, active, x, k);
    }
  }

  /** A settled state misses nothing and holds nothing in excess. */
  lemma SettledIsConsistent(deps: Graph, active: seq<bool>)
    requires WellFormed(deps) && Settled(deps, active)
    ensures forall x: nat :: !Missing(deps, active, x) && !Excess(deps, active, x)
  {
    var on := On(deps, active);
    forall x: nat ensures !Missing(deps, active, x) && !Excess(deps, active, x) {
      if Missing(deps, active, x) {
        FollowsFromDeps(deps, on, x);
      } else if Excess(deps, active, x) {
        var k: nat :| Derivable(deps, on, x, k);
        forall d | d in deps[x] ensures d < |active| && active[d] {
          assert Derivable(deps, on, d, k - 1);
        }
      }
    }
  }

  /** What stays active after switching primitives off still has its old derivation. */
  lemma {:induction false} DerivationSurvives(deps: Graph, before: seq<bool>, after: seq<bool>, x: nat, k: nat)
    requires WellFormed(deps) && |before| == |after| == |deps| && x < |deps|
    requires forall y: nat :: !Excess(deps, after, y)
    requires Derivable(deps, On(deps, before), x, k) && after[x]
    ensures Derivable(deps, On(deps, after), x, k)
    decreases k
  {
    if x !in On(deps, before) {
      assert !Excess(deps, after, x);
      forall d | d in deps[x] ensures Derivable(deps, On(deps, after), d, k - 1) {
        DerivationSurvives(deps, before, after, d, k - 1);
      }
    }
  }

  /** A fresh window, with nothing active, is settled. */
  lemma NothingActiveIsSettled(deps: Graph, active: seq<bool>)
    requires WellFormed(deps) && |active| == |deps|
    requires forall x: nat :: x < |active| ==> !active[x]
    ensures Settled(deps, active) && On(deps, active) == {} && IsGreatest(active, 0)
  {
    forall x: nat ensures !Missing(deps, active, x) {
      if x < |deps| && deps[x] != [] {
        assert deps[x][0] in deps[x];
      }
    }
    SettledByDerivation(deps, active);
  }

  // ----- Order of calls does not matter

  /** The active set and the drawn state are functions of the active primitives alone. */
  lemma HistoryIndependence(deps: Graph, a: seq<bool>, topA: nat, b: seq<bool>, topB: nat)
    requires Settled(deps, a) && IsGreatest(a, topA)
    requires Settled(deps, b) && IsGreatest(b, topB)
    requires On(deps, a) == On(deps, b)
    ensures a == b && topA == topB
  {
    forall x: nat | x < |deps| ensures a[x] == b[x] {
      assert a[x] <==> Follows(deps, On(deps, a), x);
      assert b[x] <==> Follows(deps, On(deps, b), x);
    }
    assert topA == 0 || b[topA];
    assert topB == 0 || a[topB];
  }

  datatype Op = Activate(state: nat) | Clear(state: nat) | Toggle(state: nat)

  function Switch(on: set<nat>, op: Op): set<nat> {
    match op
    case Activate(s) => on + {s}
    case Clear(s) => on - {s}
    case Toggle(s) => if s in on then on - {s} else on + {s}
  }

  /** The primitives left on by a run of calls. */
  function Run(on: set<nat>, ops: seq<Op>): set<nat>
    decreases |ops|
  {
    if ops == [] then on else Run(Switch(on, ops[0]), ops[1..])
  }

  /** What a run may ask of the base state: it is activated, or toggled while it is off, but never
      cleared. */
  predicate SparesBase(on: set<nat>, ops: seq<Op>)
    decreases |ops|
  {
    ops != [] ==>
      && (ops[0].state == 0 ==> ops[0].Activate? || (ops[0].Toggle? && 0 !in on))
      && SparesBase(Switch(on, ops[0]), ops[1..])
  }

  function CallsOn(ops: seq<Op>, p: nat): seq<Op> {
    if ops == [] then []
    else (if ops[0].state == p then [ops[0]] else []) + CallsOn(ops[1..], p)
  }

  /** Whether `p` ends up on depends only on the calls made for `p`. */
  lemma {:induction false} OnlyOwnCallsMatter(on: set<nat>, ops: seq<Op>, p: nat)
    ensures p in Run(on, ops) <==> p in Run(on * {p}, CallsOn(ops, p))
    decreases |ops|
  {
    if ops != [] {
      var op := ops[0];
      OnlyOwnCallsMatter(Switch(on, op), ops[1..], p);
      if op.state == p {
        assert CallsOn(ops, p) == [op] + CallsOn(ops[1..], p);
        assert Switch(on, op) * {p} == Switch(on * {p}, op);
      } else {
        assert CallsOn(ops, p) == CallsOn(ops[1..], p);
        assert Switch(on, op) * {p} == on * {p};
      }
    }
  }

  /** Two runs that make the same calls on each primitive, interleaved differently, leave the
      same primitives on; by `HistoryIndependence` they leave the same states active. */
  lemma InterleavingDoesNotMatter(on: set<nat>, a: seq<Op>, b: seq<Op>)
    requires forall p: nat :: CallsOn(a, p) == CallsOn(b, p)
    ensures Run(on, a) == Run(on, b)
  {
    forall p: nat ensures p in Run(on, a) <==> p in Run(on, b) {
      OnlyOwnCallsMatter(on, a, p);
      OnlyOwnCallsMatter(on, b, p);
    }
  }

  // ----- Acyclic graphs

  ghost predicate Ranked(deps: Graph, rank: nat -> nat) {
    forall x, d :: 0 <= x < |deps| && d in deps[x] ==> rank(d) < rank(x)
  }

  /** `p` is a primitive that `x` depends on, directly or not. */
  ghost predicate IsRoot(deps: Graph, rank: nat -> nat, x: nat, p: nat)
    requires WellFormed(deps) && Ranked(deps, rank) && x < |deps|
    decreases rank(x)
  {
    if deps[x] == [] then p == x
    else exists d :: d in deps[x] && IsRoot(deps, rank, d, p)
  }

  /** In an acyclic graph a state follows exactly when every primitive below it is on. */
  lemma {:induction false} FollowsIffRootsOn(deps: Graph, rank: nat -> nat, on: set<nat>, x: nat)
    requires WellFormed(deps) && Ranked(deps, rank) && x < |deps|
    requires forall p :: p in on ==> Primitive(deps, p)
    ensures Follows(deps, on, x) <==> forall p: nat :: IsRoot(deps, rank, x, p) ==> p in on
    decreases rank(x)
  {
    if deps[x] == [] {
      assert IsRoot(deps, rank, x, x);
      if x in on {
        assert Derivable(deps, on, x, 0);
      }
    } else {
      forall d | d in deps[x]
        ensures Follows(deps, on, d) <==> forall p: nat :: IsRoot(deps, rank, d, p) ==> p in on
      {
        FollowsIffRootsOn(deps, rank, on, d);
      }
      if Follows(deps, on, x) {
        var k: nat :| Derivable(deps, on, x, k);
        forall p: nat | IsRoot(deps, rank, x, p) ensures p in on {
          var d :| d in deps[x] && IsRoot(deps, rank, d, p);
          assert Derivable(deps, on, d, k - 1);
        }
      }
      if forall p: nat :: IsRoot(deps, rank, x, p) ==> p in on {
        forall d | d in deps[x] ensures Follows(deps, on, d) {
          forall p: nat | IsRoot(deps, rank, d, p) ensures p in on {
            assert IsRoot(deps, rank, x, p);
          }
        }
        FollowsFromDeps(deps, on, x);
      }
    }
  }
}
