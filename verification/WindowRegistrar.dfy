/** Windows that name their parent: a child waits while its parent is absent, is adopted when the
    parent registers, and is orphaned again when the parent goes (nCore/WindowRegistrar.cpp,
    nShared/Window.cpp). */
module WindowRegistrar {
  import opened Text

  ghost predicate Distinct(s: seq<Window>) {
    forall i, j :: 0 <= i < j < |s| ==> s[i] != s[j]
  }

  /** What removing a window from a list leaves. */
  function Without(s: seq<Window>, w: Window): (r: seq<Window>)
    ensures w !in s ==> r == s
  {
    if s == [] then []
    else if s[0] == w then Without(s[1..], w)
    else [s[0]] + Without(s[1..], w)
  }

  lemma {:induction false} WithoutMembers(s: seq<Window>, w: Window)
    ensures forall x :: x in Without(s, w) ==> x in s && x != w
    ensures forall x :: x in s && x != w ==> x in Without(s, w)
    ensures Distinct(s) ==> Distinct(Without(s, w))
  {
    if s != [] {
      WithoutMembers(s[1..], w);
      assert forall x :: x in s <==> x == s[0] || x in s[1..];
      if Distinct(s) {
        assert forall i, j :: 0 <= i < j < |s[1..]| ==> s[1..][i] == s[i + 1] && s[1..][j] == s[j + 1];
        assert s[0] !in s[1..];
        DistinctCons(s[0], Without(s[1..], w));
      }
    }
  }

  /** The order of the others stays as it was. */
  lemma {:induction false} WithoutInOrder(a: seq<Window>, b: seq<Window>, w: Window)
    requires w !in a && w !in b
    ensures Without(a + [w] + b, w) == a + b
  {
    var s := a + [w] + b;
    if a == [] {
      assert s[1..] == b && a + b == b;
    } else {
      assert s[1..] == a[1..] + [w] + b;
      WithoutInOrder(a[1..], b, w);
    }
  }

  lemma EmptyDistinct()
    ensures Distinct([])
  {
  }

  lemma DistinctCons(x: Window, s: seq<Window>)
    requires x !in s && Distinct(s)
    ensures Distinct([x] + s)
  {
  }

  lemma DistinctSnoc(s: seq<Window>, x: Window)
    requires x !in s && Distinct(s)
    ensures Distinct(s + [x])
  {
  }

  /** The windows among `s` that name `n` as their parent. */
  ghost function Naming(s: seq<Window>, n: string): (r: seq<Window>) {
    if s == [] then []
    else
      var before := Naming(s[..|s| - 1], n);
      var last := s[|s| - 1];
      if last.parentName != "" && Lower(last.parentName) == n then before + [last] else before
  }

  function Waiting(listeners: map<string, seq<Window>>, n: string): seq<Window> {
    if n in listeners then listeners[n] else []
  }

  /** Every orphan that names a parent, except those in `but`, waits for it: it is listed once
      under that name and nowhere else. A window with a parent is not listed at all. */
  ghost predicate Lists(orphans: set<Window>, listeners: map<string, seq<Window>>, but: set<Window>) {
    && (forall n, w :: w in Waiting(listeners, n) ==> w in orphans && w !in but && w.parentName != "" && Lower(w.parentName) == n)
    && (forall w :: w in orphans && w !in but && w.parentName != "" ==> w in Waiting(listeners, Lower(w.parentName)))
    && (forall n :: Distinct(Waiting(listeners, n)))
  }

  ghost predicate OwnNames(registered: map<string, Window>, bearers: set<Window>) {
    forall n :: n in registered ==> registered[n] in bearers && Lower(registered[n].prefix) == n
  }

  lemma OwnNamesAfterAdding(registered: map<string, Window>, bearers: set<Window>, n: string, w: Window)
    requires OwnNames(registered, bearers) && w in bearers && Lower(w.prefix) == n
    ensures OwnNames(registered[n := w], bearers)
  {
  }

  ghost predicate NobodyWaits(names: set<string>, listeners: map<string, seq<Window>>) {
    forall n :: n in names ==> Waiting(listeners, n) == []
  }

  lemma NobodyWaitsAfterAdoption(names: set<string>, listeners: map<string, seq<Window>>, n: string)
    requires NobodyWaits(names, listeners)
    ensures NobodyWaits(names + {n}, listeners[n := []])
  {
    AfterUpdate(listeners, n, [], listeners[n := []]);
  }

  lemma ListsAfterAdding(orphans: set<Window>, listeners: map<string, seq<Window>>, w: Window)
    requires Lists(orphans, listeners, {w}) && w in orphans && w.parentName != ""
    ensures var n := Lower(w.parentName);
            Lists(orphans, listeners[n := Waiting(listeners, n) + [w]], {})
  {
    hide Distinct;
    var n := Lower(w.parentName);
    DistinctSnoc(Waiting(listeners, n), w);
    var after := listeners[n := Waiting(listeners, n) + [w]];
    AfterUpdate(listeners, n, Waiting(listeners, n) + [w], after);
    assert forall m, x :: x in Waiting(after, m) ==> x in Waiting(listeners, m) || (m == n && x == w);
    assert forall m :: Distinct(Waiting(after, m));
  }

  lemma AfterUpdate(listeners: map<string, seq<Window>>, n: string, s: seq<Window>, after: map<string, seq<Window>>)
    requires after == listeners[n := s]
    ensures Waiting(after, n) == s
    ensures forall m :: m != n ==> Waiting(after, m) == Waiting(listeners, m)
  {
  }

  lemma ListsAfterRemoving(orphans: set<Window>, listeners: map<string, seq<Window>>, w: Window)
    requires Lists(orphans, listeners, {})
    ensures var n := Lower(w.parentName);
            Lists(orphans - {w}, listeners[n := Without(Waiting(listeners, n), w)], {})
  {
    hide Distinct;
    var n := Lower(w.parentName);
    WithoutMembers(Waiting(listeners, n), w);
    var after := listeners[n := Without(Waiting(listeners, n), w)];
    AfterUpdate(listeners, n, Without(Waiting(listeners, n), w), after);
    OnlyOrphansAreListed(orphans, listeners, w);
    assert forall m, x :: x in Waiting(after, m) ==> x in Waiting(listeners, m) && x != w;
    assert forall m :: Distinct(Waiting(after, m));
  }

  lemma ListsWithout(orphans: set<Window>, listeners: map<string, seq<Window>>, w: Window)
    requires Lists(orphans, listeners, {}) && w.parentName == ""
    ensures Lists(orphans - {w}, listeners, {})
  {
    hide Distinct;
    assert forall n :: w !in Waiting(listeners, n);
  }

  lemma OnlyOrphansAreListed(orphans: set<Window>, listeners: map<string, seq<Window>>, w: Window)
    requires Lists(orphans, listeners, {})
    ensures forall n :: w in Waiting(listeners, n) ==> w in orphans && w.parentName != "" && n == Lower(w.parentName)
  {
    hide Distinct;
  }

  lemma ListsAfterAdoption(orphans: set<Window>, listeners: map<string, seq<Window>>, n: string)
    requires Lists(orphans, listeners, {})
    ensures Lists(orphans - Members(Waiting(listeners, n)), listeners[n := []], {})
  {
    hide Distinct;
    EmptyDistinct();
    var after := listeners[n := []];
    AfterUpdate(listeners, n, [], after);
    var fewer := orphans - Members(Waiting(listeners, n));
    forall m
      ensures Distinct(Waiting(after, m))
    {
      assert m != n ==> Waiting(after, m) == Waiting(listeners, m);
    }
    forall m, x | x in Waiting(after, m)
      ensures x in fewer && x.parentName != "" && Lower(x.parentName) == m
    {
      assert m != n && x in Waiting(listeners, m);
      assert Lower(x.parentName) == m;
      assert x !in Waiting(listeners, n);
    }
    forall x | x in fewer && x.parentName != ""
      ensures x in Waiting(after, Lower(x.parentName))
    {
      assert x in Waiting(listeners, Lower(x.parentName));
    }
  }

  lemma ListsAfterNaming(orphans: set<Window>, listeners: map<string, seq<Window>>, w: Window)
    requires Lists(orphans, listeners, {}) && w !in orphans
    ensures Lists(orphans + {w}, listeners, {w})
    ensures Lists(orphans, listeners, {w})
    ensures w.parentName == "" ==> Lists(orphans + {w}, listeners, {})
  {
    hide Distinct;
  }

  /** The core's registry of windows by name, and the windows waiting for a name. */
  class Registrar {
    var registered: map<string, Window>
    var listeners: map<string, seq<Window>>
    // All windows that exist.
    ghost var live: set<Window>
    // How deep a window lies; parents lie less deep than their children.
    ghost var rank: Window -> nat

    constructor ()
      ensures Valid() && Found() && live == {} && registered == map[] && listeners == map[]
    {
      registered, listeners, live, rank := map[], map[], {}, w => 0;
    }

    // ----- What holds between any two calls

    /** A window is among the children of its parent, deeper than it. */
    ghost predicate Up(w: Window)
      reads this`live, this`rank, live`parent, live`children
      requires w in live
    {
      w.parent in live ==> w in w.parent.children && rank(w.parent) < rank(w) && w.isChild
    }

    ghost predicate Down(w: Window)
      reads this`live, live`parent, live`children
      requires w in live
    {
      Distinct(w.children) && forall c :: c in w.children ==> c in live && c.parent == w
    }

    /** A window that names its parent is linked to one that registered under that name. */
    ghost predicate ByName(w: Window)
      reads this`live, live`parent, live`registerWithCore
      requires w in live
    {
      w.parent in live && w.parentName != "" ==> Lower(w.parent.prefix) == Lower(w.parentName) && w.parent.registerWithCore
    }

    /** A window draws to the handle of its parent; an orphan has none. */
    ghost predicate Handle(w: Window)
      reads this`live, live`parent, live`handle
      requires w in live
    {
      if w.parent == null then w.handle == w.own else w.parent in live ==> w.handle == w.parent.handle
    }

    ghost predicate Made(w: Window) {
      && (w.isChild ==> w.own == None)
      && (w.parentName != "" ==> w.isChild)
    }

    /** Parents and children are linked both ways. */
    ghost predicate Linked()
      reads this`live, this`rank, live`parent, live`children, live`handle, live`registerWithCore
    {
      && (forall w :: w in live ==> Up(w))
      && (forall w :: w in live ==> Down(w))
      && (forall w :: w in live ==> ByName(w))
      && (forall w :: w in live ==> Handle(w))
      && (forall w :: w in live ==> Made(w))
    }

    lemma TogetherLinked()
      requires forall w :: w in live ==> Up(w) && Down(w) && ByName(w) && Made(w)
      requires forall w :: w in live ==> Handle(w)
      ensures Linked()
    {
      hide Up, Down, ByName, Made, Handle;
    }

    /** No window has a parent that is gone. */
    ghost predicate Alive()
      reads this`live, live`parent
    {
      forall w :: w in live ==> w.parent == null || w.parent in live
    }

    ghost function Orphans(): set<Window>
      reads this`live, live`parent
    {
      set w | w in live && w.parent == null
    }

    /** Only living windows are registered, each under its own name. */
    ghost predicate Registry()
      reads this`live, this`registered, live`registerWithCore
    {
      OwnNames(registered, Bearers())
    }

    ghost function Bearers(): set<Window>
      reads this`live, live`registerWithCore
    {
      set w | w in live && w.registerWithCore
    }

    /** No window waits for a name that is registered. */
    ghost predicate NobodyMissed()
      reads this`registered, this`listeners
    {
      NobodyWaits(registered.Keys, listeners)
    }

    ghost predicate Valid()
      reads this`live, this`rank, this`registered, this`listeners, live`parent, live`children, live`handle, live`registerWithCore
    {
      Linked() && Alive() && Lists(Orphans(), listeners, {}) && Registry() && NobodyMissed()
    }

    /** Every living window that registers is what its name finds. */
    ghost predicate Found()
      reads this`live, this`registered, live`registerWithCore
    {
      forall w :: w in live && w.registerWithCore ==> Lower(w.prefix) in registered && registered[Lower(w.prefix)] == w
    }

    /** A window and all windows above it. */
    ghost function Above(w: Window): set<Window>
      requires w in live && forall x :: x in live ==> Up(x)
      reads this`live, this`rank, live`parent, live`children
      decreases rank(w)
    {
      assert Up(w);
      {w} + if w.parent in live then Above(w.parent) else {}
    }

    lemma {:induction false} AboveIsClosed(w: Window)
      requires w in live && forall x :: x in live ==> Up(x)
      ensures w in Above(w) && Above(w) <= live
      ensures forall x :: x in Above(w) ==> rank(x) <= rank(w) && (x.parent in live ==> x.parent in Above(w))
      decreases rank(w)
    {
      assert Up(w);
      if w.parent in live {
        AboveIsClosed(w.parent);
      }
    }

    /** No window is above its own parent. */
    lemma NoCircles(w: Window)
      requires Valid() && w in live && w.parent != null
      ensures w.parent in live && w !in Above(w.parent)
    {
      hide Lists, Distinct;
      assert Up(w);
      AboveIsClosed(w.parent);
    }

    /** Puts a window to which nothing is linked at some depth. */
    ghost method Place(w: Window, depth: nat)
      requires Linked() && (w in live ==> w.parent == null) && forall x :: x in live ==> x.parent != w
      modifies this`rank
      ensures Linked() && rank(w) == depth && forall x :: x in live && x != w ==> rank(x) == old(rank(x))
    {
      hide Distinct, Made;
      ghost var before := rank;
      rank := x => if x == w then depth else before(x);
      forall x | x in live
        ensures Up(x)
      {
        assert old(Up(x));
      }
    }

    /** Puts everything that is not above `w` deeper than `w`. */
    ghost method Sink(w: Window)
      requires Linked() && w in live
      modifies this`rank
      ensures Linked() && forall x :: x in live && x !in old(Above(w)) ==> rank(w) < rank(x)
    {
      hide Distinct, Made;
      AboveIsClosed(w);
      ghost var before, above := rank, Above(w);
      rank := x => if x in above then before(x) else before(x) + before(w) + 1;
      forall x | x in live
        ensures Up(x)
      {
        assert old(Up(x));
      }
    }

    ghost method Admit(w: Window)
      requires Alive() && Registry()
      requires w !in live && !w.registerWithCore && (w.parent == null || w.parent in live)
      modifies this`live
      ensures live == old(live) + {w} && Alive() && Registry() && (old(Found()) ==> Found())
      ensures Orphans() == old(Orphans()) + if w.parent == null then {w} else {}
      ensures forall x :: x in old(live) ==> x.parent != w
    {
      live := live + {w};
    }

    /** A window that nobody refers to any more, but its children, is gone. */
    ghost method Dismiss(w: Window)
      requires w in live && Alive() && Lists(Orphans() - {w}, listeners, {}) && Registry()
      requires forall x :: x in live && x != w ==> Up(x) && Down(x) && ByName(x) && Handle(x) && Made(x)
      requires forall x :: x in live && x != w ==> w !in x.children
      requires forall n :: n in registered ==> registered[n] != w
      modifies this`live
      ensures live == old(live) - {w}
      ensures Linked() && Registry() && Lists(Orphans(), listeners, {})
      ensures forall x :: x in live ==> x.parent == null || x.parent in live || x.parent == w
    {
      hide Distinct, Lists, Made;
      live := live - {w};
      assert Orphans() == old(Orphans()) - {w};
      forall x | x in live
        ensures Up(x) && Down(x)
      {
        assert old(Up(x)) && old(Down(x));
      }
      forall x | x in live
        ensures ByName(x) && Handle(x)
      {
        assert old(ByName(x)) && old(Handle(x));
      }
    }

    /** A new window comes into being, linked to nothing yet. */
    ghost method Enter(w: Window)
      requires Valid()
      requires w !in live && w.parent == null && w.children == [] && w.handle == w.own && Made(w)
      requires !w.registerWithCore
      modifies this`live
      ensures live == old(live) + {w} && Orphans() == old(Orphans()) + {w}
      ensures Linked() && Alive() && Registry() && NobodyMissed() && (old(Found()) ==> Found())
    {
      hide Distinct, Made, Lists, Alive, Registry, Found;
      Admit(w);
      EmptyDistinct();
      forall x | x in live && x != w
        ensures Up(x) && Down(x)
      {
        assert old(Up(x)) && old(Down(x));
      }
      forall x | x in live && x != w
        ensures ByName(x) && Handle(x)
      {
        assert old(ByName(x)) && old(Handle(x));
      }
    }

    lemma WaitingFor(n: string)
      requires Linked() && Lists(Orphans(), listeners, {})
      ensures Distinct(Waiting(listeners, n))
      ensures forall x :: x in Waiting(listeners, n) ==>
                x in live && x.parent == null && x.parentName != "" && Lower(x.parentName) == n && x.isChild
    {
      hide Distinct;
      assert forall x :: x in Waiting(listeners, n) ==> x in Orphans();
      assert forall x :: x in Waiting(listeners, n) ==> Made(x);
    }

    lemma RegisteredIsParent(n: string)
      requires Registry() && NobodyMissed() && n in registered
      ensures var w := registered[n];
              w in live && Lower(w.prefix) == n && w.registerWithCore && Waiting(listeners, n) == []
    {
    }

    // ----- Operations

    method FindRegisteredWindow(name: string) returns (r: Window?)
      ensures r == if Lower(name) in registered then registered[Lower(name)] else null
    {
      r := if Lower(name) in registered then registered[Lower(name)] else null;
    }

    method AddWindowRegistrationListener(name: string, listener: Window)
      modifies this`listeners
      ensures var n := Lower(name); listeners == old(listeners)[n := Waiting(old(listeners), n) + [listener]]
      ensures old(NobodyMissed()) && Lower(name) !in registered ==> NobodyMissed()
    {
      listeners := listeners[Lower(name) := Waiting(listeners, Lower(name)) + [listener]];
    }

    method RemoveWindowRegistrationListener(name: string, listener: Window)
      modifies this`listeners
      ensures var n := Lower(name); listeners == old(listeners)[n := Without(Waiting(old(listeners), n), listener)]
    {
      listeners := listeners[Lower(name) := Without(Waiting(listeners, Lower(name)), listener)];
    }

    method UnRegisterWindow(name: string)
      modifies this`registered
      ensures registered == old(registered) - {Lower(name)}
    {
      registered := registered - {Lower(name)};
    }

    method AdoptAll(adopted: seq<Window>, window: Window)
      requires Linked() && Alive() && window in live && Distinct(adopted)
      requires forall x :: x in adopted ==> x in live && x.parent == null && x.isChild && rank(window) < rank(x)
      requires forall x :: x in adopted && x.parentName != "" ==> Lower(x.parentName) == Lower(window.prefix) && window.registerWithCore
      modifies live`parent, live`children, live`handle
      ensures Linked() && Alive()
      ensures window.children == old(window.children) + adopted
      ensures forall x :: x in live && x != window ==> x.children == old(x.children)
      ensures forall x :: x in live ==> x.parent == if x in adopted then window else old(x.parent)
      ensures Orphans() == old(Orphans()) - Members(adopted)
    {
      hide Distinct, Linked, Alive;
      var i := 0;
      while i < |adopted|
        invariant 0 <= i <= |adopted| && Linked() && Alive()
        invariant window.children == old(window.children) + adopted[..i]
        invariant forall x :: x in live && x != window ==> x.children == old(x.children)
        invariant forall x :: x in live ==> x.parent == if x in adopted[..i] then window else old(x.parent)
      {
        var listener := adopted[i];
        NotAmongFirst(adopted, i);
        listener.SetParent(this, window);
        assert adopted[..i + 1] == adopted[..i] + [listener];
        i := i + 1;
      }
      assert adopted[..i] == adopted;
    }

    /** Everybody who waits for the name is adopted, in the order of their waiting. Nobody may wait
        for the name who is above the new window: that would close a circle. */
    method RegisterWindow(name: string, window: Window)
      requires Valid() && window in live
      requires Lower(name) == Lower(window.prefix) && window.registerWithCore
      requires forall x :: x in Waiting(listeners, Lower(name)) ==> x !in Above(window)
      modifies this`registered, this`listeners, this`rank, live`parent, live`children, live`handle
      ensures Valid()
      ensures registered == old(registered)[Lower(name) := window]
      ensures listeners == old(listeners)[Lower(name) := []]
      ensures window.children == old(window.children) + Waiting(old(listeners), Lower(name))
      ensures forall x :: x in live && x != window ==> x.children == old(x.children)
      ensures forall x :: x in live ==> x.parent == if x in Waiting(old(listeners), Lower(name)) then window else old(x.parent)
    {
      hide Distinct, Linked, Alive, Lists, Above, Members, Orphans, Waiting, NobodyWaits, OwnNames;
      var n := Lower(name);
      var adopted := Waiting(listeners, n);
      WaitingFor(n);
      ListsAfterAdoption(Orphans(), listeners, n);
      OwnNamesAfterAdding(registered, Bearers(), n, window);
      Sink(window);
      registered := registered[n := window];
      AdoptAll(adopted, window);
      listeners := listeners[n := []];
      NobodyWaitsAfterAdoption(old(registered.Keys), old(listeners), n);
      assert registered.Keys == old(registered.Keys) + {n};
    }
  }

  lemma NotAmongFirst(s: seq<Window>, i: nat)
    requires Distinct(s) && i < |s|
    ensures s[i] !in s[..i]
  {
  }

  class Window {
    const prefix: string
    const parentName: string
    const isChild: bool
    // The handle of a top-level window.
    const own: Option<int>
    var parent: Window?
    var children: seq<Window>
    var handle: Option<int>
    var registerWithCore: bool
    var initialized: bool

    /** A top-level window. */
    constructor TopLevel(prefix: string, own: int, core: Registrar)
      requires core.Valid()
      modifies core`live
      ensures core.Valid() && core.live == old(core.live) + {this} && (old(core.Found()) ==> core.Found())
      ensures parent == null && children == [] && handle == Some(own)
      ensures this.prefix == prefix && !registerWithCore && !initialized
    {
      this.prefix, parentName, isChild, this.own := prefix, "", false, Some(own);
      parent, children, handle, registerWithCore, initialized := null, [], Some(own), false, false;
      new;
      hide Distinct, Lists, Registrar.Found;
      ListsAfterNaming(core.Orphans(), core.listeners, this);
      core.Enter(this);
    }

    /** A window with a named parent: linked to it if it is there, else waiting for it. */
    constructor Named(prefix: string, parentName: string, core: Registrar)
      requires core.Valid() && parentName != ""
      modifies core`live, core`listeners, core`rank, core.live`children
      ensures core.Valid() && core.live == old(core.live) + {this} && (old(core.Found()) ==> core.Found())
      ensures this.prefix == prefix && this.parentName == parentName && children == [] && !registerWithCore && !initialized
      ensures parent == (var n := Lower(parentName); if n in core.registered then core.registered[n] else null)
      ensures forall x :: x in old(core.live) ==> x.children == old(x.children) + (if x == parent then [this] else [])
      ensures var n := Lower(parentName);
              core.listeners == if n in core.registered then old(core.listeners)
                                else old(core.listeners)[n := Waiting(old(core.listeners), n) + [this]]
    {
      this.prefix, this.parentName, isChild, own := prefix, parentName, true, None;
      parent, children, handle, registerWithCore, initialized := null, [], None, false, false;
      new;
      hide Distinct, Waiting, Lists;
      hide Registrar.Registry, Registrar.Linked, Registrar.Alive, Registrar.NobodyMissed, Registrar.Found;
      ListsAfterNaming(core.Orphans(), core.listeners, this);
      core.Enter(this);
      assert core.Orphans() - {this} == old(core.Orphans());
      JoinParent(core);
    }

    /** Looks for the parent that this window names. */
    method JoinParent(core: Registrar)
      requires core.Linked() && core.Alive() && core.Registry() && core.NobodyMissed()
      requires Lists(core.Orphans(), core.listeners, {this}) && Lists(core.Orphans() - {this}, core.listeners, {})
      requires this in core.live && parent == null && children == [] && parentName != "" && isChild && !registerWithCore
      requires forall x :: x in core.live ==> x.parent != this
      modifies this`parent, this`handle, core`listeners, core`rank, core.live`children
      ensures core.Valid()
      ensures parent == (var n := Lower(parentName); if n in core.registered then core.registered[n] else null)
      ensures parent != this
      ensures forall x :: x in core.live ==> x.children == old(x.children) + (if x == parent then [this] else [])
      ensures var n := Lower(parentName);
              core.listeners == if n in core.registered then old(core.listeners)
                                else old(core.listeners)[n := Waiting(old(core.listeners), n) + [this]]
    {
      hide Distinct, Waiting, Lists;
      hide Registrar.Registry, Registrar.Linked, Registrar.Alive, Registrar.Up, Registrar.Down, Registrar.ByName, Registrar.Handle;
      var found := core.FindRegisteredWindow(parentName);
      if found != null {
        core.RegisteredIsParent(Lower(parentName));
        assert found != this && found in core.live;
        core.Place(this, core.rank(found) + 1);
        LinkTo(core, found);
        SetHandle(core);
        assert core.Orphans() == old(core.Orphans()) - {this};
      } else {
        ListsAfterAdding(core.Orphans(), core.listeners, this);
        core.AddWindowRegistrationListener(parentName, this);
      }
    }

    /** Updates the handle of this window and of all windows below it. */
    method UpdateParentVariables(core: Registrar, ghost stale: set<Window>)
      requires this in core.live && isChild && core.Made(this)
      requires forall x :: x in core.live ==> core.Up(x)
      requires forall x :: x in core.live && core.rank(x) >= core.rank(this) ==> core.Down(x)
      requires forall x :: x in core.live ==> core.Made(x)
      requires forall x :: x in core.live && x != this && x !in stale ==> core.Handle(x)
      modifies core.live`handle
      ensures forall x :: x in core.live && x !in stale ==> core.Handle(x)
      decreases Below(core.live, core.rank, core.rank(this))
    {
      handle := if parent != null then parent.handle else None;
      hide Distinct, Registrar.Made, Registrar.ByName;
      var i := 0;
      assert core.Up(this) && core.Down(this);
      while i < |children|
        invariant 0 <= i <= |children|
        invariant forall x :: x in core.live && x !in stale && x !in children[i..] ==> core.Handle(x)
        modifies core.live`handle
      {
        var child := children[i];
        assert core.Up(child) && core.Made(child);
        BelowShrinks(core.live, core.rank, this, child);
        child.UpdateParentVariables(core, stale + Members(children[i + 1..]));
        i := i + 1;
      }
    }

    /** Puts this window behind the other children of its parent. */
    method LinkTo(core: Registrar, newParent: Window)
      requires core.Linked() && core.Alive() && this in core.live && newParent in core.live && parent == null
      requires isChild && core.rank(newParent) < core.rank(this)
      requires parentName != "" ==> Lower(newParent.prefix) == Lower(parentName) && newParent.registerWithCore
      modifies this`parent, newParent`children
      ensures core.Alive() && parent == newParent && newParent.children == old(newParent.children) + [this]
      ensures forall x :: x in core.live ==> core.Up(x) && core.Down(x) && core.ByName(x) && core.Made(x)
      ensures forall x :: x in core.live && x != this ==> core.Handle(x)
    {
      hide Distinct, Registrar.Made;
      DistinctSnoc(newParent.children, this);
      parent := newParent;
      newParent.children := newParent.children + [this];
      forall x | x in core.live
        ensures core.Up(x) && core.Down(x)
      {
        assert old(core.Up(x)) && old(core.Down(x));
      }
      forall x | x in core.live
        ensures core.ByName(x)
      {
        assert old(core.ByName(x));
      }
      forall x | x in core.live && x != this
        ensures core.Handle(x)
      {
        assert old(core.Handle(x));
      }
    }

    /** A window without children takes over the handle of its parent. */
    method SetHandle(core: Registrar)
      requires this in core.live && parent != null && parent in core.live && parent != this
      requires children == []
      requires forall x :: x in core.live ==> core.Up(x) && core.Down(x) && core.ByName(x) && core.Made(x)
      requires forall x :: x in core.live && x != this ==> core.Handle(x)
      modifies this`handle
      ensures core.Linked()
    {
      hide Distinct;
      handle := parent.handle;
      forall x | x in core.live && x != this
        ensures core.Handle(x)
      {
        assert old(core.Handle(x)) && core.Up(x);
      }
    }

    method SetParent(core: Registrar, newParent: Window)
      requires core.Linked() && core.Alive() && this in core.live && newParent in core.live && parent == null
      requires isChild && core.rank(newParent) < core.rank(this)
      requires parentName != "" ==> Lower(newParent.prefix) == Lower(parentName) && newParent.registerWithCore
      modifies this`parent, newParent`children, core.live`handle
      ensures core.Linked() && core.Alive() && parent == newParent && newParent.children == old(newParent.children) + [this]
    {
      hide Distinct, Registrar.Alive, Registrar.Made, Registrar.Up, Registrar.Down, Registrar.ByName, Registrar.Handle;
      LinkTo(core, newParent);
      UpdateParentVariables(core, {});
      core.TogetherLinked();
    }

    /** A window made by its parent. */
    constructor Child(prefix: string, parent: Window)
      ensures this.prefix == prefix && parentName == "" && isChild && own == None
      ensures this.parent == parent && children == [] && handle == parent.handle && !registerWithCore && !initialized
    {
      this.prefix, parentName, isChild, own := prefix, "", true, None;
      this.parent, children, handle, registerWithCore, initialized := parent, [], parent.handle, false, false;
    }

    method CreateChild(core: Registrar, prefix: string) returns (child: Window)
      requires core.Valid() && this in core.live
      modifies this`children, core`live, core`rank
      ensures core.Valid() && fresh(child) && core.live == old(core.live) + {child} && (old(core.Found()) ==> core.Found())
      ensures child.parent == this && child.children == [] && children == old(children) + [child]
    {
      hide Distinct, Lists, Registrar.Linked, Registrar.Registry, Registrar.NobodyMissed, Registrar.Found;
      child := new Window.Child(prefix, this);
      core.Place(child, core.rank(this) + 1);
      TakeChild(core, child);
    }

    method TakeChild(core: Registrar, child: Window)
      requires core.Linked() && core.Alive() && core.Registry()
      requires this in core.live && child !in core.live && core.rank(this) < core.rank(child)
      requires child.parent == this && child.children == [] && child.handle == handle && child.isChild
      requires child.parentName == "" && child.own == None && !child.registerWithCore
      modifies this`children, core`live
      ensures core.Linked() && core.Alive() && core.Registry() && core.Orphans() == old(core.Orphans())
      ensures core.live == old(core.live) + {child} && (old(core.Found()) ==> core.Found()) && children == old(children) + [child]
    {
      hide Distinct, Registrar.Made, Registrar.Registry, Registrar.Found;
      assert core.Down(this);
      DistinctSnoc(children, child);
      EmptyDistinct();
      ChildIsMade(core, child);
      children := children + [child];
      core.Admit(child);
      forall x | x in core.live && x != child
        ensures core.Up(x) && core.Down(x)
      {
        assert old(core.Up(x)) && old(core.Down(x));
      }
      forall x | x in core.live && x != child
        ensures core.ByName(x) && core.Handle(x)
      {
        assert old(core.ByName(x)) && old(core.Handle(x));
      }
    }

    lemma ChildIsMade(core: Registrar, child: Window)
      requires child.parentName == "" && child.own == None
      ensures core.Made(child)
    {
    }

    /** Registers the window with the core if its settings say so. Nobody who waits for the name may
        be above this window (`AdoptionDescends` says why). Settings that take an earlier registration
        back do harm exactly if the window is still registered or has children that name it. Names
        keep finding their windows exactly if no other living window has registered under this one. */
    method Initialize(core: Registrar, register: bool)
      requires core.Valid() && this in core.live
      requires register ==> forall x :: x in Waiting(core.listeners, Lower(prefix)) ==> x !in core.Above(this)
      modifies core`registered, core`listeners, core`rank, core.live
      ensures initialized && registerWithCore == register
      ensures core.Valid() <==> (old(registerWithCore) && !register ==> !old(KnownByName(core)))
      ensures core.registered == if register then old(core.registered)[Lower(prefix) := this] else old(core.registered)
      ensures core.listeners == if register then old(core.listeners)[Lower(prefix) := []] else old(core.listeners)
      ensures children == old(children) + (if register then Waiting(old(core.listeners), Lower(prefix)) else [])
      ensures forall x :: x in core.live && x != this ==> x.children == old(x.children)
      ensures forall x :: x in core.live && x != this ==> x.registerWithCore == old(x.registerWithCore)
      ensures forall x :: x in core.live ==>
                x.parent == if register && x in Waiting(old(core.listeners), Lower(prefix)) then this else old(x.parent)
      ensures old(core.Found()) && (old(registerWithCore) ==> register) ==>
                (core.Found() <==> (register ==> forall x :: x in core.live && x != this && x.registerWithCore ==> Lower(x.prefix) != Lower(prefix)))
    {
      hide Lists, Distinct, KnownByName, Registrar.Linked, Registrar.Alive, Registrar.Registry, Registrar.NobodyMissed;
      SetRegisterWithCore(core, register);
      if register {
        core.RegisterWindow(prefix, this);
      }
      initialized := true;
    }

    /** Whether the registry, or a child, relies on the registration of this window. */
    ghost predicate KnownByName(core: Registrar)
      reads this, core`registered
    {
      || (Lower(prefix) in core.registered && core.registered[Lower(prefix)] == this)
      || (exists c :: c in children && c.parentName != "")
    }

    method SetRegisterWithCore(core: Registrar, register: bool)
      requires core.Valid() && this in core.live
      modifies this`registerWithCore
      ensures registerWithCore == register
      ensures core.Valid() <==> (old(registerWithCore) && !register ==> !old(KnownByName(core)))
      ensures registerWithCore || !old(registerWithCore) ==> core.Valid()
    {
      hide Distinct, Lists, Registrar.Made, Registrar.Up, Registrar.Down, Registrar.Handle;
      KnowsChildren(core);
      registerWithCore := register;
      if old(registerWithCore) && !register && old(KnownByName(core)) {
        if c :| c in children && c.parentName != "" {
          assert !core.ByName(c);
        } else {
          assert core.registered[Lower(prefix)] == this;
        }
      } else {
        forall x | x in core.live
          ensures core.ByName(x)
        {
          assert old(core.ByName(x));
          assert x.parent == this ==> x in children;
        }
        assert core.Registry();
      }
    }

    method RemoveChild(child: Window)
      modifies this`children
      ensures children == Without(old(children), child)
    {
      children := Without(children, child);
    }

    /** The parent of this window passes away: the window is an orphan, and waits for the next
        parent of that name if it has a name for its parent. */
    method ParentLeft(core: Registrar)
      requires core.Linked() && Lists(core.Orphans(), core.listeners, {}) && core.NobodyMissed()
      requires this in core.live && parent != null && parent !in core.live && isChild
      requires parentName != "" ==> Lower(parentName) !in core.registered
      modifies this`parent, core.live`handle, core`listeners
      ensures core.Linked() && Lists(core.Orphans(), core.listeners, {}) && core.NobodyMissed()
      ensures parent == null
      ensures var n := Lower(parentName);
              core.listeners == if parentName == "" then old(core.listeners)
                                else old(core.listeners)[n := Waiting(old(core.listeners), n) + [this]]
    {
      hide Distinct, Lists, Waiting;
      hide Registrar.Linked, Registrar.Made, Registrar.NobodyMissed, Registrar.Up, Registrar.Down, Registrar.ByName, Registrar.Handle;
      ListsAfterNaming(core.Orphans(), core.listeners, this);
      Orphan(core);
      UpdateParentVariables(core, {});
      core.TogetherLinked();
      if parentName != "" {
        ListsAfterAdding(core.Orphans(), core.listeners, this);
        core.AddWindowRegistrationListener(parentName, this);
      }
    }

    method Orphan(core: Registrar)
      requires core.Linked() && this in core.live && parent != null && parent !in core.live
      modifies this`parent
      ensures parent == null && core.Orphans() == old(core.Orphans()) + {this}
      ensures forall x :: x in core.live ==> core.Up(x) && core.Down(x) && core.ByName(x) && core.Made(x)
      ensures forall x :: x in core.live && x != this ==> core.Handle(x)
    {
      hide Distinct, Registrar.Made;
      parent := null;
      forall x | x in core.live
        ensures core.Up(x) && core.Down(x)
      {
        assert old(core.Up(x)) && old(core.Down(x));
      }
      forall x | x in core.live
        ensures core.ByName(x) && (x != this ==> core.Handle(x))
      {
        assert old(core.ByName(x)) && old(core.Handle(x));
      }
    }

    /** Takes this window out of the children of its parent. */
    method Unlink(core: Registrar)
      requires core.Linked() && core.Alive() && this in core.live && parent != null
      modifies core.live`children
      ensures children == old(children)
      ensures forall x :: x in core.live && x != this ==> core.Up(x) && core.Down(x) && core.ByName(x) && core.Handle(x) && core.Made(x)
      ensures forall x :: x in core.live && x != this ==> x.children == Without(old(x.children), this) && this !in x.children
    {
      hide Distinct, Registrar.Made;
      assert core.Up(this) && core.Down(parent);
      WithoutMembers(parent.children, this);
      parent.RemoveChild(this);
      assert Distinct(parent.children) && forall c :: c in parent.children ==> c != this && c in old(parent.children);
      forall x | x in core.live && x != this
        ensures core.Up(x) && core.Down(x)
      {
        assert old(core.Up(x)) && old(core.Down(x));
      }
      forall x | x in core.live && x != this
        ensures core.ByName(x) && core.Handle(x)
      {
        assert old(core.ByName(x)) && old(core.Handle(x));
      }
    }

    /** This window leaves its parent, or no longer waits for one. */
    method Leave(core: Registrar)
      requires core.Linked() && core.Alive() && this in core.live
      requires Lists(core.Orphans(), core.listeners, {})
      modifies core`listeners, core.live`children
      ensures Lists(core.Orphans() - {this}, core.listeners, {}) && children == old(children)
      ensures forall x :: x in core.live && x != this ==> core.Up(x) && core.Down(x) && core.ByName(x) && core.Handle(x) && core.Made(x)
      ensures forall x :: x in core.live && x != this ==> x.children == Without(old(x.children), this) && this !in x.children
      ensures forall n :: Waiting(core.listeners, n) == Without(Waiting(old(core.listeners), n), this)
    {
      hide Distinct, Lists, Registrar.Up, Registrar.ByName, Registrar.Handle;
      OnlyOrphansAreListed(core.Orphans(), core.listeners, this);
      if parent != null {
        Unlink(core);
        assert core.Orphans() - {this} == core.Orphans() == old(core.Orphans());
      } else if isChild {
        ListsAfterRemoving(core.Orphans(), core.listeners, this);
        core.RemoveWindowRegistrationListener(parentName, this);
      } else {
        ListsWithout(core.Orphans(), core.listeners, this);
      }
    }

    /** The first half of the destructor: nobody outside knows this window any more. */
    method Detach(core: Registrar)
      requires core.Valid() && this in core.live
      modifies this`initialized, core`registered, core`listeners, core`live, core.live`children
      ensures core.live == old(core.live) - {this}
      ensures core.Linked() && core.Registry() && core.NobodyMissed()
      ensures Lists(core.Orphans(), core.listeners, {})
      ensures forall x :: x in core.live ==> x.parent == null || x.parent in core.live || x.parent == this
      ensures forall x :: x in core.live ==> x.children == Without(old(x.children), this)
      ensures children == old(children)
      ensures core.registered == if registerWithCore then old(core.registered) - {Lower(prefix)} else old(core.registered)
      ensures forall n :: Waiting(core.listeners, n) == Without(Waiting(old(core.listeners), n), this)
    {
      hide Distinct, Lists, Registrar.Alive, Registrar.Linked, Registrar.Up, Registrar.Down, Registrar.ByName, Registrar.Handle, Registrar.Made;
      initialized := false;
      Leave(core);
      if registerWithCore {
        core.UnRegisterWindow(prefix);
      }
      core.Dismiss(this);
    }

    lemma KnowsChildren(core: Registrar)
      requires core.Linked() && this in core.live
      ensures Distinct(children)
      ensures forall x :: x in children ==> x in core.live && x.parent == this && x != this && x.isChild
      ensures forall x :: x in core.live && x.parent == this ==> x in children
      ensures forall x :: x in children && x.parentName != "" ==> Lower(x.parentName) == Lower(prefix) && registerWithCore
    {
      hide Distinct;
      forall x | x in children
        ensures x in core.live && x.parent == this && x != this && x.isChild
        ensures x.parentName != "" ==> Lower(x.parentName) == Lower(prefix) && registerWithCore
      {
        assert core.Down(this);
        assert core.Up(x) && core.ByName(x);
      }
      forall x | x in core.live && x.parent == this
        ensures x in children
      {
        assert core.Up(x);
      }
    }

    /** The destructor. */
    method Destroy(core: Registrar)
      requires core.Valid() && this in core.live
      modifies this`initialized, core`registered, core`listeners, core`live, core.live`parent, core.live`children, core.live`handle
      ensures core.Valid() && core.live == old(core.live) - {this} && (old(core.Found()) ==> core.Found())
      ensures core.registered == if registerWithCore then old(core.registered) - {Lower(prefix)} else old(core.registered)
      ensures forall x :: x in core.live ==> x.children == Without(old(x.children), this)
      ensures forall x :: x in core.live ==> x.parent == if old(x.parent) == this then null else old(x.parent)
      ensures forall n :: Waiting(core.listeners, n) == Without(Waiting(old(core.listeners), n), this) + Naming(old(children), n)
    {
      hide Distinct, Lists, Waiting, Naming, Without, Registrar.Linked, Registrar.NobodyMissed;
      KnowsChildren(core);
      Detach(core);
      ghost var listed := core.listeners;
      var i := 0;
      NamingNothing();
      assert children[..0] == [];
      while i < |children|
        invariant 0 <= i <= |children| && children == old(children)
        invariant core.Linked() && Lists(core.Orphans(), core.listeners, {}) && core.NobodyMissed()
        invariant forall x :: x in core.live ==> x.parent == if x in children[..i] then null else old(x.parent)
        invariant forall n :: Waiting(core.listeners, n) == Waiting(listed, n) + Naming(children[..i], n)
        modifies core.live`parent, core.live`handle, core`listeners
      {
        var child := children[i];
        NotAmongFirst(children, i);
        ghost var before := core.listeners;
        child.ParentLeft(core);
        WaitingAndNaming(listed, before, core.listeners, children, i);
        assert children[..i + 1] == children[..i] + [child];
        i := i + 1;
      }
      assert children[..i] == children;
    }
  }

  lemma NamingNothing()
    ensures forall n :: Naming([], n) == []
  {
  }

  lemma WaitingAndNaming(listed: map<string, seq<Window>>, before: map<string, seq<Window>>, after: map<string, seq<Window>>,
      children: seq<Window>, i: nat)
    requires i < |children|
    requires forall n :: Waiting(before, n) == Waiting(listed, n) + Naming(children[..i], n)
    requires var child := children[i]; var m := Lower(child.parentName);
             after == if child.parentName == "" then before else before[m := Waiting(before, m) + [child]]
    ensures forall n :: Waiting(after, n) == Waiting(listed, n) + Naming(children[..i + 1], n)
  {
    var child := children[i];
    var m := Lower(child.parentName);
    assert children[..i + 1][..i] == children[..i];
    forall n
      ensures Waiting(after, n) == Waiting(listed, n) + Naming(children[..i + 1], n)
    {
      if child.parentName != "" {
        AfterUpdate(before, m, Waiting(before, m) + [child], after);
      }
    }
  }

  lemma {:induction false} DistinctCount(s: seq<Window>, w: Window)
    requires Distinct(s)
    ensures multiset(s)[w] == if w in s then 1 else 0
  {
    if s != [] {
      var init, last := s[..|s| - 1], s[|s| - 1];
      assert s == init + [last];
      assert forall i, j :: 0 <= i < j < |init| ==> init[i] == s[i] && init[j] == s[j];
      DistinctCount(init, w);
    }
  }

  /** Between any two calls, a window that names its parent is either linked to a window of that
      name, once among its children, or waits under that name, listed once; never both. Only
      then is a waiting window adopted, so it has no parent when it gets one. */
  lemma LinkedOrWaiting(core: Registrar, w: Window, n: string)
    requires core.Valid() && w in core.live && w.parentName != ""
    ensures w.parent == null ==>
              n !in core.registered || n != Lower(w.parentName)
    ensures w.parent == null ==>
              multiset(Waiting(core.listeners, n))[w] == if n == Lower(w.parentName) then 1 else 0
    ensures w.parent != null ==>
              w.parent in core.live && Lower(w.parent.prefix) == Lower(w.parentName)
              && multiset(w.parent.children)[w] == 1 && w !in Waiting(core.listeners, n)
  {
    hide Distinct;
    DistinctCount(Waiting(core.listeners, n), w);
    OnlyOrphansAreListed(core.Orphans(), core.listeners, w);
    if w.parent != null {
      assert core.Up(w) && core.ByName(w) && core.Down(w.parent);
      DistinctCount(w.parent.children, w);
    } else {
      assert w in core.Orphans();
    }
  }

  ghost function Members(s: seq<Window>): set<Window> {
    set x | x in s
  }

  ghost function Below(live: set<Window>, rank: Window -> nat, depth: nat): set<Window> {
    set x | x in live && rank(x) >= depth
  }

  lemma BelowShrinks(live: set<Window>, rank: Window -> nat, w: Window, child: Window)
    requires w in live && rank(w) < rank(child)
    ensures Below(live, rank, rank(child)) < Below(live, rank, rank(w))
  {
    assert w in Below(live, rank, rank(w)) && w !in Below(live, rank, rank(child));
  }

  // ----- Names that are shared

  /** As long as names find their windows, nobody waits for a name that a living registered window
      bears. */
  lemma NobodyWaitsForTheLiving(core: Registrar, w: Window)
    requires core.Valid() && core.Found() && w in core.live && w.registerWithCore
    ensures Waiting(core.listeners, Lower(w.prefix)) == []
  {
    assert Lower(w.prefix) in core.registered;
  }

  /** Two windows of one name: when the one that lost the name goes, the other is no longer found. */
  method TwoOfOneName(name: string) returns (core: Registrar, left: Window)
    ensures core.Valid() && left in core.live && left.registerWithCore && Lower(left.prefix) == Lower(name)
    ensures Lower(name) !in core.registered && !core.Found()
  {
    hide Lists, Registrar.Linked, Registrar.Alive, Registrar.Registry, Registrar.NobodyMissed, Registrar.Found, Registrar.Above;
    core := new Registrar();
    var first := new Window.TopLevel(name, 1, core);
    first.Initialize(core, true);
    left := new Window.TopLevel(name, 2, core);
    left.Initialize(core, true);
    first.Destroy(core);
    NotFound(core, left);
  }

  lemma NotFound(core: Registrar, w: Window)
    requires w in core.live && w.registerWithCore && Lower(w.prefix) !in core.registered
    ensures !core.Found()
  {
  }

  // ----- Circles

  /** The parent of `x` once `window` has adopted the windows in `adopted`. */
  ghost function ParentAfter(x: Window, window: Window, adopted: set<Window>): Window?
    reads x`parent
  {
    if x in adopted then window else x.parent
  }

  /** After the adoption, windows lie deeper than their parents, as deep as `rank` says. */
  ghost predicate Descends(core: Registrar, rank: Window -> nat, window: Window, adopted: set<Window>)
    reads core`live, core.live`parent
  {
    forall x :: x in core.live && ParentAfter(x, window, adopted) in core.live ==> rank(ParentAfter(x, window, adopted)) < rank(x)
  }

  lemma {:induction false} DescendsAlongAbove(core: Registrar, rank: Window -> nat, window: Window, adopted: set<Window>, w: Window)
    requires core.Valid() && w in core.live && Descends(core, rank, window, adopted)
    requires forall x :: x in adopted ==> x in core.live && x.parent == null
    ensures forall x :: x in core.Above(w) ==> rank(x) <= rank(w)
    decreases core.rank(w)
  {
    hide Lists, Distinct;
    assert core.Up(w);
    if w.parent in core.live {
      assert ParentAfter(w, window, adopted) == w.parent;
      DescendsAlongAbove(core, rank, window, adopted, w.parent);
    }
  }

  /** Adopting orphans leaves parents and children without a circle exactly if none of them is the
      window that adopts them, or above it. So the recursion over children has something to go by
      exactly then. */
  lemma AdoptionDescends(core: Registrar, window: Window, adopted: set<Window>)
    requires core.Valid() && window in core.live
    requires forall x :: x in adopted ==> x in core.live && x.parent == null
    ensures (exists rank: Window -> nat :: Descends(core, rank, window, adopted)) <==> adopted !! core.Above(window)
  {
    hide Lists, Distinct;
    core.AboveIsClosed(window);
    if rank: Window -> nat :| Descends(core, rank, window, adopted) {
      DescendsAlongAbove(core, rank, window, adopted, window);
      forall x | x in adopted
        ensures x !in core.Above(window)
      {
        assert ParentAfter(x, window, adopted) == window;
      }
    }
    if adopted !! core.Above(window) {
      var before, above := core.rank, core.Above(window);
      var rank: Window -> nat := x => if x in above then before(x) else before(x) + before(window) + 1;
      forall x | x in core.live && ParentAfter(x, window, adopted) in core.live
        ensures rank(ParentAfter(x, window, adopted)) < rank(x)
      {
        assert core.Up(x);
      }
      assert Descends(core, rank, window, adopted);
    }
  }

  /** A window that names itself as its parent waits for itself; registering it would close a circle. */
  method NamesItself(name: string) returns (core: Registrar, w: Window)
    requires name != ""
    ensures core.Valid() && w in core.live && w in Waiting(core.listeners, Lower(w.prefix)) && w in core.Above(w)
    ensures !exists rank: Window -> nat :: Descends(core, rank, w, Members(Waiting(core.listeners, Lower(w.prefix))))
  {
    core := new Registrar();
    w := new Window.Named(name, name, core);
    core.AboveIsClosed(w);
    core.WaitingFor(Lower(w.prefix));
    AdoptionDescends(core, w, Members(Waiting(core.listeners, Lower(w.prefix))));
  }
}
