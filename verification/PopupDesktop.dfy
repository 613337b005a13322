/** All popups of the module together: what every call made from outside (a mouse move over a
    folder item, a bang command, losing the focus) keeps true of their links. */
module PopupDesktop {
  import opened PopupChain

  /** The links of `p` are mutual, and it has an open child exactly when it knows the item it
      was opened through. Linked popups are visible. */
  ghost predicate LinkedAt(p: Popup, popups: set<Popup>, items: set<FolderItem>)
    requires p in popups
    reads popups
  {
    && (p.openChild == null <==> p.childItem == null)
    && (p.openChild != null ==> p.openChild in popups && p.openChild.owner == p && p.visible)
    && (p.childItem != null ==> p.childItem in items && p.childItem.parent == p && p.childItem.popup == p.openChild)
    && (p.owner != null ==> p.owner in popups && p.owner.openChild == p && p.visible)
  }

  ghost predicate Linked(popups: set<Popup>, items: set<FolderItem>)
    reads popups
  {
    forall p :: p in popups ==> LinkedAt(p, popups, items)
  }

  /** Folder items nest popups in popups; no popup belongs to two items. */
  ghost predicate Static(popups: set<Popup>, items: set<FolderItem>) {
    && (forall i :: i in items ==> i.parent in popups && i.popup in popups)
    && (forall i :: i in items ==> i.parent.level < i.popup.level && i.popup.height < i.parent.height)
    && (forall i, j :: i in items && j in items && i.popup == j.popup ==> i == j)
  }

  /** Exactly the items whose popup is open are highlighted, `except` aside. */
  ghost predicate Lit(items: set<FolderItem>, popups: set<Popup>, except: set<FolderItem>)
    reads items, popups
  {
    forall i :: i in items && i.parent in popups && i !in except ==> (i.open <==> i.parent.childItem == i)
  }

  ghost predicate Inv(popups: set<Popup>, items: set<FolderItem>)
    reads popups, items
  {
    Static(popups, items) && Linked(popups, items) && Lit(items, popups, {})
  }

  /** Where every run starts: popups just made, none of them open, and no item highlighted. */
  lemma NothingOpen(popups: set<Popup>, items: set<FolderItem>)
    requires Static(popups, items)
    requires forall p :: p in popups ==> p.Closed()
    requires forall i :: i in items ==> !i.open
    ensures Inv(popups, items)
  {
  }

  /** The popups above `p`, outermost first. */
  ghost function Above(p: Popup, popups: set<Popup>, items: set<FolderItem>): seq<Popup>
    requires p in popups && Static(popups, items) && Linked(popups, items)
    reads popups
    decreases p.level
  {
    if p.owner == null then []
    else
      assert p.owner.childItem in items;
      Above(p.owner, popups, items) + [p.owner]
  }

  /** The popups below `p`, outermost first. */
  ghost function Below(p: Popup, popups: set<Popup>, items: set<FolderItem>): seq<Popup>
    requires p in popups && Static(popups, items) && Linked(popups, items)
    reads popups
    decreases p.height
  {
    if p.openChild == null then []
    else
      assert p.childItem in items;
      [p.openChild] + Below(p.openChild, popups, items)
  }

  /** The whole chain that `p` is part of. */
  ghost function ChainOf(p: Popup, popups: set<Popup>, items: set<FolderItem>): seq<Popup>
    requires p in popups && Static(popups, items) && Linked(popups, items)
    reads popups
  {
    Above(p, popups, items) + [p] + Below(p, popups, items)
  }

  lemma {:induction false} AboveIsJoined(p: Popup, popups: set<Popup>, items: set<FolderItem>)
    requires p in popups && Static(popups, items) && Linked(popups, items)
    ensures var c := Above(p, popups, items) + [p];
            && (forall q :: q in c ==> q in popups)
            && c[0].owner == null && Joined(c, 0, |c|) && Nested(c)
    decreases p.level
  {
    if p.owner != null {
      assert p.owner.childItem in items;
      AboveIsJoined(p.owner, popups, items);
      var d := Above(p.owner, popups, items) + [p.owner];
      var c := Above(p, popups, items) + [p];
      assert c == d + [p];
      assert forall k :: 0 <= k < |d| ==> c[k] == d[k];
    }
  }

  lemma {:induction false} BelowIsJoined(p: Popup, popups: set<Popup>, items: set<FolderItem>)
    requires p in popups && Static(popups, items) && Linked(popups, items)
    ensures var c := [p] + Below(p, popups, items);
            && (forall q :: q in c ==> q in popups)
            && Ends(c, |c|) && Joined(c, 0, |c|) && Nested(c)
    decreases p.height
  {
    if p.openChild != null {
      hide Joined, Ends, Nested;
      assert p.childItem in items;
      BelowIsJoined(p.openChild, popups, items);
      Prepend(p, [p.openChild] + Below(p.openChild, popups, items));
      assert forall q :: q in Below(p, popups, items) ==> q in [p.openChild] + Below(p.openChild, popups, items);
    }
  }

  lemma Prepend(p: Popup, d: seq<Popup>)
    requires d != [] && Joined(d, 0, |d|) && Ends(d, |d|) && Nested(d)
    requires p.openChild == d[0] && p.childItem != null && d[0].owner == p && p.level < d[0].level
    ensures Joined([p] + d, 0, |d| + 1) && Ends([p] + d, |d| + 1) && Nested([p] + d)
  {
    var c := [p] + d;
    assert forall k :: 0 < k < |c| ==> c[k] == d[k - 1];
    forall j, k | 0 <= j < k < |c| ensures c[j].level < c[k].level {
      assert k > 1 ==> d[0].level < d[k - 1].level;
    }
  }

  lemma Glue(a: seq<Popup>, b: seq<Popup>)
    requires a != [] && b != [] && a[|a| - 1] == b[0]
    requires Joined(a, 0, |a|) && Nested(a) && Joined(b, 0, |b|) && Nested(b)
    ensures Joined(a + b[1..], 0, |a + b[1..]|) && Nested(a + b[1..])
  {
    var c, n := a + b[1..], |a| - 1;
    assert forall k :: n <= k < |c| ==> c[k] == b[k - n];
    forall j, k | 0 <= j < k < |c| ensures c[j].level < c[k].level {
      if j < n < k {
        assert a[j].level < a[n].level == b[0].level < b[k - n].level;
      }
    }
  }

  /** Mutual links make a chain around every popup. */
  lemma ChainOfIsChain(p: Popup, popups: set<Popup>, items: set<FolderItem>)
    requires p in popups && Static(popups, items) && Linked(popups, items)
    ensures var c := ChainOf(p, popups, items);
            && (forall q :: q in c ==> q in popups)
            && |Above(p, popups, items)| < |c| && c[|Above(p, popups, items)|] == p
            && Chain(c, 0, |c|) && Nested(c) && ItemsIn(c, items)
  {
    hide Above, Below, Joined, Nested, Static;
    AboveIsJoined(p, popups, items);
    BelowIsJoined(p, popups, items);
    var a, b := Above(p, popups, items) + [p], [p] + Below(p, popups, items);
    Glue(a, b);
    assert b[1..] == Below(p, popups, items);
    assert ChainOf(p, popups, items) == a + b[1..];
    assert (a + b[1..])[|a + b[1..]| - 1] == b[|b| - 1];
    assert (a + b[1..])[0] == a[0];
  }

  ghost function Members(c: seq<Popup>): set<Popup> {
    set q | q in c
  }

  /** Nobody outside `closed` is linked to a popup in it. */
  ghost predicate Isolated(popups: set<Popup>, closed: set<Popup>)
    reads popups
  {
    forall p :: p in popups && p !in closed ==>
      && (p.owner != null ==> p.owner !in closed)
      && (p.openChild != null ==> p.openChild !in closed)
  }

  lemma ChainIsIsolated(c: seq<Popup>, popups: set<Popup>, items: set<FolderItem>)
    requires Linked(popups, items) && c != [] && Chain(c, 0, |c|) && (forall q :: q in c ==> q in popups)
    ensures Isolated(popups, Members(c))
  {
    forall k | 0 <= k < |c|
      ensures c[k].openChild != null ==> c[k].openChild in Members(c)
      ensures c[k].owner != null ==> c[k].owner in Members(c)
    {
      if k < |c| - 1 { assert c[k + 1] in c; }
      if k > 0 { assert c[k - 1] in c; }
    }
  }

  // ----- The calls from outside

  /** Everything in `popups` outside `closed` is as before. */
  twostate predicate OthersUnchanged(popups: set<Popup>, new closed: set<Popup>)
    reads popups
  {
    forall p :: p in popups && p !in closed ==> unchanged(p)
  }

  lemma WholeChain(c: seq<Popup>, popups: set<Popup>, items: set<FolderItem>)
    requires Inv(popups, items) && Members(c) <= popups
    ensures Part(c, 0, |c|) == Members(c)
    ensures Highlights(Part(c, 0, |c|), items)
  {
  }

  /** Closing a popup from outside hides its whole chain, up and down, and undoes every link in
      it; no other popup notices. */
  method Close(p: Popup, ghost popups: set<Popup>, ghost items: set<FolderItem>) returns (ghost chain: seq<Popup>)
    requires p in popups && Inv(popups, items)
    modifies popups, items
    ensures Inv(popups, items)
    ensures chain == old(ChainOf(p, popups, items)) && p in chain
    ensures forall q :: q in chain ==>
              && !q.visible && !q.mouseOver && q.expandLeft == q.expandLeftSetting
              && q.owner == null && q.openChild == null && q.childItem == null
    ensures OthersUnchanged(popups, Members(chain))
  {
    hide ChainOf, Above, Below, Chain, Joined, Ends, Nested, ItemsIn, Part;
    chain := ChainOf(p, popups, items);
    ChainOfIsChain(p, popups, items);
    ChainIsIsolated(chain, popups, items);
    WholeChain(chain, popups, items);
    p.Close(chain, 0, |Above(p, popups, items)|, |chain|, items);
    forall q | q in popups ensures LinkedAt(q, popups, items) {
      assert old(LinkedAt(q, popups, items));
      assert q in chain ==> q.Closed();
    }
  }

  /** A popup that is not open through its item has no owner. */
  lemma OwnedThroughItem(item: FolderItem, popups: set<Popup>, items: set<FolderItem>)
    requires Inv(popups, items) && item in items
    ensures item.popup.owner == null || (item.popup.owner == item.parent && item.parent.openChild == item.popup)
  {
    if item.popup.owner != null {
      assert item.popup.owner.childItem in items && item.popup.owner.childItem.popup == item.popup;
    }
  }

  lemma {:induction false} BelowIsOwned(p: Popup, popups: set<Popup>, items: set<FolderItem>)
    requires p in popups && Inv(popups, items)
    ensures forall q :: q in Below(p, popups, items) ==> q in popups && q.owner != null && q != p
    decreases p.height
  {
    BelowIsJoined(p, popups, items);
    var c := [p] + Below(p, popups, items);
    forall q | q in Below(p, popups, items) ensures q in popups && q.owner != null && q != p {
      var k :| 0 <= k < |Below(p, popups, items)| && Below(p, popups, items)[k] == q;
      assert c[k + 1] == q && c[0] == p;
    }
  }

  /** Below `p`, popups are linked to each other and, through the first, to `p` only. */
  lemma BelowIsIsolated(p: Popup, below: seq<Popup>, popups: set<Popup>, items: set<FolderItem>)
    requires Linked(popups, items) && p in popups && Members(below) <= popups
    requires Joined([p] + below, 0, |below| + 1) && Ends([p] + below, |below| + 1)
    ensures forall q :: q in popups && q !in below && q != p ==>
      && (q.owner != null ==> q.owner !in below) && (q.openChild != null ==> q.openChild !in below)
    ensures p.openChild != null ==> p.openChild in below
    ensures p !in below && p.owner != null ==> p.owner !in below && p.owner != p
  {
    var c := [p] + below;
    forall q | q in below
      ensures q.openChild != null ==> q.openChild in below
      ensures q.owner == p || q.owner in below
    {
      var k :| 0 < k < |c| && c[k] == q by { var j :| 0 <= j < |below| && below[j] == q; assert c[j + 1] == q; }
      assert c[k - 1] == p || c[k - 1] in below;
      if k < |c| - 1 { assert c[k].openChild == c[k + 1] && c[k + 1] in below; }
    }
    if below != [] { assert c[0].openChild == c[1]; }
    assert LinkedAt(p, popups, items);
  }

  lemma ChainFrom(p: Popup, below: seq<Popup>, popups: set<Popup>, items: set<FolderItem>)
    requires Inv(popups, items) && Members(below) <= popups && p in popups && Nested([p] + below)
    ensures var c := [p] + below;
            && Part(c, 1, |c|) == Members(below) && Part(c, 0, |c|) == Members(below) + {p}
            && Highlights(Part(c, 0, |c|), items) && ItemsIn(c, items)
            && (forall q :: q in below ==> exists k :: 0 < k < |c| && c[k] == q)
  {
    var c := [p] + below;
    assert c[0] == p;
    forall k | 0 <= k < |below| ensures c[k + 1] == below[k] {
    }
    forall q | q in below ensures q in Part(c, 1, |c|) {
      var k :| 0 <= k < |below| && below[k] == q;
      assert c[k + 1] == q;
    }
    assert Part(c, 0, |c|) == Part(c, 1, |c|) + {p} by { PartSplit(c, 0, 0, |c|); }
  }

  method CloseBelow(p: Popup, ghost popups: set<Popup>, ghost items: set<FolderItem>) returns (ghost below: seq<Popup>)
    requires p in popups && Inv(popups, items)
    modifies popups, items
    ensures below == old(Below(p, popups, items)) && p !in below && Members(below) <= popups
    ensures forall q :: q in popups && q in below ==> old(q.owner) != null
    ensures forall q :: q in popups && q !in below && q != p ==>
      && (old(q.owner) != null ==> old(q.owner) !in below) && (old(q.openChild) != null ==> old(q.openChild) !in below)
    ensures old(p.openChild) != null ==> old(p.openChild) in below
    ensures old(p.owner) != null ==> old(p.owner) !in below && old(p.owner) != p
    ensures p.openChild == null && p.childItem == null && p.owner == old(p.owner) && p.visible == old(p.visible)
    ensures p.expandLeft == old(p.expandLeft) && p.mouseOver == old(p.mouseOver)
    ensures forall q :: q in below ==> q.Closed()
    ensures OthersUnchanged(popups, Members(below) + {p})
    ensures Dimmed(Members(below) + {p}, items)
  {
    hide Above, Below, Chain, Nested, Joined, Ends, ItemsIn, Part;
    below := Below(p, popups, items);
    BelowIsJoined(p, popups, items);
    BelowIsOwned(p, popups, items);
    BelowIsIsolated(p, below, popups, items);
    ChainFrom(p, below, popups, items);
    p.CloseChild([p] + below, 0, |below| + 1, items);
  }

  /** Closing what a popup has opened, as its other items do when the mouse moves over them. */
  method CloseChild(p: Popup, ghost popups: set<Popup>, ghost items: set<FolderItem>) returns (ghost below: seq<Popup>)
    requires p in popups && Inv(popups, items)
    modifies popups, items
    ensures Inv(popups, items)
    ensures below == old(Below(p, popups, items)) && p !in below
    ensures forall q :: q in popups && q in below ==> old(q.owner) != null
    ensures p.openChild == null && p.owner == old(p.owner) && p.visible == old(p.visible)
    ensures p.expandLeft == old(p.expandLeft) && p.mouseOver == old(p.mouseOver)
    ensures forall q :: q in below ==> q.Closed()
    ensures OthersUnchanged(popups, Members(below) + {p})
  {
    hide Above, Below;
    below := CloseBelow(p, popups, items);
    forall q | q in popups ensures LinkedAt(q, popups, items) {
      assert old(LinkedAt(q, popups, items));
      if q in below {
        assert q.Closed();
      } else if q != p {
        assert q.owner == old(q.owner) && q.openChild == old(q.openChild);
        assert old(q.owner) != null ==> old(q.owner) !in below;
        assert old(q.openChild) != null ==> old(q.openChild) !in below;
      }
    }
    forall i | i in items && i.parent in popups
      ensures i.open <==> i.parent.childItem == i
    {
      assert i.open == (old(i.open) && i.parent !in Members(below) + {p});
    }
  }

  /** Sets the links between `p` and a child that nobody owns. */
  method Link(p: Popup, child: Popup, item: FolderItem, fits: bool, ghost popups: set<Popup>, ghost items: set<FolderItem>)
    requires Inv(popups, items) && item in items && item.parent == p && item.popup == child && p.visible
    requires p.openChild == null && child.owner == null
    modifies p`openChild, p`childItem, child`owner, child`visible, child`expandLeft
    ensures Linked(popups, items) && Lit(items, popups, {item})
    ensures p.openChild == child && p.childItem == item && child.owner == p && child.visible
    ensures child.expandLeft == (p.expandLeft == fits)
  {
    p.openChild := child;
    p.childItem := item;
    p.openChild.expandLeft := p.expandLeft;
    p.openChild.Show(p, fits);
    forall q | q in popups ensures LinkedAt(q, popups, items) {
      assert old(LinkedAt(q, popups, items));
    }
  }

  /** Opens `child` below `p`, in place of whatever was open there. */
  method OpenChild(p: Popup, child: Popup, item: FolderItem, fits: bool, ghost popups: set<Popup>, ghost items: set<FolderItem>)
    returns (ghost below: seq<Popup>)
    requires Inv(popups, items) && item in items && item.parent == p && item.popup == child && p.visible
    modifies popups, items
    ensures Linked(popups, items) && Lit(items, popups, {item})
    ensures p.openChild == child && p.childItem == item && child.owner == p && child.visible
    ensures old(p.openChild) == child ==> below == [] && OthersUnchanged(popups, {})
    ensures old(p.openChild) != child ==>
              && below == old(Below(p, popups, items))
              && (forall q :: q in below ==> q.Closed())
              && child.expandLeft == (old(p.expandLeft) == fits)
              && OthersUnchanged(popups, Members(below) + {p, child})
  {
    hide Above, Below;
    OwnedThroughItem(item, popups, items);
    assert LinkedAt(p, popups, items) && LinkedAt(child, popups, items);
    below := [];
    if child != p.openChild {
      below := CloseChild(p, popups, items);
      hide Linked;
      Link(p, child, item, fits, popups, items);
    }
  }

  /** The mouse moves over a folder item of a visible popup: its popup is open below its parent,
      and whatever else was open there has been closed, down to the last popup. */
  method MouseMove(item: FolderItem, fits: bool, ghost popups: set<Popup>, ghost items: set<FolderItem>)
    returns (ghost below: seq<Popup>)
    requires Inv(popups, items) && item in items && item.parent.visible
    modifies popups, items
    ensures Inv(popups, items)
    ensures item.open && item.parent.openChild == item.popup && item.popup.owner == item.parent
    ensures old(item.parent.openChild) == item.popup ==> OthersUnchanged(popups, {})
    ensures old(item.parent.openChild) != item.popup ==>
              && below == old(Below(item.parent, popups, items))
              && (forall q :: q in below ==> q.Closed())
              && OthersUnchanged(popups, Members(below) + {item.parent, item.popup})
  {
    hide Above, Below;
    below := OpenChild(item.parent, item.popup, item, fits, popups, items);
    item.open := true;
  }

  /** A popup is shown at the root, by its bang command. */
  method ShowRoot(p: Popup, fits: bool, ghost popups: set<Popup>, ghost items: set<FolderItem>)
    requires p in popups && Inv(popups, items) && p.owner == null
    modifies p`owner, p`visible, p`expandLeft
    ensures Inv(popups, items) && p.visible && ChainOf(p, popups, items)[0] == p
  {
    p.Show(null, fits);
    forall q | q in popups ensures LinkedAt(q, popups, items) {
      assert old(LinkedAt(q, popups, items));
    }
  }

  // ----- Losing the focus

  predicate HasFocus(p: Popup, newActive: nat)
    reads p
  {
    p.window == newActive || p.mouseOver
  }

  /** Whether the focus stays within the chain of `p`, looked for in one or both directions. */
  function CheckFocus(p: Popup, newActive: nat, direction: Direction, ghost popups: set<Popup>, ghost items: set<FolderItem>): bool
    requires p in popups && Inv(popups, items)
    reads popups, items
    decreases direction.Both?, if direction.Up? then p.level else p.height
  {
    assert LinkedAt(p, popups, items);
    assert p.owner != null ==> LinkedAt(p.owner, popups, items);
    HasFocus(p, newActive)
    || (!direction.Down? && p.owner != null && CheckFocus(p.owner, newActive, Up, popups, items))
    || (!direction.Up? && p.openChild != null && CheckFocus(p.openChild, newActive, Down, popups, items))
  }

  ghost predicate FocusInChain(p: Popup, newActive: nat, popups: set<Popup>, items: set<FolderItem>)
    requires p in popups && Inv(popups, items)
    reads popups, items
  {
    exists q :: q in popups && q in ChainOf(p, popups, items) && (q.window == newActive || q.mouseOver)
  }

  lemma {:induction false} CheckFocusUp(p: Popup, newActive: nat, popups: set<Popup>, items: set<FolderItem>)
    requires p in popups && Inv(popups, items)
    ensures CheckFocus(p, newActive, Up, popups, items) <==>
            exists q :: q in Above(p, popups, items) + [p] && (q.window == newActive || q.mouseOver)
    decreases p.level
  {
    assert p in Above(p, popups, items) + [p];
    if p.owner != null {
      assert LinkedAt(p, popups, items) && LinkedAt(p.owner, popups, items);
      CheckFocusUp(p.owner, newActive, popups, items);
    }
  }

  lemma {:induction false} CheckFocusDown(p: Popup, newActive: nat, popups: set<Popup>, items: set<FolderItem>)
    requires p in popups && Inv(popups, items)
    ensures CheckFocus(p, newActive, Down, popups, items) <==>
            exists q :: q in [p] + Below(p, popups, items) && (q.window == newActive || q.mouseOver)
    decreases p.height
  {
    assert p in [p] + Below(p, popups, items);
    if p.openChild != null {
      assert LinkedAt(p, popups, items);
      CheckFocusDown(p.openChild, newActive, popups, items);
    }
  }

  /** Asked in both directions, the check covers exactly the chain. */
  lemma CheckFocusCoversChain(p: Popup, newActive: nat, popups: set<Popup>, items: set<FolderItem>)
    requires p in popups && Inv(popups, items)
    ensures CheckFocus(p, newActive, Both, popups, items) <==> FocusInChain(p, newActive, popups, items)
  {
    hide Chain, Joined, Nested, ItemsIn, Above, Below;
    ChainOfIsChain(p, popups, items);
    assert LinkedAt(p, popups, items);
    CheckFocusUp(p, newActive, popups, items);
    CheckFocusDown(p, newActive, popups, items);
    if p.owner != null { CheckFocusUp(p.owner, newActive, popups, items); }
    if p.openChild != null { CheckFocusDown(p.openChild, newActive, popups, items); }
    assert p in ChainOf(p, popups, items);
  }

  /** A visible popup loses the focus: the whole chain closes, unless the focus or the mouse is
      on some popup of the chain; then nothing changes. */
  method Deactivate(p: Popup, newActive: nat, ghost popups: set<Popup>, ghost items: set<FolderItem>)
    requires p in popups && Inv(popups, items)
    modifies popups, items
    ensures Inv(popups, items)
    ensures if old(p.visible) && !old(FocusInChain(p, newActive, popups, items))
            then forall q :: q in old(ChainOf(p, popups, items)) ==> q.Closed()
            else OthersUnchanged(popups, {})
  {
    hide ChainOf;
    CheckFocusCoversChain(p, newActive, popups, items);
    if p.visible && !CheckFocus(p, newActive, Both, popups, items) {
      ghost var chain := Close(p, popups, items);
    }
  }
}
