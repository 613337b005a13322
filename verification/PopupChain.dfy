/** The chain of open popups (nPopup/Popup.cpp, nPopup/FolderItem.cpp). Popups link to the popup
    that opened them and to the one they opened; closing any of them closes all, by mutual
    recursion of Close and CloseChild in both directions. */
module PopupChain {

  /** An item that opens a popup of its own. `open` is its highlight. */
  class FolderItem {
    const parent: Popup
    const popup: Popup
    var open: bool

    constructor (parent: Popup, popup: Popup)
      ensures this.parent == parent && this.popup == popup && !open
    {
      this.parent := parent;
      this.popup := popup;
      open := false;
    }

    method ClosingPopup()
      modifies this
      ensures !open
    {
      open := false;
    }
  }

  datatype Direction = Up | Down | Both

  class Popup {
    const window: nat
    const expandLeftSetting: bool
    /** How deep this popup is nested in folders, and how deep folders are nested in it. */
    ghost const level: nat
    ghost const height: nat

    var visible: bool
    var mouseOver: bool
    var expandLeft: bool
    var owner: Popup?
    var openChild: Popup?
    var childItem: FolderItem?

    constructor (window: nat, expandLeftSetting: bool, ghost level: nat, ghost height: nat)
      ensures this.window == window && this.level == level && this.height == height
      ensures this.expandLeftSetting == expandLeftSetting && Closed()
    {
      this.window := window;
      this.expandLeftSetting := expandLeftSetting;
      this.level := level;
      this.height := height;
      visible, mouseOver, expandLeft := false, false, expandLeftSetting;
      owner, openChild, childItem := null, null, null;
    }

    ghost predicate Closed()
      reads this
    {
      && !visible && !mouseOver && expandLeft == expandLeftSetting
      && owner == null && openChild == null && childItem == null
    }

    /** Shows this popup for `newOwner`. Whether it fits on the side it prefers is decided by the
        geometry of the screen; if not, it flips. */
    method Show(newOwner: Popup?, fits: bool)
      modifies this`owner, this`visible, this`expandLeft
      ensures owner == newOwner && visible
      ensures expandLeft == (old(expandLeft) == fits)
    {
      owner := newOwner;
      if !fits {
        expandLeft := !expandLeft;
      }
      visible := true;
    }

    /** Closes whatever this popup has opened: the popups of `c` from `i + 1` to `hi`. */
    method CloseChild(ghost c: seq<Popup>, ghost i: nat, ghost hi: nat, ghost items: set<FolderItem>)
      requires i < hi <= |c| && c[i] == this && Nested(c)
      requires Joined(c, i, hi) && Ends(c, hi) && ItemsIn(c, items)
      requires Highlights(Part(c, i, hi), items)
      modifies this`openChild, this`childItem, Part(c, i + 1, hi), items
      ensures openChild == null && childItem == null
      ensures forall k :: i < k < hi ==> c[k].Closed()
      ensures Dimmed(Part(c, i, hi), items)
      decreases hi - i, 0
    {
      hide Part;
      PartMembers(c, i + 1, hi);
      PartSplit(c, i, i, hi);
      if openChild != null {
        assert openChild == c[i + 1];
        openChild.owner := null;
        childItem.ClosingPopup();
        openChild.Close(c, i + 1, i + 1, hi, items);
        childItem := null;
        openChild := null;
      }
    }

    /** Closes this popup and everything linked to it: the popups of `c` from `lo` to `hi`. */
    method Close(ghost c: seq<Popup>, ghost lo: nat, ghost i: nat, ghost hi: nat, ghost items: set<FolderItem>)
      requires lo <= i < hi <= |c| && c[i] == this && Nested(c)
      requires Chain(c, lo, hi) && ItemsIn(c, items)
      requires Highlights(Part(c, lo, hi), items)
      modifies Part(c, lo, hi), items
      ensures forall k :: lo <= k < hi ==> c[k].Closed()
      ensures Dimmed(Part(c, lo, hi), items)
      decreases hi - lo, 2
    {
      hide Part;
      PartSplit(c, lo, i, hi);
      PartSplit(c, i, i, hi);
      PartMembers(c, lo, i);
      PartMembers(c, i + 1, hi);
      CloseDownward(c, i, hi, items);
      CloseOwner(c, lo, i, items);
    }

    /** The first half of Close: everything but letting go of the owner. */
    method CloseDownward(ghost c: seq<Popup>, ghost i: nat, ghost hi: nat, ghost items: set<FolderItem>)
      requires i < hi <= |c| && c[i] == this && Nested(c)
      requires Joined(c, i, hi) && Ends(c, hi) && ItemsIn(c, items)
      requires Highlights(Part(c, i, hi), items)
      modifies this`visible, this`expandLeft, this`mouseOver, this`openChild, this`childItem
      modifies Part(c, i + 1, hi), items
      ensures !visible && !mouseOver && expandLeft == expandLeftSetting && openChild == null && childItem == null
      ensures forall k :: i < k < hi ==> c[k].Closed()
      ensures Dimmed(Part(c, i, hi), items)
      decreases hi - i, 1
    {
      hide Part;
      PartMembers(c, i + 1, hi);
      PartSplit(c, i, i, hi);
      visible := false;
      expandLeft := expandLeftSetting;
      CloseChild(c, i, hi, items);
      mouseOver := false;
    }

    /** The tail of Close: lets go of the owner and closes it too. */
    method CloseOwner(ghost c: seq<Popup>, ghost lo: nat, ghost i: nat, ghost items: set<FolderItem>)
      requires lo <= i < |c| && c[i] == this && Nested(c)
      requires c[lo].owner == null && ItemsIn(c, items)
      requires lo < i ==> Joined(c, lo, i) && owner == c[i - 1] && c[i - 1].childItem != null
      requires Highlights(Part(c, lo, i), items)
      modifies this`owner, Part(c, lo, i), items
      ensures owner == null
      ensures forall k :: lo <= k < i ==> c[k].Closed()
      ensures Dimmed(Part(c, lo, i), items)
      decreases i - lo, 3
    {
      hide Part;
      PartMembers(c, lo, i);
      PartSplit(c, lo, i, i + 1);
      if owner != null {
        assert owner == c[i - 1];
        owner.openChild := null;
        owner.childItem.ClosingPopup();
        owner.childItem := null;
        var wasOwner := owner;
        owner := null;
        wasOwner.Close(c, lo, i - 1, i, items);
      }
    }
  }

  // ----- Chains

  /** Nesting grows along the sequence, so no popup occurs twice. */
  ghost predicate Nested(c: seq<Popup>) {
    forall j, k :: 0 <= j < k < |c| ==> c[j].level < c[k].level
  }

  ghost function Part(c: seq<Popup>, lo: nat, hi: nat): set<Popup>
    requires lo <= hi <= |c|
  {
    set k | lo <= k < hi :: c[k]
  }

  lemma PartMembers(c: seq<Popup>, lo: nat, hi: nat)
    requires lo <= hi <= |c| && Nested(c)
    ensures forall k :: 0 <= k < |c| ==> (c[k] in Part(c, lo, hi) <==> lo <= k < hi)
  {
  }

  lemma PartSplit(c: seq<Popup>, lo: nat, i: nat, hi: nat)
    requires lo <= i < hi <= |c| && Nested(c)
    ensures Part(c, lo, hi) == Part(c, lo, i) + {c[i]} + Part(c, i + 1, hi)
    ensures (lo == i ==> Part(c, lo, i) == {}) && (i + 1 == hi ==> Part(c, i + 1, hi) == {})
    ensures Part(c, lo, i) !! {c[i]} !! Part(c, i + 1, hi)
  {
  }

  /** From `lo` to `hi`, neighbours are linked both ways. */
  ghost predicate Joined(c: seq<Popup>, lo: nat, hi: nat)
    requires hi <= |c|
    reads c
  {
    && (forall k {:trigger c[k].openChild} :: lo <= k < hi - 1 ==> c[k].openChild == c[k + 1])
    && (forall k {:trigger c[k].childItem} :: lo <= k < hi - 1 ==> c[k].childItem != null)
    && (forall k {:trigger c[k].owner} :: lo < k < hi ==> c[k].owner == c[k - 1])
  }

  /** The popup before `hi` has opened nothing. */
  ghost predicate Ends(c: seq<Popup>, hi: nat)
    requires 0 < hi <= |c|
    reads c
  {
    c[hi - 1].openChild == null && c[hi - 1].childItem == null
  }

  /** From `lo` to `hi` there is a whole chain, from the popup nobody opened to the one that
      opened nothing. */
  ghost predicate Chain(c: seq<Popup>, lo: nat, hi: nat)
    requires lo < hi <= |c|
    reads c
  {
    c[lo].owner == null && Joined(c, lo, hi) && Ends(c, hi)
  }

  /** The items through which the popups of `c` opened their children are among `items`. */
  ghost predicate ItemsIn(c: seq<Popup>, items: set<FolderItem>)
    reads c
  {
    forall p :: p in c && p.childItem != null ==> p.childItem in items && p.childItem.parent == p
  }

  /** Only items whose popup is open are highlighted, as far as their parents are in `part`. */
  ghost predicate Highlights(part: set<Popup>, items: set<FolderItem>)
    reads part, items
  {
    forall i :: i in items && i.parent in part && i.open ==> i.parent.childItem == i
  }

  /** The items of the popups in `part` have lost their highlight, the others are as before. */
  twostate predicate Dimmed(part: set<Popup>, items: set<FolderItem>)
    reads items
  {
    forall i :: i in items ==> i.open == (old(i.open) && i.parent !in part)
  }
}
