/** The tiles of a group and the positions they take (nIcon/TileGroup.cpp). */
module TileGroups {
  import opened Layout

  /** A tile shows an item; it has a position in the group and the corner of its rectangle. */
  datatype Tile = Tile(item: string, position: nat, left: int, top: int)

  function Positions(tiles: seq<Tile>): (r: set<nat>) {
    set t | t in tiles :: t.position
  }

  /** The tiles that do not show `item`. */
  function Others(tiles: seq<Tile>, item: string): seq<Tile> {
    if tiles == [] then []
    else if tiles[0].item == item then Others(tiles[1..], item)
    else [tiles[0]] + Others(tiles[1..], item)
  }

  function Showing(tiles: seq<Tile>, item: string): set<nat> {
    set t | t in tiles && t.item == item :: t.position
  }

  ghost predicate DistinctPositions(tiles: seq<Tile>) {
    forall i, j :: 0 <= i < j < |tiles| ==> tiles[i].position != tiles[j].position
  }

  lemma {:induction false} OthersMembers(tiles: seq<Tile>, item: string)
    ensures forall t :: t in Others(tiles, item) <==> t in tiles && t.item != item
    ensures DistinctPositions(tiles) ==> DistinctPositions(Others(tiles, item))
    ensures |Others(tiles, item)| <= |tiles|
  {
    if tiles != [] {
      var rest := tiles[1..];
      OthersMembers(rest, item);
      assert forall t :: t in tiles <==> t == tiles[0] || t in rest;
      assert forall i :: 0 <= i < |rest| ==> rest[i] == tiles[i + 1];
    }
  }

  /** The order of the remaining tiles stays as it was: taking out is done piece by piece. */
  lemma {:induction false} OthersInOrder(a: seq<Tile>, b: seq<Tile>, item: string)
    ensures Others(a + b, item) == Others(a, item) + Others(b, item)
    ensures forall t: Tile :: t.item != item ==> Others([t], item) == [t]
  {
    if a == [] {
      assert a + b == b;
    } else {
      assert (a + b)[1..] == a[1..] + b;
      OthersInOrder(a[1..], b, item);
    }
  }

  /** Tiles with distinct positions take as many positions as there are tiles. */
  lemma {:induction false} CountPositions(tiles: seq<Tile>)
    requires DistinctPositions(tiles)
    ensures |Positions(tiles)| == |tiles|
  {
    if tiles != [] {
      var init, last := tiles[..|tiles| - 1], tiles[|tiles| - 1];
      CountPositions(init);
      assert tiles == init + [last];
      assert Positions(tiles) == Positions(init) + {last.position};
      assert last.position !in Positions(init);
    }
  }

  function UpTo(n: nat): set<nat> {
    if n == 0 then {} else UpTo(n - 1) + {n - 1}
  }

  lemma {:induction false} CountUpTo(n: nat)
    ensures |UpTo(n)| == n && forall p :: p in UpTo(n) ==> p < n
  {
    if n > 0 {
      CountUpTo(n - 1);
    }
  }

  lemma SubsetCount(a: set<nat>, b: set<nat>)
    requires a <= b
    ensures |a| <= |b|
  {
    assert b == a + (b - a);
  }

  lemma {:induction false} LeastExists(s: set<nat>, p: nat)
    requires p in s
    ensures exists least :: least in s && forall q :: q in s ==> least <= q
    decreases p
  {
    if q :| q in s && q < p {
      LeastExists(s, q);
    }
  }

  class TileGroup {
    const layout: LayoutSettings
    const tileSize: Size
    const size: Size
    var emptySpots: set<nat>
    var nextPositionID: nat
    var tiles: seq<Tile>

    constructor (layout: LayoutSettings, tileSize: Size, size: Size)
      requires Sensible(layout, tileSize)
      ensures Valid() && tiles == []
      ensures this.layout == layout && this.tileSize == tileSize && this.size == size
    {
      this.layout, this.tileSize, this.size := layout, tileSize, size;
      emptySpots, nextPositionID, tiles := {}, 0, [];
    }

    ghost predicate Placed(t: Tile)
      requires Sensible(layout, tileSize)
    {
      var r := RectFromID(layout, t.position, tileSize, size);
      t.left == r.left && t.top == r.top
    }

    /** The tiles and the empty spots share out the positions handed out so far. */
    ghost predicate Valid()
      reads this
    {
      && Sensible(layout, tileSize)
      && DistinctPositions(tiles)
      && Positions(tiles) !! emptySpots
      && (forall p: nat :: p in Positions(tiles) || p in emptySpots <==> p < nextPositionID)
      && forall t :: t in tiles ==> Placed(t)
    }

    method GetIconPosition() returns (id: nat)
      modifies this`emptySpots, this`nextPositionID
      ensures old(emptySpots) == {} ==> id == old(nextPositionID) && emptySpots == {} && nextPositionID == id + 1
      ensures old(emptySpots) != {} ==>
                id in old(emptySpots) && emptySpots == old(emptySpots) - {id} && nextPositionID == old(nextPositionID)
      ensures forall p :: p in old(emptySpots) ==> id <= p
    {
      if emptySpots != {} {
        ghost var p :| p in emptySpots;
        LeastExists(emptySpots, p);
        id :| id in emptySpots && forall p :: p in emptySpots ==> id <= p;
        emptySpots := emptySpots - {id};
      } else {
        id := nextPositionID;
        nextPositionID := nextPositionID + 1;
      }
    }

    /** A new tile gets the least position that no tile has. While there are fewer tiles than the
        limit, it lies inside the padding. */
    method ItemLoaded(item: string)
      requires Valid()
      modifies this
      ensures Valid() && |tiles| == |old(tiles)| + 1 && tiles[..|old(tiles)|] == old(tiles)
      ensures var t := tiles[|old(tiles)|];
              && t.item == item && t.position !in Positions(old(tiles)) && t.position <= |old(tiles)|
              && forall p: nat :: p < t.position ==> p in Positions(old(tiles))
      ensures OneFits() && |old(tiles)| < ItemLimit(layout, tileSize, size) ==> Inside(layout, RectOf(tiles[|old(tiles)|]), size)
    {
      hide Placed, RectFromID, OneFits, Inside, ItemLimit, RectOf;
      var position := GetIconPosition();
      var pos := RectFromID(layout, position, tileSize, size);
      var icon := Tile(item, position, pos.left, pos.top);
      assert Placed(icon) by { PlacedAtRect(icon); }
      assert position !in Positions(tiles);
      assert forall p: nat :: p < position ==> p in Positions(tiles);
      NoMoreThanTiles(tiles, position);
      tiles := tiles + [icon];
      assert Positions(tiles) == Positions(old(tiles)) + {position};
      assert forall i :: 0 <= i < |old(tiles)| ==> tiles[i].position in Positions(old(tiles));
      InsideIffBelowLimit(icon);
    }

    lemma PlacedAtRect(t: Tile)
      requires Sensible(layout, tileSize)
      requires t.left == RectFromID(layout, t.position, tileSize, size).left && t.top == RectFromID(layout, t.position, tileSize, size).top
      ensures Placed(t)
    {
    }

    method FolderLoaded(items: seq<string>)
      requires Valid()
      modifies this
      ensures Valid() && |tiles| == |old(tiles)| + |items| && tiles[..|old(tiles)|] == old(tiles)
      ensures forall k :: 0 <= k < |items| ==> tiles[|old(tiles)| + k].item == items[k]
    {
      hide DistinctPositions, Placed;
      for k := 0 to |items|
        invariant Valid() && |tiles| == |old(tiles)| + k && tiles[..|old(tiles)|] == old(tiles)
        invariant forall j :: 0 <= j < k ==> tiles[|old(tiles)| + j].item == items[j]
      {
        ghost var before := tiles;
        ItemLoaded(items[k]);
        assert forall j :: 0 <= j < |before| ==> tiles[j] == tiles[..|before|][j];
      }
    }

    /** Every tile of the item goes, and its position is free again. */
    method RemoveIcon(item: string)
      requires Valid()
      modifies this`tiles, this`emptySpots
      ensures Valid() && tiles == Others(old(tiles), item)
      ensures emptySpots == old(emptySpots) + Showing(old(tiles), item)
    {
      hide Placed, Others, Showing, Positions, DistinctPositions;
      OthersMembers(tiles, item);
      RemovalPartitions(tiles, item);
      var kept: seq<Tile> := [];
      var i := 0;
      assert tiles[0..] == tiles;
      NothingShown(item);
      while i < |tiles|
        invariant 0 <= i <= |tiles| && tiles == old(tiles)
        invariant kept + Others(tiles[i..], item) == Others(tiles, item)
        invariant emptySpots == old(emptySpots) + Showing(tiles[..i], item)
      {
        OthersStep(tiles, item, i);
        if tiles[i].item == item {
          emptySpots := emptySpots + {tiles[i].position};
        } else {
          kept := kept + [tiles[i]];
        }
        i := i + 1;
      }
      assert tiles[..i] == tiles && tiles[i..] == [];
      assert kept == Others(tiles, item);
      assert forall t :: t in kept ==> t in tiles;
      assert forall p: nat :: p in Positions(tiles) <==> p in Positions(kept) || p in Showing(tiles, item);
      tiles := kept;
    }

    function RectOf(t: Tile): Rect {
      Rect(t.left, t.top, t.left + tileSize.width, t.top + tileSize.height)
    }

    /** No two tiles overlap. */
    lemma TilesDisjoint(i: nat, j: nat)
      requires Valid() && i < j < |tiles|
      ensures Disjoint(RectOf(tiles[i]), RectOf(tiles[j]))
    {
      hide Disjoint, CellFromID;
      var a, b := tiles[i], tiles[j];
      assert a in tiles && b in tiles;
      RectsDisjoint(layout, a.position, b.position, tileSize, size);
    }

    predicate OneFits()
    {
      && tileSize.width <= size.width - layout.padding.left - layout.padding.right
      && tileSize.height <= size.height - layout.padding.top - layout.padding.bottom
    }

    /** A tile is inside the padding exactly if its position is below the limit. */
    lemma InsideIffBelowLimit(t: Tile)
      requires Valid() && t in tiles
      ensures Inside(layout, RectOf(t), size) <==> OneFits() && t.position < ItemLimit(layout, tileSize, size)
    {
      hide Inside, CellFromID, ItemLimit;
      InsideIffWithinLimit(layout, t.position, tileSize, size);
      assert Placed(t);
    }
  }

  lemma NoMoreThanTiles(tiles: seq<Tile>, position: nat)
    requires DistinctPositions(tiles) && forall p: nat :: p < position ==> p in Positions(tiles)
    ensures position <= |tiles|
  {
    CountPositions(tiles);
    CountUpTo(position);
    SubsetCount(UpTo(position), Positions(tiles));
  }

  lemma RemovalPartitions(tiles: seq<Tile>, item: string)
    requires DistinctPositions(tiles)
    ensures Positions(Others(tiles, item)) + Showing(tiles, item) == Positions(tiles)
    ensures Positions(Others(tiles, item)) !! Showing(tiles, item)
  {
    OthersMembers(tiles, item);
  }

  lemma NothingShown(item: string)
    ensures Showing([], item) == {} && Others([], item) == []
  {
  }

  lemma OthersStep(tiles: seq<Tile>, item: string, i: nat)
    requires i < |tiles|
    ensures Others(tiles[i..], item) == (if tiles[i].item == item then [] else [tiles[i]]) + Others(tiles[i + 1..], item)
    ensures Showing(tiles[..i + 1], item) == Showing(tiles[..i], item) + if tiles[i].item == item then {tiles[i].position} else {}
  {
    assert tiles[i..][1..] == tiles[i + 1..];
    assert tiles[..i + 1] == tiles[..i] + [tiles[i]];
  }
}
