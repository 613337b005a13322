/** Laying out items of one size in rows and columns (nShared/LayoutSettings.cpp). */
module Layout {

  datatype StartPosition = TopLeft | TopRight | BottomLeft | BottomRight
  datatype Direction = Horizontal | Vertical
  datatype Rect = Rect(left: int, top: int, right: int, bottom: int)

  datatype LayoutSettings = LayoutSettings(padding: Rect, columnSpacing: int, rowSpacing: int, start: StartPosition, primary: Direction)

  datatype Size = Size(width: int, height: int)

  /** Division as C does it: towards zero. */
  function TruncDiv(a: int, b: int): int
    requires b != 0
  {
    if (a >= 0) == (b >= 0) then Abs(a) / Abs(b) else -(Abs(a) / Abs(b))
  }

  function Abs(a: int): nat {
    if a < 0 then -a else a
  }

  /** Items take up room, and so do items with the spacing behind them. */
  predicate Sensible(s: LayoutSettings, item: Size) {
    item.width > 0 && item.height > 0 && s.columnSpacing >= 0 && s.rowSpacing >= 0
  }

  function ItemsPerColumn(s: LayoutSettings, itemHeight: int, containerHeight: int): int
    requires itemHeight + s.rowSpacing != 0
  {
    var n := TruncDiv(containerHeight - s.padding.top - s.padding.bottom + s.rowSpacing, itemHeight + s.rowSpacing);
    if n < 1 then 1 else n
  }

  function ItemsPerRow(s: LayoutSettings, itemWidth: int, containerWidth: int): int
    requires itemWidth + s.columnSpacing != 0
  {
    var n := TruncDiv(containerWidth - s.padding.left - s.padding.right + s.columnSpacing, itemWidth + s.columnSpacing);
    if n < 1 then 1 else n
  }

  function ItemLimit(s: LayoutSettings, item: Size, container: Size): int
    requires Sensible(s, item)
  {
    ItemsPerColumn(s, item.height, container.height) * ItemsPerRow(s, item.width, container.width)
  }

  lemma AtLeastOne(s: LayoutSettings, item: Size, container: Size)
    requires Sensible(s, item)
    ensures ItemsPerColumn(s, item.height, container.height) >= 1 && ItemsPerRow(s, item.width, container.width) >= 1
  {
    hide TruncDiv;
  }

  datatype Cell = Cell(row: nat, column: nat)

  /** The line an item is in, with `per` items to a line, and its place there. */
  function Line(id: nat, per: int): nat
    requires per >= 1
  {
    id / per
  }

  function Place(id: nat, per: int): nat
    requires per >= 1
  {
    id % per
  }

  function CellFromID(s: LayoutSettings, id: nat, item: Size, container: Size): Cell
    requires Sensible(s, item)
  {
    AtLeastOne(s, item, container);
    hide ItemsPerColumn, ItemsPerRow;
    match s.primary
    case Vertical =>
      var perColumn := ItemsPerColumn(s, item.height, container.height);
      Cell(Place(id, perColumn), Line(id, perColumn))
    case Horizontal =>
      var perRow := ItemsPerRow(s, item.width, container.width);
      Cell(Line(id, perRow), Place(id, perRow))
  }

  function RectFromCell(s: LayoutSettings, cell: Cell, item: Size, container: Size): Rect {
    var across := cell.column * (item.width + s.columnSpacing);
    var down := cell.row * (item.height + s.rowSpacing);
    var left :=
      if s.start in {TopLeft, BottomLeft} then s.padding.left + across
      else container.width - s.padding.right - across - item.width;
    var top :=
      if s.start in {TopLeft, TopRight} then s.padding.top + down
      else container.height - s.padding.bottom - down - item.height;
    Rect(left, top, left + item.width, top + item.height)
  }

  function RectFromID(s: LayoutSettings, id: nat, item: Size, container: Size): Rect
    requires Sensible(s, item)
  {
    RectFromCell(s, CellFromID(s, id, item, container), item, container)
  }

  // ----- How many items fit

  /** The room that `n` items with spacing between them need. */
  function Needed(n: int, length: int, spacing: int): int {
    n * length + (n - 1) * spacing
  }

  lemma LargestQuotient(room: int, length: int, spacing: int, n: int)
    requires length > 0 && spacing >= 0 && n >= 1
    ensures n <= TruncDiv(room + spacing, length + spacing) <==> Needed(n, length, spacing) <= room
  {
    var step := length + spacing;
    var total := room + spacing;
    assert Needed(n, length, spacing) + spacing == n * step by {
      assert n * step == n * length + n * spacing;
      assert n * spacing == (n - 1) * spacing + spacing;
    }
    if total >= 0 {
      QuotientBound(total, step, n);
    } else {
      assert n * step >= step by { MulOrder(1, n, step); }
      assert TruncDiv(total, step) <= 0;
    }
  }

  lemma MulOrder(a: int, b: int, step: int)
    requires a <= b && step >= 0
    ensures a * step <= b * step
  {
  }

  lemma QuotientBound(total: int, step: int, n: int)
    requires total >= 0 && step > 0
    ensures n <= total / step <==> n * step <= total
  {
    var q := total / step;
    assert total == q * step + total % step;
    if n <= q {
      MulOrder(n, q, step);
    } else {
      MulOrder(q + 1, n, step);
      assert (q + 1) * step == q * step + step;
    }
  }

  /** A row holds as many items as fit into the padded width, and at least one. */
  lemma ItemsPerRowIsMaximal(s: LayoutSettings, itemWidth: int, containerWidth: int, n: int)
    requires itemWidth > 0 && s.columnSpacing >= 0 && n >= 1
    ensures n <= ItemsPerRow(s, itemWidth, containerWidth)
       <==> n == 1 || Needed(n, itemWidth, s.columnSpacing) <= containerWidth - s.padding.left - s.padding.right
  {
    LargestQuotient(containerWidth - s.padding.left - s.padding.right, itemWidth, s.columnSpacing, n);
  }

  lemma ItemsPerColumnIsMaximal(s: LayoutSettings, itemHeight: int, containerHeight: int, n: int)
    requires itemHeight > 0 && s.rowSpacing >= 0 && n >= 1
    ensures n <= ItemsPerColumn(s, itemHeight, containerHeight)
       <==> n == 1 || Needed(n, itemHeight, s.rowSpacing) <= containerHeight - s.padding.top - s.padding.bottom
  {
    LargestQuotient(containerHeight - s.padding.top - s.padding.bottom, itemHeight, s.rowSpacing, n);
  }

  // ----- Cells

  lemma DivMod(id: nat, per: int)
    requires per >= 1
    ensures id / per >= 0 && 0 <= id % per < per && id == id / per * per + id % per
  {
  }

  lemma DivLess(id: nat, per: int, lines: int)
    requires per >= 1 && lines >= 0
    ensures id < lines * per <==> id / per < lines
  {
    DivMod(id, per);
    if id / per < lines {
      MulOrder(id / per + 1, lines, per);
      assert (id / per + 1) * per == id / per * per + per;
    } else {
      MulOrder(lines, id / per, per);
    }
  }

  /** The cells within the limit are those whose row and column both exist. */
  lemma CellWithinLimit(s: LayoutSettings, id: nat, item: Size, container: Size)
    requires Sensible(s, item)
    ensures id < ItemLimit(s, item, container)
       <==> && CellFromID(s, id, item, container).row < ItemsPerColumn(s, item.height, container.height)
            && CellFromID(s, id, item, container).column < ItemsPerRow(s, item.width, container.width)
  {
    AtLeastOne(s, item, container);
    hide ItemsPerColumn, ItemsPerRow;
    var rows, columns := ItemsPerColumn(s, item.height, container.height), ItemsPerRow(s, item.width, container.width);
    if s.primary.Vertical? {
      DivMod(id, rows);
      DivLess(id, rows, columns);
      assert rows * columns == columns * rows;
    } else {
      DivMod(id, columns);
      DivLess(id, columns, rows);
    }
  }

  lemma CellsDiffer(s: LayoutSettings, a: nat, b: nat, item: Size, container: Size)
    requires Sensible(s, item) && a != b
    ensures CellFromID(s, a, item, container) != CellFromID(s, b, item, container)
  {
    AtLeastOne(s, item, container);
    hide ItemsPerColumn, ItemsPerRow;
    var per := if s.primary.Vertical? then ItemsPerColumn(s, item.height, container.height) else ItemsPerRow(s, item.width, container.width);
    DivMod(a, per);
    DivMod(b, per);
  }

  // ----- Rectangles

  predicate Disjoint(a: Rect, b: Rect) {
    a.right <= b.left || b.right <= a.left || a.bottom <= b.top || b.bottom <= a.top
  }

  /** A rectangle that keeps clear of the padding. */
  predicate Inside(s: LayoutSettings, r: Rect, container: Size) {
    && s.padding.left <= r.left && r.right <= container.width - s.padding.right
    && s.padding.top <= r.top && r.bottom <= container.height - s.padding.bottom
  }

  lemma Apart(a: int, b: int, length: int, spacing: int)
    requires a < b && length > 0 && spacing >= 0
    ensures a * (length + spacing) + length <= b * (length + spacing)
  {
    MulOrder(a + 1, b, length + spacing);
    assert (a + 1) * (length + spacing) == a * (length + spacing) + (length + spacing);
  }

  /** Two positions never share a pixel, whatever the corner and the direction. */
  lemma RectsDisjoint(s: LayoutSettings, a: nat, b: nat, item: Size, container: Size)
    requires Sensible(s, item) && a != b
    ensures Disjoint(RectFromID(s, a, item, container), RectFromID(s, b, item, container))
  {
    hide CellFromID;
    CellsDiffer(s, a, b, item, container);
    var p, q := CellFromID(s, a, item, container), CellFromID(s, b, item, container);
    CellsDisjoint(s, p, q, item, container);
  }

  lemma CellsDisjoint(s: LayoutSettings, p: Cell, q: Cell, item: Size, container: Size)
    requires Sensible(s, item) && p != q
    ensures Disjoint(RectFromCell(s, p, item, container), RectFromCell(s, q, item, container))
  {
    if p.column < q.column {
      Apart(p.column, q.column, item.width, s.columnSpacing);
    } else if q.column < p.column {
      Apart(q.column, p.column, item.width, s.columnSpacing);
    } else if p.row < q.row {
      Apart(p.row, q.row, item.height, s.rowSpacing);
    } else {
      Apart(q.row, p.row, item.height, s.rowSpacing);
    }
  }

  lemma CellInside(s: LayoutSettings, cell: Cell, item: Size, container: Size)
    ensures Inside(s, RectFromCell(s, cell, item, container), container)
       <==> && cell.column * (item.width + s.columnSpacing) >= 0 && cell.row * (item.height + s.rowSpacing) >= 0
            && Needed(cell.column + 1, item.width, s.columnSpacing) <= container.width - s.padding.left - s.padding.right
            && Needed(cell.row + 1, item.height, s.rowSpacing) <= container.height - s.padding.top - s.padding.bottom
  {
    assert Needed(cell.column + 1, item.width, s.columnSpacing) == cell.column * (item.width + s.columnSpacing) + item.width;
    assert Needed(cell.row + 1, item.height, s.rowSpacing) == cell.row * (item.height + s.rowSpacing) + item.height;
  }

  /** A position lies inside the padding exactly if one item fits there at all and the position is
      below the limit. */
  lemma InsideIffWithinLimit(s: LayoutSettings, id: nat, item: Size, container: Size)
    requires Sensible(s, item)
    ensures Inside(s, RectFromID(s, id, item, container), container)
       <==> && item.width <= container.width - s.padding.left - s.padding.right
            && item.height <= container.height - s.padding.top - s.padding.bottom
            && id < ItemLimit(s, item, container)
  {
    hide CellFromID, ItemLimit, ItemsPerRow, ItemsPerColumn, RectFromCell, Inside;
    var cell := CellFromID(s, id, item, container);
    CellWithinLimit(s, id, item, container);
    CellInside(s, cell, item, container);
    ItemsPerRowIsMaximal(s, item.width, container.width, cell.column + 1);
    ItemsPerColumnIsMaximal(s, item.height, container.height, cell.row + 1);
    MulOrder(0, cell.column, item.width + s.columnSpacing);
    MulOrder(0, cell.row, item.height + s.rowSpacing);
    if Needed(cell.column + 1, item.width, s.columnSpacing) <= container.width - s.padding.left - s.padding.right {
      OneFits(cell.column + 1, item.width, s.columnSpacing);
    }
    if Needed(cell.row + 1, item.height, s.rowSpacing) <= container.height - s.padding.top - s.padding.bottom {
      OneFits(cell.row + 1, item.height, s.rowSpacing);
    }
  }

  lemma OneFits(n: int, length: int, spacing: int)
    requires n >= 1 && length > 0 && spacing >= 0
    ensures length <= Needed(n, length, spacing) && Needed(1, length, spacing) == length
  {
    MulOrder(1, n, length);
    MulOrder(0, n - 1, spacing);
  }

  // ----- Where the items are

  /** The first item lies in the corner the items start from, against the padding, and every item
      has the item size. */
  lemma StartsInCorner(s: LayoutSettings, id: nat, item: Size, container: Size)
    requires Sensible(s, item)
    ensures var r := RectFromID(s, id, item, container); r.right == r.left + item.width && r.bottom == r.top + item.height
    ensures var first := RectFromID(s, 0, item, container);
            match s.start
            case TopLeft => first.left == s.padding.left && first.top == s.padding.top
            case TopRight => first.right == container.width - s.padding.right && first.top == s.padding.top
            case BottomLeft => first.left == s.padding.left && first.bottom == container.height - s.padding.bottom
            case BottomRight => first.right == container.width - s.padding.right && first.bottom == container.height - s.padding.bottom
  {
    AtLeastOne(s, item, container);
    hide ItemsPerColumn, ItemsPerRow;
  }

  lemma NextInLine(id: nat, per: int)
    requires per >= 1
    ensures (id + 1) % per != 0 ==> Line(id + 1, per) == Line(id, per) && Place(id + 1, per) == Place(id, per) + 1
    ensures (id + 1) % per == 0 ==> Line(id + 1, per) == Line(id, per) + 1 && Place(id + 1, per) == 0
  {
    var q, r := id / per, id % per;
    assert id + 1 == q * per + (r + 1);
    if r + 1 < per {
      QuotientIs(id + 1, per, q, r + 1);
    } else {
      assert (q + 1) * per == q * per + per;
      QuotientIs(id + 1, per, q + 1, 0);
    }
  }

  lemma QuotientIs(n: nat, per: int, q: int, r: int)
    requires per >= 1 && n == q * per + r && 0 <= r < per
    ensures n / per == q && n % per == r
  {
    DivMod(n, per);
    var d := n / per - q;
    assert d * per == n / per * per - q * per;
    if d >= 1 {
      MulOrder(1, d, per);
    } else if d <= -1 {
      MulOrder(d, -1, per);
    }
  }

  lemma OneFurther(k: int, step: int)
    ensures (k + 1) * step == k * step + step
  {
  }

  /** Going through the items along rows: the next item is one item and the spacing further away
      from the side the items start from, at the same height; behind the last one of a row it is
      back at that side, one item and the spacing further down or up. */
  lemma NextAlongRows(s: LayoutSettings, id: nat, item: Size, container: Size)
    requires Sensible(s, item) && s.primary.Horizontal?
    ensures ItemsPerRow(s, item.width, container.width) >= 1
    ensures var here, next := RectFromID(s, id, item, container), RectFromID(s, id + 1, item, container);
            var first := RectFromID(s, 0, item, container);
            var across, down := item.width + s.columnSpacing, item.height + s.rowSpacing;
            if (id + 1) % ItemsPerRow(s, item.width, container.width) != 0
            then next.left == (if s.start.TopLeft? || s.start.BottomLeft? then here.left + across else here.left - across) && next.top == here.top
            else next.left == first.left && next.top == (if s.start.TopLeft? || s.start.TopRight? then here.top + down else here.top - down)
  {
    AtLeastOne(s, item, container);
    hide ItemsPerColumn, ItemsPerRow, Line, Place;
    var per := ItemsPerRow(s, item.width, container.width);
    NextInLine(id, per);
    FirstOfAll(per);
    OneFurther(Place(id, per), item.width + s.columnSpacing);
    OneFurther(Line(id, per), item.height + s.rowSpacing);
  }

  /** The same along columns. */
  lemma NextAlongColumns(s: LayoutSettings, id: nat, item: Size, container: Size)
    requires Sensible(s, item) && s.primary.Vertical?
    ensures ItemsPerColumn(s, item.height, container.height) >= 1
    ensures var here, next := RectFromID(s, id, item, container), RectFromID(s, id + 1, item, container);
            var first := RectFromID(s, 0, item, container);
            var across, down := item.width + s.columnSpacing, item.height + s.rowSpacing;
            if (id + 1) % ItemsPerColumn(s, item.height, container.height) != 0
            then next.top == (if s.start.TopLeft? || s.start.TopRight? then here.top + down else here.top - down) && next.left == here.left
            else next.top == first.top && next.left == (if s.start.TopLeft? || s.start.BottomLeft? then here.left + across else here.left - across)
  {
    AtLeastOne(s, item, container);
    hide ItemsPerColumn, ItemsPerRow, Line, Place;
    var per := ItemsPerColumn(s, item.height, container.height);
    NextInLine(id, per);
    FirstOfAll(per);
    OneFurther(Place(id, per), item.height + s.rowSpacing);
    OneFurther(Line(id, per), item.width + s.columnSpacing);
  }

  lemma FirstOfAll(per: int)
    requires per >= 1
    ensures Line(0, per) == 0 && Place(0, per) == 0
  {
  }
}
