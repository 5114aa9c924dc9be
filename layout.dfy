/**
 * The arena's walls: four fixed boundary rectangles, then one rectangle
 * for every passage slot the generator left closed, horizontal slots
 * first and vertical slots second, each in row-major order.
 */
module Layout {
  import opened Grid
  import opened Passages

  const Width: real := 600.0
  const Height: real := 600.0
  const GridRows: int := 8
  const GridCols: int := 8
  const Border: real := Height / 30.0
  const WallWidth: real := Border / 2.0

  /** A static rectangle given by its centre and its size. */
  datatype WallSpec = WallSpec(x: real, y: real, width: real, height: real)

  datatype Geometry = Geometry(cellWidth: real, cellHeight: real, wallWidth: real)

  /** Cell and wall sizes for a rows x cols maze filling the arena. */
  function ArenaGeometry(rows: int, cols: int): (geo: Geometry)
    requires rows >= 1 && cols >= 1
    ensures geo.cellWidth * cols as real == Width && geo.cellHeight * rows as real == Height
    ensures geo.cellWidth > 0.0 && geo.cellHeight > 0.0 && geo.wallWidth == 10.0
  {
    Geometry(Width / cols as real, Height / rows as real, WallWidth)
  }

  /** The source's 8 x 8 maze: 75-unit square cells and 10-unit walls. */
  lemma SourceGeometry()
    ensures ArenaGeometry(GridRows, GridCols) == Geometry(75.0, 75.0, 10.0)
    ensures Border == 20.0
  {
  }

  /**
   * The four walls along the arena's top, bottom, left and right edges:
   * each is centred on the outline, `Border` thick and as long as its side.
   */
  function BoundaryWalls(): (ws: seq<WallSpec>)
    ensures |ws| == 4
    ensures forall k :: 0 <= k < |ws| ==>
      || ((ws[k].y == 0.0 || ws[k].y == Height) && ws[k].x == Width / 2.0 && ws[k].width == Width && ws[k].height == Border)
      || ((ws[k].x == 0.0 || ws[k].x == Width) && ws[k].y == Height / 2.0 && ws[k].width == Border && ws[k].height == Height)
  {
    [ WallSpec(Width / 2.0, 0.0, Width, Border),
      WallSpec(Width / 2.0, Height, Width, Border),
      WallSpec(0.0, Height / 2.0, Border, Height),
      WallSpec(Width, Height / 2.0, Border, Height) ]
  }

  predicate Covers(w: WallSpec, px: real, py: real) {
    && w.x - w.width / 2.0 <= px <= w.x + w.width / 2.0
    && w.y - w.height / 2.0 <= py <= w.y + w.height / 2.0
  }

  /** Every point of the arena's outline lies inside one of the boundary walls. */
  lemma BoundaryEnclosesArena(px: real, py: real)
    requires 0.0 <= px <= Width && 0.0 <= py <= Height
    requires px == 0.0 || px == Width || py == 0.0 || py == Height
    ensures exists k :: 0 <= k < |BoundaryWalls()| && Covers(BoundaryWalls()[k], px, py)
  {
    var k := if py == 0.0 then 0 else if py == Height then 1 else if px == 0.0 then 2 else 3;
    assert Covers(BoundaryWalls()[k], px, py);
  }

  /** The closed slots (r, c) of `row`, from column `c` on. */
  function ClosedInRow(row: seq<bool>, r: int, c: nat): seq<Cell>
    decreases |row| - c
  {
    if c >= |row| then []
    else (if row[c] then [] else [(r, c)]) + ClosedInRow(row, r, c + 1)
  }

  /** The closed slots of `s`, from row `r` on. */
  function ClosedFrom(s: seq<seq<bool>>, r: nat): seq<Cell>
    decreases |s| - r
  {
    if r >= |s| then [] else ClosedInRow(s[r], r, 0) + ClosedFrom(s, r + 1)
  }

  /** The closed slots of `s` in the order the nested `forEach` visits them. */
  function ClosedSlots(s: seq<seq<bool>>): seq<Cell> {
    ClosedFrom(s, 0)
  }

  /** Row-major order. */
  predicate Before(a: Cell, b: Cell) {
    a.0 < b.0 || (a.0 == b.0 && a.1 < b.1)
  }

  lemma {:induction false} ClosedInRowMembers(row: seq<bool>, r: int, c: nat)
    requires c <= |row|
    ensures forall x :: x in ClosedInRow(row, r, c) <==> x.0 == r && c <= x.1 < |row| && !row[x.1]
    decreases |row| - c
  {
    if c < |row| {
      ClosedInRowMembers(row, r, c + 1);
    }
  }

  lemma {:induction false} ClosedInRowOrdered(row: seq<bool>, r: int, c: nat)
    requires c <= |row|
    ensures forall k, l :: 0 <= k < l < |ClosedInRow(row, r, c)| ==>
      ClosedInRow(row, r, c)[k].1 < ClosedInRow(row, r, c)[l].1
    decreases |row| - c
  {
    if c < |row| {
      ClosedInRowOrdered(row, r, c + 1);
      ClosedInRowMembers(row, r, c + 1);
      var rest := ClosedInRow(row, r, c + 1);
      var cs := ClosedInRow(row, r, c);
      if !row[c] {
        assert cs == [(r, c)] + rest;
        forall k, l | 0 <= k < l < |cs| ensures cs[k].1 < cs[l].1 {
          if k > 0 {
            assert cs[k] == rest[k - 1] && cs[l] == rest[l - 1];
          } else {
            assert cs[l] in rest;
          }
        }
      }
    }
  }

  lemma {:induction false} ClosedInRowCount(row: seq<bool>, r: int, c: nat)
    requires c <= |row|
    ensures |ClosedInRow(row, r, c)| + CountRow(row[c..]) == |row| - c
    decreases |row| - c
  {
    if c < |row| {
      ClosedInRowCount(row, r, c + 1);
      assert row[c..][1..] == row[c + 1..];
    }
  }

  lemma {:induction false} ClosedFromMembers(s: seq<seq<bool>>, r: nat)
    requires r <= |s|
    ensures forall x :: x in ClosedFrom(s, r) <==> r <= x.0 < |s| && InGrid(s, x) && !s[x.0][x.1]
    decreases |s| - r
  {
    if r < |s| {
      ClosedFromMembers(s, r + 1);
      ClosedInRowMembers(s[r], r, 0);
    }
  }

  lemma {:induction false} ClosedFromOrdered(s: seq<seq<bool>>, r: nat)
    requires r <= |s|
    ensures forall k, l :: 0 <= k < l < |ClosedFrom(s, r)| ==> Before(ClosedFrom(s, r)[k], ClosedFrom(s, r)[l])
    decreases |s| - r
  {
    if r < |s| {
      ClosedFromOrdered(s, r + 1);
      ClosedFromMembers(s, r + 1);
      ClosedInRowOrdered(s[r], r, 0);
      ClosedInRowMembers(s[r], r, 0);
      var head, rest := ClosedInRow(s[r], r, 0), ClosedFrom(s, r + 1);
      var cs := ClosedFrom(s, r);
      assert cs == head + rest;
      forall k, l | 0 <= k < l < |cs| ensures Before(cs[k], cs[l]) {
        if l < |head| {
          assert cs[k] == head[k] && cs[l] == head[l];
        } else if k >= |head| {
          assert cs[k] == rest[k - |head|] && cs[l] == rest[l - |head|];
        } else {
          assert cs[k] in head && cs[l] in rest;
        }
      }
    }
  }

  lemma {:induction false} ClosedFromCount(s: seq<seq<bool>>, r: nat, cols: nat)
    requires r <= |s| && forall i :: 0 <= i < |s| ==> |s[i]| == cols
    ensures |ClosedFrom(s, r)| + Count(s[r..]) == (|s| - r) * cols
    decreases |s| - r
  {
    if r < |s| {
      ClosedFromCount(s, r + 1, cols);
      ClosedInRowCount(s[r], r, 0);
      assert s[r][0..] == s[r];
      assert s[r..][0] == s[r] && s[r..][1..] == s[r + 1..];
      assert (|s| - r) * cols == cols + (|s| - (r + 1)) * cols;
    }
  }

  /**
   * The listed slots are exactly the closed ones, each once, in
   * row-major order; with the raised flags they account for every slot.
   */
  lemma ClosedSlotsExact(s: seq<seq<bool>>, rows: nat, cols: nat)
    requires Shaped(s, rows, cols)
    ensures forall x :: x in ClosedSlots(s) <==> InGrid(s, x) && !s[x.0][x.1]
    ensures forall k, l :: 0 <= k < l < |ClosedSlots(s)| ==> Before(ClosedSlots(s)[k], ClosedSlots(s)[l])
    ensures |ClosedSlots(s)| + Count(s) == rows * cols
  {
    ClosedFromMembers(s, 0);
    ClosedFromOrdered(s, 0);
    ClosedFromCount(s, 0, cols);
    assert s[0..] == s;
  }

  /**
   * `w` closes the slot below cell c: it lies on the line between rows c.0
   * and c.0 + 1, runs along column c.1 overlapping half a wall width past
   * each end, and is one wall width thick.
   */
  predicate OnHorizontalSlot(geo: Geometry, w: WallSpec, c: Cell) {
    && w.y == (c.0 + 1) as real * geo.cellHeight
    && w.x - w.width / 2.0 == c.1 as real * geo.cellWidth - geo.wallWidth / 2.0
    && w.x + w.width / 2.0 == (c.1 + 1) as real * geo.cellWidth + geo.wallWidth / 2.0
    && w.height == geo.wallWidth
  }

  /**
   * `w` closes the slot right of cell c: it lies on the line between
   * columns c.1 and c.1 + 1, runs along row c.0 overlapping half a wall
   * width past each end, and is one wall width thick.
   */
  predicate OnVerticalSlot(geo: Geometry, w: WallSpec, c: Cell) {
    && w.x == (c.1 + 1) as real * geo.cellWidth
    && w.y - w.height / 2.0 == c.0 as real * geo.cellHeight - geo.wallWidth / 2.0
    && w.y + w.height / 2.0 == (c.0 + 1) as real * geo.cellHeight + geo.wallWidth / 2.0
    && w.width == geo.wallWidth
  }

  /** The wall on the closed slot below cell c (`horizontals[r][c]`). */
  function HorizontalWall(geo: Geometry, c: Cell): (w: WallSpec)
    ensures OnHorizontalSlot(geo, w, c)
  {
    WallSpec(
      c.1 as real * geo.cellWidth + geo.cellWidth / 2.0,
      c.0 as real * geo.cellHeight + geo.cellHeight,
      geo.cellWidth + geo.wallWidth,
      geo.wallWidth)
  }

  /** The wall on the closed slot right of cell c (`verticals[r][c]`). */
  function VerticalWall(geo: Geometry, c: Cell): (w: WallSpec)
    ensures OnVerticalSlot(geo, w, c)
  {
    WallSpec(
      c.1 as real * geo.cellWidth + geo.cellWidth,
      c.0 as real * geo.cellHeight + geo.cellHeight / 2.0,
      geo.wallWidth,
      geo.cellHeight + geo.wallWidth)
  }

  /** The first `forEach` pass: the k-th wall closes the k-th closed slot of `h`. */
  function HorizontalWalls(h: seq<seq<bool>>, geo: Geometry): (ws: seq<WallSpec>)
    ensures |ws| == |ClosedSlots(h)|
    ensures forall k :: 0 <= k < |ws| ==> OnHorizontalSlot(geo, ws[k], ClosedSlots(h)[k])
  {
    var cs := ClosedSlots(h);
    seq(|cs|, k requires 0 <= k < |cs| => HorizontalWall(geo, cs[k]))
  }

  /** The second `forEach` pass: the k-th wall closes the k-th closed slot of `v`. */
  function VerticalWalls(v: seq<seq<bool>>, geo: Geometry): (ws: seq<WallSpec>)
    ensures |ws| == |ClosedSlots(v)|
    ensures forall k :: 0 <= k < |ws| ==> OnVerticalSlot(geo, ws[k], ClosedSlots(v)[k])
  {
    var cs := ClosedSlots(v);
    seq(|cs|, k requires 0 <= k < |cs| => VerticalWall(geo, cs[k]))
  }

  /**
   * The walls the two `forEach` loops add: first one per closed horizontal
   * slot, then one per closed vertical slot, each in slot order.
   */
  function InteriorWalls(e: EdgeGrid, geo: Geometry): (ws: seq<WallSpec>)
    ensures var nh := |ClosedSlots(e.horizontals)|;
      && |ws| == nh + |ClosedSlots(e.verticals)|
      && (forall k :: 0 <= k < nh ==> OnHorizontalSlot(geo, ws[k], ClosedSlots(e.horizontals)[k]))
      && (forall k :: nh <= k < |ws| ==> OnVerticalSlot(geo, ws[k], ClosedSlots(e.verticals)[k - nh]))
  {
    HorizontalWalls(e.horizontals, geo) + VerticalWalls(e.verticals, geo)
  }

  /** One wall per closed slot: all slots minus the open passages. */
  lemma InteriorWallsCount(e: EdgeGrid, rows: int, cols: int, geo: Geometry)
    requires rows >= 1 && cols >= 1 && WellShaped(e, rows, cols)
    ensures |InteriorWalls(e, geo)| == (rows - 1) * cols + rows * (cols - 1) - OpenCount(e)
  {
    ClosedSlotsExact(e.horizontals, rows - 1, cols);
    ClosedSlotsExact(e.verticals, rows, cols - 1);
  }

  lemma ScaleMonotone(a: int, b: int, x: real)
    requires a < b && x > 0.0
    ensures a as real * x < b as real * x
  {
    assert (b as real - a as real) * x > 0.0;
  }

  /** Walls of slots in row-major order are ordered by centre, y first. */
  lemma WallsFollowSlots(geo: Geometry, a: Cell, b: Cell)
    requires Before(a, b) && geo.cellWidth > 0.0 && geo.cellHeight > 0.0
    ensures var p, q := HorizontalWall(geo, a), HorizontalWall(geo, b); p.y < q.y || (p.y == q.y && p.x < q.x)
    ensures var p, q := VerticalWall(geo, a), VerticalWall(geo, b); p.y < q.y || (p.y == q.y && p.x < q.x)
  {
    if a.0 < b.0 {
      ScaleMonotone(a.0, b.0, geo.cellHeight);
    } else {
      ScaleMonotone(a.1, b.1, geo.cellWidth);
    }
  }

  /**
   * `horizontals[r][c]` closed yields the wall centred at
   * (c * cellWidth + cellWidth / 2, r * cellHeight + cellHeight), and
   * every horizontal wall is such a wall; the walls come in row-major
   * order, so no slot is walled twice.
   */
  lemma HorizontalWallsExact(h: seq<seq<bool>>, rows: nat, cols: nat, geo: Geometry)
    requires Shaped(h, rows, cols) && geo.cellWidth > 0.0 && geo.cellHeight > 0.0
    ensures forall c :: InGrid(h, c) && !h[c.0][c.1] ==> HorizontalWall(geo, c) in HorizontalWalls(h, geo)
    ensures forall w :: w in HorizontalWalls(h, geo) ==>
      exists c :: InGrid(h, c) && !h[c.0][c.1] && w == HorizontalWall(geo, c)
    ensures forall k, l :: 0 <= k < l < |HorizontalWalls(h, geo)| ==>
      var a, b := HorizontalWalls(h, geo)[k], HorizontalWalls(h, geo)[l];
      a.y < b.y || (a.y == b.y && a.x < b.x)
  {
    ClosedSlotsExact(h, rows, cols);
    var cs, ws := ClosedSlots(h), HorizontalWalls(h, geo);
    forall c | InGrid(h, c) && !h[c.0][c.1] ensures HorizontalWall(geo, c) in ws {
      var k :| 0 <= k < |cs| && cs[k] == c;
      assert ws[k] == HorizontalWall(geo, c);
    }
    forall w | w in ws ensures exists c :: InGrid(h, c) && !h[c.0][c.1] && w == HorizontalWall(geo, c) {
      var k :| 0 <= k < |ws| && ws[k] == w;
      assert cs[k] in cs;
    }
    forall k, l | 0 <= k < l < |ws| ensures ws[k].y < ws[l].y || (ws[k].y == ws[l].y && ws[k].x < ws[l].x) {
      WallsFollowSlots(geo, cs[k], cs[l]);
    }
  }

  /**
   * `verticals[r][c]` closed yields the wall centred at
   * (c * cellWidth + cellWidth, r * cellHeight + cellHeight / 2), and every
   * vertical wall is such a wall; row-major order again.
   */
  lemma VerticalWallsExact(v: seq<seq<bool>>, rows: nat, cols: nat, geo: Geometry)
    requires Shaped(v, rows, cols) && geo.cellWidth > 0.0 && geo.cellHeight > 0.0
    ensures forall c :: InGrid(v, c) && !v[c.0][c.1] ==> VerticalWall(geo, c) in VerticalWalls(v, geo)
    ensures forall w :: w in VerticalWalls(v, geo) ==>
      exists c :: InGrid(v, c) && !v[c.0][c.1] && w == VerticalWall(geo, c)
    ensures forall k, l :: 0 <= k < l < |VerticalWalls(v, geo)| ==>
      var a, b := VerticalWalls(v, geo)[k], VerticalWalls(v, geo)[l];
      a.y < b.y || (a.y == b.y && a.x < b.x)
  {
    ClosedSlotsExact(v, rows, cols);
    var cs, ws := ClosedSlots(v), VerticalWalls(v, geo);
    forall c | InGrid(v, c) && !v[c.0][c.1] ensures VerticalWall(geo, c) in ws {
      var k :| 0 <= k < |cs| && cs[k] == c;
      assert ws[k] == VerticalWall(geo, c);
    }
    forall w | w in ws ensures exists c :: InGrid(v, c) && !v[c.0][c.1] && w == VerticalWall(geo, c) {
      var k :| 0 <= k < |ws| && ws[k] == w;
      assert cs[k] in cs;
    }
    forall k, l | 0 <= k < l < |ws| ensures ws[k].y < ws[l].y || (ws[k].y == ws[l].y && ws[k].x < ws[l].x) {
      WallsFollowSlots(geo, cs[k], cs[l]);
    }
  }

  /**
   * A 2 x 2 maze with 100-unit cells and 10-unit walls whose only open
   * passage joins (0, 0) and (0, 1): two horizontal walls between the rows
   * and one vertical wall, at x = 100, between (1, 0) and (1, 1).
   */
  lemma TwoByTwoLayout()
    ensures InteriorWalls(EdgeGrid([[true], [false]], [[false, false]]), Geometry(100.0, 100.0, 10.0))
         == [WallSpec(50.0, 100.0, 110.0, 10.0), WallSpec(150.0, 100.0, 110.0, 10.0),
             WallSpec(100.0, 150.0, 10.0, 110.0)]
  {
    assert ClosedSlots([[false, false]]) == [(0, 0), (0, 1)] by {
      assert ClosedInRow([false, false], 0, 2) == [];
      assert ClosedInRow([false, false], 0, 1) == [(0, 1)];
    }
    assert ClosedSlots([[true], [false]]) == [(1, 0)] by {
      assert ClosedInRow([true], 0, 0) == [];
      assert ClosedInRow([false], 1, 1) == [];
      assert ClosedFrom([[true], [false]], 1) == [(1, 0)];
    }
  }

  /**
   * A perfect maze (rows * cols - 1 open passages) has (rows - 1) * (cols - 1)
   * interior walls.
   */
  lemma PerfectMazeWalls(e: EdgeGrid, rows: int, cols: int, geo: Geometry)
    requires rows >= 1 && cols >= 1 && WellShaped(e, rows, cols)
    requires OpenCount(e) == rows * cols - 1
    ensures |InteriorWalls(e, geo)| == (rows - 1) * (cols - 1)
  {
    InteriorWallsCount(e, rows, cols, geo);
    assert (rows - 1) * cols + rows * (cols - 1) - (rows * cols - 1) == (rows - 1) * (cols - 1);
  }
}
