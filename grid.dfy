/**
 * Tables of boolean flags stored row by row, as the nested arrays
 * `grid`, `verticals` and `horizontals` of the maze are: how to name a
 * cell, raise one flag, count the raised flags, and walk between
 * neighbouring cells.
 */
module Grid {

  /** A cell (or an edge slot) as (row, column). */
  type Cell = (int, int)

  datatype Direction = Up | Down | Left | Right

  /** `a` and `b` share a side. */
  predicate Adjacent(a: Cell, b: Cell) {
    || (a.0 == b.0 && (a.1 == b.1 + 1 || b.1 == a.1 + 1))
    || (a.1 == b.1 && (a.0 == b.0 + 1 || b.0 == a.0 + 1))
  }

  /** The cell one step from `c` in direction `d`; rows grow downwards. */
  function Step(c: Cell, d: Direction): (n: Cell)
    ensures Adjacent(c, n)
  {
    match d
    case Up => (c.0 - 1, c.1)
    case Down => (c.0 + 1, c.1)
    case Left => (c.0, c.1 - 1)
    case Right => (c.0, c.1 + 1)
  }

  /** `g` has `rows` rows of `cols` flags each. */
  ghost predicate Shaped(g: seq<seq<bool>>, rows: int, cols: int) {
    |g| == rows && forall i :: 0 <= i < |g| ==> |g[i]| == cols
  }

  predicate InGrid(g: seq<seq<bool>>, c: Cell) {
    0 <= c.0 < |g| && 0 <= c.1 < |g[c.0]|
  }

  /** The flag of `c` exists and is raised. */
  predicate Marked(g: seq<seq<bool>>, c: Cell) {
    InGrid(g, c) && g[c.0][c.1]
  }

  /** `g` with the flag of `c` raised. */
  function Mark(g: seq<seq<bool>>, c: Cell): (h: seq<seq<bool>>)
    requires InGrid(g, c)
    ensures |h| == |g| && forall i :: 0 <= i < |g| ==> |h[i]| == |g[i]|
    ensures forall x :: Marked(h, x) <==> Marked(g, x) || x == c
  {
    g[c.0 := g[c.0][c.1 := true]]
  }

  /** No flag of `g` is raised. */
  ghost predicate Blank(g: seq<seq<bool>>) {
    forall c :: !Marked(g, c)
  }

  /** `h` has the shape of `g` and every flag raised in `g` is raised in `h`. */
  ghost predicate Grows(g: seq<seq<bool>>, h: seq<seq<bool>>) {
    && |g| == |h|
    && (forall i :: 0 <= i < |g| ==> |g[i]| == |h[i]|)
    && (forall c :: Marked(g, c) ==> Marked(h, c))
  }

  function CountRow(row: seq<bool>): nat {
    if row == [] then 0 else (if row[0] then 1 else 0) + CountRow(row[1..])
  }

  /** The number of raised flags. */
  function Count(g: seq<seq<bool>>): nat {
    if g == [] then 0 else CountRow(g[0]) + Count(g[1..])
  }

  lemma {:induction false} CountRowMark(row: seq<bool>, j: int)
    requires 0 <= j < |row| && !row[j]
    ensures CountRow(row[j := true]) == CountRow(row) + 1
  {
    if j > 0 {
      assert row[j := true][1..] == row[1..][j - 1 := true];
      CountRowMark(row[1..], j - 1);
    } else {
      assert row[j := true][1..] == row[1..];
    }
  }

  /** Raising a lowered flag adds exactly one to the count. */
  lemma {:induction false} CountMark(g: seq<seq<bool>>, c: Cell)
    requires InGrid(g, c) && !Marked(g, c)
    ensures Count(Mark(g, c)) == Count(g) + 1
  {
    var h := Mark(g, c);
    if c.0 == 0 {
      assert h[1..] == g[1..];
      CountRowMark(g[0], c.1);
    } else {
      assert h[0] == g[0];
      assert h[1..] == Mark(g[1..], (c.0 - 1, c.1));
      CountMark(g[1..], (c.0 - 1, c.1));
    }
  }

  lemma {:induction false} CountRowPositive(row: seq<bool>, j: int)
    requires 0 <= j < |row| && row[j]
    ensures CountRow(row) > 0
  {
    if j > 0 {
      CountRowPositive(row[1..], j - 1);
    }
  }

  /** A table with a raised flag has a positive count. */
  lemma {:induction false} CountPositive(g: seq<seq<bool>>, c: Cell)
    requires Marked(g, c)
    ensures Count(g) > 0
  {
    if c.0 == 0 {
      CountRowPositive(g[0], c.1);
    } else {
      assert Marked(g[1..], (c.0 - 1, c.1));
      CountPositive(g[1..], (c.0 - 1, c.1));
    }
  }

  lemma {:induction false} CountRowZero(row: seq<bool>)
    requires forall j :: 0 <= j < |row| ==> !row[j]
    ensures CountRow(row) == 0
  {
    if row != [] {
      CountRowZero(row[1..]);
    }
  }

  /** A blank table counts zero. */
  lemma {:induction false} CountBlank(g: seq<seq<bool>>)
    requires Blank(g)
    ensures Count(g) == 0
  {
    if g != [] {
      forall j | 0 <= j < |g[0]| ensures !g[0][j] {
        assert !Marked(g, (0, j));
      }
      CountRowZero(g[0]);
      forall c ensures !Marked(g[1..], c) {
        assert !Marked(g, (c.0 + 1, c.1));
      }
      CountBlank(g[1..]);
    }
  }

  lemma {:induction false} CountRowFull(row: seq<bool>)
    requires forall j :: 0 <= j < |row| ==> row[j]
    ensures CountRow(row) == |row|
  {
    if row != [] {
      CountRowFull(row[1..]);
    }
  }

  /** A rows x cols table whose flags are all raised counts rows * cols. */
  lemma {:induction false} CountFull(g: seq<seq<bool>>, rows: nat, cols: nat)
    requires Shaped(g, rows, cols)
    requires forall c :: InGrid(g, c) ==> Marked(g, c)
    ensures Count(g) == rows * cols
  {
    if rows > 0 {
      forall j | 0 <= j < |g[0]| ensures g[0][j] {
        assert Marked(g, (0, j));
      }
      CountRowFull(g[0]);
      forall c | InGrid(g[1..], c) ensures Marked(g[1..], c) {
        assert Marked(g, (c.0 + 1, c.1));
      }
      CountFull(g[1..], rows - 1, cols);
    }
  }

  /** Every neighbour of `c` that lies in the table has its flag raised. */
  ghost predicate Surrounded(g: seq<seq<bool>>, c: Cell) {
    forall d :: InGrid(g, Step(c, d)) ==> Marked(g, Step(c, d))
  }

  /** The raised flags are closed under stepping to a neighbour. */
  ghost predicate Closed(g: seq<seq<bool>>) {
    forall c :: Marked(g, c) ==> Surrounded(g, c)
  }

  lemma {:induction false} ReachInColumn(g: seq<seq<bool>>, rows: nat, cols: nat, a: Cell, i: int)
    requires Shaped(g, rows, cols) && Closed(g) && Marked(g, a) && 0 <= i < rows
    ensures Marked(g, (i, a.1))
    decreases if i < a.0 then a.0 - i else i - a.0
  {
    if i != a.0 {
      var b := Step(a, if i < a.0 then Up else Down);
      assert InGrid(g, b);
      ReachInColumn(g, rows, cols, b, i);
    }
  }

  lemma {:induction false} ReachInRow(g: seq<seq<bool>>, rows: nat, cols: nat, a: Cell, j: int)
    requires Shaped(g, rows, cols) && Closed(g) && Marked(g, a) && 0 <= j < cols
    ensures Marked(g, (a.0, j))
    decreases if j < a.1 then a.1 - j else j - a.1
  {
    if j != a.1 {
      var b := Step(a, if j < a.1 then Left else Right);
      assert InGrid(g, b);
      ReachInRow(g, rows, cols, b, j);
    }
  }

  /**
   * The grid graph is connected: a rectangular table whose raised flags
   * include `s` and are closed under neighbours has every flag raised.
   */
  lemma AllReached(g: seq<seq<bool>>, rows: nat, cols: nat, s: Cell)
    requires Shaped(g, rows, cols) && Closed(g) && Marked(g, s)
    ensures forall c :: InGrid(g, c) ==> Marked(g, c)
  {
    forall c | InGrid(g, c) ensures Marked(g, c) {
      ReachInColumn(g, rows, cols, s, c.0);
      ReachInRow(g, rows, cols, (c.0, s.1), c.1);
    }
  }

  lemma GrowsRefl(g: seq<seq<bool>>)
    ensures Grows(g, g)
  {
  }

  lemma GrowsTrans(g: seq<seq<bool>>, h: seq<seq<bool>>, k: seq<seq<bool>>)
    requires Grows(g, h) && Grows(h, k)
    ensures Grows(g, k)
  {
  }

  /** Raising a flag grows the table. */
  lemma MarkGrows(g: seq<seq<bool>>, c: Cell)
    requires InGrid(g, c)
    ensures Grows(g, Mark(g, c))
  {
  }

  lemma SurroundedGrows(g: seq<seq<bool>>, h: seq<seq<bool>>, c: Cell)
    requires Grows(g, h) && Surrounded(g, c)
    ensures Surrounded(h, c)
  {
    forall d | InGrid(h, Step(c, d)) ensures Marked(h, Step(c, d)) {
      assert InGrid(g, Step(c, d));
    }
  }

  /** Every flag raised in `h` but not in `g` belongs to a surrounded cell. */
  ghost predicate NewlySurrounded(g: seq<seq<bool>>, h: seq<seq<bool>>) {
    forall c :: Marked(h, c) && !Marked(g, c) ==> Surrounded(h, c)
  }

  lemma NewlySurroundedNone(g: seq<seq<bool>>)
    ensures NewlySurrounded(g, g)
  {
  }

  lemma NewlySurroundedTrans(g: seq<seq<bool>>, h: seq<seq<bool>>, k: seq<seq<bool>>)
    requires Grows(h, k) && NewlySurrounded(g, h) && NewlySurrounded(h, k)
    ensures NewlySurrounded(g, k)
  {
    forall c | Marked(k, c) && !Marked(g, c) ensures Surrounded(k, c) {
      if Marked(h, c) {
        assert Surrounded(h, c);
        SurroundedGrows(h, k, c);
      }
    }
  }

  /** A cell raised first and surrounded at the end joins the newly surrounded cells. */
  lemma NewlySurroundedMark(g: seq<seq<bool>>, c: Cell, k: seq<seq<bool>>)
    requires InGrid(g, c) && NewlySurrounded(Mark(g, c), k) && Surrounded(k, c)
    ensures NewlySurrounded(g, k)
  {
  }

  /** The cells whose flags are lowered. */
  ghost function Unvisited(g: seq<seq<bool>>): set<Cell> {
    set i, j | 0 <= i < |g| && 0 <= j < |g[i]| && !g[i][j] :: (i, j)
  }

  lemma UnvisitedGrows(g: seq<seq<bool>>, h: seq<seq<bool>>)
    requires Grows(g, h)
    ensures Unvisited(h) <= Unvisited(g)
  {
    forall c | c in Unvisited(h) ensures c in Unvisited(g) {
      assert !Marked(h, c);
    }
  }

  /** Raising a lowered flag removes its cell from the unvisited ones. */
  lemma UnvisitedMark(g: seq<seq<bool>>, c: Cell)
    requires InGrid(g, c) && !Marked(g, c)
    ensures Unvisited(Mark(g, c)) < Unvisited(g)
  {
    MarkGrows(g, c);
    UnvisitedGrows(g, Mark(g, c));
    assert c in Unvisited(g);
  }
}
