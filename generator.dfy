/**
 * The maze generator: the visited and passage arrays, the randomised
 * depth-first "recursive backtracker" that opens passages between them,
 * and its one call from a random start cell.
 */
module Generator {
  import opened Shuffle
  import opened Grid
  import opened Passages
  import opened Wrappers
  import Layout

  /** The contents of a two-dimensional array, row by row. */
  function Cells(a: array2<bool>): (g: seq<seq<bool>>)
    reads a
    ensures Shaped(g, a.Length0, a.Length1)
    ensures forall i, j {:trigger g[i][j]} :: 0 <= i < a.Length0 && 0 <= j < a.Length1 ==> g[i][j] == a[i, j]
  {
    seq(a.Length0, i requires 0 <= i < a.Length0 reads a =>
      seq(a.Length1, j requires 0 <= j < a.Length1 reads a => a[i, j]))
  }

  lemma GridExtensionality(g: seq<seq<bool>>, h: seq<seq<bool>>)
    requires |g| == |h| && forall i :: 0 <= i < |g| ==> |g[i]| == |h[i]|
    requires forall i, j :: 0 <= i < |g| && 0 <= j < |g[i]| ==> g[i][j] == h[i][j]
    ensures g == h
  {
    forall i | 0 <= i < |g| ensures g[i] == h[i] {
      assert forall j :: 0 <= j < |g[i]| ==> g[i][j] == h[i][j];
    }
  }

  /** An array whose every flag reads as raised in its contents is all `true`. */
  lemma CellsFull(a: array2<bool>)
    requires forall c :: InGrid(Cells(a), c) ==> Marked(Cells(a), c)
    ensures forall i, j :: 0 <= i < a.Length0 && 0 <= j < a.Length1 ==> a[i, j]
  {
    var g := Cells(a);
    forall i, j | 0 <= i < a.Length0 && 0 <= j < a.Length1 ensures a[i, j] {
      assert InGrid(g, (i, j));
    }
  }

  /** `a[i][j] = true` */
  method SetFlag(a: array2<bool>, i: int, j: int)
    requires 0 <= i < a.Length0 && 0 <= j < a.Length1
    modifies a
    ensures Cells(a) == Mark(old(Cells(a)), (i, j))
  {
    ghost var before := Cells(a);
    a[i, j] := true;
    GridExtensionality(Cells(a), Mark(before, (i, j)));
  }

  /** One entry `[row, col, direction]` of the neighbour list. */
  datatype Neighbour = Neighbour(row: int, col: int, direction: Direction)

  /** The four neighbours of (row, col), in the order the source lists them. */
  function Neighbours(row: int, col: int): (ns: seq<Neighbour>)
    ensures |ns| == 4
    ensures forall n :: n in ns ==> (n.row, n.col) == Step((row, col), n.direction)
    ensures forall d :: Neighbour(Step((row, col), d).0, Step((row, col), d).1, d) in ns
  {
    [ Neighbour(row - 1, col, Up),
      Neighbour(row + 1, col, Down),
      Neighbour(row, col - 1, Left),
      Neighbour(row, col + 1, Right) ]
  }

  /** The neighbour lies outside the grid or is visited. */
  ghost predicate Reached(g: seq<seq<bool>>, n: Neighbour) {
    InGrid(g, (n.row, n.col)) ==> Marked(g, (n.row, n.col))
  }

  ghost predicate ReachedAll(g: seq<seq<bool>>, ns: seq<Neighbour>) {
    forall k :: 0 <= k < |ns| ==> Reached(g, ns[k])
  }

  lemma ReachedExtend(g: seq<seq<bool>>, h: seq<seq<bool>>, ns: seq<Neighbour>, i: int)
    requires 0 <= i < |ns| && Grows(g, h) && ReachedAll(g, ns[..i]) && Reached(h, ns[i])
    ensures ReachedAll(h, ns[..i + 1])
  {
    var prefix := ns[..i + 1];
    forall k | 0 <= k < |prefix| ensures Reached(h, prefix[k]) {
      if k < i {
        assert Reached(g, ns[..i][k]);
      }
    }
  }

  /** Each entry of a shuffled neighbour list is one step from (row, col). */
  lemma ShuffledNeighbour(ns: seq<Neighbour>, row: int, col: int, i: int)
    requires multiset(ns) == multiset(Neighbours(row, col)) && 0 <= i < |ns|
    ensures (ns[i].row, ns[i].col) == Step((row, col), ns[i].direction)
  {
    assert ns[i] in multiset(Neighbours(row, col));
  }

  /** Once every neighbour in a shuffled list is reached, the cell is surrounded. */
  lemma ReachedSurrounds(g: seq<seq<bool>>, ns: seq<Neighbour>, row: int, col: int)
    requires multiset(ns) == multiset(Neighbours(row, col)) && ReachedAll(g, ns)
    ensures Surrounded(g, (row, col))
  {
    forall d ensures InGrid(g, Step((row, col), d)) ==> Marked(g, Step((row, col), d)) {
      var n := Neighbour(Step((row, col), d).0, Step((row, col), d).1, d);
      assert n in multiset(ns);
      var k :| 0 <= k < |ns| && ns[k] == n;
      assert Reached(g, ns[k]);
    }
  }

  class Maze {
    const rows: int
    const cols: int
    /** `grid[r][c]`: cell (r, c) has been visited. */
    const grid: array2<bool>
    /** `verticals[r][c]`: the passage between (r, c) and (r, c + 1) is open. */
    const verticals: array2<bool>
    /** `horizontals[r][c]`: the passage between (r, c) and (r + 1, c) is open. */
    const horizontals: array2<bool>
    /** The successive values `Math.random()` returns: random(k) is the k-th. */
    const random: nat -> UnitReal

    ghost predicate Valid() {
      && rows >= 1 && cols >= 1
      && grid.Length0 == rows && grid.Length1 == cols
      && verticals.Length0 == rows && verticals.Length1 == cols - 1
      && horizontals.Length0 == rows - 1 && horizontals.Length1 == cols
      && grid != verticals && grid != horizontals && verticals != horizontals
    }

    function Edges(): EdgeGrid
      reads verticals, horizontals
    {
      EdgeGrid(Cells(verticals), Cells(horizontals))
    }

    /** The three arrays, every entry `false`. */
    constructor (rows: int, cols: int, random: nat -> UnitReal)
      requires rows >= 1 && cols >= 1
      ensures Valid()
      ensures this.rows == rows && this.cols == cols && this.random == random
      ensures fresh(grid) && fresh(verticals) && fresh(horizontals)
      ensures Blank(Cells(grid)) && Blank(Cells(verticals)) && Blank(Cells(horizontals))
    {
      this.rows := rows;
      this.cols := cols;
      this.random := random;
      grid := new bool[rows, cols]((i, j) => false);
      verticals := new bool[rows, cols - 1]((i, j) => false);
      horizontals := new bool[rows - 1, cols]((i, j) => false);
    }

    /**
     * Visit (row, col) unless it is visited already, then try its four
     * neighbours in shuffled order. The call starts at the `draws`-th value
     * of `Math.random()` and returns how many have been drawn when it ends.
     * `tree` is the spanning tree grown so far; `pending` is Some((row, col))
     * when the caller has just opened the passage into this cell, and None
     * for the first call. Every cell this call visits ends with all its
     * in-grid neighbours visited.
     */
    method StepThroughCell(row: int, col: int, draws: nat, ghost tree: Tree, ghost pending: Option<Cell>)
      returns (draws': nat, ghost tree': Tree)
      requires Valid()
      requires 0 <= row < rows && 0 <= col < cols
      requires GrowingTree(Edges(), Cells(grid), tree, pending)
      requires || pending == Some((row, col))
               || (pending == None && (Marked(Cells(grid), (row, col)) || (Count(Cells(grid)) == 0 && tree.root == (row, col))))
      modifies grid, verticals, horizontals
      ensures tree'.root == tree.root
      ensures GrowingTree(Edges(), Cells(grid), tree', None)
      ensures old(grid[row, col]) ==>
        unchanged(grid) && unchanged(verticals) && unchanged(horizontals) && draws' == draws
      ensures Marked(Cells(grid), (row, col))
      ensures Grows(old(Cells(grid)), Cells(grid))
      ensures Grows(old(Cells(verticals)), Cells(verticals))
      ensures Grows(old(Cells(horizontals)), Cells(horizontals))
      ensures NewlySurrounded(old(Cells(grid)), Cells(grid))
      ensures draws' == draws + 4 * (Count(Cells(grid)) - old(Count(Cells(grid))))
      decreases Unvisited(Cells(grid)), 1
    {
      if grid[row, col] {
        NewlySurroundedNone(Cells(grid));
        return draws, tree;
      }
      draws', tree' := VisitCell(row, col, draws, tree, pending);
    }

    /** StepThroughCell past its early return: (row, col) is not visited yet. */
    method VisitCell(row: int, col: int, draws: nat, ghost tree: Tree, ghost pending: Option<Cell>)
      returns (draws': nat, ghost tree': Tree)
      requires Valid()
      requires 0 <= row < rows && 0 <= col < cols && !Marked(Cells(grid), (row, col))
      requires GrowingTree(Edges(), Cells(grid), tree, pending)
      requires pending == Some((row, col)) || (pending == None && Count(Cells(grid)) == 0 && tree.root == (row, col))
      modifies grid, verticals, horizontals
      ensures tree'.root == tree.root
      ensures GrowingTree(Edges(), Cells(grid), tree', None)
      ensures Marked(Cells(grid), (row, col))
      ensures Grows(old(Cells(grid)), Cells(grid))
      ensures Grows(old(Cells(verticals)), Cells(verticals))
      ensures Grows(old(Cells(horizontals)), Cells(horizontals))
      ensures NewlySurrounded(old(Cells(grid)), Cells(grid))
      ensures draws' == draws + 4 * (Count(Cells(grid)) - old(Count(Cells(grid))))
      decreases Unvisited(Cells(grid)), 0
    {
      ghost var entry := Cells(grid);
      MarkVisited(Edges(), entry, tree, pending, (row, col));
      CountMark(entry, (row, col));
      SetFlag(grid, row, col);
      ghost var visited := Cells(grid);
      MarkGrows(entry, (row, col));
      UnvisitedMark(entry, (row, col));

      var neighbours, _ := Shuffle.Shuffle(Neighbours(row, col),
        [random(draws), random(draws + 1), random(draws + 2), random(draws + 3)]);

      draws', tree' := TryNeighbours(row, col, neighbours, draws + 4, tree);
      NewlySurroundedMark(entry, (row, col), Cells(grid));
      GrowsTrans(entry, visited, Cells(grid));
    }

    /**
     * The loop of StepThroughCell over the shuffled neighbours of the
     * visited cell (row, col); afterwards every in-grid neighbour is
     * visited.
     */
    method TryNeighbours(row: int, col: int, neighbours: seq<Neighbour>, draws: nat, ghost tree: Tree)
      returns (draws': nat, ghost tree': Tree)
      requires Valid()
      requires 0 <= row < rows && 0 <= col < cols && Marked(Cells(grid), (row, col))
      requires multiset(neighbours) == multiset(Neighbours(row, col))
      requires GrowingTree(Edges(), Cells(grid), tree, None)
      modifies grid, verticals, horizontals
      ensures tree'.root == tree.root
      ensures GrowingTree(Edges(), Cells(grid), tree', None)
      ensures Grows(old(Cells(grid)), Cells(grid))
      ensures Grows(old(Cells(verticals)), Cells(verticals))
      ensures Grows(old(Cells(horizontals)), Cells(horizontals))
      ensures NewlySurrounded(old(Cells(grid)), Cells(grid))
      ensures Surrounded(Cells(grid), (row, col))
      ensures draws' == draws + 4 * (Count(Cells(grid)) - old(Count(Cells(grid))))
      decreases Unvisited(Cells(grid)), 3
    {
      ghost var start := Cells(grid);
      NewlySurroundedNone(start);
      GrowsRefl(start);
      GrowsRefl(Cells(verticals));
      GrowsRefl(Cells(horizontals));
      draws', tree' := draws, tree;
      for i := 0 to |neighbours|
        invariant tree'.root == tree.root
        invariant GrowingTree(Edges(), Cells(grid), tree', None)
        invariant Grows(start, Cells(grid))
        invariant Grows(old(Cells(verticals)), Cells(verticals))
        invariant Grows(old(Cells(horizontals)), Cells(horizontals))
        invariant NewlySurrounded(start, Cells(grid))
        invariant ReachedAll(Cells(grid), neighbours[..i])
        invariant draws' == draws + 4 * (Count(Cells(grid)) - Count(start))
      {
        ghost var g, v, h := Cells(grid), Cells(verticals), Cells(horizontals);
        UnvisitedGrows(start, g);
        assert Marked(g, (row, col));
        ShuffledNeighbour(neighbours, row, col, i);
        draws', tree' := VisitNeighbour(row, col, neighbours[i], draws', tree');
        GrowsTrans(start, g, Cells(grid));
        GrowsTrans(old(Cells(verticals)), v, Cells(verticals));
        GrowsTrans(old(Cells(horizontals)), h, Cells(horizontals));
        NewlySurroundedTrans(start, g, Cells(grid));
        ReachedExtend(g, Cells(grid), neighbours, i);
      }
      assert neighbours[..|neighbours|] == neighbours;
      ReachedSurrounds(Cells(grid), neighbours, row, col);
    }

    /**
     * One turn of the neighbour loop of StepThroughCell: skip a neighbour
     * outside the grid or already visited; otherwise open the passage from
     * (row, col) to it and step into it.
     */
    method VisitNeighbour(row: int, col: int, neighbour: Neighbour, draws: nat, ghost tree: Tree)
      returns (draws': nat, ghost tree': Tree)
      requires Valid()
      requires 0 <= row < rows && 0 <= col < cols && Marked(Cells(grid), (row, col))
      requires (neighbour.row, neighbour.col) == Step((row, col), neighbour.direction)
      requires GrowingTree(Edges(), Cells(grid), tree, None)
      modifies grid, verticals, horizontals
      ensures tree'.root == tree.root
      ensures GrowingTree(Edges(), Cells(grid), tree', None)
      ensures Grows(old(Cells(grid)), Cells(grid))
      ensures Grows(old(Cells(verticals)), Cells(verticals))
      ensures Grows(old(Cells(horizontals)), Cells(horizontals))
      ensures NewlySurrounded(old(Cells(grid)), Cells(grid))
      ensures Reached(Cells(grid), neighbour)
      ensures
        var inGrid := 0 <= neighbour.row < rows && 0 <= neighbour.col < cols;
        !(inGrid && !old(grid[neighbour.row, neighbour.col])) ==>
          unchanged(grid) && unchanged(verticals) && unchanged(horizontals) && draws' == draws
      ensures
        var inGrid := 0 <= neighbour.row < rows && 0 <= neighbour.col < cols;
        inGrid && !old(grid[neighbour.row, neighbour.col]) ==>
          Linked(Edges(), (row, col), (neighbour.row, neighbour.col))
      ensures draws' == draws + 4 * (Count(Cells(grid)) - old(Count(Cells(grid))))
      decreases Unvisited(Cells(grid)), 2
    {
      var nextRow, nextCol, direction := neighbour.row, neighbour.col, neighbour.direction;

      NewlySurroundedNone(Cells(grid));
      if nextRow < 0 || nextRow >= rows || nextCol < 0 || nextCol >= cols {
        return draws, tree;
      }

      if grid[nextRow, nextCol] {
        return draws, tree;
      }

      ghost var e := Edges();
      OpenPassage(e, Cells(grid), tree, (row, col), direction, rows, cols);
      RemoveWall(row, col, direction);
      OpenedGrows(e, (row, col), direction);
      ghost var v, h := Cells(verticals), Cells(horizontals);

      draws', tree' := StepThroughCell(nextRow, nextCol, draws, Adopt(tree, (row, col), (nextRow, nextCol)), Some((nextRow, nextCol)));
      GrowsTrans(old(Cells(verticals)), v, Cells(verticals));
      GrowsTrans(old(Cells(horizontals)), h, Cells(horizontals));
      LinkedGrows(Opened(e, (row, col), direction), Edges(), (row, col), (nextRow, nextCol));
    }

    /** Open the passage from (row, col) in `direction`. */
    method RemoveWall(row: int, col: int, direction: Direction)
      requires Valid() && HasSlot(Edges(), (row, col), direction)
      modifies verticals, horizontals
      ensures Edges() == Opened(old(Edges()), (row, col), direction)
    {
      if direction == Left {
        SetFlag(verticals, row, col - 1);
      } else if direction == Right {
        SetFlag(verticals, row, col);
      } else if direction == Up {
        SetFlag(horizontals, row - 1, col);
      } else {
        SetFlag(horizontals, row, col);
      }
    }

    /**
     * Pick the start cell with the first two values of `Math.random()` and
     * run the generator from it; `draws` is how many values were used in
     * all: two for the start cell and four for each cell's shuffle. From
     * all-closed arrays this visits every cell and leaves
     * rows * cols - 1 open passages forming a spanning tree rooted at the
     * start cell.
     */
    method Generate() returns (startRow: int, startCol: int, draws: nat)
      requires Valid()
      requires Blank(Cells(grid)) && Blank(Cells(verticals)) && Blank(Cells(horizontals))
      modifies grid, verticals, horizontals
      ensures startRow == Pick(random(0), rows) && startCol == Pick(random(1), cols)
      ensures draws == 2 + 4 * (rows * cols)
      ensures forall i, j :: 0 <= i < rows && 0 <= j < cols ==> grid[i, j]
      ensures OpenCount(Edges()) == rows * cols - 1
      ensures SpanningTree(Edges(), rows, cols, (startRow, startCol))
      ensures |InteriorWalls()| == (rows - 1) * (cols - 1)
    {
      startRow := Pick(random(0), rows);
      startCol := Pick(random(1), cols);
      draws := GenerateFrom(startRow, startCol);
      Layout.PerfectMazeWalls(Edges(), rows, cols, Layout.ArenaGeometry(rows, cols));
    }

    /**
     * The top-level call `stepThroughCell(startRow, startCol)`, made after
     * the two values of `Math.random()` that chose the start cell.
     */
    method GenerateFrom(startRow: int, startCol: int) returns (draws: nat)
      requires Valid() && 0 <= startRow < rows && 0 <= startCol < cols
      requires Blank(Cells(grid)) && Blank(Cells(verticals)) && Blank(Cells(horizontals))
      modifies grid, verticals, horizontals
      ensures draws == 2 + 4 * (rows * cols)
      ensures forall i, j :: 0 <= i < rows && 0 <= j < cols ==> grid[i, j]
      ensures OpenCount(Edges()) == rows * cols - 1
      ensures SpanningTree(Edges(), rows, cols, (startRow, startCol))
    {
      ghost var tree := Tree((startRow, startCol), map[], map[(startRow, startCol) := 0]);
      ghost var g0 := Cells(grid);
      FirstCell(Edges(), g0, (startRow, startCol));
      ghost var grown;
      draws, grown := StepThroughCell(startRow, startCol, 2, tree, None);

      ghost var g := Cells(grid);
      GeneratorFinished(Edges(), g0, g, grown, rows, cols);
      CellsFull(grid);
    }

    /**
     * The interior walls laid out from the current passages: one per slot
     * that is not an open passage.
     */
    function InteriorWalls(): (ws: seq<Layout.WallSpec>)
      reads verticals, horizontals
      requires Valid()
      ensures |ws| == (rows - 1) * cols + rows * (cols - 1) - OpenCount(Edges())
    {
      Layout.InteriorWallsCount(Edges(), rows, cols, Layout.ArenaGeometry(rows, cols));
      Layout.InteriorWalls(Edges(), Layout.ArenaGeometry(rows, cols))
    }
  }
}
