/**
 * The passage state of the maze and the tree the generator grows in it.
 * `verticals[r][c]` opens the wall between (r, c) and (r, c + 1);
 * `horizontals[r][c]` opens the wall between (r, c) and (r + 1, c).
 */
module Passages {
  import opened Grid
  import opened Wrappers

  datatype EdgeGrid = EdgeGrid(verticals: seq<seq<bool>>, horizontals: seq<seq<bool>>)

  /** The shape the source allocates for a rows x cols maze. */
  ghost predicate WellShaped(e: EdgeGrid, rows: int, cols: int) {
    Shaped(e.verticals, rows, cols - 1) && Shaped(e.horizontals, rows - 1, cols)
  }

  /** The number of open passages. */
  function OpenCount(e: EdgeGrid): nat {
    Count(e.verticals) + Count(e.horizontals)
  }

  /** An open passage joins cells `a` and `b` (in either order). */
  predicate Linked(e: EdgeGrid, a: Cell, b: Cell) {
    || (b == (a.0, a.1 + 1) && Marked(e.verticals, a))
    || (a == (b.0, b.1 + 1) && Marked(e.verticals, b))
    || (b == (a.0 + 1, a.1) && Marked(e.horizontals, a))
    || (a == (b.0 + 1, b.1) && Marked(e.horizontals, b))
  }

  /** The edge slot the generator writes when it leaves `c` in direction `d`. */
  predicate HasSlot(e: EdgeGrid, c: Cell, d: Direction) {
    match d
    case Left => InGrid(e.verticals, (c.0, c.1 - 1))
    case Right => InGrid(e.verticals, c)
    case Up => InGrid(e.horizontals, (c.0 - 1, c.1))
    case Down => InGrid(e.horizontals, c)
  }

  /** `e` with the passage from `c` in direction `d` opened. */
  function Opened(e: EdgeGrid, c: Cell, d: Direction): (e': EdgeGrid)
    requires HasSlot(e, c, d)
    ensures Linked(e', c, Step(c, d))
    ensures forall a, b :: Linked(e, a, b) ==> Linked(e', a, b)
    ensures forall a, b :: Linked(e', a, b) ==> Linked(e, a, b) || {a, b} == {c, Step(c, d)}
  {
    match d
    case Left => e.(verticals := Mark(e.verticals, (c.0, c.1 - 1)))
    case Right => e.(verticals := Mark(e.verticals, c))
    case Up => e.(horizontals := Mark(e.horizontals, (c.0 - 1, c.1)))
    case Down => e.(horizontals := Mark(e.horizontals, c))
  }

  /** Opening a passage only raises flags. */
  lemma OpenedGrows(e: EdgeGrid, c: Cell, d: Direction)
    requires HasSlot(e, c, d)
    ensures Grows(e.verticals, Opened(e, c, d).verticals)
    ensures Grows(e.horizontals, Opened(e, c, d).horizontals)
  {
    match d {
      case Left => MarkGrows(e.verticals, (c.0, c.1 - 1));
      case Right => MarkGrows(e.verticals, c);
      case Up => MarkGrows(e.horizontals, (c.0 - 1, c.1));
      case Down => MarkGrows(e.horizontals, c);
    }
  }

  /** Raising flags keeps every open passage open. */
  lemma LinkedGrows(e: EdgeGrid, e': EdgeGrid, a: Cell, b: Cell)
    requires Grows(e.verticals, e'.verticals) && Grows(e.horizontals, e'.horizontals)
    requires Linked(e, a, b)
    ensures Linked(e', a, b)
  {
  }

  /**
   * The spanning structure built so far: a root, and for every other
   * reached cell the cell it was reached from, with depths that grow
   * away from the root.
   */
  datatype Tree = Tree(root: Cell, parent: map<Cell, Cell>, depth: map<Cell, nat>)

  /** `c` hangs below a visited parent by an open passage. */
  ghost predicate ParentEdge(e: EdgeGrid, g: seq<seq<bool>>, t: Tree, c: Cell) {
    && c in t.parent && c in t.depth && t.parent[c] in t.depth
    && Marked(g, t.parent[c])
    && Linked(e, t.parent[c], c)
    && t.depth[t.parent[c]] < t.depth[c]
  }

  /** `y` is the child of `x` in the tree, and is visited or about to be. */
  ghost predicate ChildOf(e: EdgeGrid, g: seq<seq<bool>>, t: Tree, pending: Option<Cell>, y: Cell, x: Cell) {
    ParentEdge(e, g, t, y) && t.parent[y] == x && (Marked(g, y) || pending == Some(y))
  }

  ghost predicate TreeEdge(e: EdgeGrid, g: seq<seq<bool>>, t: Tree, pending: Option<Cell>, a: Cell, b: Cell) {
    ChildOf(e, g, t, pending, b, a) || ChildOf(e, g, t, pending, a, b)
  }

  /** The passage to the right of `a` is a tree edge. */
  ghost predicate VerticalInTree(e: EdgeGrid, g: seq<seq<bool>>, t: Tree, pending: Option<Cell>, a: Cell) {
    TreeEdge(e, g, t, pending, a, (a.0, a.1 + 1))
  }

  /** The passage below `a` is a tree edge. */
  ghost predicate HorizontalInTree(e: EdgeGrid, g: seq<seq<bool>>, t: Tree, pending: Option<Cell>, a: Cell) {
    TreeEdge(e, g, t, pending, a, (a.0 + 1, a.1))
  }

  /**
   * The shape of the tree over the visited flags `g` and the passages `e`:
   *  - every visited cell other than the root has a parent edge;
   *  - every open passage is the parent edge of one of its two cells.
   */
  ghost predicate TreeShaped(e: EdgeGrid, g: seq<seq<bool>>, t: Tree, pending: Option<Cell>) {
    && t.root in t.depth
    && (forall c :: Marked(g, c) ==> c in t.depth)
    && (forall c {:trigger ParentEdge(e, g, t, c)} :: Marked(g, c) && c != t.root ==> ParentEdge(e, g, t, c))
    && (forall a {:trigger VerticalInTree(e, g, t, pending, a)} ::
          Marked(e.verticals, a) ==> VerticalInTree(e, g, t, pending, a))
    && (forall a {:trigger HorizontalInTree(e, g, t, pending, a)} ::
          Marked(e.horizontals, a) ==> HorizontalInTree(e, g, t, pending, a))
  }

  /**
   * The invariant of the recursive generator. `pending` is the neighbour
   * whose passage the caller has just opened and which is about to be
   * visited; it is unvisited and hangs below its parent, and counting it
   * there are as many open passages as visited cells. With nothing
   * pending there is one open passage fewer than visited cells, unless
   * nothing has been visited yet.
   */
  ghost predicate GrowingTree(e: EdgeGrid, g: seq<seq<bool>>, t: Tree, pending: Option<Cell>) {
    match pending
    case None =>
      && TreeShaped(e, g, t, pending)
      && (OpenCount(e) + 1 == Count(g) || (Count(g) == 0 && OpenCount(e) == 0))
    case Some(n) =>
      && TreeShaped(e, g, t, pending)
      && !Marked(g, n) && ParentEdge(e, g, t, n)
      && OpenCount(e) == Count(g)
  }

  /** Before the first visit, the tree is its root alone and the invariant holds. */
  lemma FirstCell(e: EdgeGrid, g: seq<seq<bool>>, root: Cell)
    requires Blank(g) && Blank(e.verticals) && Blank(e.horizontals)
    ensures Count(g) == 0
    ensures GrowingTree(e, g, Tree(root, map[], map[root := 0]), None)
  {
    CountBlank(g);
    CountBlank(e.verticals);
    CountBlank(e.horizontals);
  }

  lemma LinkedIsTreeEdge(e: EdgeGrid, g: seq<seq<bool>>, t: Tree, pending: Option<Cell>, a: Cell, b: Cell)
    requires GrowingTree(e, g, t, pending) && Linked(e, a, b)
    ensures TreeEdge(e, g, t, pending, a, b)
  {
    if b == (a.0, a.1 + 1) && Marked(e.verticals, a) {
      assert VerticalInTree(e, g, t, pending, a);
    } else if a == (b.0, b.1 + 1) && Marked(e.verticals, b) {
      assert VerticalInTree(e, g, t, pending, b);
    } else if b == (a.0 + 1, a.1) && Marked(e.horizontals, a) {
      assert HorizontalInTree(e, g, t, pending, a);
    } else {
      assert HorizontalInTree(e, g, t, pending, b);
    }
  }

  /** The tree extended by `n`, reached from `c`. */
  function Adopt(t: Tree, c: Cell, n: Cell): Tree
    requires c in t.depth
  {
    t.(parent := t.parent[n := c], depth := t.depth[n := t.depth[c] + 1])
  }

  /**
   * Visiting a cell (line 71) keeps the invariant: the cell is either
   * the pending neighbour or the very first cell, which is the root.
   */
  lemma MarkVisited(e: EdgeGrid, g: seq<seq<bool>>, t: Tree, pending: Option<Cell>, p: Cell)
    requires GrowingTree(e, g, t, pending)
    requires InGrid(g, p) && !Marked(g, p)
    requires pending == Some(p) || (pending == None && Count(g) == 0 && t.root == p)
    ensures GrowingTree(e, Mark(g, p), t, None)
  {
    var g' := Mark(g, p);
    CountMark(g, p);
    forall c | Marked(g', c) ensures c in t.depth && (c == t.root || ParentEdge(e, g', t, c)) {
      if c != t.root {
        assert ParentEdge(e, g, t, c);
      }
    }
    forall a | Marked(e.verticals, a) ensures VerticalInTree(e, g', t, None, a) {
      assert VerticalInTree(e, g, t, pending, a);
    }
    forall a | Marked(e.horizontals, a) ensures HorizontalInTree(e, g', t, None, a) {
      assert HorizontalInTree(e, g, t, pending, a);
    }
  }

  /** The passage from a visited cell to an unvisited neighbour is still closed. */
  lemma SlotClosed(e: EdgeGrid, g: seq<seq<bool>>, t: Tree, c: Cell, d: Direction)
    requires GrowingTree(e, g, t, None)
    requires Marked(g, c) && !Marked(g, Step(c, d))
    ensures !Linked(e, c, Step(c, d))
  {
    if Linked(e, c, Step(c, d)) {
      LinkedIsTreeEdge(e, g, t, None, c, Step(c, d));
    }
  }

  /** Opening a passage that was closed adds exactly one open passage. */
  lemma CountOpened(e: EdgeGrid, c: Cell, d: Direction)
    requires HasSlot(e, c, d) && !Linked(e, c, Step(c, d))
    ensures OpenCount(Opened(e, c, d)) == OpenCount(e) + 1
  {
    match d {
      case Left => CountMark(e.verticals, (c.0, c.1 - 1));
      case Right => CountMark(e.verticals, c);
      case Up => CountMark(e.horizontals, (c.0 - 1, c.1));
      case Down => CountMark(e.horizontals, c);
    }
  }

  /** A parent edge between visited cells survives adopting an unvisited cell. */
  lemma ChildKept(e: EdgeGrid, e': EdgeGrid, g: seq<seq<bool>>, t: Tree, c: Cell, n: Cell, y: Cell, x: Cell)
    requires c in t.depth && !Marked(g, n)
    requires forall a, b :: Linked(e, a, b) ==> Linked(e', a, b)
    requires ChildOf(e, g, t, None, y, x)
    ensures ChildOf(e', g, Adopt(t, c, n), Some(n), y, x)
  {
  }

  lemma AdoptKeepsParents(e: EdgeGrid, e': EdgeGrid, g: seq<seq<bool>>, t: Tree, c: Cell, n: Cell)
    requires GrowingTree(e, g, t, None) && Marked(g, c) && !Marked(g, n)
    requires forall a, b :: Linked(e, a, b) ==> Linked(e', a, b)
    ensures forall x :: Marked(g, x) ==>
      x in Adopt(t, c, n).depth && (x == t.root || ParentEdge(e', g, Adopt(t, c, n), x))
  {
    var t' := Adopt(t, c, n);
    forall x | Marked(g, x) ensures x in t'.depth && (x == t.root || ParentEdge(e', g, t', x)) {
      if x != t.root {
        assert ParentEdge(e, g, t, x);
      }
    }
  }

  lemma AdoptedVerticals(e: EdgeGrid, g: seq<seq<bool>>, t: Tree, c: Cell, d: Direction)
    requires GrowingTree(e, g, t, None) && Marked(g, c) && !Marked(g, Step(c, d)) && HasSlot(e, c, d)
    ensures forall a :: Marked(Opened(e, c, d).verticals, a) ==>
      VerticalInTree(Opened(e, c, d), g, Adopt(t, c, Step(c, d)), Some(Step(c, d)), a)
  {
    var e', n := Opened(e, c, d), Step(c, d);
    var t' := Adopt(t, c, n);
    forall a | Marked(e'.verticals, a) ensures VerticalInTree(e', g, t', Some(n), a) {
      if Marked(e.verticals, a) {
        assert VerticalInTree(e, g, t, None, a);
        if ChildOf(e, g, t, None, (a.0, a.1 + 1), a) {
          ChildKept(e, e', g, t, c, n, (a.0, a.1 + 1), a);
        } else {
          ChildKept(e, e', g, t, c, n, a, (a.0, a.1 + 1));
        }
      } else if d == Left {
        assert a == n && ChildOf(e', g, t', Some(n), a, c);
      } else {
        assert a == c && ChildOf(e', g, t', Some(n), n, c);
      }
    }
  }

  lemma AdoptedHorizontals(e: EdgeGrid, g: seq<seq<bool>>, t: Tree, c: Cell, d: Direction)
    requires GrowingTree(e, g, t, None) && Marked(g, c) && !Marked(g, Step(c, d)) && HasSlot(e, c, d)
    ensures forall a :: Marked(Opened(e, c, d).horizontals, a) ==>
      HorizontalInTree(Opened(e, c, d), g, Adopt(t, c, Step(c, d)), Some(Step(c, d)), a)
  {
    var e', n := Opened(e, c, d), Step(c, d);
    var t' := Adopt(t, c, n);
    forall a | Marked(e'.horizontals, a) ensures HorizontalInTree(e', g, t', Some(n), a) {
      if Marked(e.horizontals, a) {
        assert HorizontalInTree(e, g, t, None, a);
        if ChildOf(e, g, t, None, (a.0 + 1, a.1), a) {
          ChildKept(e, e', g, t, c, n, (a.0 + 1, a.1), a);
        } else {
          ChildKept(e, e', g, t, c, n, a, (a.0 + 1, a.1));
        }
      } else if d == Up {
        assert a == n && ChildOf(e', g, t', Some(n), a, c);
      } else {
        assert a == c && ChildOf(e', g, t', Some(n), n, c);
      }
    }
  }

  /**
   * Opening the passage from a visited cell `c` to an unvisited in-bounds
   * neighbour, and recording `c` as that neighbour's parent, raises a
   * flag that was lowered and leaves the neighbour pending.
   */
  lemma OpenPassage(e: EdgeGrid, g: seq<seq<bool>>, t: Tree, c: Cell, d: Direction, rows: int, cols: int)
    requires WellShaped(e, rows, cols) && Shaped(g, rows, cols)
    requires GrowingTree(e, g, t, None)
    requires Marked(g, c) && InGrid(g, Step(c, d)) && !Marked(g, Step(c, d))
    ensures c in t.depth && HasSlot(e, c, d)
    ensures OpenCount(Opened(e, c, d)) == OpenCount(e) + 1
    ensures GrowingTree(Opened(e, c, d), g, Adopt(t, c, Step(c, d)), Some(Step(c, d)))
  {
    var n := Step(c, d);
    assert HasSlot(e, c, d);
    SlotClosed(e, g, t, c, d);
    CountOpened(e, c, d);
    CountPositive(g, c);
    var e' := Opened(e, c, d);
    AdoptKeepsParents(e, e', g, t, c, n);
    AdoptedVerticals(e, g, t, c, d);
    AdoptedHorizontals(e, g, t, c, d);
    assert ParentEdge(e', g, Adopt(t, c, n), n);
  }

  /** A walk along open passages. */
  ghost predicate IsPath(e: EdgeGrid, p: seq<Cell>) {
    |p| >= 1 && forall k :: 0 <= k < |p| - 1 ==> Linked(e, p[k], p[k + 1])
  }

  /** Open passages lead from `a` to `b`. */
  ghost predicate Joined(e: EdgeGrid, a: Cell, b: Cell) {
    exists p :: IsPath(e, p) && p[0] == a && p[|p| - 1] == b
  }

  /** A closed walk through three or more distinct cells. */
  ghost predicate IsCycle(e: EdgeGrid, p: seq<Cell>) {
    && |p| >= 3
    && IsPath(e, p)
    && Linked(e, p[|p| - 1], p[0])
    && forall k, l :: 0 <= k < l < |p| ==> p[k] != p[l]
  }

  /** Every cell of the rows x cols grid is joined to `root`, and no open passages form a cycle. */
  ghost predicate SpanningTree(e: EdgeGrid, rows: int, cols: int, root: Cell) {
    && (forall c: Cell :: 0 <= c.0 < rows && 0 <= c.1 < cols ==> Joined(e, root, c))
    && (forall p :: !IsCycle(e, p))
  }

  /** Following parents from a visited cell leads back to the root. */
  lemma {:induction false} JoinedToRoot(e: EdgeGrid, g: seq<seq<bool>>, t: Tree, c: Cell)
    requires GrowingTree(e, g, t, None) && Marked(g, c)
    ensures Joined(e, t.root, c)
    decreases if c in t.depth then t.depth[c] else 0
  {
    if c == t.root {
      assert IsPath(e, [c]);
    } else {
      assert ParentEdge(e, g, t, c);
      var q := t.parent[c];
      JoinedToRoot(e, g, t, q);
      var p :| IsPath(e, p) && p[0] == t.root && p[|p| - 1] == q;
      var p' := p + [c];
      assert IsPath(e, p') by {
        forall k | 0 <= k < |p'| - 1 ensures Linked(e, p'[k], p'[k + 1]) {
          if k < |p| - 1 {
            assert p'[k] == p[k] && p'[k + 1] == p[k + 1];
          }
        }
      }
      assert p'[0] == t.root && p'[|p'| - 1] == c;
    }
  }

  /** The index of a deepest cell of `p`. */
  function Deepest(depth: map<Cell, nat>, p: seq<Cell>): (m: nat)
    requires |p| > 0 && forall k :: 0 <= k < |p| ==> p[k] in depth
    ensures m < |p| && forall k :: 0 <= k < |p| ==> depth[p[k]] <= depth[p[m]]
  {
    if |p| == 1 then 0
    else
      var m := Deepest(depth, p[..|p| - 1]);
      if depth[p[|p| - 1]] > depth[p[m]] then |p| - 1 else m
  }

  /**
   * A closed walk of three or more steps along tree passages repeats a
   * cell: both passages at its deepest cell lead to that cell's parent.
   */
  lemma ClosedWalkRepeats(e: EdgeGrid, g: seq<seq<bool>>, t: Tree, p: seq<Cell>)
    requires GrowingTree(e, g, t, None)
    requires |p| >= 3 && IsPath(e, p) && Linked(e, p[|p| - 1], p[0])
    ensures exists k, l :: 0 <= k < l < |p| && p[k] == p[l]
  {
    forall k | 0 <= k < |p| ensures p[k] in t.depth {
      var next := if k + 1 < |p| then k + 1 else 0;
      assert Linked(e, p[k], p[next]);
      LinkedIsTreeEdge(e, g, t, None, p[k], p[next]);
    }
    var m := Deepest(t.depth, p);
    var next := if m + 1 < |p| then m + 1 else 0;
    var prev := if m > 0 then m - 1 else |p| - 1;
    assert Linked(e, p[m], p[next]);
    assert Linked(e, p[prev], p[m]);
    LinkedIsTreeEdge(e, g, t, None, p[m], p[next]);
    LinkedIsTreeEdge(e, g, t, None, p[prev], p[m]);
    assert t.parent[p[m]] == p[next];
    assert t.parent[p[m]] == p[prev];
    if prev < next {
      assert p[prev] == p[next];
    } else {
      assert p[next] == p[prev];
    }
  }

  /**
   * Once every cell of the grid is visited, the invariant makes the open
   * passages a spanning tree rooted at the start cell.
   */
  lemma GrowingTreeSpans(e: EdgeGrid, g: seq<seq<bool>>, t: Tree, rows: int, cols: int)
    requires Shaped(g, rows, cols) && GrowingTree(e, g, t, None)
    requires forall c :: InGrid(g, c) ==> Marked(g, c)
    ensures SpanningTree(e, rows, cols, t.root)
  {
    forall c: Cell | 0 <= c.0 < rows && 0 <= c.1 < cols ensures Joined(e, t.root, c) {
      assert InGrid(g, c);
      JoinedToRoot(e, g, t, c);
    }
    forall p | |p| >= 3 && IsPath(e, p) && Linked(e, p[|p| - 1], p[0])
      ensures exists k, l :: 0 <= k < l < |p| && p[k] == p[l]
    {
      ClosedWalkRepeats(e, g, t, p);
    }
  }

  /**
   * The state the generator leaves behind when it starts from blank
   * flags: every newly visited cell has all its in-grid neighbours
   * visited, so the whole grid is visited, there are rows * cols - 1
   * open passages, and they form a spanning tree.
   */
  lemma GeneratorFinished(e: EdgeGrid, g0: seq<seq<bool>>, g: seq<seq<bool>>, t: Tree, rows: nat, cols: nat)
    requires Shaped(g, rows, cols) && Blank(g0) && Marked(g, t.root)
    requires NewlySurrounded(g0, g) && GrowingTree(e, g, t, None)
    ensures forall c :: InGrid(g, c) ==> Marked(g, c)
    ensures Count(g) == rows * cols
    ensures OpenCount(e) == rows * cols - 1
    ensures SpanningTree(e, rows, cols, t.root)
  {
    assert Closed(g) by {
      forall c | Marked(g, c) ensures Surrounded(g, c) {
        assert !Marked(g0, c);
      }
    }
    AllReached(g, rows, cols, t.root);
    CountFull(g, rows, cols);
    CountPositive(g, t.root);
    GrowingTreeSpans(e, g, t, rows, cols);
  }
}
