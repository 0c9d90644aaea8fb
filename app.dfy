/**
 * The application of main.py without its window: a 14 x 14 grid of nodes, the open and
 * closed lists of an A* search run one expansion per tick, the backtracked path, and
 * the five click modes selected with the keys 1 to 5.
 */
module Pathfinding {
  import opened Wrappers
  import opened Lists
  import opened Octile
  import opened Nodes

  const Width: nat := 700
  const Height: nat := 700
  const CellSize: nat := 50
  const Rows: nat := Width / CellSize
  const Cols: nat := Height / CellSize

  /** The keys that select a click mode; the mode is the key's position in this list. */
  const Chars: seq<char> := ['1', '2', '3', '4', '5']
  const ClearAllMode := 0
  const SetObstacleMode := 1
  const ClearObstacleMode := 2
  const SetStartMode := 3
  const SetEndMode := 4

  /** What one tick of the search did. */
  datatype StepResult = Expanded(node: Node) | GoalReached | Exhausted

  /** A node as the constructor leaves it: no parent, no costs, no obstacle. */
  predicate Pristine(n: Node)
    reads n
  {
    n.parent == null && n.g == None && n.h == None && n.f == None && !n.obstacle
  }

  /** `nodes` has Cols columns of Rows nodes each. */
  ghost predicate Sized(nodes: seq<seq<Node>>) {
    |nodes| == Cols && forall x | 0 <= x < Cols :: |nodes[x]| == Rows
  }

  /** nodes[x][y] is in `grid` and sits at (x, y). */
  ghost predicate InCell(nodes: seq<seq<Node>>, grid: set<Node>, x: nat, y: nat)
    requires Sized(nodes) && x < Cols && y < Rows
  {
    nodes[x][y] in grid && nodes[x][y].x == x && nodes[x][y].y == y && nodes[x][y].cellSize == CellSize
  }

  /** `n` is the node its own coordinates index in `nodes`. */
  ghost predicate AtPlace(nodes: seq<seq<Node>>, n: Node)
    requires Sized(nodes)
  {
    n.x < Cols && n.y < Rows && nodes[n.x][n.y] == n
  }

  /** The grid is Cols x Rows, each node knows its own place, and `grid` holds exactly these nodes. */
  ghost predicate Layout(nodes: seq<seq<Node>>, grid: set<Node>) {
    && Sized(nodes)
    && (forall x, y | 0 <= x < Cols && 0 <= y < Rows :: InCell(nodes, grid, x, y))
    && (forall n | n in grid :: AtPlace(nodes, n))
  }

  /**
   * `create_grid`: Cols columns of Rows fresh nodes, column x holding the nodes (x, 0)
   * .. (x, Rows - 1); `grid` is the set of them all.
   */
  method CreateGrid() returns (nodes: seq<seq<Node>>, ghost grid: set<Node>)
    ensures Layout(nodes, grid)
    ensures forall n | n in grid :: fresh(n) && Pristine(n)
  {
    nodes := [];
    grid := {};
    for x := 0 to Cols
      invariant |nodes| == x && forall x' | 0 <= x' < x :: |nodes[x']| == Rows
      invariant forall x', y' | 0 <= x' < x && 0 <= y' < Rows ::
        nodes[x'][y'] in grid && nodes[x'][y'].x == x' && nodes[x'][y'].y == y' && nodes[x'][y'].cellSize == CellSize
      invariant forall n | n in grid :: n.x < x && n.y < Rows && nodes[n.x][n.y] == n
      invariant forall n | n in grid :: fresh(n) && Pristine(n)
    {
      var row := [];
      ghost var g0 := grid;
      for y := 0 to Rows
        invariant |row| == y && g0 <= grid
        invariant forall y' | 0 <= y' < y :: row[y'] in grid && row[y'].x == x && row[y'].y == y' && row[y'].cellSize == CellSize
        invariant forall n | n in grid :: (n in g0 && n.x < x) || (n.x == x && n.y < y && row[n.y] == n)
        invariant forall n | n in grid :: fresh(n) && Pristine(n)
      {
        var node := new Node(x, y, CellSize);
        row := row + [node];
        grid := grid + {node};
      }
      nodes := nodes + [row];
    }
  }

  /** Cell (x, y) numbered column by column: distinct cells get distinct numbers below Cols x Rows. */
  lemma CellKey(x1: nat, y1: nat, x2: nat, y2: nat)
    requires x1 < Cols && y1 < Rows && x2 < Cols && y2 < Rows
    ensures x1 * Rows + y1 < Cols * Rows
    ensures x1 * Rows + y1 == x2 * Rows + y2 ==> x1 == x2 && y1 == y2
  {
    assert Rows == 14 && Cols == 14;
  }

  /** Python subscript on a list of length `len`: negative positions count from the end, others raise IndexError (None). */
  function PyIndex(i: int, len: nat): (r: Option<nat>)
    ensures r.Some? <==> -(len as int) <= i < len
    ensures r.Some? ==> r.value < len && r.value == i % len
  {
    if 0 <= i < len then Some(i) else if -(len as int) <= i < 0 then Some(len + i) else None
  }

  /**
   * The cell a click at pixel (px, py) picks: `nodes[px // cell_size][py // cell_size]`,
   * with Python's subscripts. Dafny's division agrees with Python's floor division
   * here because the divisor is positive.
   */
  function CellAt(px: int, py: int): (r: Option<(nat, nat)>)
    ensures r.Some? <==> -(Cols as int) <= px / CellSize < Cols && -(Rows as int) <= py / CellSize < Rows
    ensures r.Some? ==> r.value.0 < Cols && r.value.1 < Rows
    ensures 0 <= px < Width && 0 <= py < Height ==> r == Some((px / CellSize, py / CellSize))
  {
    match PyIndex(px / CellSize, Cols)
    case None => None
    case Some(x) =>
      match PyIndex(py / CellSize, Rows)
      case None => None
      case Some(y) => Some((x, y))
  }

  /** The (i, j) offsets in the order the neighbour scan visits them: i in the outer loop, j in the inner one. */
  const Offsets: seq<(int, int)> := [(-1, -1), (-1, 0), (-1, 1), (0, -1), (0, 0), (0, 1), (1, -1), (1, 0), (1, 1)]

  /** `n` is `c` or one of its eight neighbours. */
  predicate Around(c: Node, n: Node) {
    -1 <= n.x - c.x <= 1 && -1 <= n.y - c.y <= 1
  }

  /** Position t of the scan visits the offset (i, j). */
  lemma ScanOffset(t: nat, i: int, j: int)
    requires -1 <= i <= 1 && -1 <= j <= 1 && t == 3 * (i + 1) + (j + 1)
    ensures t < |Offsets| && Offsets[t] == (i, j)
  {
  }

  /** The offset at position t of the scan lies around the centre and gives t back. */
  lemma OffsetPosition(t: nat)
    requires t < |Offsets|
    ensures -1 <= Offsets[t].0 <= 1 && -1 <= Offsets[t].1 <= 1 && 3 * (Offsets[t].0 + 1) + (Offsets[t].1 + 1) == t
  {
  }

  /** Position t = 3 (i + 1) + (j + 1) of the scan adds exactly the node at offset (i, j) to those scanned. */
  lemma ScanOrder(c: Node, n: Node, i: int, j: int)
    requires -1 <= i <= 1 && -1 <= j <= 1
    ensures ScannedBefore(c, n, 3 * (i + 1) + (j + 1) + 1)
      <==> ScannedBefore(c, n, 3 * (i + 1) + (j + 1)) || (n.x == c.x + i && n.y == c.y + j)
  {
  }

  /** `n` lies around `c` and the neighbour scan reaches it before position `t`. */
  predicate ScannedBefore(c: Node, n: Node, t: int) {
    Around(c, n) && 3 * (n.x - c.x + 1) + (n.y - c.y + 1) < t
  }

  /**
   * A node around the current node `c` that the scan does not skip: not at the absolute
   * coordinates (0, 0), not in the closed list `cl`, not among the obstacles `walls`.
   */
  predicate Examined(c: Node, n: Node, cl: seq<Node>, walls: set<Node>) {
    Around(c, n) && !(n.x == 0 && n.y == 0) && n !in cl && n !in walls
  }

  /** f of the path to `n` through the current node `c`, whose g is `cg`, towards the end node `e`. */
  function TentativeF(cg: int, c: Node, n: Node, e: Node): int {
    cg + Distance(c.x, c.y, n.x, n.y) + Distance(n.x, n.y, e.x, e.y)
  }

  /**
   * The scan rewrites `n`, whose search fields are `fs`: it is examined and either it has
   * an f that the path through `c` undercuts, or it is not in the open list `o`.
   */
  predicate Improves(cg: int, c: Node, n: Node, fs: SearchFields, o: seq<Node>, cl: seq<Node>, walls: set<Node>, e: Node) {
    Examined(c, n, cl, walls) && ((fs.f.Some? && TentativeF(cg, c, n, e) < fs.f.value) || n !in o)
  }

  /** The fields the scan writes into an improved node: g through `c`, h towards `e`, their sum, and `c` as parent. */
  function RelaxedFields(cg: int, c: Node, n: Node, e: Node): (fs: SearchFields)
    ensures fs.g.Some? && fs.h.Some? && fs.f == Some(fs.g.value + fs.h.value)
  {
    var g := cg + Distance(c.x, c.y, n.x, n.y);
    var h := Distance(n.x, n.y, e.x, e.y);
    SearchFields(c, Some(g), Some(h), Some(g + h))
  }

  /** `n` is the node closed last. */
  predicate ClosedLast(cl: seq<Node>, n: Node?) {
    |cl| > 0 && cl[|cl| - 1] == n
  }

  /** Position of the node the search expands next: the first one of lowest f. */
  function LowestIndex(o: seq<Node>): (k: nat)
    reads o
    requires |o| > 0 && forall n | n in o :: n.f.Some?
    ensures k < |o|
    ensures forall j | 0 <= j < |o| :: o[k].f.value <= o[j].f.value
    ensures forall j | 0 <= j < k :: o[j].f.value > o[k].f.value
  {
    if |o| == 1 then 0
    else
      var k := LowestIndex(o[..|o| - 1]);
      if o[|o| - 1].f.value < o[k].f.value then |o| - 1 else k
  }

  /** In the search fields `F`, `n` has all three costs and f = g + h. */
  predicate Scored(F: map<Node, SearchFields>, n: Node) {
    n in F && F[n].g.Some? && F[n].h.Some? && F[n].f == Some(F[n].g.value + F[n].h.value)
  }

  /** In `F`, `p` is a valid parent of `n`: a neighbour, and n's g is p's g plus the step between them. */
  predicate Linked(F: map<Node, SearchFields>, p: Node, n: Node) {
    p in F && n in F && Around(p, n) && F[p].g.Some? && F[n].g == Some(F[p].g.value + Distance(p.x, p.y, n.x, n.y))
  }

  /**
   * The closed list `cl` of a search started from `s`, over the search fields `F`:
   * no duplicates, s is the one root (g = f = 0, no parent), and every other closed
   * node has f = g + h and a parent closed before it, next to it, whose g plus the
   * step gives its own g.
   */
  ghost predicate Rooted(cl: seq<Node>, s: Node, F: map<Node, SearchFields>) {
    && Distinct(cl)
    && s in F && F[s].parent == null && F[s].g == Some(0) && F[s].f == Some(0)
    && (forall i | 0 <= i < |cl| ::
          cl[i] in F && (cl[i] == s || (Scored(F, cl[i]) && F[cl[i]].parent in cl[..i] && Linked(F, F[cl[i]].parent, cl[i]))))
  }

  /**
   * The invariant of a search started from `s`, over the open list `o`, the closed list
   * `cl` and the search fields `F`: the closed list is rooted at s, open holds no
   * duplicates and nothing closed, s is closed unless the search has not begun, and
   * every other open node has f = g + h and a closed neighbour as parent that gives it its g.
   */
  ghost predicate Tree(o: seq<Node>, cl: seq<Node>, s: Node, F: map<Node, SearchFields>) {
    && Rooted(cl, s, F)
    && Distinct(o)
    && (forall n | n in o :: n !in cl)
    && (s in cl || (o == [s] && cl == []))
    && (forall n | n in o :: n in F && (n == s || (Scored(F, n) && F[n].parent in cl && Linked(F, F[n].parent, n))))
  }

  /** Moving the node the search expands next from open to closed keeps the invariant. */
  lemma CloseKeepsTree(o: seq<Node>, cl: seq<Node>, s: Node, F: map<Node, SearchFields>, cur: Node)
    requires Tree(o, cl, s, F) && cur in o
    ensures Tree(RemoveFirst(o, cur), cl + [cur], s, F)
  {
    var o', cl' := RemoveFirst(o, cur), cl + [cur];
    RemoveFirstDistinct(o, cur);
    DistinctConcat(cl, [cur]);
    forall i | 0 <= i < |cl'|
      ensures cl'[i] in F && (cl'[i] == s || (Scored(F, cl'[i]) && F[cl'[i]].parent in cl'[..i] && Linked(F, F[cl'[i]].parent, cl'[i])))
    {
      if i < |cl| {
        assert cl'[..i] == cl[..i];
      } else {
        assert cl'[..i] == cl;
      }
    }
  }

  /** The search fields after the neighbour scan around `c`, whose g is `cg`: every node the scan improves is relaxed. */
  ghost function Relax(F: map<Node, SearchFields>, c: Node, cg: int, o: seq<Node>, cl: seq<Node>, walls: set<Node>, e: Node): map<Node, SearchFields> {
    map n | n in F :: if Improves(cg, c, n, F[n], o, cl, walls, e) then RelaxedFields(cg, c, n, e) else F[n]
  }

  /** Relaxing around `c` never touches a closed node. */
  lemma RelaxKeepsClosed(cl: seq<Node>, F: map<Node, SearchFields>, c: Node, cg: int, o: seq<Node>, walls: set<Node>, e: Node, n: Node)
    requires n in F && n in cl
    ensures n in Relax(F, c, cg, o, cl, walls, e) && Relax(F, c, cg, o, cl, walls, e)[n] == F[n]
  {
  }

  /** Relaxing around the closed node `c`, whose g is `cg`, keeps the closed list rooted. */
  lemma RelaxKeepsRooted(cl: seq<Node>, s: Node, F: map<Node, SearchFields>, c: Node, cg: int, o: seq<Node>, walls: set<Node>, e: Node)
    requires Rooted(cl, s, F) && s in cl
    ensures Rooted(cl, s, Relax(F, c, cg, o, cl, walls, e))
  {
    var F' := Relax(F, c, cg, o, cl, walls, e);
    RelaxKeepsClosed(cl, F, c, cg, o, walls, e, s);
    forall i | 0 <= i < |cl|
      ensures cl[i] in F' && (cl[i] == s || (Scored(F', cl[i]) && F'[cl[i]].parent in cl[..i] && Linked(F', F'[cl[i]].parent, cl[i])))
    {
      RelaxKeepsClosed(cl, F, c, cg, o, walls, e, cl[i]);
      if cl[i] != s {
        var p := F[cl[i]].parent;
        RelaxKeepsClosed(cl, F, c, cg, o, walls, e, p);
      }
    }
  }

  /**
   * After relaxing around the closed node `c`, whose g is `cg`, a node `n` that was open,
   * or that the scan examines, is the root or has f = g + h and a closed parent giving it its g.
   */
  lemma RelaxOpenNode(o: seq<Node>, cl: seq<Node>, s: Node, F: map<Node, SearchFields>, c: Node, cg: int,
                      walls: set<Node>, e: Node, n: Node)
    requires c in cl && c in F && F[c].g == Some(cg) && s in cl && n in F
    requires n in o ==> n !in cl && (n == s || (Scored(F, n) && F[n].parent in cl && Linked(F, F[n].parent, n)))
    requires n !in o ==> Examined(c, n, cl, walls)
    ensures var F' := Relax(F, c, cg, o, cl, walls, e);
      n in F' && (n == s || (Scored(F', n) && F'[n].parent in cl && Linked(F', F'[n].parent, n)))
  {
    var F' := Relax(F, c, cg, o, cl, walls, e);
    RelaxKeepsClosed(cl, F, c, cg, o, walls, e, c);
    if Improves(cg, c, n, F[n], o, cl, walls, e) {
      assert F'[n] == RelaxedFields(cg, c, n, e);
    } else {
      assert F'[n] == F[n];
      if n != s {
        RelaxKeepsClosed(cl, F, c, cg, o, walls, e, F[n].parent);
      }
    }
  }

  /**
   * Relaxing around the closed node `c`, whose g is `cg`, and extending the open list
   * `o` to `o2` with nodes the scan examines keeps the invariant of the search.
   */
  lemma RelaxKeepsTree(o: seq<Node>, o2: seq<Node>, cl: seq<Node>, s: Node, F: map<Node, SearchFields>, c: Node, cg: int,
                       walls: set<Node>, e: Node)
    requires Tree(o, cl, s, F) && c in cl && F[c].g == Some(cg) && Distinct(o2)
    requires forall m | m in o2 :: m in o || (m in F && Examined(c, m, cl, walls))
    ensures Tree(o2, cl, s, Relax(F, c, cg, o, cl, walls, e))
  {
    assert s in cl;
    RelaxKeepsRooted(cl, s, F, c, cg, o, walls, e);
    forall n | n in o2
      ensures var F' := Relax(F, c, cg, o, cl, walls, e);
        n in F' && (n == s || (Scored(F', n) && F'[n].parent in cl && Linked(F', F'[n].parent, n)))
    {
      RelaxOpenNode(o, cl, s, F, c, cg, walls, e, n);
    }
  }

  /**
   * The nodes `backtrack` walks through from the closed node `n` over the search fields
   * `F`: n, its parent, its parent's parent and so on, ending at the start `s`, the one
   * closed node without a parent. Every parent lies earlier in the closed list, so the
   * walk ends.
   */
  ghost function Ancestry(F: map<Node, SearchFields>, cl: seq<Node>, s: Node, n: Node): (a: seq<Node>)
    requires Rooted(cl, s, F) && n in cl
    ensures |a| >= 1 && a[0] == n && a[|a| - 1] == s && F[s].parent == null
    ensures forall i | 0 <= i < |a| :: a[i] in cl
    ensures forall i | 0 <= i < |a| - 1 :: F[a[i]].parent == a[i + 1] && Linked(F, a[i + 1], a[i])
    decreases IndexOf(cl, n)
  {
    var p := F[n].parent;
    if p == null then
      Parentless(F, cl, s, n);
      [n]
    else
      ParentEarlier(F, cl, s, n);
      var rest := Ancestry(F, cl, s, p);
      PrependParent(F, cl, s, n, rest);
      [n] + rest
  }

  /** The one closed node without a parent is the start. */
  lemma Parentless(F: map<Node, SearchFields>, cl: seq<Node>, s: Node, n: Node)
    requires Rooted(cl, s, F) && n in cl && F[n].parent == null
    ensures n == s
  {
    var k := IndexOf(cl, n);
    assert cl[k] == n;
  }

  /** A walk of parents that ends at the start stays one when a closed child of its first node is put in front. */
  lemma PrependParent(F: map<Node, SearchFields>, cl: seq<Node>, s: Node, n: Node, rest: seq<Node>)
    requires n in cl && s in F && F[s].parent == null
    requires |rest| >= 1 && rest[|rest| - 1] == s && Linked(F, rest[0], n) && F[n].parent == rest[0]
    requires forall i | 0 <= i < |rest| :: rest[i] in cl
    requires forall i | 0 <= i < |rest| - 1 :: Linked(F, rest[i + 1], rest[i]) && F[rest[i]].parent == rest[i + 1]
    ensures var a := [n] + rest; |a| >= 1 && a[0] == n && a[|a| - 1] == s
    ensures var a := [n] + rest; forall i | 0 <= i < |a| :: a[i] in cl
    ensures var a := [n] + rest; forall i | 0 <= i < |a| - 1 :: Linked(F, a[i + 1], a[i]) && a[i] in F && F[a[i]].parent == a[i + 1]
  {
    var a := [n] + rest;
    forall i | 0 <= i < |a| ensures a[i] in cl {
      if i > 0 { assert a[i] == rest[i - 1]; }
    }
    forall i | 0 <= i < |a| - 1 ensures Linked(F, a[i + 1], a[i]) && a[i] in F && F[a[i]].parent == a[i + 1] {
      if i > 0 { assert a[i] == rest[i - 1] && a[i + 1] == rest[i]; }
    }
  }

  /** A closed node other than the start has a parent, which sits earlier in the closed list and gives it its g. */
  lemma ParentEarlier(F: map<Node, SearchFields>, cl: seq<Node>, s: Node, n: Node)
    requires Rooted(cl, s, F) && n in cl && F[n].parent != null
    ensures n != s && F[n].parent in cl && IndexOf(cl, F[n].parent) < IndexOf(cl, n)
    ensures Linked(F, F[n].parent, n)
  {
    var k := IndexOf(cl, n);
    var p := F[n].parent;
    assert cl[k] != s && p in cl[..k];
    var j :| 0 <= j < k && cl[j] == p;
  }

  /** `t` ends in `None`, and every earlier entry is a node whose parent, in the search fields `F`, is the next entry. */
  ghost predicate ParentChain(t: seq<Node?>, F: map<Node, SearchFields>) {
    && |t| >= 1 && t[|t| - 1] == null
    && forall i | 0 <= i < |t| - 1 :: t[i] != null && t[i] in F && F[t[i]].parent == t[i + 1]
  }

  /**
   * Two nodes that are each other's parent trap `backtrack`: a chain of parents that
   * reaches `s` only alternates between `s` and `p` from there on and so never ends in
   * `None`. A start moved onto a node that kept the parent `p` from an earlier search
   * gives `p` the parent `s` at the first expansion, and this is the state it leaves.
   */
  lemma StaleParentCycle(F: map<Node, SearchFields>, s: Node, p: Node, t: seq<Node?>, k: nat)
    requires s in F && p in F && F[s].parent == p && F[p].parent == s
    ensures !(ParentChain(t, F) && k < |t| && t[k] == s)
  {
    if ParentChain(t, F) && k < |t| && t[k] == s {
      CycleFrom(F, s, p, t, k, |t| - 1);
    }
  }

  /** Past a position holding `s`, a chain of parents holds only `s` and `p`. */
  lemma {:induction false} CycleFrom(F: map<Node, SearchFields>, s: Node, p: Node, t: seq<Node?>, k: nat, i: nat)
    requires s in F && p in F && F[s].parent == p && F[p].parent == s
    requires ParentChain(t, F) && k <= i < |t| && t[k] == s
    ensures t[i] == s || t[i] == p
    decreases i
  {
    if i > k {
      CycleFrom(F, s, p, t, k, i - 1);
    }
  }

  /** The ancestry of a closed node, followed by `None`, is a chain of parents. */
  lemma AncestryChain(F: map<Node, SearchFields>, cl: seq<Node>, s: Node, n: Node)
    requires Rooted(cl, s, F) && n in cl
    ensures ParentChain(Ancestry(F, cl, s, n) + [null], F)
  {
    var a := Ancestry(F, cl, s, n);
    var t: seq<Node?> := a + [null];
    forall i | 0 <= i < |t| - 1 ensures t[i] != null && t[i] in F && F[t[i]].parent == t[i + 1] {
      assert t[i] == a[i];
    }
  }

  /** The nodes of a backtracked path are distinct: each one lies earlier in the closed list than the one before. */
  lemma {:induction false} AncestryDistinct(F: map<Node, SearchFields>, cl: seq<Node>, s: Node, n: Node)
    requires Rooted(cl, s, F) && n in cl
    ensures Distinct(Ancestry(F, cl, s, n))
    ensures forall m | m in Ancestry(F, cl, s, n) :: IndexOf(cl, m) <= IndexOf(cl, n)
    decreases IndexOf(cl, n)
  {
    var p := F[n].parent;
    if p != null {
      ParentEarlier(F, cl, s, n);
      AncestryDistinct(F, cl, s, p);
      var rest := Ancestry(F, cl, s, p);
      assert n !in rest;
      DistinctConcat([n], rest);
    }
  }

  /** The sum of the step distances along a list of nodes. */
  function PathCost(t: seq<Node>): nat {
    if |t| < 2 then 0 else Distance(t[0].x, t[0].y, t[1].x, t[1].y) + PathCost(t[1..])
  }

  /** The g of a closed node is the sum of the steps along its backtracked path. */
  lemma {:induction false} AncestryCost(F: map<Node, SearchFields>, cl: seq<Node>, s: Node, n: Node)
    requires Rooted(cl, s, F) && n in cl
    ensures F[n].g.Some? && F[n].g.value == PathCost(Ancestry(F, cl, s, n))
    decreases IndexOf(cl, n)
  {
    var p := F[n].parent;
    if p == null {
      assert n == s && Ancestry(F, cl, s, n) == [n];
    } else {
      ParentEarlier(F, cl, s, n);
      AncestryCost(F, cl, s, p);
      var a, rest := Ancestry(F, cl, s, n), Ancestry(F, cl, s, p);
      assert a == [n] + rest && rest[0] == p && a[1..] == rest;
      DistanceSymmetric(p.x, p.y, n.x, n.y);
    }
  }

  /** The g of a closed node is never below the octile distance from the start: the heuristic never overestimates. */
  lemma {:induction false} CostAtLeastDistance(F: map<Node, SearchFields>, cl: seq<Node>, s: Node, n: Node)
    requires Rooted(cl, s, F) && n in cl
    ensures F[n].g.Some? && F[n].g.value >= Distance(s.x, s.y, n.x, n.y)
    decreases IndexOf(cl, n)
  {
    var p := F[n].parent;
    if p == null {
      assert n == s;
    } else {
      ParentEarlier(F, cl, s, n);
      CostAtLeastDistance(F, cl, s, p);
      TriangleInequality(s.x, s.y, p.x, p.y, n.x, n.y);
    }
  }

  /**
   * `m` is next to `c` and a search may move onto it: it is not an obstacle and not at the
   * absolute coordinates (0, 0), which the neighbour scan always skips.
   */
  predicate Enterable(walls: set<Node>, c: Node, m: Node) {
    Around(c, m) && m !in walls && !(m.x == 0 && m.y == 0)
  }

  /** `w` is a walk from `s` in which every step is onto an enterable neighbour in `grid`. */
  ghost predicate Walk(grid: set<Node>, walls: set<Node>, s: Node, older w: seq<Node>)
    decreases |w|
  {
    && |w| >= 1 && w[0] == s
    && (|w| == 1 || (w[1] in grid && Enterable(walls, s, w[1]) && Walk(grid, walls, w[1], w[1..])))
  }

  /** Some walk leads from `s` to `e`. */
  ghost predicate Reachable(grid: set<Node>, walls: set<Node>, s: Node, e: Node) {
    exists w | Walk(grid, walls, s, w) :: w[|w| - 1] == e
  }

  /**
   * Nothing a search with open list `o` and closed list `cl` has passed over: the end `e`
   * is not closed, and every enterable neighbour of a closed node is open or closed.
   */
  ghost predicate Covered(grid: set<Node>, walls: set<Node>, o: seq<Node>, cl: seq<Node>, e: Node) {
    && e !in cl
    && forall c, m | c in cl && m in grid && Enterable(walls, c, m) :: m in o || m in cl
  }

  /** Every open or closed node other than the start `s` is neither an obstacle nor at (0, 0). */
  ghost predicate Unblocked(walls: set<Node>, o: seq<Node>, cl: seq<Node>, s: Node) {
    forall m | m in o + cl && m != s :: m !in walls && !(m.x == 0 && m.y == 0)
  }

  /** A walk that starts at a closed node never leaves the closed nodes once nothing is open. */
  lemma {:induction false} WalkClosed(grid: set<Node>, walls: set<Node>, cl: seq<Node>, e: Node, s: Node, w: seq<Node>)
    requires Covered(grid, walls, [], cl, e) && Walk(grid, walls, s, w) && s in cl
    ensures w[|w| - 1] in cl
    decreases |w|
  {
    if |w| > 1 {
      WalkClosed(grid, walls, cl, e, w[1], w[1..]);
    }
  }

  /** A search that has run out of open nodes without closing `e` has shown that no walk leads from its start `s` to e. */
  lemma NoRoute(grid: set<Node>, walls: set<Node>, cl: seq<Node>, s: Node, e: Node)
    requires Covered(grid, walls, [], cl, e) && s in cl
    ensures !Reachable(grid, walls, s, e)
  {
    forall w | Walk(grid, walls, s, w) ensures w[|w| - 1] != e {
      WalkClosed(grid, walls, cl, e, s, w);
    }
  }

  /** A walk extended by an enterable neighbour of its last node is a walk. */
  lemma {:induction false} WalkExtend(grid: set<Node>, walls: set<Node>, s: Node, w: seq<Node>, n: Node)
    requires Walk(grid, walls, s, w) && n in grid && Enterable(walls, w[|w| - 1], n)
    ensures Walk(grid, walls, s, w + [n])
    decreases |w|
  {
    if |w| > 1 {
      WalkExtend(grid, walls, w[1], w[1..], n);
      assert (w + [n])[1..] == w[1..] + [n];
    }
  }

  /** The ancestry of a closed node `n`, read from the start `s` onwards, is a walk to n when no closed node is blocked. */
  lemma {:induction false} RouteFound(grid: set<Node>, walls: set<Node>, F: map<Node, SearchFields>, cl: seq<Node>, s: Node, n: Node)
    requires Rooted(cl, s, F) && n in cl && Unblocked(walls, [], cl, s) && forall m | m in cl :: m in grid
    ensures Reachable(grid, walls, s, n)
    decreases IndexOf(cl, n)
  {
    var p := F[n].parent;
    if p == null {
      Parentless(F, cl, s, n);
      assert Walk(grid, walls, s, [s]);
    } else {
      ParentEarlier(F, cl, s, n);
      RouteFound(grid, walls, F, cl, s, p);
      var w :| Walk(grid, walls, s, w) && w[|w| - 1] == p;
      assert n in [] + cl;
      WalkExtend(grid, walls, s, w, n);
      assert (w + [n])[|w|] == n;
    }
  }

  /**
   * The search fields the neighbour scan around `c` owes node `n`, whose fields were `fs`
   * when the scan began, before position `t`: the relaxed fields once the scan has passed
   * n and improves it, `fs` otherwise.
   */
  function Due(c: Node, cg: int, t: int, o0: seq<Node>, cl: seq<Node>, walls: set<Node>, e: Node, fs: SearchFields, n: Node): SearchFields {
    if ScannedBefore(c, n, t) && Improves(cg, c, n, fs, o0, cl, walls, e) then RelaxedFields(cg, c, n, e) else fs
  }

  /** What the scan owes every node of `grid`, given the fields `before` it began with. */
  ghost function Owed(grid: set<Node>, c: Node, cg: int, t: int, o0: seq<Node>, cl: seq<Node>, walls: set<Node>, e: Node,
                      before: map<Node, SearchFields>): map<Node, SearchFields>
    requires grid <= before.Keys
  {
    map n | n in grid :: Due(c, cg, t, o0, cl, walls, e, before[n], n)
  }

  /** Position t = 3 (i + 1) + (j + 1) of the scan changes what is owed to the node `m` at offset (i, j) only. */
  lemma OwedStep(grid: set<Node>, c: Node, cg: int, i: int, j: int, o0: seq<Node>, cl: seq<Node>, walls: set<Node>, e: Node,
                 before: map<Node, SearchFields>, m: Node)
    requires grid <= before.Keys && -1 <= i <= 1 && -1 <= j <= 1
    requires m in grid && m.x == c.x + i && m.y == c.y + j
    requires forall n | n in grid && n.x == m.x && n.y == m.y :: n == m
    ensures var t := 3 * (i + 1) + (j + 1);
      && Owed(grid, c, cg, t, o0, cl, walls, e, before)[m] == before[m]
      && Owed(grid, c, cg, t + 1, o0, cl, walls, e, before) ==
           Owed(grid, c, cg, t, o0, cl, walls, e, before)[m := Due(c, cg, t + 1, o0, cl, walls, e, before[m], m)]
  {
    var t := 3 * (i + 1) + (j + 1);
    var o, o' := Owed(grid, c, cg, t, o0, cl, walls, e, before), Owed(grid, c, cg, t + 1, o0, cl, walls, e, before);
    forall n | n in grid ensures o'[n] == o[m := Due(c, cg, t + 1, o0, cl, walls, e, before[m], m)][n] {
      ScanOrder(c, n, i, j);
    }
    ScanOrder(c, m, i, j);
  }

  /** A position of the scan with no node of `grid` at its offset changes nothing that is owed. */
  lemma OwedSkip(grid: set<Node>, c: Node, cg: int, i: int, j: int, o0: seq<Node>, cl: seq<Node>, walls: set<Node>, e: Node,
                 before: map<Node, SearchFields>)
    requires grid <= before.Keys && -1 <= i <= 1 && -1 <= j <= 1
    requires forall n | n in grid :: !(n.x == c.x + i && n.y == c.y + j)
    ensures var t := 3 * (i + 1) + (j + 1);
      Owed(grid, c, cg, t + 1, o0, cl, walls, e, before) == Owed(grid, c, cg, t, o0, cl, walls, e, before)
  {
    var t := 3 * (i + 1) + (j + 1);
    var o, o' := Owed(grid, c, cg, t, o0, cl, walls, e, before), Owed(grid, c, cg, t + 1, o0, cl, walls, e, before);
    forall n | n in grid ensures o'[n] == o[n] {
      ScanOrder(c, n, i, j);
    }
  }

  /** Once the scan has passed all nine positions, what is owed is the relaxation of the fields it began with. */
  lemma OwedDone(grid: set<Node>, c: Node, cg: int, o0: seq<Node>, cl: seq<Node>, walls: set<Node>, e: Node,
                 before: map<Node, SearchFields>)
    requires grid == before.Keys
    ensures Owed(grid, c, cg, 9, o0, cl, walls, e, before) == Relax(before, c, cg, o0, cl, walls, e)
  {
    forall n | n in grid ensures ScannedBefore(c, n, 9) <==> Around(c, n) {
    }
  }

  /** The nodes of `grid` carry the search fields `fields` records, and exactly those in `walls` are obstacles. */
  ghost predicate Mirrors(grid: set<Node>, fields: map<Node, SearchFields>, walls: set<Node>)
    reads grid
  {
    forall n | n in grid :: n in fields && n.Fields() == fields[n] && n.obstacle == (n in walls)
  }

  class App {
    /** nodes[x][y] is the node in column x and row y. */
    const nodes: seq<seq<Node>>
    /** events[m] is set when click mode m is selected. */
    const events: array<bool>
    var open: seq<Node>
    var closed: seq<Node>
    var start: Node?
    var end: Node?
    /** The path built by backtracking: end first, then parents, `None` last. */
    var path: seq<Node?>

    /** Every node of the grid. */
    ghost const Grid: set<Node>

    /** The grid is Cols x Rows, `Grid` holds its nodes, and there is one event flag per mode key. */
    ghost predicate Shaped() {
      Layout(nodes, Grid) && events.Length == |Chars|
    }

    /** At most one click mode is selected. */
    ghost predicate OneModeAtMost()
      reads events
    {
      forall i, j | 0 <= i < j < events.Length :: !(events[i] && events[j])
    }

    /** What holds at all times, including between the two calls of the constructor that set start and end. */
    ghost predicate Consistent()
      reads this`open, this`closed, this`start, this`end, Grid, events
    {
      && Shaped()
      && OneModeAtMost()
      && (start != null ==> start in Grid)
      && (end != null ==> end in Grid)
      && (forall n | n in open :: n in Grid)
      && (forall n | n in closed :: n in Grid)
      // the scan never examines (0, 0), so nothing ever gives it a parent
      && InCell(nodes, Grid, 0, 0) && nodes[0][0].parent == null
    }

    ghost predicate Valid()
      reads this`open, this`closed, this`start, this`end, Grid, events
    {
      Consistent() && start != null && end != null
    }

    /** The invariant of a search started from the initial state, over the open and closed lists and the grid's search fields. */
    ghost predicate SearchInv()
      reads this`open, this`closed, this`start, this`end, Grid, events
    {
      Valid() && Tree(open, closed, start, Snapshot())
    }

    /** The search so far has passed nothing over on the way to the end node. */
    ghost predicate Complete()
      reads this`open, this`closed, this`end, Grid
    {
      end != null && Covered(Grid, Walls(), open, closed, end)
    }

    /** No open or closed node other than the start is an obstacle or at (0, 0). */
    ghost predicate Unobstructed()
      reads this`open, this`closed, this`start, Grid
    {
      start != null && Unblocked(Walls(), open, closed, start)
    }

    /** The search fields of every node of the grid. */
    ghost function Snapshot(): map<Node, SearchFields>
      reads Grid
    {
      map n | n in Grid :: n.Fields()
    }

    /**
     * The search fields after the start moves from `s0` to `n`, given the fields `before`:
     * n gets g = f = 0, the previous start loses g and f, and every other node of the
     * grid keeps all its fields, stale parents included.
     */
    ghost predicate StartMoved(before: map<Node, SearchFields>, s0: Node?, n: Node)
      reads Grid
    {
      forall m | m in Grid && m in before ::
        m.Fields() == if m == n then before[m].(g := Some(0), f := Some(0))
                      else if m == s0 then before[m].(g := None, f := None)
                      else before[m]
    }

    /** The state the constructor and a reset leave: only the start is open, nothing is closed. */
    ghost predicate Initial()
      reads this`open, this`closed, this`start, this`end, Grid, events
    {
      && Valid()
      && open == [start] && closed == []
      && start.parent == null && start.g == Some(0) && start.f == Some(0)
    }

    /** Everything a reset restores. */
    ghost predicate ResetState()
      reads this`open, this`closed, this`start, this`end, Grid, events
    {
      && Initial()
      && start == nodes[0][0]
      && end == nodes[Cols - 1][Rows - 1]
      && (forall n | n in Grid :: !n.obstacle)
    }

    lemma InitialSearchInv()
      requires Initial()
      ensures SearchInv()
    {
    }

    constructor ()
      ensures ResetState() && SearchInv()
      ensures forall i | 0 <= i < events.Length :: !events[i]
      ensures start.Fields() == SearchFields(null, Some(0), None, Some(0))
      ensures forall n | n in Grid && n != start :: Pristine(n)
      ensures fresh(events) && forall n | n in Grid :: fresh(n)
    {
      var grid;
      ghost var g;
      grid, g := CreateGrid();
      nodes := grid;
      Grid := g;
      open := [];
      closed := [];
      start := null;
      end := null;
      path := [];
      events := new bool[|Chars|](_ => false);
      new;
      assert InCell(nodes, Grid, 0, 0);
      assert forall n | n in Grid :: Pristine(n);
      assert forall i | 0 <= i < events.Length :: !events[i];
      ghost var pristine := Snapshot();
      Restart();
      InitialSearchInv();
      forall n | n in Grid
        ensures n.Fields() == if n == start then SearchFields(null, Some(0), None, Some(0)) else SearchFields(null, None, None, None)
      {
        assert pristine[n] == SearchFields(null, None, None, None);
      }
    }

    /**
     * What the constructor and the clear-all click both do after building or clearing
     * the grid: empty open and closed lists, then the default start (0, 0) and end
     * (Cols - 1, Rows - 1). Search fields other than the two starts' g and f stay as they were.
     */
    method Restart()
      requires Consistent()
      modifies this`open, this`closed, this`start, this`end, start, nodes[0][0]
      ensures Initial()
      ensures start == nodes[0][0] && end == nodes[Cols - 1][Rows - 1]
      ensures forall m | m in Grid :: m.obstacle == old(m.obstacle)
      ensures StartMoved(old(Snapshot()), old(start), nodes[0][0])
    {
      ghost var before, s0 := Snapshot(), start;
      open := [];
      closed := [];
      assert Snapshot() == before;
      SetStart(nodes[0][0]);
      assert StartMoved(before, s0, nodes[0][0]);
      assert InCell(nodes, Grid, Cols - 1, Rows - 1);
      SetEnd(nodes[Cols - 1][Rows - 1]);
    }

    /** `set_start`: the previous start loses g and f and leaves open; `n` gets g = f = 0 and is appended to open. */
    method SetStart(n: Node)
      requires Consistent() && n in Grid
      modifies this`start, this`open, start, n
      ensures Consistent() && start == n && closed == old(closed) && end == old(end) && Walls() == old(Walls())
      ensures open == (if old(start) != null && old(start) in old(open) then RemoveFirst(old(open), old(start)) else old(open)) + [n]
      ensures n.Fields() == old(n.Fields()).(g := Some(0), f := Some(0))
      ensures old(start) != null && old(start) != n ==> old(start).Fields() == old(start.Fields()).(g := None, f := None)
      ensures forall m | m in Grid && m != n && m != old(start) :: m.Fields() == old(m.Fields())
      ensures old(Initial()) && n.parent == null ==> Initial()
    {
      DropStart();
      PlaceStart(n);
    }

    /** The second half of `set_start`: `n` becomes the start with g = f = 0 and is appended to open. */
    method PlaceStart(n: Node)
      requires Consistent() && n in Grid
      modifies this`start, this`open, n
      ensures Consistent() && start == n && Walls() == old(Walls())
      ensures open == old(open) + [n]
      ensures n.Fields() == old(n.Fields()).(g := Some(0), f := Some(0))
    {
      start := n;
      n.g := Some(0);
      n.f := Some(0);
      open := open + [n];
    }

    /** The first half of `set_start`: the current start, if there is one, loses g and f and leaves open. */
    method DropStart()
      requires Consistent()
      modifies this`open, start
      ensures Consistent() && start == old(start) && Walls() == old(Walls())
      ensures open == if start != null && start in old(open) then RemoveFirst(old(open), start) else old(open)
      ensures start != null ==> start.Fields() == old(start.Fields()).(g := None, f := None) && start.obstacle == old(start.obstacle)
    {
      var previous := start;
      if previous == null {
      } else {
        previous.g := None;
        previous.f := None;
        if previous in open {
          open := RemoveFirst(open, previous);
        }
      }
    }

    /** Every open node has a g and an f, so the search can compare and extend them. */
    ghost predicate Scoreable()
      reads this`open, open
    {
      forall n | n in open :: n.g.Some? && n.f.Some?
    }

    /** The obstacles of the grid. */
    ghost function Walls(): (w: set<Node>)
      reads Grid
      ensures forall n | n in Grid :: n in w <==> n.obstacle
    {
      set n | n in Grid && n.obstacle
    }

    /**
     * The open list `o` as the neighbour scan around `c` leaves it before position `t`:
     * extended, in scan order, by every node the scan examines that `o` does not hold,
     * given the closed list `cl` and the obstacles `walls`.
     */
    ghost function Extended(c: Node, o: seq<Node>, cl: seq<Node>, walls: set<Node>, t: nat): (r: seq<Node>)
      requires Shaped() && t <= 9
    {
      if t == 0 then o
      else
        var d := Offsets[t - 1];
        var x, y := c.x + d.0, c.y + d.1;
        var rest := Extended(c, o, cl, walls, t - 1);
        if 0 <= x < Cols && 0 <= y < Rows && Examined(c, nodes[x][y], cl, walls) && nodes[x][y] !in o
        then assert InCell(nodes, Grid, x, y); rest + [nodes[x][y]]
        else rest
    }

    /**
     * The scan only appends: what `o` holds stays, everything appended is a node of the
     * grid scanned before position `t` and examined, and no node is appended twice.
     */
    lemma ExtendedBounds(c: Node, o: seq<Node>, cl: seq<Node>, walls: set<Node>, t: nat)
      requires Shaped() && t <= 9
      ensures forall m | m in o :: m in Extended(c, o, cl, walls, t)
      ensures forall m | m in Extended(c, o, cl, walls, t) :: m in o || (m in Grid && ScannedBefore(c, m, t) && Examined(c, m, cl, walls))
      ensures Distinct(o) ==> Distinct(Extended(c, o, cl, walls, t))
    {
      ExtendedKeeps(c, o, cl, walls, t);
      ExtendedAdds(c, o, cl, walls, t);
      if Distinct(o) {
        ExtendedDistinct(c, o, cl, walls, t);
      }
    }

    lemma {:induction false} ExtendedKeeps(c: Node, o: seq<Node>, cl: seq<Node>, walls: set<Node>, t: nat)
      requires Shaped() && t <= 9
      ensures forall m | m in o :: m in Extended(c, o, cl, walls, t)
    {
      if t > 0 {
        ExtendedKeeps(c, o, cl, walls, t - 1);
      }
    }

    lemma {:induction false} ExtendedAdds(c: Node, o: seq<Node>, cl: seq<Node>, walls: set<Node>, t: nat)
      requires Shaped() && t <= 9
      ensures forall m | m in Extended(c, o, cl, walls, t) :: m in o || (m in Grid && ScannedBefore(c, m, t) && Examined(c, m, cl, walls))
    {
      if t > 0 {
        ExtendedAdds(c, o, cl, walls, t - 1);
        OffsetPosition(t - 1);
        var d := Offsets[t - 1];
        var x, y := c.x + d.0, c.y + d.1;
        if 0 <= x < Cols && 0 <= y < Rows && Examined(c, nodes[x][y], cl, walls) && nodes[x][y] !in o {
          assert InCell(nodes, Grid, x, y);
        }
      }
    }

    lemma {:induction false} ExtendedDistinct(c: Node, o: seq<Node>, cl: seq<Node>, walls: set<Node>, t: nat)
      requires Shaped() && t <= 9 && Distinct(o)
      ensures Distinct(Extended(c, o, cl, walls, t))
    {
      if t > 0 {
        ExtendedDistinct(c, o, cl, walls, t - 1);
        var d := Offsets[t - 1];
        var x, y := c.x + d.0, c.y + d.1;
        var rest := Extended(c, o, cl, walls, t - 1);
        if 0 <= x < Cols && 0 <= y < Rows && Examined(c, nodes[x][y], cl, walls) && nodes[x][y] !in o {
          ExtendedAdds(c, o, cl, walls, t - 1);
          OffsetPosition(t - 1);
          assert InCell(nodes, Grid, x, y);
          var m := nodes[x][y];
          assert !ScannedBefore(c, m, t - 1);
          DistinctConcat(rest, [m]);
        } else {
          assert Extended(c, o, cl, walls, t) == rest;
        }
      }
    }

    /** The converse of the bounds: every node of the grid scanned before position `t` and examined ends up in the list. */
    lemma {:induction false} ExtendedComplete(c: Node, o: seq<Node>, cl: seq<Node>, walls: set<Node>, t: nat)
      requires Shaped() && t <= 9
      ensures forall m | m in Grid && ScannedBefore(c, m, t) && Examined(c, m, cl, walls) :: m in Extended(c, o, cl, walls, t)
    {
      if t > 0 {
        ExtendedComplete(c, o, cl, walls, t - 1);
        ExtendedKeeps(c, o, cl, walls, t - 1);
        OffsetPosition(t - 1);
        var d := Offsets[t - 1];
        forall m | m in Grid && ScannedBefore(c, m, t) && Examined(c, m, cl, walls) ensures m in Extended(c, o, cl, walls, t) {
          if !ScannedBefore(c, m, t - 1) {
            assert m.x == c.x + d.0 && m.y == c.y + d.1;
            assert AtPlace(nodes, m);
          }
        }
      }
    }

    /** Position t of the scan, at offset (i, j), appends the node `m` there when the scan examines it and `o` does not hold it. */
    lemma ExtendedAt(c: Node, o: seq<Node>, cl: seq<Node>, walls: set<Node>, t: nat, i: int, j: int, m: Node)
      requires Shaped() && -1 <= i <= 1 && -1 <= j <= 1 && t == 3 * (i + 1) + (j + 1)
      requires 0 <= c.x + i < Cols && 0 <= c.y + j < Rows && m == nodes[c.x + i][c.y + j]
      ensures Examined(c, m, cl, walls) && m !in o ==> Extended(c, o, cl, walls, t + 1) == Extended(c, o, cl, walls, t) + [m]
      ensures !(Examined(c, m, cl, walls) && m !in o) ==> Extended(c, o, cl, walls, t + 1) == Extended(c, o, cl, walls, t)
    {
      ScanOffset(t, i, j);
    }

    /** A position of the scan whose offset leaves the grid appends nothing. */
    lemma ExtendedOff(c: Node, o: seq<Node>, cl: seq<Node>, walls: set<Node>, t: nat, i: int, j: int)
      requires Shaped() && -1 <= i <= 1 && -1 <= j <= 1 && t == 3 * (i + 1) + (j + 1)
      requires !(0 <= c.x + i < Cols && 0 <= c.y + j < Rows)
      ensures Extended(c, o, cl, walls, t + 1) == Extended(c, o, cl, walls, t)
    {
      ScanOffset(t, i, j);
    }

    /**
     * The body of the scan for one neighbour `n` of `c`: when n is not open, or the path
     * through c gives it a lower f than it has, n takes the new g, h, f and c as parent,
     * and joins open if it was not there. Against the scan's ghost bookkeeping (what n
     * had and whether it was open when the scan began), n ends up with what it is owed.
     */
    method Visit(c: Node, n: Node, ghost t: nat, ghost cg: int, ghost o0: seq<Node>, ghost cl: seq<Node>, ghost walls: set<Node>,
                 ghost e: Node, ghost before: map<Node, SearchFields>, ghost owed: map<Node, SearchFields>)
      requires end == e && c.g == Some(cg) && n in Grid && c != n
      requires Mirrors(Grid, owed, walls)
      requires ScannedBefore(c, n, t) && Examined(c, n, cl, walls)
      requires n in before && n.Fields() == before[n] && (n in open <==> n in o0)
      modifies n, this`open
      ensures var better := (old(n.f).Some? && TentativeF(old(c.g).value, c, n, e) < old(n.f).value) || n !in old(open);
        && n.Fields() == (if better then RelaxedFields(old(c.g).value, c, n, e) else old(n.Fields()))
        && open == (if better && n !in old(open) then old(open) + [n] else old(open))
      ensures n.Fields() == Due(c, cg, t, o0, cl, walls, e, before[n], n)
      ensures n !in o0 ==> open == old(open) + [n]
      ensures n in o0 ==> open == old(open)
      ensures Mirrors(Grid, owed[n := n.Fields()], walls)
    {
      var tempG := c.g.value + Distance(c.x, c.y, n.x, n.y);
      var tempH := Distance(n.x, n.y, end.x, end.y);
      var tempF := tempG + tempH;
      if (n.f.Some? && tempF < n.f.value) || n !in open {
        n.g := Some(tempG);
        n.h := Some(tempH);
        n.f := Some(tempF);
        n.parent := c;
        if n !in open {
          open := open + [n];
        }
      }
    }

    /**
     * Where the neighbour scan around `c` stands before position `t`, given the closed
     * list `cl` and the end node `e`: open extended so far, and every node carrying what
     * it is owed.
     */
    ghost predicate ScanState(c: Node, cg: int, t: nat, o0: seq<Node>, cl: seq<Node>, walls: set<Node>, e: Node,
                              before: map<Node, SearchFields>)
      reads this, Grid
      requires Shaped() && t <= 9 && Grid <= before.Keys
    {
      && open == Extended(c, o0, cl, walls, t)
      && Mirrors(Grid, Owed(Grid, c, cg, t, o0, cl, walls, e, before), walls)
    }

    /**
     * Before position t = 3 (i + 1) + (j + 1) of the scan around `c`, with the node `m`
     * at offset (i, j): m still has the fields the scan began with, is open exactly when
     * it was, and only what is owed to m and whether open grows by m are left to decide.
     */
    lemma ScanPrepare(c: Node, cg: int, t: nat, i: int, j: int, o0: seq<Node>, cl: seq<Node>, walls: set<Node>, e: Node,
                      before: map<Node, SearchFields>, m: Node)
      requires Shaped() && Grid <= before.Keys && -1 <= i <= 1 && -1 <= j <= 1 && t == 3 * (i + 1) + (j + 1)
      requires 0 <= c.x + i < Cols && 0 <= c.y + j < Rows && m == nodes[c.x + i][c.y + j]
      requires ScanState(c, cg, t, o0, cl, walls, e, before)
      ensures
        && m in Grid && m.x == c.x + i && m.y == c.y + j && ScannedBefore(c, m, t + 1)
        && m.Fields() == before[m] && m.obstacle == (m in walls)
        && (m in open <==> m in o0)
        && Owed(Grid, c, cg, t + 1, o0, cl, walls, e, before) ==
             Owed(Grid, c, cg, t, o0, cl, walls, e, before)[m := Due(c, cg, t + 1, o0, cl, walls, e, before[m], m)]
        && (Examined(c, m, cl, walls) <==> !(m.x == 0 && m.y == 0) && m !in cl && !m.obstacle)
        && (Examined(c, m, cl, walls) && m !in o0 ==> Extended(c, o0, cl, walls, t + 1) == open + [m])
        && (!(Examined(c, m, cl, walls) && m !in o0) ==> Extended(c, o0, cl, walls, t + 1) == open)
    {
      assert InCell(nodes, Grid, c.x + i, c.y + j);
      forall n | n in Grid && n.x == m.x && n.y == m.y ensures n == m {
        assert AtPlace(nodes, n);
      }
      OwedStep(Grid, c, cg, i, j, o0, cl, walls, e, before, m);
      ScanOrder(c, m, i, j);
      ExtendedAt(c, o0, cl, walls, t, i, j, m);
      ExtendedBounds(c, o0, cl, walls, t);
    }

    /** Once the node `m` at position t of the scan carries what it is owed and open is extended by it, the scan stands after t. */
    lemma ScanFinish(c: Node, cg: int, t: nat, o0: seq<Node>, cl: seq<Node>, walls: set<Node>, e: Node,
                     before: map<Node, SearchFields>, m: Node, owed: map<Node, SearchFields>)
      requires Shaped() && Grid <= before.Keys && 0 < t <= 9 && m in Grid
      requires Mirrors(Grid, owed[m := m.Fields()], walls)
      requires Owed(Grid, c, cg, t, o0, cl, walls, e, before) == owed[m := Due(c, cg, t, o0, cl, walls, e, before[m], m)]
      requires m.Fields() == Due(c, cg, t, o0, cl, walls, e, before[m], m)
      requires open == Extended(c, o0, cl, walls, t)
      ensures ScanState(c, cg, t, o0, cl, walls, e, before)
    {
    }

    /** A position of the scan whose offset leaves the grid changes nothing. */
    lemma ScanOff(c: Node, cg: int, t: nat, i: int, j: int, o0: seq<Node>, cl: seq<Node>, walls: set<Node>, e: Node,
                  before: map<Node, SearchFields>)
      requires Shaped() && Grid <= before.Keys && -1 <= i <= 1 && -1 <= j <= 1 && t == 3 * (i + 1) + (j + 1)
      requires !(0 <= c.x + i < Cols && 0 <= c.y + j < Rows)
      requires ScanState(c, cg, t, o0, cl, walls, e, before)
      ensures ScanState(c, cg, t + 1, o0, cl, walls, e, before)
    {
      forall n | n in Grid ensures !(n.x == c.x + i && n.y == c.y + j) {
        assert AtPlace(nodes, n);
      }
      OwedSkip(Grid, c, cg, i, j, o0, cl, walls, e, before);
      ExtendedOff(c, o0, cl, walls, t, i, j);
    }

    /** A position of the scan whose node `m` the scan skips changes nothing. */
    lemma ScanSkip(c: Node, cg: int, t: nat, i: int, j: int, o0: seq<Node>, cl: seq<Node>, walls: set<Node>, e: Node,
                   before: map<Node, SearchFields>, m: Node)
      requires Shaped() && Grid <= before.Keys && -1 <= i <= 1 && -1 <= j <= 1 && t == 3 * (i + 1) + (j + 1)
      requires 0 <= c.x + i < Cols && 0 <= c.y + j < Rows && m == nodes[c.x + i][c.y + j]
      requires (m.x == 0 && m.y == 0) || m in cl || m.obstacle
      requires ScanState(c, cg, t, o0, cl, walls, e, before)
      ensures ScanState(c, cg, t + 1, o0, cl, walls, e, before)
    {
      ScanPrepare(c, cg, t, i, j, o0, cl, walls, e, before, m);
      ScanFinish(c, cg, t + 1, o0, cl, walls, e, before, m, Owed(Grid, c, cg, t, o0, cl, walls, e, before));
    }

    /** A position of the scan whose node the scan examines: that node is visited. */
    method ScanVisit(c: Node, i: int, j: int, neighbour: Node, ghost t: nat, ghost cg: int, ghost o0: seq<Node>, ghost cl: seq<Node>,
                     ghost walls: set<Node>, ghost e: Node, ghost before: map<Node, SearchFields>)
      requires Shaped() && closed == cl && end == e && c in cl && c.g == Some(cg) && Grid <= before.Keys
      requires -1 <= i <= 1 && -1 <= j <= 1 && t == 3 * (i + 1) + (j + 1) && 0 <= c.x + i < Cols && 0 <= c.y + j < Rows
      requires neighbour == nodes[c.x + i][c.y + j]
      requires !(neighbour.x == 0 && neighbour.y == 0) && neighbour !in cl && !neighbour.obstacle
      requires ScanState(c, cg, t, o0, cl, walls, e, before)
      modifies this`open, Grid
      ensures ScanState(c, cg, t + 1, o0, cl, walls, e, before)
      ensures c.g == old(c.g)
    {
      ghost var owed := Owed(Grid, c, cg, t, o0, cl, walls, e, before);
      ScanPrepare(c, cg, t, i, j, o0, cl, walls, e, before, neighbour);
      ghost var open0, e1 := open, Extended(c, o0, cl, walls, t + 1);
      assert Examined(c, neighbour, cl, walls);
      Visit(c, neighbour, t + 1, cg, o0, cl, walls, e, before, owed);
      if neighbour in o0 {
        assert open == open0 == e1;
      } else {
        assert open == open0 + [neighbour] == e1;
      }
      ScanFinish(c, cg, t + 1, o0, cl, walls, e, before, neighbour, owed);
    }

    /** One position of the neighbour scan: the offset (i, j) from the current node `c`. */
    method ScanAt(c: Node, i: int, j: int, ghost t: nat, ghost cg: int, ghost o0: seq<Node>, ghost cl: seq<Node>, ghost walls: set<Node>,
                  ghost e: Node, ghost before: map<Node, SearchFields>) returns (ghost next: nat)
      requires Shaped() && closed == cl && end == e && c in cl && c.g == Some(cg) && Grid <= before.Keys
      requires -1 <= i <= 1 && -1 <= j <= 1 && t == 3 * (i + 1) + (j + 1)
      requires ScanState(c, cg, t, o0, cl, walls, e, before)
      modifies this`open, Grid
      ensures next == t + 1 && ScanState(c, cg, next, o0, cl, walls, e, before)
      ensures c.g == old(c.g)
    {
      next := t + 1;
      var x := c.x + i;
      var y := c.y + j;
      assert Width / CellSize == Cols && Height / CellSize == Rows;
      // the chain of `continue`s in `find_path`: off the grid, then (in ScanCell) the absolute cell (0, 0), closed, obstacle
      if 0 <= x < Width / CellSize && 0 <= y < Height / CellSize {
        var neighbour := nodes[x][y];
        ScanCell(c, i, j, neighbour, t, cg, o0, cl, walls, e, before);
      } else {
        ScanOff(c, cg, t, i, j, o0, cl, walls, e, before);
      }
    }

    /** A position of the scan whose offset lies on the grid: its node is skipped or visited. */
    method ScanCell(c: Node, i: int, j: int, neighbour: Node, ghost t: nat, ghost cg: int, ghost o0: seq<Node>, ghost cl: seq<Node>,
                    ghost walls: set<Node>, ghost e: Node, ghost before: map<Node, SearchFields>)
      requires Shaped() && closed == cl && end == e && c in cl && c.g == Some(cg) && Grid <= before.Keys
      requires -1 <= i <= 1 && -1 <= j <= 1 && t == 3 * (i + 1) + (j + 1) && 0 <= c.x + i < Cols && 0 <= c.y + j < Rows
      requires neighbour == nodes[c.x + i][c.y + j]
      requires ScanState(c, cg, t, o0, cl, walls, e, before)
      modifies this`open, Grid
      ensures ScanState(c, cg, t + 1, o0, cl, walls, e, before)
      ensures c.g == old(c.g)
    {
      assert InCell(nodes, Grid, c.x + i, c.y + j);
      if !(c.x + i == 0 && c.y + j == 0) && neighbour !in closed && !neighbour.obstacle {
        ScanVisit(c, i, j, neighbour, t, cg, o0, cl, walls, e, before);
      } else {
        ScanSkip(c, cg, t, i, j, o0, cl, walls, e, before, neighbour);
      }
    }

    /** Nodes that carry exactly the fields a map over the grid records make up that map. */
    lemma MirrorsSnapshot(fields: map<Node, SearchFields>, walls: set<Node>)
      requires Mirrors(Grid, fields, walls) && fields.Keys == Grid
      ensures Snapshot() == fields
    {
    }

    /** The inner loop of the neighbour scan: the three offsets (i, -1), (i, 0), (i, 1). */
    method ScanRow(c: Node, i: int, ghost t: nat, ghost cg: int, ghost o0: seq<Node>, ghost cl: seq<Node>, ghost walls: set<Node>,
                   ghost e: Node, ghost before: map<Node, SearchFields>) returns (ghost next: nat)
      requires Shaped() && closed == cl && end == e && c in cl && c.g == Some(cg) && Grid <= before.Keys
      requires -1 <= i <= 1 && t == 3 * (i + 1)
      requires ScanState(c, cg, t, o0, cl, walls, e, before)
      modifies this`open, Grid
      ensures next == t + 3 && ScanState(c, cg, next, o0, cl, walls, e, before)
      ensures c.g == old(c.g) && closed == old(closed) && end == old(end)
    {
      next := t;
      for j := -1 to 2
        invariant c.g == Some(cg) && next == t + (j + 1) && closed == cl && end == e
        invariant ScanState(c, cg, next, o0, cl, walls, e, before)
      {
        next := ScanAt(c, i, j, next, cg, o0, cl, walls, e, before);
      }
    }

    /**
     * The neighbour scan of `find_path` around the node `current`, just closed: the
     * nodes around it that the scan examines and improves are relaxed, every other node
     * keeps its fields, and the ones that were not open are appended in scan order.
     */
    method ExpandNeighbours(current: Node)
      requires Shaped() && end != null && current in closed && current.g.Some?
      modifies this`open, Grid
      ensures closed == old(closed) && start == old(start) && end == old(end) && path == old(path)
      ensures open == Extended(current, old(open), old(closed), old(Walls()), 9)
      ensures Snapshot() == Relax(old(Snapshot()), current, old(current.g.value), old(open), old(closed), old(Walls()), old(end))
      ensures Walls() == old(Walls())
    {
      ghost var cg := current.g.value;
      ghost var o0 := open;
      ghost var walls := Walls();
      ghost var before := Snapshot();
      ghost var cl, e := closed, end;
      ghost var t: nat := 0;
      assert Grid <= before.Keys;
      for i := -1 to 2
        invariant current.g == Some(cg) && t == 3 * (i + 1) && closed == cl && end == e
        invariant ScanState(current, cg, t, o0, cl, walls, e, before)
      {
        t := ScanRow(current, i, t, cg, o0, cl, walls, e, before);
      }
      MirrorsSnapshot(Owed(Grid, current, cg, 9, o0, cl, walls, e, before), walls);
      OwedDone(Grid, current, cg, o0, cl, walls, e, before);
    }

    /** The neighbour scan around a closed node `c`, whose g is `cg`, keeps the invariant of the search. */
    lemma ExpandKeepsTree(o: seq<Node>, cl: seq<Node>, s: Node, F: map<Node, SearchFields>, c: Node, cg: int,
                          walls: set<Node>, e: Node)
      requires Shaped() && Grid <= F.Keys && Tree(o, cl, s, F) && c in cl && F[c].g == Some(cg)
      ensures Tree(Extended(c, o, cl, walls, 9), cl, s, Relax(F, c, cg, o, cl, walls, e))
    {
      ExtendedBounds(c, o, cl, walls, 9);
      RelaxKeepsTree(o, Extended(c, o, cl, walls, 9), cl, s, F, c, cg, walls, e);
    }

    /**
     * Closing the open node `cur`, other than the end `e`, and scanning its neighbours
     * leaves nothing passed over: the new enterable neighbours are those the scan adds.
     */
    lemma ExpandKeepsCovered(o: seq<Node>, cl: seq<Node>, cur: Node, walls: set<Node>, e: Node)
      requires Shaped() && cur in o && cur != e
      ensures Covered(Grid, walls, o, cl, e) && Distinct(o) ==> Covered(Grid, walls, Extended(cur, RemoveFirst(o, cur), cl + [cur], walls, 9), cl + [cur], e)
    {
      if Covered(Grid, walls, o, cl, e) && Distinct(o) {
        var rest, closed' := RemoveFirst(o, cur), cl + [cur];
        var open' := Extended(cur, rest, closed', walls, 9);
        RemoveFirstDistinct(o, cur);
        ExtendedKeeps(cur, rest, closed', walls, 9);
        ExtendedComplete(cur, rest, closed', walls, 9);
        forall c, m | c in closed' && m in Grid && Enterable(walls, c, m) ensures m in open' || m in closed' {
          if m !in closed' && c == cur {
            assert ScannedBefore(cur, m, 9) && Examined(cur, m, closed', walls);
          }
        }
      }
    }

    /** Closing the open node `cur`, with or without the scan that follows, opens and closes no blocked node. */
    lemma CloseKeepsUnblocked(o: seq<Node>, cl: seq<Node>, s: Node, cur: Node, walls: set<Node>)
      requires Shaped() && cur in o
      ensures Unblocked(walls, o, cl, s) ==> Unblocked(walls, RemoveFirst(o, cur), cl + [cur], s)
      ensures Unblocked(walls, o, cl, s) ==> Unblocked(walls, Extended(cur, RemoveFirst(o, cur), cl + [cur], walls, 9), cl + [cur], s)
    {
      ExtendedAdds(cur, RemoveFirst(o, cur), cl + [cur], walls, 9);
    }

    /**
     * One tick of `find_path`: with nothing open the search is exhausted; otherwise the
     * first open node of lowest f moves from open to closed, and either it is the end
     * node, which starts the path, or its neighbours are scanned.
     */
    method Step() returns (result: StepResult)
      requires Valid() && Scoreable()
      modifies this`open, this`closed, this`path, Grid
      ensures Valid()
      ensures Walls() == old(Walls())
      ensures old(open) == [] ==> result == Exhausted && open == old(open) && closed == old(closed) && Snapshot() == old(Snapshot())
      ensures old(open) != [] ==>
        var cur := old(open[LowestIndex(open)]);
        var rest := RemoveFirst(old(open), cur);
        && closed == old(closed) + [cur]
        && (cur == end ==> result == GoalReached && open == rest && Snapshot() == old(Snapshot()))
        && (cur != end ==>
              && result == Expanded(cur)
              && open == Extended(cur, rest, closed, old(Walls()), 9)
              && Snapshot() == Relax(old(Snapshot()), cur, old(cur.g.value), rest, closed, old(Walls()), end))
      ensures path == if result == GoalReached then [end] else []
      ensures |closed| == old(|closed|) + (if result == Exhausted then 0 else 1)
      ensures old(SearchInv()) ==> SearchInv()
      ensures old(SearchInv() && Complete()) && result != GoalReached ==> Complete()
      ensures old(Unobstructed()) ==> Unobstructed()
    {
      if |open| == 0 {
        ClearPath();
        return Exhausted;
      }
      result := Advance();
    }

    /** The branch of `find_path` taken while something is open. */
    method Advance() returns (result: StepResult)
      requires Valid() && Scoreable() && open != []
      modifies this`open, this`closed, this`path, Grid
      ensures Valid()
      ensures Walls() == old(Walls())
      ensures
        var cur := old(open[LowestIndex(open)]);
        var rest := RemoveFirst(old(open), cur);
        && closed == old(closed) + [cur]
        && (cur == end ==> result == GoalReached && open == rest && Snapshot() == old(Snapshot()))
        && (cur != end ==>
              && result == Expanded(cur)
              && open == Extended(cur, rest, closed, old(Walls()), 9)
              && Snapshot() == Relax(old(Snapshot()), cur, old(cur.g.value), rest, closed, old(Walls()), end))
      ensures path == if result == GoalReached then [end] else []
      ensures old(SearchInv()) ==> SearchInv()
      ensures old(SearchInv() && Complete()) && result != GoalReached ==> Complete()
      ensures old(Unobstructed()) ==> Unobstructed()
    {
      ghost var o0, cl0, walls := open, closed, Walls();
      var current := TakeLowest();
      CloseKeepsUnblocked(o0, cl0, start, current, walls);
      if current == end {
        AppendPath(end);
        return GoalReached;
      }
      Expand(current);
      ExpandKeepsCovered(o0, cl0, current, walls, end);
      result := Expanded(current);
    }

    /** `self.path = []`: nothing the search reads changes. */
    method ClearPath()
      modifies this`path
      ensures path == []
      ensures Snapshot() == old(Snapshot()) && Walls() == old(Walls())
      ensures Valid() == old(Valid()) && SearchInv() == old(SearchInv())
    {
      path := [];
    }

    /** `self.path.append(n)`: nothing the search reads changes. */
    method AppendPath(n: Node?)
      modifies this`path
      ensures path == old(path) + [n]
      ensures Snapshot() == old(Snapshot()) && Walls() == old(Walls())
      ensures Valid() == old(Valid()) && SearchInv() == old(SearchInv())
    {
      path := path + [n];
    }

    /**
     * The expansion of a closed node `current` that is not the end: its neighbours are
     * scanned, and the application stays valid and keeps the search invariant.
     */
    method Expand(current: Node)
      requires Valid() && current in closed && current.g.Some?
      modifies this`open, Grid
      ensures closed == old(closed) && start == old(start) && end == old(end) && path == old(path)
      ensures open == Extended(current, old(open), old(closed), old(Walls()), 9)
      ensures Snapshot() == Relax(old(Snapshot()), current, old(current.g.value), old(open), old(closed), old(Walls()), old(end))
      ensures Walls() == old(Walls())
      ensures Valid()
      ensures old(SearchInv()) ==> SearchInv()
    {
      ghost var F, o, cl, s, e, walls, cg, inv := Snapshot(), open, closed, start, end, Walls(), current.g.value, SearchInv();
      ExpandNeighbours(current);
      ScanKeepsValid(current, o, cl, s, F, cg, walls, e, inv);
    }

    /**
     * The start of a tick with something open: the path is emptied, the first loop of
     * `find_path` picks the first open node whose f no other open node undercuts, and
     * that node moves from the open list to the end of the closed list.
     */
    method TakeLowest() returns (current: Node)
      requires Valid() && Scoreable() && |open| > 0
      modifies this`open, this`closed, this`path
      ensures current == old(open[LowestIndex(open)]) && current.g == old(current.g) && current.g.Some?
      ensures open == RemoveFirst(old(open), current) && closed == old(closed) + [current] && path == []
      ensures Snapshot() == old(Snapshot()) && Walls() == old(Walls())
      ensures Valid()
      ensures old(SearchInv()) ==> SearchInv()
    {
      current := SelectCurrent();
      Close(current);
    }

    /** The first loop of `find_path`: the first open node whose f no other open node undercuts. */
    method SelectCurrent() returns (current: Node)
      requires |open| > 0 && forall n | n in open :: n.f.Some?
      ensures current == open[LowestIndex(open)]
      ensures Valid() == old(Valid()) && SearchInv() == old(SearchInv())
    {
      current := open[0];
      for k := 0 to |open|
        invariant current == open[LowestIndex(open[..if k == 0 then 1 else k])]
      {
        var node := open[k];
        if node.f.value < current.f.value {
          current := node;
        }
        assert open[..k + 1][..k] == open[..k];
      }
      assert open[..|open|] == open;
    }

    /** The node the search expands moves from the open list to the end of the closed list, and the path is emptied. */
    method Close(current: Node)
      requires Valid() && current in open
      modifies this`open, this`closed, this`path
      ensures open == RemoveFirst(old(open), current) && closed == old(closed) + [current] && path == []
      ensures Snapshot() == old(Snapshot()) && Walls() == old(Walls()) && current.g == old(current.g)
      ensures Valid()
      ensures old(SearchInv()) ==> SearchInv()
    {
      ghost var F, o, cl, s, inv := Snapshot(), open, closed, start, SearchInv();
      if inv {
        CloseKeepsTree(o, cl, s, F, current);
      }
      path := [];
      open := RemoveFirst(open, current);
      closed := closed + [current];
    }

    /**
     * After the neighbour scan around `c`, begun over the open list `o`, the closed list
     * `cl`, the start `s`, the fields `F`, the obstacles `walls` and the end `e`, the
     * application is valid again, and the search invariant holds if it held (`inv`).
     */
    lemma ScanKeepsValid(c: Node, o: seq<Node>, cl: seq<Node>, s: Node, F: map<Node, SearchFields>, cg: int,
                         walls: set<Node>, e: Node, inv: bool)
      requires Shaped() && OneModeAtMost() && Grid == F.Keys && start == s && s in Grid && end == e && e in Grid && closed == cl
      requires forall n | n in o :: n in Grid
      requires forall n | n in cl :: n in Grid
      requires InCell(nodes, Grid, 0, 0) && F[nodes[0][0]].parent == null
      requires c in cl && F[c].g == Some(cg)
      requires open == Extended(c, o, cl, walls, 9) && Snapshot() == Relax(F, c, cg, o, cl, walls, e)
      requires inv ==> Tree(o, cl, s, F)
      ensures Valid()
      ensures inv ==> SearchInv()
    {
      ExtendedBounds(c, o, cl, walls, 9);
      assert nodes[0][0].Fields() == Snapshot()[nodes[0][0]];
      if inv {
        ExpandKeepsTree(o, cl, s, F, c, cg, walls, e);
      }
    }

    /** Under the search invariant every open node has a g and an f, so a tick can compare them. */
    lemma InvScoreable()
      requires SearchInv()
      ensures Scoreable()
    {
      forall n | n in open ensures n.g.Some? && n.f.Some? {
        assert Snapshot()[n] == n.Fields();
      }
    }

    /**
     * The scan skips the cell at the absolute coordinates (0, 0), so that node never gets a
     * parent: unless it is the start, it is never open and never closed.
     */
    lemma CornerNeverReached()
      requires SearchInv() && start != nodes[0][0]
      ensures nodes[0][0] !in open && nodes[0][0] !in closed
    {
      var F, corner := Snapshot(), nodes[0][0];
      assert F[corner].parent == null;
      forall i | 0 <= i < |closed| ensures closed[i] != corner {
      }
    }

    /** A duplicate-free list of nodes of the grid holds at most all Cols x Rows of them. */
    lemma GridBound(s: seq<Node>)
      requires Shaped() && Distinct(s) && forall n | n in s :: n in Grid
      ensures |s| <= Cols * Rows
    {
      var keys := seq(|s|, i requires 0 <= i < |s| => s[i].x * Rows + s[i].y);
      forall i | 0 <= i < |s| ensures 0 <= keys[i] < Cols * Rows {
        assert AtPlace(nodes, s[i]);
        CellKey(s[i].x, s[i].y, 0, 0);
      }
      forall i, j | 0 <= i < j < |s| ensures keys[i] != keys[j] {
        assert AtPlace(nodes, s[i]) && AtPlace(nodes, s[j]);
        CellKey(s[i].x, s[i].y, s[j].x, s[j].y);
      }
      DistinctBelow(keys, Cols * Rows);
    }

    /**
     * `start_pathfinding` and the timer by which `find_path` schedules itself again after
     * every tick until it cancels itself: ticks run until the end node is closed, which
     * starts the `backtrack` timer, or nothing is open. Each tick that goes on closes one
     * more node, so there are at most Cols x Rows of them plus the final one. Started with
     * nothing passed over, the search closes the end node exactly when some walk leads
     * from the start to it.
     */
    method Search() returns (result: StepResult, ghost ticks: nat)
      requires SearchInv()
      modifies this`open, this`closed, this`path, Grid
      ensures SearchInv() && Walls() == old(Walls())
      ensures result == GoalReached || result == Exhausted
      ensures result == GoalReached ==> ClosedLast(closed, end)
      ensures result == GoalReached ==> path == Ancestry(Snapshot(), closed, start, end) + [null]
      ensures result == GoalReached ==> end.g.Some? && end.g.value == PathCost(Ancestry(Snapshot(), closed, start, end))
      ensures result == GoalReached ==> end.g.value >= Distance(start.x, start.y, end.x, end.y)
      ensures result == Exhausted ==> open == [] && path == []
      ensures end == nodes[0][0] && start != end ==> result == Exhausted
      ensures old(Complete() && Unobstructed()) ==> (result == GoalReached <==> Reachable(Grid, old(Walls()), old(start), old(end)))
      ensures ticks <= Cols * Rows - old(|closed|) + 1
      decreases Cols * Rows - |closed|
    {
      result := Tick();
      ticks := 1;
      if result.Expanded? {
        ghost var more;
        result, more := Search();
        ticks := ticks + more;
      } else if result == Exhausted {
        if Complete() {
          NoRoute(Grid, Walls(), closed, start, end);
        }
      } else {
        if Unobstructed() {
          RouteFound(Grid, Walls(), Snapshot(), closed, start, end);
        }
        if start != nodes[0][0] {
          CornerNeverReached();
        }
        ShowPath();
      }
    }

    /** A tick of the search, seen from the timer: the invariant holds again, and closed grows unless the search is exhausted. */
    method Tick() returns (result: StepResult)
      requires SearchInv()
      modifies this`open, this`closed, this`path, Grid
      ensures SearchInv() && Walls() == old(Walls())
      ensures |closed| <= Cols * Rows
      ensures |closed| == old(|closed|) + (if result == Exhausted then 0 else 1)
      ensures result == GoalReached ==> path == [end] && ClosedLast(closed, end)
      ensures result == Exhausted ==> open == [] && path == []
      ensures old(Complete()) && result != GoalReached ==> Complete()
      ensures old(Unobstructed()) ==> Unobstructed()
    {
      InvScoreable();
      result := Step();
      GridBound(closed);
    }

    /**
     * One tick of `backtrack`: when the last entry of the path is `None` the walk is over
     * and nothing changes; otherwise that node's parent is appended.
     */
    method Backtrack() returns (done: bool)
      requires |path| > 0
      modifies this`path
      ensures done == (old(path[|path| - 1]) == null)
      ensures done ==> path == old(path)
      ensures !done ==> path == old(path) + [old(path[|path| - 1].parent)]
      ensures Snapshot() == old(Snapshot()) && SearchInv() == old(SearchInv())
    {
      var node := path[|path| - 1];
      if node == null {
        return true;
      }
      path := path + [node.parent];
      return false;
    }

    /**
     * The timer that calls `backtrack` until it cancels itself, started from the path
     * [t[0]] where `t` is a chain of parents ending in `None`: the path becomes t.
     */
    method BacktrackAll(ghost t: seq<Node?>)
      requires ParentChain(t, Snapshot()) && path == [t[0]]
      modifies this`path
      ensures path == t
      ensures Snapshot() == old(Snapshot()) && SearchInv() == old(SearchInv())
    {
      ghost var F, inv := Snapshot(), SearchInv();
      var done := false;
      while !done
        invariant Snapshot() == F && SearchInv() == inv
        invariant 1 <= |path| <= |t| && path == t[..|path|]
        invariant done ==> |path| == |t|
        decreases |t| - |path|, !done
      {
        ghost var k, before := |path| - 1, path;
        if k < |t| - 1 {
          assert path[k].parent == F[path[k]].parent == t[k + 1];
        }
        done := Backtrack();
        if !done {
          assert t[..k + 2] == before + [t[k + 1]];
        }
      }
    }

    /**
     * Pressing Enter: the search runs tick by tick; when it closes the end node, the path
     * is backtracked from the end to the start, whose parent `None` ends it. The g the
     * end node gets is the length of that path and at least its octile distance from the
     * start. The obstacles stay as they were, and a search started afresh finds the end
     * node exactly when a walk around them leads to it.
     */
    method FindPath() returns (found: bool)
      requires SearchInv()
      modifies this`open, this`closed, this`path, Grid
      ensures SearchInv()
      ensures found ==> ClosedLast(closed, end)
      ensures found ==> path == Ancestry(Snapshot(), closed, start, end) + [null]
      ensures found ==> end.g.Some? && end.g.value == PathCost(Ancestry(Snapshot(), closed, start, end))
      ensures found ==> end.g.value >= Distance(start.x, start.y, end.x, end.y)
      ensures !found ==> open == [] && path == []
      ensures Walls() == old(Walls())
      ensures end == nodes[0][0] && start != end ==> !found
      ensures old(closed) == [] ==> (found <==> Reachable(Grid, old(Walls()), start, end))
    {
      if closed == [] {
        FreshSearch();
      }
      var result;
      ghost var ticks;
      result, ticks := Search();
      found := result == GoalReached;
    }

    /** A search that has closed nothing yet has passed nothing over and holds only the start. */
    lemma FreshSearch()
      requires SearchInv() && closed == []
      ensures Complete() && Unobstructed()
    {
    }

    /** After the search has closed the end node: the path [end] is backtracked to the start. */
    method ShowPath()
      requires SearchInv() && ClosedLast(closed, end) && path == [end]
      modifies this`path
      ensures SearchInv() && ClosedLast(closed, end) && closed == old(closed) && Walls() == old(Walls())
      ensures path == Ancestry(Snapshot(), closed, start, end) + [null]
      ensures end.g.Some? && end.g.value == PathCost(Ancestry(Snapshot(), closed, start, end))
      ensures end.g.value >= Distance(start.x, start.y, end.x, end.y)
    {
      ghost var F, cl, s, e := Snapshot(), closed, start, end;
      AncestryChain(F, cl, s, e);
      AncestryCost(F, cl, s, e);
      CostAtLeastDistance(F, cl, s, e);
      assert e.Fields() == F[e];
      BacktrackAll(Ancestry(F, cl, s, e) + [null]);
    }

    /** The first loop of the clear-all click: no node is an obstacle any more, and no search field changes. */
    method ClearObstacles()
      requires Shaped()
      modifies Grid
      ensures Walls() == {}
      ensures Snapshot() == old(Snapshot())
    {
      for x := 0 to |nodes|
        invariant forall n | n in Grid :: n.Fields() == old(n.Fields())
        invariant forall n | n in Grid :: n.obstacle == (old(n.obstacle) && n.x >= x)
      {
        var row := nodes[x];
        for y := 0 to |row|
          invariant forall n | n in Grid :: n.Fields() == old(n.Fields())
          invariant forall n | n in Grid :: n.obstacle == (old(n.obstacle) && (n.x > x || (n.x == x && n.y >= y)))
        {
          var node := row[y];
          assert InCell(nodes, Grid, x, y);
          forall n | n in Grid && n.x == x && n.y == y ensures n == node {
            assert AtPlace(nodes, n);
          }
          node.obstacle := false;
        }
      }
    }

    /**
     * The clear-all click: no obstacles, empty open and closed lists, and the default
     * start and end. Only the old start's and (0, 0)'s g and f change; every other search
     * field, stale parents included, is left as it was, so clearing an application
     * already in that state changes nothing.
     */
    method ClearAll()
      requires Consistent()
      modifies this`open, this`closed, this`start, this`end, Grid
      ensures ResetState() && SearchInv()
      ensures Walls() == {}
      ensures StartMoved(old(Snapshot()), old(start), nodes[0][0])
      ensures old(ResetState()) ==> Snapshot() == old(Snapshot())
    {
      ClearObstacles();
      assert InCell(nodes, Grid, 0, 0);
      assert nodes[0][0].Fields() == Snapshot()[nodes[0][0]] == old(nodes[0][0].Fields());
      Restart();
      InitialSearchInv();
    }

    /** A click on the canvas picks the node whose square holds the pixel. */
    lemma ClickHitsSquare(px: int, py: int)
      requires Shaped() && 0 <= px < Width && 0 <= py < Height
      ensures CellAt(px, py).Some?
      ensures var (x, y) := CellAt(px, py).value; nodes[x][y].Covers(px, py)
    {
      var (x, y) := CellAt(px, py).value;
      assert InCell(nodes, Grid, x, y);
      nodes[x][y].PixelLookup(px, py);
    }

    /** The set-obstacle and clear-obstacle clicks: only the obstacle flag of `n` changes. */
    method SetObstacle(n: Node, b: bool)
      requires Consistent() && n in Grid
      modifies n
      ensures n.obstacle == b
      ensures Walls() == if b then old(Walls()) + {n} else old(Walls()) - {n}
      ensures Snapshot() == old(Snapshot())
      ensures Consistent()
    {
      n.obstacle := b;
    }

    /** The node a click at pixel (px, py) picks. */
    ghost function Clicked(px: int, py: int): Node
      requires Shaped() && CellAt(px, py).Some?
    {
      nodes[CellAt(px, py).value.0][CellAt(px, py).value.1]
    }

    /** No click mode is selected. */
    ghost predicate NoMode()
      reads events
    {
      forall i | 0 <= i < events.Length :: !events[i]
    }

    /**
     * `click`: the pixel picks a cell (a pixel whose cell index is out of range raises
     * IndexError: nothing changes and `ok` is false), then the selected mode acts on it;
     * with no mode selected nothing changes either.
     */
    method Click(px: int, py: int) returns (ok: bool)
      requires Valid()
      modifies this`open, this`closed, this`start, this`end, Grid
      ensures ok == CellAt(px, py).Some?
      ensures Valid()
      ensures !ok || NoMode() ==> open == old(open) && closed == old(closed) && start == old(start) && end == old(end)
      ensures !ok || NoMode() ==> Snapshot() == old(Snapshot()) && Walls() == old(Walls())
      ensures ok && events[ClearAllMode] ==>
        ResetState() && Walls() == {} && StartMoved(old(Snapshot()), old(start), nodes[0][0])
      ensures ok && (events[SetObstacleMode] || events[ClearObstacleMode] || events[SetEndMode]) ==>
        open == old(open) && closed == old(closed) && start == old(start) && Snapshot() == old(Snapshot())
      ensures ok && events[SetObstacleMode] ==> Walls() == old(Walls()) + {Clicked(px, py)} && end == old(end)
      ensures ok && events[ClearObstacleMode] ==> Walls() == old(Walls()) - {Clicked(px, py)} && end == old(end)
      ensures ok && events[SetEndMode] ==> end == Clicked(px, py) && Walls() == old(Walls())
      ensures ok && events[SetStartMode] ==>
        && start == Clicked(px, py) && closed == old(closed) && end == old(end) && Walls() == old(Walls())
        && open == (if old(start) in old(open) then RemoveFirst(old(open), old(start)) else old(open)) + [Clicked(px, py)]
        && StartMoved(old(Snapshot()), old(start), Clicked(px, py))
    {
      var cell := CellAt(px, py);
      if cell.None? {
        return false;
      }
      var (x, y) := cell.value;
      var clicked := nodes[x][y];
      assert InCell(nodes, Grid, x, y);
      // `click` tests the five flags one after the other; at most one of them is set
      if events[ClearAllMode] {
        ClearAll();
      } else if events[SetObstacleMode] {
        SetObstacle(clicked, true);
      } else if events[ClearObstacleMode] {
        SetObstacle(clicked, false);
      } else if events[SetStartMode] {
        SetStart(clicked);
      } else if events[SetEndMode] {
        SetEnd(clicked);
      }
      return true;
    }

    /**
     * `on_key`: a mode key clears every mode flag and sets its own, so exactly that mode
     * is selected; any other key changes nothing.
     */
    method OnKey(ch: char)
      requires events.Length == |Chars|
      modifies events
      ensures ch in Chars ==> forall i | 0 <= i < events.Length :: events[i] == (i == IndexOf(Chars, ch))
      ensures ch in Chars ==> OneModeAtMost()
      ensures ch !in Chars ==> events[..] == old(events[..])
    {
      if ch in Chars {
        for i := 0 to events.Length
          invariant forall k | 0 <= k < i :: !events[k]
        {
          events[i] := false;
        }
        events[IndexOf(Chars, ch)] := true;
      }
    }

    /** `set_end`: only the end designation moves. */
    method SetEnd(n: Node)
      requires Consistent() && n in Grid
      modifies this`end
      ensures Consistent() && end == n && open == old(open) && closed == old(closed) && start == old(start)
      ensures Walls() == old(Walls()) && Snapshot() == old(Snapshot())
    {
      end := n;
    }
  }
}
