/** The square grid of maze cells, the passages between them, and the
    spanning-tree property that carving establishes.

    A horizontal wall entry at `p` sits between cell `p` and the cell below it;
    a vertical wall entry at `p` sits between cell `p` and the cell to its right.
    `openH` and `openV` are the sets of such entries that have been opened. */
module Grid {
  import opened Matrix

  /** The four moves out of a cell, named as the generator names them. */
  datatype Direction = Up | Right | Down | Left

  /** The cell next to `p` in direction `d` (possibly outside the grid). */
  function Step(p: Pos, d: Direction): Pos {
    match d
    case Up => Pos(p.row - 1, p.column)
    case Right => Pos(p.row, p.column + 1)
    case Down => Pos(p.row + 1, p.column)
    case Left => Pos(p.row, p.column - 1)
  }

  /** `p` is a cell of the `n` by `n` grid. */
  predicate InBounds(n: int, p: Pos) {
    0 <= p.row < n && 0 <= p.column < n
  }

  /** All cells of the `n` by `n` grid. */
  ghost function AllCells(n: int): set<Pos> {
    set r, c | 0 <= r < n && 0 <= c < n :: Pos(r, c)
  }

  /** Every neighbour of `p` inside the grid belongs to `V`. */
  ghost predicate Closed(n: int, V: set<Pos>, p: Pos) {
    forall d: Direction :: InBounds(n, Step(p, d)) ==> Step(p, d) in V
  }

  /** Cells `p` and `q` are adjacent and the wall between them is open. */
  ghost predicate Linked(openH: set<Pos>, openV: set<Pos>, p: Pos, q: Pos) {
    (q == Step(p, Down) && p in openH) || (p == Step(q, Down) && q in openH) ||
    (q == Step(p, Right) && p in openV) || (p == Step(q, Right) && q in openV)
  }

  /** Consecutive cells of `path` are joined by open walls. */
  ghost predicate IsPath(openH: set<Pos>, openV: set<Pos>, path: seq<Pos>) {
    forall k :: 0 <= k < |path| - 1 ==> Linked(openH, openV, path[k], path[k + 1])
  }

  /** Some walk through open walls leads from `from` to `to`. */
  ghost predicate Reaches(openH: set<Pos>, openV: set<Pos>, from: Pos, to: Pos) {
    exists path :: |path| > 0 && path[0] == from && path[|path| - 1] == to && IsPath(openH, openV, path)
  }

  /** The open walls form a spanning tree of the cells `V` of the `n` by `n`
      grid: every open wall joins two cells of `V`, there is one open wall
      fewer than there are cells, and every cell of `V` is reachable from
      `root` (connected with |V| - 1 edges, hence acyclic). */
  ghost predicate SpanningTree(n: int, root: Pos, V: set<Pos>, openH: set<Pos>, openV: set<Pos>) {
    root in V &&
    (forall p :: p in V ==> InBounds(n, p)) &&
    (forall p :: p in openH ==> p in V && Step(p, Down) in V) &&
    (forall p :: p in openV ==> p in V && Step(p, Right) in V) &&
    |openH| + |openV| + 1 == |V| &&
    (forall p :: p in V ==> Reaches(openH, openV, root, p))
  }

  /** The horizontal wall entries after opening the wall between `p` and its neighbour in direction `d`. */
  function OpenH(openH: set<Pos>, p: Pos, d: Direction): (r: set<Pos>)
    ensures openH <= r
  {
    match d
    case Up => openH + {Step(p, Up)}
    case Down => openH + {p}
    case _ => openH
  }

  /** The vertical wall entries after opening the wall between `p` and its neighbour in direction `d`. */
  function OpenV(openV: set<Pos>, p: Pos, d: Direction): (r: set<Pos>)
    ensures openV <= r
  {
    match d
    case Left => openV + {Step(p, Left)}
    case Right => openV + {p}
    case _ => openV
  }

  /** Opening a wall links exactly the two cells it separates. */
  lemma OpenLinks(openH: set<Pos>, openV: set<Pos>, p: Pos, d: Direction)
    ensures Linked(OpenH(openH, p, d), OpenV(openV, p, d), p, Step(p, d))
  {
  }

  /** A single cell reaches itself. */
  lemma ReachesSelf(openH: set<Pos>, openV: set<Pos>, p: Pos)
    ensures Reaches(openH, openV, p, p)
  {
    assert IsPath(openH, openV, [p]);
  }

  /** Opening more walls keeps two linked cells linked. */
  lemma LinkedMono(openH: set<Pos>, openV: set<Pos>, openH': set<Pos>, openV': set<Pos>, p: Pos, q: Pos)
    requires openH <= openH' && openV <= openV'
    requires Linked(openH, openV, p, q)
    ensures Linked(openH', openV', p, q)
  {
  }

  /** A walk to `p` followed by an open wall from `p` to `q` is a walk to `q`. */
  lemma ReachesExtend(openH: set<Pos>, openV: set<Pos>, from: Pos, p: Pos, q: Pos)
    requires Reaches(openH, openV, from, p) && Linked(openH, openV, p, q)
    ensures Reaches(openH, openV, from, q)
  {
    var path :| |path| > 0 && path[0] == from && path[|path| - 1] == p && IsPath(openH, openV, path);
    var path' := path + [q];
    forall k | 0 <= k < |path'| - 1 ensures Linked(openH, openV, path'[k], path'[k + 1]) {
      if k < |path| - 1 {
        assert path'[k] == path[k] && path'[k + 1] == path[k + 1];
      }
    }
    assert IsPath(openH, openV, path');
    assert path'[0] == from && path'[|path'| - 1] == q;
  }

  /** The open walls form a tree over the cells `V` of the `n` by `n` grid,
      recorded with a parent and a depth for every cell: each cell other than
      `root` is joined by an open wall to its parent, which lies closer to
      the root. Every open wall joins two cells of `V`, and there is one open
      wall fewer than there are cells. */
  ghost predicate Tree(n: int, root: Pos, V: set<Pos>, openH: set<Pos>, openV: set<Pos>,
                       parent: map<Pos, Pos>, depth: map<Pos, nat>) {
    root in V &&
    (forall p :: p in V ==> InBounds(n, p) && p in depth) &&
    (forall p :: p in openH ==> p in V && Step(p, Down) in V) &&
    (forall p :: p in openV ==> p in V && Step(p, Right) in V) &&
    |openH| + |openV| + 1 == |V| &&
    (forall p {:trigger parent[p]} {:trigger p in parent} :: p in V && p != root ==>
      p in parent && parent[p] in V && Linked(openH, openV, parent[p], p) && depth[parent[p]] < depth[p])
  }

  /** Following parents from any cell of a tree leads back to the root, so the root reaches it. */
  lemma {:induction false} TreeReaches(n: int, root: Pos, V: set<Pos>, openH: set<Pos>, openV: set<Pos>,
                                       parent: map<Pos, Pos>, depth: map<Pos, nat>, p: Pos)
    requires Tree(n, root, V, openH, openV, parent, depth) && p in V
    ensures Reaches(openH, openV, root, p)
    decreases depth[p]
  {
    if p == root {
      ReachesSelf(openH, openV, root);
    } else {
      TreeReaches(n, root, V, openH, openV, parent, depth, parent[p]);
      ReachesExtend(openH, openV, root, parent[p], p);
    }
  }

  /** A tree with parents and depths is a spanning tree of its cells. */
  lemma TreeSpans(n: int, root: Pos, V: set<Pos>, openH: set<Pos>, openV: set<Pos>,
                  parent: map<Pos, Pos>, depth: map<Pos, nat>)
    requires Tree(n, root, V, openH, openV, parent, depth)
    ensures SpanningTree(n, root, V, openH, openV)
  {
    forall p | p in V ensures Reaches(openH, openV, root, p) {
      TreeReaches(n, root, V, openH, openV, parent, depth, p);
    }
  }

  /** The one-cell tree a generation starts from. */
  lemma StartTree(n: int, root: Pos)
    requires InBounds(n, root)
    ensures Tree(n, root, {root}, {}, {}, map[], map[root := 0])
  {
  }

  /** Opening the wall from a cell of the tree to an unvisited neighbour and
      adding that neighbour, as a child of the cell, gives a tree of the
      larger set: the wall was closed before, so cells and walls each grow by one. */
  lemma GrowTree(n: int, root: Pos, V: set<Pos>, openH: set<Pos>, openV: set<Pos>,
                 parent: map<Pos, Pos>, depth: map<Pos, nat>, p: Pos, d: Direction)
    requires Tree(n, root, V, openH, openV, parent, depth)
    requires p in V && InBounds(n, Step(p, d)) && Step(p, d) !in V
    ensures Tree(n, root, V + {Step(p, d)}, OpenH(openH, p, d), OpenV(openV, p, d),
                 parent[Step(p, d) := p], depth[Step(p, d) := depth[p] + 1])
  {
    var q := Step(p, d);
    GrowWalls(n, V, openH, openV, p, d);
    OpenLinks(openH, openV, p, d);
    GrowParents(root, V, openH, openV, OpenH(openH, p, d), OpenV(openV, p, d), parent, depth, p, q);
  }

  /** Opening a closed wall between a cell of `V` and a cell outside it adds
      one wall entry, and every open entry still joins two cells of the larger set. */
  lemma GrowWalls(n: int, V: set<Pos>, openH: set<Pos>, openV: set<Pos>, p: Pos, d: Direction)
    requires forall x :: x in openH ==> x in V && Step(x, Down) in V
    requires forall x :: x in openV ==> x in V && Step(x, Right) in V
    requires p in V && Step(p, d) !in V
    ensures |OpenH(openH, p, d)| + |OpenV(openV, p, d)| == |openH| + |openV| + 1
    ensures forall x :: x in OpenH(openH, p, d) ==> x in V + {Step(p, d)} && Step(x, Down) in V + {Step(p, d)}
    ensures forall x :: x in OpenV(openV, p, d) ==> x in V + {Step(p, d)} && Step(x, Right) in V + {Step(p, d)}
  {
    var q := Step(p, d);
    match d {
      case Up => assert q !in openH;
      case Down => assert p !in openH;
      case Left => assert q !in openV;
      case Right => assert p !in openV;
    }
  }

  /** Making `q`, outside `V`, a child of `p` one level deeper keeps every
      cell's parent linked to it and closer to the root, once the wall between
      `p` and `q` is open and no open wall has been closed. */
  lemma GrowParents(root: Pos, V: set<Pos>, openH: set<Pos>, openV: set<Pos>, openH': set<Pos>, openV': set<Pos>,
                    parent: map<Pos, Pos>, depth: map<Pos, nat>, p: Pos, q: Pos)
    requires openH <= openH' && openV <= openV'
    requires forall x :: x in V ==> x in depth
    requires p in V && q !in V && Linked(openH', openV', p, q)
    requires forall x {:trigger parent[x]} {:trigger x in parent} :: x in V && x != root ==>
      x in parent && parent[x] in V && Linked(openH, openV, parent[x], x) && depth[parent[x]] < depth[x]
    ensures var parent', depth' := parent[q := p], depth[q := depth[p] + 1];
      (forall x :: x in V + {q} ==> x in depth') &&
      (forall x {:trigger parent'[x]} {:trigger x in parent'} :: x in V + {q} && x != root ==>
        x in parent' && parent'[x] in V + {q} && Linked(openH', openV', parent'[x], x) && depth'[parent'[x]] < depth'[x])
  {
    var k: nat := depth[p] + 1;
    var parent', depth' := parent[q := p], depth[q := k];
    forall x | x in V + {q} && x != root
      ensures x in parent' && parent'[x] in V + {q} && Linked(openH', openV', parent'[x], x) && depth'[parent'[x]] < depth'[x]
    {
      if x != q {
        assert parent'[x] == parent[x] && parent[x] != q;
        assert Linked(openH, openV, parent[x], x);
      }
    }
  }

  function Abs(x: int): nat {
    if x < 0 then -x else x
  }

  /** A set of cells that holds every neighbour of each of its cells holds
      every cell the grid can reach from one of its members. */
  lemma {:induction false} Spread(n: int, V: set<Pos>, p: Pos, q: Pos)
    requires InBounds(n, p) && InBounds(n, q) && p in V
    requires forall x :: x in V ==> Closed(n, V, x)
    ensures q in V
    decreases Abs(p.row - q.row) + Abs(p.column - q.column)
  {
    if p != q {
      var d := if p.row < q.row then Down else if p.row > q.row then Up
               else if p.column < q.column then Right else Left;
      assert Closed(n, V, p);
      assert InBounds(n, Step(p, d));
      assert Step(p, d) in V;
      Spread(n, V, Step(p, d), q);
    }
  }

  /** A non-empty set of cells closed under taking neighbours is the whole grid. */
  lemma ClosedSetIsGrid(n: int, V: set<Pos>, p: Pos)
    requires InBounds(n, p) && p in V
    requires forall x :: x in V ==> Closed(n, V, x)
    ensures forall q :: InBounds(n, q) ==> q in V
    ensures AllCells(n) <= V
  {
    forall q | InBounds(n, q) ensures q in V {
      Spread(n, V, p, q);
    }
  }
}
