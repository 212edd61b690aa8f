/**
 * The edge tree of contour.h and llimg_buildChildEdgeTree (contour.cpp):
 * nested regions of alternating foreground and background, each node
 * owning the contour that bounds its region. The heap nodes linked by
 * parent, sibling and child pointers are modelled as entries of an index
 * arena, with NIL for a null pointer.
 */
module EdgeTree {
  import opened Common
  import opened Contour
  import opened Scan

  /** The null node. */
  const NIL: int := -1

  /** EdgeTreeNode (contour.h:109-118); an empty contour is the null one. */
  datatype EdgeNode = EdgeNode(contour: seq<Point>, fillColor: int, area: int,
                               left: int, top: int, right: int, bottom: int,
                               parent: int, sibling: int, child: int)

  /** The EdgeTreeNode constructor (contour.h:119-128). */
  function NewEdgeNode(): (n: EdgeNode)
    ensures n.contour == [] && n.fillColor == 0 && n.area == 0
    ensures n.left == 0 && n.top == 0 && n.right == 0 && n.bottom == 0
    ensures n.parent == NIL && n.sibling == NIL && n.child == NIL
  {
    EdgeNode([], 0, 0, 0, 0, 0, 0, NIL, NIL, NIL)
  }

  /** `j` is NIL or a node after `i`. */
  predicate Later(nodes: seq<EdgeNode>, i: int, j: int)
  {
    j == NIL || i < j < |nodes|
  }

  /**
   * Every parent comes before its node, every sibling and child after it:
   * links never form a cycle.
   */
  predicate WellLinked(nodes: seq<EdgeNode>)
  {
    forall i :: 0 <= i < |nodes| ==>
      (nodes[i].parent == NIL || 0 <= nodes[i].parent < i) &&
      Later(nodes, i, nodes[i].sibling) && Later(nodes, i, nodes[i].child)
  }

  /**
   * Every node below a root owns a traced contour, and a contour starts at
   * a pixel of the w x h raster (its seed, where the background is read).
   */
  predicate Seeded(nodes: seq<EdgeNode>, w: int, h: int)
  {
    forall i :: 0 <= i < |nodes| ==>
      (nodes[i].parent != NIL ==> |nodes[i].contour| >= 3) &&
      (nodes[i].contour != [] ==> 0 <= nodes[i].contour[0].x < w && 0 <= nodes[i].contour[0].y < h)
  }

  predicate ValidTree(nodes: seq<EdgeNode>, w: int, h: int)
  {
    WellLinked(nodes) && Seeded(nodes, w, h)
  }

  predicate Ref(nodes: seq<EdgeNode>, i: int)
  {
    i == NIL || 0 <= i < |nodes|
  }

  /** The nodes of a tree, held where build's `new EdgeTreeNode` puts them. */
  class Arena {
    var nodes: seq<EdgeNode>

    constructor ()
      ensures nodes == []
    {
      nodes := [];
    }

    /** A fresh root: a new node with no parent, as extractRegions seeds the build. */
    method NewRoot() returns (i: int)
      modifies this
      ensures nodes == old(nodes) + [NewEdgeNode()] && i == |old(nodes)|
    {
      i := |nodes|;
      nodes := nodes + [NewEdgeNode()];
    }

    /**
     * Append a child of `parent` owning `contour` and filled with `fg`:
     * the parent's first child when `last` is NIL, otherwise the sibling
     * of `last` (contour.cpp:759-771).
     */
    method AddChild(parent: int, last: int, contour: seq<Point>, fg: int) returns (i: int)
      requires 0 <= parent < |nodes| && Ref(nodes, last)
      modifies this
      ensures i == |old(nodes)|
      ensures nodes == (if last == NIL then old(nodes)[parent := old(nodes)[parent].(child := i)]
                        else old(nodes)[last := old(nodes)[last].(sibling := i)])
                       + [NewEdgeNode().(parent := parent, contour := contour, fillColor := fg)]
    {
      i := |nodes|;
      if last == NIL {
        nodes := nodes[parent := nodes[parent].(child := i)];
      } else {
        nodes := nodes[last := nodes[last].(sibling := i)];
      }
      nodes := nodes + [NewEdgeNode().(parent := parent, contour := contour, fillColor := fg)];
    }
  }

  // ---------------------------------------------------------------------
  // The root rectangle (contour.cpp:654-670)

  /** The four corners build synthesizes for a root node of a w x h image. */
  function RootCorners(w: int, h: int): seq<PointNode>
  {
    [PointNode(0, 0, TYPE_TOP), PointNode(0, h - 1, TYPE_BOT),
     PointNode(w - 1, h - 1, TYPE_BOT), PointNode(w - 1, 0, TYPE_TOP)]
  }

  /** The root corners in (y, x) order. */
  function RootOrder(w: int, h: int): seq<PointNode>
  {
    [PointNode(0, 0, TYPE_TOP), PointNode(w - 1, 0, TYPE_TOP),
     PointNode(0, h - 1, TYPE_BOT), PointNode(w - 1, h - 1, TYPE_BOT)]
  }

  lemma SortSnoc(s: seq<PointNode>, c: PointNode)
    ensures SortCorners(s + [c]) == InsertCorner(SortCorners(s), c)
  {
    assert (s + [c])[..|s|] == s;
  }

  lemma InsertBehind(s: seq<PointNode>, c: PointNode)
    requires s != [] && CompCorners(c, s[0]) == 1
    ensures InsertCorner(s, c) == [s[0]] + InsertCorner(s[1..], c)
  {
  }

  lemma InsertAhead(s: seq<PointNode>, c: PointNode)
    requires s != [] && CompCorners(c, s[0]) == -1
    ensures InsertCorner(s, c) == [c] + s
  {
  }

  lemma SortOne(a: PointNode)
    ensures SortCorners([a]) == [a]
  {
    assert [] + [a] == [a];
    SortSnoc([], a);
  }

  lemma SortTwo(a: PointNode, b: PointNode)
    requires a.y < b.y
    ensures SortCorners([a, b]) == [a, b]
  {
    SortOne(a);
    assert [a] + [b] == [a, b];
    SortSnoc([a], b);
    InsertBehind([a], b);
    assert [a][1..] == [];
  }

  lemma InsertThird(a: PointNode, b: PointNode, e: PointNode)
    requires a.y < b.y == e.y && b.x <= e.x
    ensures InsertCorner([a, b], e) == [a, b, e]
  {
    InsertBehind([a, b], e);
    assert [a, b][1..] == [b];
    InsertBehind([b], e);
    assert [b][1..] == [];
  }

  lemma SortThree(a: PointNode, b: PointNode, e: PointNode)
    requires a.y < b.y == e.y && b.x <= e.x
    ensures SortCorners([a, b, e]) == [a, b, e]
  {
    SortTwo(a, b);
    assert [a, b] + [e] == [a, b, e];
    SortSnoc([a, b], e);
    InsertThird(a, b, e);
  }

  lemma InsertFourth(a: PointNode, b: PointNode, e: PointNode, d: PointNode)
    requires a.y == d.y < b.y == e.y && b.x <= e.x && a.x <= d.x
    ensures InsertCorner([a, b, e], d) == [a, d, b, e]
  {
    assert [a, b, e][1..] == [b, e];
    InsertBehind([a, b, e], d);
    InsertAhead([b, e], d);
    assert [a] + ([d] + [b, e]) == [a, d, b, e];
  }

  lemma SortFour(a: PointNode, b: PointNode, e: PointNode, d: PointNode)
    requires a.y == d.y < b.y == e.y && b.x <= e.x && a.x <= d.x
    ensures SortCorners([a, b, e, d]) == [a, d, b, e]
  {
    SortThree(a, b, e);
    assert [a, b, e] + [d] == [a, b, e, d];
    SortSnoc([a, b, e], d);
    InsertFourth(a, b, e, d);
  }

  lemma RootSorted(w: int, h: int)
    requires w >= 2 && h >= 2
    ensures SortCorners(RootCorners(w, h)) == RootOrder(w, h)
  {
    var c := RootCorners(w, h);
    SortFour(c[0], c[1], c[2], c[3]);
  }

  /** The active list over the root's upper rows, and after its last row. */
  lemma RootActive(w: int, h: int)
    requires w >= 2 && h >= 2
    ensures ApplyAll(RootOrder(w, h)[..2]) == RootOrder(w, h)[..2]
    ensures ApplyAll(RootOrder(w, h)) == []
  {
    var s := RootOrder(w, h);
    assert s[..2][..1] == [s[0]] && [s[0]][..0] == [];
    assert ApplyAll([s[0]]) == [s[0]];
    assert InsertPos([s[0]], s[1].x) == 1;
    assert ApplyAll(s[..2]) == [s[0], s[1]];
    assert s[..3][..2] == s[..2] && s[..3] == s[..2] + [s[2]];
    assert Removed([s[0], s[1]], s[2].x) == [s[1]];
    assert ApplyAll(s[..3]) == [s[1]];
    assert s[..3] == s[..|s| - 1];
    assert Removed([s[1]], s[3].x) == [];
  }

  lemma RootUpperActive(w: int, h: int, y: int)
    requires w >= 2 && h >= 2 && 0 <= y < h - 1
    ensures Active(RootOrder(w, h), y) == RootOrder(w, h)[..2]
  {
    RowEndUnique(RootOrder(w, h), y, 2);
    RootActive(w, h);
  }

  lemma RootUpperRow(w: int, h: int, y: int)
    requires w >= 2 && h >= 2 && 0 <= y < h - 1
    ensures Pairs(y, Active(RootOrder(w, h), y)) == [Span(y, 0, w - 1)]
  {
    RootUpperActive(w, h, y);
  }

  lemma {:induction false} RootRows(w: int, h: int, y: int)
    requires w >= 2 && h >= 2 && 0 <= y <= h - 1
    ensures |RowsBelow(RootOrder(w, h), 0, y)| == y
    ensures forall k :: 0 <= k < y ==> RowsBelow(RootOrder(w, h), 0, y)[k] == Span(k, 0, w - 1)
  {
    if y > 0 {
      RootRows(w, h, y - 1);
      RootUpperRow(w, h, y - 1);
    }
  }

  lemma RootLastRow(w: int, h: int)
    requires w >= 2 && h >= 2
    ensures Pairs(h - 1, Active(RootOrder(w, h), h - 1)) == []
  {
    var s := RootOrder(w, h);
    RowEndUnique(s, h - 1, 4);
    RootActive(w, h);
    assert s[..4] == s;
  }

  /**
   * The root's sweep covers rows 0 .. h-2 from column 0 up to, but not
   * including, column w-1: the last row and the last column are never
   * visited.
   */
  lemma RootSpans(w: int, h: int)
    requires w >= 2 && h >= 2
    ensures |AllSpans(SortCorners(RootCorners(w, h)))| == h - 1
    ensures forall k :: 0 <= k < h - 1 ==> AllSpans(SortCorners(RootCorners(w, h)))[k] == Span(k, 0, w - 1)
  {
    RootSorted(w, h);
    RootOrderSpans(w, h);
  }

  lemma RootOrderSpans(w: int, h: int)
    requires w >= 2 && h >= 2
    ensures AllSpans(RootOrder(w, h)) == RowsBelow(RootOrder(w, h), 0, h - 1)
    ensures |AllSpans(RootOrder(w, h))| == h - 1
    ensures forall k :: 0 <= k < h - 1 ==> AllSpans(RootOrder(w, h))[k] == Span(k, 0, w - 1)
  {
    RootRows(w, h, h - 1);
    RootLastRow(w, h);
    assert AllSpans(RootOrder(w, h)) == RowsBelow(RootOrder(w, h), 0, h - 1) + [];
  }

  lemma RootCoverage(w: int, h: int, x: int, y: int)
    requires w >= 2 && h >= 2
    ensures Covered(AllSpans(SortCorners(RootCorners(w, h))), x, y) <==> 0 <= x < w - 1 && 0 <= y < h - 1
  {
    RootSpans(w, h);
    var spans := AllSpans(SortCorners(RootCorners(w, h)));
    if 0 <= x < w - 1 && 0 <= y < h - 1 {
      assert InSpan(spans[y], x, y);
    }
  }

  /** The spans build sweeps for a node: its contour's, or the root rectangle's. */
  function NodeSpans(n: EdgeNode, w: int, h: int): seq<Span>
    requires n.parent != NIL ==> |n.contour| >= 3
  {
    if n.parent != NIL then ContourSpans(n.contour) else AllSpans(SortCorners(RootCorners(w, h)))
  }

  // ---------------------------------------------------------------------
  // llimg_buildChildEdgeTree (contour.cpp:618-787)

  /** The value at a node's seed, or 0 for a node without a contour (contour.cpp:679-682). */
  function Background(m: array2<bv8>, n: EdgeNode): int
    requires n.contour != [] ==> Inside(m, n.contour[0])
    reads m
  {
    if n.contour != [] then m[n.contour[0].y, n.contour[0].x] as int else 0
  }

  /** The foreground opposite a background of 0 or 1; -1 for any other (contour.cpp:683-691). */
  function Foreground(bg: int): int
  {
    if bg == 0 then 1 else if bg == 1 then 0 else -1
  }

  /**
   * The nodes from `n0` on are children of `p` filled with `fg`, or
   * descendants of such children whose fill is the opposite of their
   * parent's: colours alternate with each level of depth.
   */
  predicate Grown(nodes: seq<EdgeNode>, n0: int, p: int, fg: int)
  {
    forall i :: 0 <= n0 <= i < |nodes| ==>
      (nodes[i].parent == p && nodes[i].fillColor == fg) ||
      (n0 <= nodes[i].parent < i && nodes[i].fillColor == 1 - nodes[nodes[i].parent].fillColor)
  }

  /**
   * From `nodes0` to `nodes`, only links changed and nodes were appended;
   * of the nodes before `n0`, only the child link of `p`.
   */
  predicate Frozen(nodes0: seq<EdgeNode>, nodes: seq<EdgeNode>, n0: int, p: int)
  {
    |nodes0| <= |nodes| &&
    (forall j :: 0 <= j < |nodes0| ==>
      nodes[j].contour == nodes0[j].contour && nodes[j].fillColor == nodes0[j].fillColor &&
      nodes[j].parent == nodes0[j].parent) &&
    (forall j :: 0 <= j < n0 && j < |nodes0| && j != p ==> nodes[j] == nodes0[j]) &&
    (0 <= p < n0 && p < |nodes0| ==> nodes[p].sibling == nodes0[p].sibling)
  }

  /** The first child of `p` at index `j` or later, or NIL when there is none. */
  function NextKid(nodes: seq<EdgeNode>, j: int, p: int): (k: int)
    requires 0 <= j <= |nodes|
    ensures k == NIL || (j <= k < |nodes| && nodes[k].parent == p)
    decreases |nodes| - j
  {
    if j == |nodes| then NIL else if nodes[j].parent == p then j else NextKid(nodes, j + 1, p)
  }

  /** No child of `p` lies between `j` and the next one. */
  lemma {:induction false} NextKidFirst(nodes: seq<EdgeNode>, j: int, p: int, i: int)
    requires 0 <= j <= i < |nodes| && nodes[i].parent == p
    ensures NextKid(nodes, j, p) != NIL && NextKid(nodes, j, p) <= i
    decreases i - j
  {
    if nodes[j].parent != p {
      NextKidFirst(nodes, j + 1, p, i);
    }
  }

  /** NextKid depends only on the parent links, and nodes added later leave it as it was unless they are children. */
  lemma {:induction false} NextKidExtend(a: seq<EdgeNode>, b: seq<EdgeNode>, j: int, p: int)
    requires 0 <= j <= |a| <= |b|
    requires forall i :: 0 <= i < |a| ==> b[i].parent == a[i].parent
    requires forall i :: |a| <= i < |b| ==> b[i].parent != p
    ensures NextKid(b, j, p) == NextKid(a, j, p)
    decreases |b| - j
  {
    if j < |a| && a[j].parent != p {
      NextKidExtend(a, b, j + 1, p);
    }
  }

  /** A child appended after the last one is the next child of every index with none after it. */
  lemma {:induction false} NextKidAppend(a: seq<EdgeNode>, b: seq<EdgeNode>, j: int, p: int)
    requires 0 <= j <= |a| && |b| == |a| + 1
    requires forall i :: 0 <= i < |a| ==> b[i].parent == a[i].parent
    requires b[|a|].parent == p
    ensures NextKid(b, j, p) == if NextKid(a, j, p) == NIL then |a| else NextKid(a, j, p)
    decreases |a| - j
  {
    if j < |a| && a[j].parent != p {
      NextKidAppend(a, b, j + 1, p);
    }
  }

  /**
   * The children of `p` from `n0` on, in the order they were made, form
   * the sibling list: `p`'s child link names the first and each sibling
   * link the next, the last one's NIL (contour.cpp:759-771).
   */
  predicate Chained(nodes: seq<EdgeNode>, n0: int, p: int)
    requires 0 <= p < |nodes| && 0 <= n0 <= |nodes|
  {
    (NextKid(nodes, n0, p) != NIL ==> nodes[p].child == NextKid(nodes, n0, p)) &&
    forall i :: n0 <= i < |nodes| && nodes[i].parent == p ==> nodes[i].sibling == NextKid(nodes, i + 1, p)
  }

  /** The children of `p` made so far are chained, and `last` is the last of them. */
  predicate Kids(nodes: seq<EdgeNode>, n0: int, p: int, last: int)
  {
    0 <= p < n0 <= |nodes| && Chained(nodes, n0, p) &&
    (last == NIL ==> NextKid(nodes, n0, p) == NIL) &&
    (last != NIL ==> n0 <= last < |nodes| && nodes[last].parent == p && NextKid(nodes, last + 1, p) == NIL)
  }

  /** Appending a child after `last` (or as the first child) keeps the chain. */
  lemma KidsAdopted(nodes1: seq<EdgeNode>, nodes2: seq<EdgeNode>, n0: int, p: int, last: int, nn: EdgeNode)
    requires Kids(nodes1, n0, p, last) && nn.parent == p && nn.sibling == NIL
    requires last != NIL ==> nodes1[last].sibling == NIL
    requires nodes2 == (if last == NIL then nodes1[p := nodes1[p].(child := |nodes1|)]
                        else nodes1[last := nodes1[last].(sibling := |nodes1|)]) + [nn]
    ensures Kids(nodes2, n0, p, |nodes1|)
  {
    assert |nodes2| == |nodes1| + 1 && nodes2[|nodes1|] == nn;
    assert forall i :: 0 <= i < |nodes1| ==> nodes2[i].parent == nodes1[i].parent;
    assert forall i :: 0 <= i < |nodes1| && i != last ==> nodes2[i].sibling == nodes1[i].sibling;
    NextKidAppend(nodes1, nodes2, n0, p);
    forall i | n0 <= i < |nodes2| && nodes2[i].parent == p
      ensures nodes2[i].sibling == NextKid(nodes2, i + 1, p)
    {
      if i < |nodes1| && i != last {
        assert nodes1[i].parent == p && nodes2[i].sibling == nodes1[i].sibling;
      }
      KidAdopted(nodes1, nodes2, n0, p, last, i);
    }
    if last != NIL {
      NextKidFirst(nodes1, n0, p, last);
    }
  }

  /** The sibling link of one child of `p` after the append of KidsAdopted. */
  lemma KidAdopted(nodes1: seq<EdgeNode>, nodes2: seq<EdgeNode>, n0: int, p: int, last: int, i: int)
    requires 0 <= p < n0 <= |nodes1|
    requires last == NIL ==> NextKid(nodes1, n0, p) == NIL
    requires last != NIL ==> n0 <= last < |nodes1| && nodes1[last].parent == p && NextKid(nodes1, last + 1, p) == NIL
    requires |nodes2| == |nodes1| + 1 && nodes2[|nodes1|].parent == p && nodes2[|nodes1|].sibling == NIL
    requires forall j :: 0 <= j < |nodes1| ==> nodes2[j].parent == nodes1[j].parent
    requires n0 <= i < |nodes2| && nodes2[i].parent == p
    requires i < |nodes1| && i != last ==> nodes2[i].sibling == NextKid(nodes1, i + 1, p)
    requires last != NIL ==> nodes2[last].sibling == |nodes1|
    ensures nodes2[i].sibling == NextKid(nodes2, i + 1, p)
  {
    if i < |nodes1| {
      NextKidAppend(nodes1, nodes2, i + 1, p);
      if i != last {
        if last != NIL && i < last {
          NextKidFirst(nodes1, i + 1, p, last);
        } else if last != NIL {
          NextKidFirst(nodes1, last + 1, p, i);
        } else {
          NextKidFirst(nodes1, n0, p, i);
        }
      }
    }
  }



  /** Nodes appended below the last child `c` leave the chain of `p` as it was. */
  lemma KidsDescended(nodes2: seq<EdgeNode>, nodes3: seq<EdgeNode>, n0: int, p: int, c: int, fg: int)
    requires Kids(nodes2, n0, p, c) && c == |nodes2| - 1
    requires Frozen(nodes2, nodes3, |nodes2|, c) && Grown(nodes3, |nodes2|, c, fg)
    ensures Kids(nodes3, n0, p, c)
  {
    forall i | |nodes2| <= i < |nodes3| ensures nodes3[i].parent != p {
    }
    NextKidExtend(nodes2, nodes3, n0, p);
    NextKidExtend(nodes2, nodes3, c + 1, p);
    forall i | n0 <= i < |nodes3| && nodes3[i].parent == p
      ensures nodes3[i].sibling == NextKid(nodes3, i + 1, p)
    {
      NextKidExtend(nodes2, nodes3, i + 1, p);
    }
  }

  /** What holds while build sweeps the spans of node `p` with foreground `fg`. */
  predicate Context(nodes: seq<EdgeNode>, w: int, h: int, n0: int, p: int, last: int, fg: int)
  {
    ValidTree(nodes, w, h) && 0 <= p < n0 <= |nodes| && (fg == 0 || fg == 1) &&
    Grown(nodes, n0, p, fg) &&
    (last == NIL || (n0 <= last < |nodes| && nodes[last].sibling == NIL && nodes[last].parent == p))
  }

  predicate SameShape(a: seq<seq<bv8>>, b: seq<seq<bv8>>)
  {
    |a| == |b| && forall y :: 0 <= y < |a| ==> |a[y]| == |b[y]|
  }

  /** Pixel value `b` is `a`, possibly with bit 0x02 set. */
  predicate MarkedPixel(a: bv8, b: bv8)
  {
    b == a | (b & 2)
  }

  /** `b` is `a` with bit 0x02 set on some pixels and no other change. */
  predicate MarkedFrom(a: seq<seq<bv8>>, b: seq<seq<bv8>>)
  {
    SameShape(a, b) &&
    forall y, x :: 0 <= y < |a| && 0 <= x < |a[y]| ==> MarkedPixel(a[y][x], b[y][x])
  }

  /** Every pixel of the spans that lies in the grid carries the visited bit. */
  predicate Visited(g: seq<seq<bv8>>, spans: seq<Span>)
  {
    forall y, x :: 0 <= y < |g| && 0 <= x < |g[y]| && Covered(spans, x, y) ==> g[y][x] & 2 == 2
  }

  /** Every pixel of row `y` from `xs` up to `xe` that lies in the grid carries the visited bit. */
  predicate VisitedRow(g: seq<seq<bv8>>, y: int, xs: int, xe: int)
  {
    forall x :: 0 <= y < |g| && 0 <= x < |g[y]| && xs <= x < xe ==> g[y][x] & 2 == 2
  }

  /** The state of a build step relative to its start: `nodes0`, `g0`. */
  predicate Progress(nodes0: seq<EdgeNode>, nodes: seq<EdgeNode>, g0: seq<seq<bv8>>, g: seq<seq<bv8>>,
                     w: int, h: int, n0: int, p: int, last: int, fg: int)
  {
    Context(nodes, w, h, n0, p, last, fg) && Frozen(nodes0, nodes, n0, p) && MarkedFrom(g0, g)
  }

  /** No node was appended and the sweeping node `p` is as it was. */
  predicate Unextended(nodes0: seq<EdgeNode>, nodes: seq<EdgeNode>, p: int)
  {
    |nodes| == |nodes0| && 0 <= p < |nodes| && nodes[p] == nodes0[p]
  }

  lemma UnextendedSame(nodes0: seq<EdgeNode>, nodes: seq<EdgeNode>, p: int)
    requires Frozen(nodes0, nodes, |nodes0|, p) && Unextended(nodes0, nodes, p)
    ensures nodes == nodes0
  {
    forall j | 0 <= j < |nodes| ensures nodes[j] == nodes0[j] {
    }
  }

  lemma MarkedRefl(g: seq<seq<bv8>>)
    ensures MarkedFrom(g, g)
  {
  }

  lemma MarkedTrans(a: seq<seq<bv8>>, b: seq<seq<bv8>>, c: seq<seq<bv8>>)
    requires MarkedFrom(a, b) && MarkedFrom(b, c)
    ensures MarkedFrom(a, c)
  {
    forall y, x | 0 <= y < |a| && 0 <= x < |a[y]| ensures MarkedPixel(a[y][x], c[y][x]) {
      assert MarkedPixel(a[y][x], b[y][x]) && MarkedPixel(b[y][x], c[y][x]);
    }
  }

  lemma ProgressTrans(nodes0: seq<EdgeNode>, nodes1: seq<EdgeNode>, nodes2: seq<EdgeNode>,
                      g0: seq<seq<bv8>>, g1: seq<seq<bv8>>, g2: seq<seq<bv8>>,
                      w: int, h: int, n0: int, p: int, last1: int, last2: int, fg: int)
    requires Progress(nodes0, nodes1, g0, g1, w, h, n0, p, last1, fg)
    requires Progress(nodes1, nodes2, g1, g2, w, h, n0, p, last2, fg)
    ensures Progress(nodes0, nodes2, g0, g2, w, h, n0, p, last2, fg)
  {
    MarkedTrans(g0, g1, g2);
  }

  lemma VisitedKept(a: seq<seq<bv8>>, b: seq<seq<bv8>>, spans: seq<Span>)
    requires MarkedFrom(a, b) && Visited(a, spans)
    ensures Visited(b, spans)
  {
    forall y, x | InGrid(b, x, y) && Covered(spans, x, y) ensures b[y][x] & 2 == 2 {
      assert a[y][x] & 2 == 2;
    }
  }

  lemma VisitedRowKept(a: seq<seq<bv8>>, b: seq<seq<bv8>>, y: int, xs: int, xe: int)
    requires MarkedFrom(a, b) && VisitedRow(a, y, xs, xe)
    ensures VisitedRow(b, y, xs, xe)
  {
    forall x | InGrid(b, x, y) && xs <= x < xe ensures b[y][x] & 2 == 2 {
      assert a[y][x] & 2 == 2;
    }
  }

  lemma VisitedRowExtend(g: seq<seq<bv8>>, y: int, xs: int, x: int)
    requires VisitedRow(g, y, xs, x) && (InGrid(g, x, y) ==> g[y][x] & 2 == 2)
    ensures VisitedRow(g, y, xs, x + 1)
  {
  }

  lemma SpanVisited(a: seq<seq<bv8>>, b: seq<seq<bv8>>, spans: seq<Span>, i: int)
    requires 0 <= i < |spans| && MarkedFrom(a, b)
    requires Visited(a, spans[..i]) && VisitedRow(b, spans[i].y, spans[i].xs, spans[i].xe)
    ensures Visited(b, spans[..i + 1])
  {
    VisitedKept(a, b, spans[..i]);
    forall y, x | InGrid(b, x, y) && Covered(spans[..i + 1], x, y) ensures b[y][x] & 2 == 2 {
      CoveredStep(spans, i, x, y);
    }
  }

  /** Appending a traced child keeps the arena valid and the sweep's context. */
  lemma Adopted(nodes1: seq<EdgeNode>, nodes2: seq<EdgeNode>, w: int, h: int,
                n0: int, p: int, last: int, fg: int, pts: seq<Point>)
    requires Context(nodes1, w, h, n0, p, last, fg)
    requires |pts| >= 3 && 0 <= pts[0].x < w && 0 <= pts[0].y < h
    requires nodes2 == (if last == NIL then nodes1[p := nodes1[p].(child := |nodes1|)]
                        else nodes1[last := nodes1[last].(sibling := |nodes1|)])
                       + [NewEdgeNode().(parent := p, contour := pts, fillColor := fg)]
    ensures ValidTree(nodes2, w, h) && Frozen(nodes1, nodes2, n0, p)
    ensures Context(nodes2, w, h, n0, p, |nodes1|, fg)
  {
    var k := if last == NIL then p else last;
    var nn := NewEdgeNode().(parent := p, contour := pts, fillColor := fg);
    assert |nodes2| == |nodes1| + 1 && nodes2[|nodes1|] == nn;
    forall j | 0 <= j < |nodes1|
      ensures j != k ==> nodes2[j] == nodes1[j]
      ensures nodes2[j].contour == nodes1[j].contour && nodes2[j].parent == nodes1[j].parent
      ensures nodes2[j].fillColor == nodes1[j].fillColor && (j != last ==> nodes2[j].sibling == nodes1[j].sibling)
      ensures Later(nodes2, j, nodes2[j].sibling) && Later(nodes2, j, nodes2[j].child)
    {
    }
  }

  /** After the child `c` has been built, the sweep continues with `c` as the last child. */
  lemma Descended(nodes1: seq<EdgeNode>, nodes2: seq<EdgeNode>, nodes3: seq<EdgeNode>, w: int, h: int,
                  n0: int, p: int, c: int, fg: int)
    requires Context(nodes2, w, h, n0, p, c, fg) && Frozen(nodes1, nodes2, n0, p)
    requires c == |nodes2| - 1
    requires ValidTree(nodes3, w, h) && Frozen(nodes2, nodes3, |nodes2|, c)
    requires Grown(nodes3, |nodes2|, c, Foreground(fg))
    ensures Context(nodes3, w, h, n0, p, c, fg) && Frozen(nodes1, nodes3, n0, p)
  {
    forall i | n0 <= i < |nodes3|
      ensures (nodes3[i].parent == p && nodes3[i].fillColor == fg) ||
              (n0 <= nodes3[i].parent < i && nodes3[i].fillColor == 1 - nodes3[nodes3[i].parent].fillColor)
    {
      if i < |nodes2| {
        assert nodes3[i].parent == nodes2[i].parent;
      }
    }
  }

  /** Descended and KidsDescended together: after `c` is built, `c` stays the last child of `p`. */
  lemma Regrown(nodes1: seq<EdgeNode>, nodes2: seq<EdgeNode>, nodes3: seq<EdgeNode>, w: int, h: int,
                n0: int, p: int, c: int, fg: int)
    requires Context(nodes2, w, h, n0, p, c, fg) && Frozen(nodes1, nodes2, n0, p) && Kids(nodes2, n0, p, c)
    requires c == |nodes2| - 1
    requires ValidTree(nodes3, w, h) && Frozen(nodes2, nodes3, |nodes2|, c)
    requires Grown(nodes3, |nodes2|, c, Foreground(fg))
    ensures Context(nodes3, w, h, n0, p, c, fg) && Frozen(nodes1, nodes3, n0, p) && Kids(nodes3, n0, p, c)
  {
    Descended(nodes1, nodes2, nodes3, w, h, n0, p, c, fg);
    KidsDescended(nodes2, nodes3, n0, p, c, Foreground(fg));
  }

  /**
   * The recursive build. `client` is llimg->client, counting calls; it is
   * threaded through as a value. Error codes: 1 for a null image or node,
   * 3 once the counter passes 1000, 2 for a background other than 0 or 1,
   * and 4 where the source's tracer would not come back. On success every
   * raster pixel of the node's spans carries the visited bit 0x02, and
   * nothing else changes in the mask but that bit.
   */
  method BuildChildEdgeTree(t: Arena, m: array2?<bv8>, client: int, parent: int, limit: int, depth: int)
    returns (err: int, client': int)
    requires m != null ==> ValidTree(t.nodes, m.Length1, m.Length0)
    modifies t, m
    decreases 1001 - client, 0
    ensures 0 <= err <= 4
    ensures err == 1 <==> m == null || !(0 <= parent < |old(t.nodes)|)
    ensures err == 1 ==> client' == client && t.nodes == old(t.nodes) && (m != null ==> unchanged(m))
    ensures err != 1 ==> client' > client
    ensures err != 1 && client >= 1000 ==> err == 3 && client' == client + 1 && t.nodes == old(t.nodes) && unchanged(m)
    ensures err == 0 ==> client' <= 1000
    ensures m != null ==> ValidTree(t.nodes, m.Length1, m.Length0)
    ensures Frozen(old(t.nodes), t.nodes, |old(t.nodes)|, parent)
    ensures m != null ==> MarkedFrom(old(Grid(m)), Grid(m))
    ensures m != null && 0 <= parent < |old(t.nodes)| && client < 1000 &&
            Foreground(old(Background(m, t.nodes[parent]))) == -1 ==>
            err == 2 && t.nodes == old(t.nodes) && unchanged(m)
    ensures m != null && 0 <= parent < |old(t.nodes)| ==>
            Grown(t.nodes, |old(t.nodes)|, parent, Foreground(old(Background(m, t.nodes[parent]))))
    ensures m != null && 0 <= parent < |old(t.nodes)| ==> Chained(t.nodes, |old(t.nodes)|, parent)
    ensures m != null && err == 0 ==>
            Visited(Grid(m), NodeSpans(old(t.nodes[parent]), m.Length1, m.Length0))
    ensures depth >= limit ==> t.nodes == old(t.nodes)
  {
    if m == null || !(0 <= parent < |t.nodes|) {
      if m != null {
        MarkedRefl(Grid(m));
      }
      return 1, client;
    }
    MarkedRefl(Grid(m));
    client' := client + 1;
    if client' > 1000 {
      return 3, client';
    }
    var node := t.nodes[parent];
    var bg := if node.contour != [] then m[node.contour[0].y, node.contour[0].x] as int else 0;
    var fg := Foreground(bg);
    if fg == -1 {
      return 2, client';
    }
    err, client' := SweepNode(t, m, client', parent, fg, limit, depth);
  }

  /**
   * The sweep of llimg_buildChildEdgeTree once the checks have passed
   * (contour.cpp:693-780): the spans of the parent's contour, or the
   * whole raster's for the root, visited row by row.
   */
  method SweepNode(t: Arena, m: array2<bv8>, client: int, parent: int, fg: int, limit: int, depth: int)
    returns (err: int, client': int)
    requires ValidTree(t.nodes, m.Length1, m.Length0) && 0 <= parent < |t.nodes| && client <= 1000
    requires fg == Foreground(Background(m, t.nodes[parent])) && fg != -1
    modifies t, m
    decreases 1001 - client, 8
    ensures err == 0 || err == 2 || err == 3 || err == 4
    ensures client' >= client && (err == 0 ==> client' <= 1000)
    ensures ValidTree(t.nodes, m.Length1, m.Length0)
    ensures Frozen(old(t.nodes), t.nodes, |old(t.nodes)|, parent)
    ensures MarkedFrom(old(Grid(m)), Grid(m))
    ensures Grown(t.nodes, |old(t.nodes)|, parent, fg)
    ensures Chained(t.nodes, |old(t.nodes)|, parent)
    ensures err == 0 ==> Visited(Grid(m), NodeSpans(old(t.nodes[parent]), m.Length1, m.Length0))
    ensures depth >= limit ==> t.nodes == old(t.nodes)
  {
    var node := t.nodes[parent];
    var spans: seq<Span>;
    if node.parent != NIL {
      spans := CornerSweep(node.contour);
    } else {
      var sorted := SortCorners(RootCorners(m.Length1, m.Length0));
      SortedYXIsSortedY(sorted);
      spans := ScanSpans(sorted);
    }
    var last;
    assert Kids(t.nodes, |t.nodes|, parent, NIL);
    err, client', last := VisitSpans(t, m, client, parent, NIL, spans, fg, limit, depth, |t.nodes|);
    if depth >= limit {
      UnextendedSame(old(t.nodes), t.nodes, parent);
    }
  }

  /** The sweep over a node's spans, row by row and left to right (contour.cpp:719-780). */
  method VisitSpans(t: Arena, m: array2<bv8>, client: int, parent: int, last: int, spans: seq<Span>,
                    fg: int, limit: int, depth: int, ghost n0: int)
    returns (err: int, client': int, last': int)
    requires Context(t.nodes, m.Length1, m.Length0, n0, parent, last, fg) && client <= 1000
    requires Kids(t.nodes, n0, parent, last)
    modifies t, m
    decreases 1001 - client, 7
    ensures Progress(old(t.nodes), t.nodes, old(Grid(m)), Grid(m), m.Length1, m.Length0, n0, parent, last', fg)
    ensures Kids(t.nodes, n0, parent, last')
    ensures client' >= client && (err == 0 ==> client' <= 1000)
    ensures err == 0 || err == 2 || err == 3 || err == 4
    ensures err == 0 ==> Visited(Grid(m), spans)
    ensures depth >= limit ==> Unextended(old(t.nodes), t.nodes, parent) && err == 0
  {
    var i := 0;
    client', last', err := client, last, 0;
    ghost var nodes0, g0 := t.nodes, Grid(m);
    MarkedRefl(g0);
    while i < |spans|
      invariant 0 <= i <= |spans| && err == 0
      invariant Progress(nodes0, t.nodes, g0, Grid(m), m.Length1, m.Length0, n0, parent, last', fg)
      invariant Kids(t.nodes, n0, parent, last')
      invariant client <= client' <= 1000
      invariant Visited(Grid(m), spans[..i])
      invariant depth >= limit ==> Unextended(nodes0, t.nodes, parent)
    {
      ghost var nodes1, g1, last1 := t.nodes, Grid(m), last';
      err, client', last' := VisitSpan(t, m, client', parent, last', spans[i], fg, limit, depth, n0);
      ProgressTrans(nodes0, nodes1, t.nodes, g0, g1, Grid(m), m.Length1, m.Length0, n0, parent, last1, last', fg);
      if err != 0 {
        break;
      }
      SpanVisited(g1, Grid(m), spans, i);
      i := i + 1;
    }
    if err == 0 {
      assert spans[..i] == spans;
    }
  }

  /** Visit the pixels of one span, left to right (contour.cpp:747-776). */
  method VisitSpan(t: Arena, m: array2<bv8>, client: int, parent: int, last: int, sp: Span,
                   fg: int, limit: int, depth: int, ghost n0: int)
    returns (err: int, client': int, last': int)
    requires Context(t.nodes, m.Length1, m.Length0, n0, parent, last, fg) && client <= 1000
    requires Kids(t.nodes, n0, parent, last)
    modifies t, m
    decreases 1001 - client, 6
    ensures Progress(old(t.nodes), t.nodes, old(Grid(m)), Grid(m), m.Length1, m.Length0, n0, parent, last', fg)
    ensures Kids(t.nodes, n0, parent, last')
    ensures client' >= client && (err == 0 ==> client' <= 1000)
    ensures err == 0 || err == 2 || err == 3 || err == 4
    ensures err == 0 ==> VisitedRow(Grid(m), sp.y, sp.xs, sp.xe)
    ensures depth >= limit ==> Unextended(old(t.nodes), t.nodes, parent) && err == 0
  {
    var x := sp.xs;
    client', last', err := client, last, 0;
    ghost var nodes0, g0 := t.nodes, Grid(m);
    MarkedRefl(g0);
    while x < sp.xe
      invariant (x == sp.xs || sp.xs <= x <= sp.xe) && err == 0
      invariant Progress(nodes0, t.nodes, g0, Grid(m), m.Length1, m.Length0, n0, parent, last', fg)
      invariant Kids(t.nodes, n0, parent, last')
      invariant client <= client' <= 1000
      invariant VisitedRow(Grid(m), sp.y, sp.xs, x)
      invariant depth >= limit ==> Unextended(nodes0, t.nodes, parent)
    {
      ghost var nodes1, g1, last1 := t.nodes, Grid(m), last';
      err, client', last' := VisitColumn(t, m, client', parent, last', x, sp.y, sp.xs, fg, limit, depth, n0);
      ProgressTrans(nodes0, nodes1, t.nodes, g0, g1, Grid(m), m.Length1, m.Length0, n0, parent, last1, last', fg);
      if err != 0 {
        break;
      }
      x := x + 1;
    }
  }

  /** One column of a span: the pixel is visited when it lies in the raster. */
  method VisitColumn(t: Arena, m: array2<bv8>, client: int, parent: int, last: int, x: int, y: int, xs: int,
                     fg: int, limit: int, depth: int, ghost n0: int)
    returns (err: int, client': int, last': int)
    requires Context(t.nodes, m.Length1, m.Length0, n0, parent, last, fg) && client <= 1000
    requires Kids(t.nodes, n0, parent, last)
    requires VisitedRow(Grid(m), y, xs, x)
    modifies t, m
    decreases 1001 - client, 5
    ensures Progress(old(t.nodes), t.nodes, old(Grid(m)), Grid(m), m.Length1, m.Length0, n0, parent, last', fg)
    ensures Kids(t.nodes, n0, parent, last')
    ensures client' >= client && (err == 0 ==> client' <= 1000)
    ensures err == 0 || err == 2 || err == 3 || err == 4
    ensures err == 0 ==> VisitedRow(Grid(m), y, xs, x + 1)
    ensures depth >= limit ==> Unextended(old(t.nodes), t.nodes, parent) && err == 0
  {
    client', last', err := client, last, 0;
    if InRaster(m, x, y) {
      ghost var g0 := Grid(m);
      err, client', last' := VisitPixel(t, m, client, parent, last, x, y, fg, limit, depth, n0);
      if err != 0 {
        return;
      }
      VisitedRowKept(g0, Grid(m), y, xs, x);
    } else {
      MarkedRefl(Grid(m));
    }
    VisitedRowExtend(Grid(m), y, xs, x);
  }

  /**
   * One pixel of the sweep: skip it when already visited; at the depth
   * limit only mark it; otherwise, when it holds the foreground, trace its
   * contour, append the child and recurse; then mark it visited
   * (contour.cpp:750-775).
   */
  method VisitPixel(t: Arena, m: array2<bv8>, client: int, parent: int, last: int, x: int, y: int,
                    fg: int, limit: int, depth: int, ghost n0: int)
    returns (err: int, client': int, last': int)
    requires Context(t.nodes, m.Length1, m.Length0, n0, parent, last, fg) && client <= 1000
    requires Kids(t.nodes, n0, parent, last)
    requires InRaster(m, x, y)
    modifies t, m
    decreases 1001 - client, 4
    ensures Progress(old(t.nodes), t.nodes, old(Grid(m)), Grid(m), m.Length1, m.Length0, n0, parent, last', fg)
    ensures Kids(t.nodes, n0, parent, last')
    ensures client' >= client && (err == 0 ==> client' <= 1000)
    ensures err == 0 || err == 2 || err == 3 || err == 4
    ensures !(depth < limit && old(m[y, x]) as int == fg) ==> err == 0 && t.nodes == old(t.nodes) && last' == last
    ensures depth < limit && old(m[y, x]) as int == fg && old(Traced(m, x, y, fg)).Contour? ==>
      last' == |old(t.nodes)| < |t.nodes| && t.nodes[last'].parent == parent &&
      t.nodes[last'].fillColor == fg && t.nodes[last'].contour == old(Traced(m, x, y, fg)).points
    ensures depth < limit && old(m[y, x]) as int == fg && !old(Traced(m, x, y, fg)).Contour? ==> err == 4
    ensures err == 0 ==> Grid(m)[y][x] & 2 == 2
    ensures depth >= limit ==> Unextended(old(t.nodes), t.nodes, parent) && err == 0
  {
    client', last' := client, last;
    if m[y, x] & 2 != 0 {
      MarkedRefl(Grid(m));
      return 0, client', last';
    }
    if depth < limit && m[y, x] as int == fg {
      err, client', last' := Discover(t, m, client, parent, last, x, y, fg, limit, depth, n0);
      if err != 0 {
        return;
      }
    } else {
      MarkedRefl(Grid(m));
    }
    ghost var g1 := Grid(m);
    MarkVisited(m, x, y);
    MarkedTrans(old(Grid(m)), g1, Grid(m));
    err := 0;
  }

  /** Set the visited bit 0x02 of one pixel. */
  method MarkVisited(m: array2<bv8>, x: int, y: int)
    requires InRaster(m, x, y)
    modifies m
    ensures MarkedFrom(old(Grid(m)), Grid(m))
    ensures m[y, x] & 2 == 2
  {
    m[y, x] := m[y, x] | 2;
  }

  /**
   * A foreground pixel not yet visited: trace the contour through it,
   * append a child owning that contour and build the child's subtree
   * (contour.cpp:758-773).
   */
  method Discover(t: Arena, m: array2<bv8>, client: int, parent: int, last: int, x: int, y: int,
                  fg: int, limit: int, depth: int, ghost n0: int)
    returns (err: int, client': int, last': int)
    requires Context(t.nodes, m.Length1, m.Length0, n0, parent, last, fg) && client <= 1000
    requires Kids(t.nodes, n0, parent, last)
    requires InRaster(m, x, y) && m[y, x] as int == fg
    modifies t, m
    decreases 1001 - client, 3
    ensures Progress(old(t.nodes), t.nodes, old(Grid(m)), Grid(m), m.Length1, m.Length0, n0, parent, last', fg)
    ensures Kids(t.nodes, n0, parent, last')
    ensures client' >= client && (err == 0 ==> client' <= 1000)
    ensures err == 0 || err == 2 || err == 3 || err == 4
    ensures !old(Traced(m, x, y, fg)).Contour? ==> err == 4 && t.nodes == old(t.nodes) && unchanged(m)
    ensures old(Traced(m, x, y, fg)).Contour? ==>
      last' == |old(t.nodes)| < |t.nodes| && t.nodes[last'].parent == parent &&
      t.nodes[last'].fillColor == fg && t.nodes[last'].contour == old(Traced(m, x, y, fg)).points
  {
    var tr := TraceContour(m, x, y, fg);
    if !tr.Contour? {
      MarkedRefl(Grid(m));
      return 4, client, last;
    }
    err, client', last' := Attach(t, m, client, parent, last, tr.points, fg, limit, depth, n0);
  }

  /**
   * Append a child owning the contour `pts` after the last child `last`
   * of `parent` and build the child's subtree (contour.cpp:759-773).
   */
  method Attach(t: Arena, m: array2<bv8>, client: int, parent: int, last: int, pts: seq<Point>,
                fg: int, limit: int, depth: int, ghost n0: int)
    returns (err: int, client': int, last': int)
    requires Context(t.nodes, m.Length1, m.Length0, n0, parent, last, fg) && client <= 1000
    requires Kids(t.nodes, n0, parent, last)
    requires |pts| >= 3 && 0 <= pts[0].x < m.Length1 && 0 <= pts[0].y < m.Length0 && m[pts[0].y, pts[0].x] as int == fg
    modifies t, m
    decreases 1001 - client, 2
    ensures Progress(old(t.nodes), t.nodes, old(Grid(m)), Grid(m), m.Length1, m.Length0, n0, parent, last', fg)
    ensures Kids(t.nodes, n0, parent, last')
    ensures client' >= client && (err == 0 ==> client' <= 1000)
    ensures err == 0 || err == 2 || err == 3 || err == 4
    ensures last' == |old(t.nodes)| < |t.nodes| && t.nodes[last'].parent == parent &&
      t.nodes[last'].fillColor == fg && t.nodes[last'].contour == pts
  {
    ghost var nodes1 := t.nodes;
    last' := AppendKid(t, m, parent, last, pts, fg, n0);
    ghost var nodes2 := t.nodes;
    err, client' := BuildKid(t, m, client, last', fg, limit, depth + 1);
    Regrown(nodes1, nodes2, t.nodes, m.Length1, m.Length0, n0, parent, last', fg);
  }

  /** Build the subtree of the new child `c` of background `fg`, keeping only what the sweep needs. */
  method BuildKid(t: Arena, m: array2<bv8>, client: int, c: int, fg: int, limit: int, depth: int)
    returns (err: int, client': int)
    requires ValidTree(t.nodes, m.Length1, m.Length0) && 0 <= c < |t.nodes|
    requires t.nodes[c].contour != [] && Inside(m, t.nodes[c].contour[0]) && Background(m, t.nodes[c]) == fg
    modifies t, m
    decreases 1001 - client, 1
    ensures 0 <= err <= 4 && err != 1 && client' > client && (err == 0 ==> client' <= 1000)
    ensures ValidTree(t.nodes, m.Length1, m.Length0) && Frozen(old(t.nodes), t.nodes, |old(t.nodes)|, c)
    ensures MarkedFrom(old(Grid(m)), Grid(m))
    ensures Grown(t.nodes, |old(t.nodes)|, c, Foreground(fg))
  {
    err, client' := BuildChildEdgeTree(t, m, client, c, limit, depth);
  }

  /** Append the node for `pts` as the child of `parent` after `last` (contour.cpp:759-771). */
  method AppendKid(t: Arena, m: array2<bv8>, parent: int, last: int, pts: seq<Point>, fg: int, ghost n0: int)
    returns (i: int)
    requires Context(t.nodes, m.Length1, m.Length0, n0, parent, last, fg)
    requires Kids(t.nodes, n0, parent, last)
    requires |pts| >= 3 && 0 <= pts[0].x < m.Length1 && 0 <= pts[0].y < m.Length0 && m[pts[0].y, pts[0].x] as int == fg
    modifies t
    ensures i == |old(t.nodes)| == |t.nodes| - 1
    ensures t.nodes[i] == NewEdgeNode().(parent := parent, contour := pts, fillColor := fg)
    ensures ValidTree(t.nodes, m.Length1, m.Length0) && Frozen(old(t.nodes), t.nodes, n0, parent)
    ensures Context(t.nodes, m.Length1, m.Length0, n0, parent, i, fg) && Kids(t.nodes, n0, parent, i)
    ensures Background(m, t.nodes[i]) == fg
  {
    ghost var nodes1 := t.nodes;
    i := t.AddChild(parent, last, pts, fg);
    Adopted(nodes1, t.nodes, m.Length1, m.Length0, n0, parent, last, fg, pts);
    KidsAdopted(nodes1, t.nodes, n0, parent, last, NewEdgeNode().(parent := parent, contour := pts, fillColor := fg));
  }

  // ---------------------------------------------------------------------
  // Teardown (contour.h:129-142)

  /** The measure that the forward links decrease. */
  function Rank(nodes: seq<EdgeNode>, i: int): nat
  {
    if 0 <= i < |nodes| then |nodes| - i else 0
  }

  /**
   * The order in which deleteEdgeTree frees the nodes reached from `i`:
   * the sibling chain first, then the child subtree, then the node itself,
   * whose destructor frees its contour. Null-safe: NIL frees nothing.
   */
  function DeleteOrder(nodes: seq<EdgeNode>, i: int): seq<int>
    requires WellLinked(nodes) && Ref(nodes, i)
    decreases Rank(nodes, i)
  {
    if i == NIL then []
    else DeleteOrder(nodes, nodes[i].sibling) + DeleteOrder(nodes, nodes[i].child) + [i]
  }

  /**
   * Every entry of `o` is a node of the arena and comes after the sibling
   * and the child that node links to.
   */
  predicate Postorder(nodes: seq<EdgeNode>, o: seq<int>)
  {
    forall p :: 0 <= p < |o| ==>
      0 <= o[p] < |nodes| &&
      (nodes[o[p]].sibling != NIL ==> nodes[o[p]].sibling in o[..p]) &&
      (nodes[o[p]].child != NIL ==> nodes[o[p]].child in o[..p])
  }

  lemma PostorderConcat(nodes: seq<EdgeNode>, a: seq<int>, b: seq<int>)
    requires Postorder(nodes, a) && Postorder(nodes, b)
    ensures Postorder(nodes, a + b)
  {
    var o := a + b;
    forall p | |a| <= p < |o|
      ensures 0 <= o[p] < |nodes|
      ensures nodes[o[p]].sibling != NIL ==> nodes[o[p]].sibling in o[..p]
      ensures nodes[o[p]].child != NIL ==> nodes[o[p]].child in o[..p]
    {
      assert o[p] == b[p - |a|];
      assert o[..p] == a + b[..p - |a|];
    }
    forall p | 0 <= p < |a|
      ensures o[..p] == a[..p]
    {
    }
  }

  lemma PostorderSnoc(nodes: seq<EdgeNode>, o: seq<int>, i: int)
    requires Postorder(nodes, o) && 0 <= i < |nodes|
    requires nodes[i].sibling != NIL ==> nodes[i].sibling in o
    requires nodes[i].child != NIL ==> nodes[i].child in o
    ensures Postorder(nodes, o + [i])
  {
    var o' := o + [i];
    assert o'[..|o|] == o;
    forall p | 0 <= p < |o|
      ensures o'[..p] == o[..p]
    {
    }
  }

  /** The teardown frees `i` last and nothing before `i`; NIL frees nothing. */
  lemma {:induction false} DeleteOrderBounds(nodes: seq<EdgeNode>, i: int)
    requires WellLinked(nodes) && Ref(nodes, i)
    ensures DeleteOrder(nodes, i) == [] <==> i == NIL
    ensures i != NIL ==> DeleteOrder(nodes, i)[|DeleteOrder(nodes, i)| - 1] == i
    ensures forall p :: 0 <= p < |DeleteOrder(nodes, i)| ==> i <= DeleteOrder(nodes, i)[p] < |nodes|
    decreases Rank(nodes, i)
  {
    if i != NIL {
      DeleteOrderBounds(nodes, nodes[i].sibling);
      DeleteOrderBounds(nodes, nodes[i].child);
    }
  }

  /**
   * deleteEdgeTree is a postorder teardown: every node is freed after the
   * sibling and the child it links to, so no link is followed into a
   * freed node.
   */
  lemma {:induction false} DeleteOrderPostorder(nodes: seq<EdgeNode>, i: int)
    requires WellLinked(nodes) && Ref(nodes, i)
    ensures Postorder(nodes, DeleteOrder(nodes, i))
    decreases Rank(nodes, i)
  {
    if i != NIL {
      var sib, ch := nodes[i].sibling, nodes[i].child;
      DeleteOrderPostorder(nodes, sib);
      DeleteOrderPostorder(nodes, ch);
      DeleteOrderBounds(nodes, sib);
      DeleteOrderBounds(nodes, ch);
      var a, b := DeleteOrder(nodes, sib), DeleteOrder(nodes, ch);
      PostorderConcat(nodes, a, b);
      if sib != NIL { assert a[|a| - 1] in a + b; }
      if ch != NIL { assert b[|b| - 1] in a + b; }
      PostorderSnoc(nodes, a + b, i);
    }
  }
}
