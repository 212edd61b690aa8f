/**
 * The WRegion class of wregion.h / wregion.cpp: it derives a 0/1 mask
 * from an image, traces the mask's contours into an edge tree and
 * assembles a window region from them.
 *
 * A GDI region is modelled as the set of pixels it covers. Polygon
 * filling (CreatePolygonRgn with ALTERNATE filling) is not modelled: it is
 * a parameter `fill` that gives the pixel set of a polygon, and the
 * combine modes RGN_OR and RGN_XOR are set union and symmetric difference.
 */
module WRegion {
  import opened Common
  import opened LlImage
  import opened Contour
  import opened Scan
  import opened EdgeTree
  import opened MaskOps

  // ---------------------------------------------------------------------
  // The mask (wregion.cpp:226-399)

  /** The seven palette entries createMask sets (wregion.cpp:252-272). */
  const MASK_COLORS: seq<Bgr> := [
    Bgr(255, 255, 255, 0), Bgr(0, 0, 0, 0), Bgr(180, 180, 255, 0), Bgr(0, 170, 0, 0),
    Bgr(255, 255, 0, 0), Bgr(0, 255, 255, 0), Bgr(255, 0, 255, 0)]

  /** The mask's palette: those seven entries, then the zeros create_base left. */
  function MaskPalette(): (p: seq<Bgr>)
    ensures |p| == 256 && p[..7] == MASK_COLORS
    ensures forall i :: 7 <= i < |p| ==> p[i] == BLACK
  {
    MASK_COLORS + ZeroPalette()[7..]
  }

  /** A padded 8-bit row is as many bytes as it is wide. */
  lemma AlignedMaskRow(w: int)
    requires w >= 0
    ensures w <= LongAligned(w) < w + 4 && RowBytes(LongAligned(w), 8) == LongAligned(w)
  {
    var p := LongAligned(w);
    assert p * 8 / 8 == p;
  }

  /** The image depths createMask handles. */
  predicate Maskable(img: Llimg?)
    reads img
  {
    img != null && (img.header.bitsPerPixel == 8 || img.header.bitsPerPixel == 24)
  }

  /**
   * What createMask reads: an image raster of `height` rows, each holding
   * a full image row, and a seed pixel (xm, ym) inside the image.
   */
  predicate Readable(img: Llimg, xm: int, ym: int)
    reads img
  {
    img.data != null && img.data.Length0 == img.height &&
    0 <= img.header.width && RowBytes(img.header.width, img.header.bitsPerPixel) <= img.data.Length1 &&
    0 <= xm < img.header.width && 0 <= ym < img.height
  }

  /**
   * The classification of an image grid: by palette index for 8-bit
   * images, by channel distance for 24-bit ones, against the seed pixel.
   */
  function Classified(src: seq<seq<bv8>>, w: int, h: int, bpp: int, xm: int, ym: int, bgDiff: int)
    : (r: seq<seq<bv8>>)
    requires 0 <= w && 0 <= h <= |src| && 0 <= xm < w && 0 <= ym < h
    requires forall y :: 0 <= y < h ==> (if bpp == 8 then w else 3 * w) <= |src[y]|
    ensures |r| == h && Uniform(r, w) && Binary(r)
  {
    if bpp == 8 then Classify8(src, w, h, src[ym][xm] as int)
    else Classify24(src, w, h, src[ym][3 * xm], src[ym][3 * xm + 1], src[ym][3 * xm + 2], bgDiff)
  }

  /** The number of erosion passes: the option's, for 24-bit images with `client1` below 2. */
  function ErosionCount(bpp: int, client1: int, erosions: int): int
  {
    if bpp == 24 && client1 < 2 then erosions else 0
  }

  // ---------------------------------------------------------------------
  // Regions and tree walks

  /** One node visited by a walk of the tree, at its depth below the walk's start. */
  datatype Visit = Visit(node: int, level: int)

  /**
   * The preorder walk of plotBranch and addEdge from node `i`: the node
   * itself, then the walk of each of its children in sibling order, one
   * level deeper. The siblings of `i` are not part of it.
   */
  function Walk(nodes: seq<EdgeNode>, i: int, level: int): seq<Visit>
    requires WellLinked(nodes) && 0 <= i < |nodes|
    decreases Rank(nodes, i), 0
  {
    [Visit(i, level)] + Branches(nodes, nodes[i].child, level + 1)
  }

  /** The walks of `c` and of each sibling after it, in order. */
  function Branches(nodes: seq<EdgeNode>, c: int, level: int): seq<Visit>
    requires WellLinked(nodes) && Ref(nodes, c)
    decreases Rank(nodes, c), 1
  {
    if c == NIL then [] else Walk(nodes, c, level) + Branches(nodes, nodes[c].sibling, level)
  }

  /** The nodes of a walk that own a contour, in walk order. */
  function Owners(nodes: seq<EdgeNode>, walk: seq<Visit>): (o: seq<int>)
    ensures forall k :: 0 <= k < |o| ==> 0 <= o[k] < |nodes|
  {
    if walk == [] then []
    else
      var v := walk[0];
      (if 0 <= v.node < |nodes| && nodes[v.node].contour != [] then [v.node] else []) + Owners(nodes, walk[1..])
  }

  lemma {:induction false} OwnersConcat(nodes: seq<EdgeNode>, a: seq<Visit>, b: seq<Visit>)
    ensures Owners(nodes, a + b) == Owners(nodes, a) + Owners(nodes, b)
  {
    if a == [] {
      assert a + b == b;
    } else {
      assert (a + b)[0] == a[0] && (a + b)[1..] == a[1..] + b;
      OwnersConcat(nodes, a[1..], b);
    }
  }

  /** A single visit contributes its node exactly when that node owns a contour. */
  lemma OwnerOfVisit(nodes: seq<EdgeNode>, i: int, level: int)
    requires 0 <= i < |nodes|
    ensures |Owners(nodes, [Visit(i, level)])| == if nodes[i].contour != [] then 1 else 0
  {
    assert [Visit(i, level)][1..] == [];
  }

  /**
   * nodeCount (wregion.cpp:159-168): the nodes owning a contour among `i`,
   * its siblings and all their descendants; 0 for NIL.
   */
  function NodeCount(nodes: seq<EdgeNode>, i: int): nat
    requires WellLinked(nodes) && Ref(nodes, i)
    decreases Rank(nodes, i)
  {
    if i == NIL then 0
    else (if nodes[i].contour != [] then 1 else 0) + NodeCount(nodes, nodes[i].sibling) + NodeCount(nodes, nodes[i].child)
  }

  /** Counting from `c` counts the contour owners of the walks of `c` and its siblings. */
  lemma {:induction false} BranchesCount(nodes: seq<EdgeNode>, c: int, level: int)
    requires WellLinked(nodes) && Ref(nodes, c)
    ensures |Owners(nodes, Branches(nodes, c, level))| == NodeCount(nodes, c)
    decreases Rank(nodes, c)
  {
    if c != NIL {
      var sib, ch := nodes[c].sibling, nodes[c].child;
      var down, across := Branches(nodes, ch, level + 1), Branches(nodes, sib, level);
      BranchesCount(nodes, sib, level);
      BranchesCount(nodes, ch, level + 1);
      OwnerOfVisit(nodes, c, level);
      OwnersConcat(nodes, [Visit(c, level)], down);
      OwnersConcat(nodes, Walk(nodes, c, level), across);
      assert Branches(nodes, c, level) == ([Visit(c, level)] + down) + across;
    }
  }

  /**
   * For a node without siblings, such as the root extractRegions makes,
   * nodeCount is the number of contours the walk from it combines.
   */
  lemma WalkCount(nodes: seq<EdgeNode>, i: int, level: int)
    requires WellLinked(nodes) && 0 <= i < |nodes| && nodes[i].sibling == NIL
    ensures |Owners(nodes, Walk(nodes, i, level))| == NodeCount(nodes, i)
  {
    BranchesCount(nodes, nodes[i].child, level + 1);
    OwnerOfVisit(nodes, i, level);
    OwnersConcat(nodes, [Visit(i, level)], Branches(nodes, nodes[i].child, level + 1));
  }

  /** Symmetric difference: RGN_XOR. */
  function Xor(a: set<Point>, b: set<Point>): set<Point>
  {
    (a - b) + (b - a)
  }

  /**
   * The region after one visit of addEdge: a node owning a contour is
   * combined by union when its fill colour is 1, by XOR otherwise.
   */
  function Combine(r: set<Point>, nodes: seq<EdgeNode>, v: Visit, fill: seq<Point> -> set<Point>): set<Point>
  {
    if 0 <= v.node < |nodes| && nodes[v.node].contour != [] then
      var poly := fill(nodes[v.node].contour);
      if nodes[v.node].fillColor == 1 then r + poly else Xor(r, poly)
    else r
  }

  /** The region after combining the nodes of a walk into `r`, in walk order. */
  function Assemble(r: set<Point>, nodes: seq<EdgeNode>, walk: seq<Visit>, fill: seq<Point> -> set<Point>)
    : set<Point>
    decreases |walk|
  {
    if walk == [] then r else Assemble(Combine(r, nodes, walk[0], fill), nodes, walk[1..], fill)
  }

  lemma {:induction false} AssembleConcat(r: set<Point>, nodes: seq<EdgeNode>, a: seq<Visit>, b: seq<Visit>,
                                          fill: seq<Point> -> set<Point>)
    ensures Assemble(r, nodes, a + b, fill) == Assemble(Assemble(r, nodes, a, fill), nodes, b, fill)
    decreases |a|
  {
    if a == [] {
      assert a + b == b;
    } else {
      assert (a + b)[0] == a[0] && (a + b)[1..] == a[1..] + b;
      AssembleConcat(Combine(r, nodes, a[0], fill), nodes, a[1..], b, fill);
    }
  }

  /** The union of the polygons of the nodes `o`. */
  function Polygons(nodes: seq<EdgeNode>, o: seq<int>, fill: seq<Point> -> set<Point>): set<Point>
  {
    if o == [] then {}
    else (if 0 <= o[0] < |nodes| then fill(nodes[o[0]].contour) else {}) + Polygons(nodes, o[1..], fill)
  }

  /** Every node of `o` is filled with 1, so addEdge combines each by union. */
  predicate AllUnion(nodes: seq<EdgeNode>, o: seq<int>)
  {
    forall k :: 0 <= k < |o| && 0 <= o[k] < |nodes| ==> nodes[o[k]].fillColor == 1
  }

  /**
   * The assembled region never reaches beyond the starting region and the
   * polygons of the walk's contour owners; when every owner is united in,
   * it is exactly their union with the start.
   */
  lemma {:induction false} AssembleBounds(r: set<Point>, nodes: seq<EdgeNode>, walk: seq<Visit>,
                                          fill: seq<Point> -> set<Point>)
    ensures Assemble(r, nodes, walk, fill) <= r + Polygons(nodes, Owners(nodes, walk), fill)
    ensures AllUnion(nodes, Owners(nodes, walk)) ==>
      Assemble(r, nodes, walk, fill) == r + Polygons(nodes, Owners(nodes, walk), fill)
    decreases |walk|
  {
    if walk != [] {
      var v := walk[0];
      var r1 := Combine(r, nodes, v, fill);
      AssembleBounds(r1, nodes, walk[1..], fill);
      var o, o1 := Owners(nodes, walk), Owners(nodes, walk[1..]);
      if 0 <= v.node < |nodes| && nodes[v.node].contour != [] {
        assert o == [v.node] + o1;
        assert o[0] == v.node && o[1..] == o1;
        if AllUnion(nodes, o) {
          assert nodes[o[0]].fillColor == 1;
          assert forall k :: 0 <= k < |o1| ==> o1[k] == o[k + 1];
        }
      } else {
        assert o == o1;
      }
    }
  }

  // ---------------------------------------------------------------------
  // plotContour and plotBranch (wregion.cpp:173-198)

  /**
   * The points of a contour that plotContour writes: the colour counter
   * starts at `color` and goes up by one with each point, and a point is
   * written when the counter is even.
   */
  function EvenPoints(c: seq<Point>, color: int): seq<Point>
  {
    if c == [] then []
    else EvenPoints(c[..|c| - 1], color) + (if (color + |c| - 1) % 2 == 0 then [c[|c| - 1]] else [])
  }

  /** A point is written exactly when it is the k-th point of the contour for some k of the right parity. */
  lemma {:induction false} EvenPointsMeaning(c: seq<Point>, color: int, p: Point)
    ensures p in EvenPoints(c, color) <==> exists k :: 0 <= k < |c| && c[k] == p && (color + k) % 2 == 0
  {
    if c != [] {
      var n := |c| - 1;
      EvenPointsMeaning(c[..n], color, p);
      if p in EvenPoints(c, color) && p !in EvenPoints(c[..n], color) {
        assert c[n] == p && (color + n) % 2 == 0;
      }
      if exists k :: 0 <= k < |c| && c[k] == p && (color + k) % 2 == 0 {
        var k :| 0 <= k < |c| && c[k] == p && (color + k) % 2 == 0;
        if k < n {
          assert c[..n][k] == p;
        }
      }
    }
  }

  /**
   * plotContour: write `color` as a byte at every even-counted point that
   * lies in the raster; nothing else changes.
   */
  method PlotAlternate(m: array2<bv8>, contour: seq<Point>, color: int)
    modifies m
    ensures forall y, x :: InRaster(m, x, y) ==>
      m[y, x] == if Point(x, y) in EvenPoints(contour, color) then ToByte(color) else old(m[y, x])
  {
    var c := color;
    var i := 0;
    while i < |contour|
      invariant 0 <= i <= |contour| && c == color + i
      invariant forall y, x :: InRaster(m, x, y) ==>
        m[y, x] == if Point(x, y) in EvenPoints(contour[..i], color) then ToByte(color) else old(m[y, x])
    {
      var pt := contour[i];
      assert contour[..i + 1][..i] == contour[..i];
      if 0 <= pt.y < m.Length0 && 0 <= pt.x < m.Length1 {
        if c % 2 == 0 {
          m[pt.y, pt.x] := ToByte(color);
        }
      }
      c := c + 1;
      i := i + 1;
    }
    assert contour[..i] == contour;
  }

  /**
   * The value plotBranch leaves in pixel (x, y) after the visits of a
   * walk, starting from `v0`: the colour `level + 3` of the last visit
   * that writes the pixel.
   */
  function Painted(nodes: seq<EdgeNode>, walk: seq<Visit>, v0: bv8, x: int, y: int): bv8
  {
    if walk == [] then v0
    else
      var v := walk[|walk| - 1];
      if 0 <= v.node < |nodes| && Point(x, y) in EvenPoints(nodes[v.node].contour, v.level + 3) then ToByte(v.level + 3)
      else Painted(nodes, walk[..|walk| - 1], v0, x, y)
  }

  lemma {:induction false} PaintedConcat(nodes: seq<EdgeNode>, a: seq<Visit>, b: seq<Visit>, v0: bv8, x: int, y: int)
    ensures Painted(nodes, a + b, v0, x, y) == Painted(nodes, b, Painted(nodes, a, v0, x, y), x, y)
  {
    if b != [] {
      assert (a + b)[..|a + b| - 1] == a + b[..|b| - 1];
      PaintedConcat(nodes, a, b[..|b| - 1], v0, x, y);
    } else {
      assert a + b == a;
    }
  }

  /**
   * plotBranch: plot the contour of `i` in colour `level + 3`, then each
   * child's branch one level deeper, in sibling order.
   */
  method PlotBranch(m: array2<bv8>, nodes: seq<EdgeNode>, i: int, level: int)
    requires WellLinked(nodes) && 0 <= i < |nodes|
    modifies m
    ensures forall y, x :: InRaster(m, x, y) ==> m[y, x] == Painted(nodes, Walk(nodes, i, level), old(m[y, x]), x, y)
    decreases Rank(nodes, i)
  {
    ghost var m0 := Grid(m);
    if nodes[i].contour != [] {
      PlotAlternate(m, nodes[i].contour, level + 3);
    }
    ghost var done: seq<Visit> := [Visit(i, level)];
    forall y, x | InRaster(m, x, y) ensures m[y, x] == Painted(nodes, done, m0[y][x], x, y) {
      assert done[..0] == [];
    }
    var curr := nodes[i].child;
    while curr != NIL
      invariant Ref(nodes, curr) && (curr == NIL || i < curr)
      invariant done + Branches(nodes, curr, level + 1) == Walk(nodes, i, level)
      invariant PaintedFrom(m, nodes, done, m0)
      decreases Rank(nodes, curr)
    {
      ghost var m1 := Grid(m);
      ghost var walk := Walk(nodes, curr, level + 1);
      assert Branches(nodes, curr, level + 1) == walk + Branches(nodes, nodes[curr].sibling, level + 1);
      PlotBranch(m, nodes, curr, level + 1);
      forall y, x | InRaster(m, x, y)
        ensures m[y, x] == Painted(nodes, done + walk, m0[y][x], x, y)
      {
        PaintedConcat(nodes, done, walk, m0[y][x], x, y);
        assert m1[y][x] == Painted(nodes, done, m0[y][x], x, y);
      }
      done := done + walk;
      curr := nodes[curr].sibling;
    }
    assert done + Branches(nodes, curr, level + 1) == done;
  }

  /** Every mask pixel is what painting the visits of `walk` over the grid `m0` leaves. */
  ghost predicate PaintedFrom(m: array2<bv8>, nodes: seq<EdgeNode>, walk: seq<Visit>, m0: seq<seq<bv8>>)
    reads m
  {
    |m0| == m.Length0 && (forall y :: 0 <= y < |m0| ==> |m0[y]| == m.Length1) &&
    forall y, x :: InRaster(m, x, y) ==> m[y, x] == Painted(nodes, walk, m0[y][x], x, y)
  }


  // ---------------------------------------------------------------------
  // The size gates of extractRegion and extractRegions

  /**
   * extractRegion keeps a contour whose bounding box covers at least 20
   * percent of the image and is at least 16 pixels wide or high
   * (wregion.cpp:443-449).
   */
  predicate Sized(e: Box, w: int, h: int)
  {
    w * h != 0 && Percent(Area(e), w, h) >= 20 &&
    !((e.right - e.left) < 16 && (e.bottom - e.top) < 16)
  }

  /** The area of a bounding box. */
  function Area(e: Box): int
  {
    (e.right - e.left) * (e.bottom - e.top)
  }

  /** `n` pixels as a whole percentage of a `w` by `h` image, truncated as in C. */
  function Percent(n: int, w: int, h: int): int
    requires w * h != 0
  {
    CDiv(n * 100, w * h)
  }

  /** The running totals of extractRegions over the root's children. */
  datatype Extents = Extents(area: int, minX: int, minY: int, maxX: int, maxY: int)

  function Accumulate(s: Extents, e: Box): Extents
  {
    Extents(s.area + (e.right - e.left) * (e.bottom - e.top),
            Min(s.minX, e.left), Min(s.minY, e.top), Max(s.maxX, e.right), Max(s.maxY, e.bottom))
  }

  /** The sibling chain from `c`. */
  function Chain(nodes: seq<EdgeNode>, c: int): (cs: seq<int>)
    requires WellLinked(nodes) && Ref(nodes, c)
    ensures forall k :: 0 <= k < |cs| ==> 0 <= cs[k] < |nodes|
    decreases Rank(nodes, c)
  {
    if c == NIL then [] else [c] + Chain(nodes, nodes[c].sibling)
  }

  /** The totals after the nodes `cs`, starting from `s`. */
  function Gather(nodes: seq<EdgeNode>, cs: seq<int>, s: Extents): Extents
  {
    if cs == [] then s
    else Gather(nodes, cs[1..], Accumulate(s, if 0 <= cs[0] < |nodes| then Bounds(nodes[cs[0]].contour) else Box(0, 0, 0, 0)))
  }

  /**
   * The gathered extents lie outside every gathered box and the start:
   * the minima are at most, the maxima at least, each box's sides.
   */
  lemma {:induction false} GatherBounds(nodes: seq<EdgeNode>, cs: seq<int>, s: Extents)
    requires forall k :: 0 <= k < |cs| ==> 0 <= cs[k] < |nodes|
    ensures var g := Gather(nodes, cs, s);
      g.minX <= s.minX && g.minY <= s.minY && s.maxX <= g.maxX && s.maxY <= g.maxY &&
      forall k :: 0 <= k < |cs| ==>
        var e := Bounds(nodes[cs[k]].contour);
        g.minX <= e.left && g.minY <= e.top && e.right <= g.maxX && e.bottom <= g.maxY
  {
    if cs != [] {
      var s1 := Accumulate(s, Bounds(nodes[cs[0]].contour));
      GatherBounds(nodes, cs[1..], s1);
      assert forall k :: 1 <= k < |cs| ==> cs[k] == cs[1..][k - 1];
    }
  }

  /**
   * extractRegions builds a region when the children of the root span at
   * least 16 pixels in x or in y together, and their bounding boxes add
   * up to at least 10 percent of the image (wregion.cpp:488-516).
   */
  predicate Sizeable(s: Extents, w: int, h: int)
  {
    w * h != 0 && !((s.maxX - s.minX) < 16 && (s.maxY - s.minY) < 16) && Percent(s.area, w, h) >= 10
  }

  /** A contour corner list as the points makeContourPointArray copies out of it. */
  function CornerPoints(corners: seq<PointNode>): (pts: seq<Point>)
    ensures |pts| == |corners|
    ensures forall k :: 0 <= k < |pts| ==> pts[k] == Point(corners[k].x, corners[k].y)
  {
    seq(|corners|, k requires 0 <= k < |corners| => Point(corners[k].x, corners[k].y))
  }

  /** `p` is a nonzero pixel and every pixel before it in raster order is zero. */
  predicate FirstSet(m: array2<bv8>, p: Point)
    reads m
  {
    InRaster(m, p.x, p.y) && m[p.y, p.x] != 0 &&
    forall y, x :: 0 <= y < m.Length0 && 0 <= x < m.Length1 && (y < p.y || (y == p.y && x < p.x)) ==> m[y, x] == 0
  }

  /** The first nonzero pixel of the mask in raster order (wregion.cpp:423-432). */
  method FindStart(m: array2<bv8>) returns (found: bool, x: int, y: int)
    ensures found ==> FirstSet(m, Point(x, y))
    ensures !found ==> forall yy, xx :: InRaster(m, xx, yy) ==> m[yy, xx] == 0
  {
    y := 0;
    while y < m.Length0
      invariant 0 <= y <= m.Length0
      invariant forall yy, xx :: InRaster(m, xx, yy) && yy < y ==> m[yy, xx] == 0
    {
      x := 0;
      while x < m.Length1
        invariant 0 <= x <= m.Length1
        invariant forall xx :: 0 <= xx < x ==> m[y, xx] == 0
      {
        if m[y, x] != 0 {
          return true, x, y;
        }
        x := x + 1;
      }
      y := y + 1;
    }
    return false, 0, y;
  }

  // ---------------------------------------------------------------------
  // The steps of createMask, extractRegion and extractRegions

  /**
   * The mask record createMask allocates (wregion.cpp:237-273): rows of
   * `w` pixels, a line array laid out for rows padded to a multiple of 4
   * bytes, 8 bits per pixel and the mask palette.
   */
  method NewMask(w: int, h: int) returns (m: Llimg)
    requires 0 <= w && 0 <= h
    ensures fresh(m) && m.data != null && fresh(m.data)
    ensures m.data.Length0 == h && m.data.Length1 == w && m.height == h
    ensures m.header == ZERO_HEADER.(width := w, dibHeight := -h, bitsPerPixel := 8)
    ensures m.color == MaskPalette()
    ensures m.logPalette == 0 && m.hPalette == 0 && m.rotation == 0 && m.client == 0 && m.client1 == 0
    ensures LongAligned(w) > 0 ==> m.line.Some? && |m.line.value| == Max(1, h) && RowLayout(m.line.value, LongAligned(w))
  {
    m := new Llimg();
    m.header := m.header.(width := LongAligned(w), dibHeight := -h, bitsPerPixel := 8);
    m.height := h;
    m.data := new bv8[h, w];
    AlignedMaskRow(w);
    m.MakeLineArray();
    m.header := m.header.(width := w);
    m.color := MaskPalette();
  }

  /** The classification loops of createMask (wregion.cpp:277-312), against the seed (xm, ym). */
  method ClassifyImage(src: array2<bv8>, bpp: int, xm: int, ym: int, bgDiff: int, raster: array2<bv8>)
    requires src != raster && (bpp == 8 || bpp == 24) && raster.Length0 == src.Length0
    requires RowBytes(raster.Length1, bpp) <= src.Length1
    requires 0 <= xm < raster.Length1 && 0 <= ym < raster.Length0
    modifies raster
    ensures Grid(raster) == Classified(Grid(src), raster.Length1, raster.Length0, bpp, xm, ym, bgDiff)
  {
    var w := raster.Length1;
    assert bpp == 8 ==> RowBytes(w, bpp) == w;
    assert bpp == 24 ==> RowBytes(w, bpp) == 3 * w;
    if bpp == 8 {
      ClassifyIndexed(src, raster, src[ym, xm] as int);
    } else {
      var x3 := 3 * xm;
      ClassifyTrueColor(src, raster, src[ym, x3], src[ym, x3 + 1], src[ym, x3 + 2], bgDiff);
    }
  }

  /** The clean-up passes of createMask (wregion.cpp:318-396), with `n` erosions. */
  method CleanMask(raster: array2<bv8>, n: int)
    modifies raster
    ensures Grid(raster) == CleanUp(old(Grid(raster)), raster.Length1, n)
    ensures Binary(old(Grid(raster))) ==> Binary(Grid(raster))
  {
    ghost var c := Grid(raster);
    DilateTimes(raster, n);
    GlintPass(raster, 0);
    GlintPass(raster, 1);
    DiagPass(raster, 0, 1);
    DiagPass(raster, 1, 0);
    if Binary(c) {
      CleanUpBinary(c, raster.Length1, n);
    }
  }

  /**
   * The mask createMask makes of `img` (wregion.cpp:234-396): an 8-bit
   * record as wide and high as the image, a top-down header, the mask
   * palette, lines padded to four bytes, and the cleaned-up classification
   * of the image's pixels as its raster, which is then 0/1 throughout.
   */
  ghost predicate MaskOf(m: Llimg, img: Llimg, xm: int, ym: int, bgDiff: int, erosions: int)
    reads m, img, m.data, img.data
  {
    var w, h, bpp := img.header.width, img.height, img.header.bitsPerPixel;
    (bpp == 8 || bpp == 24) && Readable(img, xm, ym) && m.data != null &&
    m.data.Length0 == h && m.data.Length1 == w &&
    m.header.width == w && m.height == h && m.header.dibHeight == -h && m.header.bitsPerPixel == 8 &&
    m.color == MaskPalette() &&
    m.line.Some? && |m.line.value| == Max(1, h) && RowLayout(m.line.value, LongAligned(w)) &&
    Grid(m.data) == CleanUp(Classified(Grid(img.data), w, h, bpp, xm, ym, bgDiff), w, ErosionCount(bpp, img.client1, erosions)) &&
    Binary(Grid(m.data))
  }

  /** The allocation, classification and clean-up steps of createMask (wregion.cpp:234-396). */
  method BuildMask(img: Llimg, xm: int, ym: int, bgDiff: int, erosions: int) returns (m: Llimg)
    requires Maskable(img) && Readable(img, xm, ym)
    ensures fresh(m) && fresh(m.data) && MaskOf(m, img, xm, ym, bgDiff, erosions)
  {
    var bpp, w, h := img.header.bitsPerPixel, img.header.width, img.height;
    m := NewMask(w, h);
    ClassifyImage(img.data, bpp, xm, ym, bgDiff, m.data);
    CleanMask(m.data, ErosionCount(bpp, img.client1, erosions));
  }

  /**
   * The region extractRegion makes from the start pixel `p`: the trace
   * of value 1 from `p`, when it is a contour whose box passes the size
   * gate, filled through its corners.
   */
  function RegionAt(m: array2<bv8>, p: Point, fill: seq<Point> -> set<Point>): Option<set<Point>>
    reads m
  {
    var t := Traced(m, p.x, p.y, 1);
    if t.Contour? && |t.points| >= 3 && Sized(Bounds(t.points), m.Length1, m.Length0) then
      Some(fill(CornerPoints(CornersOf(t.points))))
    else None
  }

  /** There is only one first nonzero pixel. */
  lemma FirstSetUnique(m: array2<bv8>, p: Point, q: Point)
    requires FirstSet(m, p) && FirstSet(m, q)
    ensures p == q
  {
  }

  /**
   * The body of extractRegion past its gates (wregion.cpp:423-461): trace
   * from the first nonzero pixel with value 1 and, when the contour's box
   * passes the size gate, the region of the polygon through its corners.
   */
  method TraceRegion(m: array2<bv8>, fill: seq<Point> -> set<Point>)
    returns (region: Option<set<Point>>, ghost traced: seq<Point>)
    requires m.Length0 != 0 && m.Length1 != 0
    ensures (forall y, x :: InRaster(m, x, y) ==> m[y, x] == 0) ==> region == None
    ensures region.Some? ==>
      ClosedPath(traced) && NoReversal(traced) && FirstSet(m, traced[0]) &&
      Sized(Bounds(traced), m.Length1, m.Length0) &&
      region.value == fill(CornerPoints(CornersOf(traced)))
    ensures forall p :: FirstSet(m, p) ==> region == RegionAt(m, p, fill)
  {
    region, traced := None, [];
    var found, x, y := FindStart(m);
    if !found {
      return;
    }
    forall p | FirstSet(m, p) ensures p == Point(x, y) {
      FirstSetUnique(m, p, Point(x, y));
    }
    var trace := TraceContour(m, x, y, 1);
    if !trace.Contour? {
      return;
    }
    var contour := trace.points;
    var perim, l, t, r, b := MeasureContour(contour);
    PositiveProduct(m.Length1, m.Length0);
    var ratio := Percent(Area(Box(l, t, r, b)), m.Length1, m.Length0);
    if ratio < 20 {
      return;
    }
    if (r - l) < 16 && (b - t) < 16 {
      return;
    }
    assert Bounds(contour) == Box(l, t, r, b) && Sized(Box(l, t, r, b), m.Length1, m.Length0);
    var corners, nCorners := ExtractCorners(contour);
    var poly, nPts := MakeContourPointArray(CornerPoints(corners));
    region := Some(fill(if poly == null then [] else poly[..]));
    traced := contour;
  }

  /**
   * The build step of extractRegions (wregion.cpp:480-485): a fresh tree
   * with one root, grown over the mask down to `limit` levels with the
   * counter starting at 0.
   */
  method GrowTree(m: array2<bv8>, limit: int) returns (t: Arena, err: int, client': int)
    modifies m
    ensures fresh(t) && ValidTree(t.nodes, m.Length1, m.Length0)
    ensures |t.nodes| > 0 && t.nodes[0].parent == NIL && t.nodes[0].sibling == NIL
    ensures err in {0, 2, 3, 4} && 1 <= client' && (err == 0 ==> client' <= 1000)
    ensures MarkedFrom(old(Grid(m)), Grid(m))
  {
    t := new Arena();
    var root := t.NewRoot();
    err, client' := BuildChildEdgeTree(t, m, 0, root, limit, 0);
  }

  /** The loop of extractRegions over the root's children (wregion.cpp:500-509). */
  method ChildExtents(nodes: seq<EdgeNode>, c: int, w: int, h: int) returns (s: Extents)
    requires WellLinked(nodes) && Ref(nodes, c)
    ensures s == Gather(nodes, Chain(nodes, c), Extents(0, w, h, 0, 0))
  {
    s := Extents(0, w, h, 0, 0);
    var curr := c;
    while curr != NIL
      invariant Ref(nodes, curr)
      invariant Gather(nodes, Chain(nodes, curr), s) == Gather(nodes, Chain(nodes, c), Extents(0, w, h, 0, 0))
      decreases Rank(nodes, curr)
    {
      var p, l, top, r, b := MeasureContour(nodes[curr].contour);
      var rest := Chain(nodes, nodes[curr].sibling);
      assert Chain(nodes, curr) == [curr] + rest && ([curr] + rest)[0] == curr && ([curr] + rest)[1..] == rest;
      s := Accumulate(s, Box(l, top, r, b));
      curr := nodes[curr].sibling;
    }
  }

  /**
   * What extractRegions leaves for a `w` by `h` mask whose tree has the
   * nodes `nodes`: a valid tree, the build's result `err` and call counter
   * `client`, the contour count `edges` (0 when the build gave up past 1000 calls),
   * and a region exactly when the count is positive and the root's
   * children pass the size gate, the region then combining every contour
   * of the tree, `edges` of them.
   */
  ghost predicate Extracted(nodes: seq<EdgeNode>, w: int, h: int, err: int, client: int, edges: int,
                            region: Option<set<Point>>, fill: seq<Point> -> set<Point>)
  {
    ValidTree(nodes, w, h) && |nodes| > 0 && nodes[0].sibling == NIL &&
    err in {0, 2, 3, 4} && 1 <= client && (err == 0 ==> client <= 1000) &&
    edges == (if err == 3 then 0 else NodeCount(nodes, 0)) &&
    (region.Some? <==>
       err != 3 && edges != 0 && Sizeable(Gather(nodes, Chain(nodes, nodes[0].child), Extents(0, w, h, 0, 0)), w, h)) &&
    (region.Some? ==>
       region == Some(Assemble({}, nodes, Walk(nodes, 0, 0), fill)) && |Owners(nodes, Walk(nodes, 0, 0))| == edges)
  }

  /**
   * extractRegions past its gates, up to buildRegion (wregion.cpp:485-514):
   * grow a fresh tree, count its contours and apply the size gate to the
   * root's children. Nothing is counted when the build gave up past 1000 calls (3).
   */
  method GrowAndGate(m: array2<bv8>, limit: int)
    returns (t: Arena, err: int, client': int, edges: int, sized: bool)
    requires m.Length0 > 0 && m.Length1 > 0
    modifies m
    ensures fresh(t) && ValidTree(t.nodes, m.Length1, m.Length0)
    ensures |t.nodes| > 0 && t.nodes[0].parent == NIL && t.nodes[0].sibling == NIL
    ensures err in {0, 2, 3, 4} && 1 <= client' && (err == 0 ==> client' <= 1000)
    ensures MarkedFrom(old(Grid(m)), Grid(m))
    ensures edges == (if err == 3 then 0 else NodeCount(t.nodes, 0))
    ensures sized <==>
      err != 3 && edges != 0 &&
      Sizeable(Gather(t.nodes, Chain(t.nodes, t.nodes[0].child), Extents(0, m.Length1, m.Length0, 0, 0)), m.Length1, m.Length0)
  {
    t, err, client' := GrowTree(m, limit);
    edges, sized := 0, false;
    if err == 3 {
      return;
    }
    edges := NodeCount(t.nodes, 0);
    if edges == 0 {
      return;
    }
    sized := ChildrenSized(t.nodes, m.Length1, m.Length0);
  }

  /**
   * The size gate of extractRegions (wregion.cpp:497-514): the root's
   * children together must span at least 16 pixels in one direction and
   * cover at least 10 percent of the image.
   */
  method ChildrenSized(nodes: seq<EdgeNode>, w: int, h: int) returns (sized: bool)
    requires WellLinked(nodes) && |nodes| > 0 && w > 0 && h > 0
    ensures sized == Sizeable(Gather(nodes, Chain(nodes, nodes[0].child), Extents(0, w, h, 0, 0)), w, h)
  {
    var s := ChildExtents(nodes, nodes[0].child, w, h);
    PositiveProduct(w, h);
    var ratio := Percent(s.area, w, h);
    if (s.maxX - s.minX) < 16 && (s.maxY - s.minY) < 16 {
      return false;
    }
    if ratio < 10 {
      return false;
    }
    return true;
  }

  // ---------------------------------------------------------------------
  // The WRegion object

  class WRegion {
    var mask: Llimg?
    var tree: Arena?
    var edges: int
    var region: Option<set<Point>>

    /**
     * A mask is an 8-bit raster of `height` rows of `width` pixels; a tree
     * has its root at index 0, with no parent and no sibling.
     */
    predicate Valid()
      reads this, mask, tree
    {
      (mask != null ==>
        mask.data != null && mask.data.Length0 == mask.height && mask.data.Length1 == mask.header.width &&
        mask.header.bitsPerPixel == 8) &&
      (tree != null ==>
        WellLinked(tree.nodes) && |tree.nodes| > 0 && tree.nodes[0].parent == NIL && tree.nodes[0].sibling == NIL)
    }

    /** The extraction gates: a mask exists, is not empty and has 8 bits per pixel. */
    predicate HasMask()
      reads this, mask
    {
      mask != null && mask.header.width != 0 && mask.height != 0 && mask.header.bitsPerPixel == 8
    }

    /** WRegion() (wregion.cpp:203-211). */
    constructor ()
      ensures mask == null && tree == null && edges == 0 && region == None
      ensures Valid()
    {
      mask, tree, edges, region := null, null, 0, None;
    }

    /** extractedOK (wregion.h:42): 1 exactly when a region has been built. */
    function ExtractedOK(): (ok: int)
      reads this
      ensures ok == 1 <==> region.Some?
      ensures ok == 0 <==> region.None?
    {
      if region.Some? then 1 else 0
    }

    /**
     * createMask: classify the image against its seed pixel (xm, ym) into
     * a 0/1 mask, erode 24-bit images of low quality `erosions` times,
     * then remove glints and diagonal patterns. `bgDiff` and `erosions`
     * are the program options the source reads.
     */
    method CreateMask(img: Llimg?, xm: int, ym: int, bgDiff: int, erosions: int)
      requires Valid() && (img == null || img != mask)
      requires Maskable(img) && img.data != null ==> Readable(img, xm, ym)
      modifies this
      ensures Valid() && tree == old(tree) && region == old(region) && edges == old(edges)
      ensures !Maskable(img) || img.data == null ==> mask == null
      ensures Maskable(img) && img.data != null ==>
        mask != null && fresh(mask) && fresh(mask.data) && MaskOf(mask, img, xm, ym, bgDiff, erosions)
    {
      mask := null;
      if img == null || (img.header.bitsPerPixel != 8 && img.header.bitsPerPixel != 24) {
        return;
      }
      if img.data == null {
        return;
      }
      mask := BuildMask(img, xm, ym, bgDiff, erosions);
    }

    /** applyRegion (wregion.cpp:590-600): the window takes the region, which is then no longer held. */
    method ApplyRegion() returns (applied: Option<set<Point>>)
      modifies this
      ensures applied == old(region) && region == None
      ensures mask == old(mask) && tree == old(tree) && edges == old(edges)
    {
      applied := region;
      region := None;
    }

    /**
     * addEdge (wregion.cpp:567-586): combine the polygon of `i`'s contour,
     * if it has one, then the branches of its children in sibling order.
     */
    method AddEdge(nodes: seq<EdgeNode>, i: int, fill: seq<Point> -> set<Point>, ghost level: int)
      requires WellLinked(nodes) && 0 <= i < |nodes| && region.Some?
      modifies this
      ensures region == Some(Assemble(old(region.value), nodes, Walk(nodes, i, level), fill))
      ensures mask == old(mask) && tree == old(tree) && edges == old(edges)
      decreases Rank(nodes, i)
    {
      var n := nodes[i];
      if n.contour != [] {
        var pts, nPts := MakeContourPointArray(n.contour);
        var poly := fill(pts[..]);
        if n.fillColor == 1 {
          region := Some(region.value + poly);
        } else {
          region := Some(Xor(region.value, poly));
        }
      }
      ghost var target := Assemble(old(region.value), nodes, Walk(nodes, i, level), fill);
      var curr := n.child;
      while curr != NIL
        invariant Ref(nodes, curr) && (curr == NIL || i < curr)
        invariant region.Some? && Assemble(region.value, nodes, Branches(nodes, curr, level + 1), fill) == target
        invariant mask == old(mask) && tree == old(tree) && edges == old(edges)
        decreases Rank(nodes, curr)
      {
        AssembleConcat(region.value, nodes, Walk(nodes, curr, level + 1), Branches(nodes, nodes[curr].sibling, level + 1), fill);
        AddEdge(nodes, curr, fill, level + 1);
        curr := nodes[curr].sibling;
      }
    }

    /**
     * buildRegion (wregion.cpp:549-563): start from the empty region and
     * add the whole tree from its root.
     */
    method BuildRegion(fill: seq<Point> -> set<Point>)
      requires Valid() && tree != null
      modifies this
      ensures Valid() && mask == old(mask) && tree == old(tree) && edges == old(edges)
      ensures region == Some(Assemble({}, tree.nodes, Walk(tree.nodes, 0, 0), fill))
    {
      region := Some({});
      AddEdge(tree.nodes, 0, fill, 0);
    }

    /**
     * extractRegion (wregion.cpp:403-462): trace the contour from the first
     * nonzero mask pixel and, when its bounding box passes the size gate,
     * make the region of the polygon through its corners. `traced` is the
     * contour the region came from.
     */
    method ExtractRegion(fill: seq<Point> -> set<Point>) returns (ghost traced: seq<Point>)
      requires Valid()
      modifies this
      ensures Valid() && mask == old(mask) && tree == old(tree) && edges == old(edges)
      ensures !HasMask() ==> region == None
      ensures HasMask() && (forall y, x :: InRaster(mask.data, x, y) ==> mask.data[y, x] == 0) ==> region == None
      ensures region.Some? ==>
        HasMask() && ClosedPath(traced) && NoReversal(traced) && FirstSet(mask.data, traced[0]) &&
        Sized(Bounds(traced), mask.header.width, mask.height) &&
        region.value == fill(CornerPoints(CornersOf(traced)))
      ensures HasMask() ==> forall p :: FirstSet(mask.data, p) ==> region == RegionAt(mask.data, p, fill)
    {
      region := None;
      traced := [];
      if mask == null || mask.header.width == 0 || mask.height == 0 || mask.header.bitsPerPixel != 8 {
        return;
      }
      region, traced := TraceRegion(mask.data, fill);
    }

    /**
     * extractRegions (wregion.cpp:467-523): build a fresh edge tree of the
     * mask down to `limit` levels, count its contours into `edges` and,
     * when the root's children pass the size gate, build the region of
     * the whole tree. `err` is the build's result; `mask.client` ends as
     * the build's call counter.
     */
    method ExtractRegions(limit: int, fill: seq<Point> -> set<Point>) returns (ghost err: int)
      requires Valid()
      modifies this, mask, if mask == null then null else mask.data
      ensures Valid() && mask == old(mask)
      ensures mask != null ==> mask.header == old(mask.header) && mask.height == old(mask.height) && mask.data == old(mask.data)
      ensures !old(HasMask()) ==> region == None && tree == old(tree) && edges == old(edges)
      ensures old(HasMask()) ==>
        tree != null && fresh(tree) && MarkedFrom(old(Grid(mask.data)), Grid(mask.data)) &&
        Extracted(tree.nodes, mask.header.width, mask.height, err, mask.client, edges, region, fill)
      ensures region.Some? ==> old(HasMask())
    {
      region := None;
      err := 0;
      if mask == null || mask.header.width == 0 || mask.height == 0 || mask.header.bitsPerPixel != 8 {
        return;
      }
      err := Regrow(limit, fill);
    }

    /** extractRegions past its gates (wregion.cpp:481-522). */
    method Regrow(limit: int, fill: seq<Point> -> set<Point>) returns (ghost err: int)
      requires Valid() && HasMask() && region == None
      modifies this, mask, mask.data
      ensures Valid() && mask == old(mask)
      ensures mask.header == old(mask.header) && mask.height == old(mask.height) && mask.data == old(mask.data)
      ensures tree != null && fresh(tree) && MarkedFrom(old(Grid(mask.data)), Grid(mask.data))
      ensures Extracted(tree.nodes, mask.header.width, mask.height, err, mask.client, edges, region, fill)
    {
      var w, h := mask.header.width, mask.height;
      edges := 0;
      mask.client := 0;
      var t, status, client', n, sized := GrowAndGate(mask.data, limit);
      ghost var marked := Grid(mask.data);
      tree := t;
      err := status;
      mask.client := client';
      edges := n;
      if sized {
        BuildRegion(fill);
        assert tree == t && Grid(mask.data) == marked;
        WalkCount(t.nodes, 0, 0);
      }
      assert Extracted(t.nodes, w, h, status, client', n, region, fill);
    }

    /**
     * plotTreeToMask (wregion.cpp:527-531): plot the tree's contours into
     * the mask. With a mask but no tree the source dereferences a null
     * root in plotBranch (wregion.cpp:193); the model leaves the mask
     * as it is there.
     */
    method PlotTreeToMask()
      requires Valid()
      modifies if mask == null then null else mask.data
      ensures mask != null && tree != null ==> forall y, x :: InRaster(mask.data, x, y) ==>
        mask.data[y, x] == Painted(tree.nodes, Walk(tree.nodes, 0, 0), old(mask.data[y, x]), x, y)
      ensures mask != null && tree == null ==> unchanged(mask.data)
    {
      if mask == null || tree == null {
        return;
      }
      PlotBranch(mask.data, tree.nodes, 0, 0);
    }

    /**
     * ~WRegion (wregion.cpp:215-222): release the mask, tear the tree
     * down and delete the region. The results say what is freed, in
     * order, and whether a region was deleted.
     */
    method Dispose() returns (maskFreed: seq<Freed>, nodesFreed: seq<int>, regionDeleted: bool)
      requires Valid()
      ensures mask == null ==> maskFreed == []
      ensures mask != null ==>
        |maskFreed| >= 1 && maskFreed[|maskFreed| - 1] == Record &&
        RasterData in maskFreed && (LineArray in maskFreed <==> mask.line.Some?)
      ensures tree == null ==> nodesFreed == []
      ensures tree != null ==> nodesFreed == DeleteOrder(tree.nodes, 0) && Postorder(tree.nodes, nodesFreed)
      ensures regionDeleted <==> region.Some?
    {
      maskFreed := Release(mask);
      nodesFreed := [];
      if tree != null {
        nodesFreed := DeleteOrder(tree.nodes, 0);
        DeleteOrderPostorder(tree.nodes, 0);
      }
      regionDeleted := region.Some?;
    }
  }
}
