/**
 * The "corner parity" scanline sweep of contour.cpp: corners sorted by
 * (y, x), an active list of x positions kept sorted by pn_insert and
 * pn_remove, and per scanline the half-open spans between consecutive
 * active entries. llimg_fillContour paints those spans and
 * llimg_markContour marks and measures them.
 */
module Scan {
  import opened Common
  import opened Contour

  // ---------------------------------------------------------------------
  // Ordering the corners (comp_corners and qsort, contour.cpp:294-305, 456)

  /** `a` comes no later than `b` in (y major, x minor) order. */
  predicate YXLe(a: PointNode, b: PointNode)
  {
    a.y < b.y || (a.y == b.y && a.x <= b.x)
  }

  /** comp_corners: 1 when `a` is at or after `b` in (y, x) order, else -1; never 0. */
  function CompCorners(a: PointNode, b: PointNode): (r: int)
    ensures r == 1 || r == -1
    ensures r == 1 <==> YXLe(b, a)
  {
    if a.y > b.y || (a.y == b.y && a.x >= b.x) then 1 else -1
  }

  /** comp_corners is a consistent order: -1 one way means 1 the other, and it is transitive. */
  lemma CompCornersOrder(a: PointNode, b: PointNode, c: PointNode)
    ensures CompCorners(a, b) == -1 ==> CompCorners(b, a) == 1
    ensures CompCorners(a, b) == 1 && CompCorners(b, c) == 1 ==> CompCorners(a, c) == 1
  {
  }

  predicate SortedYX(s: seq<PointNode>)
  {
    forall i, j :: 0 <= i < j < |s| ==> YXLe(s[i], s[j])
  }

  /** Insert `c` into `s` after the leading entries that compare at or before it. */
  function InsertCorner(s: seq<PointNode>, c: PointNode): (r: seq<PointNode>)
    ensures |r| == |s| + 1
  {
    if s == [] then [c]
    else if CompCorners(c, s[0]) == -1 then [c] + s
    else [s[0]] + InsertCorner(s[1..], c)
  }

  /** Inserting into a sorted sequence keeps it sorted and adds exactly `c`. */
  lemma {:induction false} InsertCornerSorted(s: seq<PointNode>, c: PointNode)
    requires SortedYX(s)
    ensures SortedYX(InsertCorner(s, c))
    ensures multiset(InsertCorner(s, c)) == multiset(s) + multiset{c}
  {
    InsertCornerPerm(s, c);
    if s != [] && CompCorners(c, s[0]) != -1 {
      var t := InsertCorner(s[1..], c);
      InsertCornerSorted(s[1..], c);
      InsertCornerAbove(s[1..], c, s[0]);
      SortedCons(s[0], t);
    }
  }

  lemma SortedCons(a: PointNode, t: seq<PointNode>)
    requires SortedYX(t) && forall i :: 0 <= i < |t| ==> YXLe(a, t[i])
    ensures SortedYX([a] + t)
  {
    var r := [a] + t;
    forall i, j | 0 <= i < j < |r| ensures YXLe(r[i], r[j]) {
      assert r[j] == t[j - 1];
      if i > 0 {
        assert r[i] == t[i - 1];
      }
    }
  }

  lemma {:induction false} InsertCornerPerm(s: seq<PointNode>, c: PointNode)
    ensures multiset(InsertCorner(s, c)) == multiset(s) + multiset{c}
  {
    if s != [] && CompCorners(c, s[0]) != -1 {
      InsertCornerPerm(s[1..], c);
      assert s == [s[0]] + s[1..];
      assert multiset(s) == multiset{s[0]} + multiset(s[1..]);
      assert multiset(InsertCorner(s, c)) == multiset{s[0]} + multiset(InsertCorner(s[1..], c));
    }
  }

  /** A lower bound of `c` and of every entry of `s` bounds the insertion. */
  lemma {:induction false} InsertCornerAbove(s: seq<PointNode>, c: PointNode, b: PointNode)
    requires YXLe(b, c) && forall i :: 0 <= i < |s| ==> YXLe(b, s[i])
    ensures forall i :: 0 <= i < |InsertCorner(s, c)| ==> YXLe(b, InsertCorner(s, c)[i])
  {
    if s != [] && CompCorners(c, s[0]) != -1 {
      InsertCornerAbove(s[1..], c, b);
      var t := InsertCorner(s[1..], c);
      forall i | 0 < i < |t| + 1 ensures YXLe(b, ([s[0]] + t)[i]) {
        assert ([s[0]] + t)[i] == t[i - 1];
      }
    } else if s != [] {
      forall i | 0 < i < |s| + 1 ensures YXLe(b, ([c] + s)[i]) {
        assert ([c] + s)[i] == s[i - 1];
      }
    }
  }

  /**
   * The qsort of the corner pointers by comp_corners, as a stable
   * insertion sort. comp_corners never reports equality, so the order
   * qsort gives corners at the same point is not determined by the
   * source; this model keeps them in extraction order.
   */
  function SortCorners(s: seq<PointNode>): (r: seq<PointNode>)
    ensures SortedYX(r) && multiset(r) == multiset(s) && |r| == |s|
  {
    if s == [] then []
    else
      assert s == s[..|s| - 1] + [s[|s| - 1]];
      InsertCornerSorted(SortCorners(s[..|s| - 1]), s[|s| - 1]);
      InsertCorner(SortCorners(s[..|s| - 1]), s[|s| - 1])
  }

  // ---------------------------------------------------------------------
  // The active list (pn_insert, pn_remove, contour.cpp:310-373)

  predicate SortedX(l: seq<PointNode>)
  {
    forall i, j :: 0 <= i < j < |l| ==> l[i].x <= l[j].x
  }

  /** Where pn_insert puts an entry with x `x`: before the first entry with a larger x. */
  function InsertPos(l: seq<PointNode>, x: int): (k: int)
    ensures 0 <= k <= |l|
    ensures forall i :: 0 <= i < k ==> l[i].x <= x
    ensures k < |l| ==> l[k].x > x
  {
    if l == [] || l[0].x > x then 0 else 1 + InsertPos(l[1..], x)
  }

  function Inserted(l: seq<PointNode>, c: PointNode): seq<PointNode>
  {
    var k := InsertPos(l, c.x);
    l[..k] + [c] + l[k..]
  }

  /**
   * pn_insert: link a copy of `c` into the list before the first entry
   * whose x is larger (at the head when `c` is left of every entry).
   */
  method PnInsert(c: PointNode, l: seq<PointNode>) returns (r: seq<PointNode>)
    ensures r == Inserted(l, c)
  {
    var curr := PointNode(c.x, c.y, c.kind);
    if l == [] {
      return [curr];
    }
    if curr.x < l[0].x {
      return [curr] + l;
    }
    var trav := 0;
    while trav < |l| && l[trav].x <= curr.x
      invariant 0 <= trav <= |l|
      invariant forall i :: 0 <= i < trav ==> l[i].x <= curr.x
    {
      trav := trav + 1;
    }
    InsertPosUnique(l, c.x, trav);
    r := l[..trav] + [curr] + l[trav..];
  }

  /** The insertion point is the only index with its two defining properties. */
  lemma InsertPosUnique(l: seq<PointNode>, x: int, k: int)
    requires 0 <= k <= |l|
    requires forall i :: 0 <= i < k ==> l[i].x <= x
    requires k < |l| ==> l[k].x > x
    ensures k == InsertPos(l, x)
  {
  }

  /** Entry `i` of the list after an insertion at `k`. */
  lemma InsertedAt(l: seq<PointNode>, c: PointNode, i: int)
    requires 0 <= i <= |l|
    ensures var k := InsertPos(l, c.x);
      Inserted(l, c)[i] == if i < k then l[i] else if i == k then c else l[i - 1]
  {
  }

  /** Inserting keeps the list sorted by x and adds exactly the new entry. */
  lemma InsertedSorted(l: seq<PointNode>, c: PointNode)
    requires SortedX(l)
    ensures SortedX(Inserted(l, c))
    ensures multiset(Inserted(l, c)) == multiset(l) + multiset{c}
  {
    var r := Inserted(l, c);
    forall i, j | 0 <= i < j < |r| ensures r[i].x <= r[j].x {
      InsertedAt(l, c, i);
      InsertedAt(l, c, j);
    }
    InsertedPerm(l, c);
  }

  lemma InsertedPerm(l: seq<PointNode>, c: PointNode)
    ensures multiset(Inserted(l, c)) == multiset(l) + multiset{c}
  {
    var k := InsertPos(l, c.x);
    assert l == l[..k] + l[k..];
  }

  /** Where pn_remove finds an entry with x `x`: the first such, or |l| if none. */
  function FindX(l: seq<PointNode>, x: int): (k: int)
    ensures 0 <= k <= |l|
    ensures forall i :: 0 <= i < k ==> l[i].x != x
    ensures k < |l| ==> l[k].x == x
  {
    if l == [] || l[0].x == x then 0 else 1 + FindX(l[1..], x)
  }

  function Removed(l: seq<PointNode>, x: int): seq<PointNode>
  {
    var k := FindX(l, x);
    if k < |l| then l[..k] + l[k + 1..] else l
  }

  /**
   * pn_remove: unlink the first entry whose x equals `c.x` and return 1;
   * return 0 and leave the list alone when there is none.
   */
  method PnRemove(c: PointNode, l: seq<PointNode>) returns (r: seq<PointNode>, found: int)
    ensures found == 1 <==> exists i :: 0 <= i < |l| && l[i].x == c.x
    ensures found == 0 || found == 1
    ensures r == Removed(l, c.x)
  {
    if l == [] {
      return l, 0;
    }
    if c.x == l[0].x {
      return l[1..], 1;
    }
    var trav := 0;
    while trav < |l| && l[trav].x != c.x
      invariant 0 <= trav <= |l|
      invariant forall i :: 0 <= i < trav ==> l[i].x != c.x
    {
      trav := trav + 1;
    }
    FindXUnique(l, c.x, trav);
    if trav < |l| {
      return l[..trav] + l[trav + 1..], 1;
    }
    return l, 0;
  }

  lemma FindXUnique(l: seq<PointNode>, x: int, k: int)
    requires 0 <= k <= |l|
    requires forall i :: 0 <= i < k ==> l[i].x != x
    requires k < |l| ==> l[k].x == x
    ensures k == FindX(l, x)
  {
  }

  /** Entry `i` of the list after the removal of entry `k`. */
  lemma RemovedAt(l: seq<PointNode>, x: int, i: int)
    requires FindX(l, x) < |l| && 0 <= i < |l| - 1
    ensures Removed(l, x)[i] == if i < FindX(l, x) then l[i] else l[i + 1]
  {
  }

  /** Removing keeps the list sorted by x and takes away at most the one entry. */
  lemma RemovedSorted(l: seq<PointNode>, x: int)
    requires SortedX(l)
    ensures SortedX(Removed(l, x))
    ensures FindX(l, x) < |l| ==> multiset(Removed(l, x)) == multiset(l) - multiset{l[FindX(l, x)]}
  {
    var k := FindX(l, x);
    if k < |l| {
      var r := Removed(l, x);
      forall i, j | 0 <= i < j < |r| ensures r[i].x <= r[j].x {
        RemovedAt(l, x, i);
        RemovedAt(l, x, j);
      }
      RemovedPerm(l, x);
    }
  }

  lemma RemovedPerm(l: seq<PointNode>, x: int)
    requires FindX(l, x) < |l|
    ensures multiset(Removed(l, x)) == multiset(l) - multiset{l[FindX(l, x)]}
  {
    DropPerm(l, FindX(l, x));
  }

  /** Dropping entry `k` of a sequence takes exactly that entry out of its multiset. */
  lemma DropPerm<T>(l: seq<T>, k: int)
    requires 0 <= k < |l|
    ensures multiset(l[..k] + l[k + 1..]) == multiset(l) - multiset{l[k]}
  {
    assert l == l[..k] + [l[k]] + l[k + 1..];
  }

  // ---------------------------------------------------------------------
  // The sweep (contour.cpp:458-497, repeated at 556-600 and 729-788)

  /** Rows never decrease along `s`: what the sweep needs of the sorted corners. */
  predicate SortedY(s: seq<PointNode>)
  {
    forall i, j :: 0 <= i < j < |s| ==> s[i].y <= s[j].y
  }

  lemma SortedYXIsSortedY(s: seq<PointNode>)
    requires SortedYX(s)
    ensures SortedY(s)
  {
  }

  /** A TOP corner inserts itself into the active list; any other corner removes its x. */
  function Apply(active: seq<PointNode>, c: PointNode): seq<PointNode>
  {
    if c.kind == TYPE_TOP then Inserted(active, c) else Removed(active, c.x)
  }

  /** The active list after applying the corners `cs` in order to an empty list. */
  function ApplyAll(cs: seq<PointNode>): seq<PointNode>
  {
    if cs == [] then [] else Apply(ApplyAll(cs[..|cs| - 1]), cs[|cs| - 1])
  }

  /** The number of leading corners on rows up to `y`. */
  function RowEnd(s: seq<PointNode>, y: int): (k: int)
    ensures 0 <= k <= |s|
    ensures forall i :: 0 <= i < k ==> s[i].y <= y
    ensures k < |s| ==> s[k].y > y
  {
    if s == [] || s[0].y > y then 0 else 1 + RowEnd(s[1..], y)
  }

  lemma RowEndUnique(s: seq<PointNode>, y: int, k: int)
    requires 0 <= k <= |s|
    requires forall i :: 0 <= i < k ==> s[i].y <= y
    requires k < |s| ==> s[k].y > y
    ensures k == RowEnd(s, y)
  {
  }

  /** The active list while row `y` is scanned: every corner on rows up to `y` applied. */
  function Active(s: seq<PointNode>, y: int): seq<PointNode>
  {
    ApplyAll(s[..RowEnd(s, y)])
  }

  /** A half-open run [xs, xe) of row y. */
  datatype Span = Span(y: int, xs: int, xe: int)

  /** The spans of row `y`: entries 0 and 1 of the active list, 2 and 3, ...; an odd last entry is dropped. */
  function Pairs(y: int, a: seq<PointNode>): (r: seq<Span>)
    ensures |r| == |a| / 2
    ensures forall i :: 0 <= i < |r| ==> r[i] == Span(y, a[2 * i].x, a[2 * i + 1].x)
  {
    if |a| < 2 then [] else [Span(y, a[0].x, a[1].x)] + Pairs(y, a[2..])
  }

  /** The spans of rows `y0` .. `y - 1`, row by row. */
  function RowsBelow(s: seq<PointNode>, y0: int, y: int): seq<Span>
    decreases y - y0
  {
    if y <= y0 then [] else RowsBelow(s, y0, y - 1) + Pairs(y - 1, Active(s, y - 1))
  }

  /**
   * Every span the sweep produces from the sorted corner list `s`: one
   * row per y from the first corner's row to the last corner's row.
   */
  function AllSpans(s: seq<PointNode>): seq<Span>
  {
    if s == [] then [] else RowsBelow(s, s[0].y, s[|s| - 1].y + 1)
  }

  lemma PairsExtend(y: int, a: seq<PointNode>, k: int)
    requires 0 <= k && k + 2 <= |a| && k % 2 == 0
    ensures Pairs(y, a[..k + 2]) == Pairs(y, a[..k]) + [Span(y, a[k].x, a[k + 1].x)]
  {
  }

  lemma PairsAll(y: int, a: seq<PointNode>, k: int)
    requires 0 <= k <= |a| && k % 2 == 0 && k + 1 >= |a|
    ensures Pairs(y, a[..k]) == Pairs(y, a)
  {
  }

  lemma ApplyAllStep(s: seq<PointNode>, i: int)
    requires 0 <= i < |s|
    ensures ApplyAll(s[..i + 1]) == Apply(ApplyAll(s[..i]), s[i])
  {
    assert s[..i + 1][..i] == s[..i];
  }

  /**
   * The first inner loop of the sweep: apply every corner of row `y`,
   * from index `i` on, to the active list.
   */
  method ApplyRow(s: seq<PointNode>, i0: int, y: int, active0: seq<PointNode>)
    returns (i: int, active: seq<PointNode>)
    requires SortedY(s) && 0 <= i0 <= |s| && active0 == ApplyAll(s[..i0])
    requires forall k :: 0 <= k < i0 ==> s[k].y <= y
    requires i0 < |s| ==> y <= s[i0].y
    ensures i == RowEnd(s, y) && active == ApplyAll(s[..i])
  {
    i, active := i0, active0;
    while i < |s| && s[i].y == y
      invariant i0 <= i <= |s|
      invariant forall k :: 0 <= k < i ==> s[k].y <= y
      invariant i < |s| ==> y <= s[i].y
      invariant active == ApplyAll(s[..i])
    {
      assert i + 1 < |s| ==> s[i].y <= s[i + 1].y;
      ApplyAllStep(s, i);
      active := ApplyCorner(s[i], active);
      i := i + 1;
    }
    RowEndUnique(s, y, i);
  }

  /** One corner of the sweep: a Top corner is inserted, any other removed (contour.cpp:466-476). */
  method ApplyCorner(c: PointNode, active0: seq<PointNode>) returns (active: seq<PointNode>)
    ensures active == Apply(active0, c)
  {
    if c.kind == TYPE_TOP {
      active := PnInsert(c, active0);
    } else {
      var found;
      active, found := PnRemove(c, active0);
    }
  }

  /**
   * The second inner loop of the sweep: walk the active list two entries
   * at a time; an entry without a partner ends the row (the source's
   * "scan parity violated" break).
   */
  method PairUp(y: int, active: seq<PointNode>) returns (row: seq<Span>)
    ensures row == Pairs(y, active)
  {
    var k := 0;
    row := [];
    while k < |active|
      invariant 0 <= k <= |active| && k % 2 == 0
      invariant row == Pairs(y, active[..k])
      decreases |active| - k
    {
      var xStart := active[k].x;
      if k + 1 >= |active| {
        break;
      }
      var xEnd := active[k + 1].x;
      PairsExtend(y, active, k);
      row := row + [Span(y, xStart, xEnd)];
      k := k + 2;
    }
    PairsAll(y, active, k);
  }

  /** The sweep's state before row `y`: corners `s[..i]` applied, rows `y0` .. `y - 1` spanned. */
  predicate Sweeping(s: seq<PointNode>, y0: int, yLast: int, y: int, i: int,
                     active: seq<PointNode>, spans: seq<Span>)
  {
    0 <= i <= |s| && y0 <= y <= yLast + 1 &&
    i == RowEnd(s, y - 1) && (i < |s| ==> y <= s[i].y <= yLast) &&
    active == ApplyAll(s[..i]) && spans == RowsBelow(s, y0, y)
  }

  lemma SweepStarts(s: seq<PointNode>)
    requires s != [] && SortedY(s)
    ensures Sweeping(s, s[0].y, s[|s| - 1].y, s[0].y, 0, [], [])
  {
    assert s[..0] == [];
  }

  lemma SweepEnds(s: seq<PointNode>, y0: int, y: int, active: seq<PointNode>, spans: seq<Span>)
    requires s != [] && y0 == s[0].y
    requires Sweeping(s, y0, s[|s| - 1].y, y, |s|, active, spans)
    ensures spans == AllSpans(s)
  {
    assert s[|s| - 1].y <= y - 1;
  }

  /** One scanline of the sweep: apply the row's corners, then pair up the active list. */
  method SweepRow(s: seq<PointNode>, ghost y0: int, y: int, i0: int,
                  active0: seq<PointNode>, spans0: seq<Span>)
    returns (i: int, active: seq<PointNode>, spans: seq<Span>)
    requires s != [] && SortedY(s) && i0 < |s|
    requires Sweeping(s, y0, s[|s| - 1].y, y, i0, active0, spans0)
    ensures Sweeping(s, y0, s[|s| - 1].y, y + 1, i, active, spans)
  {
    i, active := ApplyRow(s, i0, y, active0);
    var row := PairUp(y, active);
    spans := spans0 + row;
  }

  /**
   * The corner-parity sweep over the corners `s` sorted by comp_corners.
   * Starting at the first corner's row, each pass applies every corner
   * of the current row to the active list, then pairs up the active
   * entries into the spans of that row, and moves on to the next row,
   * until every corner has been applied.
   */
  method ScanSpans(s: seq<PointNode>) returns (spans: seq<Span>)
    requires s != [] && SortedY(s)
    ensures spans == AllSpans(s)
  {
    var i := 0;
    var y := s[0].y;
    ghost var y0 := y;
    ghost var yLast := s[|s| - 1].y;
    var active: seq<PointNode> := [];
    spans := [];
    SweepStarts(s);
    while i < |s|
      invariant Sweeping(s, y0, yLast, y, i, active, spans)
      decreases yLast + 1 - y
    {
      i, active, spans := SweepRow(s, y0, y, i, active, spans);
      y := y + 1;
    }
    SweepEnds(s, y0, y, active, spans);
  }

  // ---------------------------------------------------------------------
  // What the sweep's spans look like

  /** Spans in sweep order never overlap: row by row, left to right, each [xs, xe) with xs <= xe. */
  predicate OrderedSpans(spans: seq<Span>)
  {
    (forall i :: 0 <= i < |spans| ==> spans[i].xs <= spans[i].xe) &&
    (forall i, j :: 0 <= i < j < |spans| ==>
      spans[i].y < spans[j].y || (spans[i].y == spans[j].y && spans[i].xe <= spans[j].xs))
  }

  /** The active list is always sorted by x, whatever corners are applied. */
  lemma {:induction false} ApplyAllSorted(cs: seq<PointNode>)
    ensures SortedX(ApplyAll(cs))
  {
    if cs != [] {
      ApplyAllSorted(cs[..|cs| - 1]);
      var a := ApplyAll(cs[..|cs| - 1]);
      var c := cs[|cs| - 1];
      if c.kind == TYPE_TOP {
        InsertedSorted(a, c);
      } else {
        RemovedSorted(a, c.x);
      }
    }
  }

  lemma PairsOrdered(y: int, a: seq<PointNode>)
    requires SortedX(a)
    ensures OrderedSpans(Pairs(y, a))
    ensures forall i :: 0 <= i < |Pairs(y, a)| ==> Pairs(y, a)[i].y == y
  {
    var r := Pairs(y, a);
    forall i, j | 0 <= i < j < |r|
      ensures r[i].y < r[j].y || (r[i].y == r[j].y && r[i].xe <= r[j].xs)
    {
      assert r[i].xe == a[2 * i + 1].x && r[j].xs == a[2 * j].x;
    }
  }

  /** The rows of the sweep come out in order of y, and each row's spans are ordered. */
  /** Spans on rows in [y0, y) followed by spans of row y stay ordered. */
  lemma OrderedAppendRow(p: seq<Span>, q: seq<Span>, y0: int, y: int)
    requires OrderedSpans(p) && OrderedSpans(q) && y0 <= y
    requires forall i :: 0 <= i < |p| ==> y0 <= p[i].y < y
    requires forall i :: 0 <= i < |q| ==> q[i].y == y
    ensures OrderedSpans(p + q)
    ensures forall i :: 0 <= i < |p + q| ==> y0 <= (p + q)[i].y < y + 1
  {
    var r := p + q;
    forall i | 0 <= i < |r|
      ensures r[i] == if i < |p| then p[i] else q[i - |p|]
    {
    }
  }

  lemma {:induction false} RowsBelowOrdered(s: seq<PointNode>, y0: int, y: int)
    ensures OrderedSpans(RowsBelow(s, y0, y))
    ensures forall i :: 0 <= i < |RowsBelow(s, y0, y)| ==> y0 <= RowsBelow(s, y0, y)[i].y < y
    decreases y - y0
  {
    if y > y0 {
      RowsBelowOrdered(s, y0, y - 1);
      ApplyAllSorted(s[..RowEnd(s, y - 1)]);
      PairsOrdered(y - 1, Active(s, y - 1));
      OrderedAppendRow(RowsBelow(s, y0, y - 1), Pairs(y - 1, Active(s, y - 1)), y0, y - 1);
    }
  }

  /** The spans of any corner list are ordered and disjoint. */
  lemma AllSpansOrdered(s: seq<PointNode>)
    ensures OrderedSpans(AllSpans(s))
  {
    if s != [] {
      RowsBelowOrdered(s, s[0].y, s[|s| - 1].y + 1);
    }
  }

  predicate InSpan(sp: Span, x: int, y: int)
  {
    sp.y == y && sp.xs <= x < sp.xe
  }

  /** Pixel (x, y) lies in one of the spans. */
  predicate Covered(spans: seq<Span>, x: int, y: int)
  {
    exists i :: 0 <= i < |spans| && InSpan(spans[i], x, y)
  }

  lemma CoveredStep(spans: seq<Span>, i: int, x: int, y: int)
    requires 0 <= i < |spans|
    ensures Covered(spans[..i + 1], x, y) <==> Covered(spans[..i], x, y) || InSpan(spans[i], x, y)
  {
    if Covered(spans[..i + 1], x, y) {
      var k :| 0 <= k < i + 1 && InSpan(spans[..i + 1][k], x, y);
      if k < i { assert spans[..i][k] == spans[k]; }
    }
    if Covered(spans[..i], x, y) {
      var k :| 0 <= k < i && InSpan(spans[..i][k], x, y);
      assert spans[..i + 1][k] == spans[k];
    }
    if InSpan(spans[i], x, y) {
      assert spans[..i + 1][i] == spans[i];
    }
  }

  /** In ordered spans, no pixel of a span is covered by an earlier one. */
  lemma FreshSpan(spans: seq<Span>, i: int, x: int, y: int)
    requires OrderedSpans(spans) && 0 <= i < |spans| && InSpan(spans[i], x, y)
    ensures !Covered(spans[..i], x, y)
  {
    forall k | 0 <= k < i ensures !InSpan(spans[..i][k], x, y) {
      assert spans[..i][k] == spans[k];
    }
  }

  // ---------------------------------------------------------------------
  // The even-odd rule

  /** How many entries of an active list lie at or left of x: the edges crossed reaching x. */
  function CountLe(a: seq<PointNode>, x: int): nat
  {
    if a == [] then 0 else (if a[0].x <= x then 1 else 0) + CountLe(a[1..], x)
  }

  /** Left of the first entry of a sorted list, no entry is crossed. */
  lemma {:induction false} CountLeLeft(a: seq<PointNode>, x: int)
    requires SortedX(a) && (a != [] ==> x < a[0].x)
    ensures CountLe(a, x) == 0
    decreases |a|
  {
    if a != [] && |a| > 1 {
      assert a[1..][0] == a[1];
      CountLeLeft(a[1..], x);
    }
  }

  lemma CoveredCons(sp: Span, rest: seq<Span>, x: int, y: int)
    ensures Covered([sp] + rest, x, y) <==> InSpan(sp, x, y) || Covered(rest, x, y)
  {
    var r := [sp] + rest;
    if Covered(rest, x, y) {
      var k :| 0 <= k < |rest| && InSpan(rest[k], x, y);
      assert r[k + 1] == rest[k];
    }
    if Covered(r, x, y) && !InSpan(sp, x, y) {
      var k :| 0 <= k < |r| && InSpan(r[k], x, y);
      assert rest[k - 1] == r[k];
    }
    if InSpan(sp, x, y) {
      assert r[0] == sp;
    }
  }

  lemma CoveredConcat(p: seq<Span>, q: seq<Span>, x: int, y: int)
    ensures Covered(p + q, x, y) <==> Covered(p, x, y) || Covered(q, x, y)
  {
    var r := p + q;
    if Covered(r, x, y) {
      var k :| 0 <= k < |r| && InSpan(r[k], x, y);
      if k < |p| { assert p[k] == r[k]; } else { assert q[k - |p|] == r[k]; }
    }
    if Covered(p, x, y) {
      var k :| 0 <= k < |p| && InSpan(p[k], x, y);
      assert r[k] == p[k];
    }
    if Covered(q, x, y) {
      var k :| 0 <= k < |q| && InSpan(q[k], x, y);
      assert r[|p| + k] == q[k];
    }
  }

  /**
   * A row's spans hold exactly the pixels reached after crossing an odd
   * number of active entries, an unpaired last entry crossing into nothing.
   */
  lemma {:induction false} PairsParity(y: int, a: seq<PointNode>, x: int, yy: int)
    requires SortedX(a)
    ensures Covered(Pairs(y, a), x, yy) <==>
      yy == y && CountLe(a, x) % 2 == 1 && CountLe(a, x) < |a| - |a| % 2
    decreases |a|
  {
    if |a| < 2 {
      assert !Covered(Pairs(y, a), x, yy);
    } else {
      var rest := a[2..];
      assert Pairs(y, a) == [Span(y, a[0].x, a[1].x)] + Pairs(y, rest);
      CoveredCons(Span(y, a[0].x, a[1].x), Pairs(y, rest), x, yy);
      assert a[1..][1..] == rest;
      assert SortedX(rest);
      PairsParity(y, rest, x, yy);
      if x < a[1].x {
        CountLeLeft(rest, x);
        if x < a[0].x {
          CountLeLeft(a, x);
        }
      }
    }
  }

  /** The spans of rows y0 .. y - 1 hold exactly the pixels of their own rows' pairs. */
  lemma {:induction false} RowsBelowCovered(s: seq<PointNode>, y0: int, y: int, x: int, yy: int)
    ensures Covered(RowsBelow(s, y0, y), x, yy) <==> y0 <= yy < y && Covered(Pairs(yy, Active(s, yy)), x, yy)
    decreases y - y0
  {
    if y <= y0 {
      assert RowsBelow(s, y0, y) == [];
    } else {
      RowsBelowCovered(s, y0, y - 1, x, yy);
      CoveredConcat(RowsBelow(s, y0, y - 1), Pairs(y - 1, Active(s, y - 1)), x, yy);
      ApplyAllSorted(s[..RowEnd(s, y - 1)]);
      PairsParity(y - 1, Active(s, y - 1), x, yy);
    }
  }

  /**
   * The even-odd fill: a pixel lies in the sweep's spans exactly when its
   * row is between the first and last corner rows and an odd number of
   * the entries active on that row lie at or left of it.
   */
  lemma ScanParity(s: seq<PointNode>, x: int, y: int)
    ensures Covered(AllSpans(s), x, y) <==>
      s != [] && s[0].y <= y <= s[|s| - 1].y &&
      CountLe(Active(s, y), x) % 2 == 1 &&
      CountLe(Active(s, y), x) < |Active(s, y)| - |Active(s, y)| % 2
  {
    if s != [] {
      RowsBelowCovered(s, s[0].y, s[|s| - 1].y + 1, x, y);
      ApplyAllSorted(s[..RowEnd(s, y)]);
      PairsParity(y, Active(s, y), x, y);
    }
  }

  // ---------------------------------------------------------------------
  // From a contour to its spans

  /** The spans the sweep of a contour's corners produces; none when it has no corner. */
  function ContourSpans(contour: seq<Point>): seq<Span>
    requires |contour| >= 3
  {
    var cs := CornersOf(contour);
    if cs == [] then [] else AllSpans(SortCorners(cs))
  }

  /**
   * The common front of fill, mark and build: extract the corners, sort
   * them by comp_corners, and sweep. A contour with no corner has no
   * spans (the source indexes the empty corner array there).
   */
  method CornerSweep(contour: seq<Point>) returns (spans: seq<Span>)
    requires |contour| >= 3
    ensures spans == ContourSpans(contour)
    ensures OrderedSpans(spans)
  {
    var corners, n := ExtractCorners(contour);
    if n == 0 {
      return [];
    }
    var sorted := SortCorners(corners);
    SortedYXIsSortedY(sorted);
    spans := ScanSpans(sorted);
    AllSpansOrdered(sorted);
  }

  // ---------------------------------------------------------------------
  // llimg_fillContour (contour.cpp:420-505)

  predicate InRaster(m: array2<bv8>, x: int, y: int)
  {
    0 <= y < m.Length0 && 0 <= x < m.Length1
  }

  /** Write `b` over the pixels of one span (those inside the raster). */
  method PaintSpan(m: array2<bv8>, sp: Span, b: bv8)
    modifies m
    ensures forall y, x :: InRaster(m, x, y) ==>
      m[y, x] == if InSpan(sp, x, y) then b else old(m[y, x])
  {
    var x := sp.xs;
    while x < sp.xe
      invariant x == sp.xs || sp.xs <= x <= sp.xe
      invariant forall y', x' :: InRaster(m, x', y') ==>
        m[y', x'] == if y' == sp.y && sp.xs <= x' < x then b else old(m[y', x'])
    {
      if InRaster(m, x, sp.y) {
        m[sp.y, x] := b;
      }
      x := x + 1;
    }
  }

  /** Write `b` over every span, in order. */
  method PaintSpans(m: array2<bv8>, spans: seq<Span>, b: bv8)
    modifies m
    ensures forall y, x :: InRaster(m, x, y) ==>
      m[y, x] == if Covered(spans, x, y) then b else old(m[y, x])
  {
    var i := 0;
    while i < |spans|
      invariant 0 <= i <= |spans|
      invariant forall y, x :: InRaster(m, x, y) ==>
        m[y, x] == if Covered(spans[..i], x, y) then b else old(m[y, x])
    {
      PaintSpan(m, spans[i], b);
      forall y, x | InRaster(m, x, y) ensures
        m[y, x] == if Covered(spans[..i + 1], x, y) then b else old(m[y, x])
      {
        CoveredStep(spans, i, x, y);
      }
      i := i + 1;
    }
    assert spans[..i] == spans;
  }

  /**
   * llimg_fillContour: 1 for a null image or contour; otherwise paint
   * `color` (as a byte) over every span of the contour's sweep and
   * return 0. Pixels outside the spans keep their values.
   */
  method FillContour(m: array2?<bv8>, contour: seq<Point>, color: int) returns (rc: int)
    requires contour == [] || |contour| >= 3
    modifies m
    ensures rc == 0 || rc == 1
    ensures rc == 1 <==> m == null || contour == []
    ensures rc == 1 && m != null ==> forall y, x :: InRaster(m, x, y) ==> m[y, x] == old(m[y, x])
    ensures rc == 0 ==> forall y, x :: InRaster(m, x, y) ==>
      m[y, x] == if Covered(ContourSpans(contour), x, y) then ToByte(color) else old(m[y, x])
  {
    if m == null {
      return 1;
    }
    if contour == [] {
      return 1;
    }
    var spans := CornerSweep(contour);
    PaintSpans(m, spans, ToByte(color));
    return 0;
  }

  // ---------------------------------------------------------------------
  // llimg_markContour (contour.cpp:512-605)

  /** The raster's contents as a value, row by row. */
  ghost function Grid(m: array2<bv8>): (g: seq<seq<bv8>>)
    reads m
    ensures |g| == m.Length0
    ensures forall y :: 0 <= y < |g| ==> |g[y]| == m.Length1
    ensures forall y, x :: InRaster(m, x, y) ==> g[y][x] == m[y, x]
  {
    seq(m.Length0, y requires 0 <= y < m.Length0 reads m =>
      seq(m.Length1, x requires 0 <= x < m.Length1 reads m => m[y, x]))
  }

  predicate InGrid(g: seq<seq<bv8>>, x: int, y: int)
  {
    0 <= y < |g| && 0 <= x < |g[y]|
  }

  /** How many pixels of row `y` in [xs, xe) hold the value `fg` in `g`. */
  function CountFg(g: seq<seq<bv8>>, y: int, xs: int, xe: int, fg: int): (n: nat)
    ensures n <= if xe > xs then xe - xs else 0
    decreases xe - xs
  {
    if xe <= xs then 0
    else CountFg(g, y, xs, xe - 1, fg) + (if InGrid(g, xe - 1, y) && g[y][xe - 1] as int == fg then 1 else 0)
  }

  /** The total width of the spans. */
  function Area(spans: seq<Span>): int
  {
    if spans == [] then 0
    else Area(spans[..|spans| - 1]) + (spans[|spans| - 1].xe - spans[|spans| - 1].xs)
  }

  /** The number of spanned pixels holding `fg` in `g`, span by span. */
  function Weight(g: seq<seq<bv8>>, spans: seq<Span>, fg: int): int
  {
    if spans == [] then 0
    else
      var sp := spans[|spans| - 1];
      Weight(g, spans[..|spans| - 1], fg) + CountFg(g, sp.y, sp.xs, sp.xe, fg)
  }

  /** The weight of ordered spans is between zero and their area. */
  lemma {:induction false} WeightWithinArea(g: seq<seq<bv8>>, spans: seq<Span>, fg: int)
    requires OrderedSpans(spans)
    ensures 0 <= Weight(g, spans, fg) <= Area(spans)
  {
    if spans != [] {
      var init := spans[..|spans| - 1];
      assert OrderedSpans(init) by {
        forall i | 0 <= i < |init| ensures init[i] == spans[i] { }
      }
      WeightWithinArea(g, init, fg);
    }
  }

  /**
   * Mark one span: count its pixels holding `fg`, then OR `orb` into
   * each. The span's pixels must still hold their original values `g`.
   */
  method MarkSpan(m: array2<bv8>, sp: Span, orb: bv8, fg: int, ghost g: seq<seq<bv8>>) returns (w: int)
    requires |g| == m.Length0 && forall y :: 0 <= y < |g| ==> |g[y]| == m.Length1
    requires forall x :: InRaster(m, x, sp.y) && InSpan(sp, x, sp.y) ==> m[sp.y, x] == g[sp.y][x]
    modifies m
    ensures w == CountFg(g, sp.y, sp.xs, sp.xe, fg)
    ensures forall y, x :: InRaster(m, x, y) ==>
      m[y, x] == if InSpan(sp, x, y) then old(m[y, x]) | orb else old(m[y, x])
  {
    w := 0;
    var x := sp.xs;
    while x < sp.xe
      invariant x == sp.xs || sp.xs <= x <= sp.xe
      invariant w == CountFg(g, sp.y, sp.xs, x, fg)
      invariant forall y', x' :: InRaster(m, x', y') ==>
        m[y', x'] == if y' == sp.y && sp.xs <= x' < x then old(m[y', x']) | orb else old(m[y', x'])
    {
      if InRaster(m, x, sp.y) {
        if m[sp.y, x] as int == fg {
          w := w + 1;
        }
        m[sp.y, x] := m[sp.y, x] | orb;
      }
      x := x + 1;
    }
  }

  /** Mark every span in order, summing their widths and their foreground counts. */
  method MarkSpans(m: array2<bv8>, spans: seq<Span>, orb: bv8, fg: int) returns (area: int, weight: int)
    requires OrderedSpans(spans)
    modifies m
    ensures area == Area(spans)
    ensures weight == Weight(old(Grid(m)), spans, fg)
    ensures forall y, x :: InRaster(m, x, y) ==>
      m[y, x] == if Covered(spans, x, y) then old(m[y, x]) | orb else old(m[y, x])
  {
    ghost var g := Grid(m);
    area, weight := 0, 0;
    var i := 0;
    while i < |spans|
      invariant 0 <= i <= |spans|
      invariant area == Area(spans[..i]) && weight == Weight(g, spans[..i], fg)
      invariant forall y, x :: InRaster(m, x, y) ==>
        m[y, x] == if Covered(spans[..i], x, y) then g[y][x] | orb else g[y][x]
    {
      var sp := spans[i];
      forall x | InRaster(m, x, sp.y) && InSpan(sp, x, sp.y) ensures m[sp.y, x] == g[sp.y][x] {
        FreshSpan(spans, i, x, sp.y);
      }
      var w := MarkSpan(m, sp, orb, fg, g);
      assert spans[..i + 1][..i] == spans[..i];
      weight := weight + w;
      area := area + (sp.xe - sp.xs);
      forall y, x | InRaster(m, x, y) ensures
        m[y, x] == if Covered(spans[..i + 1], x, y) then g[y][x] | orb else g[y][x]
      {
        CoveredStep(spans, i, x, y);
        if InSpan(sp, x, y) { FreshSpan(spans, i, x, y); }
      }
      i := i + 1;
    }
    assert spans[..i] == spans;
  }

  /**
   * llimg_markContour: area and weight start at zero; 1 for a null image
   * or contour. Otherwise every pixel of the contour's spans is ORed
   * with `orColor` (as a byte), `area` sums the span widths and `weight`
   * counts the spanned pixels that held `fgColor` before the OR.
   */
  method MarkContour(m: array2?<bv8>, contour: seq<Point>, orColor: int, fgColor: int)
    returns (rc: int, area: int, weight: int)
    requires contour == [] || |contour| >= 3
    modifies m
    ensures rc == 0 || rc == 1
    ensures rc == 1 <==> m == null || contour == []
    ensures rc == 1 ==> area == 0 && weight == 0
    ensures rc == 1 && m != null ==> forall y, x :: InRaster(m, x, y) ==> m[y, x] == old(m[y, x])
    ensures rc == 0 ==> area == Area(ContourSpans(contour))
    ensures rc == 0 ==> weight == Weight(old(Grid(m)), ContourSpans(contour), fgColor)
    ensures rc == 0 ==> forall y, x :: InRaster(m, x, y) ==>
      m[y, x] == if Covered(ContourSpans(contour), x, y) then old(m[y, x]) | ToByte(orColor) else old(m[y, x])
  {
    area, weight := 0, 0;
    if m == null {
      return 1, area, weight;
    }
    if contour == [] {
      return 1, area, weight;
    }
    var spans := CornerSweep(contour);
    area, weight := MarkSpans(m, spans, ToByte(orColor), fgColor);
    return 0, area, weight;
  }
}
