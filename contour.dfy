/**
 * Contour tracing over a binary raster (contour.cpp, contour.h).
 *
 * The raster is the mask image: an `array2<bv8>` indexed `[y, x]`, with
 * `Length0` rows (the image height) and `Length1` columns (the width).
 * A traced contour lists pixel CORNERS: the corner (x, y) is the top-left
 * corner of pixel (x, y), so corners range over [0, width] x [0, height].
 */
module Contour {
  import opened Common

  /** A contour point (ContourPointNode without its corner type). */
  datatype Point = Point(x: int, y: int)

  /**
   * Outcome of the tracer. `NoContour` is the source's null return.
   * `Endless` stands for a trace that the source would never end: the
   * loop state after the first step is (pixel, last direction), of which
   * there are at most 8*width*height; a trace that has not closed after
   * that many steps (plus one) is in a cycle that cannot reach the exit.
   */
  datatype Trace = NoContour | Contour(points: seq<Point>) | Endless

  // The direction and corner tables of the tracer (contour.cpp:73-86).
  const DX: seq<int> := [1, 1, 0, -1, -1, -1, 0, 1]
  const DY: seq<int> := [0, -1, -1, -1, 0, 1, 1, 1]
  const NEXT_S: seq<int> := [7, 7, 1, 1, 3, 3, 5, 5]
  const PIXEL_DX: seq<int> := [0, 1, 0, 0, 0, 0, 0, 1]
  const PIXEL_DY: seq<int> := [0, 0, 0, 0, 0, 1, 0, 1]
  const P_START: seq<int> := [7, 7, 1, 1, 3, 3, 5, 5]
  const P_END: seq<int> := [1, 3, 3, 5, 5, 7, 7, 1]

  /** The neighbour of pixel `p` in direction `d`. */
  function Step(p: Point, d: int): Point
    requires 0 <= d < 8
  {
    Point(p.x + DX[d], p.y + DY[d])
  }

  /** Corner number `j` (1, 3, 5 or 7) of pixel `p`. */
  function Corner(p: Point, j: int): Point
    requires 0 <= j < 8
  {
    Point(p.x + PIXEL_DX[j], p.y + PIXEL_DY[j])
  }

  /** Two points one unit apart along exactly one axis. */
  predicate Adjacent(a: Point, b: Point)
  {
    (a.x == b.x && (a.y == b.y + 1 || b.y == a.y + 1)) ||
    (a.y == b.y && (a.x == b.x + 1 || b.x == a.x + 1))
  }

  predicate Inside(m: array2<bv8>, p: Point)
  {
    0 <= p.x < m.Length1 && 0 <= p.y < m.Length0
  }

  predicate Matches(m: array2<bv8>, p: Point, cv: int)
    reads m
  {
    Inside(m, p) && m[p.y, p.x] as int == cv
  }

  /** No 8-neighbour of `p` holds the contour value. */
  predicate Isolated(m: array2<bv8>, p: Point, cv: int)
    reads m
  {
    forall d :: 0 <= d < 8 ==> !Matches(m, Step(p, d), cv)
  }

  /** A corner of some pixel of `m`. */
  predicate CornerOf(m: array2<bv8>, p: Point)
  {
    0 <= p.x <= m.Length1 && 0 <= p.y <= m.Length0
  }

  /** The four corners listed for a pixel with no neighbour. */
  function Square(p: Point): seq<Point>
  {
    [p, Point(p.x + 1, p.y), Point(p.x + 1, p.y + 1), Point(p.x, p.y + 1)]
  }

  /** A closed path of unit steps. */
  predicate ClosedPath(pts: seq<Point>)
  {
    |pts| >= 3 &&
    (forall k :: 0 <= k < |pts| - 1 ==> Adjacent(pts[k], pts[k + 1])) &&
    Adjacent(pts[|pts| - 1], pts[0])
  }

  /** The path never steps straight back to the point it just left. */
  predicate NoReversal(pts: seq<Point>)
  {
    forall k :: 0 <= k < |pts| - 2 ==> pts[k] != pts[k + 2]
  }

  /** What the tracer keeps true of the list it is building. */
  predicate PartialPath(m: array2<bv8>, pts: seq<Point>)
  {
    (forall k :: 0 <= k < |pts| ==> CornerOf(m, pts[k])) &&
    (forall k :: 1 <= k < |pts| ==> pts[k] != pts[0]) &&
    (forall k :: 0 <= k < |pts| - 1 ==> Adjacent(pts[k], pts[k + 1])) &&
    NoReversal(pts)
  }

  lemma AppendKeepsPath(m: array2<bv8>, pts: seq<Point>, c: Point)
    requires PartialPath(m, pts) && |pts| > 0
    requires CornerOf(m, c) && c != pts[0] && Adjacent(pts[|pts| - 1], c)
    requires |pts| > 1 ==> c != pts[|pts| - 2]
    ensures PartialPath(m, pts + [c])
  {
    var q := pts + [c];
    forall k | 0 <= k < |q| - 2 ensures q[k] != q[k + 2] {
      if k + 2 < |pts| { assert q[k] == pts[k] && q[k + 2] == pts[k + 2]; }
    }
  }

  // Finite facts about the tables, each checked case by case.

  lemma StepBack(p: Point, d: int)
    requires 0 <= d < 8
    ensures Step(Step(p, d), (d + 4) % 8) == p
  {
    if d == 0 {} else if d == 1 {} else if d == 2 {} else if d == 3 {}
    else if d == 4 {} else if d == 5 {} else if d == 6 {} else {}
  }

  /** Two consecutive corners of one pixel are adjacent; corners two apart differ. */
  lemma AroundPixel(p: Point, j: int)
    requires OddCorner(j)
    ensures Adjacent(Corner(p, j), Corner(p, Nx(j)))
    ensures Corner(p, j) != Corner(p, Nx(Nx(j)))
  {
    if j == 1 {} else if j == 3 {} else if j == 5 {} else {}
  }

  /** Leaving a pixel in direction s: its last corner and the next pixel's first corner. */
  lemma BetweenPixels(p: Point, s: int)
    requires 0 <= s < 8
    ensures Adjacent(Corner(p, (P_END[s] + 6) % 8), Corner(Step(p, s), P_START[s]))
    ensures Corner(p, (P_END[s] + 4) % 8) != Corner(Step(p, s), P_START[s])
    ensures Corner(p, (P_END[s] + 6) % 8) != Corner(Step(p, s), (P_START[s] + 2) % 8)
  {
    if s == 0 {} else if s == 1 {} else if s == 2 {} else if s == 3 {}
    else if s == 4 {} else if s == 5 {} else if s == 6 {} else {}
  }

  /** A pixel entered in direction a that lists one corner and is left in direction b. */
  lemma ThroughOneCorner(p: Point, a: int, b: int)
    requires 0 <= a < 8 && 0 <= b < 8
    requires P_START[a] == (P_END[b] + 6) % 8
    ensures Corner(p, (P_END[a] + 6) % 8) != Corner(Step(Step(p, a), b), P_START[b])
  {
    if a == 0 || a == 1 {
      assert b == 0 || b == 7;
    } else if a == 2 || a == 3 {
      assert b == 1 || b == 2;
    } else if a == 4 || a == 5 {
      assert b == 3 || b == 4;
    } else {
      assert b == 5 || b == 6;
    }
  }

  /** Corner steps still to go, stepping by two, from j to t. */
  function ToEnd(j: int, t: int): nat
    requires j <= t + 8
  {
    (if t >= j then t - j else t - j + 8) / 2
  }

  lemma ToEndStep(j: int, t: int)
    requires OddCorner(j) && OddCorner(t)
    ensures OddCorner(Nx(j))
    ensures ToEnd(j, t) <= 3 && (ToEnd(j, t) == 0 <==> j == t)
    ensures ToEnd(Nx(j), t) == if j == t then 3 else ToEnd(j, t) - 1
  {
    if j == 1 {} else if j == 3 {} else if j == 5 {} else {}
  }

  lemma CornersDistinct(p: Point, a: int, b: int)
    requires OddCorner(a) && OddCorner(b) && a != b
    ensures Corner(p, a) != Corner(p, b)
  {
  }

  lemma TablesOdd(d: int)
    requires 0 <= d < 8
    ensures OddCorner(P_START[d]) && OddCorner(P_END[d])
    ensures 0 <= NEXT_S[d] < 8
  {
    if d == 0 {} else if d == 1 {} else if d == 2 {} else if d == 3 {}
    else if d == 4 {} else if d == 5 {} else if d == 6 {} else {}
  }

  lemma CornerInside(m: array2<bv8>, p: Point, j: int)
    requires Inside(m, p) && 0 <= j < 8
    ensures CornerOf(m, Corner(p, j))
  {
    if j == 0 {} else if j == 1 {} else if j == 2 {} else if j == 3 {}
    else if j == 4 {} else if j == 5 {} else if j == 6 {} else {}
  }

  /** The corner after `j` counterclockwise: `(j + 2) % 8` for an odd corner number. */
  function Nx(j: int): int
  {
    if j == 7 then 1 else j + 2
  }

  /** The corner before `j`: `(j + 6) % 8` for an odd corner number. */
  function Pv(j: int): int
  {
    if j == 1 then 7 else j - 2
  }

  predicate OddCorner(j: int)
  {
    j == 1 || j == 3 || j == 5 || j == 7
  }

  lemma NxIsMod(j: int)
    requires OddCorner(j)
    ensures (j + 2) % 8 == Nx(j) && OddCorner(Nx(j)) && Pv(Nx(j)) == j && Nx(Pv(j)) == j
    ensures (j + 6) % 8 == Pv(j) && OddCorner(Pv(j)) && (j + 4) % 8 == Pv(Pv(j))
  {
  }

  /** The direction `k` turns after `s0`. */
  function Turn(s0: int, k: int): int
  {
    if s0 + k < 8 then s0 + k else s0 + k - 8
  }

  lemma TurnNext(s0: int, k: int)
    requires 0 <= s0 < 8 && 0 <= k < 8
    ensures (Turn(s0, k) + 1) % 8 == Turn(s0, k + 1)
  {
  }

  /**
   * The direction search of llimg_traceContour (contour.cpp:109-151):
   * turn from direction `s0` until a neighbour holds `cv`. When none
   * does, the eight turns bring `s` back to `s0`.
   */
  method FindNeighbour(m: array2<bv8>, cur: Point, s0: int, cv: int) returns (s: int, turns: int)
    requires 0 <= s0 < 8
    ensures 0 <= s < 8 && 0 <= turns <= 8 && s == Turn(s0, turns)
    ensures turns < 8 ==> Matches(m, Step(cur, s), cv)
    ensures forall k :: 0 <= k < turns ==> !Matches(m, Step(cur, Turn(s0, k)), cv)
    ensures turns == FirstTurn(m, cur, s0, cv, 0)
  {
    turns := 0;
    s := s0;
    while turns < 8 && !Matches(m, Step(cur, s), cv)
      invariant 0 <= turns <= 8 && s == Turn(s0, turns)
      invariant forall k :: 0 <= k < turns ==> !Matches(m, Step(cur, Turn(s0, k)), cv)
      invariant FirstTurn(m, cur, s0, cv, turns) == FirstTurn(m, cur, s0, cv, 0)
    {
      TurnNext(s0, turns);
      s := (s + 1) % 8;
      turns := turns + 1;
    }
  }

  /**
   * The direction search as a function: the number of turns after `s0`,
   * counting from `k`, to the first neighbour holding `cv`, or 8 when
   * none of the remaining ones does.
   */
  function FirstTurn(m: array2<bv8>, cur: Point, s0: int, cv: int, k: nat): (t: nat)
    reads m
    requires 0 <= s0 < 8 && k <= 8
    ensures k <= t <= 8
    ensures t < 8 ==> Matches(m, Step(cur, Turn(s0, t)), cv)
    ensures forall i :: k <= i < t ==> !Matches(m, Step(cur, Turn(s0, i)), cv)
    decreases 8 - k
  {
    if k == 8 then 8
    else if Matches(m, Step(cur, Turn(s0, k)), cv) then k
    else FirstTurn(m, cur, s0, cv, k + 1)
  }

  /** Eight failed turns mean all eight neighbours were looked at. */
  lemma AllTurns(m: array2<bv8>, cur: Point, s0: int, cv: int)
    requires 0 <= s0 < 8
    requires forall k :: 0 <= k < 8 ==> !Matches(m, Step(cur, Turn(s0, k)), cv)
    ensures Isolated(m, cur, cv)
  {
    forall d | 0 <= d < 8 ensures !Matches(m, Step(cur, d), cv) {
      assert Turn(s0, if d >= s0 then d - s0 else d - s0 + 8) == d;
    }
  }

  /**
   * The corner `c` about to be listed for pixel `cur` is one unit from the
   * last corner listed and is not the one before it. `e` corners of `cur`
   * are already listed; `r` is the list so far and `pts` the list as it
   * was when `cur` was entered from `prev` in direction `lastDir`.
   */
  lemma NextCorner(pts: seq<Point>, r: seq<Point>, cur: Point, prev: Point, lastDir: int, j: int, e: int)
    requires 0 <= lastDir < 8 && OddCorner(j) && r != [] && e >= 0
    requires e == 0 ==> r == pts && j == P_START[lastDir]
    requires e == 0 ==> Step(prev, lastDir) == cur && pts[|pts| - 1] == Corner(prev, (P_END[lastDir] + 6) % 8)
    requires e == 0 && |pts| > 1 ==> pts[|pts| - 2] != Corner(cur, P_START[lastDir])
    requires e >= 1 ==> r[|r| - 1] == Corner(cur, Pv(j))
    requires e == 1 ==> Pv(j) == P_START[lastDir]
    requires e == 1 && |r| > 1 ==> Step(prev, lastDir) == cur && r[|r| - 2] == Corner(prev, (P_END[lastDir] + 6) % 8)
    requires e >= 2 ==> |r| > 1 && r[|r| - 2] == Corner(cur, Pv(Pv(j)))
    ensures Adjacent(r[|r| - 1], Corner(cur, j))
    ensures |r| > 1 ==> Corner(cur, j) != r[|r| - 2]
  {
    NxIsMod(j);
    NxIsMod(Pv(j));
    if e == 0 {
      BetweenPixels(prev, lastDir);
    } else {
      AroundPixel(cur, Pv(j));
      if e == 1 {
        if |r| > 1 {
          TablesOdd(lastDir);
          NxIsMod(P_START[lastDir]);
          BetweenPixels(prev, lastDir);
        }
      } else {
        NxIsMod(Pv(Pv(j)));
        AroundPixel(cur, Pv(Pv(j)));
      }
    }
  }

  /**
   * What holds of the pixel `cur` and the contour `pts` so far when the
   * listing of its corners begins; none of it changes during the listing.
   */
  ghost predicate ListingSetup(m: array2<bv8>, pts: seq<Point>, cur: Point, prev: Point,
                               lastDir: int, first: int, stop: int)
  {
    0 <= lastDir < 8 && first == P_START[lastDir] && OddCorner(first) && OddCorner(stop) &&
    Inside(m, cur) &&
    (pts != [] ==> Step(prev, lastDir) == cur) &&
    (pts != [] ==> pts[|pts| - 1] == Corner(prev, (P_END[lastDir] + 6) % 8)) &&
    (|pts| > 1 ==> pts[|pts| - 2] != Corner(cur, first))
  }

  /**
   * What holds while the corners of `cur` are being listed: `e` corners
   * are listed, `j` is the next corner number, and `r` is the list.
   */
  ghost predicate Listing(m: array2<bv8>, pts: seq<Point>, r: seq<Point>, cur: Point, prev: Point,
                          lastDir: int, first: int, stop: int, j: int, e: nat)
  {
    0 <= lastDir < 8 && OddCorner(first) && OddCorner(stop) && OddCorner(j) &&
    PartialPath(m, r) && |r| == |pts| + e && (pts != [] ==> r[0] == pts[0]) &&
    (e == 0 ==> r == pts && j == first) &&
    (pts == [] && e > 0 ==> r[0] == Corner(cur, first)) &&
    (e == 1 ==> Pv(j) == first) &&
    (e >= 1 ==> r[|r| - 1] == Corner(cur, Pv(j))) &&
    (e >= 2 ==> r[|r| - 2] == Corner(cur, Pv(Pv(j)))) &&
    (e == 1 && pts != [] ==> r[|r| - 2] == Corner(prev, (P_END[lastDir] + 6) % 8)) &&
    (e >= 1 ==> e + ToEnd(j, stop) == ToEnd(first, stop) + (if first == stop then 4 else 0))
  }

  /** How many corners of the pixel are still to be listed, bounding the listing loop. */
  function CornersLeft(j: int, stop: int, e: nat): nat
    requires OddCorner(j) && OddCorner(stop)
  {
    (if e == 0 then 4 else 0) + ToEnd(j, stop)
  }

  /** One more corner listed: one fewer left to list, and the count still adds up. */
  lemma ListedCount(j: int, stop: int, e: nat)
    requires OddCorner(j) && OddCorner(stop) && !(e != 0 && j == stop)
    ensures OddCorner(Nx(j)) && CornersLeft(Nx(j), stop, e + 1) < CornersLeft(j, stop, e)
    ensures 1 + ToEnd(Nx(j), stop) == if e == 0 && j == stop then 4 else ToEnd(j, stop)
  {
    ToEndStep(j, stop);
  }

  /**
   * The corner listing as a function: from corner `j`, with `e` corners of
   * `cur` listed onto `r`, list corners up to `stop` or until one equals
   * the first corner of the contour; the flag says the latter happened.
   */
  function Listed(r: seq<Point>, cur: Point, j: int, stop: int, e: nat): (l: (seq<Point>, bool))
    requires OddCorner(j) && OddCorner(stop)
    ensures !l.1 ==> |l.0| == |r| + (if e == 0 && j == stop then 4 else ToEnd(j, stop))
    ensures l.1 ==> l.0 != [] && |l.0| < |r| + (if e == 0 && j == stop then 4 else ToEnd(j, stop))
    decreases CornersLeft(j, stop, e)
  {
    if e != 0 && j == stop then (r, false)
    else if r != [] && Corner(cur, j) == r[0] then (r, true)
    else
      ListedCount(j, stop, e);
      var c := Corner(cur, j);
      Listed(r + [c], cur, Nx(j), stop, e + 1)
  }

  /** The listing only appends: the path it returns starts with the path it was given. */
  lemma {:induction false} ListedExtends(r: seq<Point>, cur: Point, j: int, stop: int, e: nat)
    requires OddCorner(j) && OddCorner(stop)
    ensures |r| <= |Listed(r, cur, j, stop, e).0|
    ensures forall i :: 0 <= i < |r| ==> Listed(r, cur, j, stop, e).0[i] == r[i]
    decreases CornersLeft(j, stop, e)
  {
    ListedUnfold(r, cur, j, stop, e);
    if (e == 0 || j != stop) && !(r != [] && Corner(cur, j) == r[0]) {
      ListedExtends(r + [Corner(cur, j)], cur, Nx(j), stop, e + 1);
    }
  }

  /** One step of the listing function: at the stop, at a closing corner, or past one more corner. */
  lemma ListedUnfold(r: seq<Point>, cur: Point, j: int, stop: int, e: nat)
    requires OddCorner(j) && OddCorner(stop)
    ensures !(e == 0 || j != stop) ==> Listed(r, cur, j, stop, e) == (r, false)
    ensures (e == 0 || j != stop) && r != [] && Corner(cur, j) == r[0] ==> Listed(r, cur, j, stop, e) == (r, true)
    ensures (e == 0 || j != stop) && !(r != [] && Corner(cur, j) == r[0]) ==>
      OddCorner(Nx(j)) && Listed(r, cur, j, stop, e) == Listed(r + [Corner(cur, j)], cur, Nx(j), stop, e + 1)
  {
    if e == 0 || j != stop {
      ListedCount(j, stop, e);
    }
  }

  /** Nothing listed yet for `cur`: `Listing` holds with `r == pts`. */
  lemma ListingStart(m: array2<bv8>, pts: seq<Point>, cur: Point, prev: Point, lastDir: int, s: int)
    requires Inside(m, cur) && 0 <= lastDir < 8 && 0 <= s < 8
    requires PartialPath(m, pts)
    requires pts != [] ==> Step(prev, lastDir) == cur
    requires pts != [] ==> pts[|pts| - 1] == Corner(prev, (P_END[lastDir] + 6) % 8)
    requires |pts| > 1 ==> pts[|pts| - 2] != Corner(cur, P_START[lastDir])
    ensures ListingSetup(m, pts, cur, prev, lastDir, P_START[lastDir], P_END[s])
    ensures Listing(m, pts, pts, cur, prev, lastDir, P_START[lastDir], P_END[s], P_START[lastDir], 0)
  {
    TablesOdd(lastDir);
    TablesOdd(s);
  }

  /** Listing corner `j` of `cur` (when it does not close the contour) keeps `Listing`. */
  lemma ListingStep(m: array2<bv8>, pts: seq<Point>, r: seq<Point>, cur: Point, prev: Point,
                    lastDir: int, first: int, stop: int, j: int, e: nat)
    requires ListingSetup(m, pts, cur, prev, lastDir, first, stop)
    requires Listing(m, pts, r, cur, prev, lastDir, first, stop, j, e)
    requires e == 0 || j != stop
    requires r != [] ==> Corner(cur, j) != r[0]
    ensures Listing(m, pts, r + [Corner(cur, j)], cur, prev, lastDir, first, stop, Nx(j), e + 1)
    ensures Nx(j) == (j + 2) % 8 && CornersLeft(Nx(j), stop, e + 1) < CornersLeft(j, stop, e) && e < 4
  {
    var c := Corner(cur, j);
    NxIsMod(j);
    ToEndStep(j, stop);
    ToEndStep(first, stop);
    CornerInside(m, cur, j);
    if r == [] {
      assert r + [c] == [c];
    } else {
      NextCorner(pts, r, cur, prev, lastDir, j, e);
      AppendKeepsPath(m, r, c);
    }
  }

  /**
   * What a listing `l` of the corners of `cur` guarantees: a closed path
   * that starts with `pts` when it stopped early, and otherwise a path
   * that `Listing` describes at the stop corner.
   */
  ghost predicate ListedPath(m: array2<bv8>, pts: seq<Point>, cur: Point, prev: Point,
                             lastDir: int, first: int, stop: int, l: (seq<Point>, bool))
  {
    (l.1 ==> ClosedPath(l.0) && pts != [] && PartialPath(m, l.0) && |l.0| >= |pts| && l.0[0] == pts[0]) &&
    (!l.1 ==> |l.0| > |pts| && Listing(m, pts, l.0, cur, prev, lastDir, first, stop, stop, |l.0| - |pts|))
  }

  /** `ListingSetup` and `Listing` together: a state of the listing loop. */
  ghost predicate ListingAt(m: array2<bv8>, pts: seq<Point>, r: seq<Point>, cur: Point, prev: Point,
                            lastDir: int, first: int, stop: int, j: int, e: nat)
  {
    ListingSetup(m, pts, cur, prev, lastDir, first, stop) &&
    Listing(m, pts, r, cur, prev, lastDir, first, stop, j, e)
  }

  /**
   * One pass of the listing loop from corner `j`: the listing ends here at
   * the stop corner or on a corner that closes the contour, or else the
   * corner is listed and `Listing` and the listing function carry on.
   */
  lemma ListingNext(m: array2<bv8>, pts: seq<Point>, r: seq<Point>, cur: Point, prev: Point,
                    lastDir: int, first: int, stop: int, j: int, e: nat, l: (seq<Point>, bool))
    requires ListingAt(m, pts, r, cur, prev, lastDir, first, stop, j, e)
    requires l == Listed(r, cur, j, stop, e)
    ensures !(e == 0 || j != stop) || (r != [] && Corner(cur, j) == r[0]) ==>
      ListedPath(m, pts, cur, prev, lastDir, first, stop, l)
    ensures (e == 0 || j != stop) && !(r != [] && Corner(cur, j) == r[0]) ==>
      ListingAt(m, pts, r + [Corner(cur, j)], cur, prev, lastDir, first, stop, Nx(j), e + 1) &&
      OddCorner(Nx(j)) && e < 4 &&
      l == Listed(r + [Corner(cur, j)], cur, Nx(j), stop, e + 1)
  {
    ListedUnfold(r, cur, j, stop, e);
    if !(e == 0 || j != stop) {
      assert Listed(r, cur, j, stop, e) == (r, false);
    } else if r != [] && Corner(cur, j) == r[0] {
      ListingCloses(m, pts, r, cur, prev, lastDir, first, stop, j, e);
    } else {
      ListingStep(m, pts, r, cur, prev, lastDir, first, stop, j, e);
    }
  }

  /** From any state of the listing loop, the listing function gives a path as ListedPath says. */
  lemma {:induction false} ListedKeeps(m: array2<bv8>, pts: seq<Point>, r: seq<Point>, cur: Point, prev: Point,
                                       lastDir: int, first: int, stop: int, j: int, e: nat,
                                       l: (seq<Point>, bool))
    requires ListingAt(m, pts, r, cur, prev, lastDir, first, stop, j, e)
    requires l == Listed(r, cur, j, stop, e)
    ensures ListedPath(m, pts, cur, prev, lastDir, first, stop, l)
    decreases 4 - e
  {
    ListingNext(m, pts, r, cur, prev, lastDir, first, stop, j, e, l);
    if (e == 0 || j != stop) && !(r != [] && Corner(cur, j) == r[0]) {
      ListedKeeps(m, pts, r + [Corner(cur, j)], cur, prev, lastDir, first, stop, Nx(j), e + 1, l);
    }
  }

  /** A corner equal to the first one ends the listing with a closed path. */
  lemma ListingCloses(m: array2<bv8>, pts: seq<Point>, r: seq<Point>, cur: Point, prev: Point,
                      lastDir: int, first: int, stop: int, j: int, e: nat)
    requires ListingSetup(m, pts, cur, prev, lastDir, first, stop)
    requires Listing(m, pts, r, cur, prev, lastDir, first, stop, j, e)
    requires e == 0 || j != stop
    requires r != [] && Corner(cur, j) == r[0]
    ensures ClosedPath(r) && pts != []
    ensures PartialPath(m, r) && |r| >= |pts| && r[0] == pts[0]
  {
    ToEndStep(j, stop);
    ToEndStep(first, stop);
    NextCorner(pts, r, cur, prev, lastDir, j, e);
    if pts == [] {
      // The seed's own corners are all distinct.
      if j != first {
        CornersDistinct(cur, j, first);
      }
      assert false;
    }
  }

  /** When the listing of `cur` ends, its last corner hands over to the next pixel. */
  lemma ListingEnds(m: array2<bv8>, pts: seq<Point>, r: seq<Point>, cur: Point, prev: Point,
                    lastDir: int, first: int, s: int, j: int, e: nat)
    requires 0 <= s < 8 && ListingSetup(m, pts, cur, prev, lastDir, first, P_END[s])
    requires Listing(m, pts, r, cur, prev, lastDir, first, P_END[s], j, e)
    requires e > 0 && j == P_END[s]
    ensures PartialPath(m, r) && |r| >= |pts| && (pts != [] ==> r[0] == pts[0])
    ensures pts == [] ==> |r| > 0 && r[0] == Corner(cur, first)
    ensures r[|r| - 1] == Corner(cur, (P_END[s] + 6) % 8)
    ensures |r| > 1 ==> r[|r| - 2] != Corner(Step(cur, s), P_START[s])
  {
    NxIsMod(j);
    if |r| > 1 {
      if e >= 2 {
        BetweenPixels(cur, s);
      } else {
        ThroughOneCorner(prev, lastDir, s);
      }
    }
  }

  /**
   * The corner listing of llimg_traceContour (contour.cpp:118-144) for the
   * pixel `cur`, entered in direction `lastDir` from `prev` and left in
   * direction `s`: corners from P_START[lastDir] up to, not including,
   * P_END[s]. An empty `pts` means `cur` is the seed and its first corner
   * starts the contour. `closed` reports that a corner equal to the first
   * one came up, and then `r` is the finished contour.
   */
  method ListCorners(m: array2<bv8>, pts: seq<Point>, cur: Point, ghost prev: Point, lastDir: int, s: int)
    returns (r: seq<Point>, closed: bool)
    requires Inside(m, cur) && 0 <= lastDir < 8 && 0 <= s < 8
    requires PartialPath(m, pts)
    requires pts != [] ==> Step(prev, lastDir) == cur
    requires pts != [] ==> pts[|pts| - 1] == Corner(prev, (P_END[lastDir] + 6) % 8)
    requires |pts| > 1 ==> pts[|pts| - 2] != Corner(cur, P_START[lastDir])
    ensures PartialPath(m, r) && |r| >= |pts| && (pts != [] ==> r[0] == pts[0])
    ensures pts == [] ==> |r| > 0 && r[0] == Corner(cur, P_START[lastDir])
    ensures closed ==> ClosedPath(r)
    ensures !closed ==> r[|r| - 1] == Corner(cur, (P_END[s] + 6) % 8)
    ensures !closed && |r| > 1 ==> r[|r| - 2] != Corner(Step(cur, s), P_START[s])
    ensures pts == [] ==> !closed
    ensures (r, closed) == Listed(pts, cur, P_START[lastDir], P_END[s], 0)
  {
    ListingStart(m, pts, cur, prev, lastDir, s);
    var j, e;
    r, closed, j, e := ListLoop(m, pts, cur, prev, lastDir, P_START[lastDir], P_END[s]);
    if !closed {
      ListingEnds(m, pts, r, cur, prev, lastDir, P_START[lastDir], s, j, e);
    }
  }

  /** The loop of ListCorners: list corners from `first` until `stop` or until the contour closes. */
  method ListLoop(m: array2<bv8>, pts: seq<Point>, cur: Point, ghost prev: Point,
                  lastDir: int, first: int, stop: int)
    returns (r: seq<Point>, closed: bool, j: int, e: nat)
    requires ListingSetup(m, pts, cur, prev, lastDir, first, stop)
    requires Listing(m, pts, pts, cur, prev, lastDir, first, stop, first, 0)
    ensures closed ==> ClosedPath(r) && pts != [] && PartialPath(m, r) && |r| >= |pts| && r[0] == pts[0]
    ensures !closed ==> Listing(m, pts, r, cur, prev, lastDir, first, stop, j, e) && e > 0 && j == stop
    ensures (r, closed) == Listed(pts, cur, first, stop, 0)
  {
    j, e := first, 0;
    r, closed := pts, false;
    while e == 0 || j != stop
      invariant OddCorner(j) && |r| == |pts| + e
      invariant Listed(r, cur, j, stop, e) == Listed(pts, cur, first, stop, 0)
      decreases CornersLeft(j, stop, e)
    {
      var c := Corner(cur, j);
      ListedUnfold(r, cur, j, stop, e);
      if r != [] && c == r[0] {
        closed := true;
        break;
      }
      ListedCount(j, stop, e);
      NxIsMod(j);
      r := r + [c];
      j := (j + 2) % 8;
      e := e + 1;
    }
    if !closed {
      ListedUnfold(r, cur, j, stop, e);
    }
    assert ListingAt(m, pts, pts, cur, prev, lastDir, first, stop, first, 0);
    ListedKeeps(m, pts, pts, cur, prev, lastDir, first, stop, first, 0, (r, closed));
  }

  /** The tracer's state at the head of its loop, after `steps` pixel steps. */
  ghost predicate Tracing(m: array2<bv8>, seed: Point, cv: int, cur: Point, prev: Point,
                          lastDir: int, s: int, pts: seq<Point>, steps: nat)
    reads m
  {
    0 <= lastDir < 8 && 0 <= s < 8 && Inside(m, cur) && PartialPath(m, pts) &&
    (steps == 0 ==> cur == seed && lastDir == 5 && s == 5 && pts == []) &&
    (steps > 0 ==>
      s == NEXT_S[lastDir] && Matches(m, cur, cv) && !Isolated(m, seed, cv) &&
      Step(prev, lastDir) == cur && Inside(m, prev) && (prev == seed || Matches(m, prev, cv)) &&
      |pts| > 0 && pts[0] == seed &&
      pts[|pts| - 1] == Corner(prev, (P_END[lastDir] + 6) % 8) &&
      (|pts| > 1 ==> pts[|pts| - 2] != Corner(cur, P_START[lastDir])))
  }

  /**
   * The tracer as a function: the outcome of tracing on from pixel `cur`,
   * entered in direction `lastDir`, searching from direction `s`, with
   * the contour `pts` so far and `fuel` pixel steps left before the trace
   * counts as endless.
   */
  function TraceFrom(m: array2<bv8>, cv: int, cur: Point, lastDir: int, s: int,
                     pts: seq<Point>, fuel: int): Trace
    reads m
    requires 0 <= lastDir < 8 && 0 <= s < 8
    decreases fuel
  {
    if fuel <= 0 then Endless
    else
      var d := Turn(s, FirstTurn(m, cur, s, cv, 0));
      if FirstTurn(m, cur, s, cv, 0) == 8 then (if pts != [] then NoContour else Contour(Square(cur)))
      else
        TablesOdd(lastDir);
        TablesOdd(d);
        var l := Listed(pts, cur, P_START[lastDir], P_END[d], 0);
        if l.1 then Contour(l.0)
        else TraceFrom(m, cv, Step(cur, d), d, NEXT_S[d], l.0, fuel - 1)
  }

  /** The trace from the seed (x, y): the reference for TraceContour. */
  function Traced(m: array2<bv8>, x: int, y: int, cv: int): Trace
    reads m
  {
    if !Inside(m, Point(x, y)) then NoContour
    else TraceFrom(m, cv, Point(x, y), 5, 5, [], 8 * m.Length1 * m.Length0 + 1)
  }

  /** One unfolding of TraceFrom, with the search and the listing done. */
  lemma TraceFromStep(m: array2<bv8>, cv: int, cur: Point, lastDir: int, s0: int, pts: seq<Point>,
                      fuel: int, rest: int, turns: int, r: seq<Point>, closed: bool)
    requires 0 <= lastDir < 8 && 0 <= s0 < 8 && fuel > 0 && rest == fuel - 1
    requires turns == FirstTurn(m, cur, s0, cv, 0)
    requires turns < 8 ==> r == Listed(pts, cur, P_START[lastDir], P_END[Turn(s0, turns)], 0).0
    requires turns < 8 ==> closed == Listed(pts, cur, P_START[lastDir], P_END[Turn(s0, turns)], 0).1
    ensures turns == 8 ==>
      TraceFrom(m, cv, cur, lastDir, s0, pts, fuel) == (if pts != [] then NoContour else Contour(Square(cur)))
    ensures turns < 8 && closed ==> TraceFrom(m, cv, cur, lastDir, s0, pts, fuel) == Contour(r)
    ensures turns < 8 && !closed ==>
      0 <= NEXT_S[Turn(s0, turns)] < 8 &&
      TraceFrom(m, cv, cur, lastDir, s0, pts, fuel) ==
      TraceFrom(m, cv, Step(cur, Turn(s0, turns)), Turn(s0, turns), NEXT_S[Turn(s0, turns)], r, rest)
  {
    if turns < 8 {
      var d := Turn(s0, turns);
      TablesOdd(d);

    }
  }

  /** One pixel step of the tracer keeps `Tracing`. */
  lemma Advance(m: array2<bv8>, seed: Point, cv: int, cur: Point, prev: Point, lastDir: int,
                s0: int, s: int, pts: seq<Point>, r: seq<Point>, steps: nat)
    requires Tracing(m, seed, cv, cur, prev, lastDir, s0, pts, steps)
    requires 0 <= s < 8 && Matches(m, Step(cur, s), cv)
    requires PartialPath(m, r) && |r| > 0 && (pts != [] ==> r[0] == pts[0])
    requires pts == [] ==> r[0] == Corner(cur, P_START[lastDir])
    requires r[|r| - 1] == Corner(cur, (P_END[s] + 6) % 8)
    requires |r| > 1 ==> r[|r| - 2] != Corner(Step(cur, s), P_START[s])
    ensures Tracing(m, seed, cv, Step(cur, s), cur, s, NEXT_S[s], r, steps + 1)
  {
    TablesOdd(s);
    if steps == 0 {
      assert Matches(m, Step(seed, s), cv);
      assert !Isolated(m, seed, cv);
      assert r[0] == seed;
    }
  }

  /** What a finished trace from `seed` promises: a closed path of corners from the seed. */
  ghost predicate TraceShape(m: array2<bv8>, seed: Point, t: Trace)
    reads m
  {
    t.Contour? ==>
      ClosedPath(t.points) && NoReversal(t.points) && t.points[0] == seed &&
      (forall k :: 1 <= k < |t.points| ==> t.points[k] != t.points[0]) &&
      (forall k :: 0 <= k < |t.points| ==> CornerOf(m, t.points[k]))
  }

  /**
   * One pass of the loop of llimg_traceContour (contour.cpp:105-151) from
   * pixel `cur`: search for the next pixel, list the corners of `cur`,
   * and either finish (`done`, with the outcome `t`) or move on.
   */
  method TracePixel(m: array2<bv8>, ghost seed: Point, cv: int, cur: Point, ghost prev: Point,
                    lastDir: int, s: int, pts: seq<Point>, ghost steps: nat, ghost fuel: int)
    returns (done: bool, t: Trace, next: Point, nextDir: int, nextS: int, nextPts: seq<Point>,
             ghost nextFuel: int)
    requires Tracing(m, seed, cv, cur, prev, lastDir, s, pts, steps) && fuel > 0
    ensures done ==> t == TraceFrom(m, cv, cur, lastDir, s, pts, fuel) && TraceShape(m, seed, t)
    ensures done && t == NoContour ==> !Matches(m, seed, cv)
    ensures steps == 0 && Isolated(m, cur, cv) ==> done && t == Contour(Square(cur))
    ensures !done ==> Tracing(m, seed, cv, next, cur, nextDir, nextS, nextPts, steps + 1)
    ensures nextFuel == fuel - 1
    ensures !done ==>
      TraceFrom(m, cv, next, nextDir, nextS, nextPts, nextFuel) == TraceFrom(m, cv, cur, lastDir, s, pts, fuel)
  {
    nextFuel := fuel - 1;
    next, nextDir, nextS, nextPts := cur, lastDir, s, pts;
    var d, turns := FindNeighbour(m, cur, s, cv);
    if turns == 8 {
      TraceFromStep(m, cv, cur, lastDir, s, pts, fuel, nextFuel, turns, [], false);
      AllTurns(m, cur, s, cv);
      done := true;
      if pts != [] {
        // The pixel just left holds cv, so it cannot be missing here.
        StepBack(prev, lastDir);
        assert !Matches(m, Step(cur, (lastDir + 4) % 8), cv);
        t := NoContour;
      } else {
        t := Contour(Square(cur));
      }
      return;
    }
    var r, closed := ListCorners(m, pts, cur, prev, lastDir, d);
    TraceFromStep(m, cv, cur, lastDir, s, pts, fuel, nextFuel, turns, r, closed);
    if closed {
      done, t := true, Contour(r);
      return;
    }
    Advance(m, seed, cv, cur, prev, lastDir, s, d, pts, r, steps);
    TablesOdd(d);
    done, t := false, Endless;
    next, nextDir, nextS, nextPts := Step(cur, d), d, NEXT_S[d], r;
  }

  /**
   * llimg_traceContour: follow the boundary of the 8-connected segment of
   * value `cv` that contains the seed, listing the corners of each pixel
   * entered with the interior on the left, and stop at the first corner
   * that repeats the first one listed.
   */
  method TraceContour(m: array2<bv8>, x: int, y: int, cv: int) returns (r: Trace)
    ensures !Inside(m, Point(x, y)) ==> r == NoContour
    ensures Inside(m, Point(x, y)) && Isolated(m, Point(x, y), cv) ==> r == Contour(Square(Point(x, y)))
    ensures Matches(m, Point(x, y), cv) ==> r != NoContour
    ensures r.Contour? ==> ClosedPath(r.points) && NoReversal(r.points) && r.points[0] == Point(x, y)
    ensures r.Contour? ==> forall k :: 1 <= k < |r.points| ==> r.points[k] != r.points[0]
    ensures r.Contour? ==> forall k :: 0 <= k < |r.points| ==> CornerOf(m, r.points[k])
    ensures r == Traced(m, x, y, cv)
  {
    var seed := Point(x, y);
    if !Inside(m, seed) {
      return NoContour;
    }
    var bound := 8 * m.Length1 * m.Length0 + 1;
    var cur := seed;
    var lastDir, s := 5, 5;
    var pts: seq<Point> := [];
    var steps := 0;
    ghost var prev := seed;
    ghost var fuel: int := bound;
    ghost var goal := Traced(m, x, y, cv);
    while steps < bound
      invariant 0 <= steps <= bound && fuel == bound - steps
      invariant Tracing(m, seed, cv, cur, prev, lastDir, s, pts, steps)
      invariant TraceFrom(m, cv, cur, lastDir, s, pts, fuel) == goal
      decreases bound - steps
    {
      var done, t, next, nextDir, nextS, nextPts, nextFuel :=
        TracePixel(m, seed, cv, cur, prev, lastDir, s, pts, steps, fuel);
      if done {
        return t;
      }
      prev := cur;
      cur, lastDir, s, pts := next, nextDir, nextS, nextPts;
      steps, fuel := steps + 1, nextFuel;
    }
    return Endless;
  }

  // ---------------------------------------------------------------------
  // Corner extraction (llimg_extractCorners, contour.cpp:200-278)

  // The corner type enum of ContourPointNode (contour.h:57-61).
  const TYPE_NONE := 0
  const TYPE_TOP := 1
  const TYPE_BOT := 2

  /** A ContourPointNode: a point and its corner type. */
  datatype PointNode = PointNode(x: int, y: int, kind: int)

  /** The ContourPointNode constructor (contour.h:64-69). */
  function NewPointNode(): (n: PointNode)
    ensures n.x == 0 && n.y == 0 && n.kind == TYPE_NONE
  {
    PointNode(0, 0, TYPE_NONE)
  }

  /**
   * The tag given to `p` between `pp` and `pn`: a point whose two
   * neighbours are not both straight above or below it is tagged by the
   * side its vertical neighbour lies on, the next point's rule applied
   * last.
   */
  function CornerKind(pp: Point, p: Point, pn: Point): int
  {
    if pp.x != p.x || pn.x != p.x then
      (if pn.y != p.y then (if pn.y > p.y then TYPE_TOP else TYPE_BOT)
       else if pp.y != p.y then (if pp.y > p.y then TYPE_TOP else TYPE_BOT)
       else TYPE_NONE)
    else TYPE_NONE
  }

  /** The point after index `i` of a circular list. */
  function Succ(n: int, i: int): int
  {
    if i + 1 < n then i + 1 else 0
  }

  /** The point before index `i` of a circular list. */
  function Pred(n: int, i: int): int
  {
    if i == 0 then n - 1 else i - 1
  }

  /**
   * The corners of the first `k` points visited, in order. Visit `t`
   * looks at point `Succ(n, t)`: points 1 .. n-1, then point 0.
   */
  function CornersUpTo(poly: seq<Point>, k: int): (r: seq<PointNode>)
    requires |poly| >= 3 && 0 <= k <= |poly|
    ensures |r| <= k
    ensures forall i :: 0 <= i < |r| ==> r[i].kind == TYPE_TOP || r[i].kind == TYPE_BOT
    ensures forall i :: 0 <= i < |r| ==> Point(r[i].x, r[i].y) in poly
  {
    if k == 0 then []
    else
      var i := Succ(|poly|, k - 1);
      var t := CornerKind(poly[Pred(|poly|, i)], poly[i], poly[Succ(|poly|, i)]);
      CornersUpTo(poly, k - 1) + (if t != TYPE_NONE then [PointNode(poly[i].x, poly[i].y, t)] else [])
  }

  /** The corner list of a whole polygon. */
  function CornersOf(poly: seq<Point>): seq<PointNode>
    requires |poly| >= 3
  {
    CornersUpTo(poly, |poly|)
  }

  /**
   * llimg_extractCorners: walk the circular list once, starting with
   * the second point and ending with the first, and keep the tagged
   * points. The list must have at least three points (the source reads
   * `p->next->next` before it starts to wrap around).
   */
  method ExtractCorners(poly: seq<Point>) returns (corners: seq<PointNode>, nCorners: int)
    requires |poly| >= 3
    ensures corners == CornersOf(poly) && nCorners == |corners|
  {
    var n := |poly|;
    var pp, p, pn := 0, 1, 2;
    var k := 0;
    corners := [];
    while true
      invariant 0 <= k < n && pp == k && p == Succ(n, k) && pn == Succ(n, p)
      invariant corners == CornersUpTo(poly, k)
      decreases n - k
    {
      var t := CornerKind(poly[pp], poly[p], poly[pn]);
      if t != TYPE_NONE {
        corners := corners + [PointNode(poly[p].x, poly[p].y, t)];
      }
      pp := p;
      p := pn;
      pn := Succ(n, p);
      k := k + 1;
      if pp == 0 {
        break;
      }
    }
    nCorners := |corners|;
  }

  /** The path turns at `p`: one neighbour is horizontal from it, the other vertical. */
  predicate Turns(pp: Point, p: Point, pn: Point)
  {
    (pp.x == p.x) != (pn.x == p.x)
  }

  /**
   * On a path of unit steps that does not reverse, a point is tagged
   * exactly when the path turns there, TOP exactly when its vertical
   * neighbour lies below it (larger y) and BOT when above.
   */
  lemma CornerKindMeaning(pp: Point, p: Point, pn: Point)
    requires Adjacent(pp, p) && Adjacent(p, pn) && pp != pn
    ensures CornerKind(pp, p, pn) != TYPE_NONE <==> Turns(pp, p, pn)
    ensures CornerKind(pp, p, pn) == TYPE_TOP <==>
      Turns(pp, p, pn) && (if pn.x == p.x then pn.y else pp.y) > p.y
    ensures CornerKind(pp, p, pn) == TYPE_BOT <==>
      Turns(pp, p, pn) && (if pn.x == p.x then pn.y else pp.y) < p.y
  {
  }

  /** The tag `CornerKindMeaning` gives a turning point, stated by geometry alone. */
  function TurnKind(pp: Point, p: Point, pn: Point): int
  {
    if (if pn.x == p.x then pn.y else pp.y) > p.y then TYPE_TOP else TYPE_BOT
  }

  /** The turning points among the first `k` points visited, in visiting order. */
  function TurnsUpTo(poly: seq<Point>, k: int): seq<PointNode>
    requires |poly| >= 3 && 0 <= k <= |poly|
  {
    if k == 0 then []
    else
      var i := Succ(|poly|, k - 1);
      var pp, p, pn := poly[Pred(|poly|, i)], poly[i], poly[Succ(|poly|, i)];
      TurnsUpTo(poly, k - 1) + (if Turns(pp, p, pn) then [PointNode(p.x, p.y, TurnKind(pp, p, pn))] else [])
  }

  /** Neither neighbour of a point of a closed, non-reversing path is the other. */
  predicate Circulates(poly: seq<Point>)
  {
    ClosedPath(poly) &&
    forall i :: 0 <= i < |poly| ==> poly[Pred(|poly|, i)] != poly[Succ(|poly|, i)]
  }

  /**
   * On a closed contour that never steps straight back, the extractor
   * keeps exactly the turning points, tagged by where their vertical
   * neighbour lies.
   */
  lemma {:induction false} CornersAreTurns(poly: seq<Point>, k: int)
    requires Circulates(poly) && 0 <= k <= |poly|
    ensures CornersUpTo(poly, k) == TurnsUpTo(poly, k)
  {
    if k > 0 {
      CornersAreTurns(poly, k - 1);
      var n := |poly|;
      var i := Succ(n, k - 1);
      assert Adjacent(poly[Pred(n, i)], poly[i]) by {
        if i > 0 { assert Pred(n, i) == i - 1; } }
      assert Adjacent(poly[i], poly[Succ(n, i)]) by {
        if i < n - 1 { assert Succ(n, i) == i + 1; } }
      CornerKindMeaning(poly[Pred(n, i)], poly[i], poly[Succ(n, i)]);
    }
  }

  // ---------------------------------------------------------------------
  // Contour utilities (contour.cpp:860-938)

  /** A bounding box: left, top, right and bottom, all inclusive. */
  datatype Box = Box(left: int, top: int, right: int, bottom: int)

  /**
   * The bounding box of a contour: the least and greatest x and y of its
   * points, each taken by some point; all zero for an empty contour.
   */
  function Bounds(c: seq<Point>): Box
  {
    if |c| == 0 then Box(0, 0, 0, 0)
    else if |c| == 1 then Box(c[0].x, c[0].y, c[0].x, c[0].y)
    else
      var e := Bounds(c[..|c| - 1]);
      var p := c[|c| - 1];
      Box(Min(e.left, p.x), Min(e.top, p.y), Max(e.right, p.x), Max(e.bottom, p.y))
  }

  /** Every point of a contour lies in its box. */
  predicate Encloses(e: Box, c: seq<Point>)
  {
    forall k :: 0 <= k < |c| ==> e.left <= c[k].x <= e.right && e.top <= c[k].y <= e.bottom
  }

  /** Each side of the box is taken by some point of the contour. */
  predicate Attained(e: Box, c: seq<Point>)
  {
    (exists k :: 0 <= k < |c| && c[k].x == e.left) && (exists k :: 0 <= k < |c| && c[k].y == e.top) &&
    (exists k :: 0 <= k < |c| && c[k].x == e.right) && (exists k :: 0 <= k < |c| && c[k].y == e.bottom)
  }

  /** The box of a contour is its tight bounding box; the empty contour has the zero box. */
  lemma {:induction false} BoundsMeaning(c: seq<Point>)
    ensures c == [] ==> Bounds(c) == Box(0, 0, 0, 0)
    ensures Encloses(Bounds(c), c)
    ensures c != [] ==> Attained(Bounds(c), c)
    decreases |c|
  {
    if |c| == 1 {
      assert c[0].x == Bounds(c).left && c[0].y == Bounds(c).top;
    } else if |c| > 1 {
      var d, p := c[..|c| - 1], c[|c| - 1];
      BoundsMeaning(d);
      var e, f := Bounds(d), Bounds(c);
      assert f == Box(Min(e.left, p.x), Min(e.top, p.y), Max(e.right, p.x), Max(e.bottom, p.y));
      forall k | 0 <= k < |c| ensures f.left <= c[k].x <= f.right && f.top <= c[k].y <= f.bottom {
        if k < |d| {
          assert c[k] == d[k];
        }
      }
      var last := |c| - 1;
      assert Attained(e, d);
      var kl :| 0 <= kl < |d| && d[kl].x == e.left;
      var kt :| 0 <= kt < |d| && d[kt].y == e.top;
      var kr :| 0 <= kr < |d| && d[kr].x == e.right;
      var kb :| 0 <= kb < |d| && d[kb].y == e.bottom;
      assert c[kl] == d[kl] && c[kt] == d[kt] && c[kr] == d[kr] && c[kb] == d[kb];
      assert c[if f.left == p.x then last else kl].x == f.left;
      assert c[if f.top == p.y then last else kt].y == f.top;
      assert c[if f.right == p.x then last else kr].x == f.right;
      assert c[if f.bottom == p.y then last else kb].y == f.bottom;
    }
  }

  /** Extending a contour prefix by one point widens its box to take the point in. */
  lemma BoundsStep(c: seq<Point>, i: int)
    requires 1 <= i < |c|
    ensures Bounds(c[..i + 1]) ==
      Box(Min(Bounds(c[..i]).left, c[i].x), Min(Bounds(c[..i]).top, c[i].y),
          Max(Bounds(c[..i]).right, c[i].x), Max(Bounds(c[..i]).bottom, c[i].y))
  {
    var d := c[..i + 1];
    assert |d| == i + 1 && d[..|d| - 1] == c[..i] && d[|d| - 1] == c[i];
  }

  /**
   * llimg_measureContour: the number of points and the bounding box
   * (left, top, right, bottom) of a contour; all zero for a null one.
   */
  method MeasureContour(contour: seq<Point>) returns (perim: int, l: int, t: int, r: int, b: int)
    ensures perim == |contour| && Box(l, t, r, b) == Bounds(contour)
  {
    if contour == [] {
      return 0, 0, 0, 0, 0;
    }
    l, t := contour[0].x, contour[0].y;
    r, b := l, t;
    perim := 0;
    var i := 0;
    while i < |contour|
      invariant 0 <= i <= |contour| && perim == i
      invariant Box(l, t, r, b) == Bounds(contour[..Max(i, 1)])
    {
      var c := contour[i];
      if i > 0 {
        BoundsStep(contour, i);
      }
      if l > c.x { l := c.x; }
      if t > c.y { t := c.y; }
      if r < c.x { r := c.x; }
      if b < c.y { b := c.y; }
      perim := perim + 1;
      i := i + 1;
    }
    assert contour[..|contour|] == contour;
  }

  /** Pixel (x, y) is one that llimg_plotContour writes. */
  predicate Plotted(contour: seq<Point>, xmax: int, ymax: int, x: int, y: int)
  {
    y < ymax && x < xmax && Point(x, y) in contour
  }

  /**
   * llimg_plotContour: write `cv` (as a byte) at every contour point
   * that lies below `ymax` and left of `xmax`; nothing else changes.
   * The caller's rows must cover `xmax` x `ymax`, and contour points are
   * unsigned, so every write lands in the raster.
   */
  method PlotContour(m: array2<bv8>, xmax: int, ymax: int, contour: seq<Point>, cv: int) returns (rc: int)
    requires xmax <= m.Length1 && ymax <= m.Length0
    requires forall k :: 0 <= k < |contour| ==> contour[k].x >= 0 && contour[k].y >= 0
    modifies m
    ensures rc == 0
    ensures forall y, x :: 0 <= y < m.Length0 && 0 <= x < m.Length1 ==>
      m[y, x] == if Plotted(contour, xmax, ymax, x, y) then ToByte(cv) else old(m[y, x])
  {
    var i := 0;
    while i < |contour|
      invariant 0 <= i <= |contour|
      invariant forall y, x :: 0 <= y < m.Length0 && 0 <= x < m.Length1 ==>
        m[y, x] == if Plotted(contour[..i], xmax, ymax, x, y) then ToByte(cv) else old(m[y, x])
    {
      var pt := contour[i];
      assert contour[..i + 1] == contour[..i] + [pt];
      if pt.y < ymax && pt.x < xmax {
        m[pt.y, pt.x] := ToByte(cv);
      }
      i := i + 1;
    }
    assert contour[..i] == contour;
    return 0;
  }

  /**
   * llimg_makeContourPointArray: count the points, then copy them into a
   * new array; null for an empty contour.
   */
  method MakeContourPointArray(contour: seq<Point>) returns (a: array?<Point>, nPts: int)
    ensures nPts == |contour|
    ensures a == null <==> contour == []
    ensures a != null ==> fresh(a) && a[..] == contour
  {
    nPts := 0;
    var curr := contour;
    while curr != []
      invariant 0 <= nPts <= |contour| && curr == contour[nPts..]
    {
      curr := curr[1..];
      nPts := nPts + 1;
    }
    if nPts == 0 {
      return null, nPts;
    }
    a := new Point[nPts];
    var i := 0;
    while i < nPts
      invariant 0 <= i <= nPts
      invariant forall k :: 0 <= k < i ==> a[k] == contour[k]
    {
      a[i] := Point(contour[i].x, contour[i].y);
      i := i + 1;
    }
  }
}
