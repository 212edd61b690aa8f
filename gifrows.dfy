/**
 * The interlaced row order of GIF89a Appendix E and the row sequencer of
 * doInterlace (readgif.cpp:903-967).
 *
 * An interlaced image sends its rows in four passes: every eighth row
 * from row 0, every eighth row from row 4, every fourth row from row 2,
 * and every second row from row 1. `Order(h)` is that sequence for an
 * image `h` rows high; it is proved to be a permutation of the rows.
 *
 * The sequencer moves to the next row each time a row is complete. As
 * written it starts each new pass at that pass's first row even when the
 * first row is already past the bottom of the image. The pixels of that
 * phantom row are then dropped, and the rows of the pass that follows are
 * never reached. This happens for images 2, 3 or 4 rows high.
 * `NextRow` is the sequencer that skips such empty passes, and it is
 * proved to visit `Order(h)`.
 */
module GifRows {
  import opened Common
  import opened LlImage

  /** The first row and the row step of each pass. */
  function PassStart(p: nat): nat
    requires p < 4
  {
    [0, 4, 2, 1][p]
  }

  function PassStep(p: nat): nat
    requires p < 4
  {
    [8, 8, 4, 2][p]
  }

  /** The rows below `h` of the pass that starts at `s` and steps by `d`. */
  function PassRows(s: nat, d: nat, h: nat): (r: seq<nat>)
    requires d >= 1
    ensures forall i :: 0 <= i < |r| ==> r[i] < h
    decreases h - s
  {
    if s >= h then [] else [s] + PassRows(s + d, d, h)
  }

  /** The rows of pass `p`. */
  function Pass(p: nat, h: nat): seq<nat>
    requires p < 4
  {
    PassRows(PassStart(p), PassStep(p), h)
  }

  /** The order in which an interlaced image `h` rows high sends its rows. */
  function Order(h: nat): (o: seq<nat>)
    ensures |o| == h
  {
    PassCounts(h);
    assert h == 8 * (h / 8) + h % 8;
    Pass(0, h) + Pass(1, h) + Pass(2, h) + Pass(3, h)
  }

  /** The rows that the passes before pass `p` send. */
  function Before(p: nat, h: nat): nat
    requires p < 4
  {
    if p == 0 then 0 else Before(p - 1, h) + |Pass(p - 1, h)|
  }

  // ---------------------------------------------------------------------
  // The order is a permutation of the rows

  /** Entry `j` of a pass is `s + j*d`, and there is one for every such row below `h`. */
  lemma {:induction false} PassRowsAt(s: nat, d: nat, h: nat, j: nat)
    requires d >= 1
    ensures j < |PassRows(s, d, h)| <==> s + j * d < h
    ensures j < |PassRows(s, d, h)| ==> PassRows(s, d, h)[j] == s + j * d
    decreases h - s
  {
    if s < h && j > 0 {
      PassRowsAt(s + d, d, h, j - 1);
      assert s + d + (j - 1) * d == s + j * d;
    }
  }

  /** The residue of a row modulo 8 says which pass sends it. */
  predicate InPass(p: nat, y: nat)
    requires p < 4
  {
    match p
    case 0 => y % 8 == 0
    case 1 => y % 8 == 4
    case 2 => y % 4 == 2
    case _ => y % 2 == 1
  }

  /** A row `j` steps of `d` after `s` is entry `j` of that pass. */
  lemma StepsIn(s: nat, d: nat, h: nat, y: nat, j: nat)
    requires d >= 1 && y < h && y == s + j * d
    ensures j < |PassRows(s, d, h)| && PassRows(s, d, h)[j] == y
  {
    PassRowsAt(s, d, h, j);
  }

  /** A row with the residue of pass `p` is in that pass, at index `(y - start) / step`. */
  lemma PassHasRow(p: nat, h: nat, y: nat)
    requires p < 4 && y < h && InPass(p, y)
    ensures y >= PassStart(p)
    ensures (y - PassStart(p)) / PassStep(p) < |Pass(p, h)|
    ensures Pass(p, h)[(y - PassStart(p)) / PassStep(p)] == y
  {
    var s, d := PassStart(p), PassStep(p);
    assert y >= s by {
      if p == 1 { assert y % 8 == 4; }
      if p == 2 { assert y % 4 == 2; }
      if p == 3 { assert y % 2 == 1; }
    }
    var j := (y - s) / d;
    assert (y - s) % d == 0 by {
      if p == 1 { assert (y - 4) % 8 == 0; }
      if p == 2 { assert (y - 2) % 4 == 0; }
      if p == 3 { assert (y - 1) % 2 == 0; }
    }
    assert y - s == j * d;
    StepsIn(s, d, h, y, j);
  }

  /** Row `s + j*d` of pass `p` has that pass's residue. */
  lemma Residue(p: nat, j: nat)
    requires p < 4
    ensures InPass(p, PassStart(p) + j * PassStep(p))
  {
  }

  /** No row is in two passes. */
  lemma PassesDisjoint(p: nat, q: nat, y: nat)
    requires p < q < 4
    ensures !(InPass(p, y) && InPass(q, y))
  {
  }

  /** Every row is in some pass. */
  lemma SomePass(y: nat)
    ensures InPass(0, y) || InPass(1, y) || InPass(2, y) || InPass(3, y)
  {
  }

  /** Euclidean division by a positive step brackets its dividend. */
  lemma DivBracket(x: nat, d: nat)
    requires d >= 1
    ensures (x / d) * d <= x < (x / d + 1) * d
  {
    assert x == d * (x / d) + x % d;
  }

  /** How many rows a pass sends. */
  lemma PassLength(p: nat, h: nat)
    requires p < 4
    ensures |Pass(p, h)| == if PassStart(p) >= h then 0 else (h - 1 - PassStart(p)) / PassStep(p) + 1
  {
    var s, d := PassStart(p), PassStep(p);
    if s < h {
      var c := (h - 1 - s) / d;
      DivBracket(h - 1 - s, d);
      PassRowsAt(s, d, h, c);
      PassRowsAt(s, d, h, c + 1);
      assert (c + 1) * d == c * d + d;
    } else {
      PassRowsAt(s, d, h, 0);
    }
  }

  /** The length of each pass, in eighths of the image. */
  lemma PassCounts(h: nat)
    ensures |Pass(0, h)| == h / 8 + (if h % 8 >= 1 then 1 else 0)
    ensures |Pass(1, h)| == h / 8 + (if h % 8 >= 5 then 1 else 0)
    ensures |Pass(2, h)| == 2 * (h / 8) + (if h % 8 >= 3 then 1 else 0) + (if h % 8 >= 7 then 1 else 0)
    ensures |Pass(3, h)| == 4 * (h / 8) + (h % 8) / 2
  {
    PassLength(0, h);
    PassLength(1, h);
    PassLength(2, h);
    PassLength(3, h);
    var q, r := h / 8, h % 8;
    assert h == 8 * q + r;
    if h > 0 {
      assert (h - 1) / 8 == q + (r - 1) / 8;
      assert (h - 1) / 2 == 4 * q + (r - 1) / 2;
    }
    if h > 4 {
      assert (h - 5) / 8 == q + (r - 5) / 8;
    }
    if h > 2 {
      assert (h - 3) / 4 == 2 * q + (r - 3) / 4;
    }
  }

  /** The rows sent before each pass. */
  lemma BeforeValues(h: nat)
    ensures Before(1, h) == |Pass(0, h)|
    ensures Before(2, h) == |Pass(0, h)| + |Pass(1, h)|
    ensures Before(3, h) == |Pass(0, h)| + |Pass(1, h)| + |Pass(2, h)|
  {
    assert Before(0, h) == 0;
  }

  /** Where the passes sit in the order. */
  lemma OrderAt(h: nat, p: nat, j: nat)
    requires p < 4 && j < |Pass(p, h)|
    ensures Before(p, h) + j < |Order(h)| && Order(h)[Before(p, h) + j] == Pass(p, h)[j]
  {
    var a, b, c, d := Pass(0, h), Pass(1, h), Pass(2, h), Pass(3, h);
    var o := a + b + c + d;
    assert Order(h) == o;
    BeforeValues(h);
    if p == 0 {
      assert o[j] == a[j];
    } else if p == 1 {
      assert Before(1, h) == |a|;
      assert o[|a| + j] == b[j];
    } else if p == 2 {
      assert Before(2, h) == |a| + |b|;
      assert o[|a| + |b| + j] == c[j];
    } else {
      assert Before(3, h) == |a| + |b| + |c|;
      assert o[|a| + |b| + |c| + j] == d[j];
    }
  }

  /** Each place in the order belongs to one pass, at one index. */
  lemma Locate(h: nat, i: nat) returns (p: nat, j: nat)
    requires i < |Order(h)|
    ensures p < 4 && j < |Pass(p, h)| && i == Before(p, h) + j
    ensures Order(h)[i] == Pass(p, h)[j]
  {
    var a, b, c, d := |Pass(0, h)|, |Pass(1, h)|, |Pass(2, h)|, |Pass(3, h)|;
    assert |Order(h)| == a + b + c + d;
    BeforeValues(h);
    if i < a {
      p, j := 0, i;
    } else if i < a + b {
      p, j := 1, i - a;
    } else if i < a + b + c {
      p, j := 2, i - a - b;
    } else {
      p, j := 3, i - a - b - c;
    }
    OrderAt(h, p, j);
  }

  /** Every row below `h` appears in the order. */
  lemma OrderCovers(h: nat, y: nat)
    requires y < h
    ensures y in Order(h)
  {
    SomePass(y);
    var p: nat :| p < 4 && InPass(p, y);
    PassHasRow(p, h, y);
    var j := (y - PassStart(p)) / PassStep(p);
    OrderAt(h, p, j);
  }

  /** A pass sends its rows top to bottom. */
  lemma PassIncreasing(p: nat, h: nat, a: nat, b: nat)
    requires p < 4 && a < b < |Pass(p, h)|
    ensures Pass(p, h)[a] < Pass(p, h)[b]
  {
    var s, d := PassStart(p), PassStep(p);
    PassRowsAt(s, d, h, a);
    PassRowsAt(s, d, h, b);
    assert a * d < b * d;
  }

  /** A row of pass `p` has the residue of pass `p`. */
  lemma PassResidue(p: nat, h: nat, a: nat)
    requires p < 4 && a < |Pass(p, h)|
    ensures InPass(p, Pass(p, h)[a])
  {
    PassRowsAt(PassStart(p), PassStep(p), h, a);
    Residue(p, a);
  }

  /** No row appears twice in the order. */
  lemma OrderDistinct(h: nat, i: nat, k: nat)
    requires i < k < |Order(h)|
    ensures Order(h)[i] != Order(h)[k]
  {
    var p, a := Locate(h, i);
    var q, b := Locate(h, k);
    if p == q {
      PassIncreasing(p, h, a, b);
    } else {
      PassResidue(p, h, a);
      PassResidue(q, h, b);
      if p < q {
        PassesDisjoint(p, q, Order(h)[i]);
      } else {
        PassesDisjoint(q, p, Order(h)[i]);
      }
    }
  }

  /**
   * GIF89a Appendix E: the order is a permutation of the rows `0 .. h-1`;
   * it is `h` long, names only rows below `h`, names every such row, and
   * names none twice.
   */
  lemma OrderIsPermutation(h: nat)
    ensures |Order(h)| == h
    ensures forall i :: 0 <= i < h ==> Order(h)[i] < h
    ensures forall y :: 0 <= y < h ==> y in Order(h)
    ensures forall i, k :: 0 <= i < k < h ==> Order(h)[i] != Order(h)[k]
  {
    forall y | 0 <= y < h
      ensures y in Order(h)
    {
      OrderCovers(h, y);
    }
    forall i, k | 0 <= i < k < h
      ensures Order(h)[i] != Order(h)[k]
    {
      OrderDistinct(h, i, k);
    }
  }

  // ---------------------------------------------------------------------
  // The sequencer

  /** The switch statement of doInterlace as written (readgif.cpp:930-965). */
  function NextRowAsWritten(h: nat, p: nat, y: nat): (r: (nat, nat))
    requires p < 4
    ensures r.0 < 4
  {
    if p == 3 then (3, y + 2)
    else if y + PassStep(p) < h then (p, y + PassStep(p))
    else (p + 1, PassStart(p + 1))
  }

  /** From pass `p`, the first pass whose first row is inside the image (or the last pass). */
  function Settle(h: nat, p: nat): (q: nat)
    requires p < 4
    ensures p <= q < 4
    decreases 4 - p
  {
    if p < 3 && PassStart(p) >= h then Settle(h, p + 1) else p
  }

  /** The sequencer with empty passes skipped. */
  function NextRow(h: nat, p: nat, y: nat): (r: (nat, nat))
    requires p < 4
    ensures r.0 < 4
  {
    if p == 3 then (3, y + 2)
    else if y + PassStep(p) < h then (p, y + PassStep(p))
    else (Settle(h, p + 1), PassStart(Settle(h, p + 1)))
  }

  /** The pass and row after `k` rows are complete, starting from pass 0, row 0. */
  function Rows(h: nat, k: nat): (r: (nat, nat))
    ensures r.0 < 4
  {
    if k == 0 then (0, 0) else NextRow(h, Rows(h, k - 1).0, Rows(h, k - 1).1)
  }

  /** The same, for the sequencer as written. */
  function RowsAsWritten(h: nat, k: nat): (r: (nat, nat))
    ensures r.0 < 4
  {
    if k == 0 then (0, 0) else NextRowAsWritten(h, RowsAsWritten(h, k - 1).0, RowsAsWritten(h, k - 1).1)
  }

  /** The passes from `p` to just before `q` send no rows when `q` is where `p` settles. */
  lemma {:induction false} SettleSkipsEmpty(h: nat, p: nat)
    requires p < 4
    ensures Before(Settle(h, p), h) == Before(p, h)
    ensures Settle(h, p) < 3 ==> PassStart(Settle(h, p)) < h
    ensures Settle(h, p) == 3 && PassStart(3) >= h ==> Before(3, h) + |Pass(3, h)| == Before(p, h)
    decreases 4 - p
  {
    if p < 3 && PassStart(p) >= h {
      PassRowsAt(PassStart(p), PassStep(p), h, 0);
      assert |Pass(p, h)| == 0;
      SettleSkipsEmpty(h, p + 1);
    } else if p == 3 && PassStart(3) >= h {
      PassRowsAt(PassStart(3), PassStep(3), h, 0);
    }
  }

  /** All four passes together send the whole order. */
  lemma BeforeEnd(h: nat)
    ensures Before(3, h) + |Pass(3, h)| == |Order(h)|
  {
    BeforeValues(h);
  }

  /** One step of the sequencer moves from index `i` of a pass to the next place in the order. */
  lemma StepFollows(h: nat, p: nat, i: nat) returns (j: nat)
    requires p < 4 && i < |Pass(p, h)| && Before(p, h) + i + 1 < h
    ensures var r := NextRow(h, p, Pass(p, h)[i]);
      j < |Pass(r.0, h)| && Before(r.0, h) + j == Before(p, h) + i + 1 && r.1 == Pass(r.0, h)[j]
  {
    BeforeEnd(h);
    var s, d := PassStart(p), PassStep(p);
    var y := Pass(p, h)[i];
    PassRowsAt(s, d, h, i);
    PassRowsAt(s, d, h, i + 1);
    assert s + (i + 1) * d == y + d;
    if p == 3 || y + d < h {
      j := i + 1;
    } else {
      var q := Settle(h, p + 1);
      BeforeValues(h);
      assert Before(p + 1, h) == Before(p, h) + i + 1;
      SettleSkipsEmpty(h, p + 1);
      PassRowsAt(PassStart(q), PassStep(q), h, 0);
      j := 0;
    }
  }

  /**
   * Before row `k` of the order, the sequencer is in the pass that sends
   * it, at the right index `j`; so it visits the rows in the order of
   * Appendix E.
   */
  lemma {:induction false} RowsFollowOrder(h: nat, k: nat) returns (j: nat)
    requires k < h
    ensures j < |Pass(Rows(h, k).0, h)| && k == Before(Rows(h, k).0, h) + j
    ensures Rows(h, k).1 == Pass(Rows(h, k).0, h)[j]
  {
    if k == 0 {
      PassRowsAt(0, 8, h, 0);
      j := 0;
    } else {
      var i := RowsFollowOrder(h, k - 1);
      j := StepFollows(h, Rows(h, k - 1).0, i);
    }
  }

  /** The sequencer visits the rows of the order, one after another. */
  lemma RowsAreOrder(h: nat, k: nat)
    requires k < h
    ensures Rows(h, k).1 == Order(h)[k]
  {
    var j := RowsFollowOrder(h, k);
    OrderAt(h, Rows(h, k).0, j);
  }

  /** For a row that the order sends, the sequencer is in the pass of its residue. */
  lemma RowsAligned(h: nat, k: nat)
    requires k < h
    ensures Rows(h, k).1 < h && InPass(Rows(h, k).0, Rows(h, k).1)
  {
    var j := RowsFollowOrder(h, k);
    var p := Rows(h, k).0;
    PassRowsAt(PassStart(p), PassStep(p), h, j);
    Residue(p, j);
  }

  /** Finishing a row always moves the sequencer to another row. */
  lemma NextRowMoves(h: nat, p: nat, y: nat)
    requires p < 4 && InPass(p, y)
    ensures NextRow(h, p, y).1 != y
  {
    if p < 3 && y + PassStep(p) >= h {
      var q := Settle(h, p + 1);
      assert InPass(q, PassStart(q));
      PassesDisjoint(p, q, y);
    }
  }

  /** One step of the sequencer keeps it on a row of its pass. */
  lemma AlignedStep(h: nat, p: nat, y: nat)
    requires p < 4 && InPass(p, y)
    ensures InPass(NextRow(h, p, y).0, NextRow(h, p, y).1)
  {
    if p < 3 && y + PassStep(p) >= h {
      var q := Settle(h, p + 1);
      assert InPass(q, PassStart(q));
    } else if p == 0 || p == 1 {
      assert (y + 8) % 8 == y % 8;
    } else if p == 2 {
      assert (y + 4) % 4 == y % 4;
    } else {
      assert (y + 2) % 2 == y % 2;
    }
  }

  /** The sequencer stays on rows of the pass it is in. */
  lemma {:induction false} RowsAlwaysAligned(h: nat, k: nat)
    ensures InPass(Rows(h, k).0, Rows(h, k).1)
  {
    if k > 0 {
      RowsAlwaysAligned(h, k - 1);
      AlignedStep(h, Rows(h, k - 1).0, Rows(h, k - 1).1);
    }
  }

  /** After the last row of the order the sequencer is in the last pass, below the image. */
  lemma LastStep(h: nat)
    requires h >= 1
    ensures Rows(h, h).0 == 3 && Rows(h, h).1 >= h
  {
    var j := RowsFollowOrder(h, h - 1);
    LastOfOrder(h, Rows(h, h - 1).0, j);
  }

  /** From the last row of the order, the sequencer leaves the image for good. */
  lemma LastOfOrder(h: nat, p: nat, j: nat)
    requires p < 4 && j < |Pass(p, h)| && Before(p, h) + j + 1 == h
    ensures NextRow(h, p, Pass(p, h)[j]).0 == 3 && NextRow(h, p, Pass(p, h)[j]).1 >= h
  {
    BeforeEnd(h);
    BeforeValues(h);
    var s, d := PassStart(p), PassStep(p);
    var y := Pass(p, h)[j];
    PassRowsAt(s, d, h, j + 1);
    PassRowsAt(s, d, h, j);
    assert s + (j + 1) * d == y + d;
    if p < 3 {
      assert Before(p + 1, h) == h;
      var q := Settle(h, p + 1);
      SettleSkipsEmpty(h, p + 1);
      PassRowsAt(PassStart(q), PassStep(q), h, 0);
    }
  }

  /** Past the rows of the order, the sequencer is below the image for good. */
  lemma {:induction false} RowsPastEnd(h: nat, r: nat)
    requires r >= h
    ensures h >= 1 ==> Rows(h, r).0 == 3
    ensures Rows(h, r).1 >= h
  {
    if h >= 1 {
      if r == h {
        LastStep(h);
      } else {
        RowsPastEnd(h, r - 1);
      }
    }
  }

  /**
   * The sequencer as written loses rows: an interlaced image two rows
   * high gets its second row of data at row 4, which is dropped, and
   * row 1 is never visited at all.
   */
  lemma AsWrittenLosesRows()
    ensures RowsAsWritten(2, 1) == (1, 4)
    ensures Order(2) == [0, 1]
    ensures forall k :: 0 <= k < 2 ==> RowsAsWritten(2, k).1 != 1
    ensures forall k :: 0 <= k < 2 ==> Rows(2, k).1 == Order(2)[k]
  {
    assert Pass(0, 2) == [0] && Pass(1, 2) == [] && Pass(2, 2) == [] && Pass(3, 2) == [1];
    assert Rows(2, 1) == (3, 1);
  }

  /**
   * Three rows high, the sequencer as written sends the second row of
   * data off the image (row 4) and the third to row 2, which Appendix E
   * gives the second; row 1 is never visited.
   */
  lemma AsWrittenThreeRows()
    ensures [RowsAsWritten(3, 0).1, RowsAsWritten(3, 1).1, RowsAsWritten(3, 2).1] == [0, 4, 2]
    ensures Order(3) == [0, 2, 1]
  {
    assert RowsAsWritten(3, 1) == (1, 4);
    assert Pass(0, 3) == [0] && Pass(1, 3) == [] && Pass(2, 3) == [2] && Pass(3, 3) == [1];
  }

  /**
   * Four rows high, the sequencer as written sends the second row of
   * data off the image (row 4) and the third and fourth to rows 2 and 1;
   * row 3 is never visited.
   */
  lemma AsWrittenFourRows()
    ensures [RowsAsWritten(4, 0).1, RowsAsWritten(4, 1).1, RowsAsWritten(4, 2).1, RowsAsWritten(4, 3).1] == [0, 4, 2, 1]
    ensures Order(4) == [0, 2, 1, 3]
  {
    assert RowsAsWritten(4, 2) == (2, 2);
    assert Pass(0, 4) == [0] && Pass(1, 4) == [] && Pass(2, 4) == [2] && Pass(3, 4) == [1, 3];
  }

  // ---------------------------------------------------------------------
  // Where the pixels go

  /**
   * The byte of the picture that pixel `k` of the decoded stream lands
   * on, or -1 when it is dropped: the next byte for a progressive image,
   * and for an interlaced one column `k % w` of the row that
   * Appendix E sends `k / w`-th.
   */
  function Spot(w: nat, h: nat, interlaced: bool, k: nat): int
  {
    if !interlaced then k
    else if w == 0 || k / w >= h then -1
    else Order(h)[k / w] * w + k % w
  }

  /** Row `r` of a `w`-wide picture holds the bytes `r*w ..< r*w + w`. */
  lemma CellInRow(w: nat, r: nat, c: nat, h: nat)
    requires c < w && r < h
    ensures r * w <= r * w + c < (r + 1) * w <= h * w
  {
    NextMultiple(r, w);
    if r + 1 < h {
      ScaleOrder(r + 1, h, w);
    }
  }

  /** Bytes of different rows or columns are different bytes. */
  lemma RowBytesApart(w: nat, r1: nat, c1: nat, r2: nat, c2: nat)
    requires c1 < w && c2 < w && (r1 != r2 || c1 != c2)
    ensures r1 * w + c1 != r2 * w + c2
  {
    if r1 < r2 {
      CellInRow(w, r1, c1, r2);
    } else if r2 < r1 {
      CellInRow(w, r2, c2, r1);
    }
  }

  /** Pixel `k` of a `w`-wide stream is column `k % w` of row `k / w`. */
  lemma RowColumn(k: nat, w: nat)
    requires w >= 1
    ensures k == (k / w) * w + k % w && k % w < w
  {
  }

  /** A pixel of an interlaced picture that is not dropped lies in a row of the picture. */
  lemma SpotRow(w: nat, h: nat, k: nat)
    requires Spot(w, h, true, k) >= 0
    ensures w >= 1 && k / w < h && Spot(w, h, true, k) == Order(h)[k / w] * w + k % w
  {
  }

  /** Different cells of the interlaced picture are different bytes. */
  lemma CellsApart(w: nat, h: nat, a: nat, c1: nat, b: nat, c2: nat)
    requires a < h && b < h && c1 < w && c2 < w && (a != b || c1 != c2)
    ensures Order(h)[a] * w + c1 != Order(h)[b] * w + c2
  {
    if a < b {
      OrderDistinct(h, a, b);
    } else if b < a {
      OrderDistinct(h, b, a);
    }
    RowBytesApart(w, Order(h)[a], c1, Order(h)[b], c2);
  }

  /** Different pixels of the interlaced stream go to different cells. */
  lemma PixelsApart(w: nat, h: nat, k1: nat, k2: nat)
    requires w >= 1 && k1 != k2 && k1 / w < h && k2 / w < h
    ensures Order(h)[k1 / w] * w + k1 % w != Order(h)[k2 / w] * w + k2 % w
  {
    var a, c1, b, c2 := k1 / w, k1 % w, k2 / w, k2 % w;
    RowColumn(k1, w);
    RowColumn(k2, w);
    CellsApart(w, h, a, c1, b, c2);
  }

  /** Two pixels never land on the same byte. */
  lemma SpotInjective(w: nat, h: nat, interlaced: bool, k1: nat, k2: nat)
    requires k1 != k2 && Spot(w, h, interlaced, k1) >= 0
    ensures Spot(w, h, interlaced, k1) != Spot(w, h, interlaced, k2)
  {
    if interlaced && Spot(w, h, interlaced, k2) >= 0 {
      SpotRow(w, h, k1);
      SpotRow(w, h, k2);
      PixelsApart(w, h, k1, k2);
    }
  }

  /** The pixels of an interlaced picture stay inside its `w * h` bytes. */
  lemma SpotInside(w: nat, h: nat, k: nat)
    requires Spot(w, h, true, k) >= 0
    ensures Spot(w, h, true, k) < w * h
  {
    OrderIsPermutation(h);
    RowColumn(k, w);
    CellInRow(w, Order(h)[k / w], k % w, h);
  }

  /**
   * Where readImage sends decoded pixels (readgif.cpp:726-729 and
   * 790-795): into the next byte of the picture for a progressive image,
   * or through doInterlace for an interlaced one. The cursor of
   * doInterlace (`XC`, `YC`, `Pass` and the statics `ptr`, `oldYC`) is
   * part of the sink.
   */
  class Sink {
    const pic: array<bv8>
    const width: nat
    const height: nat
    const interlaced: bool
    var picPtr: nat
    var xc: nat
    var yc: nat
    var pass: nat
    var ptr: int
    var oldYC: int
    /** The pixels handed to the sink so far. */
    ghost var emitted: seq<int>

    /** doInterlace's row and column are those of pixel `|emitted|` of the row sequence. */
    ghost predicate Cursor()
      reads this
      requires width >= 1
    {
      pass < 4 && xc == |emitted| % width &&
      (pass, yc) == Rows(height, |emitted| / width)
    }

    /** ... and its row pointer is where that pixel goes. */
    ghost predicate Sequenced()
      reads this
      requires width >= 1
    {
      Cursor() &&
      (xc == 0 ==> oldYC != yc) &&
      (xc > 0 ==> oldYC == yc) &&
      (xc > 0 && yc < height ==> ptr == yc * width + xc)
    }

    /** The cursors agree with the number of pixels handed over. */
    ghost predicate Shape()
      reads this
    {
      pass < 4 &&
      pic.Length == LongAligned(width) * height &&
      (!interlaced ==> picPtr == |emitted|) &&
      (interlaced && width >= 1 ==> Sequenced())
    }

    /** Each pixel handed over so far sits on its spot. */
    ghost predicate Valid()
      reads this, pic
    {
      Shape() && PlacedIn(pic[..], width, height, interlaced, emitted)
    }

    /** The picture buffer of readgif.cpp:699-701 and the cursor reset of readgif.cpp:160. */
    constructor(w: nat, h: nat, interlace: bool)
      ensures Valid() && fresh(pic)
      ensures width == w && height == h && interlaced == interlace && emitted == []
    {
      LongAlignedBounds(w);
      pic := new bv8[LongAligned(w) * h];
      width, height, interlaced := w, h, interlace;
      picPtr, xc, yc, pass, ptr, oldYC := 0, 0, 0, 0, 0, -1;
      emitted := [];
    }

    /** Hand one pixel to the picture. */
    method Emit(v: int)
      requires Valid() && 0 <= v < 256
      modifies this, pic
      ensures Valid() && emitted == old(emitted) + [v]
      ensures forall i :: 0 <= i < pic.Length && i != Spot(width, height, interlaced, |old(emitted)|) ==>
        pic[i] == old(pic[i])
    {
      if interlaced {
        DoInterlace(v);
      } else {
        ghost var p0 := pic[..];
        if picPtr < pic.Length {
          pic[picPtr] := v as bv8;
          ByteValue(v);
        }
        picPtr := picPtr + 1;
        PlacedStep(p0, pic[..], width, height, interlaced, emitted, v);
        emitted := emitted + [v];
      }
    }

    /** doInterlace (readgif.cpp:903-967), with empty passes skipped. */
    method DoInterlace(v: int)
      requires Valid() && interlaced && 0 <= v < 256
      modifies this, pic
      ensures Valid() && emitted == old(emitted) + [v]
      ensures forall i :: 0 <= i < pic.Length && i != Spot(width, height, interlaced, |old(emitted)|) ==>
        pic[i] == old(pic[i])
    {
      ghost var p0 := pic[..];
      Place(v);
      Advance();
      PlacedStep(p0, pic[..], width, height, interlaced, emitted, v);
      emitted := emitted + [v];
    }

    /** The first half of doInterlace: find the row and store the pixel in it. */
    method Place(v: int)
      requires Shape() && interlaced && 0 <= v < 256
      modifies this`ptr, this`oldYC, pic
      ensures oldYC == yc
      ensures width >= 1 && yc < height ==> ptr == yc * width + xc + 1
      ensures 0 <= Spot(width, height, interlaced, |emitted|) < pic.Length ==>
        pic[Spot(width, height, interlaced, |emitted|)] as int == v
      ensures forall i :: 0 <= i < pic.Length && i != Spot(width, height, interlaced, |emitted|) ==>
        pic[i] == old(pic[i])
    {
      ghost var k := |emitted|;
      ghost var s := Spot(width, height, interlaced, k);
      if oldYC != yc {
        ptr := yc * width;
        oldYC := yc;
      }
      if width >= 1 {
        SpotOfCursor(width, height, k);
        LongAlignedBounds(width);
        if yc < height {
          CellInRow(width, yc, xc, height);
          ScaleOrder(width, LongAligned(width), height);
        }
      } else {
        assert pic.Length == 0;
      }
      if yc < height {
        if 0 <= ptr < pic.Length {
          pic[ptr] := v as bv8;
          ByteValue(v);
        }
        ptr := ptr + 1;
      }
    }

    /** The second half of doInterlace: move on one column, and to the next row at the end of one. */
    method Advance()
      requires pass < 4 && (width >= 1 ==> Cursor() && oldYC == yc)
      modifies this`xc, this`yc, this`pass
      ensures width >= 1 ==> pass < 4 && xc == (|emitted| + 1) % width
      ensures width >= 1 ==> (pass, yc) == Rows(height, (|emitted| + 1) / width)
      ensures width >= 1 && xc == 0 ==> oldYC != yc
      ensures width >= 1 && xc > 0 ==> yc == old(yc) && xc == old(xc) + 1
      ensures width == 0 ==> pass < 4
    {
      ghost var k := |emitted|;
      xc := xc + 1;
      if xc == width {
        xc := 0;
        RowsAlwaysAligned(height, k / width);
        NextRowMoves(height, pass, yc);
        var r := NextRow(height, pass, yc);
        pass, yc := r.0, r.1;
      }
      if width >= 1 {
        RowAdvance(k, width);
      }
    }
  }

  /** Each of the pixels `e` sits on its spot of the picture `p`. */
  ghost predicate PlacedIn(p: seq<bv8>, w: nat, h: nat, interlaced: bool, e: seq<int>)
  {
    forall k :: 0 <= k < |e| && 0 <= Spot(w, h, interlaced, k) < |p| ==>
      p[Spot(w, h, interlaced, k)] as int == e[k]
  }

  /** Storing the next pixel on its spot, and nowhere else, keeps the earlier ones in place. */
  lemma PlacedStep(p: seq<bv8>, q: seq<bv8>, w: nat, h: nat, interlaced: bool, e: seq<int>, v: int)
    requires PlacedIn(p, w, h, interlaced, e) && |q| == |p|
    requires forall i :: 0 <= i < |p| && i != Spot(w, h, interlaced, |e|) ==> q[i] == p[i]
    requires 0 <= Spot(w, h, interlaced, |e|) < |q| ==> q[Spot(w, h, interlaced, |e|)] as int == v
    ensures PlacedIn(q, w, h, interlaced, e + [v])
  {
    var e1 := e + [v];
    forall k | 0 <= k < |e1| && 0 <= Spot(w, h, interlaced, k) < |q|
      ensures q[Spot(w, h, interlaced, k)] as int == e1[k]
    {
      if k < |e| {
        SpotInjective(w, h, interlaced, k, |e|);
      }
    }
  }

  /** Where doInterlace's cursor says pixel `k` goes is its spot. */
  lemma SpotOfCursor(w: nat, h: nat, k: nat)
    requires w >= 1
    ensures Rows(h, k / w).1 < h ==> Spot(w, h, true, k) == Rows(h, k / w).1 * w + k % w
    ensures Rows(h, k / w).1 >= h ==> Spot(w, h, true, k) == -1
  {
    if Rows(h, k / w).1 < h {
      if k / w >= h {
        RowsPastEnd(h, k / w);
      }
      RowsAreOrder(h, k / w);
    } else if k / w < h {
      RowsAreOrder(h, k / w);
      OrderIsPermutation(h);
    }
  }

  /** Moving one pixel on: the column wraps to 0 exactly when the row is complete. */
  lemma RowAdvance(k: nat, w: nat)
    requires w >= 1
    ensures k % w + 1 == w ==> (k + 1) % w == 0 && (k + 1) / w == k / w + 1
    ensures k % w + 1 < w ==> (k + 1) % w == k % w + 1 && (k + 1) / w == k / w
  {
    var q, m := k / w, k % w;
    RowColumn(k, w);
    RowColumn(k + 1, w);
    if m + 1 == w {
      assert (q + 1) * w == q * w + w;
      FloorUnique(q + 1, w, k + 1);
    } else {
      FloorUnique(q, w, k + 1);
    }
  }
}
