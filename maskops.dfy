/**
 * The mask passes of wregion.cpp: classifying the image into a 0/1 mask,
 * dilating a value by one pixel (oimg_dialate_index), removing hairs
 * (oimg_dehair_index), removing single-pixel glints and breaking
 * diagonal-only 2x2 patterns.
 *
 * Each pass works in place on the mask, an `array2<bv8>` indexed
 * `[y, x]`, and is specified by a function of the grid it starts from
 * (`Grid(m)`): the function says what the pass leaves in every pixel.
 * The dilation and dehair passes buffer their results in two rotating
 * rows and write them back one row behind the scan; their functions say
 * exactly which rows that write-back reaches.
 */
module MaskOps {
  import opened Common
  import opened Scan

  /** Every row of `g` has `w` pixels. */
  predicate Uniform(g: seq<seq<bv8>>, w: int)
  {
    forall y :: 0 <= y < |g| ==> |g[y]| == w
  }

  /** Every pixel is 0 or 1. */
  predicate Binary(g: seq<seq<bv8>>)
  {
    forall y, x :: 0 <= y < |g| && 0 <= x < |g[y]| ==> g[y][x] == 0 || g[y][x] == 1
  }

  /** The raster holds `g`, pixel for pixel. */
  lemma GridIs(m: array2<bv8>, g: seq<seq<bv8>>)
    requires |g| == m.Length0 && Uniform(g, m.Length1)
    requires forall y, x :: InRaster(m, x, y) ==> m[y, x] == g[y][x]
    ensures Grid(m) == g
  {
    var r := Grid(m);
    forall y | 0 <= y < |g| ensures r[y] == g[y] {
      assert forall x :: 0 <= x < m.Length1 ==> r[y][x] == m[y, x];
    }
  }

  // ---------------------------------------------------------------------
  // Classification (wregion.cpp:277-312)

  /** 8-bit images: 0 exactly where the palette index equals the seed's. */
  function Classify8(src: seq<seq<bv8>>, w: int, h: int, bg: int): (r: seq<seq<bv8>>)
    requires 0 <= w && 0 <= h <= |src| && forall y :: 0 <= y < h ==> w <= |src[y]|
    ensures |r| == h && Uniform(r, w) && Binary(r)
    ensures forall y, x :: 0 <= y < h && 0 <= x < w ==> (r[y][x] == 0 <==> src[y][x] as int == bg)
  {
    seq(h, y requires 0 <= y < h => seq(w, x requires 0 <= x < w => if src[y][x] as int == bg then 0 else 1))
  }

  /** One channel differs from the seed's by more than `bgDiff`. */
  predicate Differs(c: bv8, bgc: bv8, bgDiff: int)
  {
    Abs(c as int - bgc as int) > bgDiff
  }

  /**
   * 24-bit images: 1 exactly where some channel (blue, green, red, at
   * bytes 3x, 3x+1, 3x+2 of the row) differs from the seed's channel by
   * more than `bgDiff`.
   */
  function Classify24(src: seq<seq<bv8>>, w: int, h: int, bgb: bv8, bgg: bv8, bgr: bv8, bgDiff: int)
    : (r: seq<seq<bv8>>)
    requires 0 <= w && 0 <= h <= |src| && forall y :: 0 <= y < h ==> 3 * w <= |src[y]|
    ensures |r| == h && Uniform(r, w) && Binary(r)
    ensures forall y, x :: 0 <= y < h && 0 <= x < w ==>
      (r[y][x] == 1 <==> Differs(src[y][3 * x], bgb, bgDiff) || Differs(src[y][3 * x + 1], bgg, bgDiff) ||
                         Differs(src[y][3 * x + 2], bgr, bgDiff))
  {
    seq(h, y requires 0 <= y < h => seq(w, x requires 0 <= x < w =>
      Pixel24(src[y][3 * x], src[y][3 * x + 1], src[y][3 * x + 2], bgb, bgg, bgr, bgDiff)))
  }

  /** The 8-bit classification loop, row by row into the mask. */
  method ClassifyIndexed(src: array2<bv8>, mask: array2<bv8>, bg: int)
    requires src != mask && mask.Length0 <= src.Length0 && mask.Length1 <= src.Length1
    modifies mask
    ensures Grid(mask) == Classify8(Grid(src), mask.Length1, mask.Length0, bg)
  {
    var w, h := mask.Length1, mask.Length0;
    ghost var c := Classify8(Grid(src), w, h, bg);
    var y := 0;
    while y < h
      invariant 0 <= y <= h
      invariant forall yy, xx :: 0 <= yy < y && 0 <= xx < w ==> mask[yy, xx] == c[yy][xx]
    {
      var x := 0;
      while x < w
        invariant 0 <= x <= w
        invariant forall yy, xx :: 0 <= yy < y && 0 <= xx < w ==> mask[yy, xx] == c[yy][xx]
        invariant forall xx :: 0 <= xx < x ==> mask[y, xx] == c[y][xx]
      {
        if src[y, x] as int == bg {
          mask[y, x] := 0;
        } else {
          mask[y, x] := 1;
        }
        x := x + 1;
      }
      y := y + 1;
    }
    GridIs(mask, c);
  }

  /** The mask value of one 24-bit pixel with channels `b`, `g`, `r`. */
  function Pixel24(b: bv8, g: bv8, r: bv8, bgb: bv8, bgg: bv8, bgr: bv8, bgDiff: int): bv8
  {
    if Differs(b, bgb, bgDiff) || Differs(g, bgg, bgDiff) || Differs(r, bgr, bgDiff) then 1 else 0
  }

  /** One 24-bit pixel: clear it, then OR in 1 for each channel that differs. */
  method ClassifyPixel(b: bv8, g: bv8, r: bv8, bgb: bv8, bgg: bv8, bgr: bv8, bgDiff: int) returns (v: bv8)
    ensures v == Pixel24(b, g, r, bgb, bgg, bgr, bgDiff)
  {
    assert (0 as bv8) | 1 == 1 && (1 as bv8) | 1 == 1;
    v := 0;
    if Abs(b as int - bgb as int) > bgDiff {
      v := v | 1;
    }
    assert v == if Differs(b, bgb, bgDiff) then 1 else 0;
    if Abs(g as int - bgg as int) > bgDiff {
      v := v | 1;
    }
    assert v == if Differs(b, bgb, bgDiff) || Differs(g, bgg, bgDiff) then 1 else 0;
    if Abs(r as int - bgr as int) > bgDiff {
      v := v | 1;
    }
  }

  /** One row of the 24-bit classification loop. */
  method ClassifyRow24(src: array2<bv8>, mask: array2<bv8>, y: int, bgb: bv8, bgg: bv8, bgr: bv8, bgDiff: int)
    requires src != mask && 0 <= y < mask.Length0 <= src.Length0 && 3 * mask.Length1 <= src.Length1
    modifies mask
    ensures forall xx :: 0 <= xx < mask.Length1 ==>
      mask[y, xx] == Pixel24(src[y, 3 * xx], src[y, 3 * xx + 1], src[y, 3 * xx + 2], bgb, bgg, bgr, bgDiff)
    ensures forall yy, xx :: InRaster(mask, xx, yy) && yy != y ==> mask[yy, xx] == old(mask[yy, xx])
  {
    var x := 0;
    while x < mask.Length1
      invariant 0 <= x <= mask.Length1
      invariant forall xx :: 0 <= xx < x ==>
        mask[y, xx] == Pixel24(src[y, 3 * xx], src[y, 3 * xx + 1], src[y, 3 * xx + 2], bgb, bgg, bgr, bgDiff)
      invariant forall yy, xx :: InRaster(mask, xx, yy) && yy != y ==> mask[yy, xx] == old(mask[yy, xx])
    {
      var v := ClassifyPixel(src[y, 3 * x], src[y, 3 * x + 1], src[y, 3 * x + 2], bgb, bgg, bgr, bgDiff);
      mask[y, x] := v;
      x := x + 1;
    }
  }

  /** The 24-bit classification loop. */
  method ClassifyTrueColor(src: array2<bv8>, mask: array2<bv8>, bgb: bv8, bgg: bv8, bgr: bv8, bgDiff: int)
    requires src != mask && mask.Length0 <= src.Length0 && 3 * mask.Length1 <= src.Length1
    modifies mask
    ensures Grid(mask) == Classify24(Grid(src), mask.Length1, mask.Length0, bgb, bgg, bgr, bgDiff)
  {
    var w, h := mask.Length1, mask.Length0;
    ghost var s := Grid(src);
    ghost var c := Classify24(s, w, h, bgb, bgg, bgr, bgDiff);
    var y := 0;
    while y < h
      invariant 0 <= y <= h
      invariant forall yy, xx :: 0 <= yy < y && 0 <= xx < w ==> mask[yy, xx] == c[yy][xx]
    {
      ClassifyRow24(src, mask, y, bgb, bgg, bgr, bgDiff);
      forall xx | 0 <= xx < w ensures mask[y, xx] == c[y][xx] {
        assert s[y][3 * xx] == src[y, 3 * xx] && s[y][3 * xx + 1] == src[y, 3 * xx + 1] && s[y][3 * xx + 2] == src[y, 3 * xx + 2];
      }
      y := y + 1;
    }
    GridIs(mask, c);
  }

  // ---------------------------------------------------------------------
  // oimg_dialate_index (wregion.cpp:62-109)

  /**
   * The value computed for interior pixel (x, y): the first of the pixel,
   * its upper, lower, left and right neighbour that equals `index`, else
   * the pixel itself.
   */
  function DilateAt(g: seq<seq<bv8>>, w: int, y: int, x: int, index: int): bv8
    requires Uniform(g, w) && 1 <= y && y + 1 < |g| && 1 <= x && x + 1 < w
  {
    DilatePick(g[y][x], g[y - 1][x], g[y + 1][x], g[y][x - 1], g[y][x + 1], index)
  }

  /** The choice made for a pixel `c` with upper, lower, left and right neighbours `n`, `s`, `l`, `r`. */
  function DilatePick(c: bv8, n: bv8, s: bv8, l: bv8, r: bv8, index: int): bv8
  {
    if c as int == index then c
    else if n as int == index then n
    else if s as int == index then s
    else if l as int == index then l
    else if r as int == index then r
    else c
  }

  /** A buffered result row: the computed interior, and the zeros calloc left at both ends. */
  function Buffered(g: seq<seq<bv8>>, w: int, y: int, x: int, index: int): bv8
    requires Uniform(g, w) && 1 <= y && y + 1 < |g| && 0 <= x < w
  {
    if x == 0 || x == w - 1 then 0 else DilateAt(g, w, y, x, index)
  }

  /**
   * What the dilation leaves in pixel (x, y) of an `h`-row mask. Rows
   * 1 .. h-3 are computed, each written back over the row above it when
   * the next row is computed: row 0 receives the initial zero buffer,
   * rows 1 .. h-4 their results (with the buffer's zero ends), and the
   * result for row h-3 is never written. Rows h-3 .. h-1 keep their value.
   */
  function DilatedCell(g: seq<seq<bv8>>, w: int, y: int, x: int, index: int): bv8
    requires Uniform(g, w) && 0 <= y < |g| && 0 <= x < w
  {
    if |g| >= 4 && y == 0 then 0
    else if 1 <= y <= |g| - 4 then Buffered(g, w, y, x, index)
    else g[y][x]
  }

  function Dilation(g: seq<seq<bv8>>, w: int, index: int): (r: seq<seq<bv8>>)
    requires Uniform(g, w) && 0 <= w
    ensures |r| == |g| && Uniform(r, w)
  {
    seq(|g|, y requires 0 <= y < |g| => seq(w, x requires 0 <= x < w => DilatedCell(g, w, y, x, index)))
  }

  /**
   * An interior pixel of a written-back row becomes `index` exactly when
   * it or one of its four neighbours is `index`; otherwise it keeps its
   * value.
   */
  lemma DilateMeaning(g: seq<seq<bv8>>, w: int, index: int, y: int, x: int)
    requires Uniform(g, w) && 0 <= w && 1 <= y <= |g| - 4 && 1 <= x < w - 1
    ensures var r := Dilation(g, w, index)[y][x];
      (r as int == index <==>
        g[y][x] as int == index || g[y - 1][x] as int == index || g[y + 1][x] as int == index ||
        g[y][x - 1] as int == index || g[y][x + 1] as int == index) &&
      (r as int != index ==> r == g[y][x])
  {
  }

  /** Dilating the background 0 of a 0/1 mask leaves a 0/1 mask that has only lost ones. */
  lemma DilationShrinks(g: seq<seq<bv8>>, w: int)
    requires Uniform(g, w) && 0 <= w && Binary(g)
    ensures Binary(Dilation(g, w, 0))
    ensures forall y, x :: 0 <= y < |g| && 0 <= x < w && Dilation(g, w, 0)[y][x] == 1 ==> g[y][x] == 1
  {
  }

  /** Compute the interior of row `y` into the buffer `q`, from the rows around it. */
  method DilateRow(m: array2<bv8>, y: int, index: int, q: array<bv8>, ghost g: seq<seq<bv8>>)
    requires 1 <= y && y + 1 < m.Length0 && q.Length == m.Length1 && |g| == m.Length0 && Uniform(g, m.Length1)
    requires forall yy, x :: y - 1 <= yy <= y + 1 && 0 <= x < m.Length1 ==> m[yy, x] == g[yy][x]
    requires q.Length > 0 ==> q[0] == 0 && q[q.Length - 1] == 0
    modifies q
    ensures forall x :: 0 <= x < q.Length ==> q[x] == Buffered(g, m.Length1, y, x, index)
  {
    var w := m.Length1;
    var x := 1;
    while x < w - 1
      invariant 1 <= x <= Max(1, w - 1)
      invariant forall xx :: 1 <= xx < x ==> q[xx] == DilateAt(g, w, y, xx, index)
      invariant w > 0 ==> q[0] == 0 && q[w - 1] == 0
    {
      q[x] := DilatePick(m[y, x], m[y - 1, x], m[y + 1, x], m[y, x - 1], m[y, x + 1], index);
      x := x + 1;
    }
  }

  /** memcpy of a buffer over row `y` of the mask, columns `x0` up to `x1`. */
  method CopyRow(m: array2<bv8>, y: int, q: array<bv8>, x0: int, x1: int)
    requires 0 <= y < m.Length0 && q.Length == m.Length1 && 0 <= x0 && x1 <= m.Length1
    modifies m
    ensures forall x :: 0 <= x < m.Length1 ==> m[y, x] == if x0 <= x < x1 then q[x] else old(m[y, x])
    ensures forall yy, xx :: InRaster(m, xx, yy) && yy != y ==> m[yy, xx] == old(m[yy, xx])
  {
    forall x | x0 <= x < x1 {
      m[y, x] := q[x];
    }
  }

  /** The mask rows from `y` down are still those of the grid `g`. */
  ghost predicate RowsFrom(m: array2<bv8>, g: seq<seq<bv8>>, y: int)
    reads m
  {
    |g| == m.Length0 && Uniform(g, m.Length1) &&
    forall yy, xx :: InRaster(m, xx, yy) && y <= yy ==> m[yy, xx] == g[yy][xx]
  }

  /** The mask rows above `y` hold the dilation of `g`. */
  ghost predicate DilatedAbove(m: array2<bv8>, g: seq<seq<bv8>>, y: int, index: int)
    reads m
  {
    |g| == m.Length0 && Uniform(g, m.Length1) &&
    forall yy, xx :: InRaster(m, xx, yy) && yy < y ==> m[yy, xx] == DilatedCell(g, m.Length1, yy, xx, index)
  }

  /**
   * One turn of oimg_dialate_index's row loop: compute row `y` into `q0`,
   * then copy `q1`, row `y - 1` as computed one turn earlier (zeros on the
   * first turn), over that row.
   */
  method DilateStep(m: array2<bv8>, y: int, index: int, q0: array<bv8>, q1: array<bv8>, ghost g: seq<seq<bv8>>)
    requires 1 <= y && y + 2 < m.Length0 && q0 != q1 && q0.Length == m.Length1 && q1.Length == m.Length1
    requires RowsFrom(m, g, y - 1) && DilatedAbove(m, g, y - 1, index)
    requires q0.Length > 0 ==> q0[0] == 0 && q0[q0.Length - 1] == 0
    requires y == 1 ==> forall xx :: 0 <= xx < q1.Length ==> q1[xx] == 0
    requires y > 1 ==> forall xx :: 0 <= xx < q1.Length ==> q1[xx] == Buffered(g, m.Length1, y - 1, xx, index)
    modifies m, q0
    ensures forall xx :: 0 <= xx < q0.Length ==> q0[xx] == Buffered(g, m.Length1, y, xx, index)
    ensures RowsFrom(m, g, y) && DilatedAbove(m, g, y, index)
  {
    var w := m.Length1;
    DilateRow(m, y, index, q0, g);
    CopyRow(m, y - 1, q1, 0, w);
    var above := y - 1;
    forall xx | 0 <= xx < w ensures m[above, xx] == DilatedCell(g, w, above, xx, index) {
    }
  }

  /**
   * oimg_dialate_index: two zeroed row buffers rotate; each computed row
   * is copied over the mask row above it, in full width, when the next
   * row has been computed.
   */
  method Dilate(m: array2<bv8>, index: int)
    modifies m
    ensures Grid(m) == Dilation(old(Grid(m)), m.Length1, index)
  {
    var w, h := m.Length1, m.Length0;
    ghost var g := Grid(m);
    var q0 := new bv8[w](_ => 0);
    var q1 := new bv8[w](_ => 0);
    var y := 1;
    while y < h - 2
      invariant 1 <= y <= Max(1, h - 2)
      invariant fresh(q0) && fresh(q1) && q0 != q1 && q0.Length == w && q1.Length == w
      invariant w > 0 ==> q0[0] == 0 && q0[w - 1] == 0
      invariant y == 1 ==> forall xx :: 0 <= xx < w ==> q1[xx] == 0
      invariant y > 1 ==> forall xx :: 0 <= xx < w ==> q1[xx] == Buffered(g, w, y - 1, xx, index)
      invariant RowsFrom(m, g, y - 1) && DilatedAbove(m, g, y - 1, index)
    {
      DilateStep(m, y, index, q0, q1, g);
      q0, q1 := q1, q0;
      y := y + 1;
    }
    GridIs(m, Dilation(g, w, index));
  }

  /** The erosion loop of createMask: dilate the background `n` times. */
  function Dilations(g: seq<seq<bv8>>, w: int, n: int): (r: seq<seq<bv8>>)
    requires Uniform(g, w) && 0 <= w
    ensures |r| == |g| && Uniform(r, w)
    decreases n
  {
    if n <= 0 then g else Dilation(Dilations(g, w, n - 1), w, 0)
  }

  lemma {:induction false} DilationsShrink(g: seq<seq<bv8>>, w: int, n: int)
    requires Uniform(g, w) && 0 <= w && Binary(g)
    ensures Binary(Dilations(g, w, n))
    ensures forall y, x :: 0 <= y < |g| && 0 <= x < w && Dilations(g, w, n)[y][x] == 1 ==> g[y][x] == 1
    decreases n
  {
    if n > 0 {
      DilationsShrink(g, w, n - 1);
      DilationShrinks(Dilations(g, w, n - 1), w);
    }
  }

  method DilateTimes(m: array2<bv8>, n: int)
    modifies m
    ensures Grid(m) == Dilations(old(Grid(m)), m.Length1, n)
  {
    ghost var g := Grid(m);
    var i := 0;
    while i < n
      invariant i <= Max(0, n) && 0 <= i
      invariant Grid(m) == Dilations(g, m.Length1, i)
    {
      Dilate(m, 0);
      i := i + 1;
    }
  }

  // ---------------------------------------------------------------------
  // oimg_dehair_index (wregion.cpp:113-155)

  /**
   * The value computed for interior pixel (x, y): `z` when the pixel is
   * `z`, when both vertical neighbours and one horizontal neighbour are
   * `z`, or when both horizontal neighbours and one vertical neighbour are
   * `z`; otherwise the pixel's own value.
   */
  function DehairAt(g: seq<seq<bv8>>, w: int, y: int, x: int, z: int): bv8
    requires Uniform(g, w) && 1 <= y && y + 1 < |g| && 1 <= x && x + 1 < w
  {
    DehairPick(g[y][x], g[y - 1][x], g[y + 1][x], g[y][x - 1], g[y][x + 1], z)
  }

  /** The choice made for a pixel; the value written when a pattern holds is a neighbour equal to `z`. */
  function DehairPick(c: bv8, n: bv8, s: bv8, l: bv8, r: bv8, z: int): bv8
  {
    if c as int == z then c
    else if n as int == z && s as int == z && (l as int == z || r as int == z) then n
    else if l as int == z && r as int == z && (n as int == z || s as int == z) then l
    else c
  }

  /**
   * What dehairing leaves in pixel (x, y): rows 1 .. h-3 are computed and
   * each is written back, without its end columns, when the next row is
   * computed and only once the scan has passed row 2, so rows 2 .. h-4
   * receive their results and every other pixel keeps its value.
   */
  function DehairedCell(g: seq<seq<bv8>>, w: int, y: int, x: int, z: int): bv8
    requires Uniform(g, w) && 0 <= y < |g| && 0 <= x < w
  {
    if 2 <= y <= |g| - 4 && 1 <= x < w - 1 then DehairAt(g, w, y, x, z) else g[y][x]
  }

  function Dehaired(g: seq<seq<bv8>>, w: int, z: int): (r: seq<seq<bv8>>)
    requires Uniform(g, w) && 0 <= w
    ensures |r| == |g| && Uniform(r, w)
  {
    seq(|g|, y requires 0 <= y < |g| => seq(w, x requires 0 <= x < w => DehairedCell(g, w, y, x, z)))
  }

  /** A written-back pixel becomes `z` exactly when one of the three patterns holds. */
  lemma DehairMeaning(g: seq<seq<bv8>>, w: int, z: int, y: int, x: int)
    requires Uniform(g, w) && 0 <= w && 2 <= y <= |g| - 4 && 1 <= x < w - 1
    ensures var r := Dehaired(g, w, z)[y][x];
      var c, n, s, l, e := g[y][x] as int, g[y - 1][x] as int, g[y + 1][x] as int, g[y][x - 1] as int, g[y][x + 1] as int;
      (r as int == z <==> c == z || (n == z && s == z && (l == z || e == z)) || (l == z && e == z && (n == z || s == z))) &&
      (r as int != z ==> r == g[y][x])
  {
  }

  method DehairRow(m: array2<bv8>, y: int, z: int, q: array<bv8>, ghost g: seq<seq<bv8>>)
    requires 1 <= y && y + 1 < m.Length0 && q.Length == m.Length1 && |g| == m.Length0 && Uniform(g, m.Length1)
    requires forall yy, x :: y - 1 <= yy <= y + 1 && 0 <= x < m.Length1 ==> m[yy, x] == g[yy][x]
    modifies q
    ensures forall x :: 1 <= x < q.Length - 1 ==> q[x] == DehairAt(g, m.Length1, y, x, z)
  {
    var w := m.Length1;
    var x := 1;
    while x < w - 1
      invariant 1 <= x <= Max(1, w - 1)
      invariant forall xx :: 1 <= xx < x ==> q[xx] == DehairAt(g, w, y, xx, z)
    {
      q[x] := DehairPick(m[y, x], m[y - 1, x], m[y + 1, x], m[y, x - 1], m[y, x + 1], z);
      x := x + 1;
    }
  }

  /** The mask rows above `y` hold the dehaired grid `g`. */
  ghost predicate DehairedAbove(m: array2<bv8>, g: seq<seq<bv8>>, y: int, z: int)
    reads m
  {
    |g| == m.Length0 && Uniform(g, m.Length1) &&
    forall yy, xx :: InRaster(m, xx, yy) && yy < y ==> m[yy, xx] == DehairedCell(g, m.Length1, yy, xx, z)
  }

  /**
   * One turn of oimg_dehair_index's row loop: compute row `y` into `q0`
   * and, from the third row on, copy the interior of `q1`, row `y - 1`
   * as computed one turn earlier, over that row.
   */
  method DehairStep(m: array2<bv8>, y: int, z: int, q0: array<bv8>, q1: array<bv8>, ghost g: seq<seq<bv8>>)
    requires 1 <= y && y + 2 < m.Length0 && q0 != q1 && q0.Length == m.Length1 && q1.Length == m.Length1
    requires m.Length0 >= 6 ==> m.Length1 >= 2
    requires RowsFrom(m, g, y - 1) && DehairedAbove(m, g, y - 1, z)
    requires y > 1 ==> forall xx :: 1 <= xx < q1.Length - 1 ==> q1[xx] == DehairAt(g, m.Length1, y - 1, xx, z)
    modifies m, q0
    ensures forall xx :: 1 <= xx < q0.Length - 1 ==> q0[xx] == DehairAt(g, m.Length1, y, xx, z)
    ensures RowsFrom(m, g, y) && DehairedAbove(m, g, y, z)
  {
    var w := m.Length1;
    DehairRow(m, y, z, q0, g);
    var above := y - 1;
    if y > 2 {
      CopyRow(m, above, q1, 1, w - 1);
      forall xx | 0 <= xx < w ensures m[above, xx] == DehairedCell(g, w, above, xx, z) {
      }
    } else {
      forall xx | 0 <= xx < w ensures m[above, xx] == DehairedCell(g, w, above, xx, z) {
      }
    }
  }

  /**
   * oimg_dehair_index. The write-back copies `width - 2` bytes; a mask of
   * at least 6 rows and fewer than 2 columns would make that count
   * negative, which the caller must avoid.
   */
  method Dehair(m: array2<bv8>, z: int)
    requires m.Length0 >= 6 ==> m.Length1 >= 2
    modifies m
    ensures Grid(m) == Dehaired(old(Grid(m)), m.Length1, z)
  {
    var w, h := m.Length1, m.Length0;
    ghost var g := Grid(m);
    var q0 := new bv8[w](_ => 0);
    var q1 := new bv8[w](_ => 0);
    var y := 1;
    while y < h - 2
      invariant 1 <= y <= Max(1, h - 2)
      invariant fresh(q0) && fresh(q1) && q0 != q1 && q0.Length == w && q1.Length == w
      invariant y > 1 ==> forall xx :: 1 <= xx < w - 1 ==> q1[xx] == DehairAt(g, w, y - 1, xx, z)
      invariant RowsFrom(m, g, y - 1) && DehairedAbove(m, g, y - 1, z)
    {
      DehairStep(m, y, z, q0, q1, g);
      q0, q1 := q1, q0;
      y := y + 1;
    }
    GridIs(m, Dehaired(g, w, z));
  }


  // ---------------------------------------------------------------------
  // Glint removal (wregion.cpp:325-359)

  /**
   * The glint pass over interior pixel `x` of row `mid`, between the row
   * above as the pass has already left it (`top`) and the row below as it
   * was (`bot`): the pixel becomes `v` when its upper neighbour, its left
   * neighbour as already processed, its right neighbour and its lower
   * neighbour are all `v`.
   */
  function GlintCell(top: seq<bv8>, mid: seq<bv8>, bot: seq<bv8>, v: bv8, x: int): bv8
    requires |top| == |mid| == |bot| && 1 <= x < |mid| - 1
    decreases x
  {
    var left := if x == 1 then mid[0] else GlintCell(top, mid, bot, v, x - 1);
    if top[x] == v && left == v && mid[x + 1] == v && bot[x] == v then v else mid[x]
  }

  function GlintRow(top: seq<bv8>, mid: seq<bv8>, bot: seq<bv8>, v: bv8): (r: seq<bv8>)
    requires |top| == |mid| == |bot|
    ensures |r| == |mid|
  {
    seq(|mid|, x requires 0 <= x < |mid| => if 1 <= x < |mid| - 1 then GlintCell(top, mid, bot, v, x) else mid[x])
  }

  /** Row `y` after the pass: rows are processed top to bottom, each reading the one above as left. */
  function GlintRowAt(g: seq<seq<bv8>>, w: int, v: bv8, y: int): (r: seq<bv8>)
    requires Uniform(g, w) && 0 <= y < |g|
    ensures |r| == w
    decreases y
  {
    if 1 <= y < |g| - 1 then GlintRow(GlintRowAt(g, w, v, y - 1), g[y], g[y + 1], v) else g[y]
  }

  function Glint(g: seq<seq<bv8>>, w: int, v: bv8): (r: seq<seq<bv8>>)
    requires Uniform(g, w)
    ensures |r| == |g| && Uniform(r, w)
  {
    seq(|g|, y requires 0 <= y < |g| => GlintRowAt(g, w, v, y))
  }

  /**
   * The in-place meaning of the pass: an interior pixel of the result is
   * `v` if its upper and left neighbours IN THE RESULT and its right and
   * lower neighbours in the input are all `v`, and otherwise keeps its
   * input value; border pixels keep theirs.
   */
  lemma GlintMeaning(g: seq<seq<bv8>>, w: int, v: bv8, y: int, x: int)
    requires Uniform(g, w) && 0 <= y < |g| && 0 <= x < w
    ensures var r := Glint(g, w, v);
      if 1 <= y < |g| - 1 && 1 <= x < w - 1 then
        r[y][x] == if r[y - 1][x] == v && r[y][x - 1] == v && g[y][x + 1] == v && g[y + 1][x] == v then v else g[y][x]
      else r[y][x] == g[y][x]
  {
    var r := Glint(g, w, v);
    if 1 <= y < |g| - 1 && 1 <= x < w - 1 {
      assert r[y] == GlintRow(r[y - 1], g[y], g[y + 1], v);
    }
  }

  /** A glint pass with `v` 0 or 1 keeps a 0/1 mask 0/1. */
  lemma GlintBinary(g: seq<seq<bv8>>, w: int, v: bv8)
    requires Uniform(g, w) && Binary(g) && (v == 0 || v == 1)
    ensures Binary(Glint(g, w, v))
  {
    var r := Glint(g, w, v);
    forall y, x | 0 <= y < |r| && 0 <= x < |r[y]| ensures r[y][x] == 0 || r[y][x] == 1 {
      GlintMeaning(g, w, v, y, x);
    }
  }

  /** The pass over one row, left to right, reading the updated row above and the updated left pixel. */
  method GlintRowPass(m: array2<bv8>, y: int, v: bv8, ghost top: seq<bv8>, ghost mid: seq<bv8>, ghost bot: seq<bv8>)
    requires 1 <= y < m.Length0 - 1 && |top| == |mid| == |bot| == m.Length1
    requires forall x :: 0 <= x < m.Length1 ==> m[y - 1, x] == top[x] && m[y, x] == mid[x] && m[y + 1, x] == bot[x]
    modifies m
    ensures forall x :: 0 <= x < m.Length1 ==> m[y, x] == GlintRow(top, mid, bot, v)[x]
    ensures forall yy, xx :: InRaster(m, xx, yy) && yy != y ==> m[yy, xx] == old(m[yy, xx])
  {
    var w := m.Length1;
    var x := 1;
    while x < w - 1
      invariant 1 <= x <= Max(1, w - 1)
      invariant forall yy, xx :: InRaster(m, xx, yy) && yy != y ==> m[yy, xx] == old(m[yy, xx])
      invariant forall xx :: 0 <= xx < w ==>
        m[y, xx] == if 1 <= xx < x then GlintCell(top, mid, bot, v, xx) else mid[xx]
    {
      if m[y - 1, x] == v && m[y, x - 1] == v && m[y, x + 1] == v && m[y + 1, x] == v {
        m[y, x] := v;
      }
      x := x + 1;
    }
  }

  method GlintPass(m: array2<bv8>, v: bv8)
    modifies m
    ensures Grid(m) == Glint(old(Grid(m)), m.Length1, v)
  {
    var w, h := m.Length1, m.Length0;
    ghost var g := Grid(m);
    var y := 1;
    while y < h - 1
      invariant 1 <= y <= Max(1, h - 1)
      invariant forall yy, xx :: InRaster(m, xx, yy) ==>
        m[yy, xx] == if yy < y then GlintRowAt(g, w, v, yy)[xx] else g[yy][xx]
    {
      ghost var top := GlintRowAt(g, w, v, y - 1);
      GlintRowPass(m, y, v, top, g[y], g[y + 1]);
      assert GlintRowAt(g, w, v, y) == GlintRow(top, g[y], g[y + 1], v);
      y := y + 1;
    }
    GridIs(m, Glint(g, w, v));
  }

  // ---------------------------------------------------------------------
  // Diagonal patterns (wregion.cpp:361-396)

  /** The 2x2 block with top-left (x, y) reads `a b / b a`. */
  predicate Diagonal(g: seq<seq<bv8>>, w: int, y: int, x: int, a: bv8, b: bv8)
    requires Uniform(g, w) && 0 <= y && y + 1 < |g| && 0 <= x && x + 1 < w
  {
    g[y][x] == a && g[y][x + 1] == b && g[y + 1][x] == b && g[y + 1][x + 1] == a
  }

  /**
   * A pass sets the top-left pixel of every `a b / b a` block to `b`.
   * The pass writes only the pixel it stands on and reads only pixels it
   * has not reached yet, so each block is judged on the input.
   */
  function DiagCell(g: seq<seq<bv8>>, w: int, y: int, x: int, a: bv8, b: bv8): bv8
    requires Uniform(g, w) && 0 <= y < |g| && 0 <= x < w
  {
    if y + 1 < |g| && x + 1 < w && Diagonal(g, w, y, x, a, b) then b else g[y][x]
  }

  function Diag(g: seq<seq<bv8>>, w: int, a: bv8, b: bv8): (r: seq<seq<bv8>>)
    requires Uniform(g, w) && 0 <= w
    ensures |r| == |g| && Uniform(r, w)
  {
    seq(|g|, y requires 0 <= y < |g| => seq(w, x requires 0 <= x < w => DiagCell(g, w, y, x, a, b)))
  }

  /** Every block of the input that had the pattern no longer has it, and 0/1 masks stay 0/1. */
  lemma DiagBreaks(g: seq<seq<bv8>>, w: int, a: bv8, b: bv8)
    requires Uniform(g, w) && 0 <= w && a != b
    ensures forall y, x :: 0 <= y && y + 1 < |g| && 0 <= x && x + 1 < w && Diagonal(g, w, y, x, a, b) ==>
      !Diagonal(Diag(g, w, a, b), w, y, x, a, b)
    ensures Binary(g) && (b == 0 || b == 1) ==> Binary(Diag(g, w, a, b))
  {
  }

  method DiagRow(m: array2<bv8>, y: int, a: bv8, b: bv8, ghost g: seq<seq<bv8>>)
    requires Uniform(g, m.Length1) && |g| == m.Length0 && 0 <= y < m.Length0 - 1
    requires forall yy, xx :: InRaster(m, xx, yy) ==>
      m[yy, xx] == if yy < y then DiagCell(g, m.Length1, yy, xx, a, b) else g[yy][xx]
    modifies m
    ensures forall yy, xx :: InRaster(m, xx, yy) ==>
      m[yy, xx] == if yy <= y then DiagCell(g, m.Length1, yy, xx, a, b) else g[yy][xx]
  {
    var w := m.Length1;
    var x := 0;
    while x < w - 1
      invariant 0 <= x <= Max(0, w - 1)
      invariant forall yy, xx :: InRaster(m, xx, yy) && yy != y ==>
        m[yy, xx] == if yy < y then DiagCell(g, w, yy, xx, a, b) else g[yy][xx]
      invariant forall xx :: 0 <= xx < w ==>
        m[y, xx] == if xx < x then DiagCell(g, w, y, xx, a, b) else g[y][xx]
    {
      if m[y, x] == a && m[y, x + 1] == b && m[y + 1, x] == b && m[y + 1, x + 1] == a {
        m[y, x] := b;
      }
      x := x + 1;
    }
  }

  method DiagPass(m: array2<bv8>, a: bv8, b: bv8)
    modifies m
    ensures Grid(m) == Diag(old(Grid(m)), m.Length1, a, b)
  {
    var h := m.Length0;
    ghost var g := Grid(m);
    var y := 0;
    while y < h - 1
      invariant 0 <= y <= Max(0, h - 1)
      invariant forall yy, xx :: InRaster(m, xx, yy) ==>
        m[yy, xx] == if yy < y then DiagCell(g, m.Length1, yy, xx, a, b) else g[yy][xx]
    {
      DiagRow(m, y, a, b, g);
      y := y + 1;
    }
    GridIs(m, Diag(g, m.Length1, a, b));
  }

  // ---------------------------------------------------------------------
  // The clean-up that follows classification in createMask (wregion.cpp:318-396)

  /**
   * Erosions (when requested), the glint passes for 0 then 1, and the
   * diagonal passes for `0 1 / 1 0` then `1 0 / 0 1`.
   */
  function CleanUp(c: seq<seq<bv8>>, w: int, erosions: int): (r: seq<seq<bv8>>)
    requires Uniform(c, w) && 0 <= w
    ensures |r| == |c| && Uniform(r, w)
  {
    var e := Dilations(c, w, erosions);
    var g := Glint(Glint(e, w, 0), w, 1);
    Diag(Diag(g, w, 0, 1), w, 1, 0)
  }

  /** The clean-up keeps a 0/1 mask 0/1. */
  lemma CleanUpBinary(c: seq<seq<bv8>>, w: int, erosions: int)
    requires Uniform(c, w) && 0 <= w && Binary(c)
    ensures Binary(CleanUp(c, w, erosions))
  {
    var e := Dilations(c, w, erosions);
    DilationsShrink(c, w, erosions);
    GlintBinary(e, w, 0);
    GlintBinary(Glint(e, w, 0), w, 1);
    var g := Glint(Glint(e, w, 0), w, 1);
    DiagBreaks(g, w, 0, 1);
    DiagBreaks(Diag(g, w, 0, 1), w, 1, 0);
  }
}
