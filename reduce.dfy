/**
 * The reductions of reduce.cpp: shrinking an image by an integer factor
 * `r` by averaging `r`-by-`r` blocks, the 3-3-2 colour packing the
 * 8-bit output uses, and the dub, which copies an image as 24 bits.
 *
 * The averaging is specified on values: the source picture is a matrix
 * of pixels (through the colour table for an 8-bit source), `Total` sums
 * one channel over a block, and the reduced pixel stores each sum
 * divided by `r*r` and cast to a byte. Widths and heights are never
 * negative here, so C's division agrees with Dafny's.
 */
module Reduce {
  import opened Common
  import opened LlImage
  import opened Scan

  // ---------------------------------------------------------------------
  // 3-3-2 colours (reduce.cpp:35-70)

  /**
   * pix2bgr: the top three bits of a pixel are red, the next three green,
   * the last two blue. Each channel is shifted to the top of its byte and,
   * when its top bit is set, its low bits are filled with ones so that a
   * full field gives full strength.
   */
  function Pix2Bgr(pix: bv8): (c: Bgr)
    ensures c.reserved == 0
    ensures c.red & 0xe0 == pix & 0xe0
    ensures (c.green & 0xe0) >> 3 == pix & 0x1c
    ensures c.blue >> 6 == pix & 0x03
  {
    var red := if pix & 0x80 != 0 then pix | 0x1f else pix;
    var green := if (pix << 3) & 0x80 != 0 then (pix << 3) | 0x1f else pix << 3;
    var blue := if (pix << 6) & 0x80 != 0 then (pix << 6) | 0x3f else pix << 6;
    Bgr(blue, green, red, 0)
  }

  /** rgb2pix: keep the top three bits of red and green and the top two of blue. */
  function Rgb2Pix(r: bv8, g: bv8, b: bv8): (pix: bv8)
    ensures pix & 0xe0 == r & 0xe0
    ensures pix & 0x1c == (g & 0xe0) >> 3
    ensures pix & 0x03 == b >> 6
  {
    (r & 0xe0) | ((g & 0xe0) >> 3) | (b >> 6)
  }

  /** Packing what pix2bgr unpacks gives the pixel back, for every pixel. */
  lemma PackUnpack(pix: bv8)
    ensures Rgb2Pix(Pix2Bgr(pix).red, Pix2Bgr(pix).green, Pix2Bgr(pix).blue) == pix
  {
    var c := Pix2Bgr(pix);
    var p := Rgb2Pix(c.red, c.green, c.blue);
    assert p == (p & 0xe0) | (p & 0x1c) | (p & 0x03);
    assert pix == (pix & 0xe0) | (pix & 0x1c) | (pix & 0x03);
  }

  /** The conditional fill keeps black black and makes white fully white. */
  lemma FullStrength()
    ensures Pix2Bgr(0) == Bgr(0, 0, 0, 0)
    ensures Pix2Bgr(0xff) == Bgr(0xff, 0xff, 0xff, 0)
  {
  }

  /** The palette reduce256_256 installs: entry `k` is pix2bgr of `k` (reduce.cpp:339-342). */
  function Palette332(): (pal: seq<Bgr>)
    ensures |pal| == 256
  {
    seq(256, k requires 0 <= k < 256 => Pix2Bgr(k as bv8))
  }

  // ---------------------------------------------------------------------
  // Block sums on values

  /** A palette entry as a pixel. */
  function Shade(c: Bgr): BgrPixel
  {
    BgrPixel(c.blue, c.green, c.red)
  }

  /** An 8-bit picture seen through its colour table. */
  function Paletted(color: seq<Bgr>, p: seq<seq<bv8>>, w: nat, h: nat): (q: seq<seq<BgrPixel>>)
    requires |color| == 256 && IsMatrix(p, w, h)
    ensures IsMatrix(q, w, h)
  {
    seq(h, y requires 0 <= y < h => seq(w, x requires 0 <= x < w => Shade(color[p[y][x]])))
  }

  /** Channel 0 is blue, 1 green and 2 red. */
  function Channel(px: BgrPixel, c: int): int
  {
    if c == 0 then px.blue as int else if c == 1 then px.green as int else px.red as int
  }

  /** The `rows` by `n` block at column `x0` of row `y0` lies inside `p`. */
  predicate Holds(p: seq<seq<BgrPixel>>, y0: int, rows: int, x0: int, n: int)
  {
    0 <= y0 && 0 <= rows && y0 + rows <= |p| && 0 <= x0 && 0 <= n &&
    forall y :: y0 <= y < y0 + rows ==> x0 + n <= |p[y]|
  }

  /** Channel `c` summed over `n` pixels of a row from column `x0`. */
  function RowTotal(row: seq<BgrPixel>, x0: int, n: nat, c: int): int
    requires 0 <= x0 && x0 + n <= |row|
  {
    if n == 0 then 0 else RowTotal(row, x0, n - 1, c) + Channel(row[x0 + n - 1], c)
  }

  /**
   * What one source row adds to the accumulator of output column `X`:
   * its `r` pixels when `X` is a whole block of the `w`-pixel row, and
   * otherwise 255 times `r`.
   */
  function BlockRowTotal(row: seq<BgrPixel>, w: nat, r: int, X: int, c: int): int
    requires |row| == w && r >= 1 && 0 <= X
  {
    if X < w / r then
      BlockFits(X, r, w);
      RowTotal(row, X * r, r, c)
    else
      255 * r
  }

  /** Channel `c` summed over a block. */
  function Total(p: seq<seq<BgrPixel>>, y0: int, rows: nat, x0: int, n: nat, c: int): int
    requires Holds(p, y0, rows, x0, n)
  {
    if rows == 0 then 0 else Total(p, y0, rows - 1, x0, n, c) + RowTotal(p[y0 + rows - 1], x0, n, c)
  }

  /**
   * What the accumulator of output column `X` holds after `rows` source
   * rows from `y0`: the block sum for a whole block of columns, and for a
   * column past the whole blocks, 255 times `r` per row (reduce.cpp:309-318).
   */
  function Partial(p: seq<seq<BgrPixel>>, w: nat, h: nat, r: int, y0: int, rows: nat, X: int, c: int): int
    requires IsMatrix(p, w, h) && r >= 1 && 0 <= y0 && y0 + rows <= h && 0 <= X
  {
    if X < w / r then
      BlockFits(X, r, w);
      Total(p, y0, rows, X * r, r, c)
    else
      rows * (255 * r)
  }

  /** The accumulator after the whole band of rows from `y0`, which stops at the last row. */
  function BlockSum(p: seq<seq<BgrPixel>>, w: nat, h: nat, r: int, y0: int, X: int, c: int): int
    requires IsMatrix(p, w, h) && r >= 1 && 0 <= y0 <= h && 0 <= X
  {
    Partial(p, w, h, r, y0, Min(r, h - y0), X, c)
  }

  /** The 24-bit output pixel: each channel's block sum over `r*r`, cast to a byte. */
  function Averaged(p: seq<seq<BgrPixel>>, w: nat, h: nat, r: int, Y: int, X: int): BgrPixel
    requires IsMatrix(p, w, h) && r >= 1 && 0 <= Y * r <= h && 0 <= X
  {
    BgrPixel(ToByte(BlockSum(p, w, h, r, Y * r, X, 0) / (r * r)),
             ToByte(BlockSum(p, w, h, r, Y * r, X, 1) / (r * r)),
             ToByte(BlockSum(p, w, h, r, Y * r, X, 2) / (r * r)))
  }

  /** The 8-bit output pixel: the averaged channels packed 3-3-2. */
  function Packed(p: seq<seq<BgrPixel>>, w: nat, h: nat, r: int, Y: int, X: int): bv8
    requires IsMatrix(p, w, h) && r >= 1 && 0 <= Y * r <= h && 0 <= X
  {
    var a := Averaged(p, w, h, r, Y, X);
    Rgb2Pix(a.red, a.green, a.blue)
  }

  /** The picture reduce256 and reduce24bit produce: `w/r` by `h/r` averaged blocks. */
  function Reduced(p: seq<seq<BgrPixel>>, w: nat, h: nat, r: int): (q: seq<seq<BgrPixel>>)
    requires IsMatrix(p, w, h) && r >= 1
    ensures IsMatrix(q, w / r, h / r)
  {
    seq(h / r, Y requires 0 <= Y < h / r =>
      BlockFits(Y, r, h);
      seq(w / r, X requires 0 <= X < w / r => Averaged(p, w, h, r, Y, X)))
  }

  /** The width reduce256_256 gives: whole blocks rounded up, then to a multiple of 4. */
  function PackedWidth(w: int, r: int): int
    requires r >= 1
  {
    LongAligned((w + (r - 1)) / r)
  }

  /** The picture reduce256_256 produces, once its sampling is corrected. */
  function PackedPicture(p: seq<seq<BgrPixel>>, w: nat, h: nat, r: int): (q: seq<seq<bv8>>)
    requires IsMatrix(p, w, h) && r >= 1
  {
    var pw := PackedWidth(w, r);
    seq((h + (r - 1)) / r, Y requires 0 <= Y < (h + (r - 1)) / r =>
      BlockFits(Y, r, h + (r - 1));
      seq(if pw < 0 then 0 else pw, X requires 0 <= X < pw => Packed(p, w, h, r, Y, X)))
  }

  // ---------------------------------------------------------------------
  // What the averages mean

  lemma {:induction false} RowTotalBounds(row: seq<BgrPixel>, x0: int, n: nat, c: int)
    requires 0 <= x0 && x0 + n <= |row|
    ensures 0 <= RowTotal(row, x0, n, c) <= 255 * n
  {
    if n > 0 {
      RowTotalBounds(row, x0, n - 1, c);
    }
  }

  lemma {:induction false} TotalBounds(p: seq<seq<BgrPixel>>, y0: int, rows: nat, x0: int, n: nat, c: int)
    requires Holds(p, y0, rows, x0, n)
    ensures 0 <= Total(p, y0, rows, x0, n, c) <= 255 * n * rows
  {
    if rows > 0 {
      TotalBounds(p, y0, rows - 1, x0, n, c);
      RowTotalBounds(p[y0 + rows - 1], x0, n, c);
      assert 255 * n * rows == 255 * n * (rows - 1) + 255 * n;
    }
  }

  /** A mean of bytes is a byte: the cast to `unsigned char` never wraps. */
  lemma MeanFits(t: int, a: int)
    requires a >= 1 && 0 <= t <= 255 * a
    ensures 0 <= t / a <= 255 && ToByte(t / a) as int == t / a
  {
    QuotientBelow(t, a, 256);
    ByteExact(t / a);
  }

  lemma ByteExact(v: int)
    requires 0 <= v <= 255
    ensures ToByte(v) as int == v
  {
    assert v % 256 == v;
  }

  /** The block sums of a block in which every pixel has channel value `v`. */
  lemma {:induction false} UniformRow(row: seq<BgrPixel>, x0: int, n: nat, c: int, v: int)
    requires 0 <= x0 && x0 + n <= |row|
    requires forall x :: x0 <= x < x0 + n ==> Channel(row[x], c) == v
    ensures RowTotal(row, x0, n, c) == n * v
  {
    if n > 0 {
      UniformRow(row, x0, n - 1, c, v);
    }
  }

  lemma {:induction false} UniformTotal(p: seq<seq<BgrPixel>>, y0: int, rows: nat, x0: int, n: nat, c: int, v: int)
    requires Holds(p, y0, rows, x0, n)
    requires forall y, x :: y0 <= y < y0 + rows && x0 <= x < x0 + n ==> Channel(p[y][x], c) == v
    ensures Total(p, y0, rows, x0, n, c) == v * (rows * n)
  {
    if rows > 0 {
      UniformTotal(p, y0, rows - 1, x0, n, c, v);
      UniformRow(p[y0 + rows - 1], x0, n, c, v);
      OneMoreRow(v, rows, n);
    }
  }

  lemma OneMoreRow(v: int, rows: int, n: int)
    ensures v * ((rows - 1) * n) + n * v == v * (rows * n)
  {
    var k := (rows - 1) * n;
    assert rows * n == k + n;
    assert v * (k + n) == v * k + v * n;
  }

  /** For a whole block, the accumulated band is the block's own sum. */
  lemma WholeBlockSum(p: seq<seq<BgrPixel>>, w: nat, h: nat, r: int, Y: int, X: int, c: int)
    requires IsMatrix(p, w, h) && r >= 1 && 0 <= Y < h / r && 0 <= X < w / r
    ensures 0 <= Y * r && Y * r + r <= h && 0 <= X * r && X * r + r <= w
    ensures BlockSum(p, w, h, r, Y * r, X, c) == Total(p, Y * r, r, X * r, r, c)
  {
    BlockFits(Y, r, h);
    BlockFits(X, r, w);
    assert Min(r, h - Y * r) == r;
  }

  /**
   * Each channel of a reduced pixel is the integer mean of that channel
   * over the `r*r` source pixels of its block, and the cast to a byte
   * keeps it whole.
   */
  lemma AveragedMean(p: seq<seq<BgrPixel>>, w: nat, h: nat, r: int, Y: int, X: int, c: int)
    requires IsMatrix(p, w, h) && r >= 1 && 0 <= Y < h / r && 0 <= X < w / r
    ensures 0 <= Y * r && Y * r + r <= h && 0 <= X * r && X * r + r <= w
    ensures 0 <= Total(p, Y * r, r, X * r, r, c) / (r * r) <= 255
    ensures ToByte(BlockSum(p, w, h, r, Y * r, X, c) / (r * r)) as int == Total(p, Y * r, r, X * r, r, c) / (r * r)
  {
    WholeBlockSum(p, w, h, r, Y, X, c);
    var t, a := Total(p, Y * r, r, X * r, r, c), r * r;
    TotalBounds(p, Y * r, r, X * r, r, c);
    assert 255 * r * r == 255 * a;
    assert a >= 1;
    MeanFits(t, a);
  }

  /** One channel of a block of one colour averages to that colour's channel. */
  lemma UniformChannel(p: seq<seq<BgrPixel>>, w: nat, h: nat, r: int, Y: int, X: int, px: BgrPixel, c: int)
    requires IsMatrix(p, w, h) && r >= 1 && 0 <= Y < h / r && 0 <= X < w / r
    requires forall y, x :: Y * r <= y < Y * r + r && X * r <= x < X * r + r && y < h && x < w ==> p[y][x] == px
    ensures 0 <= Y * r && Y * r + r <= h
    ensures BlockSum(p, w, h, r, Y * r, X, c) / (r * r) == Channel(px, c)
  {
    WholeBlockSum(p, w, h, r, Y, X, c);
    var v, a := Channel(px, c), r * r;
    UniformTotal(p, Y * r, r, X * r, r, c, v);
    FloorUnique(v, a, v * a);
  }

  /** A byte widened and cast back is itself. */
  lemma ByteRoundTrip(b: bv8)
    ensures ToByte(b as int) == b
  {
    assert (b as int) % 256 == b as int;
  }

  /** A block of one colour reduces to that colour. */
  lemma UniformBlock(p: seq<seq<BgrPixel>>, w: nat, h: nat, r: int, Y: int, X: int, px: BgrPixel)
    requires IsMatrix(p, w, h) && r >= 1 && 0 <= Y < h / r && 0 <= X < w / r
    requires forall y, x :: Y * r <= y < Y * r + r && X * r <= x < X * r + r && y < h && x < w ==> p[y][x] == px
    ensures 0 <= Y * r && Y * r + r <= h
    ensures Averaged(p, w, h, r, Y, X) == px
  {
    UniformChannel(p, w, h, r, Y, X, px, 0);
    UniformChannel(p, w, h, r, Y, X, px, 1);
    UniformChannel(p, w, h, r, Y, X, px, 2);
    ByteRoundTrip(px.blue);
    ByteRoundTrip(px.green);
    ByteRoundTrip(px.red);
  }

  // ---------------------------------------------------------------------
  // The sampling reduce256_256 does as written (reduce.cpp:293-307)

  /**
   * The first source column each output column reads from, as the loop
   * of reduce.cpp:293-307 is written: `ip` moves on by a block before the
   * block is read, and the loop runs while `x < width - reduction`.
   */
  function StartsAsWritten(x: int, width: int, r: int): (starts: seq<int>)
    requires r >= 1 && x >= 0
    decreases width - x
  {
    if x < width - r then [x + r] + StartsAsWritten(x + r, width, r) else []
  }

  lemma {:induction false} StartsAsWrittenShifted(x: int, width: int, r: int)
    requires r >= 1 && x >= 0
    ensures forall k :: 0 <= k < |StartsAsWritten(x, width, r)| ==>
      StartsAsWritten(x, width, r)[k] == x + (k + 1) * r
    decreases width - x
  {
    if x < width - r {
      StartsAsWrittenShifted(x + r, width, r);
      var s := StartsAsWritten(x, width, r);
      forall k | 0 <= k < |s|
        ensures s[k] == x + (k + 1) * r
      {
        if k > 0 {
          assert s[k] == StartsAsWritten(x + r, width, r)[k - 1];
          assert x + r + k * r == x + (k + 1) * r;
        }
      }
    }
  }

  /**
   * As written, output column `k` averages source columns `(k+1)*r` to
   * `(k+2)*r - 1`: the first block is never read, a 4-pixel row reduced
   * by 2 has its whole picture in its first output pixel's place shifted
   * and its second output pixel whited out, and a 5-pixel row reads a
   * sixth column.
   */
  lemma AsWrittenSkipsFirstBlock()
    ensures StartsAsWritten(0, 4, 2) == [2]
    ensures StartsAsWritten(0, 5, 2) == [2, 4]
    ensures forall width, r, k :: r >= 1 && 0 <= k < |StartsAsWritten(0, width, r)| ==>
      StartsAsWritten(0, width, r)[k] == (k + 1) * r
  {
    assert StartsAsWritten(4, 5, 2) == [];
    assert StartsAsWritten(2, 5, 2) == [4];
    assert StartsAsWritten(2, 4, 2) == [];
    forall width, r, k | r >= 1 && 0 <= k < |StartsAsWritten(0, width, r)|
      ensures StartsAsWritten(0, width, r)[k] == (k + 1) * r
    {
      StartsAsWrittenShifted(0, width, r);
    }
  }

  /** How many blocks the loop of reduce.cpp:293-307 reads from a row, starting from column `x`. */
  lemma {:induction false} StartsAsWrittenCount(x: int, width: int, r: int)
    requires r >= 1 && x >= 0
    ensures |StartsAsWritten(x, width, r)| == if x + r < width then (width - 1 - x) / r else 0
    decreases width - x
  {
    if x + r < width {
      StartsAsWrittenCount(x + r, width, r);
      var c := |StartsAsWritten(x + r, width, r)|;
      var n := width - 1 - x - r;
      if x + r + r < width {
        assert n == (n / r) * r + n % r && 0 <= n % r < r;
        assert c * r <= n < c * r + r;
      }
      NextMultiple(c, r);
      FloorUnique(c + 1, r, width - 1 - x);
    }
  }

  /** If `k` blocks of `r` fit in `n`, then `k` is at most `n / r`. */
  lemma DivLowerBound(k: int, r: int, n: int)
    requires r >= 1 && 0 <= k && k * r <= n
    ensures k <= n / r
  {
    var q := n / r;
    assert n == q * r + n % r;
    if q < k {
      NextMultiple(q, r);
      ScaleOrder(k, q + 1, r);
    }
  }

  /**
   * Channel `c` of the accumulator of output column `X` of band `Y`,
   * once the band is summed, as reduce.cpp:285-319 is written: the first
   * `|StartsAsWritten(0, w, r)|` columns hold the block of `r` columns
   * from `(X+1)*r`, the columns past them 255 times `r` per row, and
   * `None` stands for a block that runs past the end of the row, where
   * the loop reads whatever bytes follow the row.
   */
  function SumAsWritten(p: seq<seq<BgrPixel>>, w: nat, h: nat, r: int, Y: int, X: int, c: int): Option<int>
    requires IsMatrix(p, w, h) && r >= 1 && 0 <= Y * r <= h && 0 <= X
  {
    var rows := Min(r, h - Y * r);
    if X >= |StartsAsWritten(0, w, r)| then Some(rows * (255 * r))
    else if (X + 2) * r <= w then
      NextMultiple(X + 1, r);
      Some(Total(p, Y * r, rows, (X + 1) * r, r, c))
    else None
  }

  /** Output pixel `X` of band `Y` as reduce.cpp:321-332 packs it from the accumulators as written. */
  function PackedAsWritten(p: seq<seq<BgrPixel>>, w: nat, h: nat, r: int, Y: int, X: int): Option<bv8>
    requires IsMatrix(p, w, h) && r >= 1 && 0 <= Y * r <= h && 0 <= X
  {
    var blue, green, red := SumAsWritten(p, w, h, r, Y, X, 0), SumAsWritten(p, w, h, r, Y, X, 1),
                            SumAsWritten(p, w, h, r, Y, X, 2);
    if blue.Some? && green.Some? && red.Some? then
      Some(Rgb2Pix(ToByte(red.value / (r * r)), ToByte(green.value / (r * r)), ToByte(blue.value / (r * r))))
    else None
  }

  /**
   * As written, every output pixel whose block lies inside the row shows
   * the block the corrected sampling puts one pixel to its right.
   */
  lemma AsWrittenShiftsLeft(p: seq<seq<BgrPixel>>, w: nat, h: nat, r: int, Y: int, X: int)
    requires IsMatrix(p, w, h) && r >= 1 && 0 <= Y * r <= h && 0 <= X && (X + 2) * r <= w
    ensures PackedAsWritten(p, w, h, r, Y, X) == Some(Packed(p, w, h, r, Y, X + 1))
  {
    NextMultiple(X + 1, r);
    StartsAsWrittenCount(0, w, r);
    DivLowerBound(X + 1, r, w - 1);
    DivLowerBound(X + 2, r, w);
    forall c | 0 <= c < 3
      ensures SumAsWritten(p, w, h, r, Y, X, c) == Some(BlockSum(p, w, h, r, Y * r, X + 1, c))
    {
    }
  }

  /**
   * As written, when `r` divides a row of `w >= r` pixels, the last
   * whole block is never read: its output pixel averages white, where
   * the corrected sampling averages columns `w - r ..< w`.
   */
  lemma AsWrittenWhitesLastBlock(p: seq<seq<BgrPixel>>, w: nat, h: nat, r: int, Y: int, c: int)
    requires IsMatrix(p, w, h) && r >= 1 && 0 <= Y * r <= h && w >= r && w % r == 0
    ensures SumAsWritten(p, w, h, r, Y, w / r - 1, c) == Some(Min(r, h - Y * r) * (255 * r))
    ensures BlockSum(p, w, h, r, Y * r, w / r - 1, c) == Total(p, Y * r, Min(r, h - Y * r), w - r, r, c)
  {
    var q := w / r;
    assert w == q * r;
    assert q >= 1;
    NextMultiple(q - 1, r);
    StartsAsWrittenCount(0, w, r);
    if r < w {
      FloorUnique(q - 1, r, w - 1);
    }
    assert (q - 1) * r == w - r;
  }

  /** As written, a 5-pixel row reduced by 2 reads its second block from columns 4 and 5, past the row. */
  lemma AsWrittenReadsPastRow(p: seq<seq<BgrPixel>>, h: nat, Y: int)
    requires IsMatrix(p, 5, h) && 0 <= Y * 2 <= h
    ensures PackedAsWritten(p, 5, h, 2, Y, 1) == None
    ensures 1 < 5 / 2
  {
    assert StartsAsWritten(4, 5, 2) == [];
    assert StartsAsWritten(2, 5, 2) == [4];
  }

  // ---------------------------------------------------------------------
  // The rasters

  /** Row `y1` of the raster `s` holds the pixels `row`, directly or through `color`. */
  ghost predicate RowIn(s: array2<bv8>, y1: int, depth: int, color: seq<Bgr>, row: seq<BgrPixel>)
    reads s
  {
    0 <= y1 < s.Length0 &&
    (depth == 24 ==>
       3 * |row| <= s.Length1 &&
       forall j :: 0 <= j < |row| ==> row[j] == BgrPixel(s[y1, 3 * j], s[y1, 3 * j + 1], s[y1, 3 * j + 2])) &&
    (depth != 24 ==>
       |row| <= s.Length1 && |color| == 256 &&
       forall j :: 0 <= j < |row| ==> row[j] == Shade(color[s[y1, j]]))
  }

  /** `p` is the picture of the `w` by `h` raster `s` of the given depth, held in its first `h` rows. */
  ghost predicate Picture(s: array2<bv8>, depth: int, color: seq<Bgr>, p: seq<seq<BgrPixel>>, w: nat, h: nat)
    reads s
  {
    h <= s.Length0 &&
    (depth == 24 ==> 3 * w <= s.Length1 && p == Pixels24(Grid(s), w, h)) &&
    (depth != 24 ==> w <= s.Length1 && |color| == 256 && p == Paletted(color, Pixels8(Grid(s), w, h), w, h))
  }

  lemma RowOf(s: array2<bv8>, depth: int, color: seq<Bgr>, p: seq<seq<BgrPixel>>, w: nat, h: nat, y1: int)
    requires Picture(s, depth, color, p, w, h) && 0 <= y1 < h
    ensures |p[y1]| == w && RowIn(s, y1, depth, color, p[y1])
  {
  }

  /**
   * The innermost loop of the reducers (reduce.cpp:127-133, 217-222 and,
   * corrected, 297-302): `r` pixels of row `y1` from column `x0` are added
   * to the accumulators of output column `x`.
   */
  method AddBlock(s: array2<bv8>, y1: int, depth: int, color: seq<Bgr>, r: int,
                  blue: array<int>, green: array<int>, red: array<int>, x: int, x0: int,
                  ghost row: seq<BgrPixel>)
    requires blue != green && green != red && blue != red
    requires blue.Length == green.Length == red.Length && 0 <= x < blue.Length
    requires r >= 1 && 0 <= x0 && x0 + r <= |row| && RowIn(s, y1, depth, color, row)
    modifies blue, green, red
    ensures blue[x] == old(blue[x]) + RowTotal(row, x0, r, 0)
    ensures green[x] == old(green[x]) + RowTotal(row, x0, r, 1)
    ensures red[x] == old(red[x]) + RowTotal(row, x0, r, 2)
    ensures forall X :: 0 <= X < blue.Length && X != x ==>
      blue[X] == old(blue[X]) && green[X] == old(green[X]) && red[X] == old(red[X])
  {
    var i := 0;
    while i < r
      invariant 0 <= i <= r
      invariant blue[x] == old(blue[x]) + RowTotal(row, x0, i, 0)
      invariant green[x] == old(green[x]) + RowTotal(row, x0, i, 1)
      invariant red[x] == old(red[x]) + RowTotal(row, x0, i, 2)
      invariant forall X :: 0 <= X < blue.Length && X != x ==>
        blue[X] == old(blue[X]) && green[X] == old(green[X]) && red[X] == old(red[X])
    {
      var j := x0 + i;
      if depth == 24 {
        assert row[j] == BgrPixel(s[y1, 3 * j], s[y1, 3 * j + 1], s[y1, 3 * j + 2]);
        blue[x] := blue[x] + s[y1, 3 * j] as int;
        green[x] := green[x] + s[y1, 3 * j + 1] as int;
        red[x] := red[x] + s[y1, 3 * j + 2] as int;
      } else {
        var c := color[s[y1, j]];
        assert row[j] == Shade(c);
        blue[x] := blue[x] + c.blue as int;
        green[x] := green[x] + c.green as int;
        red[x] := red[x] + c.red as int;
      }
      i := i + 1;
    }
  }

  /**
   * One source row into the accumulators: every whole block of `r`
   * pixels into its output column (reduce.cpp:117-139, 207-227), then
   * 255 times `r` into each column past the whole blocks
   * (reduce.cpp:309-318); the reducers with 24-bit output have no such
   * columns.
   */
  method AddRow(s: array2<bv8>, y1: int, depth: int, color: seq<Bgr>, r: int,
                blue: array<int>, green: array<int>, red: array<int>, ghost row: seq<BgrPixel>, w: nat)
    requires blue != green && green != red && blue != red
    requires r >= 1 && blue.Length == green.Length == red.Length && w / r <= blue.Length
    requires |row| == w && RowIn(s, y1, depth, color, row)
    modifies blue, green, red
    ensures forall X :: 0 <= X < blue.Length ==>
      blue[X] == old(blue[X]) + BlockRowTotal(row, w, r, X, 0) &&
      green[X] == old(green[X]) + BlockRowTotal(row, w, r, X, 1) &&
      red[X] == old(red[X]) + BlockRowTotal(row, w, r, X, 2)
  {
    var blocks := w / r;
    var x, x0 := 0, 0;
    while x < blocks
      invariant 0 <= x <= blocks && x0 == x * r
      invariant forall X :: 0 <= X < x ==>
        blue[X] == old(blue[X]) + BlockRowTotal(row, w, r, X, 0) &&
        green[X] == old(green[X]) + BlockRowTotal(row, w, r, X, 1) &&
        red[X] == old(red[X]) + BlockRowTotal(row, w, r, X, 2)
      invariant forall X :: x <= X < blue.Length ==>
        blue[X] == old(blue[X]) && green[X] == old(green[X]) && red[X] == old(red[X])
    {
      BlockFits(x, r, w);
      AddBlock(s, y1, depth, color, r, blue, green, red, x, x0, row);
      x, x0 := x + 1, x0 + r;
    }
    var i := x;
    while i < blue.Length
      invariant blocks <= i <= blue.Length
      invariant forall X :: 0 <= X < blocks ==>
        blue[X] == old(blue[X]) + BlockRowTotal(row, w, r, X, 0) &&
        green[X] == old(green[X]) + BlockRowTotal(row, w, r, X, 1) &&
        red[X] == old(red[X]) + BlockRowTotal(row, w, r, X, 2)
      invariant forall X :: blocks <= X < i ==>
        blue[X] == old(blue[X]) + BlockRowTotal(row, w, r, X, 0) &&
        green[X] == old(green[X]) + BlockRowTotal(row, w, r, X, 1) &&
        red[X] == old(red[X]) + BlockRowTotal(row, w, r, X, 2)
      invariant forall X :: i <= X < blue.Length ==>
        blue[X] == old(blue[X]) && green[X] == old(green[X]) && red[X] == old(red[X])
    {
      blue[i] := blue[i] + 0xff * r;
      green[i] := green[i] + 0xff * r;
      red[i] := red[i] + 0xff * r;
      i := i + 1;
    }
  }

  /** The accumulators hold the first `rows` source rows of the band from `y`. */
  ghost predicate Accumulated(blue: array<int>, green: array<int>, red: array<int>,
                              p: seq<seq<BgrPixel>>, w: nat, h: nat, r: int, y: int, rows: nat)
    reads blue, green, red
  {
    blue.Length == green.Length == red.Length &&
    IsMatrix(p, w, h) && r >= 1 && 0 <= y && y + rows <= h &&
    forall X :: 0 <= X < blue.Length ==>
      blue[X] == Partial(p, w, h, r, y, rows, X, 0) &&
      green[X] == Partial(p, w, h, r, y, rows, X, 1) &&
      red[X] == Partial(p, w, h, r, y, rows, X, 2)
  }

  /** One pass of the row loop of a band: source row `y1` into the accumulators. */
  method AccumulateRow(s: array2<bv8>, y: int, y1: int, depth: int, color: seq<Bgr>, r: int,
                       blue: array<int>, green: array<int>, red: array<int>,
                       ghost p: seq<seq<BgrPixel>>, w: nat, h: nat)
    requires blue != green && green != red && blue != red
    requires r >= 1 && w / r <= blue.Length
    requires 0 <= y <= y1 < h && Picture(s, depth, color, p, w, h)
    requires Accumulated(blue, green, red, p, w, h, r, y, y1 - y)
    modifies blue, green, red
    ensures Accumulated(blue, green, red, p, w, h, r, y, y1 + 1 - y)
  {
    RowOf(s, depth, color, p, w, h, y1);
    label Before:
    AddRow(s, y1, depth, color, r, blue, green, red, p[y1], w);
    forall X | 0 <= X < blue.Length
      ensures blue[X] == Partial(p, w, h, r, y, y1 + 1 - y, X, 0)
      ensures green[X] == Partial(p, w, h, r, y, y1 + 1 - y, X, 1)
      ensures red[X] == Partial(p, w, h, r, y, y1 + 1 - y, X, 2)
    {
      assert old@Before(blue[X] == Partial(p, w, h, r, y, y1 - y, X, 0) &&
                        green[X] == Partial(p, w, h, r, y, y1 - y, X, 1) &&
                        red[X] == Partial(p, w, h, r, y, y1 - y, X, 2));
      PartialStep(p, w, h, r, y, y1 - y, X, 0);
      PartialStep(p, w, h, r, y, y1 - y, X, 1);
      PartialStep(p, w, h, r, y, y1 - y, X, 2);
    }
  }

  /**
   * One band of output rows: clear the accumulators, then add the source
   * rows from `y` while they are in the band and in the image
   * (reduce.cpp:111-139, 201-227, 279-319).
   */
  method AccumulateBand(s: array2<bv8>, y: int, depth: int, color: seq<Bgr>, r: int,
                        blue: array<int>, green: array<int>, red: array<int>,
                        ghost p: seq<seq<BgrPixel>>, w: nat, h: nat)
    requires blue != green && green != red && blue != red
    requires r >= 1 && blue.Length == green.Length == red.Length && w / r <= blue.Length
    requires 0 <= y < h && Picture(s, depth, color, p, w, h)
    modifies blue, green, red
    ensures IsMatrix(p, w, h)
    ensures forall X :: 0 <= X < blue.Length ==>
      blue[X] == BlockSum(p, w, h, r, y, X, 0) && green[X] == BlockSum(p, w, h, r, y, X, 1) &&
      red[X] == BlockSum(p, w, h, r, y, X, 2)
  {
    forall i | 0 <= i < blue.Length {
      blue[i] := 0;
    }
    forall i | 0 <= i < green.Length {
      green[i] := 0;
    }
    forall i | 0 <= i < red.Length {
      red[i] := 0;
    }
    forall X | 0 <= X < blue.Length
      ensures blue[X] == Partial(p, w, h, r, y, 0, X, 0) && green[X] == Partial(p, w, h, r, y, 0, X, 1) &&
              red[X] == Partial(p, w, h, r, y, 0, X, 2)
    {
      if X < w / r {
        BlockFits(X, r, w);
      }
    }
    var y1 := y;
    while y1 < y + r && y1 < h
      invariant y <= y1 <= y + Min(r, h - y)
      invariant Accumulated(blue, green, red, p, w, h, r, y, y1 - y)
    {
      AccumulateRow(s, y, y1, depth, color, r, blue, green, red, p, w, h);
      y1 := y1 + 1;
    }
  }

  /** One more source row adds that row's share to the accumulator of column `X`. */
  lemma PartialStep(p: seq<seq<BgrPixel>>, w: nat, h: nat, r: int, y0: int, rows: nat, X: int, c: int)
    requires IsMatrix(p, w, h) && r >= 1 && 0 <= y0 && y0 + rows < h && 0 <= X
    ensures Partial(p, w, h, r, y0, rows + 1, X, c) ==
      Partial(p, w, h, r, y0, rows, X, c) + BlockRowTotal(p[y0 + rows], w, r, X, c)
  {
    if X < w / r {
      BlockFits(X, r, w);
      assert Holds(p, y0, rows + 1, X * r, r);
    } else {
      assert (rows + 1) * (255 * r) == rows * (255 * r) + 255 * r;
    }
  }

  /** Output pixel `(X, Y)` of the 24-bit raster `d` is the averaged block. */
  ghost predicate StoredMean(d: array2<bv8>, p: seq<seq<BgrPixel>>, w: nat, h: nat, r: int, Y: int, X: int)
    reads d
  {
    0 <= Y < d.Length0 && 0 <= X && 3 * X + 2 < d.Length1 &&
    IsMatrix(p, w, h) && r >= 1 && 0 <= Y * r <= h &&
    BgrPixel(d[Y, 3 * X], d[Y, 3 * X + 1], d[Y, 3 * X + 2]) == Averaged(p, w, h, r, Y, X)
  }

  /** Output pixel `(X, Y)` of the 8-bit raster `d` is the packed averaged block. */
  ghost predicate StoredPacked(d: array2<bv8>, p: seq<seq<BgrPixel>>, w: nat, h: nat, r: int, Y: int, X: int)
    reads d
  {
    0 <= Y < d.Length0 && 0 <= X < d.Length1 &&
    IsMatrix(p, w, h) && r >= 1 && 0 <= Y * r <= h &&
    d[Y, X] == Packed(p, w, h, r, Y, X)
  }

  /** The write-back of one 24-bit output row (reduce.cpp:141-151, 229-239). */
  method StoreMeans(d: array2<bv8>, Y: int, blue: array<int>, green: array<int>, red: array<int>,
                    area: int, ghost p: seq<seq<BgrPixel>>, w: nat, h: nat, r: int)
    requires blue.Length == green.Length == red.Length && 3 * blue.Length <= d.Length1
    requires 0 <= Y < d.Length0 && r >= 1 && area == r * r && IsMatrix(p, w, h) && 0 <= Y * r <= h
    requires forall X :: 0 <= X < blue.Length ==>
      blue[X] == BlockSum(p, w, h, r, Y * r, X, 0) && green[X] == BlockSum(p, w, h, r, Y * r, X, 1) &&
      red[X] == BlockSum(p, w, h, r, Y * r, X, 2)
    requires forall Yp, X :: 0 <= Yp < Y && 0 <= X < blue.Length ==> StoredMean(d, p, w, h, r, Yp, X)
    modifies d
    ensures forall Yp, X :: 0 <= Yp <= Y && 0 <= X < blue.Length ==> StoredMean(d, p, w, h, r, Yp, X)
  {
    var i := 0;
    while i < blue.Length
      invariant 0 <= i <= blue.Length
      invariant forall Yp, X :: 0 <= Yp < Y && 0 <= X < blue.Length ==> StoredMean(d, p, w, h, r, Yp, X)
      invariant forall X :: 0 <= X < i ==> StoredMean(d, p, w, h, r, Y, X)
    {
      label Before:
      d[Y, 3 * i] := ToByte(blue[i] / area);
      d[Y, 3 * i + 1] := ToByte(green[i] / area);
      d[Y, 3 * i + 2] := ToByte(red[i] / area);
      forall Yp, X | 0 <= Yp < Y && 0 <= X < blue.Length
        ensures StoredMean(d, p, w, h, r, Yp, X)
      {
        assert old@Before(StoredMean(d, p, w, h, r, Yp, X));
      }
      forall X | 0 <= X < i
        ensures StoredMean(d, p, w, h, r, Y, X)
      {
        assert old@Before(StoredMean(d, p, w, h, r, Y, X));
      }
      i := i + 1;
    }
  }

  /** The write-back of one 8-bit output row, packed 3-3-2 (reduce.cpp:321-332). */
  method StorePacked(d: array2<bv8>, Y: int, blue: array<int>, green: array<int>, red: array<int>,
                     area: int, ghost p: seq<seq<BgrPixel>>, w: nat, h: nat, r: int)
    requires blue.Length == green.Length == red.Length == d.Length1
    requires 0 <= Y < d.Length0 && r >= 1 && area == r * r && IsMatrix(p, w, h) && 0 <= Y * r <= h
    requires forall X :: 0 <= X < blue.Length ==>
      blue[X] == BlockSum(p, w, h, r, Y * r, X, 0) && green[X] == BlockSum(p, w, h, r, Y * r, X, 1) &&
      red[X] == BlockSum(p, w, h, r, Y * r, X, 2)
    requires forall Yp, X :: 0 <= Yp < Y && 0 <= X < blue.Length ==> StoredPacked(d, p, w, h, r, Yp, X)
    modifies d
    ensures forall Yp, X :: 0 <= Yp <= Y && 0 <= X < blue.Length ==> StoredPacked(d, p, w, h, r, Yp, X)
  {
    var i := 0;
    while i < blue.Length
      invariant 0 <= i <= blue.Length
      invariant forall Yp, X :: 0 <= Yp < Y && 0 <= X < blue.Length ==> StoredPacked(d, p, w, h, r, Yp, X)
      invariant forall X :: 0 <= X < i ==> StoredPacked(d, p, w, h, r, Y, X)
    {
      label Before:
      var red', blue', green' := ToByte(red[i] / area), ToByte(blue[i] / area), ToByte(green[i] / area);
      d[Y, i] := Rgb2Pix(red', green', blue');
      forall Yp, X | 0 <= Yp < Y && 0 <= X < blue.Length
        ensures StoredPacked(d, p, w, h, r, Yp, X)
      {
        assert old@Before(StoredPacked(d, p, w, h, r, Yp, X));
      }
      forall X | 0 <= X < i
        ensures StoredPacked(d, p, w, h, r, Y, X)
      {
        assert old@Before(StoredPacked(d, p, w, h, r, Y, X));
      }
      i := i + 1;
    }
  }

  lemma ReducedHeld(d: array2<bv8>, p: seq<seq<BgrPixel>>, w: nat, h: nat, r: int, nw: nat, nh: nat)
    requires IsMatrix(p, w, h) && r >= 1 && nw == w / r && nh == h / r
    requires d.Length0 == nh && 3 * nw <= d.Length1
    requires forall Y, X :: 0 <= Y < nh && 0 <= X < nw ==> StoredMean(d, p, w, h, r, Y, X)
    ensures Pixels24(Grid(d), nw, nh) == Reduced(p, w, h, r)
  {
    var a, b := Pixels24(Grid(d), nw, nh), Reduced(p, w, h, r);
    forall Y | 0 <= Y < nh
      ensures a[Y] == b[Y]
    {
      forall X | 0 <= X < nw
        ensures a[Y][X] == b[Y][X]
      {
        assert StoredMean(d, p, w, h, r, Y, X);
      }
    }
  }

  lemma PackedHeld(d: array2<bv8>, p: seq<seq<BgrPixel>>, w: nat, h: nat, r: int)
    requires IsMatrix(p, w, h) && r >= 1 && d.Length0 == (h + (r - 1)) / r && d.Length1 == PackedWidth(w, r)
    requires forall Y, X :: 0 <= Y < d.Length0 && 0 <= X < d.Length1 ==> StoredPacked(d, p, w, h, r, Y, X)
    ensures Pixels8(Grid(d), d.Length1, d.Length0) == PackedPicture(p, w, h, r)
  {
    var a, b := Pixels8(Grid(d), d.Length1, d.Length0), PackedPicture(p, w, h, r);
    forall Y | 0 <= Y < d.Length0
      ensures a[Y] == b[Y]
    {
      forall X | 0 <= X < d.Length1
        ensures a[Y][X] == b[Y][X]
      {
        assert StoredPacked(d, p, w, h, r, Y, X);
      }
    }
  }

  // ---------------------------------------------------------------------
  // The band loops

  /** One band of the 24-bit reducers: accumulate it, then store output row `band`. */
  method ReduceBand(s: array2<bv8>, depth: int, color: seq<Bgr>, ghost p: seq<seq<BgrPixel>>,
                    w: nat, h: nat, r: int, d: array2<bv8>,
                    blue: array<int>, green: array<int>, red: array<int>, y: int, ghost band: int)
    requires blue != green && green != red && blue != red && s != d
    requires r >= 1 && blue.Length == green.Length == red.Length == w / r
    requires Picture(s, depth, color, p, w, h) && d.Length0 == h / r && 3 * (w / r) <= d.Length1
    requires 0 <= band < h / r && y == band * r
    requires forall Y, X :: 0 <= Y < band && 0 <= X < w / r ==> StoredMean(d, p, w, h, r, Y, X)
    modifies d, blue, green, red
    ensures forall Y, X :: 0 <= Y <= band && 0 <= X < w / r ==> StoredMean(d, p, w, h, r, Y, X)
  {
    BlockFits(band, r, h);
    label Start:
    AccumulateBand(s, y, depth, color, r, blue, green, red, p, w, h);
    forall Y, X | 0 <= Y < band && 0 <= X < w / r
      ensures StoredMean(d, p, w, h, r, Y, X)
    {
      assert old@Start(StoredMean(d, p, w, h, r, Y, X));
    }
    FloorUnique(band, r, y);
    StoreMeans(d, y / r, blue, green, red, r * r, p, w, h, r);
  }

  /**
   * The band loop of reduce256 and reduce24bit (reduce.cpp:110-153,
   * 200-240): `y` steps by `r` while a whole band is left.
   */
  method ReduceRaster(s: array2<bv8>, depth: int, color: seq<Bgr>, ghost p: seq<seq<BgrPixel>>,
                      w: nat, h: nat, r: int, d: array2<bv8>)
    requires s != d && r >= 1 && Picture(s, depth, color, p, w, h)
    requires d.Length0 == h / r && 3 * (w / r) <= d.Length1
    modifies d
    ensures IsMatrix(p, w, h)
    ensures Pixels24(Grid(d), w / r, h / r) == Reduced(p, w, h, r)
  {
    var nw, nh := w / r, h / r;
    var blue, green, red := new int[nw], new int[nw], new int[nw];
    var maxY := nh * r;
    var y := 0;
    ghost var band := 0;
    while y < maxY
      invariant 0 <= band <= nh && y == band * r
      invariant forall Y, X :: 0 <= Y < band && 0 <= X < nw ==> StoredMean(d, p, w, h, r, Y, X)
    {
      ScaleOrder(band, nh, r);
      ReduceBand(s, depth, color, p, w, h, r, d, blue, green, red, y, band);
      NextMultiple(band, r);
      y, band := y + r, band + 1;
    }
    ScaleOrder(band, nh, r);
    ReducedHeld(d, p, w, h, r, nw, nh);
  }

  /** One band of reduce256_256: accumulate it, then store packed output row `band`. */
  method PackBand(s: array2<bv8>, color: seq<Bgr>, ghost p: seq<seq<BgrPixel>>,
                  w: nat, h: nat, r: int, d: array2<bv8>,
                  blue: array<int>, green: array<int>, red: array<int>, y: int, ghost band: int)
    requires blue != green && green != red && blue != red && s != d
    requires r >= 1 && blue.Length == green.Length == red.Length == d.Length1 && w / r <= d.Length1
    requires Picture(s, 8, color, p, w, h) && 0 <= band < d.Length0
    requires 0 <= y < h && y == band * r
    requires forall Y, X :: 0 <= Y < band && 0 <= X < d.Length1 ==> StoredPacked(d, p, w, h, r, Y, X)
    modifies d, blue, green, red
    ensures forall Y, X :: 0 <= Y <= band && 0 <= X < d.Length1 ==> StoredPacked(d, p, w, h, r, Y, X)
  {
    label Start:
    AccumulateBand(s, y, 8, color, r, blue, green, red, p, w, h);
    forall Y, X | 0 <= Y < band && 0 <= X < d.Length1
      ensures StoredPacked(d, p, w, h, r, Y, X)
    {
      assert old@Start(StoredPacked(d, p, w, h, r, Y, X));
    }
    FloorUnique(band, r, y);
    StorePacked(d, y / r, blue, green, red, r * r, p, w, h, r);
  }

  /** The band loop of reduce256_256 (reduce.cpp:279-333): `y` steps by `r` while rows are left. */
  method PackRaster(s: array2<bv8>, color: seq<Bgr>, ghost p: seq<seq<BgrPixel>>,
                    w: nat, h: nat, r: int, d: array2<bv8>)
    requires s != d && r >= 1 && Picture(s, 8, color, p, w, h)
    requires d.Length0 == (h + (r - 1)) / r && d.Length1 == PackedWidth(w, r)
    modifies d
    ensures IsMatrix(p, w, h)
    ensures Pixels8(Grid(d), d.Length1, d.Length0) == PackedPicture(p, w, h, r)
  {
    var nw := d.Length1;
    var blue, green, red := new int[nw], new int[nw], new int[nw];
    PackedWidthCovers(w, r);
    var y := 0;
    ghost var band := 0;
    while y < h
      invariant 0 <= band && y == band * r && y <= h + (r - 1)
      invariant forall Y, X :: 0 <= Y < band && 0 <= X < nw ==> StoredPacked(d, p, w, h, r, Y, X)
    {
      assert band < d.Length0 by {
        BlockFitsInverse(band, r, h + (r - 1));
      }
      PackBand(s, color, p, w, h, r, d, blue, green, red, y, band);
      NextMultiple(band, r);
      y, band := y + r, band + 1;
    }
    FloorUnique(band, r, h + (r - 1));
    PackedHeld(d, p, w, h, r);
  }

  /** The packed width leaves room for every whole block. */
  lemma PackedWidthCovers(w: nat, r: int)
    requires r >= 1
    ensures w / r <= (w + (r - 1)) / r <= PackedWidth(w, r)
  {
    assert w / r * r <= w + (r - 1);
    MultipleBelow(w / r, r, w + (r - 1));
    LongAlignedBounds((w + (r - 1)) / r);
  }

  // ---------------------------------------------------------------------
  // The reducers

  /**
   * llimg_reduce256 (reduce.cpp:76-160) and llimg_reduce24bit
   * (reduce.cpp:166-247), which differ only in the depth they accept and
   * in reading pixels through the colour table or directly: a source of
   * another depth is refused with -1 and the target left alone; otherwise
   * the target is a 24-bit image of `width/r` by `height/r` averaged
   * blocks, the partial blocks at the right and bottom dropped.
   */
  method ReduceTo24(image: Llimg, reduction: int, reduced: Llimg, depth: int) returns (rc: int)
    requires depth == 8 || depth == 24
    requires image != reduced && reduction >= 1
    requires image.header.bitsPerPixel == depth ==>
      PixelsIn(image, depth / 8) && (depth == 8 ==> |image.color| == 256)
    modifies reduced
    ensures image.header.bitsPerPixel != depth ==> rc == -1 && unchanged(reduced)
    ensures image.header.bitsPerPixel == depth ==>
      rc == 0 && fresh(reduced.data) && reduced.color == ZeroPalette() &&
      reduced.Laid(image.header.width / reduction, image.height / reduction, 24,
                   LongAligned(3 * (image.header.width / reduction)))
    ensures image.header.bitsPerPixel == depth ==>
      Pixels24(Grid(reduced.data), image.header.width / reduction, image.height / reduction) ==
        Reduced(if depth == 24 then Pixels24(Grid(image.data), image.header.width, image.height)
                else Paletted(image.color, Pixels8(Grid(image.data), image.header.width, image.height),
                              image.header.width, image.height),
                image.header.width, image.height, reduction)
  {
    if image.header.bitsPerPixel != depth {
      return -1;
    }
    var w, h, s, r := image.header.width, image.height, image.data, reduction;
    ghost var p := if depth == 24 then Pixels24(Grid(s), w, h)
                   else Paletted(image.color, Pixels8(Grid(s), w, h), w, h);
    assert Picture(s, depth, image.color, p, w, h);
    var ah := Abs(h);
    assert ah == h;
    var nw, nh := w / r, ah / r;
    assert nh == h / r;
    LongAlignedBounds(3 * nw);
    reduced.Allocate(nw, nh, 24, LongAligned(3 * nw));
    assert Picture(s, depth, image.color, p, w, h);
    ReduceRaster(s, depth, image.color, p, w, h, r, reduced.data);
    assert reduced.Laid(w / r, h / r, 24, LongAligned(3 * (w / r)));
    rc := 0;
  }

  /**
   * llimg_reduce256_256 (reduce.cpp:252-344) with its sampling corrected:
   * an 8-bit source of another depth is refused with -1; otherwise the
   * target is an 8-bit image whose width is the number of blocks rounded
   * up and then to a multiple of four, whose height is the number of
   * bands rounded up, whose pixels pack the averaged blocks 3-3-2
   * (columns past the whole blocks averaging white) and whose colour
   * table is pix2bgr of every pixel value.
   */
  method Reduce256To256(image: Llimg, reduction: int, reduced: Llimg) returns (rc: int)
    requires image != reduced && reduction >= 1
    requires image.header.bitsPerPixel == 8 ==> PixelsIn(image, 1) && |image.color| == 256
    modifies reduced
    ensures image.header.bitsPerPixel != 8 ==> rc == -1 && unchanged(reduced)
    ensures image.header.bitsPerPixel == 8 ==>
      rc == 0 && fresh(reduced.data) && reduced.color == Palette332() &&
      reduced.Lined(PackedWidth(image.header.width, reduction), (image.height + (reduction - 1)) / reduction,
                    8, PackedWidth(image.header.width, reduction)) &&
      reduced.LineBytes() == reduced.header.width &&
      Pixels8(Grid(reduced.data), reduced.data.Length1, reduced.data.Length0) ==
        PackedPicture(Paletted(image.color, Pixels8(Grid(image.data), image.header.width, image.height),
                               image.header.width, image.height),
                      image.header.width, image.height, reduction)
  {
    if image.header.bitsPerPixel != 8 {
      return -1;
    }
    var w, h, s, r := image.header.width, image.height, image.data, reduction;
    ghost var p := Paletted(image.color, Pixels8(Grid(s), w, h), w, h);
    assert Picture(s, 8, image.color, p, w, h);
    var nw := LongAligned((w + (r - 1)) / r);
    var nh := (Abs(h) + (r - 1)) / r;
    assert nw == PackedWidth(w, r) && nh == (h + (r - 1)) / r;
    AlignedRowBytes((w + (r - 1)) / r);
    reduced.AllocateLined(nw, nh, 8, nw);
    var d := reduced.data;
    PackRaster(s, image.color, p, w, h, r, d);
    var pal := Palette332Loop();
    reduced.color := pal;
    assert reduced.LineBytes() == nw;
    rc := 0;
  }

  /** The colour table loop of reduce.cpp:339-342: entry `k` becomes pix2bgr of `k`. */
  method Palette332Loop() returns (pal: seq<Bgr>)
    ensures pal == Palette332()
  {
    pal := ZeroPalette();
    var k := 0;
    while k < 256
      invariant 0 <= k <= 256 && |pal| == 256
      invariant forall i :: 0 <= i < k ==> pal[i] == Pix2Bgr(i as bv8)
    {
      pal := pal[k := Pix2Bgr(k as bv8)];
      k := k + 1;
    }
  }

  // ---------------------------------------------------------------------
  // The dub (reduce.cpp:353-398)

  /** The rows the dub writes for a source of an unknown depth: row `y` is all `y % 256`. */
  function Gradient(lineBytes: nat, h: nat): (g: seq<seq<bv8>>)
    ensures IsMatrix(g, lineBytes, h)
    ensures forall y, x :: 0 <= y < h && 0 <= x < lineBytes ==> g[y][x] == ToByte(y)
  {
    seq(h, y requires 0 <= y < h => seq(lineBytes, _ => ToByte(y)))
  }

  /** Pixel `x` of row `y` of the 24-bit raster `d` is colour-table entry `s[y, x]`. */
  ghost predicate Expanded(d: array2<bv8>, s: array2<bv8>, color: seq<Bgr>, y: int, x: int)
    reads d, s
  {
    0 <= y < d.Length0 && y < s.Length0 && 0 <= x && 3 * x + 2 < d.Length1 && x < s.Length1 &&
    |color| == 256 &&
    d[y, 3 * x] == color[s[y, x]].blue && d[y, 3 * x + 1] == color[s[y, x]].green &&
    d[y, 3 * x + 2] == color[s[y, x]].red
  }

  /** The 8-bit case of the dub for row `y` (reduce.cpp:377-386). */
  method DubRow8(d: array2<bv8>, s: array2<bv8>, color: seq<Bgr>, w: int, y: int)
    requires d != s && |color| == 256 && w >= 0
    requires 0 <= y < d.Length0 && y < s.Length0 && 3 * w <= d.Length1 && w <= s.Length1
    requires forall yy, x :: 0 <= yy < y && 0 <= x < w ==> Expanded(d, s, color, yy, x)
    modifies d
    ensures forall yy, x :: 0 <= yy <= y && 0 <= x < w ==> Expanded(d, s, color, yy, x)
  {
    var x := 0;
    while x < w
      invariant 0 <= x <= w
      invariant forall yy, xx :: 0 <= yy < y && 0 <= xx < w ==> Expanded(d, s, color, yy, xx)
      invariant forall xx :: 0 <= xx < x ==> Expanded(d, s, color, y, xx)
    {
      label Before:
      var c := color[s[y, x]];
      d[y, 3 * x] := c.blue;
      d[y, 3 * x + 1] := c.green;
      d[y, 3 * x + 2] := c.red;
      forall yy, xx | 0 <= yy < y && 0 <= xx < w
        ensures Expanded(d, s, color, yy, xx)
      {
        assert old@Before(Expanded(d, s, color, yy, xx));
      }
      forall xx | 0 <= xx < x
        ensures Expanded(d, s, color, y, xx)
      {
        assert old@Before(Expanded(d, s, color, y, xx));
      }
      x := x + 1;
    }
  }

  /** Every pixel expanded through the colour table: the 24-bit picture is the paletted one. */
  lemma ExpandedPicture(d: array2<bv8>, s: array2<bv8>, color: seq<Bgr>, w: nat, h: nat)
    requires |color| == 256 && d.Length0 == h && h <= s.Length0 && 3 * w <= d.Length1 && w <= s.Length1
    requires forall y, x :: 0 <= y < h && 0 <= x < w ==> Expanded(d, s, color, y, x)
    ensures Pixels24(Grid(d), w, h) == Paletted(color, Pixels8(Grid(s), w, h), w, h)
  {
    var a, b := Pixels24(Grid(d), w, h), Paletted(color, Pixels8(Grid(s), w, h), w, h);
    forall y | 0 <= y < h
      ensures a[y] == b[y]
    {
      forall x | 0 <= x < w
        ensures a[y][x] == b[y][x]
      {
        assert Expanded(d, s, color, y, x);
      }
    }
  }

  /** Copying whole padded rows keeps the 24-bit picture they hold. */
  lemma CopiedRowsKeepPicture(g: seq<seq<bv8>>, lineBytes: nat, w: nat, h: nat)
    requires 3 * w <= lineBytes && Covers(g, lineBytes, h)
    ensures Pixels24(Pixels8(g, lineBytes, h), w, h) == Pixels24(g, w, h)
  {
    var a, b := Pixels24(Pixels8(g, lineBytes, h), w, h), Pixels24(g, w, h);
    forall y | 0 <= y < h
      ensures a[y] == b[y]
    {
      assert |a[y]| == |b[y]|;
    }
  }

  /**
   * llimg_dub (reduce.cpp:353-398): a fresh, zeroed 24-bit record of the
   * source's width and height whose rows are padded to whole words; an
   * 8-bit source is expanded through its colour table, a 24-bit source's
   * rows are copied a whole padded row at a time, and for any other depth
   * row `y` is filled with `y % 256`.
   */
  method Dub(img: Llimg) returns (dub: Llimg)
    requires img.height >= 0 && img.header.width >= 0
    requires img.header.bitsPerPixel == 8 ==> PixelsIn(img, 1) && |img.color| == 256
    requires img.header.bitsPerPixel == 24 ==>
      PixelsIn(img, 3) && LongAligned(3 * img.header.width) <= img.data.Length1
    ensures fresh(dub) && fresh(dub.data) && dub.color == ZeroPalette()
    ensures dub.Laid(img.header.width, img.height, 24, LongAligned(3 * img.header.width))
    ensures img.header.bitsPerPixel == 8 ==>
      Pixels24(Grid(dub.data), img.header.width, img.height) ==
        Paletted(img.color, Pixels8(Grid(img.data), img.header.width, img.height),
                 img.header.width, img.height)
    ensures img.header.bitsPerPixel == 24 ==>
      Grid(dub.data) == Pixels8(Grid(img.data), LongAligned(3 * img.header.width), img.height)
    ensures img.header.bitsPerPixel != 8 && img.header.bitsPerPixel != 24 ==>
      Grid(dub.data) == Gradient(LongAligned(3 * img.header.width), img.height)
  {
    var w, h, bpp := img.header.width, img.height, img.header.bitsPerPixel;
    var lineBytes := LongAligned(3 * w);
    LongAlignedBounds(3 * w);
    dub := new Llimg();
    dub.Allocate(w, h, 24, lineBytes);
    var d, s := dub.data, img.data;
    var y := 0;
    while y < h
      modifies d
      invariant 0 <= y <= h
      invariant bpp == 8 ==> forall yy, x :: 0 <= yy < y && 0 <= x < w ==> Expanded(d, s, img.color, yy, x)
      invariant bpp == 24 ==> forall yy, x :: 0 <= yy < y && 0 <= x < lineBytes ==> d[yy, x] == s[yy, x]
      invariant bpp != 8 && bpp != 24 ==>
        forall yy, x :: 0 <= yy < y && 0 <= x < lineBytes ==> d[yy, x] == ToByte(yy)
    {
      if bpp == 8 {
        DubRow8(d, s, img.color, w, y);
      } else if bpp == 24 {
        forall x | 0 <= x < lineBytes {
          d[y, x] := s[y, x];
        }
      } else {
        forall x | 0 <= x < lineBytes {
          d[y, x] := ToByte(y);
        }
      }
      y := y + 1;
    }
    if bpp == 8 {
      ExpandedPicture(d, s, img.color, w, h);
    } else if bpp == 24 {
      var a, b := Grid(d), Pixels8(Grid(s), lineBytes, h);
      forall yy | 0 <= yy < h
        ensures a[yy] == b[yy]
      {
        assert |a[yy]| == |b[yy]|;
      }
    } else {
      var a, b := Grid(d), Gradient(lineBytes, h);
      forall yy | 0 <= yy < h
        ensures a[yy] == b[yy]
      {
        assert |a[yy]| == |b[yy]|;
      }
    }
  }

  /** A multiple of `r` that fits in `n` is at most `n / r` blocks. */
  lemma MultipleBelow(k: int, r: int, n: int)
    requires r >= 1 && 0 <= k && k * r <= n
    ensures k <= n / r
  {
    var q := n / r;
    assert n == q * r + n % r && n % r < r;
    assert (k - q - 1) * r == k * r - q * r - r;
    NegativeFactor(k - q - 1, r);
  }

  /** A block that ends inside `n` is one of the whole blocks of `n`. */
  lemma BlockFitsInverse(k: int, r: int, n: int)
    requires r >= 1 && 0 <= k && k * r + r <= n
    ensures k < n / r
  {
    assert (k + 1) * r == k * r + r;
    MultipleBelow(k + 1, r, n);
  }
}
