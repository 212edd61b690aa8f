/**
 * The LLIMG raster record of ll_image.h and its helper macros.
 *
 * The raster is held as an `array2` of bytes whose row `y` is the byte
 * row that `line[y]` points to; the line array itself is kept as the
 * sequence of offsets of those rows into the raster data, so that
 * `line[y] == data + line[y]` in the model.
 */
module LlImage {
  import opened Common

  /** One palette entry (ll_image.h:37). */
  datatype Bgr = Bgr(blue: bv8, green: bv8, red: bv8, reserved: bv8)

  const BLACK: Bgr := Bgr(0, 0, 0, 0)

  /** The value of `bih_top` that zeroing leaves: sizeof(BITMAPINFOHEADER). */
  const BIH_SIZE: int := 40

  /** A palette of 256 all-zero entries, as memset leaves it. */
  function ZeroPalette(): (p: seq<Bgr>)
    ensures |p| == 256
    ensures forall i :: 0 <= i < |p| ==> p[i] == BLACK
  {
    seq(256, _ => BLACK)
  }

  /** What the prune and release macros hand back to the allocator. */
  datatype Freed = LineArray | RasterData | Record

  /** Bytes per image row, `(width * bits_per_pixel) / 8` (ll_image.h:123). */
  function RowBytes(width: int, bitsPerPixel: int): int
  {
    CDiv(width * bitsPerPixel, 8)
  }

  /** A row length rounded up to a whole number of 32-bit words, `4*((n+3)/4)`. */
  function LongAligned(n: int): int
  {
    4 * CDiv(n + 3, 4)
  }

  /** Rounding up adds fewer than four bytes and leaves a multiple of four. */
  lemma LongAlignedBounds(n: int)
    requires n >= 0
    ensures n <= LongAligned(n) < n + 4 && LongAligned(n) % 4 == 0
  {
  }

  /** A row of 8-bit pixels rounded up to whole words is that many bytes. */
  lemma AlignedRowBytes(n: int)
    requires n >= 0
    ensures LongAligned(n) >= 0 && RowBytes(LongAligned(n), 8) == LongAligned(n)
  {
  }

  /** The line array of ll_image.h:128-131: row `y` starts `y * lineBytes` bytes into the data. */
  predicate RowLayout(line: seq<int>, lineBytes: int)
  {
    forall y :: 0 <= y < |line| ==> line[y] == y * lineBytes
  }

  /**
   * The BITMAPINFOHEADER part of the record (ll_image.h:53-63), which the
   * record carries in place so that it can be handed to the DIB calls.
   */
  datatype InfoHeader = InfoHeader(bihTop: int, width: int, dibHeight: int, planes: int,
                                   bitsPerPixel: int, compression: int, sizeImage: int,
                                   xPelsPerM: int, yPelsPerM: int, clrUsed: int, clrImportant: int)

  /** The header as zeroing leaves it: all fields 0 but `bih_top` 40 and `planes` 1. */
  const ZERO_HEADER: InfoHeader := InfoHeader(BIH_SIZE, 0, 0, 1, 0, 0, 0, 0, 0, 0, 0)

  /** The LLIMG record (ll_image.h:40-66); 0 stands for a null palette handle. */
  class Llimg {
    var data: array2?<bv8>
    var line: Option<seq<int>>
    var logPalette: int
    var hPalette: int
    var height: int
    var rotation: int
    var client: int
    var client1: int
    var header: InfoHeader
    var color: seq<Bgr>

    /** Every field cleared, then `bih_top` 40 and `planes` 1 (ll_image.h:106-113). */
    predicate Zeroed()
      reads this
    {
      data == null && line == None && logPalette == 0 && hPalette == 0 &&
      height == 0 && rotation == 0 && client == 0 && client1 == 0 &&
      header == ZERO_HEADER && color == ZeroPalette()
    }

    /** llimg_create_base (ll_image.h:138): a freshly allocated, zeroed record. */
    constructor ()
      ensures Zeroed()
    {
      data, line, logPalette, hPalette := null, None, 0, 0;
      height, rotation, client, client1 := 0, 0, 0, 0;
      header, color := ZERO_HEADER, ZeroPalette();
    }

    /** llimg_zero_llimg on a record that exists (ll_image.h:106-113). */
    method Zero()
      modifies this
      ensures Zeroed()
    {
      data, line, logPalette, hPalette := null, None, 0, 0;
      height, rotation, client, client1 := 0, 0, 0, 0;
      header, color := ZERO_HEADER, ZeroPalette();
    }

    function LineBytes(): int
      reads this
    {
      RowBytes(header.width, header.bitsPerPixel)
    }

    /**
     * llimg_make_line_array (ll_image.h:119-134): when a row has a positive
     * number of bytes, `line[0]` is the data and each further row starts
     * `line_bytes` after the previous one. The first entry is written even
     * for a height below 1. Otherwise nothing changes.
     */
    method MakeLineArray()
      modifies this
      ensures old(LineBytes()) <= 0 ==> line == old(line)
      ensures old(LineBytes()) > 0 ==>
        line.Some? && |line.value| == Max(1, height) && RowLayout(line.value, LineBytes())
      ensures data == old(data) && header == old(header) && height == old(height) && color == old(color)
      ensures logPalette == old(logPalette) && hPalette == old(hPalette) && rotation == old(rotation)
      ensures client == old(client) && client1 == old(client1)
    {
      var lineBytes := RowBytes(header.width, header.bitsPerPixel);
      if lineBytes <= 0 {
        return;
      }
      var rows := StrideRows(height, lineBytes);
      line := Some(rows);
    }

    /**
     * The record as the rotations, reductions and the dub leave it: zeroed,
     * then `bpp` bits per pixel, `width` by `height` stored top-down, a
     * raster of `height` rows of `lineBytes` bytes and the line array over it.
     */
    predicate Laid(width: int, height': int, bpp: int, lineBytes: int)
      reads this
    {
      header == ZERO_HEADER.(width := width, dibHeight := -height', bitsPerPixel := bpp) &&
      height == height' &&
      data != null && data.Length0 == height' && data.Length1 == lineBytes &&
      line.Some? && |line.value| == Max(1, height') && RowLayout(line.value, lineBytes) &&
      logPalette == 0 && hPalette == 0 && rotation == 0 && client == 0 && client1 == 0
    }

    /**
     * The preamble those functions share (rotate.cpp:42-57 and the like):
     * zero the record, set its depth and dimensions, allocate the raster
     * and lay the line array over it.
     */
    method Allocate(width: int, height': int, bpp: int, lineBytes: int)
      requires height' >= 0 && lineBytes >= 0
      modifies this
      ensures Laid(width, height', bpp, lineBytes) && fresh(data) && color == ZeroPalette()
    {
      Zero();
      header := header.(bitsPerPixel := bpp);
      header := header.(width := width);
      height := height';
      header := header.(dibHeight := -height);
      data := new bv8[height, lineBytes];
      var rows := StrideRows(height, lineBytes);
      line := Some(rows);
    }

    /**
     * As `Laid`, but for the heighteners, which allocate `rows` rows and lay
     * the line array over all of them while the image keeps `height'`.
     */
    predicate LaidOver(width: int, height': int, rows: int, bpp: int, lineBytes: int)
      reads this
    {
      header == ZERO_HEADER.(width := width, dibHeight := -height', bitsPerPixel := bpp) &&
      height == height' &&
      data != null && data.Length0 == rows && data.Length1 == lineBytes &&
      line.Some? && |line.value| == Max(1, rows) && RowLayout(line.value, lineBytes) &&
      logPalette == 0 && hPalette == 0 && rotation == 0 && client == 0 && client1 == 0
    }

    /**
     * The preamble of the heighteners (resizer.cpp:785-800, 900-915): `rows`
     * rows of `lineBytes` bytes, one more than the image is high.
     */
    method AllocateOver(width: int, height': int, rows: int, bpp: int, lineBytes: int)
      requires rows >= 0 && lineBytes >= 0
      modifies this
      ensures LaidOver(width, height', rows, bpp, lineBytes) && fresh(data) && color == ZeroPalette()
    {
      Zero();
      header := header.(bitsPerPixel := bpp);
      header := header.(width := width);
      height := height';
      header := header.(dibHeight := -height);
      data := new bv8[rows, lineBytes];
      var lines := StrideRows(rows, lineBytes);
      line := Some(lines);
    }

    /**
     * As `Laid`, but with the line array llimg_make_line_array makes, which
     * is none at all when a row has no bytes.
     */
    predicate Lined(width: int, height': int, bpp: int, lineBytes: int)
      reads this
    {
      header == ZERO_HEADER.(width := width, dibHeight := -height', bitsPerPixel := bpp) &&
      height == height' &&
      data != null && data.Length0 == height' && data.Length1 == lineBytes &&
      (LineBytes() > 0 ==> line.Some? && |line.value| == Max(1, height') && RowLayout(line.value, LineBytes())) &&
      (LineBytes() <= 0 ==> line == None) &&
      logPalette == 0 && hPalette == 0 && rotation == 0 && client == 0 && client1 == 0
    }

    /**
     * The preamble of reduce256_256 (reduce.cpp:261-271): zero the record,
     * set its depth and dimensions, allocate the raster and call
     * llimg_make_line_array.
     */
    method AllocateLined(width: int, height': int, bpp: int, lineBytes: int)
      requires height' >= 0 && lineBytes >= 0
      modifies this
      ensures Lined(width, height', bpp, lineBytes) && fresh(data) && color == ZeroPalette()
    {
      Zero();
      header := header.(bitsPerPixel := bpp);
      header := header.(width := width);
      height := height';
      header := header.(dibHeight := -height);
      data := new bv8[height, lineBytes];
      MakeLineArray();
    }

    /** The raster holds `height` rows, each wide enough for one image row. */
    predicate HasRaster()
      reads this
    {
      data != null && data.Length0 == height && height >= 0 &&
      0 <= RowBytes(header.width, header.bitsPerPixel) <= data.Length1
    }
  }

  /**
   * The line-array loop shared by llimg_make_line_array (ll_image.h:128-131)
   * and the rotations: `line[0]` is the data, written even for a height
   * below 1, and each further row starts `lineBytes` after the previous one.
   */
  method StrideRows(height: int, lineBytes: int) returns (rows: seq<int>)
    ensures |rows| == Max(1, height) && RowLayout(rows, lineBytes)
  {
    rows := [0];
    var y := 1;
    while y < height
      invariant 1 <= y == |rows| <= Max(1, height)
      invariant RowLayout(rows, lineBytes)
    {
      rows := rows + [rows[y - 1] + lineBytes];
      y := y + 1;
    }
  }

  // ---------------------------------------------------------------------
  // The picture a raster holds, as a value

  /** One 24-bit pixel, in the byte order of the raster. */
  datatype BgrPixel = BgrPixel(blue: bv8, green: bv8, red: bv8)

  /** `p` has `h` rows of `w` entries. */
  predicate IsMatrix<T>(p: seq<seq<T>>, w: nat, h: nat)
  {
    |p| == h && forall y :: 0 <= y < h ==> |p[y]| == w
  }

  /** `g` has at least `h` rows of at least `n` bytes. */
  predicate Covers(g: seq<seq<bv8>>, n: int, h: int)
  {
    |g| >= h && forall y :: 0 <= y < h ==> |g[y]| >= n
  }

  /** The 8-bit picture held in the first `w` bytes of the first `h` rows. */
  function Pixels8(g: seq<seq<bv8>>, w: nat, h: nat): (p: seq<seq<bv8>>)
    requires Covers(g, w, h)
    ensures IsMatrix(p, w, h)
  {
    seq(h, y requires 0 <= y < h => g[y][..w])
  }

  /** The 24-bit picture held in the first `3*w` bytes of the first `h` rows. */
  function Pixels24(g: seq<seq<bv8>>, w: nat, h: nat): (p: seq<seq<BgrPixel>>)
    requires Covers(g, 3 * w, h)
    ensures IsMatrix(p, w, h)
  {
    seq(h, y requires 0 <= y < h =>
      seq(w, x requires 0 <= x < w => BgrPixel(g[y][3 * x], g[y][3 * x + 1], g[y][3 * x + 2])))
  }

  /** The raster holds at least `height` rows of at least `width` pixels of `bytes` bytes each. */
  predicate PixelsIn(img: Llimg, bytes: int)
    reads img
  {
    img.data != null && img.height >= 0 && img.header.width >= 0 &&
    img.height <= img.data.Length0 && bytes * img.header.width <= img.data.Length1
  }

  /**
   * llimg_prune_llimg (ll_image.h:74-84): null-safe; frees the line array
   * and then the data, whichever exist. The record is left as it was.
   */
  method Prune(img: Llimg?) returns (freed: seq<Freed>)
    ensures img == null ==> freed == []
    ensures img != null ==> (LineArray in freed <==> img.line.Some?)
    ensures img != null ==> (RasterData in freed <==> img.data != null)
    ensures Record !in freed
    ensures img != null ==>
      freed == (if img.line.Some? then [LineArray] else []) + (if img.data != null then [RasterData] else [])
  {
    freed := [];
    if img == null {
      return;
    }
    if img.line.Some? {
      freed := freed + [LineArray];
    }
    if img.data != null {
      freed := freed + [RasterData];
    }
  }

  /**
   * llimg_release_llimg (ll_image.h:90-101): what prune frees, and then
   * the record itself.
   */
  method Release(img: Llimg?) returns (freed: seq<Freed>)
    ensures img == null ==> freed == []
    ensures img != null ==> |freed| >= 1 && freed[|freed| - 1] == Record
    ensures img != null ==> (LineArray in freed <==> img.line.Some?)
    ensures img != null ==> (RasterData in freed <==> img.data != null)
    ensures img != null ==> forall k :: 0 <= k < |freed| - 1 ==> freed[k] != Record
    ensures img != null ==>
      freed == (if img.line.Some? then [LineArray] else []) + (if img.data != null then [RasterData] else []) + [Record]
  {
    freed := Prune(img);
    if img != null {
      freed := freed + [Record];
    }
  }
}
