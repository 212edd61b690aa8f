/**
 * The GIF file reader of readgif.cpp around its decoder: readImage's
 * image descriptor, local colour table, zero fill of a truncated
 * picture and move to long-aligned rows; de_gif's signature, screen
 * descriptor, global colour table and block loop; and expandGif.
 *
 * The picture buffer `pic8` is a flat array of `4*((w+3)/4)` bytes per
 * row; it is handed back beside the LLIMG record, whose raster field is
 * two-dimensional in this model.
 */
module Gif {
  import opened Common
  import opened LlImage
  import opened GifStream
  import opened GifRows
  import opened GifLzw

  // ---------------------------------------------------------------------
  // Byte stores

  /** `s` with the bytes `r` written from offset `at` on. */
  function Splice(s: seq<bv8>, at: nat, r: seq<bv8>): (q: seq<bv8>)
    requires at + |r| <= |s|
    ensures |q| == |s|
    ensures forall i :: 0 <= i < |s| ==> q[i] == if at <= i < at + |r| then r[i - at] else s[i]
  {
    s[..at] + r + s[at + |r|..]
  }

  function Zeros(n: nat): (z: seq<bv8>)
    ensures |z| == n && forall i :: 0 <= i < n ==> z[i] == 0
  {
    seq(n, _ => 0)
  }

  /**
   * memmove and memset: the bytes `r` stored from offset `at` on, read
   * before any is written, so that source and destination may overlap.
   */
  method Store(pic: array<bv8>, at: nat, r: seq<bv8>)
    requires at + |r| <= pic.Length
    modifies pic
    ensures pic[..] == Splice(old(pic[..]), at, r)
  {
    for k := 0 to |r|
      invariant forall i :: 0 <= i < pic.Length ==>
        pic[i] == if at <= i < at + k then r[i - at] else old(pic[i])
    {
      pic[at + k] := r[k];
    }
  }

  // ---------------------------------------------------------------------
  // Long-aligned rows (readgif.cpp:836-848)

  /**
   * `h` rows of `w` bytes moved to rows of `4*((w+3)/4)` bytes, each
   * padded with zeros. `p` is the whole buffer; its first `w*h` bytes are
   * the packed rows.
   */
  ghost function Restrided(p: seq<bv8>, w: nat, h: nat): (q: seq<bv8>)
    requires |p| == LongAligned(w) * h
    ensures |q| == |p|
  {
    if w == 0 then p
    else
      var aw := LongAligned(w);
      seq(|p|, i requires 0 <= i < |p| => if i % aw < w then At(p, (i / aw) * w + i % aw) else 0)
  }

  /** Where pixel `i` of a packed `w`-wide picture lies among the long-aligned rows. */
  function Aligned(i: nat, w: nat): nat
  {
    if w == 0 then i else (i / w) * LongAligned(w) + i % w
  }

  /** The long-aligned place of a pixel of the picture is inside the buffer. */
  lemma AlignedInside(w: nat, h: nat, i: nat)
    requires i < w * h
    ensures w >= 1 && i / w < h && Aligned(i, w) == (i / w) * LongAligned(w) + i % w
    ensures (i / w) * LongAligned(w) <= Aligned(i, w) < (i / w) * LongAligned(w) + LongAligned(w)
    ensures Aligned(i, w) < LongAligned(w) * h
    ensures Aligned(i, w) / LongAligned(w) == i / w && Aligned(i, w) % LongAligned(w) == i % w
  {
    LongAlignedBounds(w);
    if w == 0 {
      assert false;
    }
    QuotientBelow(i, w, h);
    CellInRow(LongAligned(w), i / w, i % w, h);
    RowSplit(i / w, i % w, LongAligned(w));
  }

  /** Offset `x` into row `r` of `n`-byte rows is in row `r`, `x` bytes in. */
  lemma RowSplit(r: nat, x: nat, n: nat)
    requires x < n
    ensures (r * n + x) / n == r && (r * n + x) % n == x
  {
    FloorUnique(r, n, r * n + x);
  }

  /** Byte `i` of the packed picture, read from its long-aligned place. */
  ghost function Cell(q: seq<bv8>, w: nat, h: nat, i: nat): bv8
    requires |q| == LongAligned(w) * h && i < w * h
  {
    AlignedInside(w, h, i);
    q[Aligned(i, w)]
  }

  /** The bytes past the `w` picture bytes of each row are zero. */
  ghost predicate Padded(q: seq<bv8>, w: nat)
  {
    w >= 1 ==> forall j :: 0 <= j < |q| && j % LongAligned(w) >= w ==> q[j] == 0
  }

  /** A byte of the packed picture is where the move puts it. */
  lemma RestridedAt(p: seq<bv8>, w: nat, h: nat, i: nat)
    requires |p| == LongAligned(w) * h && i < w * h
    ensures Cell(Restrided(p, w, h), w, h, i) == p[i]
  {
    AlignedInside(w, h, i);
    LongAlignedBounds(w);
    assert (i / w) * w + i % w == i;
    NotBelow(w, LongAligned(w), h);
  }

  /** `w*h` fits in a buffer of `aw*h` bytes when `w <= aw`. */
  lemma NotBelow(w: nat, aw: nat, h: nat)
    requires w <= aw
    ensures w * h <= aw * h
  {
    if w < aw && h >= 1 {
      ScaleOrder(w, aw, h);
    }
  }

  /** The move leaves the padding zero. */
  lemma RestridedPadded(p: seq<bv8>, w: nat, h: nat)
    requires |p| == LongAligned(w) * h
    ensures Padded(Restrided(p, w, h), w)
  {
  }

  /** When rows are already long-aligned, the move changes nothing. */
  lemma RestridedSame(p: seq<bv8>, w: nat, h: nat)
    requires |p| == LongAligned(w) * h && LongAligned(w) == w
    ensures Restrided(p, w, h) == p
  {
    if w >= 1 {
      var q := Restrided(p, w, h);
      forall i | 0 <= i < |p|
        ensures q[i] == p[i]
      {
        assert i == (i / w) * w + i % w;
      }
    }
  }

  /** Row `y` of the moved buffer: the `w` bytes of packed row `y`, then zeros. */
  lemma RestridedRow(p: seq<bv8>, w: nat, h: nat, y: nat, i: nat)
    requires |p| == LongAligned(w) * h && w >= 1 && y < h
    requires y * LongAligned(w) <= i < y * LongAligned(w) + LongAligned(w)
    ensures i < |p| && y * w + w <= |p|
    ensures Restrided(p, w, h)[i] ==
      if i - y * LongAligned(w) < w then p[y * w + (i - y * LongAligned(w))] else 0
  {
    var aw := LongAligned(w);
    LongAlignedBounds(w);
    FloorUnique(y, aw, i);
    assert i == (i / aw) * aw + i % aw;
    CellInRow(aw, y, i - y * aw, h);
    CellInRow(w, y, w - 1, h);
    NotBelow(w, aw, h);
  }

  /** The products that step the two row cursors. */
  lemma RowCursors(y: nat, w: nat, aw: nat, h: nat)
    requires y < h && 1 <= w <= aw
    ensures y * w <= y * aw && y * aw + aw <= aw * h
    ensures (y + 1) * w == y * w + w && (y + 1) * aw == y * aw + aw
  {
    if w < aw && y >= 1 {
      ScaleOrder(w, aw, y);
    }
    CellInRow(aw, y, 0, h);
  }

  /**
   * The long-align loop (readgif.cpp:836-848): from the last row up, each
   * packed row is moved to its long-aligned place and its padding zeroed.
   * Rows are moved last first, so none is overwritten before it moves.
   */
  method Restride(pic: array<bv8>, w: nat, h: nat)
    requires pic.Length == LongAligned(w) * h
    modifies pic
    ensures pic[..] == Restrided(old(pic[..]), w, h)
  {
    ghost var p0 := pic[..];
    ghost var goal := Restrided(p0, w, h);
    var aw := LongAligned(w);
    LongAlignedBounds(w);
    if w == 0 {
      return;
    }
    var y: int := h - 1;
    assert (y + 1) * aw == pic.Length;
    ProgressStart(p0, goal, (y + 1) * w);
    while y >= 0
      invariant -1 <= y < h
      invariant Progress(pic[..], p0, goal, (y + 1) * w, (y + 1) * aw)
    {
      ShiftRow(pic, p0, w, h, y);
      y := y - 1;
    }
    ProgressDone(pic[..], p0, goal);
  }

  /** Before the first move nothing has moved and nothing is in place past the end. */
  lemma ProgressStart(p0: seq<bv8>, goal: seq<bv8>, moved: int)
    requires |p0| == |goal|
    ensures Progress(p0, p0, goal, moved, |p0|)
  {
  }

  /** Once every row has moved, the buffer is the goal. */
  lemma ProgressDone(q: seq<bv8>, p0: seq<bv8>, goal: seq<bv8>)
    requires Progress(q, p0, goal, 0, 0)
    ensures q == goal
  {
  }

  /** The bytes below `moved` are still packed, and those from `done` on are in place. */
  ghost predicate Progress(q: seq<bv8>, p0: seq<bv8>, goal: seq<bv8>, moved: int, done: int)
  {
    |q| == |p0| == |goal| &&
    (forall i :: 0 <= i < moved && i < |q| ==> q[i] == p0[i]) &&
    (forall i :: done <= i < |q| && 0 <= i ==> q[i] == goal[i])
  }

  /**
   * Row `y` of the long-align loop moved into its place: `op` and `np`
   * are where the packed and the long-aligned row start.
   */
  method ShiftRow(pic: array<bv8>, ghost p0: seq<bv8>, w: nat, h: nat, y: nat)
    requires |p0| == pic.Length == LongAligned(w) * h && w >= 1 && y < h
    requires Progress(pic[..], p0, Restrided(p0, w, h), (y + 1) * w, (y + 1) * LongAligned(w))
    modifies pic
    ensures Progress(pic[..], p0, Restrided(p0, w, h), y * w, y * LongAligned(w))
  {
    ghost var goal := Restrided(p0, w, h);
    var aw := LongAligned(w);
    LongAlignedBounds(w);
    RowCursors(y, w, aw, h);
    var op, np := y * w, y * aw;
    MoveRow(pic, op, np, w, aw - w);
    forall i | np <= i < np + aw
      ensures pic[i] == goal[i]
    {
      RestridedRow(p0, w, h, y, i);
    }
  }

  /** One pass of the long-align loop: `memmove(np, op, w)` and `memset(np + w, 0, pad)`. */
  method MoveRow(pic: array<bv8>, op: nat, np: nat, w: nat, pad: nat)
    requires op <= np && np + w + pad <= pic.Length
    modifies pic
    ensures forall i :: 0 <= i < pic.Length ==> (pic[i] ==
      if np <= i < np + w then old(pic[op + (i - np)])
      else if np + w <= i < np + w + pad then 0
      else old(pic[i]))
  {
    var row := pic[op..op + w];
    Store(pic, np, row);
    Store(pic, np + w, Zeros(pad));
  }

  // ---------------------------------------------------------------------
  // The picture readImage hands back

  /**
   * What the picture buffer shows after decoding the pixels `e`: each
   * pixel that falls inside the picture at its long-aligned place; for a
   * non-interlaced picture, zeros from the first pixel not decoded on;
   * and zero padding.
   */
  ghost predicate Shows(q: seq<bv8>, w: nat, h: nat, interlaced: bool, e: seq<int>)
  {
    |q| == LongAligned(w) * h &&
    (forall k :: 0 <= k < |e| && 0 <= Spot(w, h, interlaced, k) < w * h ==>
      Cell(q, w, h, Spot(w, h, interlaced, k)) as int == e[k]) &&
    (!interlaced ==> forall i :: |e| <= i < w * h ==> Cell(q, w, h, i) == 0) &&
    Padded(q, w)
  }

  /** The buffer after a zero fill of the pixels not decoded, as readImage's guard is corrected. */
  ghost function Filled(p: seq<bv8>, w: nat, h: nat, interlaced: bool, n: nat): (q: seq<bv8>)
    requires |p| == LongAligned(w) * h
    ensures |q| == |p|
  {
    LongAlignedBounds(w);
    NotBelow(w, LongAligned(w), h);
    if !interlaced && n < w * h then Splice(p, n, Zeros(w * h - n)) else p
  }

  /**
   * Decoded pixels on their spots, the rest of a non-interlaced picture
   * zero-filled and the rows moved: the picture shows the pixels.
   */
  lemma FilledShows(p: seq<bv8>, w: nat, h: nat, interlaced: bool, e: seq<int>)
    requires |p| == LongAligned(w) * h && PlacedIn(p, w, h, interlaced, e)
    ensures Shows(Restrided(Filled(p, w, h, interlaced, |e|), w, h), w, h, interlaced, e)
  {
    var f := Filled(p, w, h, interlaced, |e|);
    var q := Restrided(f, w, h);
    LongAlignedBounds(w);
    NotBelow(w, LongAligned(w), h);
    forall k | 0 <= k < |e| && 0 <= Spot(w, h, interlaced, k) < w * h
      ensures Cell(q, w, h, Spot(w, h, interlaced, k)) as int == e[k]
    {
      var i := Spot(w, h, interlaced, k);
      RestridedAt(f, w, h, i);
      assert !interlaced ==> i == k;
      assert f[i] == p[i];
    }
    if !interlaced {
      forall i | |e| <= i < w * h
        ensures Cell(q, w, h, i) == 0
      {
        RestridedAt(f, w, h, i);
      }
    }
    RestridedPadded(f, w, h);
  }

  /** The line array of readgif.cpp:857-863: `height` rows, `stride` bytes apart. */
  method LineOffsets(height: nat, stride: int) returns (rows: seq<int>)
    ensures |rows| == height && RowLayout(rows, stride)
  {
    rows := [];
    var cp := 0;
    for y := 0 to height
      invariant |rows| == y && cp == y * stride && RowLayout(rows, stride)
    {
      rows := rows + [cp];
      cp := cp + stride;
    }
  }

  // ---------------------------------------------------------------------
  // readImage (readgif.cpp:587-866)

  /**
   * The fields of the image descriptor whose separator ends at `i`, and
   * what follows it: the local colour table, the code size byte and the
   * image data sub-blocks, which end at `end`.
   */
  datatype Descriptor = Descriptor(width: nat, height: nat, flags: bv8, minSize: nat, raster: seq<bv8>, end: nat)

  /** The colours a table flagged by `flags` holds, none when the flag is off. */
  function Colors(flags: bv8): nat
  {
    if flags & COLORMAP_MASK != 0 then TableSize(flags) else 0
  }

  function Interlaced(flags: bv8): bool
  {
    flags & INTERLACE_MASK != 0
  }

  function Describe(s: seq<bv8>, i: nat): (d: Descriptor)
    ensures d.end > i + 9
  {
    var flags := At(s, i + 8);
    var c := i + 9 + 3 * Colors(flags);
    var blocks := DataBlocks(s, c + 1);
    Descriptor(Le16(s, i + 4), Le16(s, i + 6), flags, At(s, c) as int, blocks.0, blocks.1)
  }

  /** The palette after the descriptor at `i`: its local colour table over `pal`, if it has one. */
  function Recolored(pal: seq<Bgr>, s: seq<bv8>, i: nat): (p: seq<Bgr>)
    requires |pal| == 256
    ensures |p| == 256
  {
    var flags := At(s, i + 8);
    TableSizeRange(flags);
    if flags & COLORMAP_MASK != 0 then ReadPalette(pal, s, i + 9, TableSize(flags)) else pal
  }

  /** The code stream of the descriptor at `i`, decoded with `colorBits` bits of colour. */
  function ImageCodes(s: seq<bv8>, i: nat, colorBits: nat): Lzw
  {
    var d := Describe(s, i);
    Lzw(d.raster, d.minSize, colorBits, d.width * d.height)
  }

  /**
   * The record and picture as readImage leaves them for the descriptor
   * at `i`, over the record's `header` and palette `pal` from before:
   * its dimensions, stored top-down; one line per row, long-aligned;
   * the local colours; the padding zero; and, when the code stream
   * decodes, each pixel in its place and zeros after the last pixel of a
   * truncated non-interlaced picture.
   */
  ghost predicate Loaded(img: Llimg, pic: array<bv8>, s: seq<bv8>, i: nat, colorBits: nat,
                         header: InfoHeader, pal: seq<Bgr>)
    reads img, img.data, pic
  {
    var d := Describe(s, i);
    |pal| == 256 && Headed(img, d, Recolored(pal, s, i), header) &&
    Pictured(pic, ImageCodes(s, i, colorBits), d.width, d.height, Interlaced(d.flags)) &&
    Holds(img.data, pic, LongAligned(d.width), d.height)
  }

  /** The record's raster holds the buffer, `rows` rows of `stride` bytes each. */
  ghost predicate Holds(data: array2?<bv8>, pic: array<bv8>, stride: nat, rows: nat)
    reads data, pic
  {
    data != null && data.Length0 == rows && data.Length1 == stride && pic.Length == stride * rows &&
    forall y, x :: 0 <= y < rows && 0 <= x < stride ==>
      (RowInside(y, stride, rows); data[y, x] == pic[RowStart(y, stride) + x])
  }

  /** Where row `y` starts in a buffer of rows `stride` bytes long: `y * stride`, counted up. */
  function RowStart(y: nat, stride: nat): (k: nat)
  {
    if y == 0 then 0 else RowStart(y - 1, stride) + stride
  }

  /** Row `y` of `rows` rows of `stride` bytes lies inside the buffer. */
  lemma {:induction false} RowInside(y: nat, stride: nat, rows: nat)
    requires y < rows
    ensures RowStart(y, stride) + stride <= RowStart(rows, stride) == stride * rows
  {
    if rows - 1 > y {
      RowInside(y, stride, rows - 1);
    } else {
      RowStartIs(y, stride);
    }
    assert stride * rows == stride * (rows - 1) + stride;
  }

  /** RowStart counts up to the product. */
  lemma {:induction false} RowStartIs(y: nat, stride: nat)
    ensures RowStart(y, stride) == stride * y
  {
    if y > 0 {
      RowStartIs(y - 1, stride);
      assert stride * y == stride * (y - 1) + stride;
    }
  }

  /** The first `y` rows of the raster hold their part of the buffer. */
  ghost predicate Copied(data: array2<bv8>, pic: array<bv8>, y: nat)
    reads data, pic
  {
    pic.Length == data.Length1 * data.Length0 && y <= data.Length0 &&
    forall j, x :: 0 <= j < y && 0 <= x < data.Length1 ==>
      (RowInside(j, data.Length1, data.Length0); data[j, x] == pic[RowStart(j, data.Length1) + x])
  }

  /** The buffer laid out as a raster of `rows` rows of `stride` bytes (readgif.cpp:856). */
  method Hold(pic: array<bv8>, stride: nat, rows: nat) returns (data: array2<bv8>)
    requires pic.Length == stride * rows
    ensures fresh(data) && Holds(data, pic, stride, rows)
  {
    data := new bv8[rows, stride];
    for y := 0 to rows
      invariant Copied(data, pic, y)
    {
      RowInside(y, stride, rows);
      HoldRow(data, pic, y, RowStart(y, stride));
    }
  }

  /** Row `y` of the raster takes the buffer's bytes from `k` on; no other row changes. */
  method HoldRow(data: array2<bv8>, pic: array<bv8>, y: nat, k: nat)
    requires y < data.Length0 && k + data.Length1 <= pic.Length
    requires Copied(data, pic, y) && k == RowStart(y, data.Length1)
    modifies data
    ensures Copied(data, pic, y + 1)
  {
    for x := 0 to data.Length1
      invariant forall j, i :: 0 <= j < data.Length0 && j != y && 0 <= i < data.Length1 ==> data[j, i] == old(data[j, i])
      invariant forall i :: 0 <= i < x ==> data[y, i] == pic[k + i]
    {
      data[y, x] := pic[k + x];
    }
    forall j, x | 0 <= j < y + 1 && 0 <= x < data.Length1
      ensures (RowInside(j, data.Length1, data.Length0); data[j, x] == pic[RowStart(j, data.Length1) + x])
    {
      RowInside(j, data.Length1, data.Length0);
      if j < y {
        assert data[j, x] == old(data[j, x]);
      } else {
        assert data[y, x] == pic[k + x];
      }
    }
  }




  /** The record after readImage: the image's size, its row table and its colours. */
  ghost predicate Headed(img: Llimg, d: Descriptor, colors: seq<Bgr>, header: InfoHeader)
    reads img
  {
    img.header == header.(width := d.width, dibHeight := -(d.height as int)) &&
    img.height == d.height &&
    img.line.Some? && |img.line.value| == d.height && RowLayout(img.line.value, LongAligned(d.width)) &&
    img.color == colors
  }

  /** readImage's buffer: long-aligned padded rows, showing the pixels when the codes decode. */
  ghost predicate Pictured(pic: array<bv8>, p: Lzw, width: nat, height: nat, interlace: bool)
    reads pic
  {
    pic.Length == LongAligned(width) * height && Padded(pic[..], width) &&
    (Consistent(p) && Decode(p).Done? ==> Shows(pic[..], width, height, interlace, Decode(p).pixels))
  }

  /** The colour-table loops (readgif.cpp:218-224, 612-620): `n` red, green, blue triples. */
  method ReadColorTable(s: Stream, pal: seq<Bgr>, n: nat) returns (p: seq<Bgr>)
    requires n <= |pal|
    modifies s
    ensures p == ReadPalette(pal, s.bytes, old(s.pos), n) && s.pos == old(s.pos) + 3 * n
  {
    p := pal;
    for k := 0 to n
      invariant s.pos == old(s.pos) + 3 * k
      invariant p == ReadPalette(pal, s.bytes, old(s.pos), k)
    {
      var r := s.Next();
      var g := s.Next();
      var b := s.Next();
      p := p[k := Tinted(p[k], r, g, b)];
      assert p == ReadPalette(pal, s.bytes, old(s.pos), k + 1);
    }
  }

  /**
   * The image descriptor, the local colour table over the palette `pal`,
   * the code size byte and the unblocked raster (readgif.cpp:597-681).
   */
  method ReadDescriptor(s: Stream, pal: seq<Bgr>) returns (d: Descriptor, colors: seq<Bgr>)
    requires |pal| == 256
    modifies s
    ensures d == Describe(s.bytes, old(s.pos)) && s.pos == d.end
    ensures colors == Recolored(pal, s.bytes, old(s.pos))
  {
    var leftOfs := s.ReadLe16();
    var topOfs := s.ReadLe16();
    var width := s.ReadLe16();
    var height := s.ReadLe16();
    var misc := s.Next();
    colors := pal;
    if misc & COLORMAP_MASK != 0 {
      TableSizeRange(misc);
      colors := ReadColorTable(s, pal, TableSize(misc));
    }
    var codeSize := s.Next();
    var raster := s.Unblock();
    d := Descriptor(width, height, misc, codeSize as nat, raster, s.pos);
  }

  /**
   * The decoding into a fresh picture of `4*((w+3)/4)` bytes per row
   * (readgif.cpp:636-651, 706-823), with the decoder's constants set up
   * from the code size and its tables `t`, which live on from one call
   * to the next.
   */
  method DecodeInto(p: Lzw, width: nat, height: nat, interlace: bool, t: Tables)
    returns (pic: array<bv8>, npixels: nat, ghost e: seq<int>)
    requires t.Valid() && 1 <= p.colorBits <= 8 && p.maxPixels == width * height
    modifies t.prefix, t.suffix, t.outCode
    ensures t.Valid() && fresh(pic) && pic.Length == LongAligned(width) * height
    ensures npixels == |e| && PlacedIn(pic[..], width, height, interlace, e)
    ensures Consistent(p) && Decode(p).Done? ==> e == Decode(p).pixels
  {
    var sink := new Sink(width, height, interlace);
    var reader := new CodeReader(p.raster, p.minSize + 1);
    npixels := Decompress(reader, t, sink, p.minSize, p.colorBits, p.maxPixels);
    pic := sink.pic;
    e := sink.emitted;
  }

  /**
   * The zero fill of a truncated non-interlaced picture, done here only
   * while fewer than `w*h` pixels were decoded (readgif.cpp:825-831), and
   * the move to long-aligned rows (readgif.cpp:836-848).
   */
  method Settle(pic: array<bv8>, width: nat, height: nat, interlace: bool, npixels: nat)
    requires pic.Length == LongAligned(width) * height
    modifies pic
    ensures pic[..] == Restrided(Filled(old(pic[..]), width, height, interlace, npixels), width, height)
  {
    var maxPixels := width * height;
    var aWidth := LongAligned(width);
    LongAlignedBounds(width);
    NotBelow(width, aWidth, height);
    if npixels < maxPixels && !interlace {
      Store(pic, npixels, Zeros(maxPixels - npixels));
    }
    if width != aWidth {
      Restride(pic, width, height);
    } else {
      RestridedSame(pic[..], width, height);
    }
  }

  /**
   * The picture part of readImage (readgif.cpp:706-848): the decoded
   * pixels, the zero fill and the long-align loop.
   */
  method ReadPicture(p: Lzw, width: nat, height: nat, interlace: bool, t: Tables) returns (pic: array<bv8>)
    requires t.Valid() && 1 <= p.colorBits <= 8 && p.maxPixels == width * height
    modifies t.prefix, t.suffix, t.outCode
    ensures t.Valid() && fresh(pic) && Pictured(pic, p, width, height, interlace)
  {
    var npixels: nat;
    ghost var e: seq<int>;
    pic, npixels, e := DecodeInto(p, width, height, interlace, t);
    ghost var decoded := pic[..];
    Settle(pic, width, height, interlace, npixels);
    FilledShows(decoded, width, height, interlace, e);
    RestridedPadded(Filled(decoded, width, height, interlace, npixels), width, height);
  }

  /**
   * readImage: the descriptor, the decoding, the zero fill and the move,
   * then the record's dimensions, stored top-down, and its line array.
   * `colorBits` is the screen's `BitsPerPixel`.
   */
  method ReadImage(s: Stream, img: Llimg, t: Tables, colorBits: nat) returns (pic: array<bv8>)
    requires t.Valid() && 1 <= colorBits <= 8 && |img.color| == 256
    modifies s, img, t.prefix, t.suffix, t.outCode
    ensures t.Valid() && fresh(pic)
    ensures s.pos == Describe(s.bytes, old(s.pos)).end
    ensures Loaded(img, pic, s.bytes, old(s.pos), colorBits, old(img.header), old(img.color))
    ensures fresh(img.data) && img.logPalette == old(img.logPalette) && img.hPalette == old(img.hPalette)
    ensures img.rotation == old(img.rotation) && img.client == old(img.client) && img.client1 == old(img.client1)
  {
    var d, colors := ReadDescriptor(s, img.color);
    SetSize(img, d, colors);
    pic := ReadBody(img, d, colorBits, t);
  }

  /** The rest of readImage once the descriptor is read: the picture, then the record's rows. */
  method ReadBody(img: Llimg, d: Descriptor, colorBits: nat, t: Tables) returns (pic: array<bv8>)
    requires t.Valid() && 1 <= colorBits <= 8
    modifies img, t.prefix, t.suffix, t.outCode
    ensures t.Valid() && fresh(pic)
    ensures Headed(img, d, old(img.color), old(img.header))
    ensures Pictured(pic, Lzw(d.raster, d.minSize, colorBits, d.width * d.height), d.width, d.height, Interlaced(d.flags))
    ensures fresh(img.data) && Holds(img.data, pic, LongAligned(d.width), d.height)
    ensures img.logPalette == old(img.logPalette) && img.hPalette == old(img.hPalette)
    ensures img.rotation == old(img.rotation) && img.client == old(img.client) && img.client1 == old(img.client1)
  {
    var interlace := d.flags & INTERLACE_MASK != 0;
    assert interlace == Interlaced(d.flags);
    var p := Lzw(d.raster, d.minSize, colorBits, d.width * d.height);
    pic := ReadPicture(p, d.width, d.height, interlace, t);
    SetRows(img, d, pic);
  }

  /** readImage's first writes to the record: the size and the colour table (readgif.cpp:606-620). */
  method SetSize(img: Llimg, d: Descriptor, colors: seq<Bgr>)
    modifies img
    ensures img.header == old(img.header).(width := d.width) && img.height == d.height && img.color == colors
    ensures img.data == old(img.data) && img.line == old(img.line) && img.logPalette == old(img.logPalette)
    ensures img.hPalette == old(img.hPalette) && img.rotation == old(img.rotation)
    ensures img.client == old(img.client) && img.client1 == old(img.client1)
  {
    img.header := img.header.(width := d.width);
    img.height := d.height;
    img.color := colors;
  }

  /**
   * readImage's last writes: the size again, top-down, the buffer as the
   * raster and the line array over it (readgif.cpp:853-863).
   */
  method SetRows(img: Llimg, d: Descriptor, pic: array<bv8>)
    requires pic.Length == LongAligned(d.width) * d.height
    modifies img
    ensures Headed(img, d, old(img.color), old(img.header))
    ensures fresh(img.data) && Holds(img.data, pic, LongAligned(d.width), d.height)
    ensures img.logPalette == old(img.logPalette)
    ensures img.hPalette == old(img.hPalette) && img.rotation == old(img.rotation)
    ensures img.client == old(img.client) && img.client1 == old(img.client1)
  {
    img.header := img.header.(width := d.width, dibHeight := -(d.height as int));
    img.height := d.height;
    img.data := Hold(pic, LongAligned(d.width), d.height);
    var rows := LineOffsets(d.height, LongAligned(d.width));
    img.line := Some(rows);
  }

  // ---------------------------------------------------------------------
  // de_gif (readgif.cpp:152-579)

  /** The screen descriptor's packed field. */
  function ScreenFlags(s: seq<bv8>): bv8
  {
    At(s, 10)
  }

  /** `BitsPerPixel`, the size of the global colour table in bits (readgif.cpp:198). */
  function ColorBitsOf(s: seq<bv8>): (n: nat)
    ensures 1 <= n <= 8
  {
    (ScreenFlags(s) & 7) as nat + 1
  }

  /** The signature is one of the two versions, and a nonzero aspect byte needs GIF89a (readgif.cpp:179-213). */
  predicate Screened(s: seq<bv8>)
  {
    VersionOf(s).Some? && (At(s, 12) == 0 || VersionOf(s) == Some(Gif89a))
  }

  /** The global colour table, or the EGA colours repeated when there is none (readgif.cpp:216-236). */
  function GlobalPalette(s: seq<bv8>): (p: seq<Bgr>)
    ensures |p| == 256
  {
    var flags := ScreenFlags(s);
    TableSizeRange(flags);
    if flags & COLORMAP_MASK != 0 then ReadPalette(ZeroPalette(), s, 13, TableSize(flags))
    else EgaPalette(ZeroPalette())
  }

  /** Where the blocks start: after the header, the screen descriptor and the global colour table. */
  function FirstBlock(s: seq<bv8>): nat
  {
    13 + 3 * Colors(ScreenFlags(s))
  }

  /**
   * Where an extension whose label is at `i` ends (readgif.cpp:254-480):
   * the aspect extension 'R' has a block of the size its first byte says,
   * the plain-text extension a header block of at least 12 bytes, and
   * every extension then a run of data sub-blocks.
   */
  function ExtensionEnd(s: seq<bv8>, i: nat): (e: nat)
    ensures e > i + 1
  {
    var fn := At(s, i);
    if fn == 0x52 then SubBlocksEnd(s, i + 2 + At(s, i + 1) as int)
    else if fn == 0x01 then SubBlocksEnd(s, i + 14 + Max(0, At(s, i + 1) as int - 12))
    else SubBlocksEnd(s, i + 1)
  }

  /**
   * The walk over the blocks from `i` on: extensions are stepped over;
   * the first image separator gives the position after it; the trailer
   * or any other byte ends the walk without an image.
   */
  function FirstImage(s: seq<bv8>, i: nat): (r: Option<nat>)
    ensures r.Some? ==> r.value > i
    decreases |s| - i
  {
    var b := At(s, i);
    if b == EXTENSION then FirstImage(s, ExtensionEnd(s, i + 1))
    else if b == IMAGESEP then Some(i + 1)
    else None
  }

  /** de_gif returns 0: the header and screen pass, and the walk over the blocks meets an image. */
  predicate Accepts(s: seq<bv8>)
  {
    Screened(s) && FirstImage(s, FirstBlock(s)).Some?
  }

  /** The record as de_gif's zeroing leaves it, with 8 bits per pixel (readgif.cpp:165-170). */
  ghost predicate Cleared(img: Llimg)
    reads img
  {
    img.header == ZERO_HEADER.(bitsPerPixel := 8) && img.height == 0 && img.line == None && img.data == null &&
    img.logPalette == 0 && img.hPalette == 0 && img.rotation == 0 && img.client == 0 && img.client1 == 0
  }

  /** One extension block, its label first (readgif.cpp:254-480); the comment text is gathered and dropped. */
  method SkipExtension(s: Stream)
    modifies s
    ensures s.pos == ExtensionEnd(s.bytes, old(s.pos))
  {
    var fn := s.Next();
    if fn == 0x52 {
      var blockSize := s.Next();
      if blockSize == 2 {
        var aspNum := s.Next();
        var aspDen := s.Next();
      } else {
        s.Skip(blockSize as int);
      }
      s.SkipSubBlocks();
    } else if fn == 0xFE {
      s.SkipSubBlocks();
    } else if fn == 0x01 {
      var size := s.Next();
      s.Skip(12);
      s.Skip(size as int - 12);
      s.SkipSubBlocks();
    } else {
      s.SkipSubBlocks();
    }
  }

  /**
   * An image after the first (readgif.cpp:491-528): its descriptor, local
   * colour table, code size and data sub-blocks are stepped over, to
   * where reading it would have ended.
   */
  method SkipImage(s: Stream)
    modifies s
    ensures s.pos == Describe(s.bytes, old(s.pos)).end
  {
    s.Skip(8);
    var misc := s.Next();
    if misc & COLORMAP_MASK != 0 {
      s.Skip(3 * TableSize(misc));
    }
    var codeSize := s.Next();
    s.SkipDataBlocks();
  }

  /**
   * de_gif: the record is zeroed, the signature and the screen
   * descriptor are checked, the global colour table or the EGA colours
   * put in the palette, and the blocks are walked until the trailer or
   * an unknown block. The first image is read; later ones are skipped.
   * The result is 0 when an image was read and 1 otherwise; `pic` is the
   * picture read.
   */
  method DeGif(bytes: seq<bv8>, img: Llimg, t: Tables) returns (r: int, pic: array?<bv8>)
    requires t.Valid()
    modifies img, t.prefix, t.suffix, t.outCode
    ensures t.Valid()
    ensures r == 0 || r == 1
    ensures r == 0 <==> Accepts(bytes)
    ensures r == 0 ==> (pic != null && fresh(pic) &&
      Loaded(img, pic, bytes, FirstImage(bytes, FirstBlock(bytes)).value, ColorBitsOf(bytes),
             ZERO_HEADER.(bitsPerPixel := 8), GlobalPalette(bytes)))
    ensures r == 0 ==> fresh(img.data)
    ensures r == 1 ==> pic == null && Cleared(img)
    ensures r == 1 ==> img.color == if Screened(bytes) then GlobalPalette(bytes) else ZeroPalette()
    ensures img.logPalette == 0 && img.hPalette == 0
    ensures img.rotation == 0 && img.client == 0 && img.client1 == 0
  {
    img.Zero();
    img.header := img.header.(bitsPerPixel := 8);
    pic := null;
    var s := new Stream(bytes);
    var screened, colors, colorBits := Screen(s);
    if !screened {
      return 1, null;
    }
    img.color := colors;
    ghost var header := img.header;
    assert header == ZERO_HEADER.(bitsPerPixel := 8);
    var got;
    got, pic := Blocks(s, img, t, colorBits);
    assert got ==> (pic != null && Loaded(img, pic, bytes, FirstImage(bytes, FirstBlock(bytes)).value,
                                          ColorBitsOf(bytes), header, GlobalPalette(bytes)));
    r := if got then 0 else 1;
  }

  /**
   * The signature, the screen descriptor and the global colour table
   * (readgif.cpp:179-236): `ok` is false where de_gif returns 1, and
   * otherwise `colors` is the palette and the stream is at the first block.
   */
  method Screen(s: Stream) returns (ok: bool, colors: seq<Bgr>, colorBits: nat)
    requires s.pos == 0
    modifies s
    ensures ok <==> Screened(s.bytes)
    ensures ok ==> s.pos == FirstBlock(s.bytes) && colors == GlobalPalette(s.bytes) && colorBits == ColorBitsOf(s.bytes)
    ensures 1 <= colorBits <= 8 && |colors| == 256
  {
    colors, colorBits := ZeroPalette(), 1;
    var version := VersionOf(s.bytes);
    if version.None? {
      return false, colors, colorBits;
    }
    s.Skip(6);
    var screenWidth := s.ReadLe16();
    var screenHeight := s.ReadLe16();
    var flags := s.Next();
    colorBits := (flags & 7) as nat + 1;
    var background := s.Next();
    var aspect := s.Next();
    if aspect != 0 && version != Some(Gif89a) {
      return false, colors, colorBits;
    }
    if flags & COLORMAP_MASK != 0 {
      TableSizeRange(flags);
      colors := ReadColorTable(s, colors, TableSize(flags));
    } else {
      colors := EgaPalette(colors);
    }
    ok := true;
  }

  /**
   * The block loop of de_gif (readgif.cpp:246-570), from `s.pos` on:
   * extensions are stepped over, the first image is read and later ones
   * skipped, and the trailer or an unknown block ends the loop. `got`
   * says whether an image was read.
   */
  method Blocks(s: Stream, img: Llimg, t: Tables, colorBits: nat) returns (got: bool, pic: array?<bv8>)
    requires t.Valid() && 1 <= colorBits <= 8 && |img.color| == 256
    modifies s, img, t.prefix, t.suffix, t.outCode
    ensures t.Valid()
    ensures got <==> FirstImage(s.bytes, old(s.pos)).Some?
    ensures got ==> (pic != null && fresh(pic) &&
      Loaded(img, pic, s.bytes, FirstImage(s.bytes, old(s.pos)).value, colorBits, old(img.header), old(img.color)))
    ensures got ==> fresh(img.data)
    ensures !got ==> (pic == null && img.header == old(img.header) && img.height == old(img.height) &&
      img.line == old(img.line) && img.color == old(img.color) && img.data == old(img.data))
    ensures img.logPalette == old(img.logPalette) && img.hPalette == old(img.hPalette)
    ensures img.rotation == old(img.rotation) && img.client == old(img.client) && img.client1 == old(img.client1)
  {
    ghost var first := s.pos;
    ghost var at: nat := 0;
    got, pic := false, null;
    while true
      invariant t.Valid() && |img.color| == 256
      invariant !got ==> FirstImage(s.bytes, s.pos) == FirstImage(s.bytes, first) && pic == null
      invariant !got ==> (img.header == old(img.header) && img.height == old(img.height) &&
        img.line == old(img.line) && img.color == old(img.color) && img.data == old(img.data))
      invariant got ==> (FirstImage(s.bytes, first) == Some(at) && pic != null && fresh(pic) && fresh(img.data) &&
        Loaded(img, pic, s.bytes, at, colorBits, old(img.header), old(img.color)))
      invariant img.logPalette == old(img.logPalette) && img.hPalette == old(img.hPalette)
      invariant img.rotation == old(img.rotation) && img.client == old(img.client) && img.client1 == old(img.client1)
      decreases |s.bytes| - s.pos
    {
      ghost var here := s.pos;
      var block := s.Next();
      if block == EXTENSION {
        SkipExtension(s);
      } else if block == IMAGESEP {
        if got {
          SkipImage(s);
        } else {
          pic := ReadImage(s, img, t, colorBits);
          got, at := true, here + 1;
        }
      } else if block == TRAILER {
        break;
      } else {
        // An unknown block: de_gif returns 1 at once when no image was
        // read, which is what it returns after the loop as well.
        break;
      }
    }
  }

  /**
   * expandGif (readgif.cpp:1007-1018): a fresh record, filled by de_gif;
   * on failure it is released and there is no image.
   */
  method ExpandGif(bytes: seq<bv8>, t: Tables) returns (img: Llimg?, pic: array?<bv8>, freed: seq<Freed>)
    requires t.Valid()
    modifies t.prefix, t.suffix, t.outCode
    ensures t.Valid()
    ensures img == null <==> !Accepts(bytes)
    ensures img != null ==> (fresh(img) && fresh(img.data) && pic != null && freed == [] &&
      Loaded(img, pic, bytes, FirstImage(bytes, FirstBlock(bytes)).value, ColorBitsOf(bytes),
             ZERO_HEADER.(bitsPerPixel := 8), GlobalPalette(bytes)))
    ensures img == null ==> pic == null && freed == [Record]
  {
    var rec := new Llimg();
    var r;
    r, pic := DeGif(bytes, rec, t);
    if r != 0 {
      freed := Release(rec);
      img := null;
    } else {
      img, freed := rec, [];
    }
  }

  // ---------------------------------------------------------------------
  // Reading back what a writer lays down

  /** Two bytes a writer stores for a 16-bit field read back as the field. */
  lemma Le16Held(s: seq<bv8>, i: nat, v: int)
    requires 0 <= v < 65536 && HoldsAt(s, i, Le16Bytes(v))
    ensures Le16(s, i) == v
  {
    var b := Le16Bytes(v);
    assert s[i + 0] == b[0] && s[i + 1] == b[1];
    ByteValue(v % 256);
    ByteValue(v / 256);
  }

  /**
   * An image descriptor as a writer lays it down after the separator:
   * the width and height fields, the packed field, a colour table of the
   * size it flags, the code size and the image data as sub-blocks. Reading
   * it gives back the fields and the data, and ends past the terminator.
   */
  lemma DescribeEncoded(s: seq<bv8>, i: nat, w: nat, h: nat, flags: bv8, minSize: nat, chunks: seq<seq<bv8>>)
    requires w < 65536 && h < 65536 && minSize < 256 && Chunked(chunks)
    requires HoldsAt(s, i + 4, Le16Bytes(w)) && HoldsAt(s, i + 6, Le16Bytes(h)) && At(s, i + 8) == flags
    requires At(s, i + 9 + 3 * Colors(flags)) == minSize as bv8
    requires HoldsAt(s, i + 10 + 3 * Colors(flags), Packed(chunks))
    ensures Describe(s, i) ==
      Descriptor(w, h, flags, minSize, Flatten(chunks), i + 10 + 3 * Colors(flags) + |Packed(chunks)|)
  {
    Le16Held(s, i + 4, w);
    Le16Held(s, i + 6, h);
    ByteValue(minSize);
    UnblockPacked(s, i + 10 + 3 * Colors(flags), chunks);
  }

  /**
   * An extension whose label is neither 'R' nor the plain-text label is
   * its label and a run of sub-blocks; stepping over it ends past the
   * terminator.
   */
  lemma LabelledSkipped(s: seq<bv8>, i: nat, chunks: seq<seq<bv8>>)
    requires Chunked(chunks) && At(s, i) != 0x52 && At(s, i) != 0x01
    requires HoldsAt(s, i + 1, Packed(chunks))
    ensures ExtensionEnd(s, i) == i + 1 + |Packed(chunks)|
  {
    SkipPacked(s, i + 1, chunks);
  }

  /**
   * The 'R' and plain-text extensions start with a block of `n` bytes
   * (at least 12 for plain text) before their sub-blocks; stepping over
   * one ends past the terminator.
   */
  lemma BlockSkipped(s: seq<bv8>, i: nat, n: nat, chunks: seq<seq<bv8>>)
    requires Chunked(chunks) && (At(s, i) == 0x52 || (At(s, i) == 0x01 && n >= 12))
    requires At(s, i + 1) as int == n && HoldsAt(s, i + 2 + n, Packed(chunks))
    ensures ExtensionEnd(s, i) == i + 2 + n + |Packed(chunks)|
  {
    SkipPacked(s, i + 2 + n, chunks);
  }

  /**
   * Extensions before an image are stepped over: when the bytes from `i`
   * are an extension introducer, a label other than 'R' and plain text,
   * its sub-blocks and then an image separator, the walk finds the image.
   */
  lemma ImageAfterExtension(s: seq<bv8>, i: nat, chunks: seq<seq<bv8>>)
    requires Chunked(chunks) && At(s, i) == EXTENSION && At(s, i + 1) != 0x52 && At(s, i + 1) != 0x01
    requires HoldsAt(s, i + 2, Packed(chunks)) && At(s, i + 2 + |Packed(chunks)|) == IMAGESEP
    ensures FirstImage(s, i) == Some(i + 3 + |Packed(chunks)|)
  {
    LabelledSkipped(s, i + 1, chunks);
  }

  // ---------------------------------------------------------------------
  // The zero fill as written

  /**
   * readImage's zero fill as written (readgif.cpp:825-831): for a
   * non-interlaced picture it runs whenever `npixels != maxpixels`, over
   * `maxpixels - npixels` bytes taken as a 32-bit `size_t`; the result is
   * that length, or None when there is no fill.
   */
  function FillAsWritten(npixels: nat, maxPixels: nat, interlaced: bool): (n: Option<nat>)
    requires npixels < 0x1_0000_0000 && maxPixels < 0x1_0000_0000
    ensures n.Some? <==> npixels != maxPixels && !interlaced
    ensures n.Some? ==> n.value < 0x1_0000_0000
    ensures n.Some? ==> n.value + npixels == maxPixels || n.value + npixels == maxPixels + 0x1_0000_0000
  {
    if npixels != maxPixels && !interlaced then
      if npixels <= maxPixels then Some(maxPixels - npixels) else Some(0x1_0000_0000 + maxPixels - npixels)
    else None
  }

  /** The byte 4 holds, least significant bit first, the 3-bit codes 4 and 0. */
  lemma OneClearCode()
    ensures Pow2(2) == 4 && Pow2(1) == 2
    ensures CodeBits([4], 0, 3) == 4 && CodeBits([4], 3, 3) == 0
  {
    assert Pow2(2) == 4 && Pow2(1) == 2;
    var r: seq<bv8> := [4];
    assert Byte(r, 0) == 4;
    assert BitOf(1, 0) == 1 && BitOf(0, 0) == 0;
    assert BitOf(0, 1) == 0 && BitOf(0, 2) == 0;
    assert BitOf(1, 1) == 0 && BitOf(1, 2) == 0 && BitOf(1, 3) == 0;
    assert BitOf(2, 0) == 0 && BitOf(2, 1) == 1;
    assert BitOf(2, 2) == 0 && BitOf(2, 3) == 0 && BitOf(2, 4) == 0;
    assert BitOf(4, 0) == 0 && BitOf(4, 1) == 0 && BitOf(4, 2) == 1;
    assert BitOf(4, 3) == 0 && BitOf(4, 4) == 0 && BitOf(4, 5) == 0;
    assert Bit(r, 0) == 0 && Bit(r, 1) == 0 && Bit(r, 2) == 1;
    assert Bit(r, 3) == 0 && Bit(r, 4) == 0 && Bit(r, 5) == 0;
    assert CodeBits(r, 5, 1) == 0 && CodeBits(r, 4, 2) == 0;
    assert CodeBits(r, 2, 1) == 1 && CodeBits(r, 1, 2) == 2;
  }

  /**
   * A picture of no pixels (a zero width or height) whose code stream is
   * a Clear code and one pixel, in one byte: the decoder hands over one
   * pixel, so the fill as written runs with a length of 2^32 - 1 bytes
   * from the end of a buffer of no bytes.
   */
  lemma FillAsWrittenOverruns()
    ensures var p := Lzw([4], 2, 1, 0);
      Consistent(p) && Decode(p) == Done([0]) &&
      FillAsWritten(|Decode(p).pixels|, p.maxPixels, false) == Some(0xFFFF_FFFF)
  {
    var p := Lzw([4], 2, 1, 0);
    OneClearCode();
    assert InitWidth(p) == 3 && Clear(p) == 4 && BitMask(p) == 1;
    ClearThenPixel(p);
  }

  /**
   * A stream that opens with a Clear code and a pixel value decodes to
   * that one pixel even when the picture has no pixels: the pixel after
   * a Clear code is written before the picture is found full.
   */
  lemma ClearThenPixel(p: Lzw)
    requires p.maxPixels == 0
    requires CodeBits(p.raster, 0, InitWidth(p)) == Clear(p)
    requires CodeBits(p.raster, InitWidth(p), InitWidth(p)) <= BitMask(p)
    ensures Decode(p) == Done([CodeBits(p.raster, InitWidth(p), InitWidth(p))])
  {
    var c := CodeBits(p.raster, InitWidth(p), InitWidth(p));
    var st := Initial(p);
    assert Apply(p, st) == Then(Half(2 * InitWidth(p), InitWidth(p), [], [c], [c]));
    assert Step(p, st) == Stop(Done([c]));
  }
}
