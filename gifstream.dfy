/**
 * The byte-level layer of the GIF reader of readgif.cpp: the cursor that
 * `NEXTBYTE` advances over the file image, the signature, little-endian
 * 16-bit fields, colour-table sizes and palettes, and the data sub-blocks
 * of sections 15 and 16 of the GIF89a specification.
 *
 * The file image is a `seq<bv8>`. The reader never checks the cursor
 * against the end of the file before a read; the model reads a zero byte
 * beyond the end, which makes every sub-block walk stop there.
 */
module GifStream {
  import opened Common
  import opened LlImage

  /** Block introducers and descriptor flags (readgif.cpp:71-75). */
  const EXTENSION: bv8 := 0x21
  const IMAGESEP: bv8 := 0x2c
  const TRAILER: bv8 := 0x3b
  const INTERLACE_MASK: bv8 := 0x40
  const COLORMAP_MASK: bv8 := 0x80

  /** The powers of two multiply by adding exponents. */
  lemma {:induction false} Pow2Add(a: nat, b: nat)
    ensures Pow2(a + b) == Pow2(a) * Pow2(b)
  {
    if a > 0 {
      Pow2Add(a - 1, b);
      assert Pow2(a + b) == 2 * Pow2(a - 1 + b);
    }
  }

  /** Larger exponents give larger powers. */
  lemma {:induction false} Pow2Grows(a: nat, b: nat)
    requires a <= b
    ensures Pow2(a) <= Pow2(b)
  {
    if a < b {
      Pow2Grows(a, b - 1);
    }
  }

  /** The byte at offset `i` of the file image; zero beyond either end. */
  function At(s: seq<bv8>, i: int): bv8
  {
    if 0 <= i < |s| then s[i] else 0
  }

  // ---------------------------------------------------------------------
  // Header and descriptor fields

  /** The two accepted versions (readgif.cpp:126-127, 179-184). */
  datatype Version = Gif87a | Gif89a

  const ID87: seq<bv8> := [0x47, 0x49, 0x46, 0x38, 0x37, 0x61]
  const ID89: seq<bv8> := [0x47, 0x49, 0x46, 0x38, 0x39, 0x61]

  /** The first six bytes of the file image. */
  function Head(s: seq<bv8>): (h: seq<bv8>)
    ensures |h| == 6
  {
    seq(6, k => At(s, k))
  }

  /**
   * The strncmp of the first six bytes against "GIF87a", then "GIF89a";
   * neither literal holds a NUL, so the comparison is of all six bytes.
   */
  function VersionOf(s: seq<bv8>): (v: Option<Version>)
    ensures v == Some(Gif87a) <==> |s| >= 6 && s[..6] == ID87
    ensures v == Some(Gif89a) <==> |s| >= 6 && s[..6] == ID89
  {
    var h := Head(s);
    assert |s| >= 6 ==> h == s[..6];
    assert |s| < 6 ==> h[5] == 0;
    if h == ID87 then Some(Gif87a) else if h == ID89 then Some(Gif89a) else None
  }

  /** A 16-bit field stored low byte first (readgif.cpp:190-193, 597-604). */
  function Le16(s: seq<bv8>, i: int): (v: int)
    ensures 0 <= v < 65536
  {
    At(s, i) as int + 0x100 * At(s, i + 1) as int
  }

  /** The two bytes a writer stores for a 16-bit field. */
  function Le16Bytes(v: int): (b: seq<bv8>)
    requires 0 <= v < 65536
    ensures |b| == 2
  {
    [(v % 256) as bv8, (v / 256) as bv8]
  }

  /** Reading back what a writer stores gives the field. */
  lemma Le16RoundTrip(v: int, pre: seq<bv8>, post: seq<bv8>)
    requires 0 <= v < 65536
    ensures Le16(pre + Le16Bytes(v) + post, |pre|) == v
  {
    var s := pre + Le16Bytes(v) + post;
    assert s[|pre|] == (v % 256) as bv8 && s[|pre| + 1] == (v / 256) as bv8;
    ByteValue(v % 256);
    ByteValue(v / 256);
  }

  /**
   * The number of entries of a colour table whose packed field is
   * `flags`: `1 << ((flags & 7) + 1)` (readgif.cpp:198-199, 508, 614).
   */
  function TableSize(flags: bv8): nat
  {
    Pow2(((flags & 7) as int) + 1)
  }

  /** A colour table holds between 2 and 256 entries, a power of two. */
  lemma TableSizeRange(flags: bv8)
    ensures exists k :: 1 <= k <= 8 && TableSize(flags) == Pow2(k)
    ensures 2 <= TableSize(flags) <= 256
  {
    var k := ((flags & 7) as int) + 1;
    assert 1 <= k <= 8;
    Pow2Grows(1, k);
    Pow2Grows(k, 8);
    assert Pow2(8) == 256;
  }

  // ---------------------------------------------------------------------
  // Palettes

  /** The standard EGA palette, red, green and blue (readgif.cpp:129-133). */
  const EGA: seq<(bv8, bv8, bv8)> := [
    (0, 0, 0),       (0, 0, 128),     (0, 128, 0),     (0, 128, 128),
    (128, 0, 0),     (128, 0, 128),   (128, 128, 0),   (200, 200, 200),
    (100, 100, 100), (100, 100, 255), (100, 255, 100), (100, 255, 255),
    (255, 100, 100), (255, 100, 255), (255, 255, 100), (255, 255, 255)]

  /** Entry `i` of a palette with its colour set to red `r`, green `g`, blue `b`. */
  function Tinted(e: Bgr, r: bv8, g: bv8, b: bv8): Bgr
  {
    e.(red := r, green := g, blue := b)
  }

  /**
   * A palette with its first `n` colours read from the file image at `i`
   * as red, green, blue triples (readgif.cpp:218-224, 612-620); the
   * reserved bytes and the entries from `n` on stay as they were.
   */
  function ReadPalette(pal: seq<Bgr>, s: seq<bv8>, i: int, n: nat): (p: seq<Bgr>)
    requires n <= |pal|
    ensures |p| == |pal|
  {
    seq(|pal|, k requires 0 <= k < |pal| =>
      if k < n then Tinted(pal[k], At(s, i + 3 * k), At(s, i + 3 * k + 1), At(s, i + 3 * k + 2))
      else pal[k])
  }

  /**
   * The EGA palette repeated over the whole palette, put there when the
   * file has no global colour table (readgif.cpp:225-236).
   */
  function EgaPalette(pal: seq<Bgr>): (p: seq<Bgr>)
    ensures |p| == |pal|
  {
    seq(|pal|, k requires 0 <= k < |pal| =>
      Tinted(pal[k], EGA[k % 16].0, EGA[k % 16].1, EGA[k % 16].2))
  }

  /** Entries 16 apart in the EGA palette have the same colour. */
  lemma EgaRepeats(pal: seq<Bgr>, k: nat)
    requires k + 16 < |pal|
    ensures var p := EgaPalette(pal);
      p[k].red == p[k + 16].red && p[k].green == p[k + 16].green && p[k].blue == p[k + 16].blue
  {
    assert (k + 16) % 16 == k % 16;
  }

  // ---------------------------------------------------------------------
  // Data sub-blocks (GIF89a sections 15 and 16)

  /**
   * Where a run of data sub-blocks starting at `i` ends: each block is a
   * size byte and that many bytes, and a zero size ends the run
   * (readgif.cpp:291-295, 393-405, 422-476).
   */
  function SubBlocksEnd(s: seq<bv8>, i: nat): (e: nat)
    ensures e > i
    decreases |s| - i
  {
    if i >= |s| || s[i] == 0 then i + 1
    else SubBlocksEnd(s, i + 1 + s[i] as int)
  }

  /**
   * The bytes of the image data sub-blocks starting at `i`, one long
   * stream, and where the walk stopped (readgif.cpp:665-681, 519-527).
   * The walk also stops once a block runs past the end of the file.
   */
  function DataBlocks(s: seq<bv8>, i: nat): (r: (seq<bv8>, nat))
    ensures r.1 > i
    decreases |s| - i
  {
    var n := At(s, i) as int;
    var chunk := Chunk(s, i + 1, n);
    var j := i + 1 + n;
    if j > |s| || n == 0 then (chunk, j)
    else (var rest := DataBlocks(s, j); (chunk + rest.0, rest.1))
  }

  /** The `n` bytes from offset `i` on. */
  function Chunk(s: seq<bv8>, i: int, n: nat): (c: seq<bv8>)
    ensures |c| == n && forall k :: 0 <= k < n ==> c[k] == At(s, i + k)
  {
    seq(n, k => At(s, i + k))
  }

  /** One step of the unblocking walk. */
  lemma DataBlocksStep(s: seq<bv8>, i: nat)
    ensures var n := At(s, i) as int;
      if i + 1 + n > |s| || n == 0 then DataBlocks(s, i) == (Chunk(s, i + 1, n), i + 1 + n)
      else (DataBlocks(s, i).0 == Chunk(s, i + 1, n) + DataBlocks(s, i + 1 + n).0 &&
            DataBlocks(s, i).1 == DataBlocks(s, i + 1 + n).1)
  {
  }

  lemma AppendAssoc(a: seq<bv8>, b: seq<bv8>, c: seq<bv8>)
    ensures a + (b + c) == (a + b) + c
  {
  }

  /** The sub-block encoding of a sequence of chunks, each 1 to 255 bytes. */
  function Packed(chunks: seq<seq<bv8>>): (b: seq<bv8>)
    requires Chunked(chunks)
    ensures |b| >= 1
    decreases |chunks|, 1
  {
    if chunks == [] then [0] else PackedCons(chunks)
  }

  /** The encoding of a non-empty sequence of chunks. */
  function PackedCons(chunks: seq<seq<bv8>>): (b: seq<bv8>)
    requires Chunked(chunks) && chunks != []
    ensures |b| >= 1
    decreases |chunks|, 0
  {
    assert Chunked(chunks[1..]) by {
      forall k | 0 <= k < |chunks| - 1
        ensures 1 <= |chunks[1..][k]| <= 255
      {
        assert chunks[1..][k] == chunks[k + 1];
      }
    }
    [|chunks[0]| as bv8] + chunks[0] + Packed(chunks[1..])
  }

  /** Every chunk fits one sub-block: 1 to 255 bytes. */
  predicate Chunked(chunks: seq<seq<bv8>>)
  {
    forall k :: 0 <= k < |chunks| ==> 1 <= |chunks[k]| <= 255
  }

  /** The chunks laid end to end. */
  function Flatten(chunks: seq<seq<bv8>>): seq<bv8>
  {
    if chunks == [] then [] else chunks[0] + Flatten(chunks[1..])
  }

  /** `s` holds `b` from offset `i` on. */
  predicate HoldsAt(s: seq<bv8>, i: nat, b: seq<bv8>)
  {
    i + |b| <= |s| && forall k :: 0 <= k < |b| ==> s[i + k] == b[k]
  }

  /** An encoding is its first chunk's size, the chunk, and the encoding of the rest. */
  lemma PackedSplit(chunks: seq<seq<bv8>>)
    requires Chunked(chunks)
    requires chunks != []
    ensures var p, n := Packed(chunks), |chunks[0]|;
      |p| == 1 + n + |Packed(chunks[1..])| && p[0] as int == n &&
      p[1..1 + n] == chunks[0] && p[1 + n..] == Packed(chunks[1..])
  {
    var p, n := Packed(chunks), |chunks[0]|;
    var a, rest := chunks[0], Packed(chunks[1..]);
    ByteValue(n);
    assert p == PackedCons(chunks) == [n as bv8] + a + rest;
    assert p[1..1 + n] == a;
    assert p[1 + n..] == rest;
  }

  /** What `s` holds from `i` on, it holds in part from `i + d` on. */
  lemma HoldsFrom(s: seq<bv8>, i: nat, b: seq<bv8>, d: nat, e: nat)
    requires HoldsAt(s, i, b) && d <= e <= |b|
    ensures HoldsAt(s, i + d, b[d..e])
  {
    forall k | 0 <= k < e - d
      ensures s[i + d + k] == b[d..e][k]
    {
      assert s[i + (d + k)] == b[d + k];
    }
  }

  /** Skipping the sub-blocks of an encoding lands just past its terminator. */
  lemma {:induction false} SkipPacked(s: seq<bv8>, i: nat, chunks: seq<seq<bv8>>)
    requires Chunked(chunks)
    requires HoldsAt(s, i, Packed(chunks))
    ensures SubBlocksEnd(s, i) == i + |Packed(chunks)|
    decreases |chunks|
  {
    var p := Packed(chunks);
    assert s[i + 0] == p[0];
    if chunks != [] {
      var n := |chunks[0]|;
      PackedSplit(chunks);
      HoldsFrom(s, i, p, 1 + n, |p|);
      SkipPacked(s, i + 1 + n, chunks[1..]);
    }
  }

  /** Unblocking an encoding gives back the chunks laid end to end. */
  lemma {:induction false} UnblockPacked(s: seq<bv8>, i: nat, chunks: seq<seq<bv8>>)
    requires Chunked(chunks)
    requires HoldsAt(s, i, Packed(chunks))
    ensures DataBlocks(s, i) == (Flatten(chunks), i + |Packed(chunks)|)
    decreases |chunks|
  {
    var p := Packed(chunks);
    assert s[i + 0] == p[0];
    if chunks != [] {
      var n := |chunks[0]|;
      PackedSplit(chunks);
      var chunk := Chunk(s, i + 1, n);
      forall k | 0 <= k < n
        ensures chunk[k] == chunks[0][k]
      {
        assert s[i + (1 + k)] == p[1 + k] == p[1..1 + n][k];
      }
      assert chunk == chunks[0];
      HoldsFrom(s, i, p, 1 + n, |p|);
      UnblockPacked(s, i + 1 + n, chunks[1..]);
      assert At(s, i) as int == n && i + 1 + n <= |s|;
      assert DataBlocks(s, i) == (chunk + DataBlocks(s, i + 1 + n).0, DataBlocks(s, i + 1 + n).1);
    } else {
      assert At(s, i) == 0;
      assert Chunk(s, i + 1, 0) == [];
    }
  }

  // ---------------------------------------------------------------------
  // The cursor

  /** The file image and the `dataptr` cursor that `NEXTBYTE` advances. */
  class Stream {
    const bytes: seq<bv8>
    var pos: nat

    constructor (s: seq<bv8>)
      ensures bytes == s && pos == 0
    {
      bytes, pos := s, 0;
    }

    /** NEXTBYTE (readgif.cpp:70): the byte under the cursor, then one on. */
    method Next() returns (b: bv8)
      modifies this
      ensures b == At(bytes, old(pos)) && pos == old(pos) + 1
    {
      b := At(bytes, pos);
      pos := pos + 1;
    }

    /** `n` NEXTBYTEs whose values are dropped. */
    method Skip(n: int)
      modifies this
      ensures pos == old(pos) + Max(0, n)
    {
      var i := 0;
      while i < n
        invariant 0 <= i == Max(0, Min(i, n)) && pos == old(pos) + i
      {
        var _ := Next();
        i := i + 1;
      }
    }

    /** A 16-bit field, low byte first. */
    method ReadLe16() returns (v: int)
      modifies this
      ensures v == Le16(bytes, old(pos)) && pos == old(pos) + 2
    {
      var lo := Next();
      var hi := Next();
      v := lo as int + 0x100 * hi as int;
    }

    /** The do-while loops that read and ignore a run of data sub-blocks. */
    method SkipSubBlocks()
      modifies this
      ensures pos == SubBlocksEnd(bytes, old(pos))
    {
      var size := Next();
      while size != 0
        invariant pos > old(pos)
        invariant SubBlocksEnd(bytes, old(pos)) == SubBlocksEnd(bytes, pos - 1)
        invariant size == At(bytes, pos - 1)
        decreases |bytes| - pos
      {
        Skip(size as int);
        size := Next();
      }
    }

    /**
     * The unblocking loop of readImage (readgif.cpp:665-681): copy each
     * sub-block's bytes into one stream until a zero size, or until a
     * block runs past the end of the file.
     */
    method Unblock() returns (raster: seq<bv8>)
      modifies this
      ensures (raster, pos) == DataBlocks(bytes, old(pos))
    {
      raster := [];
      while true
        invariant old(pos) <= pos
        invariant DataBlocks(bytes, old(pos)).0 == raster + DataBlocks(bytes, pos).0
        invariant DataBlocks(bytes, old(pos)).1 == DataBlocks(bytes, pos).1
        decreases |bytes| - pos
      {
        ghost var before := raster;
        var chunk, last := UnblockStep();
        raster := raster + chunk;
        if last {
          break;
        }
        AppendAssoc(before, chunk, DataBlocks(bytes, pos).0);
      }
    }

    /** One pass of the unblocking loop: a size byte and its sub-block. */
    method UnblockStep() returns (chunk: seq<bv8>, last: bool)
      modifies this
      ensures pos > old(pos)
      ensures last ==> DataBlocks(bytes, old(pos)) == (chunk, pos)
      ensures !last ==> pos <= |bytes|
      ensures !last ==> DataBlocks(bytes, old(pos)).0 == chunk + DataBlocks(bytes, pos).0
      ensures !last ==> DataBlocks(bytes, old(pos)).1 == DataBlocks(bytes, pos).1
    {
      DataBlocksStep(bytes, pos);
      var size := Next();
      chunk := ReadChunk(size as int);
      last := pos > |bytes| || size == 0;
    }

    /** The bytes of one sub-block, `n` NEXTBYTEs in a row. */
    method ReadChunk(n: int) returns (chunk: seq<bv8>)
      requires n >= 0
      modifies this
      ensures chunk == Chunk(bytes, old(pos), n) && pos == old(pos) + n
    {
      chunk := [];
      var i := 0;
      while i < n
        invariant 0 <= i <= n && pos == old(pos) + i
        invariant chunk == Chunk(bytes, old(pos), i)
      {
        var b := Next();
        chunk := chunk + [b];
        i := i + 1;
      }
    }

    /**
     * The loop that skips the data sub-blocks of a second image
     * (readgif.cpp:519-527), which stops in the same places.
     */
    method SkipDataBlocks()
      modifies this
      ensures pos == DataBlocks(bytes, old(pos)).1
    {
      while true
        invariant old(pos) <= pos
        invariant DataBlocks(bytes, old(pos)).1 == DataBlocks(bytes, pos).1
        decreases |bytes| - pos
      {
        var size := Next();
        Skip(size as int);
        if pos > |bytes| || size == 0 {
          break;
        }
      }
    }
  }
}
