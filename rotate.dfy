/**
 * The quarter-turn rotations of rotate.cpp. Each one reads an 8-bit or
 * 24-bit LLIMG top to bottom and writes its pixels into a second record,
 * whose width is the source's height and whose height is the source's
 * width, with rows padded to whole 32-bit words.
 *
 * On values, a picture `h` rows high and `w` pixels wide is a matrix; a
 * right turn takes the pixel at column `x` of row `y` to row `x`, column
 * `h-1-y`, and a left turn takes it to row `w-1-x`, column `y`. The
 * methods are proved to produce exactly these matrices of pixels, and the
 * two turns are proved to undo each other.
 */
module Rotate {
  import opened Common
  import opened LlImage
  import opened Scan

  // ---------------------------------------------------------------------
  // Pictures as values

  /** A quarter turn clockwise: the result has `w` rows of `h` entries. */
  function TurnRight<T>(p: seq<seq<T>>, w: nat, h: nat): (q: seq<seq<T>>)
    requires IsMatrix(p, w, h)
    ensures IsMatrix(q, h, w)
  {
    seq(w, r requires 0 <= r < w => seq(h, c requires 0 <= c < h => p[h - 1 - c][r]))
  }

  /** A quarter turn counter-clockwise: the result has `w` rows of `h` entries. */
  function TurnLeft<T>(p: seq<seq<T>>, w: nat, h: nat): (q: seq<seq<T>>)
    requires IsMatrix(p, w, h)
    ensures IsMatrix(q, h, w)
  {
    seq(w, r requires 0 <= r < w => seq(h, c requires 0 <= c < h => p[c][w - 1 - r]))
  }

  /** Where a right turn puts each pixel, and where a left turn puts it. */
  lemma TurnPlaces<T>(p: seq<seq<T>>, w: nat, h: nat, x: nat, y: nat)
    requires IsMatrix(p, w, h) && x < w && y < h
    ensures TurnRight(p, w, h)[x][h - 1 - y] == p[y][x]
    ensures TurnLeft(p, w, h)[w - 1 - x][y] == p[y][x]
  {
  }

  /** A left turn undoes a right turn. */
  lemma LeftUndoesRight<T>(p: seq<seq<T>>, w: nat, h: nat)
    requires IsMatrix(p, w, h)
    ensures TurnLeft(TurnRight(p, w, h), h, w) == p
  {
    var q := TurnLeft(TurnRight(p, w, h), h, w);
    forall y | 0 <= y < h
      ensures q[y] == p[y]
    {
      assert |q[y]| == |p[y]|;
    }
  }

  /** A right turn undoes a left turn. */
  lemma RightUndoesLeft<T>(p: seq<seq<T>>, w: nat, h: nat)
    requires IsMatrix(p, w, h)
    ensures TurnRight(TurnLeft(p, w, h), h, w) == p
  {
    var q := TurnRight(TurnLeft(p, w, h), h, w);
    forall y | 0 <= y < h
      ensures q[y] == p[y]
    {
      assert |q[y]| == |p[y]|;
    }
  }

  /** Two right turns are a half turn; four bring the picture back. */
  lemma FourRightTurns<T>(p: seq<seq<T>>, w: nat, h: nat)
    requires IsMatrix(p, w, h)
    ensures forall y, x :: 0 <= y < h && 0 <= x < w ==>
      TurnRight(TurnRight(p, w, h), h, w)[h - 1 - y][w - 1 - x] == p[y][x]
    ensures TurnRight(TurnRight(TurnRight(TurnRight(p, w, h), h, w), w, h), h, w) == p
  {
    var half := TurnRight(TurnRight(p, w, h), h, w);
    var q := TurnRight(TurnRight(half, w, h), h, w);
    forall y | 0 <= y < h
      ensures q[y] == p[y]
    {
      assert |q[y]| == |p[y]|;
    }
  }

  // ---------------------------------------------------------------------
  // The records

  /** Pixel `(x, y)` of `s` sits, as a right turn puts it, in `d` (24 bits). */
  ghost predicate MovedR24(d: array2<bv8>, s: array2<bv8>, h: int, y: int, x: int)
    reads d, s
  {
    0 <= x < d.Length0 && 0 <= 3 * (h - 1 - y) && 3 * (h - 1 - y) + 2 < d.Length1 &&
    0 <= y < s.Length0 && 0 <= 3 * x && 3 * x + 2 < s.Length1 &&
    d[x, 3 * (h - 1 - y)] == s[y, 3 * x] &&
    d[x, 3 * (h - 1 - y) + 1] == s[y, 3 * x + 1] &&
    d[x, 3 * (h - 1 - y) + 2] == s[y, 3 * x + 2]
  }

  /** Pixel `(x, y)` of `s` sits, as a left turn puts it, in `d` (24 bits). */
  ghost predicate MovedL24(d: array2<bv8>, s: array2<bv8>, w: int, y: int, x: int)
    reads d, s
  {
    0 <= w - 1 - x < d.Length0 && 0 <= 3 * y && 3 * y + 2 < d.Length1 &&
    0 <= y < s.Length0 && 0 <= 3 * x && 3 * x + 2 < s.Length1 &&
    d[w - 1 - x, 3 * y] == s[y, 3 * x] &&
    d[w - 1 - x, 3 * y + 1] == s[y, 3 * x + 1] &&
    d[w - 1 - x, 3 * y + 2] == s[y, 3 * x + 2]
  }

  /** Pixel `(x, y)` of `s` sits, as a right turn puts it, in `d` (8 bits). */
  ghost predicate MovedR8(d: array2<bv8>, s: array2<bv8>, h: int, y: int, x: int)
    reads d, s
  {
    0 <= x < d.Length0 && 0 <= h - 1 - y < d.Length1 &&
    0 <= y < s.Length0 && 0 <= x < s.Length1 &&
    d[x, h - 1 - y] == s[y, x]
  }

  /** Pixel `(x, y)` of `s` sits, as a left turn puts it, in `d` (8 bits). */
  ghost predicate MovedL8(d: array2<bv8>, s: array2<bv8>, w: int, y: int, x: int)
    reads d, s
  {
    0 <= w - 1 - x < d.Length0 && 0 <= y < d.Length1 &&
    0 <= y < s.Length0 && 0 <= x < s.Length1 &&
    d[w - 1 - x, y] == s[y, x]
  }

  /** Every pixel moved as a right turn moves it: the rasters hold turned pictures. */
  lemma RightTurned24(d: array2<bv8>, s: array2<bv8>, w: nat, h: nat)
    requires d.Length0 == w && 3 * h <= d.Length1 && h <= s.Length0 && 3 * w <= s.Length1
    requires forall y, x :: 0 <= y < h && 0 <= x < w ==> MovedR24(d, s, h, y, x)
    ensures Pixels24(Grid(d), h, w) == TurnRight(Pixels24(Grid(s), w, h), w, h)
  {
    var p, q := Pixels24(Grid(d), h, w), TurnRight(Pixels24(Grid(s), w, h), w, h);
    forall r | 0 <= r < w
      ensures p[r] == q[r]
    {
      forall c | 0 <= c < h
        ensures p[r][c] == q[r][c]
      {
        assert MovedR24(d, s, h, h - 1 - c, r);
      }
    }
  }

  lemma LeftTurned24(d: array2<bv8>, s: array2<bv8>, w: nat, h: nat)
    requires d.Length0 == w && 3 * h <= d.Length1 && h <= s.Length0 && 3 * w <= s.Length1
    requires forall y, x :: 0 <= y < h && 0 <= x < w ==> MovedL24(d, s, w, y, x)
    ensures Pixels24(Grid(d), h, w) == TurnLeft(Pixels24(Grid(s), w, h), w, h)
  {
    var p, q := Pixels24(Grid(d), h, w), TurnLeft(Pixels24(Grid(s), w, h), w, h);
    forall r | 0 <= r < w
      ensures p[r] == q[r]
    {
      forall c | 0 <= c < h
        ensures p[r][c] == q[r][c]
      {
        assert MovedL24(d, s, w, c, w - 1 - r);
      }
    }
  }

  lemma RightTurned8(d: array2<bv8>, s: array2<bv8>, w: nat, h: nat)
    requires d.Length0 == w && h <= d.Length1 && h <= s.Length0 && w <= s.Length1
    requires forall y, x :: 0 <= y < h && 0 <= x < w ==> MovedR8(d, s, h, y, x)
    ensures Pixels8(Grid(d), h, w) == TurnRight(Pixels8(Grid(s), w, h), w, h)
  {
    var p, q := Pixels8(Grid(d), h, w), TurnRight(Pixels8(Grid(s), w, h), w, h);
    forall r | 0 <= r < w
      ensures p[r] == q[r]
    {
      forall c | 0 <= c < h
        ensures p[r][c] == q[r][c]
      {
        assert MovedR8(d, s, h, h - 1 - c, r);
      }
    }
  }

  lemma LeftTurned8(d: array2<bv8>, s: array2<bv8>, w: nat, h: nat)
    requires d.Length0 == w && h <= d.Length1 && h <= s.Length0 && w <= s.Length1
    requires forall y, x :: 0 <= y < h && 0 <= x < w ==> MovedL8(d, s, w, y, x)
    ensures Pixels8(Grid(d), h, w) == TurnLeft(Pixels8(Grid(s), w, h), w, h)
  {
    var p, q := Pixels8(Grid(d), h, w), TurnLeft(Pixels8(Grid(s), w, h), w, h);
    forall r | 0 <= r < w
      ensures p[r] == q[r]
    {
      forall c | 0 <= c < h
        ensures p[r][c] == q[r][c]
      {
        assert MovedL8(d, s, w, c, w - 1 - r);
      }
    }
  }

  /** The inner loop of Rotate24R: one source row, pixel by pixel. */
  method RowR24(d: array2<bv8>, s: array2<bv8>, w: int, h: int, y: int, rotOffset: int)
    requires d != s && 0 <= y < h && w >= 0
    requires d.Length0 == w && 3 * h <= d.Length1 && h <= s.Length0 && 3 * w <= s.Length1
    requires rotOffset == 3 * (h - 1 - y)
    requires forall yy, x :: 0 <= yy < y && 0 <= x < w ==> MovedR24(d, s, h, yy, x)
    modifies d
    ensures forall yy, x :: 0 <= yy <= y && 0 <= x < w ==> MovedR24(d, s, h, yy, x)
  {
    var ry, x := 0, 0;
    while x < w
      modifies d
      invariant 0 <= x <= w && ry == x
      invariant forall yy, xx :: 0 <= yy < y && 0 <= xx < w ==> MovedR24(d, s, h, yy, xx)
      invariant forall xx :: 0 <= xx < x ==> MovedR24(d, s, h, y, xx)
    {
      label Before:
      d[ry, rotOffset] := s[y, 3 * x];
      d[ry, rotOffset + 1] := s[y, 3 * x + 1];
      d[ry, rotOffset + 2] := s[y, 3 * x + 2];
      forall yy, xx | 0 <= yy < y && 0 <= xx < w
        ensures MovedR24(d, s, h, yy, xx)
      {
        assert old@Before(MovedR24(d, s, h, yy, xx));
      }
      forall xx | 0 <= xx < x
        ensures MovedR24(d, s, h, y, xx)
      {
        assert old@Before(MovedR24(d, s, h, y, xx));
      }
      ry, x := ry + 1, x + 1;
    }
  }

  /**
   * llimg_rotate24bitR (rotate.cpp:34-79): anything but a 24-bit source is
   * refused with -1 and the target is left alone; otherwise the target
   * holds the source picture turned a quarter clockwise.
   */
  method Rotate24R(image: Llimg, rotated: Llimg) returns (rc: int)
    requires image != rotated
    requires image.header.bitsPerPixel == 24 ==> PixelsIn(image, 3)
    modifies rotated
    ensures image.header.bitsPerPixel != 24 ==> rc == -1 && unchanged(rotated)
    ensures image.header.bitsPerPixel == 24 ==>
      rc == 0 && rotated.Laid(image.height, image.header.width, 24, LongAligned(3 * image.height)) &&
      fresh(rotated.data) && rotated.color == ZeroPalette() &&
      Pixels24(Grid(rotated.data), image.height, image.header.width) ==
        TurnRight(Pixels24(Grid(image.data), image.header.width, image.height),
                  image.header.width, image.height)
  {
    if image.header.bitsPerPixel != 24 {
      return -1;
    }
    var w, h, s := image.header.width, image.height, image.data;
    LongAlignedBounds(3 * h);
    rotated.Allocate(h, w, 24, LongAligned(3 * h));
    var d := rotated.data;
    var rotOffset := (h - 1) * 3;
    var y := 0;
    while y < h
      modifies d
      invariant 0 <= y <= h && rotOffset == 3 * (h - 1 - y)
      invariant forall yy, x :: 0 <= yy < y && 0 <= x < w ==> MovedR24(d, s, h, yy, x)
    {
      RowR24(d, s, w, h, y, rotOffset);
      rotOffset := rotOffset - 3;
      y := y + 1;
    }
    RightTurned24(d, s, w, h);
    rc := 0;
  }

  /** The inner loop of Rotate24L: one source row, pixel by pixel. */
  method RowL24(d: array2<bv8>, s: array2<bv8>, w: int, h: int, y: int, rotOffset: int)
    requires d != s && 0 <= y < h && w >= 0
    requires d.Length0 == w && 3 * h <= d.Length1 && h <= s.Length0 && 3 * w <= s.Length1
    requires rotOffset == 3 * y
    requires forall yy, x :: 0 <= yy < y && 0 <= x < w ==> MovedL24(d, s, w, yy, x)
    modifies d
    ensures forall yy, x :: 0 <= yy <= y && 0 <= x < w ==> MovedL24(d, s, w, yy, x)
  {
    var ry, x := w - 1, 0;
    while x < w
      modifies d
      invariant 0 <= x <= w && ry == w - 1 - x
      invariant forall yy, xx :: 0 <= yy < y && 0 <= xx < w ==> MovedL24(d, s, w, yy, xx)
      invariant forall xx :: 0 <= xx < x ==> MovedL24(d, s, w, y, xx)
    {
      label Before:
      d[ry, rotOffset] := s[y, 3 * x];
      d[ry, rotOffset + 1] := s[y, 3 * x + 1];
      d[ry, rotOffset + 2] := s[y, 3 * x + 2];
      forall yy, xx | 0 <= yy < y && 0 <= xx < w
        ensures MovedL24(d, s, w, yy, xx)
      {
        assert old@Before(MovedL24(d, s, w, yy, xx));
      }
      forall xx | 0 <= xx < x
        ensures MovedL24(d, s, w, y, xx)
      {
        assert old@Before(MovedL24(d, s, w, y, xx));
      }
      ry, x := ry - 1, x + 1;
    }
  }

  /**
   * llimg_rotate24bitL (rotate.cpp:141-186): as the right turn, but the
   * target is filled from its bottom row up and from left to right.
   */
  method Rotate24L(image: Llimg, rotated: Llimg) returns (rc: int)
    requires image != rotated
    requires image.header.bitsPerPixel == 24 ==> PixelsIn(image, 3)
    modifies rotated
    ensures image.header.bitsPerPixel != 24 ==> rc == -1 && unchanged(rotated)
    ensures image.header.bitsPerPixel == 24 ==>
      rc == 0 && rotated.Laid(image.height, image.header.width, 24, LongAligned(3 * image.height)) &&
      fresh(rotated.data) && rotated.color == ZeroPalette() &&
      Pixels24(Grid(rotated.data), image.height, image.header.width) ==
        TurnLeft(Pixels24(Grid(image.data), image.header.width, image.height),
                 image.header.width, image.height)
  {
    if image.header.bitsPerPixel != 24 {
      return -1;
    }
    var w, h, s := image.header.width, image.height, image.data;
    LongAlignedBounds(3 * h);
    rotated.Allocate(h, w, 24, LongAligned(3 * h));
    var d := rotated.data;
    var rotOffset := 0;
    var y := 0;
    while y < h
      modifies d
      invariant 0 <= y <= h && rotOffset == 3 * y
      invariant forall yy, x :: 0 <= yy < y && 0 <= x < w ==> MovedL24(d, s, w, yy, x)
    {
      RowL24(d, s, w, h, y, rotOffset);
      rotOffset := rotOffset + 3;
      y := y + 1;
    }
    LeftTurned24(d, s, w, h);
    rc := 0;
  }

  /** The inner loop of Rotate8R: one source row, pixel by pixel. */
  method RowR8(d: array2<bv8>, s: array2<bv8>, w: int, h: int, y: int, rotOffset: int)
    requires d != s && 0 <= y < h && w >= 0
    requires d.Length0 == w && h <= d.Length1 && h <= s.Length0 && w <= s.Length1
    requires rotOffset == h - 1 - y
    requires forall yy, x :: 0 <= yy < y && 0 <= x < w ==> MovedR8(d, s, h, yy, x)
    modifies d
    ensures forall yy, x :: 0 <= yy <= y && 0 <= x < w ==> MovedR8(d, s, h, yy, x)
  {
    var ry, x := 0, 0;
    while x < w
      modifies d
      invariant 0 <= x <= w && ry == x
      invariant forall yy, xx :: 0 <= yy < y && 0 <= xx < w ==> MovedR8(d, s, h, yy, xx)
      invariant forall xx :: 0 <= xx < x ==> MovedR8(d, s, h, y, xx)
    {
      label Before:
      d[ry, rotOffset] := s[y, x];
      forall yy, xx | 0 <= yy < y && 0 <= xx < w
        ensures MovedR8(d, s, h, yy, xx)
      {
        assert old@Before(MovedR8(d, s, h, yy, xx));
      }
      forall xx | 0 <= xx < x
        ensures MovedR8(d, s, h, y, xx)
      {
        assert old@Before(MovedR8(d, s, h, y, xx));
      }
      ry, x := ry + 1, x + 1;
    }
  }

  /**
   * llimg_rotate8bitR (rotate.cpp:86-133): the 8-bit right turn, which
   * also copies the 256-entry colour table.
   */
  method Rotate8R(image: Llimg, rotated: Llimg) returns (rc: int)
    requires image != rotated
    requires image.header.bitsPerPixel == 8 ==> PixelsIn(image, 1)
    modifies rotated
    ensures image.header.bitsPerPixel != 8 ==> rc == -1 && unchanged(rotated)
    ensures image.header.bitsPerPixel == 8 ==>
      rc == 0 && rotated.Laid(image.height, image.header.width, 8, LongAligned(image.height)) &&
      fresh(rotated.data) && rotated.color == image.color &&
      Pixels8(Grid(rotated.data), image.height, image.header.width) ==
        TurnRight(Pixels8(Grid(image.data), image.header.width, image.height),
                  image.header.width, image.height)
  {
    if image.header.bitsPerPixel != 8 {
      return -1;
    }
    var w, h, s := image.header.width, image.height, image.data;
    LongAlignedBounds(h);
    rotated.Allocate(h, w, 8, LongAligned(h));
    var d := rotated.data;
    var rotOffset := h - 1;
    var y := 0;
    while y < h
      modifies d
      invariant 0 <= y <= h && rotOffset == h - 1 - y
      invariant forall yy, x :: 0 <= yy < y && 0 <= x < w ==> MovedR8(d, s, h, yy, x)
    {
      RowR8(d, s, w, h, y, rotOffset);
      rotOffset := rotOffset - 1;
      y := y + 1;
    }
    RightTurned8(d, s, w, h);
    rotated.color := image.color;
    rc := 0;
  }

  /** The inner loop of Rotate8L: one source row, pixel by pixel. */
  method RowL8(d: array2<bv8>, s: array2<bv8>, w: int, h: int, y: int, rotOffset: int)
    requires d != s && 0 <= y < h && w >= 0
    requires d.Length0 == w && h <= d.Length1 && h <= s.Length0 && w <= s.Length1
    requires rotOffset == y
    requires forall yy, x :: 0 <= yy < y && 0 <= x < w ==> MovedL8(d, s, w, yy, x)
    modifies d
    ensures forall yy, x :: 0 <= yy <= y && 0 <= x < w ==> MovedL8(d, s, w, yy, x)
  {
    var ry, x := w - 1, 0;
    while x < w
      modifies d
      invariant 0 <= x <= w && ry == w - 1 - x
      invariant forall yy, xx :: 0 <= yy < y && 0 <= xx < w ==> MovedL8(d, s, w, yy, xx)
      invariant forall xx :: 0 <= xx < x ==> MovedL8(d, s, w, y, xx)
    {
      label Before:
      d[ry, rotOffset] := s[y, x];
      forall yy, xx | 0 <= yy < y && 0 <= xx < w
        ensures MovedL8(d, s, w, yy, xx)
      {
        assert old@Before(MovedL8(d, s, w, yy, xx));
      }
      forall xx | 0 <= xx < x
        ensures MovedL8(d, s, w, y, xx)
      {
        assert old@Before(MovedL8(d, s, w, y, xx));
      }
      ry, x := ry - 1, x + 1;
    }
  }

  /** llimg_rotate8bitL (rotate.cpp:193-239): the 8-bit left turn, colour table included. */
  method Rotate8L(image: Llimg, rotated: Llimg) returns (rc: int)
    requires image != rotated
    requires image.header.bitsPerPixel == 8 ==> PixelsIn(image, 1)
    modifies rotated
    ensures image.header.bitsPerPixel != 8 ==> rc == -1 && unchanged(rotated)
    ensures image.header.bitsPerPixel == 8 ==>
      rc == 0 && rotated.Laid(image.height, image.header.width, 8, LongAligned(image.height)) &&
      fresh(rotated.data) && rotated.color == image.color &&
      Pixels8(Grid(rotated.data), image.height, image.header.width) ==
        TurnLeft(Pixels8(Grid(image.data), image.header.width, image.height),
                 image.header.width, image.height)
  {
    if image.header.bitsPerPixel != 8 {
      return -1;
    }
    var w, h, s := image.header.width, image.height, image.data;
    LongAlignedBounds(h);
    rotated.Allocate(h, w, 8, LongAligned(h));
    var d := rotated.data;
    var rotOffset := 0;
    var y := 0;
    while y < h
      modifies d
      invariant 0 <= y <= h && rotOffset == y
      invariant forall yy, x :: 0 <= yy < y && 0 <= x < w ==> MovedL8(d, s, w, yy, x)
    {
      RowL8(d, s, w, h, y, rotOffset);
      rotOffset := rotOffset + 1;
      y := y + 1;
    }
    LeftTurned8(d, s, w, h);
    rotated.color := image.color;
    rc := 0;
  }
}
