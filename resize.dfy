/**
 * The resamplers of resizer.cpp: narrowing and shortening by area
 * averaging, widening and heightening by linear blends, the resize that
 * chains one vertical and one horizontal pass, and the aspect lock.
 *
 * Every pass walks one axis of a picture as a line of pixels. A line of
 * `m` pixels is resampled to a scale of `n` cells by stepping `j*m` (or
 * `j*n`) in strides and splitting the pixel (or cell) the stride ends in.
 * The one-dimensional results are `Mean` (narrowing) and `Full`
 * (stretching); the pictures apply them to rows or to columns.
 * Sizes are never negative here, so C's division agrees with Dafny's.
 */
module Resize {
  import opened Common
  import opened LlImage
  import opened Scan
  import opened Reduce

  // ---------------------------------------------------------------------
  // Strides and splits

  /** Stride `j` of length `m` ends in cell `j*m/n` of a scale of `n` cells ... */
  function Split(j: int, m: int, n: int): int
    requires n >= 1
  {
    j * m / n
  }

  /** ... a fraction `j*m%n` of `n` into that cell. */
  function Frac(j: int, m: int, n: int): int
    requires n >= 1
  {
    j * m % n
  }

  /** The first cell not yet reached after stride `k`: none before the first stride. */
  function Start(m: int, n: int, k: int): int
    requires n >= 1
  {
    if k <= 0 then 0 else Split(k, m, n) + 1
  }

  lemma SplitFacts(j: int, m: int, n: int)
    requires j >= 0 && m >= 0 && n >= 1
    ensures Split(j, m, n) * n + Frac(j, m, n) == j * m
    ensures 0 <= Frac(j, m, n) < n && 0 <= Split(j, m, n)
  {
    var t := j * m;
    assert t == (t / n) * n + t % n;
  }

  /** Euclidean division by a positive divisor. */
  lemma Divided(t: int, n: int)
    requires n >= 1
    ensures t == (t / n) * n + t % n && 0 <= t % n < n
    ensures t >= 0 ==> t / n >= 0
  {
  }

  /** Strides at least as long as the cells end in ever later cells. */
  lemma SplitGrows(j: int, m: int, n: int)
    requires j >= 0 && 1 <= n <= m
    ensures 0 <= Split(j, m, n) && Split(j, m, n) + 1 <= Split(j + 1, m, n)
  {
    SplitFacts(j, m, n);
    SplitFacts(j + 1, m, n);
    var s, s' := Split(j, m, n), Split(j + 1, m, n);
    assert (j + 1) * m == j * m + m;
    assert (s' - s) * n == s' * n - s * n;
    PositiveFactor(s' - s, n);
  }

  /** The strides before the last end inside the `m` cells of a scale of length `n * m / n`. */
  lemma SplitBelow(j: int, m: int, n: int)
    requires 0 <= j < n && m >= 1
    ensures 0 <= Split(j, m, n) < m
  {
    ScaleOrder(j, n, m);
    QuotientBelow(j * m, n, m);
  }

  /** The strides meet every `m` cells exactly when strides and cells are one size. */
  lemma SplitSame(j: int, m: int)
    requires j >= 0 && m >= 1
    ensures Split(j, m, m) == j && Frac(j, m, m) == 0
  {
    FloorUnique(j, m, j * m);
    SplitFacts(j, m, m);
  }

  // ---------------------------------------------------------------------
  // Narrowing a line by area averaging (resizer.cpp:76-189)

  /** A line of pixels resampled to `n` cells, `n` no more than the pixels. */
  predicate Narrowing(line: seq<BgrPixel>, n: int)
  {
    1 <= n <= |line|
  }

  /** The part of the split pixel `Split(j)` that falls before the split: `wt*v/div`. */
  function Lead(line: seq<BgrPixel>, n: int, j: int, c: int): int
    requires Narrowing(line, n) && 0 <= j < n
  {
    SplitBelow(j, |line|, n);
    Frac(j, |line|, n) * Channel(line[Split(j, |line|, n)], c) / n
  }

  /** The rest of that pixel, which starts the next cell. */
  function Trail(line: seq<BgrPixel>, n: int, j: int, c: int): int
    requires Narrowing(line, n) && 0 <= j < n
  {
    SplitBelow(j, |line|, n);
    Channel(line[Split(j, |line|, n)], c) - Lead(line, n, j, c)
  }

  /** What cell `k` starts with: nothing for the first. */
  function Carry(line: seq<BgrPixel>, n: int, k: int, c: int): int
    requires Narrowing(line, n) && 0 <= k < n
  {
    if k == 0 then 0 else Trail(line, n, k, c)
  }

  /**
   * The channel-`c` total of cell `k`: the rest of the pixel split before
   * it, the whole pixels inside it and the part of the pixel split after it.
   */
  function Gathered(line: seq<BgrPixel>, n: int, k: int, c: int): int
    requires Narrowing(line, n) && 0 <= k < n - 1
  {
    SplitGrows(k, |line|, n);
    SplitBelow(k + 1, |line|, n);
    Carry(line, n, k, c) +
    RowTotal(line, Start(|line|, n, k), Split(k + 1, |line|, n) - Start(|line|, n, k), c) +
    Lead(line, n, k + 1, c)
  }

  /** Cell `k` scaled back to one pixel: `div * total / n` with the window `n` equal to the line. */
  function Mean(line: seq<BgrPixel>, n: int, k: int, c: int): int
    requires Narrowing(line, n) && 0 <= k < n - 1
  {
    n * Gathered(line, n, k, c) / |line|
  }

  /** Output pixel `k` of the narrowed line, each channel cast to a byte. */
  function Squeezed(line: seq<BgrPixel>, n: int, k: int): BgrPixel
    requires Narrowing(line, n) && 0 <= k < n - 1
  {
    BgrPixel(ToByte(Mean(line, n, k, 0)), ToByte(Mean(line, n, k, 1)), ToByte(Mean(line, n, k, 2)))
  }

  /** The narrowed line: `n - 1` pixels, the last cell is never stored. */
  function Narrowed(line: seq<BgrPixel>, n: int): (q: seq<BgrPixel>)
    requires Narrowing(line, n)
    ensures |q| == n - 1
  {
    seq(n - 1, k requires 0 <= k < n - 1 => Squeezed(line, n, k))
  }

  /** Every pixel of the line has its channel `c` between `lo` and `hi`. */
  predicate Within(line: seq<BgrPixel>, c: int, lo: int, hi: int)
  {
    forall x :: 0 <= x < |line| ==> lo <= Channel(line[x], c) <= hi
  }

  lemma ChannelsAreBytes(line: seq<BgrPixel>, c: int)
    ensures Within(line, c, 0, 255)
  {
  }

  lemma {:induction false} RunWithin(line: seq<BgrPixel>, x0: int, count: nat, c: int, lo: int, hi: int)
    requires 0 <= x0 && x0 + count <= |line| && Within(line, c, lo, hi)
    ensures lo * count <= RowTotal(line, x0, count, c) <= hi * count
  {
    if count > 0 {
      RunWithin(line, x0, count - 1, c, lo, hi);
      assert lo * count == lo * (count - 1) + lo;
      assert hi * count == hi * (count - 1) + hi;
    }
  }

  lemma Weighted(w: int, v: int, lo: int, hi: int)
    requires w >= 0 && lo <= v <= hi
    ensures lo * w <= w * v <= hi * w
  {
    assert (v - lo) * w >= 0;
    assert (hi - v) * w >= 0;
  }

  /**
   * The arithmetic of one cell: weights that add up to the line length,
   * values between `lo` and `hi`, and rounding errors below `n` keep the
   * weighted total within one line length of `lo` and `hi` times the length.
   */
  lemma WindowBounds(n: int, m: int, wa: int, va: int, ea: int, run: int, count: int,
                     wc: int, vc: int, ec: int, lo: int, hi: int)
    requires 1 <= n <= m && wa >= 0 && wc >= 0 && count >= 0 && wa + count * n + wc == m
    requires lo <= va <= hi && lo <= vc <= hi && lo * count <= run <= hi * count
    requires 0 <= ea < n && 0 <= ec < n
    ensures (lo - 1) * m < wa * va + ea + n * run + wc * vc - ec < (hi + 1) * m
  {
    Weighted(wa, va, lo, hi);
    Weighted(wc, vc, lo, hi);
    Weighted(n, run, lo * count, hi * count);
    assert hi * wa + (hi * count) * n + hi * wc == hi * m;
    assert lo * wa + (lo * count) * n + lo * wc == lo * m;
    assert (hi + 1) * m == hi * m + m;
    assert (lo - 1) * m == lo * m - m;
  }

  /** The part `l` of a value `v` that a weight `f` below `n` takes is no more than `v`, and not negative. */
  lemma PartBounds(f: int, v: int, l: int, e: int, n: int)
    requires n >= 1 && 0 <= f < n && v >= 0 && l * n + e == f * v && 0 <= e < n
    ensures 0 <= l <= v
  {
    Weighted(v, f, 0, n);
    ScaleOrder(v, l, n);
    ScaleOrder(-1, l, n);
  }

  lemma Spread3(n: int, a: int, b: int, c: int)
    ensures n * (a + b + c) == n * a + n * b + n * c
  {
  }

  /** What is left of `v` after a part taken with weight `f`, scaled by `n`. */
  lemma RestScaled(n: int, v: int, l: int, f: int, e: int)
    requires l * n + e == f * v
    ensures n * (v - l) == (n - f) * v + e
  {
    assert n * (v - l) == n * v - l * n;
    assert (n - f) * v == n * v - f * v;
  }

  /** The arithmetic of the first cell: whole pixels, then the part of the split pixel. */
  lemma FirstArith(m: int, n: int, s1: int, f1: int, v1: int, l1: int, e1: int, run: int, g: int, lo: int, hi: int)
    requires 1 <= n <= m && s1 >= 0 && s1 * n + f1 == m && 0 <= f1 < n
    requires l1 * n + e1 == f1 * v1 && 0 <= e1 < n
    requires 0 <= lo <= v1 <= hi && lo * s1 <= run <= hi * s1
    requires g == run + l1
    ensures 0 <= g && (lo - 1) * m < n * g < (hi + 1) * m
  {
    PartBounds(f1, v1, l1, e1, n);
    assert 0 <= lo * s1 by {
      Weighted(s1, lo, 0, lo);
    }
    Spread3(n, 0, run, l1);
    WindowBounds(n, m, 0, lo, 0, run, s1, f1, v1, e1, lo, hi);
    assert 0 * lo == 0;
  }

  /** The arithmetic of a later cell: the rest of one split pixel, whole pixels, part of the next. */
  lemma LaterArith(k: int, m: int, n: int, s0: int, f0: int, s1: int, f1: int, v0: int, v1: int,
                   l0: int, l1: int, e0: int, e1: int, run: int, g: int, lo: int, hi: int)
    requires 1 <= n <= m && 0 <= s0 && s0 + 1 <= s1
    requires s0 * n + f0 == k * m && s1 * n + f1 == (k + 1) * m && 0 <= f0 < n && 0 <= f1 < n
    requires l0 * n + e0 == f0 * v0 && l1 * n + e1 == f1 * v1 && 0 <= e0 < n && 0 <= e1 < n
    requires 0 <= lo <= v0 <= hi && lo <= v1 <= hi && lo * (s1 - s0 - 1) <= run <= hi * (s1 - s0 - 1)
    requires g == (v0 - l0) + run + l1
    ensures 0 <= g && (lo - 1) * m < n * g < (hi + 1) * m
  {
    PartBounds(f0, v0, l0, e0, n);
    PartBounds(f1, v1, l1, e1, n);
    var count := s1 - s0 - 1;
    assert 0 <= lo * count by {
      Weighted(count, lo, 0, lo);
    }
    assert (n - f0) + count * n + f1 == m by {
      assert (k + 1) * m == k * m + m;
      assert count * n == s1 * n - s0 * n - n;
    }
    RestScaled(n, v0, l0, f0, e0);
    Spread3(n, v0 - l0, run, l1);
    WindowBounds(n, m, n - f0, v0, e0, run, count, f1, v1, e1, lo, hi);
  }

  /** The total of the first cell, weighed by `n`, against `lo` and `hi` times the line length. */
  lemma FirstCellBounds(line: seq<BgrPixel>, n: int, c: int, lo: int, hi: int)
    requires Narrowing(line, n) && 1 < n && 0 <= lo && Within(line, c, lo, hi)
    ensures 0 <= Gathered(line, n, 0, c)
    ensures (lo - 1) * |line| < n * Gathered(line, n, 0, c) < (hi + 1) * |line|
  {
    var m := |line|;
    SplitFacts(1, m, n);
    SplitBelow(1, m, n);
    var s1, f1 := Split(1, m, n), Frac(1, m, n);
    var v1 := Channel(line[s1], c);
    Divided(f1 * v1, n);
    RunWithin(line, 0, s1, c, lo, hi);
    FirstArith(m, n, s1, f1, v1, f1 * v1 / n, f1 * v1 % n, RowTotal(line, 0, s1, c),
               Gathered(line, n, 0, c), lo, hi);
  }

  /** The same for every later cell, which starts with the rest of a split pixel. */
  lemma LaterCellBounds(line: seq<BgrPixel>, n: int, k: int, c: int, lo: int, hi: int)
    requires Narrowing(line, n) && 1 <= k < n - 1 && 0 <= lo && Within(line, c, lo, hi)
    ensures 0 <= Gathered(line, n, k, c)
    ensures (lo - 1) * |line| < n * Gathered(line, n, k, c) < (hi + 1) * |line|
  {
    var m := |line|;
    SplitFacts(k, m, n);
    SplitFacts(k + 1, m, n);
    SplitGrows(k, m, n);
    SplitBelow(k, m, n);
    SplitBelow(k + 1, m, n);
    var s0, f0 := Split(k, m, n), Frac(k, m, n);
    var s1, f1 := Split(k + 1, m, n), Frac(k + 1, m, n);
    var v0, v1 := Channel(line[s0], c), Channel(line[s1], c);
    Divided(f0 * v0, n);
    Divided(f1 * v1, n);
    RunWithin(line, s0 + 1, s1 - (s0 + 1), c, lo, hi);
    LaterArith(k, m, n, s0, f0, s1, f1, v0, v1, f0 * v0 / n, f1 * v1 / n, f0 * v0 % n, f1 * v1 % n,
               RowTotal(line, s0 + 1, s1 - (s0 + 1), c), Gathered(line, n, k, c), lo, hi);
  }

  /**
   * Narrowing never brightens a channel past the brightest pixel of the
   * line and darkens it by at most one below the darkest: the rounding
   * of the split pixels costs less than one level.
   */
  lemma MeanRange(line: seq<BgrPixel>, n: int, k: int, c: int, lo: int, hi: int)
    requires Narrowing(line, n) && 0 <= k < n - 1 && 0 <= lo && Within(line, c, lo, hi)
    ensures lo - 1 <= Mean(line, n, k, c) <= hi && 0 <= Mean(line, n, k, c)
  {
    var m := |line|;
    if k == 0 {
      FirstCellBounds(line, n, c, lo, hi);
    } else {
      LaterCellBounds(line, n, k, c, lo, hi);
    }
    var t := n * Gathered(line, n, k, c);
    assert t >= 0;
    QuotientBelow(t, m, hi + 1);
    if lo >= 1 {
      MultipleBelow(lo - 1, m, t);
    }
  }

  /** The narrowed channels are the means themselves: the cast to a byte never wraps. */
  lemma SqueezedExact(line: seq<BgrPixel>, n: int, k: int, c: int)
    requires Narrowing(line, n) && 0 <= k < n - 1 && 0 <= c <= 2
    ensures Channel(Squeezed(line, n, k), c) == Mean(line, n, k, c)
  {
    ChannelsAreBytes(line, c);
    MeanRange(line, n, k, c, 0, 255);
    ByteExact(Mean(line, n, k, c));
  }

  /** Narrowing a line to its own length keeps every stored pixel. */
  lemma NarrowSameSize(line: seq<BgrPixel>, k: int)
    requires 2 <= |line| && 0 <= k < |line| - 1
    ensures Squeezed(line, |line|, k) == line[k]
  {
    var m := |line|;
    forall c | 0 <= c <= 2
      ensures Mean(line, m, k, c) == Channel(line[k], c)
    {
      SplitSame(k, m);
      SplitSame(k + 1, m);
      var v := Channel(line[k], c);
      assert Lead(line, m, k + 1, c) == 0;
      if k == 0 {
        assert RowTotal(line, 0, 1, c) == v;
      } else {
        assert Lead(line, m, k, c) == 0;
      }
      assert Gathered(line, m, k, c) == v;
      FloorUnique(v, m, m * v);
    }
    var px := line[k];
    assert Channel(px, 0) == px.blue as int && Channel(px, 1) == px.green as int && Channel(px, 2) == px.red as int;
    ByteRoundTrip(px.blue);
    ByteRoundTrip(px.green);
    ByteRoundTrip(px.red);
  }

  /** A split pixel is shared, not copied: both parts are whole and they add up to the pixel. */
  lemma SplitConserved(line: seq<BgrPixel>, n: int, j: int, c: int)
    requires Narrowing(line, n) && 0 <= j < n
    ensures 0 <= Split(j, |line|, n) < |line|
    ensures 0 <= Lead(line, n, j, c) && 0 <= Trail(line, n, j, c)
    ensures Lead(line, n, j, c) + Trail(line, n, j, c) == Channel(line[Split(j, |line|, n)], c)
  {
    var m := |line|;
    SplitBelow(j, m, n);
    SplitFacts(j, m, n);
    var f, v := Frac(j, m, n), Channel(line[Split(j, m, n)], c);
    Divided(f * v, n);
    PartBounds(f, v, Lead(line, n, j, c), f * v % n, n);
  }

  /** Channel `c` summed over the first `k` cells. */
  function CellsTotal(line: seq<BgrPixel>, n: int, k: int, c: int): int
    requires Narrowing(line, n) && 0 <= k <= n - 1
    decreases k
  {
    if k == 0 then 0 else CellsTotal(line, n, k - 1, c) + Gathered(line, n, k - 1, c)
  }

  lemma {:induction false} RowTotalJoined(row: seq<BgrPixel>, x0: int, a: nat, b: nat, c: int)
    requires 0 <= x0 && x0 + a + b <= |row|
    ensures RowTotal(row, x0, a + b, c) == RowTotal(row, x0, a, c) + RowTotal(row, x0 + a, b, c)
    decreases b
  {
    if b > 0 {
      RowTotalJoined(row, x0, a, b - 1, c);
    }
  }

  /**
   * After `k` cells, what they gathered, the part of the split pixel that
   * starts cell `k` and the whole pixels past it make up the line.
   */
  lemma {:induction false} CellsConserve(line: seq<BgrPixel>, n: int, k: int, c: int)
    requires Narrowing(line, n) && 0 <= k <= n - 1
    ensures 0 <= Start(|line|, n, k) <= |line|
    ensures CellsTotal(line, n, k, c) + Carry(line, n, k, c) +
            RowTotal(line, Start(|line|, n, k), |line| - Start(|line|, n, k), c) == RowTotal(line, 0, |line|, c)
    decreases k
  {
    var m := |line|;
    SplitBelow(k, m, n);
    if k > 0 {
      CellsConserve(line, n, k - 1, c);
      SplitGrows(k - 1, m, n);
      var s0, sk := Start(m, n, k - 1), Split(k, m, n);
      RowTotalJoined(line, s0, sk - s0, m - sk, c);
      RowTotalJoined(line, sk, 1, m - sk - 1, c);
      assert RowTotal(line, sk, 1, c) == Channel(line[sk], c);
      SplitConserved(line, n, k, c);
    }
  }

  /**
   * Narrowing loses no weight and makes none up: the `n - 1` stored cells
   * and the last cell, which is never stored, together hold the whole
   * line. With the split pixels shared (`SplitConserved`) this is the
   * conservation the split arithmetic is for.
   */
  lemma NarrowConserved(line: seq<BgrPixel>, n: int, c: int)
    requires Narrowing(line, n)
    ensures 0 <= Start(|line|, n, n - 1) <= |line|
    ensures CellsTotal(line, n, n - 1, c) + Carry(line, n, n - 1, c) +
            RowTotal(line, Start(|line|, n, n - 1), |line| - Start(|line|, n, n - 1), c) ==
            RowTotal(line, 0, |line|, c)
  {
    CellsConserve(line, n, n - 1, c);
  }

  // ---------------------------------------------------------------------
  // Stretching a line by linear blends (resizer.cpp:663-767, 776-1001)

  /** A line of pixels resampled to `n` cells, `n` at least the pixels. */
  predicate Stretching(line: seq<BgrPixel>, n: int)
  {
    1 <= |line| <= n
  }

  /**
   * The cell at split `k` blends pixel `k-1`, weighted `i % div`, with
   * pixel `k`, weighted the rest of `div`, the line length.
   */
  function Blend(line: seq<BgrPixel>, n: int, k: int, c: int): int
    requires Stretching(line, n) && 1 <= k < |line|
  {
    var m := |line|;
    (Frac(k, n, m) * Channel(line[k - 1], c) + (m - Frac(k, n, m)) * Channel(line[k], c)) / m
  }

  /**
   * The cells the first `k` strides fill: each stride copies pixel `k-1`
   * up to its split and blends at the split.
   */
  function Stretch(line: seq<BgrPixel>, n: int, k: int, c: int): (s: seq<int>)
    requires Stretching(line, n) && 0 <= k < |line|
    ensures |s| == Start(n, |line|, k)
    decreases k
  {
    if k == 0 then []
    else
      var prev := Stretch(line, n, k - 1, c);
      SplitGrows(k - 1, n, |line|);
      prev + seq(Split(k, n, |line|) - |prev|, _ => Channel(line[k - 1], c)) + [Blend(line, n, k, c)]
  }

  /** All `n` cells: those the strides fill, then copies of the last pixel, which no stride reaches. */
  function Full(line: seq<BgrPixel>, n: int, c: int): (s: seq<int>)
    requires Stretching(line, n)
    ensures |s| == n
  {
    var m := |line|;
    var body := Stretch(line, n, m - 1, c);
    SplitBelow(m - 1, n, m);
    body + seq(n - |body|, _ => Channel(line[m - 1], c))
  }

  /** Cell `r` of the stretched line, each channel cast to a byte. */
  function Stretched(line: seq<BgrPixel>, n: int, r: int): BgrPixel
    requires Stretching(line, n) && 0 <= r < n
  {
    BgrPixel(ToByte(Full(line, n, 0)[r]), ToByte(Full(line, n, 1)[r]), ToByte(Full(line, n, 2)[r]))
  }

  /** The first `len` cells of the stretched line. */
  function Spread(line: seq<BgrPixel>, n: int, len: int): (q: seq<BgrPixel>)
    requires Stretching(line, n) && 0 <= len <= n
    ensures |q| == len
  {
    seq(len, r requires 0 <= r < len => Stretched(line, n, r))
  }

  lemma {:induction false} StartGrows(n: int, m: int, k: int, k': int)
    requires 1 <= m <= n && 0 <= k <= k'
    ensures Start(n, m, k) <= Start(n, m, k')
    decreases k'
  {
    if k < k' {
      StartGrows(n, m, k, k' - 1);
      SplitGrows(k' - 1, n, m);
    }
  }

  lemma TakeJoined(a: seq<int>, b: seq<int>, len: int)
    requires 0 <= len <= |a|
    ensures (a + b)[..len] == a[..len]
  {
  }

  lemma {:induction false} StretchPrefix(line: seq<BgrPixel>, n: int, k: int, k': int, c: int)
    requires Stretching(line, n) && 0 <= k <= k' < |line|
    ensures Start(n, |line|, k) <= Start(n, |line|, k')
    ensures Stretch(line, n, k, c) == Stretch(line, n, k', c)[..Start(n, |line|, k)]
    decreases k'
  {
    StartGrows(n, |line|, k, k');
    if k < k' {
      StretchPrefix(line, n, k, k' - 1, c);
      var prev := Stretch(line, n, k' - 1, c);
      SplitGrows(k' - 1, n, |line|);
      var rest := seq(Split(k', n, |line|) - |prev|, _ => Channel(line[k' - 1], c)) + [Blend(line, n, k', c)];
      assert Stretch(line, n, k', c) == prev + rest;
      TakeJoined(prev, rest, Start(n, |line|, k));
    }
  }

  /** Cells from the end of stride `k-1` up to split `k` copy pixel `k-1`. */
  lemma FullCopy(line: seq<BgrPixel>, n: int, c: int, k: int, r: int)
    requires Stretching(line, n) && 1 <= k < |line|
    requires Start(n, |line|, k - 1) <= r < Split(k, n, |line|)
    ensures r < n && Full(line, n, c)[r] == Channel(line[k - 1], c)
  {
    var m := |line|;
    StretchPrefix(line, n, k, m - 1, c);
    SplitBelow(k, n, m);
    SplitBelow(m - 1, n, m);
    var prev := Stretch(line, n, k - 1, c);
    SplitGrows(k - 1, n, m);
    var rest := seq(Split(k, n, m) - |prev|, _ => Channel(line[k - 1], c)) + [Blend(line, n, k, c)];
    assert Stretch(line, n, k, c) == prev + rest;
    assert Stretch(line, n, k, c)[r] == rest[r - |prev|];
    assert Stretch(line, n, m - 1, c)[r] == Stretch(line, n, k, c)[r];
  }

  /** The cell at split `k` holds the blend of pixels `k-1` and `k`. */
  lemma FullBlend(line: seq<BgrPixel>, n: int, c: int, k: int)
    requires Stretching(line, n) && 1 <= k < |line|
    ensures 0 <= Split(k, n, |line|) < n && Full(line, n, c)[Split(k, n, |line|)] == Blend(line, n, k, c)
  {
    var m := |line|;
    StretchPrefix(line, n, k, m - 1, c);
    SplitBelow(k, n, m);
    SplitBelow(m - 1, n, m);
    SplitGrows(k - 1, n, m);
    var r := Split(k, n, m);
    assert Stretch(line, n, k, c)[r] == Blend(line, n, k, c);
    assert Stretch(line, n, m - 1, c)[r] == Stretch(line, n, k, c)[r];
  }

  /** The cells past the last split copy the last pixel. */
  lemma FullTail(line: seq<BgrPixel>, n: int, c: int, r: int)
    requires Stretching(line, n) && Start(n, |line|, |line| - 1) <= r < n
    ensures Full(line, n, c)[r] == Channel(line[|line| - 1], c)
  {
  }

  lemma BlendArith(m: int, wl: int, a: int, b: int, lo: int, hi: int)
    requires 1 <= m && 0 <= wl < m && 0 <= lo <= a <= hi && lo <= b <= hi
    ensures lo <= (wl * a + (m - wl) * b) / m <= hi
  {
    Weighted(wl, a, lo, hi);
    Weighted(m - wl, b, lo, hi);
    var t := wl * a + (m - wl) * b;
    assert lo * wl + lo * (m - wl) == lo * m;
    assert hi * wl + hi * (m - wl) == hi * m;
    assert (hi + 1) * m == hi * m + m;
    QuotientBelow(t, m, hi + 1);
    MultipleBelow(lo, m, t);
  }

  /** A blend lies between the darkest and the brightest pixel of the line. */
  lemma BlendRange(line: seq<BgrPixel>, n: int, k: int, c: int, lo: int, hi: int)
    requires Stretching(line, n) && 1 <= k < |line| && 0 <= lo && Within(line, c, lo, hi)
    ensures lo <= Blend(line, n, k, c) <= hi
  {
    var m := |line|;
    SplitFacts(k, n, m);
    BlendArith(m, Frac(k, n, m), Channel(line[k - 1], c), Channel(line[k], c), lo, hi);
  }

  lemma {:induction false} StretchRange(line: seq<BgrPixel>, n: int, k: int, c: int, lo: int, hi: int)
    requires Stretching(line, n) && 0 <= k < |line| && 0 <= lo && Within(line, c, lo, hi)
    ensures forall r :: 0 <= r < |Stretch(line, n, k, c)| ==> lo <= Stretch(line, n, k, c)[r] <= hi
    decreases k
  {
    if k > 0 {
      StretchRange(line, n, k - 1, c, lo, hi);
      BlendRange(line, n, k, c, lo, hi);
    }
  }

  /**
   * Stretching never leaves the range of the line: every cell lies
   * between the darkest and the brightest pixel.
   */
  lemma FullRange(line: seq<BgrPixel>, n: int, c: int, lo: int, hi: int)
    requires Stretching(line, n) && 0 <= lo && Within(line, c, lo, hi)
    ensures forall r :: 0 <= r < n ==> lo <= Full(line, n, c)[r] <= hi
  {
    StretchRange(line, n, |line| - 1, c, lo, hi);
  }

  /** The stretched channels are the cells themselves: the cast to a byte never wraps. */
  lemma StretchedExact(line: seq<BgrPixel>, n: int, r: int, c: int)
    requires Stretching(line, n) && 0 <= r < n && 0 <= c <= 2
    ensures Channel(Stretched(line, n, r), c) == Full(line, n, c)[r]
  {
    ChannelsAreBytes(line, c);
    FullRange(line, n, c, 0, 255);
    ByteExact(Full(line, n, c)[r]);
  }

  /** The first cell is always a copy of the first pixel. */
  lemma FullFirst(line: seq<BgrPixel>, n: int, c: int)
    requires Stretching(line, n)
    ensures Full(line, n, c)[0] == Channel(line[0], c)
  {
    if |line| > 1 {
      MultipleBelow(1, |line|, n);
      FullCopy(line, n, c, 1, 0);
    }
  }

  lemma {:induction false} StretchSame(line: seq<BgrPixel>, k: int, c: int)
    requires 1 <= k < |line|
    ensures Stretch(line, |line|, k, c) == seq(k + 1, x requires 0 <= x <= k => Channel(line[x], c))
    decreases k
  {
    var m := |line|;
    SplitSame(k, m);
    assert Blend(line, m, k, c) == Channel(line[k], c) by {
      assert 0 * Channel(line[k - 1], c) == 0;
      FloorUnique(Channel(line[k], c), m, m * Channel(line[k], c));
    }
    if k > 1 {
      StretchSame(line, k - 1, c);
      SplitSame(k - 1, m);
    }
  }

  /** Stretching a line to its own length gives the line back. */
  lemma FullSameSize(line: seq<BgrPixel>, c: int)
    requires 1 <= |line|
    ensures Full(line, |line|, c) == seq(|line|, x requires 0 <= x < |line| => Channel(line[x], c))
  {
    var m := |line|;
    if m > 1 {
      StretchSame(line, m - 1, c);
      SplitSame(m - 1, m);
    }
  }

  /** `t / a < k` exactly when `t < k * a`. */
  lemma QuotientLess(t: int, a: int, k: int)
    requires a >= 1 && t >= 0
    ensures t / a < k <==> t < k * a
  {
    var q := t / a;
    Divided(t, a);
    ScaleOrder(q, k, a);
    assert (q + 1) * a == q * a + a;
    ScaleOrder(k, q + 1, a);
  }

  /** The widened width, `n - n/m`, is covered by the cells the strides fill. */
  lemma WidenCovered(m: int, n: int)
    requires 1 <= m <= n
    ensures 0 <= n - n / m <= Start(n, m, m - 1)
  {
    var q := n / m;
    Divided(n, m);
    MultipleBelow(1, m, n);
    assert q <= n by {
      Weighted(q, 1, 1, m);
    }
    if m > 1 && n - q - 1 >= 0 {
      assert (n - q - 1) * m == (m - 1) * n + n % m - m;
      MultipleBelow(n - q - 1, m, (m - 1) * n);
    }
  }

  /**
   * The strides of a heightening stop short of row `n - 2`, the last of
   * the `n - 1` rows kept, exactly when the new height is more than twice
   * the old; from a single row they never start.
   */
  lemma StretchShort(m: int, n: int)
    requires 1 <= m <= n
    ensures m == 1 ==> Start(n, m, m - 1) == 0
    ensures m >= 2 ==> (Start(n, m, m - 1) < n - 1 <==> n > 2 * m)
  {
    if m > 1 {
      assert (m - 1) * n == m * n - n;
      QuotientLess((m - 1) * n, m, n - 2);
      assert (n - 2) * m == m * n - 2 * m;
    }
  }

  // ---------------------------------------------------------------------
  // The rasters

  /** Pixel `x` of row `y` of the 24-bit raster `d` is `px`. */
  ghost predicate PixelAt(d: array2<bv8>, y: int, x: int, px: BgrPixel)
    reads d
  {
    0 <= y < d.Length0 && 0 <= x && 3 * x + 2 < d.Length1 &&
    BgrPixel(d[y, 3 * x], d[y, 3 * x + 1], d[y, 3 * x + 2]) == px
  }

  /** The three channels of pixel `x` of source row `y`, directly or through the colour table. */
  method Fetch(s: array2<bv8>, y: int, depth: int, color: seq<Bgr>, ghost row: seq<BgrPixel>, x: int)
      returns (blue: int, green: int, red: int)
    requires RowIn(s, y, depth, color, row) && 0 <= x < |row|
    ensures blue == Channel(row[x], 0) && green == Channel(row[x], 1) && red == Channel(row[x], 2)
  {
    if depth == 24 {
      assert row[x] == BgrPixel(s[y, 3 * x], s[y, 3 * x + 1], s[y, 3 * x + 2]);
      blue, green, red := s[y, 3 * x] as int, s[y, 3 * x + 1] as int, s[y, 3 * x + 2] as int;
    } else {
      var c := color[s[y, x]];
      assert row[x] == Shade(c);
      blue, green, red := c.blue as int, c.green as int, c.red as int;
    }
  }

  /**
   * The write-back that ends every pass: the first `count` accumulators,
   * cast to bytes, become the pixels of output row `y`.
   */
  method StoreRow(d: array2<bv8>, y: int, blue: array<int>, green: array<int>, red: array<int>, count: int)
    requires 0 <= y < d.Length0 && 0 <= count <= blue.Length && count <= green.Length && count <= red.Length
    requires 3 * count <= d.Length1
    modifies d
    ensures forall x :: 0 <= x < count ==>
      PixelAt(d, y, x, BgrPixel(ToByte(blue[x]), ToByte(green[x]), ToByte(red[x])))
    ensures forall y', x' :: 0 <= y' < d.Length0 && 0 <= x' < d.Length1 && (y' != y || x' >= 3 * count) ==>
      d[y', x'] == old(d[y', x'])
  {
    var x := 0;
    while x < count
      invariant 0 <= x <= count
      invariant forall x' :: 0 <= x' < x ==>
        PixelAt(d, y, x', BgrPixel(ToByte(blue[x']), ToByte(green[x']), ToByte(red[x'])))
      invariant forall y', x' :: 0 <= y' < d.Length0 && 0 <= x' < d.Length1 && (y' != y || x' >= 3 * x) ==>
        d[y', x'] == old(d[y', x'])
    {
      d[y, 3 * x] := ToByte(blue[x]);
      d[y, 3 * x + 1] := ToByte(green[x]);
      d[y, 3 * x + 2] := ToByte(red[x]);
      x := x + 1;
    }
  }

  // ---------------------------------------------------------------------
  // Narrowing (resizer.cpp:76-189, 345-466)

  /** The window of a cell is the line length: the weights of one cell add up to `w`. */
  lemma WindowWidth(j: int, w: int, n: int)
    requires 1 <= j < n <= w
    ensures (if j == 1 then 0 else n - Frac(j - 1, w, n)) +
            (Split(j, w, n) - Start(w, n, j - 1)) * n + Frac(j, w, n) == w
  {
    SplitFacts(j, w, n);
    SplitFacts(j - 1, w, n);
    assert j * w == (j - 1) * w + w;
    var s, s0 := Split(j, w, n), Split(j - 1, w, n);
    assert (s - (s0 + 1)) * n == s * n - s0 * n - n;
  }

  /**
   * The accumulate-left-side loop (resizer.cpp:133-139, 405-412): the
   * whole pixels from `from` up to the split go into accumulator `at`,
   * each adding `div` to the window.
   */
  method GatherRun(s: array2<bv8>, y: int, depth: int, color: seq<Bgr>, ghost row: seq<BgrPixel>,
                   blue: array<int>, green: array<int>, red: array<int>, at: int, from: int, to: int,
                   weight: int, div: int)
      returns (iIn: int, weight': int)
    requires blue != green && green != red && blue != red
    requires blue.Length == green.Length == red.Length && 0 <= at < blue.Length
    requires RowIn(s, y, depth, color, row) && 0 <= from <= to <= |row|
    modifies blue, green, red
    ensures iIn == to && weight' == weight + (to - from) * div
    ensures blue[at] == old(blue[at]) + RowTotal(row, from, to - from, 0)
    ensures green[at] == old(green[at]) + RowTotal(row, from, to - from, 1)
    ensures red[at] == old(red[at]) + RowTotal(row, from, to - from, 2)
    ensures forall k :: 0 <= k < blue.Length && k != at ==>
      blue[k] == old(blue[k]) && green[k] == old(green[k]) && red[k] == old(red[k])
  {
    iIn, weight' := from, weight;
    while iIn < to
      invariant from <= iIn <= to && weight' == weight + (iIn - from) * div
      invariant blue[at] == old(blue[at]) + RowTotal(row, from, iIn - from, 0)
      invariant green[at] == old(green[at]) + RowTotal(row, from, iIn - from, 1)
      invariant red[at] == old(red[at]) + RowTotal(row, from, iIn - from, 2)
      invariant forall k :: 0 <= k < blue.Length && k != at ==>
        blue[k] == old(blue[k]) && green[k] == old(green[k]) && red[k] == old(red[k])
    {
      var b, g, r := Fetch(s, y, depth, color, row, iIn);
      blue[at] := blue[at] + b;
      green[at] := green[at] + g;
      red[at] := red[at] + r;
      NextMultiple(iIn - from, div);
      weight' := weight' + div;
      iIn := iIn + 1;
    }
  }

  /**
   * The distribute-pixel-across-split step (resizer.cpp:140-166,
   * 413-443): the part `wt*v/div` of split pixel `split` closes cell
   * `j - 1`, which is scaled by `div` over the window; the rest opens cell `j`.
   */
  method SplitPixel(s: array2<bv8>, y: int, depth: int, color: seq<Bgr>, ghost row: seq<BgrPixel>, div: int,
                    blue: array<int>, green: array<int>, red: array<int>, j: int, split: int, wt: int, weight: int)
    requires blue != green && green != red && blue != red
    requires blue.Length == green.Length == red.Length == div
    requires RowIn(s, y, depth, color, row) && Narrowing(row, div) && 1 <= j < div
    requires split == Split(j, |row|, div) && wt == Frac(j, |row|, div) && weight == |row|
    modifies blue, green, red
    ensures blue[j - 1] == div * (old(blue[j - 1]) + Lead(row, div, j, 0)) / |row|
    ensures green[j - 1] == div * (old(green[j - 1]) + Lead(row, div, j, 1)) / |row|
    ensures red[j - 1] == div * (old(red[j - 1]) + Lead(row, div, j, 2)) / |row|
    ensures blue[j] == Trail(row, div, j, 0) && green[j] == Trail(row, div, j, 1) && red[j] == Trail(row, div, j, 2)
    ensures forall k :: 0 <= k < div && k != j - 1 && k != j ==>
      blue[k] == old(blue[k]) && green[k] == old(green[k]) && red[k] == old(red[k])
  {
    SplitBelow(j, |row|, div);
    var b, g, r := Fetch(s, y, depth, color, row, split);
    var left := (wt * b) / div;
    var right := b - left;
    blue[j - 1] := blue[j - 1] + left;
    blue[j - 1] := (div * blue[j - 1]) / weight;
    blue[j] := right;
    left := (wt * g) / div;
    right := g - left;
    green[j - 1] := green[j - 1] + left;
    green[j - 1] := (div * green[j - 1]) / weight;
    green[j] := right;
    left := (wt * r) / div;
    right := r - left;
    red[j - 1] := red[j - 1] + left;
    red[j - 1] := (div * red[j - 1]) / weight;
    red[j] := right;
  }

  /** The total of cell `j - 1`, written with the split `j` that closes it. */
  lemma GatheredBefore(line: seq<BgrPixel>, n: int, j: int, c: int, from: int, to: int)
    requires Narrowing(line, n) && 1 <= j < n
    requires from == Start(|line|, n, j - 1) && to == Split(j, |line|, n)
    ensures 0 <= from <= to < |line|
    ensures Gathered(line, n, j - 1, c) == Carry(line, n, j - 1, c) + RowTotal(line, from, to - from, c) + Lead(line, n, j, c)
  {
    SplitGrows(j - 1, |line|, n);
    SplitBelow(j, |line|, n);
  }

  /**
   * The first half of a stride (resizer.cpp:130-139, 402-412): cell
   * `j - 1`, holding the rest of the pixel split before it, gathers the
   * whole pixels up to split `j`; with its part of that split pixel it
   * would hold its total.
   */
  method GatherCell(s: array2<bv8>, y: int, depth: int, color: seq<Bgr>, ghost row: seq<BgrPixel>,
                    w: int, div: int, blue: array<int>, green: array<int>, red: array<int>,
                    j: int, i: int, iIn: int, weight: int)
      returns (split: int, weight': int)
    requires blue != green && green != red && blue != red
    requires blue.Length == green.Length == red.Length == div
    requires RowIn(s, y, depth, color, row) && |row| == w && Narrowing(row, div)
    requires 1 <= j < div && i == j * w && iIn == Start(w, div, j - 1)
    requires blue[j - 1] == Carry(row, div, j - 1, 0) && green[j - 1] == Carry(row, div, j - 1, 1) &&
             red[j - 1] == Carry(row, div, j - 1, 2)
    modifies blue, green, red
    ensures split == Split(j, w, div) && 0 <= split < w
    ensures weight' == weight + (split - iIn) * div
    ensures blue[j - 1] + Lead(row, div, j, 0) == Gathered(row, div, j - 1, 0)
    ensures green[j - 1] + Lead(row, div, j, 1) == Gathered(row, div, j - 1, 1)
    ensures red[j - 1] + Lead(row, div, j, 2) == Gathered(row, div, j - 1, 2)
    ensures forall k :: 0 <= k < div && k != j - 1 ==>
      blue[k] == old(blue[k]) && green[k] == old(green[k]) && red[k] == old(red[k])
  {
    split := i / div;
    GatheredBefore(row, div, j, 0, iIn, split);
    GatheredBefore(row, div, j, 1, iIn, split);
    GatheredBefore(row, div, j, 2, iIn, split);
    var iIn1;
    iIn1, weight' := GatherRun(s, y, depth, color, row, blue, green, red, j - 1, iIn, split, weight, div);
  }

  /**
   * One stride of a narrowing row (resizer.cpp:130-167, 402-444): cell
   * `j - 1` receives its whole pixels and its part of the split pixel and
   * is scaled to its mean; cell `j` opens with the rest of the split pixel.
   */
  method NarrowStride(s: array2<bv8>, y: int, depth: int, color: seq<Bgr>, ghost row: seq<BgrPixel>,
                      w: int, div: int, blue: array<int>, green: array<int>, red: array<int>,
                      j: int, i: int, iIn: int, weight: int)
      returns (iIn': int, weight': int)
    requires blue != green && green != red && blue != red
    requires blue.Length == green.Length == red.Length == div
    requires RowIn(s, y, depth, color, row) && |row| == w && Narrowing(row, div)
    requires 1 <= j < div && i == j * w && iIn == Start(w, div, j - 1)
    requires weight == if j == 1 then 0 else div - Frac(j - 1, w, div)
    requires blue[j - 1] == Carry(row, div, j - 1, 0) && green[j - 1] == Carry(row, div, j - 1, 1) &&
             red[j - 1] == Carry(row, div, j - 1, 2)
    modifies blue, green, red
    ensures iIn' == Start(w, div, j) && weight' == div - Frac(j, w, div)
    ensures blue[j - 1] == Mean(row, div, j - 1, 0) && green[j - 1] == Mean(row, div, j - 1, 1) &&
            red[j - 1] == Mean(row, div, j - 1, 2)
    ensures blue[j] == Carry(row, div, j, 0) && green[j] == Carry(row, div, j, 1) && red[j] == Carry(row, div, j, 2)
    ensures forall k :: 0 <= k < div && k != j - 1 && k != j ==>
      blue[k] == old(blue[k]) && green[k] == old(green[k]) && red[k] == old(red[k])
  {
    var split, weight1 := GatherCell(s, y, depth, color, row, w, div, blue, green, red, j, i, iIn, weight);
    var wt := i % div;
    weight1 := weight1 + wt;
    WindowWidth(j, w, div);
    SplitPixel(s, y, depth, color, row, div, blue, green, red, j, split, wt, weight1);
    weight' := div - wt;
    iIn' := split + 1;
  }

  /** The memset that opens a pass: every accumulator becomes zero. */
  method Clear(a: array<int>)
    modifies a
    ensures forall k :: 0 <= k < a.Length ==> a[k] == 0
  {
    forall k | 0 <= k < a.Length {
      a[k] := 0;
    }
  }

  /**
   * One row of the narrowers (resizer.cpp:114-167, 386-444): clear the
   * accumulators, then for each stride gather the whole pixels and split
   * the pixel it ends in. Afterwards every cell but the last holds its mean.
   */
  method NarrowRow(s: array2<bv8>, y: int, depth: int, color: seq<Bgr>, ghost row: seq<BgrPixel>,
                   w: int, div: int, blue: array<int>, green: array<int>, red: array<int>)
    requires blue != green && green != red && blue != red
    requires blue.Length == green.Length == red.Length == div
    requires RowIn(s, y, depth, color, row) && |row| == w && Narrowing(row, div)
    modifies blue, green, red
    ensures forall k :: 0 <= k < div - 1 ==>
      blue[k] == Mean(row, div, k, 0) && green[k] == Mean(row, div, k, 1) && red[k] == Mean(row, div, k, 2)
  {
    Clear(red);
    Clear(blue);
    Clear(green);
    var iMax, iInc := w * div, w;
    var i, iIn, weight := iInc, 0, 0;
    var j := 1;
    while i < iMax
      invariant 1 <= j <= div && i == j * w
      invariant iIn == Start(w, div, j - 1)
      invariant weight == if j == 1 then 0 else div - Frac(j - 1, w, div)
      invariant forall k :: 0 <= k < j - 1 ==>
        blue[k] == Mean(row, div, k, 0) && green[k] == Mean(row, div, k, 1) && red[k] == Mean(row, div, k, 2)
      invariant blue[j - 1] == Carry(row, div, j - 1, 0) && green[j - 1] == Carry(row, div, j - 1, 1) &&
                red[j - 1] == Carry(row, div, j - 1, 2)
    {
      ScaleOrder(j, div, w);
      iIn, weight := NarrowStride(s, y, depth, color, row, w, div, blue, green, red, j, i, iIn, weight);
      NextMultiple(j, w);
      i := i + iInc;
      j := j + 1;
    }
    ScaleOrder(j, div, w);
  }

  /** Every row of the picture narrowed to `n` cells. */
  function NarrowPicture(p: seq<seq<BgrPixel>>, w: nat, h: nat, n: int): (q: seq<seq<BgrPixel>>)
    requires IsMatrix(p, w, h) && 1 <= n <= w
    ensures IsMatrix(q, n - 1, h)
  {
    seq(h, y requires 0 <= y < h => Narrowed(p[y], n))
  }

  /** The row loop of the narrowers (resizer.cpp:112-182, 384-459). */
  method NarrowRaster(s: array2<bv8>, depth: int, color: seq<Bgr>, ghost p: seq<seq<BgrPixel>>,
                      w: nat, h: nat, n: int, d: array2<bv8>)
    requires s != d && 1 <= n <= w && Picture(s, depth, color, p, w, h)
    requires d.Length0 == h && 3 * (n - 1) <= d.Length1
    modifies d
    ensures IsMatrix(p, w, h)
    ensures Pixels24(Grid(d), n - 1, h) == NarrowPicture(p, w, h, n)
  {
    var blue, green, red := new int[n], new int[n], new int[n];
    var y := 0;
    while y < h
      invariant 0 <= y <= h
      invariant forall Y, X :: 0 <= Y < y && 0 <= X < n - 1 ==> PixelAt(d, Y, X, Squeezed(p[Y], n, X))
    {
      RowOf(s, depth, color, p, w, h, y);
      NarrowRow(s, y, depth, color, p[y], w, n, blue, green, red);
      label Before:
      StoreRow(d, y, blue, green, red, n - 1);
      forall Y, X | 0 <= Y < y && 0 <= X < n - 1
        ensures PixelAt(d, Y, X, Squeezed(p[Y], n, X))
      {
        assert old@Before(PixelAt(d, Y, X, Squeezed(p[Y], n, X)));
      }
      forall X | 0 <= X < n - 1
        ensures PixelAt(d, y, X, Squeezed(p[y], n, X))
      {
        assert blue[X] == Mean(p[y], n, X, 0) && green[X] == Mean(p[y], n, X, 1) && red[X] == Mean(p[y], n, X, 2);
      }
      y := y + 1;
    }
    NarrowHeld(d, p, w, h, n);
  }

  lemma NarrowHeld(d: array2<bv8>, p: seq<seq<BgrPixel>>, w: nat, h: nat, n: int)
    requires IsMatrix(p, w, h) && 1 <= n <= w && d.Length0 == h && 3 * (n - 1) <= d.Length1
    requires forall Y, X :: 0 <= Y < h && 0 <= X < n - 1 ==> PixelAt(d, Y, X, Squeezed(p[Y], n, X))
    ensures Pixels24(Grid(d), n - 1, h) == NarrowPicture(p, w, h, n)
  {
    var a, b := Pixels24(Grid(d), n - 1, h), NarrowPicture(p, w, h, n);
    forall Y | 0 <= Y < h
      ensures a[Y] == b[Y]
    {
      forall X | 0 <= X < n - 1
        ensures a[Y][X] == b[Y][X]
      {
        assert PixelAt(d, Y, X, Squeezed(p[Y], n, X));
      }
    }
  }

  /**
   * llimg_narrow24bit (resizer.cpp:77-189) and llimg_narrow8bit
   * (resizer.cpp:346-466), which differ only in the depth they accept and
   * in reading pixels directly or through the colour table: a source of
   * another depth is refused with -1 and the target left alone; otherwise
   * the target is a 24-bit image `n - 1` pixels wide and as high as the
   * source, each row the source row narrowed to `n` cells.
   */
  method Narrow(image: Llimg, n: int, reduced: Llimg, depth: int) returns (rc: int)
    requires depth == 8 || depth == 24
    requires image != reduced
    requires image.header.bitsPerPixel == depth ==>
      PixelsIn(image, depth / 8) && (depth == 8 ==> |image.color| == 256) && 1 <= n <= image.header.width
    modifies reduced
    ensures image.header.bitsPerPixel != depth ==> rc == -1 && unchanged(reduced)
    ensures image.header.bitsPerPixel == depth ==>
      rc == 0 && fresh(reduced.data) && reduced.color == ZeroPalette() &&
      reduced.Laid(n - 1, image.height, 24, LongAligned(3 * (n - 1))) &&
      Pixels24(Grid(reduced.data), n - 1, image.height) ==
        NarrowPicture(if depth == 24 then Pixels24(Grid(image.data), image.header.width, image.height)
                      else Paletted(image.color, Pixels8(Grid(image.data), image.header.width, image.height),
                                    image.header.width, image.height),
                      image.header.width, image.height, n)
  {
    if image.header.bitsPerPixel != depth {
      return -1;
    }
    var w, h, s := image.header.width, image.height, image.data;
    ghost var p := if depth == 24 then Pixels24(Grid(s), w, h)
                   else Paletted(image.color, Pixels8(Grid(s), w, h), w, h);
    assert Picture(s, depth, image.color, p, w, h);
    LongAlignedBounds(3 * (n - 1));
    reduced.Allocate(n - 1, Abs(h), 24, LongAligned(3 * (n - 1)));
    NarrowRaster(s, depth, image.color, p, w, h, n, reduced.data);
    rc := 0;
  }

  // ---------------------------------------------------------------------
  // Shortening (resizer.cpp:200-332, 475-616)

  /** The picture read by columns: row `x` of the result is column `x`, top to bottom. */
  function Transposed<T>(p: seq<seq<T>>, w: nat, h: nat): (q: seq<seq<T>>)
    requires IsMatrix(p, w, h)
    ensures IsMatrix(q, h, w)
    ensures forall x, y :: 0 <= x < w && 0 <= y < h ==> q[x][y] == p[y][x]
  {
    seq(w, x requires 0 <= x < w => seq(h, y requires 0 <= y < h => p[y][x]))
  }

  /** Shortening narrows every column: `n - 1` rows of `w` pixels. */
  function ShortenPicture(p: seq<seq<BgrPixel>>, w: nat, h: nat, n: int): (r: seq<seq<BgrPixel>>)
    requires IsMatrix(p, w, h) && 1 <= n <= h
    ensures IsMatrix(r, w, n - 1)
  {
    Transposed(NarrowPicture(Transposed(p, w, h), h, w, n), n - 1, w)
  }

  /** `q` holds the columns of `p`. */
  ghost predicate ColumnsOf(q: seq<seq<BgrPixel>>, p: seq<seq<BgrPixel>>, w: nat, h: nat)
  {
    IsMatrix(p, w, h) && IsMatrix(q, h, w) && forall x, y :: 0 <= x < w && 0 <= y < h ==> q[x][y] == p[y][x]
  }

  /**
   * The accumulators of every column `x` hold what cell `k` of column
   * `q[x]` starts with and the `count` rows from `from` on.
   */
  ghost predicate Partial(blue: array<int>, green: array<int>, red: array<int>, q: seq<seq<BgrPixel>>,
                          w: nat, h: nat, n: int, k: int, from: int, count: nat)
    reads blue, green, red
  {
    IsMatrix(q, h, w) && 1 <= n <= h && 0 <= k < n && 0 <= from && from + count <= h &&
    blue.Length == w && green.Length == w && red.Length == w &&
    forall x :: 0 <= x < w ==>
      blue[x] == Carry(q[x], n, k, 0) + RowTotal(q[x], from, count, 0) &&
      green[x] == Carry(q[x], n, k, 1) + RowTotal(q[x], from, count, 1) &&
      red[x] == Carry(q[x], n, k, 2) + RowTotal(q[x], from, count, 2)
  }

  /** The accumulators of every column hold the mean of cell `k`. */
  ghost predicate Averaged(blue: array<int>, green: array<int>, red: array<int>, q: seq<seq<BgrPixel>>,
                           w: nat, h: nat, n: int, k: int)
    reads blue, green, red
  {
    IsMatrix(q, h, w) && 1 <= n <= h && 0 <= k < n - 1 &&
    blue.Length == w && green.Length == w && red.Length == w &&
    forall x :: 0 <= x < w ==>
      blue[x] == Mean(q[x], n, k, 0) && green[x] == Mean(q[x], n, k, 1) && red[x] == Mean(q[x], n, k, 2)
  }

  /** The bottom buffer holds, for every column, the rest of split pixel `j`. */
  ghost predicate Bottoms(bottom: array<int>, q: seq<seq<BgrPixel>>, w: nat, h: nat, n: int, j: int)
    reads bottom
  {
    IsMatrix(q, h, w) && 1 <= n <= h && 0 <= j < n && bottom.Length == 3 * w &&
    forall x :: 0 <= x < w ==>
      bottom[3 * x] == Trail(q[x], n, j, 0) && bottom[3 * x + 1] == Trail(q[x], n, j, 1) &&
      bottom[3 * x + 2] == Trail(q[x], n, j, 2)
  }

  /** Rows `0` to `k - 1` of `d` hold the first `k` shortened rows. */
  ghost predicate ShortRows(d: array2<bv8>, q: seq<seq<BgrPixel>>, w: nat, h: nat, n: int, k: int)
    reads d
  {
    IsMatrix(q, h, w) && 1 <= n <= h && 0 <= k <= n - 1 &&
    forall Y, X :: 0 <= Y < k && 0 <= X < w ==> PixelAt(d, Y, X, Squeezed(q[X], n, Y))
  }

  /** The accumulate-tops inner loop (resizer.cpp:258-266, 536-545): source row `from + count` joins every column. */
  method AddRow(s: array2<bv8>, depth: int, color: seq<Bgr>, ghost p: seq<seq<BgrPixel>>, ghost q: seq<seq<BgrPixel>>,
                w: nat, h: nat, n: int, blue: array<int>, green: array<int>, red: array<int>,
                k: int, from: int, count: nat)
    requires blue != green && green != red && blue != red
    requires Picture(s, depth, color, p, w, h) && ColumnsOf(q, p, w, h)
    requires Partial(blue, green, red, q, w, h, n, k, from, count) && from + count < h
    modifies blue, green, red
    ensures Partial(blue, green, red, q, w, h, n, k, from, count + 1)
  {
    var row := from + count;
    RowOf(s, depth, color, p, w, h, row);
    var x := 0;
    while x < w
      invariant 0 <= x <= w
      invariant forall x' :: 0 <= x' < x ==>
        blue[x'] == Carry(q[x'], n, k, 0) + RowTotal(q[x'], from, count + 1, 0) &&
        green[x'] == Carry(q[x'], n, k, 1) + RowTotal(q[x'], from, count + 1, 1) &&
        red[x'] == Carry(q[x'], n, k, 2) + RowTotal(q[x'], from, count + 1, 2)
      invariant forall x' :: x <= x' < w ==>
        blue[x'] == old(blue[x']) && green[x'] == old(green[x']) && red[x'] == old(red[x'])
    {
      assert q[x][row] == p[row][x];
      AddPoint(s, row, depth, color, p[row], q[x], w, h, n, blue, green, red, k, from, count, x);
      x := x + 1;
    }
  }

  /** Column `x`, whose pixels top to bottom are `col`, takes its pixel of source row `row`. */
  method AddPoint(s: array2<bv8>, row: int, depth: int, color: seq<Bgr>, ghost line: seq<BgrPixel>,
                  ghost col: seq<BgrPixel>, w: nat, h: nat, n: int, blue: array<int>, green: array<int>,
                  red: array<int>, k: int, from: int, count: nat, x: int)
    requires blue != green && green != red && blue != red
    requires blue.Length == w && green.Length == w && red.Length == w && 0 <= x < w
    requires |col| == h && 1 <= n <= h && 0 <= k < n && 0 <= from && row == from + count < h
    requires RowIn(s, row, depth, color, line) && |line| == w && col[row] == line[x]
    requires blue[x] == Carry(col, n, k, 0) + RowTotal(col, from, count, 0)
    requires green[x] == Carry(col, n, k, 1) + RowTotal(col, from, count, 1)
    requires red[x] == Carry(col, n, k, 2) + RowTotal(col, from, count, 2)
    modifies blue, green, red
    ensures blue[x] == Carry(col, n, k, 0) + RowTotal(col, from, count + 1, 0)
    ensures green[x] == Carry(col, n, k, 1) + RowTotal(col, from, count + 1, 1)
    ensures red[x] == Carry(col, n, k, 2) + RowTotal(col, from, count + 1, 2)
    ensures forall x' :: 0 <= x' < w && x' != x ==>
      blue[x'] == old(blue[x']) && green[x'] == old(green[x']) && red[x'] == old(red[x'])
  {
    var b, g, r := Fetch(s, row, depth, color, line, x);
    blue[x] := blue[x] + b;
    green[x] := green[x] + g;
    red[x] := red[x] + r;
  }

  /** The accumulate-tops loop (resizer.cpp:256-268, 534-547): whole rows up to the split join the columns. */
  method GatherRows(s: array2<bv8>, depth: int, color: seq<Bgr>, ghost p: seq<seq<BgrPixel>>, ghost q: seq<seq<BgrPixel>>,
                    w: nat, h: nat, n: int, blue: array<int>, green: array<int>, red: array<int>,
                    k: int, from: int, to: int, weight: int)
      returns (iIn: int, weight': int)
    requires blue != green && green != red && blue != red
    requires Picture(s, depth, color, p, w, h) && ColumnsOf(q, p, w, h)
    requires Partial(blue, green, red, q, w, h, n, k, from, 0) && from <= to <= h
    modifies blue, green, red
    ensures iIn == to && weight' == weight + (to - from) * n
    ensures Partial(blue, green, red, q, w, h, n, k, from, to - from)
  {
    iIn, weight' := from, weight;
    while iIn < to
      invariant from <= iIn <= to && weight' == weight + (iIn - from) * n
      invariant Partial(blue, green, red, q, w, h, n, k, from, iIn - from)
    {
      AddRow(s, depth, color, p, q, w, h, n, blue, green, red, k, from, iIn - from);
      NextMultiple(iIn - from, n);
      weight' := weight' + n;
      iIn := iIn + 1;
    }
  }

  /**
   * The distribute-index-pixel loop (resizer.cpp:269-299, 548-583): in
   * every column the top part of split row `split` closes cell `j - 1`,
   * scaled to its mean; the bottom part goes to the bottom buffer.
   */
  method SplitRow(s: array2<bv8>, depth: int, color: seq<Bgr>, ghost p: seq<seq<BgrPixel>>, ghost q: seq<seq<BgrPixel>>,
                  w: nat, h: nat, div: int, blue: array<int>, green: array<int>, red: array<int>, bottom: array<int>,
                  j: int, from: int, split: int, wt: int, weight: int)
    requires blue != green && green != red && blue != red && bottom != blue && bottom != green && bottom != red
    requires bottom.Length == 3 * w && Picture(s, depth, color, p, w, h) && ColumnsOf(q, p, w, h) && 1 <= j < div
    requires from == Start(h, div, j - 1) && split == Split(j, h, div) && wt == Frac(j, h, div) && weight == h
    requires 0 <= from <= split < h
    requires Partial(blue, green, red, q, w, h, div, j - 1, from, split - from)
    modifies blue, green, red, bottom
    ensures Averaged(blue, green, red, q, w, h, div, j - 1)
    ensures Bottoms(bottom, q, w, h, div, j)
  {
    RowOf(s, depth, color, p, w, h, split);
    var x := 0;
    while x < w
      invariant 0 <= x <= w
      invariant forall x' :: 0 <= x' < x ==>
        blue[x'] == Mean(q[x'], div, j - 1, 0) && green[x'] == Mean(q[x'], div, j - 1, 1) &&
        red[x'] == Mean(q[x'], div, j - 1, 2)
      invariant forall x' :: x <= x' < w ==>
        blue[x'] == old(blue[x']) && green[x'] == old(green[x']) && red[x'] == old(red[x'])
      invariant forall x' :: 0 <= x' < x ==>
        bottom[3 * x'] == Trail(q[x'], div, j, 0) && bottom[3 * x' + 1] == Trail(q[x'], div, j, 1) &&
        bottom[3 * x' + 2] == Trail(q[x'], div, j, 2)
    {
      assert q[x][split] == p[split][x];
      SplitPoint(s, depth, color, p[split], q[x], w, h, div, blue, green, red, bottom, j, from, split, wt, weight, x);
      x := x + 1;
    }
  }

  /** The two parts of split pixel `j`, written with the split, its weight and the pixel's channel. */
  lemma SplitParts(line: seq<BgrPixel>, n: int, j: int, c: int, split: int, wt: int, v: int)
    requires Narrowing(line, n) && 0 <= j < n
    requires split == Split(j, |line|, n) && wt == Frac(j, |line|, n)
    requires 0 <= split < |line| && v == Channel(line[split], c)
    ensures Lead(line, n, j, c) == (wt * v) / n && Trail(line, n, j, c) == v - (wt * v) / n
  {
  }

  /** The split row's work on column `x`, whose pixels top to bottom are `col`. */
  method SplitPoint(s: array2<bv8>, depth: int, color: seq<Bgr>, ghost row: seq<BgrPixel>, ghost col: seq<BgrPixel>,
                    w: nat, h: nat, div: int, blue: array<int>, green: array<int>, red: array<int>, bottom: array<int>,
                    j: int, from: int, split: int, wt: int, weight: int, x: int)
    requires blue != green && green != red && blue != red && bottom != blue && bottom != green && bottom != red
    requires bottom.Length == 3 * w && |col| == h && 1 <= j < div <= h && 0 <= x < w
    requires from == Start(h, div, j - 1) && split == Split(j, h, div) && wt == Frac(j, h, div) && weight == h
    requires 0 <= from <= split < h && RowIn(s, split, depth, color, row) && |row| == w && col[split] == row[x]
    requires blue.Length == w && green.Length == w && red.Length == w
    requires blue[x] == Carry(col, div, j - 1, 0) + RowTotal(col, from, split - from, 0)
    requires green[x] == Carry(col, div, j - 1, 1) + RowTotal(col, from, split - from, 1)
    requires red[x] == Carry(col, div, j - 1, 2) + RowTotal(col, from, split - from, 2)
    modifies blue, green, red, bottom
    ensures blue[x] == Mean(col, div, j - 1, 0) && green[x] == Mean(col, div, j - 1, 1) && red[x] == Mean(col, div, j - 1, 2)
    ensures bottom[3 * x] == Trail(col, div, j, 0) && bottom[3 * x + 1] == Trail(col, div, j, 1) &&
            bottom[3 * x + 2] == Trail(col, div, j, 2)
    ensures forall x' :: 0 <= x' < w && x' != x ==>
      blue[x'] == old(blue[x']) && green[x'] == old(green[x']) && red[x'] == old(red[x'])
    ensures forall x' :: 0 <= x' < w && x' != x ==>
      bottom[3 * x'] == old(bottom[3 * x']) && bottom[3 * x' + 1] == old(bottom[3 * x' + 1]) &&
      bottom[3 * x' + 2] == old(bottom[3 * x' + 2])
  {
    GatheredBefore(col, div, j, 0, from, split);
    GatheredBefore(col, div, j, 1, from, split);
    GatheredBefore(col, div, j, 2, from, split);
    ghost var gb, gg, gr := blue[x] + Lead(col, div, j, 0), green[x] + Lead(col, div, j, 1), red[x] + Lead(col, div, j, 2);
    var b, g, r := Fetch(s, split, depth, color, row, x);
    SplitParts(col, div, j, 0, split, wt, b);
    SplitParts(col, div, j, 1, split, wt, g);
    SplitParts(col, div, j, 2, split, wt, r);
    var top := (wt * b) / div;
    blue[x] := (div * (blue[x] + top)) / weight;
    bottom[3 * x] := b - top;
    top := (wt * g) / div;
    green[x] := (div * (green[x] + top)) / weight;
    bottom[3 * x + 1] := g - top;
    top := (wt * r) / div;
    red[x] := (div * (red[x] + top)) / weight;
    bottom[3 * x + 2] := r - top;
  }

  /** The bottom buffer becomes the accumulators (resizer.cpp:310-319, 594-603): every column opens cell `j`. */
  method CarryDown(blue: array<int>, green: array<int>, red: array<int>, bottom: array<int>,
                   ghost q: seq<seq<BgrPixel>>, w: nat, h: nat, n: int, j: int)
    requires blue != green && green != red && blue != red && bottom != blue && bottom != green && bottom != red
    requires blue.Length == w && green.Length == w && red.Length == w
    requires Bottoms(bottom, q, w, h, n, j) && 1 <= j
    modifies blue, green, red
    ensures Partial(blue, green, red, q, w, h, n, j, Start(h, n, j), 0)
  {
    SplitBelow(j, h, n);
    var x := 0;
    while x < w
      invariant 0 <= x <= w
      invariant forall x' :: 0 <= x' < x ==>
        blue[x'] == Carry(q[x'], n, j, 0) && green[x'] == Carry(q[x'], n, j, 1) && red[x'] == Carry(q[x'], n, j, 2)
    {
      blue[x] := bottom[3 * x];
      green[x] := bottom[3 * x + 1];
      red[x] := bottom[3 * x + 2];
      x := x + 1;
    }
  }

  /**
   * The first half of a shortening stride (resizer.cpp:254-299,
   * 532-583): gather the whole rows of cell `y`, then split the row the
   * stride ends in.
   */
  method ShortenCell(s: array2<bv8>, depth: int, color: seq<Bgr>, ghost p: seq<seq<BgrPixel>>,
                     ghost q: seq<seq<BgrPixel>>, w: nat, h: nat, n: int,
                     blue: array<int>, green: array<int>, red: array<int>, bottom: array<int>,
                     y: int, i: int, iIn: int, weight: int)
      returns (split: int)
    requires blue != green && green != red && blue != red && bottom != blue && bottom != green && bottom != red
    requires Picture(s, depth, color, p, w, h) && ColumnsOf(q, p, w, h) && bottom.Length == 3 * w
    requires 0 <= y < n - 1 && i == (y + 1) * h && iIn == Start(h, n, y)
    requires weight == if y == 0 then 0 else n - Frac(y, h, n)
    requires Partial(blue, green, red, q, w, h, n, y, iIn, 0)
    modifies blue, green, red, bottom
    ensures split == Split(y + 1, h, n)
    ensures Averaged(blue, green, red, q, w, h, n, y) && Bottoms(bottom, q, w, h, n, y + 1)
  {
    var j := y + 1;
    split := i / n;
    assert split == Split(j, h, n);
    SplitGrows(y, h, n);
    SplitBelow(j, h, n);
    assert y == j - 1;
    var iIn1, weight1 := GatherRows(s, depth, color, p, q, w, h, n, blue, green, red, y, iIn, split, weight);
    var wt := i % n;
    assert wt == Frac(j, h, n);
    WindowWidth(j, h, n);
    assert weight1 + wt == h;
    weight1 := weight1 + wt;
    SplitRow(s, depth, color, p, q, w, h, n, blue, green, red, bottom, j, iIn, split, wt, weight1);
  }

  /**
   * One stride of a shortening (resizer.cpp:254-322, 532-606): close
   * cell `y`, store it as output row `y` and carry the bottom parts into
   * cell `y + 1`.
   */
  method ShortenStride(s: array2<bv8>, depth: int, color: seq<Bgr>, ghost p: seq<seq<BgrPixel>>,
                       ghost q: seq<seq<BgrPixel>>, w: nat, h: nat, n: int, d: array2<bv8>,
                       blue: array<int>, green: array<int>, red: array<int>, bottom: array<int>,
                       y: int, i: int, iIn: int, weight: int)
      returns (iIn': int, weight': int)
    requires blue != green && green != red && blue != red && bottom != blue && bottom != green && bottom != red
    requires Picture(s, depth, color, p, w, h) && ColumnsOf(q, p, w, h) && s != d
    requires bottom.Length == 3 * w && d.Length0 == n - 1 && 3 * w <= d.Length1
    requires 0 <= y < n - 1 && i == (y + 1) * h && iIn == Start(h, n, y)
    requires weight == if y == 0 then 0 else n - Frac(y, h, n)
    requires Partial(blue, green, red, q, w, h, n, y, iIn, 0) && ShortRows(d, q, w, h, n, y)
    modifies d, blue, green, red, bottom
    ensures iIn' == Start(h, n, y + 1) && weight' == n - Frac(y + 1, h, n)
    ensures Partial(blue, green, red, q, w, h, n, y + 1, iIn', 0) && ShortRows(d, q, w, h, n, y + 1)
  {
    var split := ShortenCell(s, depth, color, p, q, w, h, n, blue, green, red, bottom, y, i, iIn, weight);
    ShortenStore(d, blue, green, red, bottom, q, w, h, n, y);
    weight' := n - i % n;
    iIn' := split + 1;
  }

  /** The end of a stride (resizer.cpp:300-319, 584-603): store cell `y` as row `y`, then carry the bottoms down. */
  method ShortenStore(d: array2<bv8>, blue: array<int>, green: array<int>, red: array<int>, bottom: array<int>,
                      ghost q: seq<seq<BgrPixel>>, w: nat, h: nat, n: int, y: int)
    requires blue != green && green != red && blue != red && bottom != blue && bottom != green && bottom != red
    requires blue.Length == w && green.Length == w && red.Length == w
    requires IsMatrix(q, h, w) && 1 <= n <= h && 0 <= y < n - 1
    requires d.Length0 == n - 1 && 3 * w <= d.Length1
    requires Averaged(blue, green, red, q, w, h, n, y) && Bottoms(bottom, q, w, h, n, y + 1)
    requires ShortRows(d, q, w, h, n, y)
    modifies d, blue, green, red
    ensures Partial(blue, green, red, q, w, h, n, y + 1, Start(h, n, y + 1), 0) && ShortRows(d, q, w, h, n, y + 1)
  {
    label Before:
    StoreRow(d, y, blue, green, red, w);
    forall Y, X | 0 <= Y < y && 0 <= X < w
      ensures PixelAt(d, Y, X, Squeezed(q[X], n, Y))
    {
      assert old@Before(PixelAt(d, Y, X, Squeezed(q[X], n, Y)));
    }
    forall X | 0 <= X < w
      ensures PixelAt(d, y, X, Squeezed(q[X], n, y))
    {
      assert blue[X] == Mean(q[X], n, y, 0) && green[X] == Mean(q[X], n, y, 1) && red[X] == Mean(q[X], n, y, 2);
    }
    assert ShortRows(d, q, w, h, n, y + 1);
    CarryDown(blue, green, red, bottom, q, w, h, n, y + 1);
  }

  /** The memsets before the stride loop (resizer.cpp:244-246, 519-521): every column opens cell 0 empty. */
  method OpenColumns(blue: array<int>, green: array<int>, red: array<int>, ghost q: seq<seq<BgrPixel>>,
                     w: nat, h: nat, n: int)
    requires blue.Length == w && green.Length == w && red.Length == w
    requires IsMatrix(q, h, w) && 1 <= n <= h
    modifies blue, green, red
    ensures Partial(blue, green, red, q, w, h, n, 0, 0, 0)
  {
    Clear(red);
    Clear(blue);
    Clear(green);
  }

  /** The shorteners' working buffers, allocated and cleared (resizer.cpp:225-246, 500-521). */
  method OpenAll(ghost q: seq<seq<BgrPixel>>, w: nat, h: nat, n: int)
      returns (blue: array<int>, green: array<int>, red: array<int>, bottom: array<int>)
    requires IsMatrix(q, h, w) && 1 <= n <= h
    ensures fresh(blue) && fresh(green) && fresh(red) && fresh(bottom)
    ensures blue != green && green != red && blue != red && bottom != blue && bottom != green && bottom != red
    ensures bottom.Length == 3 * w
    ensures Partial(blue, green, red, q, w, h, n, 0, 0, 0)
  {
    blue, green, red := new int[w], new int[w], new int[w];
    bottom := new int[3 * w];
    OpenColumns(blue, green, red, q, w, h, n);
  }

  /** llimg_shorten24bit and llimg_shorten8bit past their preamble: buffers, strides, output rows. */
  method ShortenRaster(s: array2<bv8>, depth: int, color: seq<Bgr>, ghost p: seq<seq<BgrPixel>>,
                       ghost q: seq<seq<BgrPixel>>, w: nat, h: nat, n: int, d: array2<bv8>)
    requires s != d && 1 <= n <= h && Picture(s, depth, color, p, w, h) && ColumnsOf(q, p, w, h)
    requires d.Length0 == n - 1 && 3 * w <= d.Length1
    modifies d
    ensures ShortRows(d, q, w, h, n, n - 1)
  {
    var blue, green, red, bottom := OpenAll(q, w, h, n);
    ShortenStrides(s, depth, color, p, q, w, h, n, d, blue, green, red, bottom);
  }

  /** The stride loop of the shorteners (resizer.cpp:251-323, 529-607); `y` is the output row. */
  method ShortenStrides(s: array2<bv8>, depth: int, color: seq<Bgr>, ghost p: seq<seq<BgrPixel>>,
                        ghost q: seq<seq<BgrPixel>>, w: nat, h: nat, n: int, d: array2<bv8>,
                        blue: array<int>, green: array<int>, red: array<int>, bottom: array<int>)
    requires blue != green && green != red && blue != red && bottom != blue && bottom != green && bottom != red
    requires s != d && 1 <= n <= h && Picture(s, depth, color, p, w, h) && ColumnsOf(q, p, w, h)
    requires d.Length0 == n - 1 && 3 * w <= d.Length1 && bottom.Length == 3 * w
    requires Partial(blue, green, red, q, w, h, n, 0, 0, 0)
    modifies d, blue, green, red, bottom
    ensures ShortRows(d, q, w, h, n, n - 1)
  {
    var iMax, iInc := h * n, h;
    var i, iIn, weight := iInc, 0, 0;
    var y := 0;
    while i < iMax
      invariant 0 <= y < n && i == (y + 1) * h
      invariant iIn == Start(h, n, y)
      invariant weight == if y == 0 then 0 else n - Frac(y, h, n)
      invariant Partial(blue, green, red, q, w, h, n, y, iIn, 0) && ShortRows(d, q, w, h, n, y)
    {
      ScaleOrder(y + 1, n, h);
      iIn, weight := ShortenStride(s, depth, color, p, q, w, h, n, d, blue, green, red, bottom, y, i, iIn, weight);
      NextMultiple(y + 1, h);
      i := i + iInc;
      y := y + 1;
    }
    ScaleOrder(y + 1, n, h);
  }

  lemma ShortenHeld(d: array2<bv8>, p: seq<seq<BgrPixel>>, q: seq<seq<BgrPixel>>, w: nat, h: nat, n: int)
    requires IsMatrix(p, w, h) && 1 <= n <= h && d.Length0 == n - 1 && 3 * w <= d.Length1
    requires q == Transposed(p, w, h) && ShortRows(d, q, w, h, n, n - 1)
    ensures Pixels24(Grid(d), w, n - 1) == ShortenPicture(p, w, h, n)
  {
    var a, b := Pixels24(Grid(d), w, n - 1), ShortenPicture(p, w, h, n);
    var t := NarrowPicture(q, h, w, n);
    forall Y | 0 <= Y < n - 1
      ensures a[Y] == b[Y]
    {
      forall X | 0 <= X < w
        ensures a[Y][X] == b[Y][X]
      {
        assert PixelAt(d, Y, X, Squeezed(q[X], n, Y));
        assert b[Y][X] == t[X][Y] == Narrowed(q[X], n)[Y];
      }
    }
  }

  /**
   * llimg_shorten24bit (resizer.cpp:200-332) and llimg_shorten8bit
   * (resizer.cpp:475-616): a source of another depth is refused with -1
   * and the target left alone; otherwise the target is a 24-bit image as
   * wide as the source and `n - 1` rows high, each column the source
   * column narrowed to `n` cells.
   */
  method Shorten(image: Llimg, n: int, reduced: Llimg, depth: int) returns (rc: int)
    requires depth == 8 || depth == 24
    requires image != reduced
    requires image.header.bitsPerPixel == depth ==>
      PixelsIn(image, depth / 8) && (depth == 8 ==> |image.color| == 256) && 1 <= n <= image.height
    modifies reduced
    ensures image.header.bitsPerPixel != depth ==> rc == -1 && unchanged(reduced)
    ensures image.header.bitsPerPixel == depth ==>
      rc == 0 && fresh(reduced.data) && reduced.color == ZeroPalette() &&
      reduced.Laid(image.header.width, n - 1, 24, LongAligned(3 * image.header.width)) &&
      Pixels24(Grid(reduced.data), image.header.width, n - 1) ==
        ShortenPicture(if depth == 24 then Pixels24(Grid(image.data), image.header.width, image.height)
                       else Paletted(image.color, Pixels8(Grid(image.data), image.header.width, image.height),
                                     image.header.width, image.height),
                       image.header.width, image.height, n)
  {
    if image.header.bitsPerPixel != depth {
      return -1;
    }
    var w, h, s := image.header.width, image.height, image.data;
    ghost var p := if depth == 24 then Pixels24(Grid(s), w, h)
                   else Paletted(image.color, Pixels8(Grid(s), w, h), w, h);
    assert Picture(s, depth, image.color, p, w, h);
    LongAlignedBounds(3 * w);
    reduced.Allocate(w, Abs(n - 1), 24, LongAligned(3 * w));
    ghost var q := Transposed(p, w, h);
    ShortenRaster(s, depth, image.color, p, q, w, h, n, reduced.data);
    ShortenHeld(reduced.data, p, q, w, h, n);
    rc := 0;
  }

  // ---------------------------------------------------------------------
  // Widening (resizer.cpp:663-767)

  /** Cell `r` of the first `k` strides: an earlier stride's, a copy of pixel `k-1`, or the blend at split `k`. */
  lemma StretchStep(line: seq<BgrPixel>, n: int, k: int, c: int, r: int)
    requires Stretching(line, n) && 1 <= k < |line| && 0 <= r < Start(n, |line|, k)
    ensures Start(n, |line|, k - 1) <= Split(k, n, |line|)
    ensures Stretch(line, n, k, c)[r] ==
      if r < Start(n, |line|, k - 1) then Stretch(line, n, k - 1, c)[r]
      else if r < Split(k, n, |line|) then Channel(line[k - 1], c)
      else Blend(line, n, k, c)
  {
    var m := |line|;
    var prev := Stretch(line, n, k - 1, c);
    SplitGrows(k - 1, n, m);
    var rest := seq(Split(k, n, m) - |prev|, _ => Channel(line[k - 1], c)) + [Blend(line, n, k, c)];
    assert Stretch(line, n, k, c) == prev + rest;
  }

  /** Accumulator `a` holds channel `c` of the cells the first `k` strides of `line` fill. */
  ghost predicate Filled(a: seq<int>, line: seq<BgrPixel>, n: int, k: int, c: int)
    requires Stretching(line, n) && 0 <= k < |line|
  {
    Start(n, |line|, k) <= |a| && forall r :: 0 <= r < Start(n, |line|, k) ==> a[r] == Stretch(line, n, k, c)[r]
  }

  /** The three accumulators hold the cells the first `k` strides of `line` fill. */
  ghost predicate Spreads(blue: seq<int>, green: seq<int>, red: seq<int>, line: seq<BgrPixel>, n: int, k: int)
    requires Stretching(line, n) && 0 <= k < |line|
  {
    Filled(blue, line, n, k, 0) && Filled(green, line, n, k, 1) && Filled(red, line, n, k, 2)
  }

  /** An accumulator that went through stride `k` holds its cells. */
  lemma FilledStep(a: seq<int>, line: seq<BgrPixel>, n: int, k: int, c: int, v: int)
    requires Stretching(line, n) && 1 <= k < |line|
    requires 0 <= Split(k, n, |line|) < |a| && Copied(a, line, n, k, c, Split(k, n, |line|))
    requires v == Blend(line, n, k, c)
    ensures Filled(a[Split(k, n, |line|) := v], line, n, k, c)
  {
    forall r | 0 <= r < Start(n, |line|, k)
      ensures a[Split(k, n, |line|) := v][r] == Stretch(line, n, k, c)[r]
    {
      StretchStep(line, n, k, c, r);
    }
  }

  /** "distribute left side" (resizer.cpp:718-723): cells `from` up to `to` become copies of one pixel. */
  method SpreadRun(blue: array<int>, green: array<int>, red: array<int>, b: int, g: int, r: int, from: int, to: int)
    requires blue != green && green != red && blue != red
    requires 0 <= from <= to <= blue.Length && to <= green.Length && to <= red.Length
    modifies blue, green, red
    ensures forall x :: from <= x < to ==> blue[x] == b && green[x] == g && red[x] == r
    ensures forall x :: 0 <= x < blue.Length && (x < from || to <= x) ==> blue[x] == old(blue[x])
    ensures forall x :: 0 <= x < green.Length && (x < from || to <= x) ==> green[x] == old(green[x])
    ensures forall x :: 0 <= x < red.Length && (x < from || to <= x) ==> red[x] == old(red[x])
  {
    var x := from;
    while x < to
      invariant from <= x <= to
      invariant forall x' :: from <= x' < x ==> blue[x'] == b && green[x'] == g && red[x'] == r
      invariant forall x' :: 0 <= x' < blue.Length && (x' < from || x <= x') ==> blue[x'] == old(blue[x'])
      invariant forall x' :: 0 <= x' < green.Length && (x' < from || x <= x') ==> green[x'] == old(green[x'])
      invariant forall x' :: 0 <= x' < red.Length && (x' < from || x <= x') ==> red[x'] == old(red[x'])
    {
      blue[x], green[x], red[x] := b, g, r;
      x := x + 1;
    }
  }

  /** Accumulator `a` holds channel `c` of the first `k - 1` strides, then copies of pixel `k - 1` up to `upto`. */
  ghost predicate Copied(a: seq<int>, line: seq<BgrPixel>, n: int, k: int, c: int, upto: int)
    requires Stretching(line, n) && 1 <= k < |line|
  {
    Start(n, |line|, k - 1) <= upto <= |a| &&
    (forall r :: 0 <= r < Start(n, |line|, k - 1) ==> a[r] == Stretch(line, n, k - 1, c)[r]) &&
    (forall r :: Start(n, |line|, k - 1) <= r < upto ==> a[r] == Channel(line[k - 1], c))
  }

  /**
   * The blend that ends a stride (resizer.cpp:724-743): pixel `x` weighted
   * `wl = i % div` and pixel `x + 1` weighted `wr = div - wl` make the cell
   * at the split.
   */
  method WidenBlend(s: array2<bv8>, y: int, color: seq<Bgr>, ghost row: seq<BgrPixel>, div: int, n: int,
                    blue: array<int>, green: array<int>, red: array<int>, x: int, i: int, split: int,
                    b0: int, g0: int, r0: int)
    requires blue != green && green != red && blue != red
    requires blue.Length == n && green.Length == n && red.Length == n
    requires RowIn(s, y, 24, color, row) && Stretching(row, n) && div == |row|
    requires 0 <= x && x + 1 < |row| && i == (x + 1) * n && split == Split(x + 1, n, |row|) && split < n
    requires b0 == Channel(row[x], 0) && g0 == Channel(row[x], 1) && r0 == Channel(row[x], 2)
    requires Copied(blue[..], row, n, x + 1, 0, split) && Copied(green[..], row, n, x + 1, 1, split)
    requires Copied(red[..], row, n, x + 1, 2, split)
    modifies blue, green, red
    ensures Spreads(blue[..], green[..], red[..], row, n, x + 1)
  {
    var wl := i % div;
    var wr := div - wl;
    var b1, g1, r1 := Fetch(s, y, 24, color, row, x + 1);
    assert wl == Frac(x + 1, n, |row|);
    assert (wl * b0 + wr * b1) / div == Blend(row, n, x + 1, 0);
    assert (wl * g0 + wr * g1) / div == Blend(row, n, x + 1, 1);
    assert (wl * r0 + wr * r1) / div == Blend(row, n, x + 1, 2);
    FilledStep(blue[..], row, n, x + 1, 0, (wl * b0 + wr * b1) / div);
    FilledStep(green[..], row, n, x + 1, 1, (wl * g0 + wr * g1) / div);
    FilledStep(red[..], row, n, x + 1, 2, (wl * r0 + wr * r1) / div);
    ghost var B, G, R := blue[..], green[..], red[..];
    blue[split] := (wl * b0 + wr * b1) / div;
    green[split] := (wl * g0 + wr * g1) / div;
    red[split] := (wl * r0 + wr * r1) / div;
    assert blue[..] == B[split := (wl * b0 + wr * b1) / div];
    assert green[..] == G[split := (wl * g0 + wr * g1) / div];
    assert red[..] == R[split := (wl * r0 + wr * r1) / div];
  }

  /**
   * One stride of a widened row (resizer.cpp:715-744), `x` the source pixel
   * it starts from: copies of pixel `x` up to the split, then the blend of
   * pixels `x` and `x + 1`.
   */
  method WidenStride(s: array2<bv8>, y: int, color: seq<Bgr>, ghost row: seq<BgrPixel>, div: int, n: int,
                     blue: array<int>, green: array<int>, red: array<int>, x: int, i: int, iOut: int)
      returns (iOut': int)
    requires blue != green && green != red && blue != red
    requires blue.Length == n && green.Length == n && red.Length == n
    requires RowIn(s, y, 24, color, row) && Stretching(row, n) && div == |row|
    requires 0 <= x && x + 1 < |row| && i == (x + 1) * n && iOut == Start(n, |row|, x)
    requires Spreads(blue[..], green[..], red[..], row, n, x)
    modifies blue, green, red
    ensures iOut' == Start(n, |row|, x + 1) && Spreads(blue[..], green[..], red[..], row, n, x + 1)
  {
    var split := i / div;
    SplitGrows(x, n, |row|);
    SplitBelow(x + 1, n, |row|);
    var b0, g0, r0 := Fetch(s, y, 24, color, row, x);
    SpreadRun(blue, green, red, b0, g0, r0, iOut, split);
    assert Copied(blue[..], row, n, x + 1, 0, split);
    assert Copied(green[..], row, n, x + 1, 1, split);
    assert Copied(red[..], row, n, x + 1, 2, split);
    WidenBlend(s, y, color, row, div, n, blue, green, red, x, i, split, b0, g0, r0);
    iOut' := split + 1;
  }

  /** The stride loop of one widened row (resizer.cpp:715-744). */
  method WidenRow(s: array2<bv8>, y: int, color: seq<Bgr>, ghost row: seq<BgrPixel>, div: int, n: int,
                  blue: array<int>, green: array<int>, red: array<int>)
    requires blue != green && green != red && blue != red
    requires blue.Length == n && green.Length == n && red.Length == n
    requires RowIn(s, y, 24, color, row) && Stretching(row, n) && div == |row|
    modifies blue, green, red
    ensures Spreads(blue[..], green[..], red[..], row, n, |row| - 1)
  {
    var iMax, iInc := div * n, n;
    var i, iOut := iInc, 0;
    var x := 0;
    while i < iMax
      invariant 0 <= x < div && i == (x + 1) * n && iOut == Start(n, div, x)
      invariant Spreads(blue[..], green[..], red[..], row, n, x)
    {
      ScaleOrder(x + 1, div, n);
      iOut := WidenStride(s, y, color, row, div, n, blue, green, red, x, i, iOut);
      NextMultiple(x + 1, n);
      i := i + iInc;
      x := x + 1;
    }
    ScaleOrder(x + 1, div, n);
  }

  /** Every row stretched to `n` cells, of which the first `n - n/w` are kept. */
  function WidenPicture(p: seq<seq<BgrPixel>>, w: nat, h: nat, n: int): (q: seq<seq<BgrPixel>>)
    requires IsMatrix(p, w, h) && 1 <= w <= n
    ensures IsMatrix(q, n - n / w, h)
  {
    WidenCovered(w, n);
    seq(h, y requires 0 <= y < h => Spread(p[y], n, n - n / w))
  }

  /** The kept cells of a row are among those the strides filled. */
  lemma SpreadKept(blue: array<int>, green: array<int>, red: array<int>, line: seq<BgrPixel>, n: int, r: int)
    requires Stretching(line, n) && Spreads(blue[..], green[..], red[..], line, n, |line| - 1)
    requires 0 <= r < n - n / |line|
    ensures r < blue.Length && r < green.Length && r < red.Length
    ensures BgrPixel(ToByte(blue[r]), ToByte(green[r]), ToByte(red[r])) == Stretched(line, n, r)
  {
    WidenCovered(|line|, n);
  }

  /** Wide rows: the first `rows` output rows hold the kept cells of their stretched source rows. */
  ghost predicate WideRows(d: array2<bv8>, p: seq<seq<BgrPixel>>, w: nat, h: nat, n: int, rows: int)
    requires IsMatrix(p, w, h) && 1 <= w <= n && rows <= h
    reads d
  {
    forall Y, X :: 0 <= Y < rows && 0 <= X < n - n / w ==> PixelAt(d, Y, X, Stretched(p[Y], n, X))
  }

  /** One pass of the row loop of the widener (resizer.cpp:702-758): the strides, then the write-back. */
  method WidenLine(s: array2<bv8>, color: seq<Bgr>, ghost p: seq<seq<BgrPixel>>, w: nat, h: nat, n: int,
                   d: array2<bv8>, blue: array<int>, green: array<int>, red: array<int>, y: int)
    requires blue != green && green != red && blue != red
    requires blue.Length == n && green.Length == n && red.Length == n
    requires s != d && 1 <= w <= n && Picture(s, 24, color, p, w, h)
    requires d.Length0 == h && 3 * (n - n / w) <= d.Length1
    requires 0 <= y < h && WideRows(d, p, w, h, n, y)
    modifies d, blue, green, red
    ensures WideRows(d, p, w, h, n, y + 1)
  {
    WidenCovered(w, n);
    var width := n - n / w;
    RowOf(s, 24, color, p, w, h, y);
    WidenRow(s, y, color, p[y], w, n, blue, green, red);
    label Before:
    StoreRow(d, y, blue, green, red, width);
    forall Y, X | 0 <= Y < y && 0 <= X < width
      ensures PixelAt(d, Y, X, Stretched(p[Y], n, X))
    {
      assert old@Before(PixelAt(d, Y, X, Stretched(p[Y], n, X)));
    }
    forall X | 0 <= X < width
      ensures PixelAt(d, y, X, Stretched(p[y], n, X))
    {
      SpreadKept(blue, green, red, p[y], n, X);
    }
  }

  /** The row loop of the widener (resizer.cpp:700-760). */
  method WidenRows(s: array2<bv8>, color: seq<Bgr>, ghost p: seq<seq<BgrPixel>>, w: nat, h: nat, n: int,
                   d: array2<bv8>, blue: array<int>, green: array<int>, red: array<int>)
    requires blue != green && green != red && blue != red
    requires blue.Length == n && green.Length == n && red.Length == n
    requires s != d && 1 <= w <= n && Picture(s, 24, color, p, w, h)
    requires d.Length0 == h && 3 * (n - n / w) <= d.Length1
    modifies d, blue, green, red
    ensures IsMatrix(p, w, h) && WideRows(d, p, w, h, n, h)
  {
    var y := 0;
    while y < h
      invariant 0 <= y <= h && WideRows(d, p, w, h, n, y)
    {
      WidenLine(s, color, p, w, h, n, d, blue, green, red, y);
      y := y + 1;
    }
  }

  /** The accumulators of width `n`, allocated (resizer.cpp:690-692), and the rows. */
  method WidenRaster(s: array2<bv8>, color: seq<Bgr>, ghost p: seq<seq<BgrPixel>>, w: nat, h: nat, n: int,
                     d: array2<bv8>)
    requires s != d && 1 <= w <= n && Picture(s, 24, color, p, w, h)
    requires d.Length0 == h && 3 * (n - n / w) <= d.Length1
    modifies d
    ensures IsMatrix(p, w, h)
    ensures Pixels24(Grid(d), n - n / w, h) == WidenPicture(p, w, h, n)
  {
    var blue, green, red := new int[n], new int[n], new int[n];
    WidenRows(s, color, p, w, h, n, d, blue, green, red);
    WidenHeld(d, p, w, h, n);
  }

  lemma WidenHeld(d: array2<bv8>, p: seq<seq<BgrPixel>>, w: nat, h: nat, n: int)
    requires IsMatrix(p, w, h) && 1 <= w <= n && d.Length0 == h && 3 * (n - n / w) <= d.Length1
    requires WideRows(d, p, w, h, n, h)
    ensures 0 <= n - n / w
    ensures Pixels24(Grid(d), n - n / w, h) == WidenPicture(p, w, h, n)
  {
    WidenCovered(w, n);
    var a, b := Pixels24(Grid(d), n - n / w, h), WidenPicture(p, w, h, n);
    forall Y | 0 <= Y < h
      ensures a[Y] == b[Y]
    {
      forall X | 0 <= X < n - n / w
        ensures a[Y][X] == b[Y][X]
      {
        assert PixelAt(d, Y, X, Stretched(p[Y], n, X));
      }
    }
  }

  /**
   * llimg_widen24bit (resizer.cpp:663-767): a source that is not 24-bit is
   * refused with -1 and the target left alone; otherwise the target is a
   * 24-bit image `n - n/w` pixels wide and as high as the source, each row
   * the source row stretched to `n` cells by linear blends, cut to that width.
   */
  method Widen(image: Llimg, n: int, reduced: Llimg) returns (rc: int)
    requires image != reduced
    requires image.header.bitsPerPixel == 24 ==> PixelsIn(image, 3) && 1 <= image.header.width <= n
    modifies reduced
    ensures image.header.bitsPerPixel != 24 ==> rc == -1 && unchanged(reduced)
    ensures image.header.bitsPerPixel == 24 ==>
      rc == 0 && fresh(reduced.data) && reduced.color == ZeroPalette() &&
      reduced.Laid(n - n / image.header.width, image.height, 24, LongAligned(3 * (n - n / image.header.width)))
    ensures image.header.bitsPerPixel == 24 ==>
      Pixels24(Grid(reduced.data), n - n / image.header.width, image.height) ==
        WidenPicture(Pixels24(Grid(image.data), image.header.width, image.height), image.header.width, image.height, n)
  {
    if image.header.bitsPerPixel != 24 {
      return -1;
    }
    var w, h, s := image.header.width, image.height, image.data;
    ghost var p := Pixels24(Grid(s), w, h);
    assert Picture(s, 24, image.color, p, w, h);
    var pad := n / w;
    WidenCovered(w, n);
    var width := n - pad;
    var ah := Abs(h);
    assert ah == h;
    LongAlignedBounds(3 * width);
    reduced.Allocate(width, ah, 24, LongAligned(3 * width));
    assert Picture(s, 24, image.color, p, w, h);
    WidenRaster(s, image.color, p, w, h, n, reduced.data);
    assert reduced.Laid(width, h, 24, LongAligned(3 * width));
    rc := 0;
  }

  // ---------------------------------------------------------------------
  // Heightening (resizer.cpp:776-1001)

  /** Rows past the last split of stretch `k` up to it copy the source pixel `k - 1`. */
  lemma StretchedCopy(line: seq<BgrPixel>, n: int, k: int, r: int)
    requires Stretching(line, n) && 1 <= k < |line|
    requires Start(n, |line|, k - 1) <= r < Split(k, n, |line|)
    ensures r < n && Stretched(line, n, r) == line[k - 1]
  {
    FullCopy(line, n, 0, k, r);
    FullCopy(line, n, 1, k, r);
    FullCopy(line, n, 2, k, r);
    ByteRoundTrip(line[k - 1].blue);
    ByteRoundTrip(line[k - 1].green);
    ByteRoundTrip(line[k - 1].red);
  }

  /** The cell at split `k` is the blend, each channel cast to a byte. */
  lemma StretchedBlend(line: seq<BgrPixel>, n: int, k: int)
    requires Stretching(line, n) && 1 <= k < |line|
    ensures 0 <= Split(k, n, |line|) < n
    ensures Stretched(line, n, Split(k, n, |line|)) ==
      BgrPixel(ToByte(Blend(line, n, k, 0)), ToByte(Blend(line, n, k, 1)), ToByte(Blend(line, n, k, 2)))
  {
    FullBlend(line, n, 0, k);
    FullBlend(line, n, 1, k);
    FullBlend(line, n, 2, k);
  }

  /** The cells no stride reaches copy the last pixel. */
  lemma StretchedTail(line: seq<BgrPixel>, n: int, r: int)
    requires Stretching(line, n) && Start(n, |line|, |line| - 1) <= r < n
    ensures Stretched(line, n, r) == line[|line| - 1]
  {
    FullTail(line, n, 0, r);
    FullTail(line, n, 1, r);
    FullTail(line, n, 2, r);
    ByteRoundTrip(line[|line| - 1].blue);
    ByteRoundTrip(line[|line| - 1].green);
    ByteRoundTrip(line[|line| - 1].red);
  }

  /**
   * "distribute tops" (resizer.cpp:827-836, 944-954): the first `count`
   * pixels of source row `yIn`, read directly or through the colour
   * table, become the pixels of output row `out`.
   */
  method CopyRow(s: array2<bv8>, yIn: int, depth: int, color: seq<Bgr>, ghost row: seq<BgrPixel>,
                 d: array2<bv8>, out: int, count: int)
    requires s != d && RowIn(s, yIn, depth, color, row) && 0 <= count <= |row|
    requires 0 <= out < d.Length0 && 3 * count <= d.Length1
    modifies d
    ensures forall x :: 0 <= x < count ==> PixelAt(d, out, x, row[x])
    ensures forall y', x' :: 0 <= y' < d.Length0 && 0 <= x' < d.Length1 && (y' != out || x' >= 3 * count) ==>
      d[y', x'] == old(d[y', x'])
  {
    var x := 0;
    while x < count
      invariant 0 <= x <= count
      invariant forall x' :: 0 <= x' < x ==> PixelAt(d, out, x', row[x'])
      invariant forall y', x' :: 0 <= y' < d.Length0 && 0 <= x' < d.Length1 && (y' != out || x' >= 3 * x) ==>
        d[y', x'] == old(d[y', x'])
    {
      var b, g, r := Fetch(s, yIn, depth, color, row, x);
      PutPixel(d, out, x, b as bv8, g as bv8, r as bv8);
      assert BgrPixel(b as bv8, g as bv8, r as bv8) == row[x];
      x := x + 1;
    }
  }

  /** Pixel `x` of row `y` takes the three channels; no other byte changes. */
  method PutPixel(d: array2<bv8>, y: int, x: int, b: bv8, g: bv8, r: bv8)
    requires 0 <= y < d.Length0 && 0 <= x && 3 * x + 2 < d.Length1
    modifies d
    ensures PixelAt(d, y, x, BgrPixel(b, g, r))
    ensures forall y', x' :: 0 <= y' < d.Length0 && 0 <= x' < d.Length1 && (y' != y || x' < 3 * x || 3 * x + 2 < x') ==>
      d[y', x'] == old(d[y', x'])
  {
    d[y, 3 * x] := b;
    d[y, 3 * x + 1] := g;
    d[y, 3 * x + 2] := r;
  }

  /** The top half of a blend (resizer.cpp:837-848, 955-967): each accumulator takes `wt` times the top pixel. */
  method WeighTop(s: array2<bv8>, yIn: int, depth: int, color: seq<Bgr>, ghost top: seq<BgrPixel>, wt: int,
                  blue: array<int>, green: array<int>, red: array<int>, count: int)
    requires blue != green && green != red && blue != red
    requires RowIn(s, yIn, depth, color, top) && 0 <= count <= |top|
    requires count <= blue.Length && count <= green.Length && count <= red.Length
    modifies blue, green, red
    ensures forall x :: 0 <= x < count ==>
      blue[x] == wt * Channel(top[x], 0) && green[x] == wt * Channel(top[x], 1) && red[x] == wt * Channel(top[x], 2)
  {
    var x := 0;
    while x < count
      invariant 0 <= x <= count
      invariant forall x' :: 0 <= x' < x ==>
        blue[x'] == wt * Channel(top[x'], 0) && green[x'] == wt * Channel(top[x'], 1) && red[x'] == wt * Channel(top[x'], 2)
    {
      var b, g, r := Fetch(s, yIn, depth, color, top, x);
      blue[x], green[x], red[x] := wt * b, wt * g, wt * r;
      x := x + 1;
    }
  }

  /**
   * The bottom half (resizer.cpp:849-861, 968-981): each accumulator adds
   * `wb` times the bottom pixel and is divided by `div`.
   */
  method AddBottom(s: array2<bv8>, yIn: int, depth: int, color: seq<Bgr>, ghost top: seq<BgrPixel>,
                   ghost bottom: seq<BgrPixel>, wt: int, wb: int, div: int,
                   blue: array<int>, green: array<int>, red: array<int>, count: int)
    requires blue != green && green != red && blue != red && div >= 1
    requires RowIn(s, yIn, depth, color, bottom) && 0 <= count <= |bottom| && count <= |top|
    requires count <= blue.Length && count <= green.Length && count <= red.Length
    requires forall x :: 0 <= x < count ==>
      blue[x] == wt * Channel(top[x], 0) && green[x] == wt * Channel(top[x], 1) && red[x] == wt * Channel(top[x], 2)
    modifies blue, green, red
    ensures forall x :: 0 <= x < count ==>
      blue[x] == (wt * Channel(top[x], 0) + wb * Channel(bottom[x], 0)) / div &&
      green[x] == (wt * Channel(top[x], 1) + wb * Channel(bottom[x], 1)) / div &&
      red[x] == (wt * Channel(top[x], 2) + wb * Channel(bottom[x], 2)) / div
  {
    var x := 0;
    while x < count
      invariant 0 <= x <= count
      invariant forall x' :: 0 <= x' < x ==>
        blue[x'] == (wt * Channel(top[x'], 0) + wb * Channel(bottom[x'], 0)) / div &&
        green[x'] == (wt * Channel(top[x'], 1) + wb * Channel(bottom[x'], 1)) / div &&
        red[x'] == (wt * Channel(top[x'], 2) + wb * Channel(bottom[x'], 2)) / div
      invariant forall x' :: x <= x' < count ==>
        blue[x'] == wt * Channel(top[x'], 0) && green[x'] == wt * Channel(top[x'], 1) && red[x'] == wt * Channel(top[x'], 2)
    {
      var b, g, r := Fetch(s, yIn, depth, color, bottom, x);
      var nb, ng, nr := (blue[x] + wb * b) / div, (green[x] + wb * g) / div, (red[x] + wb * r) / div;
      blue[x], green[x], red[x] := nb, ng, nr;
      x := x + 1;
    }
  }

  /** Tall rows: the first `rows` output rows hold the first `cols` columns stretched to `n` cells. */
  ghost predicate TallRows(d: array2<bv8>, q: seq<seq<BgrPixel>>, w: nat, cols: int, h: nat, n: int, rows: int)
    requires IsMatrix(q, h, w) && 0 <= cols <= w && 1 <= h <= n
    reads d
  {
    forall r, X :: 0 <= r < rows && 0 <= X < cols && r < n ==> PixelAt(d, r, X, Stretched(q[X], n, r))
  }

  /** One copied row: output row `out` is source row `yIn`, as the stretched columns want it. */
  method CopyTall(s: array2<bv8>, depth: int, color: seq<Bgr>, ghost p: seq<seq<BgrPixel>>,
                  ghost q: seq<seq<BgrPixel>>, w: nat, cols: int, h: nat, n: int, d: array2<bv8>, yIn: int, out: int)
    requires s != d && 1 <= h <= n && Picture(s, depth, color, p, w, h) && ColumnsOf(q, p, w, h)
    requires 0 <= cols <= w && d.Length0 == n && 3 * cols <= d.Length1
    requires 0 <= yIn < h && 0 <= out < n
    requires forall X :: 0 <= X < cols ==> Stretched(q[X], n, out) == q[X][yIn]
    requires TallRows(d, q, w, cols, h, n, out)
    modifies d
    ensures TallRows(d, q, w, cols, h, n, out + 1)
    ensures forall y', x' :: 0 <= y' < d.Length0 && 0 <= x' < d.Length1 && y' != out ==> d[y', x'] == old(d[y', x'])
  {
    RowOf(s, depth, color, p, w, h, yIn);
    label Before:
    CopyRow(s, yIn, depth, color, p[yIn], d, out, cols);
    forall r, X | 0 <= r < out && 0 <= X < cols
      ensures PixelAt(d, r, X, Stretched(q[X], n, r))
    {
      assert old@Before(PixelAt(d, r, X, Stretched(q[X], n, r)));
    }
    forall X | 0 <= X < cols
      ensures PixelAt(d, out, X, Stretched(q[X], n, out))
    {
      assert q[X][yIn] == p[yIn][X];
    }
  }

  /** The copies of one stride (resizer.cpp:827-836, 944-954): rows up to the split copy source row `iIn`. */
  method TallCopies(s: array2<bv8>, depth: int, color: seq<Bgr>, ghost p: seq<seq<BgrPixel>>,
                    ghost q: seq<seq<BgrPixel>>, w: nat, cols: int, h: nat, n: int, d: array2<bv8>,
                    iIn: int, iOut: int, split: int)
    requires s != d && 1 <= h <= n && Picture(s, depth, color, p, w, h) && ColumnsOf(q, p, w, h)
    requires 0 <= cols <= w && d.Length0 == n && 3 * cols <= d.Length1
    requires 0 <= iIn && iIn + 1 < h && iOut == Start(n, h, iIn) && split == Split(iIn + 1, n, h)
    requires TallRows(d, q, w, cols, h, n, iOut)
    modifies d
    ensures TallRows(d, q, w, cols, h, n, split)
    ensures forall y', x' :: 0 <= y' < d.Length0 && 0 <= x' < d.Length1 && (y' < iOut || y' >= split) ==>
      d[y', x'] == old(d[y', x'])
  {
    SplitGrows(iIn, n, h);
    SplitBelow(iIn + 1, n, h);
    var out := iOut;
    while out < split
      invariant iOut <= out <= split && TallRows(d, q, w, cols, h, n, out)
      invariant forall y', x' :: 0 <= y' < d.Length0 && 0 <= x' < d.Length1 && (y' < iOut || y' >= out) ==>
        d[y', x'] == old(d[y', x'])
    {
      forall X | 0 <= X < cols
        ensures Stretched(q[X], n, out) == q[X][iIn]
      {
        StretchedCopy(q[X], n, iIn + 1, out);
      }
      CopyTall(s, depth, color, p, q, w, cols, h, n, d, iIn, out);
      out := out + 1;
    }
  }

  /** The first `cols` accumulators, cast to bytes, are the cells at split `k` of the columns `q`. */
  ghost predicate TallCellsHold(blue: seq<int>, green: seq<int>, red: seq<int>, q: seq<seq<BgrPixel>>,
                                w: nat, cols: int, h: nat, n: int, k: int)
    requires IsMatrix(q, h, w) && 0 <= cols <= w && 1 <= h <= n && 1 <= k < h
    requires cols <= |blue| && cols <= |green| && cols <= |red|
  {
    0 <= Split(k, n, h) < n &&
    forall x :: 0 <= x < cols ==>
      BgrPixel(ToByte(blue[x]), ToByte(green[x]), ToByte(red[x])) == Stretched(q[x], n, Split(k, n, h))
  }

  /** Accumulators holding the blends of rows `k - 1` and `k` hold the stretched columns at split `k`. */
  lemma TallCells(blue: seq<int>, green: seq<int>, red: seq<int>, p: seq<seq<BgrPixel>>, q: seq<seq<BgrPixel>>,
                  w: nat, cols: int, h: nat, n: int, k: int, top: seq<BgrPixel>, bottom: seq<BgrPixel>, wt: int, wb: int)
    requires 1 <= h <= n && ColumnsOf(q, p, w, h) && 0 <= cols <= w && 1 <= k < h
    requires top == p[k - 1] && bottom == p[k] && wt == Frac(k, n, h) && wb == h - wt
    requires cols <= |blue| && cols <= |green| && cols <= |red|
    requires forall x :: 0 <= x < cols ==>
      blue[x] == (wt * Channel(top[x], 0) + wb * Channel(bottom[x], 0)) / h &&
      green[x] == (wt * Channel(top[x], 1) + wb * Channel(bottom[x], 1)) / h &&
      red[x] == (wt * Channel(top[x], 2) + wb * Channel(bottom[x], 2)) / h
    ensures TallCellsHold(blue, green, red, q, w, cols, h, n, k)
  {
    SplitBelow(k, n, h);
    forall x | 0 <= x < cols
      ensures BgrPixel(ToByte(blue[x]), ToByte(green[x]), ToByte(red[x])) == Stretched(q[x], n, Split(k, n, h))
    {
      TallCell(q[x], n, k, p[k - 1][x], p[k][x], blue[x], green[x], red[x]);
    }
  }

  /** One cell of `TallCells`: the blend of `top` and `bottom` at split `k` of `line`. */
  lemma TallCell(line: seq<BgrPixel>, n: int, k: int, top: BgrPixel, bottom: BgrPixel, b: int, g: int, r: int)
    requires Stretching(line, n) && 1 <= k < |line| && line[k - 1] == top && line[k] == bottom
    requires b == (Frac(k, n, |line|) * Channel(top, 0) + (|line| - Frac(k, n, |line|)) * Channel(bottom, 0)) / |line|
    requires g == (Frac(k, n, |line|) * Channel(top, 1) + (|line| - Frac(k, n, |line|)) * Channel(bottom, 1)) / |line|
    requires r == (Frac(k, n, |line|) * Channel(top, 2) + (|line| - Frac(k, n, |line|)) * Channel(bottom, 2)) / |line|
    ensures 0 <= Split(k, n, |line|) < n
    ensures BgrPixel(ToByte(b), ToByte(g), ToByte(r)) == Stretched(line, n, Split(k, n, |line|))
  {
    StretchedBlend(line, n, k);
  }

  /**
   * The accumulators of one stride (resizer.cpp:837-861, 955-981): source
   * rows `iIn` and `iIn + 1` weighted `wt` and `wb`, divided by `div`.
   */
  method TallAccumulate(s: array2<bv8>, depth: int, color: seq<Bgr>, ghost p: seq<seq<BgrPixel>>,
                        ghost q: seq<seq<BgrPixel>>, w: nat, cols: int, h: nat, n: int,
                        blue: array<int>, green: array<int>, red: array<int>, iIn: int, wt: int, wb: int)
    requires blue != green && green != red && blue != red
    requires blue.Length == w && green.Length == w && red.Length == w
    requires 1 <= h <= n && ColumnsOf(q, p, w, h) && 0 <= cols <= w
    requires 0 <= iIn && iIn + 1 < h && wt == Frac(iIn + 1, n, h) && wb == h - wt
    requires RowIn(s, iIn, depth, color, p[iIn]) && RowIn(s, iIn + 1, depth, color, p[iIn + 1])
    modifies blue, green, red
    ensures TallCellsHold(blue[..], green[..], red[..], q, w, cols, h, n, iIn + 1)
  {
    WeighTop(s, iIn, depth, color, p[iIn], wt, blue, green, red, w);
    AddBottom(s, iIn + 1, depth, color, p[iIn], p[iIn + 1], wt, wb, h, blue, green, red, w);
    TallCells(blue[..], green[..], red[..], p, q, w, cols, h, n, iIn + 1, p[iIn], p[iIn + 1], wt, wb);
  }

  /**
   * The blended row of one stride (resizer.cpp:837-872, 955-992): the
   * weights are `wt = i % div` and `wb = div - wt`; the row at the split
   * takes the accumulators.
   */
  method TallBlend(s: array2<bv8>, depth: int, color: seq<Bgr>, ghost p: seq<seq<BgrPixel>>,
                   ghost q: seq<seq<BgrPixel>>, w: nat, cols: int, h: nat, n: int, d: array2<bv8>,
                   blue: array<int>, green: array<int>, red: array<int>, iIn: int, i: int, split: int)
    requires blue != green && green != red && blue != red
    requires blue.Length == w && green.Length == w && red.Length == w
    requires s != d && 1 <= h <= n && ColumnsOf(q, p, w, h)
    requires 0 <= cols <= w && d.Length0 == n && 3 * cols <= d.Length1
    requires 0 <= iIn && iIn + 1 < h && i == (iIn + 1) * n && split == Split(iIn + 1, n, h)
    requires RowIn(s, iIn, depth, color, p[iIn]) && RowIn(s, iIn + 1, depth, color, p[iIn + 1])
    requires TallRows(d, q, w, cols, h, n, split)
    modifies d, blue, green, red
    ensures TallRows(d, q, w, cols, h, n, split + 1)
    ensures forall y', x' :: 0 <= y' < d.Length0 && 0 <= x' < d.Length1 && y' != split ==> d[y', x'] == old(d[y', x'])
  {
    SplitBelow(iIn + 1, n, h);
    var wt := i % h;
    var wb := h - wt;
    assert wt == Frac(iIn + 1, n, h);
    TallAccumulate(s, depth, color, p, q, w, cols, h, n, blue, green, red, iIn, wt, wb);
    label Before:
    StoreRow(d, split, blue, green, red, cols);
    forall r, X | 0 <= r < split && 0 <= X < cols
      ensures PixelAt(d, r, X, Stretched(q[X], n, r))
    {
      assert old@Before(PixelAt(d, r, X, Stretched(q[X], n, r)));
    }
  }

  /** One stride of the heighteners (resizer.cpp:823-873, 940-993). */
  method TallStride(s: array2<bv8>, depth: int, color: seq<Bgr>, ghost p: seq<seq<BgrPixel>>,
                    ghost q: seq<seq<BgrPixel>>, w: nat, cols: int, h: nat, n: int, d: array2<bv8>,
                    blue: array<int>, green: array<int>, red: array<int>, iIn: int, i: int, iOut: int)
      returns (iOut': int)
    requires blue != green && green != red && blue != red
    requires blue.Length == w && green.Length == w && red.Length == w
    requires s != d && 1 <= h <= n && Picture(s, depth, color, p, w, h) && ColumnsOf(q, p, w, h)
    requires 0 <= cols <= w && d.Length0 == n && 3 * cols <= d.Length1
    requires 0 <= iIn && iIn + 1 < h && i == (iIn + 1) * n && iOut == Start(n, h, iIn)
    requires TallRows(d, q, w, cols, h, n, iOut)
    modifies d, blue, green, red
    ensures iOut' == Start(n, h, iIn + 1) && TallRows(d, q, w, cols, h, n, iOut')
    ensures forall y', x' :: 0 <= y' < d.Length0 && 0 <= x' < d.Length1 && (y' < iOut || y' >= iOut') ==>
      d[y', x'] == old(d[y', x'])
  {
    var split := i / h;
    SplitGrows(iIn, n, h);
    TallCopies(s, depth, color, p, q, w, cols, h, n, d, iIn, iOut, split);
    RowOf(s, depth, color, p, w, h, iIn);
    RowOf(s, depth, color, p, w, h, iIn + 1);
    label Copied:
    TallBlend(s, depth, color, p, q, w, cols, h, n, d, blue, green, red, iIn, i, split);
    iOut' := split + 1;
    forall y', x' | 0 <= y' < d.Length0 && 0 <= x' < d.Length1 && (y' < iOut || y' >= iOut')
      ensures d[y', x'] == old(d[y', x'])
    {
      assert d[y', x'] == old@Copied(d[y', x']);
    }
  }

  /**
   * The stride loop of the heighteners (resizer.cpp:823-873, 940-993), as
   * written: stride `k` copies source row `k - 1` into the rows up to its
   * split and blends rows `k - 1` and `k` into the row at the split. No
   * stride reaches the rows from the last split on: they keep whatever the
   * allocation left in them.
   */
  method TallStrides(s: array2<bv8>, depth: int, color: seq<Bgr>, ghost p: seq<seq<BgrPixel>>,
                     ghost q: seq<seq<BgrPixel>>, w: nat, cols: int, h: nat, n: int, d: array2<bv8>,
                     blue: array<int>, green: array<int>, red: array<int>)
    requires blue != green && green != red && blue != red
    requires blue.Length == w && green.Length == w && red.Length == w
    requires s != d && 1 <= h <= n && Picture(s, depth, color, p, w, h) && ColumnsOf(q, p, w, h)
    requires 0 <= cols <= w && d.Length0 == n && 3 * cols <= d.Length1
    modifies d, blue, green, red
    ensures TallRows(d, q, w, cols, h, n, Start(n, h, h - 1))
    ensures forall y', x' :: 0 <= y' < d.Length0 && Start(n, h, h - 1) <= y' && 0 <= x' < d.Length1 ==>
      d[y', x'] == old(d[y', x'])
  {
    var iMax, iInc := h * n, n;
    var i, iIn, iOut := iInc, 0, 0;
    while i < iMax
      invariant 0 <= iIn < h && i == (iIn + 1) * n && iOut == Start(n, h, iIn)
      invariant TallRows(d, q, w, cols, h, n, iOut)
      invariant forall y', x' :: 0 <= y' < d.Length0 && iOut <= y' && 0 <= x' < d.Length1 ==> d[y', x'] == old(d[y', x'])
      decreases iMax - i
    {
      ScaleOrder(iIn + 1, h, n);
      SplitGrows(iIn, n, h);
      label Stride:
      var iOut' := TallStride(s, depth, color, p, q, w, cols, h, n, d, blue, green, red, iIn, i, iOut);
      forall y', x' | 0 <= y' < d.Length0 && iOut' <= y' && 0 <= x' < d.Length1
        ensures d[y', x'] == old(d[y', x'])
      {
        assert d[y', x'] == old@Stride(d[y', x']);
      }
      iOut := iOut';
      NextMultiple(iIn + 1, n);
      i := i + iInc;
      iIn := iIn + 1;
    }
    ScaleOrder(iIn + 1, h, n);
  }

  /** The accumulators, cleared (resizer.cpp:808-821, 923-936), and the strides. */
  method TallRaster(s: array2<bv8>, depth: int, color: seq<Bgr>, ghost p: seq<seq<BgrPixel>>,
                    ghost q: seq<seq<BgrPixel>>, w: nat, cols: int, h: nat, n: int, d: array2<bv8>)
    requires s != d && 1 <= h <= n && Picture(s, depth, color, p, w, h) && ColumnsOf(q, p, w, h)
    requires 0 <= cols <= w && d.Length0 == n && 3 * cols <= d.Length1
    modifies d
    ensures TallRows(d, q, w, cols, h, n, Start(n, h, h - 1))
    ensures forall y', x' :: 0 <= y' < d.Length0 && Start(n, h, h - 1) <= y' && 0 <= x' < d.Length1 ==>
      d[y', x'] == old(d[y', x'])
  {
    var red, blue, green := new int[w], new int[w], new int[w];
    Clear(red);
    Clear(blue);
    Clear(green);
    TallStrides(s, depth, color, p, q, w, cols, h, n, d, blue, green, red);
  }

  /**
   * The rows the strides leave out, filled with copies of the last source
   * row, which is what every cell past the last split of a stretched line
   * holds.
   */
  method TallTail(s: array2<bv8>, depth: int, color: seq<Bgr>, ghost p: seq<seq<BgrPixel>>,
                  ghost q: seq<seq<BgrPixel>>, w: nat, cols: int, h: nat, n: int, d: array2<bv8>)
    requires s != d && 1 <= h <= n && Picture(s, depth, color, p, w, h) && ColumnsOf(q, p, w, h)
    requires 0 <= cols <= w && d.Length0 == n && 3 * cols <= d.Length1
    requires TallRows(d, q, w, cols, h, n, Start(n, h, h - 1))
    modifies d
    ensures TallRows(d, q, w, cols, h, n, n - 1)
  {
    if h > 1 {
      SplitBelow(h - 1, n, h);
    }
    var out := Start(n, h, h - 1);
    while out < n - 1
      invariant Start(n, h, h - 1) <= out && TallRows(d, q, w, cols, h, n, out)
    {
      forall X | 0 <= X < cols
        ensures Stretched(q[X], n, out) == q[X][h - 1]
      {
        StretchedTail(q[X], n, out);
      }
      CopyTall(s, depth, color, p, q, w, cols, h, n, d, h - 1, out);
      out := out + 1;
    }
  }

  /**
   * Heightening stretches every column: `n - 1` rows of the first `cols`
   * columns, each column the source column stretched to `n` cells.
   */
  function HeightenPicture(p: seq<seq<BgrPixel>>, w: nat, h: nat, n: int, cols: nat): (r: seq<seq<BgrPixel>>)
    requires IsMatrix(p, w, h) && 1 <= h <= n && cols <= w
    ensures IsMatrix(r, cols, n - 1)
  {
    var q := Transposed(p, w, h);
    Transposed(seq(cols, X requires 0 <= X < cols => Spread(q[X], n, n - 1)), n - 1, cols)
  }

  lemma HeightenHeld(d: array2<bv8>, p: seq<seq<BgrPixel>>, q: seq<seq<BgrPixel>>, w: nat, cols: nat, h: nat, n: int)
    requires IsMatrix(p, w, h) && 1 <= h <= n && cols <= w && d.Length0 == n && 3 * cols <= d.Length1
    requires q == Transposed(p, w, h) && TallRows(d, q, w, cols, h, n, n - 1)
    ensures Pixels24(Grid(d), cols, n - 1) == HeightenPicture(p, w, h, n, cols)
  {
    var a, b := Pixels24(Grid(d), cols, n - 1), HeightenPicture(p, w, h, n, cols);
    var t := seq(cols, X requires 0 <= X < cols => Spread(q[X], n, n - 1));
    forall Y | 0 <= Y < n - 1
      ensures a[Y] == b[Y]
    {
      forall X | 0 <= X < cols
        ensures a[Y][X] == b[Y][X]
      {
        assert PixelAt(d, Y, X, Stretched(q[X], n, Y));
        assert b[Y][X] == t[X][Y] == Spread(q[X], n, n - 1)[Y];
      }
    }
  }

  /** The width of a heightened image: the 8-bit heightener drops the last column. */
  function TallWidth(w: int, depth: int): int
  {
    if depth == 8 then w - 1 else w
  }

  /**
   * llimg_heighten24bit (resizer.cpp:776-881) and llimg_heighten8bit
   * (resizer.cpp:891-1001), corrected: a source of another depth is refused
   * with -1 and the target left alone; otherwise the target is a 24-bit
   * image `n - 1` rows high over `n` allocated rows, as wide as the source
   * (one column less from 8 bits), each column the source column
   * stretched to `n` cells. The rows past the last split are filled with
   * the last source row.
   */
  method Heighten(image: Llimg, n: int, reduced: Llimg, depth: int) returns (rc: int)
    requires depth == 8 || depth == 24
    requires image != reduced
    requires image.header.bitsPerPixel == depth ==>
      PixelsIn(image, depth / 8) && (depth == 8 ==> |image.color| == 256) && image.height <= n
    modifies reduced
    ensures image.header.bitsPerPixel != depth ==> rc == -1 && unchanged(reduced)
    ensures image.header.bitsPerPixel == depth ==>
      rc == 0 && fresh(reduced.data) && reduced.color == ZeroPalette() &&
      reduced.LaidOver(TallWidth(image.header.width, depth), n - 1, n, 24,
                       LongAligned(3 * TallWidth(image.header.width, depth)))
    ensures image.header.bitsPerPixel == depth ==> 3 * Max(0, TallWidth(image.header.width, depth)) <= reduced.data.Length1
    ensures image.header.bitsPerPixel == depth && image.height >= 1 ==>
      Pixels24(Grid(reduced.data), Max(0, TallWidth(image.header.width, depth)), n - 1) ==
        HeightenPicture(if depth == 24 then Pixels24(Grid(image.data), image.header.width, image.height)
                        else Paletted(image.color, Pixels8(Grid(image.data), image.header.width, image.height),
                                      image.header.width, image.height),
                        image.header.width, image.height, n, Max(0, TallWidth(image.header.width, depth)))
  {
    if image.header.bitsPerPixel != depth {
      return -1;
    }
    var w, h, s := image.header.width, image.height, image.data;
    ghost var p := if depth == 24 then Pixels24(Grid(s), w, h)
                   else Paletted(image.color, Pixels8(Grid(s), w, h), w, h);
    assert Picture(s, depth, image.color, p, w, h);
    var width := TallWidth(w, depth);
    var cols := if width < 0 then 0 else width;
    LongAlignedBounds(3 * cols);
    assert LongAligned(3 * width) == LongAligned(3 * cols);
    reduced.AllocateOver(width, n - 1, n, 24, LongAligned(3 * width));
    if h >= 1 {
      ghost var q := Transposed(p, w, h);
      TallRaster(s, depth, image.color, p, q, w, cols, h, n, reduced.data);
      TallTail(s, depth, image.color, p, q, w, cols, h, n, reduced.data);
      HeightenHeld(reduced.data, p, q, w, cols, h, n);
    }
    rc := 0;
  }

  // ---------------------------------------------------------------------
  // Resizing (resizer.cpp:1012-1046)

  /** The width after the vertical pass: shortening keeps it, heightening may drop a column. */
  function MidWidth(w: int, depth: int, h: int, height: int): int
  {
    if height < h then w else TallWidth(w, depth)
  }

  /** The picture of a record as the passes read it at `depth`: directly, or through the colour table. */
  ghost function SourcePicture(image: Llimg, depth: int): (p: seq<seq<BgrPixel>>)
    reads image, image.data
    requires depth == 8 || depth == 24
    requires PixelsIn(image, depth / 8) && (depth == 8 ==> |image.color| == 256)
    ensures IsMatrix(p, image.header.width, image.height)
  {
    if depth == 8 then Paletted(image.color, Pixels8(Grid(image.data), image.header.width, image.height),
                                image.header.width, image.height)
    else Pixels24(Grid(image.data), image.header.width, image.height)
  }

  /** The vertical pass on pictures: shorter or taller, `height - 1` rows of `MidWidth` pixels. */
  function VerticalPicture(p: seq<seq<BgrPixel>>, w: nat, h: nat, depth: int, height: int): (r: seq<seq<BgrPixel>>)
    requires IsMatrix(p, w, h) && 1 <= h && 1 <= height && MidWidth(w, depth, h, height) >= 0
    ensures IsMatrix(r, MidWidth(w, depth, h, height), height - 1)
  {
    if height < h then ShortenPicture(p, w, h, height)
    else HeightenPicture(p, w, h, height, MidWidth(w, depth, h, height))
  }

  /** The horizontal pass on pictures: narrower when `width` is below `w`, the source's width, else wider. */
  function HorizontalPicture(p: seq<seq<BgrPixel>>, m: nat, rows: nat, w: int, width: int): seq<seq<BgrPixel>>
    requires IsMatrix(p, m, rows) && (width < w ==> 1 <= width <= m) && (width >= w ==> 1 <= m <= width)
  {
    if width < w then NarrowPicture(p, m, rows, width) else WidenPicture(p, m, rows, width)
  }

  /**
   * The picture llimg_resize makes of a `w` by `h` picture read at
   * `depth`: first shortened or heightened to `height` cells, then
   * narrowed or widened to `width` cells.
   */
  function ResizedPicture(p: seq<seq<BgrPixel>>, w: nat, h: nat, depth: int, width: int, height: int)
      : seq<seq<BgrPixel>>
    requires IsMatrix(p, w, h) && 1 <= h && 1 <= width && 1 <= height
    requires width < w ==> width <= MidWidth(w, depth, h, height)
    requires width >= w ==> MidWidth(w, depth, h, height) >= 1
  {
    var m := MidWidth(w, depth, h, height);
    HorizontalPicture(VerticalPicture(p, w, h, depth, height), m, height - 1, w, width)
  }

  /** The vertical pass of llimg_resize (resizer.cpp:1024-1035): shorten when fewer rows are asked for, else heighten. */
  method Vertical(image: Llimg, height: int, temp: Llimg, depth: int) returns (rc: int)
    requires depth == 8 || depth == 24
    requires image != temp && 1 <= height
    requires image.header.bitsPerPixel == depth ==>
      PixelsIn(image, depth / 8) && (depth == 8 ==> |image.color| == 256)
    modifies temp
    ensures image.header.bitsPerPixel != depth ==> rc == -1 && unchanged(temp)
    ensures image.header.bitsPerPixel == depth ==>
      rc == 0 && fresh(temp.data) && temp.header.bitsPerPixel == 24 && temp.color == ZeroPalette() &&
      temp.header.width == MidWidth(image.header.width, depth, image.height, height) &&
      temp.height == height - 1
    ensures image.header.bitsPerPixel == depth && temp.header.width >= 0 ==> PixelsIn(temp, 3)
    ensures image.header.bitsPerPixel == depth && image.height >= 1 && temp.header.width >= 0 ==>
      Pixels24(Grid(temp.data), temp.header.width, temp.height) ==
        VerticalPicture(SourcePicture(image, depth), image.header.width, image.height, depth, height)
  {
    if height < image.height {
      rc := Shorten(image, height, temp, depth);
    } else {
      rc := Heighten(image, height, temp, depth);
    }
    if image.header.bitsPerPixel == depth && temp.header.width >= 0 {
      LongAlignedBounds(3 * temp.header.width);
    }
  }

  /** The horizontal pass of llimg_resize (resizer.cpp:1036-1041): narrow when `width` is below the source's width `w`, else widen. */
  method Horizontal(temp: Llimg, width: int, resized: Llimg, w: int) returns (rc: int)
    requires temp != resized
    requires temp.header.bitsPerPixel == 24 ==>
      PixelsIn(temp, 3) && (width < w ==> 1 <= width <= temp.header.width) &&
      (width >= w ==> 1 <= temp.header.width <= width)
    modifies resized
    ensures temp.header.bitsPerPixel != 24 ==> rc == -1 && unchanged(resized)
    ensures temp.header.bitsPerPixel == 24 ==>
      var outW := if width < w then width - 1 else width - width / temp.header.width;
      rc == 0 && fresh(resized.data) && resized.color == ZeroPalette() &&
      resized.Laid(outW, temp.height, 24, LongAligned(3 * outW))
    ensures temp.header.bitsPerPixel == 24 ==>
      var outW := if width < w then width - 1 else width - width / temp.header.width;
      0 <= outW && Covers(Grid(resized.data), 3 * outW, temp.height) &&
      Pixels24(Grid(resized.data), outW, temp.height) ==
        HorizontalPicture(Pixels24(Grid(temp.data), temp.header.width, temp.height),
                          temp.header.width, temp.height, w, width)
  {
    if width < w {
      rc := Narrow(temp, width, resized, 24);
      if temp.header.bitsPerPixel == 24 {
        LongAlignedBounds(3 * (width - 1));
      }
    } else {
      rc := Widen(temp, width, resized);
      if temp.header.bitsPerPixel == 24 {
        WidenCovered(temp.header.width, width);
        LongAlignedBounds(3 * (width - width / temp.header.width));
      }
    }
  }

  /**
   * Where llimg_resize has no defined outcome: it widens a picture that the
   * vertical pass left less than one pixel wide. A width of 0 (an empty
   * source, or a 1-wide 8-bit one heightened) is divided by at
   * resizer.cpp:675; a width of -1 (an empty 8-bit source heightened)
   * is laid out as rows of negative length.
   */
  predicate Stalls(w: int, depth: int, h: int, width: int, height: int)
  {
    (depth == 8 || depth == 24) && width >= w && MidWidth(w, depth, h, height) < 1
  }

  /**
   * llimg_resize (resizer.cpp:1012-1046): no image gives no image;
   * otherwise a fresh record, made by a vertical pass into a temporary
   * record (shorter or taller; 8-bit pixels are read through the colour
   * table, every other depth goes to the 24-bit passes) and a horizontal
   * 24-bit pass from it (narrower or wider), the temporary record then
   * released. A depth neither pass takes leaves the result zeroed. Where
   * the source Stalls the model gives no image either.
   */
  method Resize(image: Llimg?, width: int, height: int) returns (resized: Llimg?)
    requires 1 <= width && 1 <= height
    requires image != null && (image.header.bitsPerPixel == 8 || image.header.bitsPerPixel == 24) ==>
      PixelsIn(image, image.header.bitsPerPixel / 8) &&
      (image.header.bitsPerPixel == 8 ==> |image.color| == 256)
    ensures resized == null <==>
      image == null || Stalls(image.header.width, image.header.bitsPerPixel, image.height, width, height)
    ensures resized != null ==> fresh(resized)
    ensures image != null && image.header.bitsPerPixel != 8 && image.header.bitsPerPixel != 24 ==> resized.Zeroed()
    ensures resized != null && (image.header.bitsPerPixel == 8 || image.header.bitsPerPixel == 24) ==>
      var outW := if width < image.header.width then width - 1
                  else width - width / MidWidth(image.header.width, image.header.bitsPerPixel, image.height, height);
      resized.Laid(outW, height - 1, 24, LongAligned(3 * outW)) && resized.color == ZeroPalette()
    ensures resized != null && (image.header.bitsPerPixel == 8 || image.header.bitsPerPixel == 24) &&
            image.height >= 1 ==>
      var outW := if width < image.header.width then width - 1
                  else width - width / MidWidth(image.header.width, image.header.bitsPerPixel, image.height, height);
      0 <= outW && Covers(Grid(resized.data), 3 * outW, height - 1) &&
      Pixels24(Grid(resized.data), outW, height - 1) ==
        ResizedPicture(SourcePicture(image, image.header.bitsPerPixel), image.header.width, image.height,
                       image.header.bitsPerPixel, width, height)
  {
    if image == null || Stalls(image.header.width, image.header.bitsPerPixel, image.height, width, height) {
      return null;
    }
    resized := new Llimg();
    var temp := new Llimg();
    var depth := if image.header.bitsPerPixel == 8 then 8 else 24;
    var w := image.header.width;
    var rc := Vertical(image, height, temp, depth);
    rc := Horizontal(temp, width, resized, w);
    var freed := Release(temp);
  }

  /**
   * llimg_lock_aspect (resizer.cpp:1052-1067): with no image the box is
   * left as it is; otherwise the width the height allows at the image's
   * aspect, `iw * height / ih`, is taken when it is smaller than the
   * width, and else the height the width allows, `ih * width / iw`. C's
   * division truncates toward zero.
   */
  method LockAspect(image: Llimg?, width: int, height: int) returns (width': int, height': int)
    requires image != null ==> image.header.width != 0 && image.height != 0
    ensures image == null ==> width' == width && height' == height
    ensures image != null ==>
      var lockW, lockH := CDiv(image.header.width * height, image.height), CDiv(image.height * width, image.header.width);
      if lockW < width then width' == lockW && height' == height else width' == width && height' == lockH
    ensures image != null && image.header.width > 0 && image.height > 0 && width >= 0 && height >= 0 ==>
      AspectLocked(image.header.width, image.height, width, height, width', height')
  {
    if image == null {
      return width, height;
    }
    var iw, ih := image.header.width, image.height;
    var lockW := CDiv(iw * height, ih);
    var lockH := CDiv(ih * width, iw);
    if lockW < width {
      width', height' := lockW, height;
      if iw > 0 && ih > 0 && width >= 0 && height >= 0 {
        LockNarrower(iw, ih, width, height);
      }
    } else {
      width', height' := width, lockH;
      if iw > 0 && ih > 0 && width >= 0 && height >= 0 {
        LockShorter(iw, ih, width, height);
      }
    }
  }

  /**
   * A box `w' x h'` locked to the aspect of an `iw x ih` image inside a
   * `w x h` box: it fits, it keeps one side, and the other side is the
   * longest the kept side allows at that aspect.
   */
  ghost predicate AspectLocked(iw: int, ih: int, w: int, h: int, w': int, h': int)
    requires iw > 0 && ih > 0
  {
    0 <= w' <= w && 0 <= h' <= h &&
    ((h' == h && w' * ih <= iw * h < (w' + 1) * ih) || (w' == w && h' * iw <= ih * w < (h' + 1) * iw))
  }

  /** The longest side `t / a` that `a` of them fit in `t`. */
  lemma Longest(t: int, a: int)
    requires t >= 0 && a >= 1
    ensures 0 <= t / a && (t / a) * a <= t < (t / a + 1) * a
  {
    Divided(t, a);
    assert (t / a + 1) * a == (t / a) * a + a;
  }

  /** Keeping the height: the width it allows, when below the asked width, fits. */
  lemma LockNarrower(iw: int, ih: int, w: int, h: int)
    requires iw > 0 && ih > 0 && w >= 0 && h >= 0 && (iw * h) / ih < w
    ensures AspectLocked(iw, ih, w, h, (iw * h) / ih, h)
  {
    Longest(iw * h, ih);
  }

  /** Keeping the width: when the height allows at least the width, the width allows at most the height. */
  lemma LockShorter(iw: int, ih: int, w: int, h: int)
    requires iw > 0 && ih > 0 && w >= 0 && h >= 0 && (iw * h) / ih >= w
    ensures AspectLocked(iw, ih, w, h, w, (ih * w) / iw)
  {
    var lockW, lockH := (iw * h) / ih, (ih * w) / iw;
    var across, down := iw * h, ih * w;
    Longest(across, ih);
    Longest(down, iw);
    ScaleOrder(lockW, w, ih);
    assert down == w * ih;
    assert down <= across;
    NextMultiple(h, iw);
    assert across == h * iw;
    assert down < (h + 1) * iw;
    QuotientLess(down, iw, h + 1);
    assert lockH <= h;
  }
}
