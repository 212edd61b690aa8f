/**
 * The variable-length-code LZW decoder of readImage (readgif.cpp:636-651
 * and 706-823) and its code reader readCode (readgif.cpp:882-895).
 *
 * The codes are packed least significant bit first; `CodeBits` is that
 * packing bit by bit, and readCode is proved to extract exactly those
 * bits. The decoder keeps its dictionary as the `Prefix`/`Suffix` tables
 * and unwinds each code onto the `OutCode` stack; it is proved to
 * produce what the string dictionary of GIF89a Appendix F produces,
 * written out as `Run`.
 */
module GifLzw {
  import opened Common
  import opened GifStream
  import opened GifRows

  // ---------------------------------------------------------------------
  // Bits

  /** C's `&` on non-negative integers. */
  function And(a: nat, b: nat): (r: nat)
    ensures r <= b
    decreases a
  {
    if a == 0 || b == 0 then 0
    else 2 * And(a / 2, b / 2) + (if a % 2 == 1 && b % 2 == 1 then 1 else 0)
  }

  /** `x >> s`: `s` halvings. */
  function Shr(x: nat, s: nat): nat
    decreases s
  {
    if s == 0 then x else Shr(x / 2, s - 1)
  }

  /** Bit `t` of `x`. */
  function BitOf(x: nat, t: nat): (b: nat)
    ensures b < 2
    decreases t
  {
    if t == 0 then x % 2 else BitOf(x / 2, t - 1)
  }

  /** The low `n` bits of `x`, as a number. */
  function LowBits(x: nat, n: nat): nat
    decreases n
  {
    if n == 0 then 0 else x % 2 + 2 * LowBits(x / 2, n - 1)
  }

  /** Bits `s .. s+n-1` of `x`, as a number. */
  function BitsOf(x: nat, s: nat, n: nat): nat
    decreases n
  {
    if n == 0 then 0 else BitOf(x, s) + 2 * BitsOf(x, s + 1, n - 1)
  }

  /** Masking with `2^n - 1` keeps the low `n` bits. */
  lemma {:induction false} AndLowBits(x: nat, n: nat)
    ensures And(x, Pow2(n) - 1) == LowBits(x, n)
  {
    if n > 0 && x > 0 {
      var m := Pow2(n) - 1;
      assert m == 2 * Pow2(n - 1) - 1;
      assert m / 2 == Pow2(n - 1) - 1 && m % 2 == 1;
      AndLowBits(x / 2, n - 1);
    } else if n > 0 {
      AndZero(Pow2(n) - 1);
      LowBitsZero(n);
    }
  }

  lemma AndZero(b: nat)
    ensures And(0, b) == 0
  {
  }

  lemma {:induction false} LowBitsZero(n: nat)
    ensures LowBits(0, n) == 0
  {
    if n > 0 {
      LowBitsZero(n - 1);
    }
  }

  /** One more shift halves. */
  lemma {:induction false} ShrStep(x: nat, s: nat)
    ensures Shr(x, s + 1) == Shr(x, s) / 2
    ensures BitOf(x, s) == Shr(x, s) % 2
    decreases s
  {
    if s > 0 {
      ShrStep(x / 2, s - 1);
    }
  }

  /** Shifting right by `s` and keeping `n` bits gives bits `s .. s+n-1`. */
  lemma {:induction false} ShiftMask(x: nat, s: nat, n: nat)
    ensures LowBits(Shr(x, s), n) == BitsOf(x, s, n)
    decreases n
  {
    if n > 0 {
      ShrStep(x, s);
      ShiftMask(x, s + 1, n - 1);
    }
  }

  /** The bits of `a + 2^k*b` for `a < 2^k` are those of `a`, then those of `b`. */
  lemma {:induction false} SplitBits(a: nat, b: nat, k: nat, t: nat)
    requires a < Pow2(k)
    ensures BitOf(a + Pow2(k) * b, t) == if t < k then BitOf(a, t) else BitOf(b, t - k)
    decreases k
  {
    if k > 0 {
      var p := Pow2(k - 1);
      var y := p * b;
      assert a + Pow2(k) * b == a + 2 * y;
      assert (a + 2 * y) / 2 == a / 2 + y && (a + 2 * y) % 2 == a % 2;
      if t > 0 {
        SplitBits(a / 2, b, k - 1, t - 1);
      }
    }
  }

  /** Byte `i` of the raster as a number; zero past its end. */
  function Byte(r: seq<bv8>, i: int): (b: nat)
    ensures b < 256
  {
    At(r, i) as int
  }

  /** Bit `k` of the raster, counting from the least significant bit of byte 0. */
  function Bit(r: seq<bv8>, k: nat): nat
  {
    BitOf(Byte(r, k / 8), k % 8)
  }

  /** The `n`-bit code at bit offset `off`, least significant bit first. */
  function CodeBits(r: seq<bv8>, off: nat, n: nat): (c: nat)
    ensures c < Pow2(n)
    decreases n
  {
    if n == 0 then 0 else Bit(r, off) + 2 * CodeBits(r, off + 1, n - 1)
  }

  /**
   * readCode's window (readgif.cpp:887-890): the two bytes from the
   * code's first byte, and a third one when codes are 8 bits or wider.
   */
  function Window(r: seq<bv8>, off: nat, codeSize: nat): nat
  {
    Byte(r, off / 8) + 256 * (Byte(r, off / 8 + 1) +
      256 * (if codeSize >= 8 then Byte(r, off / 8 + 2) else 0))
  }

  /** The window is the sum readCode forms, byte by byte. */
  lemma WindowSum(r: seq<bv8>, off: nat, codeSize: nat)
    ensures Window(r, off, codeSize) == Byte(r, off / 8) + 256 * Byte(r, off / 8 + 1)
      + (if codeSize >= 8 then 65536 * Byte(r, off / 8 + 2) else 0)
  {
  }

  /** The code readCode returns (readgif.cpp:887-894). */
  function CodeAt(r: seq<bv8>, off: nat, codeSize: nat, readMask: nat): nat
  {
    And(Shr(Window(r, off, codeSize), off % 8), readMask)
  }

  /** The bits of `a + 256*b` for a byte `a` are those of `a`, then those of `b`. */
  lemma SplitByte(a: nat, b: nat, t: nat)
    requires a < 256
    ensures BitOf(a + 256 * b, t) == if t < 8 then BitOf(a, t) else BitOf(b, t - 8)
  {
    assert Pow2(8) == 256;
    SplitBits(a, b, 8, t);
  }

  /** Bit `8*b + t` of the raster is bit `t % 8` of byte `b + t / 8`. */
  lemma RasterBit(r: seq<bv8>, b: nat, t: nat)
    ensures Bit(r, 8 * b + t) == BitOf(Byte(r, b + t / 8), t % 8)
  {
    var k := 8 * b + t;
    assert k / 8 == b + t / 8 && k % 8 == t % 8;
  }

  /** Bit `t` of the window is bit `8*(off/8) + t` of the raster, within its bytes. */
  lemma WindowBit(r: seq<bv8>, off: nat, codeSize: nat, t: nat)
    requires t < (if codeSize >= 8 then 24 else 16)
    ensures BitOf(Window(r, off, codeSize), t) == Bit(r, 8 * (off / 8) + t)
  {
    var b := off / 8;
    var x0, x1 := Byte(r, b), Byte(r, b + 1);
    var x2 := if codeSize >= 8 then Byte(r, b + 2) else 0;
    var w1 := x1 + 256 * x2;
    var w := Window(r, off, codeSize);
    assert w == x0 + 256 * w1;
    SplitByte(x0, w1, t);
    RasterBit(r, b, t);
    var v := Bit(r, 8 * b + t);
    if t < 8 {
      assert t / 8 == 0 && t % 8 == t;
      assert v == BitOf(x0, t) == BitOf(w, t);
    } else {
      SplitByte(x1, x2, t - 8);
      assert BitOf(w, t) == BitOf(w1, t - 8);
      if t >= 16 {
        assert codeSize >= 8;
        assert t / 8 == 2 && t % 8 == t - 16;
        assert v == BitOf(x2, t - 16) == BitOf(w, t);
      } else {
        assert t / 8 == 1 && t % 8 == t - 8;
        assert v == BitOf(x1, t - 8) == BitOf(w, t);
      }
    }
  }

  /** Raster bits that agree with the bits of `x` read as the same number. */
  lemma {:induction false} BitsMatch(r: seq<bv8>, base: nat, x: nat, s: nat, n: nat)
    requires forall t :: s <= t < s + n ==> BitOf(x, t) == Bit(r, base + t)
    ensures CodeBits(r, base + s, n) == BitsOf(x, s, n)
    decreases n
  {
    if n > 0 {
      BitsMatch(r, base, x, s + 1, n - 1);
      assert CodeBits(r, base + s, n) == Bit(r, base + s) + 2 * CodeBits(r, base + (s + 1), n - 1);
    }
  }

  /**
   * readCode reads the `codeSize`-bit code at the bit offset packed least
   * significant bit first, for codes of up to 17 bits (the window holds
   * 16 bits, or 24 from 8-bit codes on).
   */
  lemma CodeIsBits(r: seq<bv8>, off: nat, codeSize: nat)
    requires codeSize <= 17
    ensures CodeAt(r, off, codeSize, Pow2(codeSize) - 1) == CodeBits(r, off, codeSize)
  {
    var s, base := off % 8, 8 * (off / 8);
    assert base + s == off;
    var w := Window(r, off, codeSize);
    var x := Shr(w, s);
    calc {
      CodeAt(r, off, codeSize, Pow2(codeSize) - 1);
      And(x, Pow2(codeSize) - 1);
      { AndLowBits(x, codeSize); }
      LowBits(x, codeSize);
      { ShiftMask(w, s, codeSize); }
      BitsOf(w, s, codeSize);
      { WindowBits(r, off, codeSize); BitsMatch(r, base, w, s, codeSize); }
      CodeBits(r, base + s, codeSize);
    }
  }

  /** The code's bits all lie inside the window. */
  lemma WindowBits(r: seq<bv8>, off: nat, codeSize: nat)
    requires codeSize <= 17
    ensures forall t :: off % 8 <= t < off % 8 + codeSize ==>
      BitOf(Window(r, off, codeSize), t) == Bit(r, 8 * (off / 8) + t)
  {
    forall t | off % 8 <= t < off % 8 + codeSize
      ensures BitOf(Window(r, off, codeSize), t) == Bit(r, 8 * (off / 8) + t)
    {
      WindowBit(r, off, codeSize, t);
    }
  }

  /** A value below `2^k` comes through a mask of `k` ones whole. */
  lemma {:induction false} LowBitsSmall(x: nat, k: nat)
    requires x < Pow2(k)
    ensures LowBits(x, k) == x
    decreases k
  {
    if k > 0 {
      LowBitsSmall(x / 2, k - 1);
    }
  }

  lemma AndSmall(x: nat, k: nat)
    requires x < Pow2(k)
    ensures And(x, Pow2(k) - 1) == x
  {
    AndLowBits(x, k);
    LowBitsSmall(x, k);
  }

  // ---------------------------------------------------------------------
  // The code reader

  /** readCode's statics: the raster, `BitOffset`, `CodeSize`, `MaxCode` and `ReadMask`. */
  class CodeReader {
    const raster: seq<bv8>
    var bitOffset: nat
    var codeSize: nat
    var maxCode: nat
    var readMask: nat

    /** `MaxCode` is `1 << CodeSize` and `ReadMask` is `MaxCode - 1`. */
    predicate Masks()
      reads this
    {
      maxCode == Pow2(codeSize) && readMask == maxCode - 1
    }

    /** The state of readImage's set-up (readgif.cpp:636-651), after de_gif's reset of `BitOffset`. */
    constructor (r: seq<bv8>, width: nat)
      ensures raster == r && bitOffset == 0 && codeSize == width && Masks()
    {
      raster, bitOffset, codeSize := r, 0, width;
      maxCode := Pow2(width);
      readMask := Pow2(width) - 1;
    }

    /**
     * readCode (readgif.cpp:882-895): the code at `BitOffset`, which moves
     * on by `CodeSize` bits. While the masks agree with the code width and
     * the width is at most 17, the code is the `CodeSize` bits from
     * `BitOffset` on, least significant bit first.
     */
    method ReadCode() returns (code: nat)
      modifies this`bitOffset
      ensures code == CodeAt(raster, old(bitOffset), codeSize, readMask) && code <= readMask
      ensures bitOffset == old(bitOffset) + codeSize
      ensures Masks() && codeSize <= 17 ==> code == CodeBits(raster, old(bitOffset), codeSize)
    {
      var byteOffset := bitOffset / 8;
      var rawCode := Byte(raster, byteOffset) + 256 * Byte(raster, byteOffset + 1);
      if codeSize >= 8 {
        rawCode := rawCode + 65536 * Byte(raster, byteOffset + 2);
      }
      WindowSum(raster, bitOffset, codeSize);
      rawCode := Shr(rawCode, bitOffset % 8);
      if Masks() && codeSize <= 17 {
        CodeIsBits(raster, bitOffset, codeSize);
      }
      bitOffset := bitOffset + codeSize;
      code := And(rawCode, readMask);
    }

    /** The code width and masks put back by a Clear code (readgif.cpp:719-721). */
    method Reset(width: nat)
      modifies this`codeSize, this`maxCode, this`readMask
      ensures codeSize == width && Masks()
    {
      codeSize := width;
      maxCode := Pow2(codeSize);
      readMask := maxCode - 1;
    }

    /**
     * One more bit of code width once the free code reaches `MaxCode`,
     * up to 12 bits (readgif.cpp:809-818).
     */
    method Grow(free: nat)
      requires Masks()
      modifies this`codeSize, this`maxCode, this`readMask
      ensures Masks()
      ensures codeSize == if free >= old(maxCode) && old(codeSize) < 12 then old(codeSize) + 1 else old(codeSize)
    {
      if free >= maxCode {
        if codeSize < 12 {
          codeSize := codeSize + 1;
          maxCode := maxCode * 2;
          readMask := Pow2(codeSize) - 1;
        }
      }
    }
  }

  // ---------------------------------------------------------------------
  // The string decoder of GIF89a Appendix F

  /**
   * One image's decoding: the unblocked raster, the minimum code size of
   * the image data, the number of bits of the global colour table
   * (`BitMask` is one less than its size) and the number of pixels.
   */
  datatype Lzw = Lzw(raster: seq<bv8>, minSize: nat, colorBits: nat, maxPixels: nat)

  /** `ClearCode`, `EOFCode`, `FirstFree` and the first code width (readgif.cpp:636-651). */
  function Clear(p: Lzw): nat
  {
    Pow2(p.minSize)
  }

  function Eof(p: Lzw): nat
  {
    Clear(p) + 1
  }

  function FirstFree(p: Lzw): nat
  {
    Clear(p) + 2
  }

  function InitWidth(p: Lzw): nat
  {
    p.minSize + 1
  }

  /** Codes up to `BitMask` are pixel values. */
  function BitMask(p: Lzw): nat
  {
    Pow2(p.colorBits) - 1
  }

  /**
   * The parameters for which readImage is a string decoder: the first
   * code width is at most 12 bits and every pixel value is below the
   * Clear code.
   */
  predicate Consistent(p: Lzw)
  {
    p.minSize <= 11 && p.colorBits <= p.minSize
  }

  /**
   * The decoder between two codes: the code in hand and the bit offset
   * after it, the code width, the strings of the codes from `FirstFree`
   * on, the string of the previous code, and the pixels so far.
   */
  datatype Lz = Lz(code: nat, pos: nat, width: nat, dict: seq<seq<int>>, prev: seq<int>, out: seq<int>)

  /** The state after a code is applied and before the next one is read. */
  datatype Half = Half(pos: nat, width: nat, dict: seq<seq<int>>, prev: seq<int>, out: seq<int>)

  datatype Decoded = Done(pixels: seq<int>) | Malformed
  datatype Applied = Then(half: Half) | Quit(result: Decoded)
  datatype Next = Go(state: Lz) | Stop(decoded: Decoded)

  /** Every string is non-empty. */
  predicate Wf(st: Lz)
  {
    st.prev != [] && forall i :: 0 <= i < |st.dict| ==> st.dict[i] != []
  }

  /**
   * The start of readImage's loop (readgif.cpp:710): the first code at the
   * first width. Until a Clear code the previous code is taken to be the
   * pixel value 0, which is what readImage's zeroed `OldCode` and
   * `FinChar` amount to.
   */
  function Initial(p: Lzw): (st: Lz)
    ensures Wf(st)
  {
    Lz(CodeBits(p.raster, 0, InitWidth(p)), InitWidth(p), InitWidth(p), [], [0], [])
  }

  /**
   * The string of a data code: a pixel value, a code of the dictionary,
   * or the next free code, which stands for the previous string and its
   * own first pixel. Anything else is not a code of this stream.
   */
  function Lookup(p: Lzw, st: Lz): (s: Option<seq<int>>)
    requires Wf(st)
    ensures s.Some? ==> s.value != []
  {
    var free := FirstFree(p) + |st.dict|;
    if st.code <= BitMask(p) then Some([st.code])
    else if FirstFree(p) <= st.code < free then Some(st.dict[st.code - FirstFree(p)])
    else if st.code == free then Some(st.prev + [st.prev[0]])
    else None
  }

  /** The last `n` elements of `s`, or all of it. */
  function Tail(s: seq<int>, n: int): (t: seq<int>)
    requires n >= 0
    ensures |t| == Min(|s|, n)
  {
    if |s| <= n then s else s[|s| - n..]
  }

  /**
   * One code other than EOF (readgif.cpp:717-822). A Clear code empties
   * the dictionary, goes back to the first width and emits the code
   * after it as a pixel. A data code stops the decoding once the
   * dictionary is full, or when its string would overrun the 4097-entry
   * output stack; otherwise its string is emitted, cut to its last pixels
   * where it would run past the image, and the previous string followed
   * by the first pixel of this one becomes the next dictionary entry.
   */
  function Apply(p: Lzw, st: Lz): Applied
    requires Wf(st) && |st.out| <= p.maxPixels
  {
    if st.code == Clear(p) then
      var w := InitWidth(p);
      var c := CodeBits(p.raster, st.pos, w);
      if c > BitMask(p) then Quit(Malformed)
      else Then(Half(st.pos + w, w, [], [c], st.out + [c]))
    else if FirstFree(p) + |st.dict| >= 4096 then Quit(Done(st.out))
    else match Lookup(p, st)
      case None => Quit(Malformed)
      case Some(s) =>
        if |s| > 4097 then Quit(Done(st.out))
        else
          var dict := st.dict + [st.prev + [s[0]]];
          var w := if FirstFree(p) + |dict| >= Pow2(st.width) && st.width < 12 then st.width + 1 else st.width;
          Then(Half(st.pos, w, dict, s, st.out + Tail(s, p.maxPixels - |st.out|)))
  }

  /** One pass of the decoding loop: the EOF code ends it, and so does a full picture. */
  function Step(p: Lzw, st: Lz): (n: Next)
    requires Wf(st) && |st.out| <= p.maxPixels
    ensures n.Go? ==> Wf(n.state) && |st.out| < |n.state.out| < p.maxPixels
  {
    if st.code == Eof(p) then Stop(Done(st.out))
    else match Apply(p, st)
      case Quit(r) => Stop(r)
      case Then(h) =>
        if |h.out| >= p.maxPixels then Stop(Done(h.out))
        else Go(Lz(CodeBits(p.raster, h.pos, h.width), h.pos + h.width, h.width, h.dict, h.prev, h.out))
  }

  /** Decoding from state `st` on. */
  function Run(p: Lzw, st: Lz): Decoded
    requires Wf(st) && |st.out| <= p.maxPixels
    decreases p.maxPixels - |st.out|
  {
    match Step(p, st)
    case Stop(r) => r
    case Go(n) => Run(p, n)
  }

  /** The pixels of an image's code stream. */
  function Decode(p: Lzw): Decoded
  {
    Run(p, Initial(p))
  }

  // ---------------------------------------------------------------------
  // Lemmas about the string decoder

  /** All pixel values are below the colour table's size. */
  predicate Pixels(p: Lzw, s: seq<int>)
  {
    forall i :: 0 <= i < |s| ==> 0 <= s[i] <= BitMask(p)
  }

  /** Every string of the state holds pixel values only. */
  predicate InRange(p: Lzw, st: Lz)
  {
    Pixels(p, st.prev) && Pixels(p, st.out) && forall i :: 0 <= i < |st.dict| ==> Pixels(p, st.dict[i])
  }

  /** One pass of the loop keeps every string to pixel values. */
  lemma StepInRange(p: Lzw, st: Lz)
    requires Wf(st) && |st.out| <= p.maxPixels && InRange(p, st)
    ensures Step(p, st).Go? ==> InRange(p, Step(p, st).state)
    ensures Step(p, st).Stop? && Step(p, st).decoded.Done? ==> Pixels(p, Step(p, st).decoded.pixels)
  {
    if st.code != Eof(p) && st.code != Clear(p) && FirstFree(p) + |st.dict| < 4096 && Lookup(p, st).Some? {
      var s := Lookup(p, st).value;
      assert Pixels(p, s);
      var t := Tail(s, p.maxPixels - |st.out|);
      assert Pixels(p, t) by {
        forall i | 0 <= i < |t|
          ensures 0 <= t[i] <= BitMask(p)
        {
          assert t[i] == s[|s| - |t| + i];
        }
      }
      var dict := st.dict + [st.prev + [s[0]]];
      assert forall i :: 0 <= i < |dict| ==> Pixels(p, dict[i]);
    }
  }

  /** Decoding from a state short of the whole picture emits at most the whole picture, all pixel values. */
  lemma {:induction false} RunInRange(p: Lzw, st: Lz)
    requires Wf(st) && |st.out| < p.maxPixels && InRange(p, st)
    ensures Run(p, st).Done? ==> |Run(p, st).pixels| <= p.maxPixels && Pixels(p, Run(p, st).pixels)
    decreases p.maxPixels - |st.out|
  {
    StepInRange(p, st);
    match Step(p, st)
    case Stop(r) =>
      if r.Done? && st.code != Eof(p) {
        if Apply(p, st).Then? {
          var h := Apply(p, st).half;
          assert |h.out| <= p.maxPixels;
        }
      }
    case Go(n) =>
      RunInRange(p, n);
  }

  /**
   * readImage's output is never more than `Width*Height` pixels once the
   * picture has one pixel at least, and every pixel is below the colour
   * table's size.
   */
  lemma DecodeInRange(p: Lzw)
    requires p.maxPixels >= 1
    ensures Decode(p).Done? ==> |Decode(p).pixels| <= p.maxPixels && Pixels(p, Decode(p).pixels)
  {
    Pow2Grows(0, p.colorBits);
    RunInRange(p, Initial(p));
  }

  // ---------------------------------------------------------------------
  // The code tables

  /** The statics `Prefix`, `Suffix` and `OutCode` (readgif.cpp:119-123), kept from image to image. */
  class Tables {
    const prefix: array<int>
    const suffix: array<int>
    const outCode: array<int>

    /** Every prefix is a code, every suffix and every stacked entry a byte. */
    ghost predicate Valid()
      reads this, prefix, suffix, outCode
    {
      prefix.Length == 4096 && suffix.Length == 4096 && outCode.Length == 4097 &&
      prefix != suffix && prefix != outCode && suffix != outCode &&
      (forall i :: 0 <= i < 4096 ==> 0 <= prefix[i] < 4096 && 0 <= suffix[i] < 256) &&
      (forall i :: 0 <= i < 4097 ==> 0 <= outCode[i] < 256)
    }

    /** The zeroed statics of a freshly loaded program. */
    constructor ()
      ensures Valid() && fresh(prefix) && fresh(suffix) && fresh(outCode)
    {
      prefix := new int[4096](_ => 0);
      suffix := new int[4096](_ => 0);
      outCode := new int[4097](_ => 0);
    }
  }

  /** The tables are not the picture (they hold other element types). */
  ghost predicate Apart(t: Tables, sink: Sink)
    reads t, sink
  {
    t.prefix as object != sink.pic && t.suffix as object != sink.pic && t.outCode as object != sink.pic
  }

  /** Code `c` stands for string `s`: a pixel value, or an entry of the dictionary. */
  ghost predicate Denotes(p: Lzw, dict: seq<seq<int>>, c: int, s: seq<int>)
  {
    (0 <= c <= BitMask(p) && s == [c]) ||
    (FirstFree(p) <= c < FirstFree(p) + |dict| && dict[c - FirstFree(p)] == s)
  }

  /**
   * Entry `i` of the dictionary is its last pixel in `Suffix`, and in
   * `Prefix` a code that stands for the rest of it and comes earlier.
   */
  ghost predicate Entry(p: Lzw, pre: seq<int>, suf: seq<int>, dict: seq<seq<int>>, i: nat)
    requires i < |dict| && FirstFree(p) + i < |pre| && |pre| == |suf|
  {
    var e, c := dict[i], FirstFree(p) + i;
    |e| >= 2 && suf[c] == e[|e| - 1] && Denotes(p, dict[..i], pre[c], e[..|e| - 1])
  }

  /** The tables hold the dictionary. */
  ghost predicate Represents(p: Lzw, pre: seq<int>, suf: seq<int>, dict: seq<seq<int>>)
  {
    |pre| == 4096 && |suf| == 4096 && FirstFree(p) + |dict| <= 4096 &&
    forall i :: 0 <= i < |dict| ==> Entry(p, pre, suf, dict, i)
  }

  /** A code keeps its string when the dictionary grows. */
  lemma DenotesWider(p: Lzw, dict: seq<seq<int>>, j: nat, c: int, s: seq<int>)
    requires j <= |dict| && Denotes(p, dict[..j], c, s)
    ensures Denotes(p, dict, c, s)
  {
    if !(0 <= c <= BitMask(p) && s == [c]) {
      assert dict[..j][c - FirstFree(p)] == dict[c - FirstFree(p)];
    }
  }

  lemma DenotesExtend(p: Lzw, dict: seq<seq<int>>, e: seq<int>, c: int, s: seq<int>)
    requires Denotes(p, dict, c, s)
    ensures Denotes(p, dict + [e], c, s)
  {
    assert (dict + [e])[..|dict|] == dict;
    DenotesWider(p, dict + [e], |dict|, c, s);
  }

  /**
   * One link of the chain readImage follows (readgif.cpp:763-769): a code
   * above `BitMask` is an entry, its suffix is the string's last pixel and
   * its prefix stands for the rest.
   */
  lemma ChainStep(p: Lzw, pre: seq<int>, suf: seq<int>, dict: seq<seq<int>>, c: int, s: seq<int>)
    requires Represents(p, pre, suf, dict) && Denotes(p, dict, c, s) && c > BitMask(p)
    ensures FirstFree(p) <= c < 4096 && |s| >= 2 && suf[c] == s[|s| - 1]
    ensures Denotes(p, dict, pre[c], s[..|s| - 1])
  {
    var i := c - FirstFree(p);
    assert Entry(p, pre, suf, dict, i);
    DenotesWider(p, dict, i, pre[c], s[..|s| - 1]);
  }

  /** The chain ends at a pixel value, whose string is that pixel alone. */
  lemma ChainEnd(p: Lzw, dict: seq<seq<int>>, c: int, s: seq<int>)
    requires Consistent(p) && Denotes(p, dict, c, s) && c <= BitMask(p)
    ensures s == [c]
  {
    Pow2Grows(p.colorBits, p.minSize);
  }

  /** Storing the previous code and the new first pixel at the free code adds their string. */
  lemma RecordEntry(p: Lzw, pre: seq<int>, suf: seq<int>, dict: seq<seq<int>>, oldCode: int, prev: seq<int>, first: int)
    requires Represents(p, pre, suf, dict) && FirstFree(p) + |dict| < 4096
    requires Denotes(p, dict, oldCode, prev) && prev != []
    ensures var free := FirstFree(p) + |dict|;
      Represents(p, pre[free := oldCode], suf[free := first], dict + [prev + [first]])
  {
    var free := FirstFree(p) + |dict|;
    var e := prev + [first];
    var d, pre', suf' := dict + [e], pre[free := oldCode], suf[free := first];
    forall i | 0 <= i < |d|
      ensures Entry(p, pre', suf', d, i)
    {
      var c := FirstFree(p) + i;
      if i < |dict| {
        assert Entry(p, pre, suf, dict, i);
        assert d[..i] == dict[..i] && d[i] == dict[i];
        assert pre'[c] == pre[c] && suf'[c] == suf[c];
      } else {
        assert d[..i] == dict && d[i] == e && c == free;
        assert e[..|e| - 1] == prev && e[|e| - 1] == first;
        assert pre'[c] == oldCode && suf'[c] == first;
      }
    }
  }

  /** What a data code's string is made of, in terms of the tables' codes. */
  lemma LookupDenotes(p: Lzw, st: Lz, oldCode: int)
    requires Wf(st) && Consistent(p) && Lookup(p, st).Some? && Denotes(p, st.dict, oldCode, st.prev)
    ensures var s, free := Lookup(p, st).value, FirstFree(p) + |st.dict|;
      (st.code < free ==> Denotes(p, st.dict, st.code, s)) &&
      (st.code >= free ==> (st.code == free && |s| >= 2 && Denotes(p, st.dict, oldCode, s[..|s| - 1]) &&
                            s[|s| - 1] == st.prev[0]))
    ensures var s, d := Lookup(p, st).value, st.dict + [st.prev + [Lookup(p, st).value[0]]];
      Denotes(p, d, st.code, s)
  {
    Pow2Grows(p.colorBits, p.minSize);
    var s, free := Lookup(p, st).value, FirstFree(p) + |st.dict|;
    var d := st.dict + [st.prev + [s[0]]];
    if st.code < free {
      DenotesExtend(p, st.dict, st.prev + [s[0]], st.code, s);
    } else {
      assert s == st.prev + [st.prev[0]] && s[..|s| - 1] == st.prev;
      assert d[st.code - FirstFree(p)] == st.prev + [s[0]];
    }
  }

  /** A Clear code and the pixel after it. */
  lemma ClearApplied(p: Lzw, st: Lz, c: nat)
    requires Consistent(p) && Wf(st) && |st.out| <= p.maxPixels && st.code == Clear(p)
    requires c == CodeBits(p.raster, st.pos, InitWidth(p))
    ensures c > BitMask(p) ==> Apply(p, st) == Quit(Malformed)
    ensures c <= BitMask(p) ==> (And(c, BitMask(p)) == c && FirstFree(p) <= 4096 &&
      Apply(p, st) == Then(Half(st.pos + InitWidth(p), InitWidth(p), [], [c], st.out + [c])))
  {
    if c <= BitMask(p) {
      AndSmall(c, p.colorBits);
      Pow2Grows(p.minSize, 11);
    }
  }

  /** The last stop of the loop: the EOF code. */
  lemma RunEof(p: Lzw, st: Lz)
    requires Wf(st) && |st.out| <= p.maxPixels && st.code == Eof(p)
    ensures Run(p, st) == Done(st.out)
  {
  }

  /** A code that ends the decoding. */
  lemma RunQuit(p: Lzw, st: Lz, r: Decoded)
    requires Wf(st) && |st.out| <= p.maxPixels && st.code != Eof(p) && Apply(p, st) == Quit(r)
    ensures Run(p, st) == r
  {
  }

  /** A code after which the decoding goes on, unless the picture is full. */
  lemma RunThen(p: Lzw, st: Lz, h: Half)
    requires Wf(st) && |st.out| <= p.maxPixels && st.code != Eof(p) && Apply(p, st) == Then(h)
    ensures |h.out| >= p.maxPixels ==> Run(p, st) == Done(h.out)
    ensures |h.out| < p.maxPixels ==> (
      var n := Lz(CodeBits(p.raster, h.pos, h.width), h.pos + h.width, h.width, h.dict, h.prev, h.out);
      Wf(n) && |n.out| <= p.maxPixels && Run(p, st) == Run(p, n))
  {
  }

  /** The stack's first `n` entries are the last `n` elements of `s`, last first. */
  ghost predicate Stacked(oc: seq<int>, s: seq<int>, n: nat)
  {
    n <= |s| && n <= |oc| && forall j :: 0 <= j < n ==> oc[j] == s[|s| - 1 - j]
  }

  /** Pushing the string's next element from the end. */
  lemma StackedPush(oc: seq<int>, s: seq<int>, n: nat, v: int)
    requires Stacked(oc, s, n) && n < |s| && n < |oc| && v == s[|s| - 1 - n]
    ensures Stacked(oc[n := v], s, n + 1)
  {
  }

  /** The stack's first `k` entries, popped. */
  function Popped(oc: seq<int>, k: nat): (r: seq<int>)
    requires k <= |oc|
    ensures |r| == k
  {
    seq(k, j requires 0 <= j < k => oc[k - 1 - j])
  }

  /** Popping a cut of a string's stack gives the string's last elements. */
  lemma PoppedTail(oc: seq<int>, s: seq<int>, n: int)
    requires Stacked(oc, s, |s|) && n >= 0
    ensures Popped(oc, Min(|s|, n)) == Tail(s, n)
  {
    var k := Min(|s|, n);
    var t := Tail(s, n);
    forall j | 0 <= j < k
      ensures Popped(oc, k)[j] == t[j]
    {
      assert oc[k - 1 - j] == s[|s| - 1 - (k - 1 - j)];
    }
  }

  /** The strings of the state agree with the registers and the tables, before the next code is read. */
  ghost predicate HalfMirrors(p: Lzw, h: Half, pos: nat, width: nat, free: nat, oldCode: int, finChar: int,
                              pre: seq<int>, suf: seq<int>, emitted: seq<int>)
  {
    h.pos == pos && h.width == width && free == FirstFree(p) + |h.dict| &&
    Represents(p, pre, suf, h.dict) && h.prev != [] && (forall i :: 0 <= i < |h.dict| ==> h.dict[i] != []) &&
    Denotes(p, h.dict, oldCode, h.prev) && finChar == h.prev[0] && emitted == h.out
  }

  /** ... and with the code in hand. */
  ghost predicate Mirrors(p: Lzw, st: Lz, code: nat, pos: nat, width: nat, free: nat, oldCode: int, finChar: int,
                          pre: seq<int>, suf: seq<int>, emitted: seq<int>)
  {
    Wf(st) && |st.out| <= p.maxPixels && st.code == code &&
    HalfMirrors(p, Half(st.pos, st.width, st.dict, st.prev, st.out), pos, width, free, oldCode, finChar, pre, suf, emitted)
  }

  // ---------------------------------------------------------------------
  // readImage's decoding loop

  /** The prefix chain of readImage (readgif.cpp:763-779): suffixes stacked until a literal is reached. */
  method Chase(t: Tables, cur0: nat, count0: nat, bitMask: int,
               ghost p: Lzw, ghost dict: seq<seq<int>>, ghost s: seq<int>, ghost ok: bool)
    returns (cur: nat, count: nat)
    requires t.Valid() && cur0 < 4096 && count0 <= 1
    requires ok ==> (Consistent(p) && bitMask == BitMask(p) && Represents(p, t.prefix[..], t.suffix[..], dict) &&
      count0 < |s| && Denotes(p, dict, cur0, s[..|s| - count0]) && Stacked(t.outCode[..], s, count0))
    modifies t.outCode
    ensures t.Valid() && cur < 4096 && count <= 4097 && (count <= 4096 ==> cur <= bitMask)
    ensures ok ==> count < |s| && Denotes(p, dict, cur, s[..|s| - count]) && Stacked(t.outCode[..], s, count)
  {
    cur, count := cur0, count0;
    while cur > bitMask
      invariant t.Valid() && 0 <= cur < 4096 && count <= 4097
      invariant ok ==> count < |s| && Denotes(p, dict, cur, s[..|s| - count]) && Stacked(t.outCode[..], s, count)
      decreases 4097 - count
    {
      if count > 4096 {
        break;
      }
      if ok {
        ghost var rest := s[..|s| - count];
        ChainStep(p, t.prefix[..], t.suffix[..], dict, cur, rest);
        assert rest[..|rest| - 1] == s[..|s| - (count + 1)];
      }
      ghost var before := t.outCode[..];
      if ok {
        StackedPush(before, s, count, t.suffix[cur]);
      }
      Push(t, count, t.suffix[cur]);
      count := count + 1;
      cur := t.prefix[cur];
    }
  }

  /**
   * The chain walk of readImage (readgif.cpp:742-779): the string of a
   * data code pushed onto `OutCode` last pixel first, with the previous
   * string and the last first pixel for a code not yet in the table.
   * `first` is the string's first pixel, readImage's new `FinChar`. The
   * walk gives up once more than 4096 entries are stacked.
   */
  method Unwind(t: Tables, code: nat, free: nat, oldCode: nat, finChar: nat, colorBits: nat,
                ghost p: Lzw, ghost dict: seq<seq<int>>, ghost s: seq<int>, ghost ok: bool)
    returns (overflow: bool, count: nat, first: nat)
    requires t.Valid() && code < 4096 && oldCode < 4096 && finChar < 256 && colorBits <= 8
    requires ok ==> (Consistent(p) && colorBits == p.colorBits && Represents(p, t.prefix[..], t.suffix[..], dict) &&
      free == FirstFree(p) + |dict| && s != [] &&
      (code < free ==> Denotes(p, dict, code, s)) &&
      (code >= free ==> |s| >= 2 && Denotes(p, dict, oldCode, s[..|s| - 1]) && s[|s| - 1] == finChar))
    modifies t.outCode
    ensures t.Valid()
    ensures !overflow ==> 1 <= count <= 4097 && first < 256
    ensures ok ==> (overflow <==> |s| > 4097)
    ensures ok && !overflow ==> count == |s| && first == s[0] && Stacked(t.outCode[..], s, |s|)
  {
    var bitMask := Pow2(colorBits) - 1;
    var cur := code;
    count := 0;
    if cur >= free {
      // OutCount is 0 here, so readImage's test against 4096 never fires.
      cur := oldCode;
      if ok {
        StackedPush(t.outCode[..], s, 0, finChar);
      }
      Push(t, 0, finChar);
      count := 1;
    } else if ok {
      assert s[..|s|] == s;
    }
    cur, count := Chase(t, cur, count, bitMask, p, dict, s, ok);
    if count > 4096 {
      overflow, first := true, 0;
      return;
    }
    overflow := false;
    first := And(cur, bitMask);
    Pow2Grows(colorBits, 8);
    ghost var before := t.outCode[..];
    if ok {
      ghost var rest := s[..|s| - count];
      ChainEnd(p, dict, cur, rest);
      assert |rest| == 1 && rest[0] == s[0] == cur;
      AndSmall(cur, colorBits);
      StackedPush(before, s, count, first);
    }
    Push(t, count, first);
    count := count + 1;
  }

  /** One entry onto the OutCode stack. */
  method Push(t: Tables, n: nat, v: int)
    requires t.Valid() && n < 4097 && 0 <= v < 256
    modifies t.outCode
    ensures t.Valid() && t.outCode[..] == old(t.outCode[..])[n := v]
  {
    t.outCode[n] := v;
  }

  /** The output loops of readImage (readgif.cpp:789-795): the first `k` stacked pixels, last pushed first. */
  method Flush(t: Tables, sink: Sink, k: nat)
    requires t.Valid() && sink.Valid() && k <= 4097
    requires Apart(t, sink)
    modifies sink, sink.pic
    ensures sink.Valid() && sink.emitted == old(sink.emitted) + Popped(t.outCode[..], k)
  {
    ghost var popped := Popped(t.outCode[..], k);
    var i: int := k - 1;
    while i >= 0
      invariant -1 <= i < k && sink.Valid() && t.Valid()
      invariant sink.emitted == old(sink.emitted) + popped[..k - 1 - i]
    {
      var v := t.outCode[i];
      assert v == popped[k - 1 - i];
      sink.Emit(v);
      assert popped[..k - 1 - (i - 1)] == popped[..k - 1 - i] + [v];
      i := i - 1;
    }
  }

  /** The new table entry at `FreeCode` (readgif.cpp:800-801). */
  method Record(t: Tables, free: nat, oldCode: nat, first: nat)
    requires t.Valid() && free < 4096 && oldCode < 4096 && first < 256
    modifies t.prefix, t.suffix
    ensures t.Valid()
    ensures t.prefix[..] == old(t.prefix[..])[free := oldCode] && t.suffix[..] == old(t.suffix[..])[free := first]
  {
    t.prefix[free] := oldCode;
    t.suffix[free] := first;
  }

  /**
   * A data code (readgif.cpp:733-819): the loop stops once the table is
   * full or the output stack overflows. Otherwise the code's string is
   * handed on, cut short at the end of the picture, and the previous code
   * with the string's first pixel becomes the entry at `FreeCode`, which
   * may widen the codes. While the registers mirror a decoder state
   * (`ok`), the step is that of `Apply`; `ok'` is false once the code is
   * not one of the stream's.
   */
  method DataStep(reader: CodeReader, t: Tables, sink: Sink, code: nat, free: nat, oldCode: nat, finChar: nat,
                  npixels: nat, maxPixels: nat, colorBits: nat, ghost p: Lzw, ghost st: Lz, ghost ok: bool)
    returns (stop: bool, free': nat, oldCode': nat, finChar': nat, npixels': nat, ghost ok': bool, ghost h: Half)
    requires reader.Masks() && t.Valid() && sink.Valid() && Apart(t, sink) && colorBits <= 8
    requires finChar < 256 && npixels <= maxPixels && |sink.emitted| == npixels
    requires free < 4096 ==> code < 4096 && oldCode < 4096
    requires ok ==> (Consistent(p) && p.colorBits == colorBits && p.maxPixels == maxPixels &&
      st.code != Clear(p) && st.code != Eof(p) &&
      Mirrors(p, st, code, reader.bitOffset, reader.codeSize, free, oldCode, finChar, t.prefix[..], t.suffix[..], sink.emitted))
    modifies reader`codeSize, reader`maxCode, reader`readMask, t.prefix, t.suffix, t.outCode, sink, sink.pic
    ensures reader.Masks() && t.Valid() && sink.Valid()
    ensures reader.codeSize == old(reader.codeSize) || reader.codeSize == old(reader.codeSize) + 1 <= 12
    ensures finChar' < 256 && npixels <= npixels' <= maxPixels && |sink.emitted| == npixels'
    ensures stop ==> npixels' == npixels && free' == free && oldCode' == oldCode
    ensures !stop ==> free' == free + 1 <= 4096 && oldCode' == code && (npixels < maxPixels ==> npixels < npixels')
    ensures ok' ==> ok
    ensures ok && !ok' ==> Apply(p, st) == Quit(Malformed)
    ensures ok' && stop ==> Apply(p, st) == Quit(Done(sink.emitted))
    ensures ok' && !stop ==> (Apply(p, st) == Then(h) &&
      HalfMirrors(p, h, reader.bitOffset, reader.codeSize, free', oldCode', finChar', t.prefix[..], t.suffix[..], sink.emitted))
  {
    free', oldCode', finChar', npixels' := free, oldCode, finChar, npixels;
    h := Half(0, 0, [], [0], []);
    if ok {
      DataQuit(p, st, free);
    }
    if free >= 4096 {
      stop, ok' := true, ok;
      return;
    }
    ok' := ok && Lookup(p, st).Some?;
    ghost var s: seq<int> := if ok' then Lookup(p, st).value else [0];
    if ok' {
      LookupDenotes(p, st, oldCode);
    }
    var overflow, count, first := Unwind(t, code, free, oldCode, finChar, colorBits, p, st.dict, s, ok');
    if overflow {
      stop := true;
      return;
    }
    stop := false;
    npixels', h := Extend(reader, t, sink, code, free, oldCode, finChar, npixels, maxPixels, count, first, p, st, s, ok');
    oldCode', finChar', free' := code, first, free + 1;
  }

  /** A data code whose string is stacked: its pixels handed on and the new table entry (readgif.cpp:781-818). */
  method Extend(reader: CodeReader, t: Tables, sink: Sink, code: nat, free: nat, oldCode: nat, finChar: nat,
                npixels: nat, maxPixels: nat, count: nat, first: nat, ghost p: Lzw, ghost st: Lz, ghost s: seq<int>, ghost ok: bool)
    returns (npixels': nat, ghost h: Half)
    requires reader.Masks() && t.Valid() && sink.Valid() && Apart(t, sink)
    requires npixels <= maxPixels && |sink.emitted| == npixels
    requires free < 4096 && oldCode < 4096 && first < 256 && 1 <= count <= 4097
    requires ok ==> (Consistent(p) && p.maxPixels == maxPixels && st.code != Clear(p) && st.code != Eof(p) &&
      Mirrors(p, st, code, reader.bitOffset, reader.codeSize, free, oldCode, finChar, t.prefix[..], t.suffix[..], sink.emitted) &&
      Lookup(p, st) == Some(s) && count == |s| && first == s[0] && Stacked(t.outCode[..], s, |s|))
    modifies reader`codeSize, reader`maxCode, reader`readMask, t.prefix, t.suffix, sink, sink.pic
    ensures reader.Masks() && t.Valid() && sink.Valid()
    ensures reader.codeSize == old(reader.codeSize) || reader.codeSize == old(reader.codeSize) + 1 <= 12
    ensures npixels <= npixels' <= maxPixels && |sink.emitted| == npixels' && (npixels < maxPixels ==> npixels < npixels')
    ensures ok ==> (Apply(p, st) == Then(h) &&
      HalfMirrors(p, h, reader.bitOffset, reader.codeSize, free + 1, code, first, t.prefix[..], t.suffix[..], sink.emitted))
  {
    ghost var pre, suf, oc := t.prefix[..], t.suffix[..], t.outCode[..];
    npixels' := Hand(t, sink, count, npixels, maxPixels);
    Record(t, free, oldCode, first);
    reader.Grow(free + 1);
    h := Half(0, 0, [], [0], []);
    if ok {
      DataApplied(p, st, free, oldCode, finChar, pre, suf, oc, first, reader.codeSize);
      h := Half(st.pos, reader.codeSize, st.dict + [st.prev + [first]], s, sink.emitted);
    }
  }

  /** How `Apply` ends on a data code. */
  lemma DataQuit(p: Lzw, st: Lz, free: nat)
    requires Wf(st) && |st.out| <= p.maxPixels && st.code != Clear(p) && free == FirstFree(p) + |st.dict|
    ensures free >= 4096 ==> Apply(p, st) == Quit(Done(st.out))
    ensures free < 4096 && Lookup(p, st).None? ==> Apply(p, st) == Quit(Malformed)
    ensures free < 4096 && Lookup(p, st).Some? && |Lookup(p, st).value| > 4097 ==> Apply(p, st) == Quit(Done(st.out))
  {
  }

  /**
   * A data code whose string fits the stack: `Apply` emits the last
   * pixels stacked, and the registers and tables after readImage's
   * updates mirror its new state.
   */
  lemma DataApplied(p: Lzw, st: Lz, free: nat, oldCode: nat, finChar: nat, pre: seq<int>, suf: seq<int>, oc: seq<int>,
                    first: nat, width: nat)
    requires Consistent(p) && st.code != Clear(p) && st.code != Eof(p)
    requires Mirrors(p, st, st.code, st.pos, st.width, free, oldCode, finChar, pre, suf, st.out)
    requires free < 4096 && Lookup(p, st).Some? && |Lookup(p, st).value| <= 4097
    requires Stacked(oc, Lookup(p, st).value, |Lookup(p, st).value|) && first == Lookup(p, st).value[0]
    requires width == if free + 1 >= Pow2(st.width) && st.width < 12 then st.width + 1 else st.width
    ensures var s := Lookup(p, st).value;
      var h := Half(st.pos, width, st.dict + [st.prev + [first]], s, st.out + Popped(oc, Min(|s|, p.maxPixels - |st.out|)));
      Apply(p, st) == Then(h) &&
      HalfMirrors(p, h, st.pos, width, free + 1, st.code, first, pre[free := oldCode], suf[free := first], h.out)
  {
    var s := Lookup(p, st).value;
    LookupDenotes(p, st, oldCode);
    PoppedTail(oc, s, p.maxPixels - |st.out|);
    RecordEntry(p, pre, suf, st.dict, oldCode, st.prev, first);
    var dict := st.dict + [st.prev + [first]];
    assert forall i :: 0 <= i < |dict| ==> dict[i] != [];
  }

  /** The safety cut of readImage (readgif.cpp:785-787) and the output loop after it. */
  method Hand(t: Tables, sink: Sink, count: nat, npixels: nat, maxPixels: nat) returns (npixels': nat)
    requires t.Valid() && sink.Valid() && Apart(t, sink) && count <= 4097 && npixels <= maxPixels
    modifies sink, sink.pic
    ensures sink.Valid() && npixels' == npixels + Min(count, maxPixels - npixels)
    ensures sink.emitted == old(sink.emitted) + Popped(t.outCode[..], Min(count, maxPixels - npixels))
  {
    var k := count;
    if npixels + k > maxPixels {
      k := maxPixels - npixels;
    }
    Flush(t, sink, k);
    npixels' := npixels + k;
  }

  /** The Clear code belongs to every code width from 1 bit on; 4096 is the code table's size. */
  lemma FreeBound(p: Lzw)
    ensures FirstFree(p) < 4096 ==> p.minSize <= 11
  {
    if p.minSize >= 12 {
      Pow2Grows(12, p.minSize);
      assert Pow2(12) == 4096;
    }
  }

  /**
   * A Clear code (readgif.cpp:717-731): the first code width and free
   * code again, and the next code taken as a pixel; it becomes `OldCode`
   * and, masked to the colour bits, `FinChar`.
   */
  method ClearStep(reader: CodeReader, sink: Sink, initWidth: nat, colorBits: nat, npixels: nat,
                   ghost p: Lzw, ghost st: Lz, ghost ok: bool, ghost pre: seq<int>, ghost suf: seq<int>)
    returns (c: nat, finChar: nat, npixels': nat, ghost ok': bool, ghost h: Half)
    requires sink.Valid() && |sink.emitted| == npixels && 1 <= colorBits <= 8
    requires ok ==> (Consistent(p) && p.colorBits == colorBits && initWidth == InitWidth(p) && p.raster == reader.raster &&
      st.code == Clear(p) && Wf(st) && |st.out| <= p.maxPixels && st.pos == reader.bitOffset && st.out == sink.emitted &&
      |pre| == 4096 && |suf| == 4096)
    modifies reader`bitOffset, reader`codeSize, reader`maxCode, reader`readMask, sink, sink.pic
    ensures reader.Masks() && reader.codeSize == initWidth && c < Pow2(initWidth) && finChar < 256
    ensures sink.Valid() && npixels' == npixels + 1 == |sink.emitted|
    ensures ok' ==> ok
    ensures ok && !ok' ==> Apply(p, st) == Quit(Malformed)
    ensures ok' ==> (Apply(p, st) == Then(h) &&
      HalfMirrors(p, h, reader.bitOffset, initWidth, FirstFree(p), c, finChar, pre, suf, sink.emitted))
  {
    reader.Reset(initWidth);
    c := reader.ReadCode();
    Pow2Grows(colorBits, 8);
    finChar := And(c, Pow2(colorBits) - 1);
    AndSmall(finChar, 8);
    ok' := ok;
    h := Half(0, 0, [], [0], []);
    if ok {
      Pow2Grows(initWidth, 12);
      ClearApplied(p, st, c);
      ok' := c <= BitMask(p);
      if ok' {
        h := Half(st.pos + initWidth, initWidth, [], [c], st.out + [c]);
        assert Apply(p, st) == Then(h);
        ClearMirrors(p, st, c, pre, suf);
      }
    }
    sink.Emit(finChar);
    npixels' := npixels + 1;
  }

  /** After a Clear code and the pixel `c`, the registers mirror an empty dictionary with `c` as previous string. */
  lemma ClearMirrors(p: Lzw, st: Lz, c: nat, pre: seq<int>, suf: seq<int>)
    requires Consistent(p) && c <= BitMask(p) && |pre| == 4096 && |suf| == 4096
    ensures var w := InitWidth(p);
      HalfMirrors(p, Half(st.pos + w, w, [], [c], st.out + [c]), st.pos + w, w, FirstFree(p), c, c, pre, suf, st.out + [c])
  {
    FreeBound(p);
    Pow2Grows(p.minSize, 11);
    assert Pow2(11) == 2048;
  }

  /**
   * The registers, tables and sink mirror decoder state `st`, from which
   * the decoding is that of the whole stream; or the stream is known not
   * to decode.
   */
  ghost predicate Tracks(p: Lzw, ok: bool, st: Lz, code: nat, pos: nat, width: nat, free: nat, oldCode: int, finChar: int,
                         pre: seq<int>, suf: seq<int>, emitted: seq<int>)
  {
    (ok ==> (Consistent(p) && Mirrors(p, st, code, pos, width, free, oldCode, finChar, pre, suf, emitted) &&
             Run(p, st) == Decode(p))) &&
    (Consistent(p) && !ok ==> Decode(p) == Malformed)
  }

  /** The first code: the registers mirror the start state. */
  lemma Start(p: Lzw, code: nat, pre: seq<int>, suf: seq<int>)
    requires Consistent(p) ==> code == CodeBits(p.raster, 0, InitWidth(p))
    requires |pre| == 4096 && |suf| == 4096
    ensures Consistent(p) ==> Tracks(p, true, Initial(p), code, InitWidth(p), InitWidth(p), FirstFree(p), 0, 0, pre, suf, [])
  {
    if Consistent(p) {
      FreeBound(p);
      Pow2Grows(p.minSize, 11);
      Pow2Grows(0, p.colorBits);
      assert Pow2(11) == 2048;
    }
  }

  /** A step that ends the decoding, with the decoded result. */
  lemma Finish(p: Lzw, st: Lz, r: Decoded, ok: bool)
    requires ok ==> (Wf(st) && |st.out| <= p.maxPixels && st.code != Eof(p) &&
      Run(p, st) == Decode(p) && Apply(p, st) == Quit(r))
    ensures ok ==> Decode(p) == r
  {
  }

  /** The next code read after an applied one: the decoding goes on from the state the registers mirror. */
  lemma Advance(p: Lzw, st: Lz, h: Half, code: nat, free: nat, oldCode: int, finChar: int, pre: seq<int>, suf: seq<int>)
    requires Consistent(p) && Wf(st) && |st.out| <= p.maxPixels && st.code != Eof(p) && Apply(p, st) == Then(h)
    requires Run(p, st) == Decode(p)
    requires HalfMirrors(p, h, h.pos, h.width, free, oldCode, finChar, pre, suf, h.out)
    requires code == CodeBits(p.raster, h.pos, h.width)
    ensures |h.out| >= p.maxPixels ==> Decode(p) == Done(h.out)
    ensures |h.out| < p.maxPixels ==> Tracks(p, true, Lz(code, h.pos + h.width, h.width, h.dict, h.prev, h.out),
      code, h.pos + h.width, h.width, free, oldCode, finChar, pre, suf, h.out)
  {
    RunThen(p, st, h);
  }

  /** The `readCode` at the end of a pass (readgif.cpp:820-822) after a code that did not end the decoding. */
  method ReadNext(reader: CodeReader, minSize: nat, ghost p: Lzw, ghost ok: bool, ghost st: Lz, ghost h: Half,
                  ghost free: nat, ghost oldCode: int, ghost finChar: int, ghost pre: seq<int>, ghost suf: seq<int>,
                  ghost emitted: seq<int>)
    returns (code: nat, ghost st': Lz)
    requires p.raster == reader.raster && p.minSize == minSize && reader.Masks()
    requires minSize <= 11 ==> reader.codeSize <= 12
    requires ok ==> (Consistent(p) && Wf(st) && |st.out| <= p.maxPixels && st.code != Eof(p) && Apply(p, st) == Then(h) &&
      Run(p, st) == Decode(p) && HalfMirrors(p, h, reader.bitOffset, reader.codeSize, free, oldCode, finChar, pre, suf, emitted))
    modifies reader`bitOffset
    ensures minSize <= 11 ==> code < 4096
    ensures ok && |emitted| >= p.maxPixels ==> Decode(p) == Done(emitted)
    ensures ok && |emitted| < p.maxPixels ==>
      Tracks(p, true, st', code, reader.bitOffset, reader.codeSize, free, oldCode, finChar, pre, suf, emitted)
  {
    if minSize <= 11 {
      Pow2Grows(reader.codeSize, 12);
      assert Pow2(12) == 4096;
    }
    if ok {
      Pow2Grows(reader.codeSize, 12);
    }
    code := reader.ReadCode();
    st' := st;
    if ok {
      Advance(p, st, h, code, free, oldCode, finChar, pre, suf);
      st' := Lz(code, h.pos + h.width, h.width, h.dict, h.prev, h.out);
    }
  }

  /**
   * One pass of readImage's loop on a Clear code (readgif.cpp:717-731),
   * up to the next code read (readgif.cpp:820-822). `done` is a `break`
   * of the loop.
   */
  method ClearRound(reader: CodeReader, t: Tables, sink: Sink, code: nat, free: nat, oldCode: nat, finChar: nat, npixels: nat,
                    minSize: nat, colorBits: nat, maxPixels: nat, ghost p: Lzw, ghost ok: bool, ghost st: Lz)
    returns (done: bool, code': nat, free': nat, oldCode': nat, finChar': nat, npixels': nat, ghost ok': bool, ghost st': Lz)
    requires p == Lzw(reader.raster, minSize, colorBits, maxPixels) && code == Clear(p)
    requires reader.Masks() && t.Valid() && sink.Valid() && Apart(t, sink) && npixels == |sink.emitted| && 1 <= colorBits <= 8
    requires npixels <= maxPixels && (npixels == maxPixels ==> npixels == 0) && finChar < 256 && free >= FirstFree(p)
    requires minSize <= 11 ==> reader.codeSize <= 12 && code < 4096 && oldCode < 4096
    requires Tracks(p, ok, st, code, reader.bitOffset, reader.codeSize, free, oldCode, finChar, t.prefix[..], t.suffix[..], sink.emitted)
    modifies reader`bitOffset, reader`codeSize, reader`maxCode, reader`readMask, t.prefix, t.suffix, t.outCode, sink, sink.pic
    ensures reader.Masks() && t.Valid() && sink.Valid() && npixels' == |sink.emitted|
    ensures finChar' < 256 && free' >= FirstFree(p)
    ensures minSize <= 11 ==> reader.codeSize <= 12 && code' < 4096 && oldCode' < 4096
    ensures done ==> ((npixels' <= maxPixels || (maxPixels == 0 && npixels' == 1)) &&
      (ok' ==> Decode(p) == Done(sink.emitted)) && (Consistent(p) && !ok' ==> Decode(p) == Malformed))
    ensures !done ==> (npixels < npixels' < maxPixels &&
      Tracks(p, ok', st', code', reader.bitOffset, reader.codeSize, free', oldCode', finChar', t.prefix[..], t.suffix[..], sink.emitted))
  {
    ghost var h: Half;
    st' := st;
    FreeBound(p);
    assert ok ==> (st.code == code && st.pos == reader.bitOffset && st.out == sink.emitted &&
      Wf(st) && |st.out| <= p.maxPixels && Consistent(p));
    oldCode', finChar', npixels', ok', h :=
      ClearStep(reader, sink, minSize + 1, colorBits, npixels, p, st, ok, t.prefix[..], t.suffix[..]);
    free' := Pow2(minSize) + 2;
    if minSize <= 11 {
      Pow2Grows(minSize + 1, 12);
      assert Pow2(12) == 4096;
    }
    Finish(p, st, Malformed, ok && !ok');
    code', st' := ReadNext(reader, minSize, p, ok', st, h, free', oldCode', finChar', t.prefix[..], t.suffix[..], sink.emitted);
    done := npixels' >= maxPixels;
  }

  /**
   * One pass of readImage's loop on a data code (readgif.cpp:733-822),
   * up to the next code read. `done` is a `break` of the loop.
   */
  method DataRound(reader: CodeReader, t: Tables, sink: Sink, code: nat, free: nat, oldCode: nat, finChar: nat, npixels: nat,
                    minSize: nat, colorBits: nat, maxPixels: nat, ghost p: Lzw, ghost ok: bool, ghost st: Lz)
    returns (done: bool, code': nat, free': nat, oldCode': nat, finChar': nat, npixels': nat, ghost ok': bool, ghost st': Lz)
    requires p == Lzw(reader.raster, minSize, colorBits, maxPixels) && code != Clear(p) && code != Eof(p)
    requires reader.Masks() && t.Valid() && sink.Valid() && Apart(t, sink) && npixels == |sink.emitted| && 1 <= colorBits <= 8
    requires npixels <= maxPixels && (npixels == maxPixels ==> npixels == 0) && finChar < 256 && free >= FirstFree(p)
    requires minSize <= 11 ==> reader.codeSize <= 12 && code < 4096 && oldCode < 4096
    requires Tracks(p, ok, st, code, reader.bitOffset, reader.codeSize, free, oldCode, finChar, t.prefix[..], t.suffix[..], sink.emitted)
    modifies reader`bitOffset, reader`codeSize, reader`maxCode, reader`readMask, t.prefix, t.suffix, t.outCode, sink, sink.pic
    ensures reader.Masks() && t.Valid() && sink.Valid() && npixels' == |sink.emitted|
    ensures finChar' < 256 && free' >= FirstFree(p)
    ensures minSize <= 11 ==> reader.codeSize <= 12 && code' < 4096 && oldCode' < 4096
    ensures done ==> ((npixels' <= maxPixels || (maxPixels == 0 && npixels' == 1)) &&
      (ok' ==> Decode(p) == Done(sink.emitted)) && (Consistent(p) && !ok' ==> Decode(p) == Malformed))
    ensures !done ==> (npixels < npixels' < maxPixels &&
      Tracks(p, ok', st', code', reader.bitOffset, reader.codeSize, free', oldCode', finChar', t.prefix[..], t.suffix[..], sink.emitted))
  {
    ghost var h: Half;
    var stop;
    st' := st;
    FreeBound(p);
    assert ok ==> (st.code == code && Wf(st) && |st.out| <= p.maxPixels && Consistent(p));
    stop, free', oldCode', finChar', npixels', ok', h :=
      DataStep(reader, t, sink, code, free, oldCode, finChar, npixels, maxPixels, colorBits, p, st, ok);
    Finish(p, st, Malformed, ok && !ok');
    code' := 0;
    if stop {
      Finish(p, st, Done(sink.emitted), ok');
      done := true;
      return;
    }
    code', st' := ReadNext(reader, minSize, p, ok', st, h, free', oldCode', finChar', t.prefix[..], t.suffix[..], sink.emitted);
    done := npixels' >= maxPixels;
  }

  /**
   * The decoding loop of readImage (readgif.cpp:710-823), from the
   * first code to the EOF code, a full picture, a full table or an
   * overflowing stack. When the code stream decodes under `Decode`, the
   * sink receives exactly the decoded pixels. The count returned is
   * readImage's `npixels`: at most `Width*Height`, except that a lone
   * Clear code and pixel is counted for an empty picture.
   */
  method Decompress(reader: CodeReader, t: Tables, sink: Sink, minSize: nat, colorBits: nat, maxPixels: nat)
    returns (npixels: nat)
    requires reader.bitOffset == 0 && reader.codeSize == minSize + 1 && reader.Masks()
    requires t.Valid() && sink.Valid() && sink.emitted == [] && Apart(t, sink) && 1 <= colorBits <= 8
    modifies reader`bitOffset, reader`codeSize, reader`maxCode, reader`readMask, t.prefix, t.suffix, t.outCode, sink, sink.pic
    ensures t.Valid() && sink.Valid() && npixels == |sink.emitted|
    ensures npixels <= maxPixels || (maxPixels == 0 && npixels == 1)
    ensures var p := Lzw(reader.raster, minSize, colorBits, maxPixels);
      Consistent(p) && Decode(p).Done? ==> sink.emitted == Decode(p).pixels
  {
    ghost var p := Lzw(reader.raster, minSize, colorBits, maxPixels);
    if minSize <= 11 {
      Pow2Grows(minSize + 1, 12);
      assert Pow2(12) == 4096;
    }
    var code := reader.ReadCode();
    Start(p, code, t.prefix[..], t.suffix[..]);
    ghost var ok;
    npixels, ok := Drain(reader, t, sink, code, minSize, colorBits, maxPixels, p, Consistent(p), Initial(p));
  }

  /** The loop of Decompress, from the first code read. */
  method Drain(reader: CodeReader, t: Tables, sink: Sink, code0: nat, minSize: nat, colorBits: nat, maxPixels: nat,
               ghost p: Lzw, ghost ok0: bool, ghost st0: Lz)
    returns (npixels: nat, ghost ok: bool)
    requires p == Lzw(reader.raster, minSize, colorBits, maxPixels)
    requires reader.Masks() && t.Valid() && sink.Valid() && sink.emitted == [] && Apart(t, sink) && 1 <= colorBits <= 8
    requires minSize <= 11 ==> reader.codeSize <= 12 && code0 < 4096
    requires Tracks(p, ok0, st0, code0, reader.bitOffset, reader.codeSize, FirstFree(p), 0, 0, t.prefix[..], t.suffix[..], [])
    modifies reader`bitOffset, reader`codeSize, reader`maxCode, reader`readMask, t.prefix, t.suffix, t.outCode, sink, sink.pic
    ensures t.Valid() && sink.Valid() && npixels == |sink.emitted|
    ensures npixels <= maxPixels || (maxPixels == 0 && npixels == 1)
    ensures ok ==> Decode(p) == Done(sink.emitted)
    ensures Consistent(p) && !ok ==> Decode(p) == Malformed
  {
    var eof: nat := Pow2(minSize) + 1;
    var code: nat, free: nat, oldCode: nat, finChar: nat := code0, Pow2(minSize) + 2, 0, 0;
    npixels := 0;
    ok := ok0;
    ghost var st := st0;
    ghost var settled := false;
    while code != eof
      invariant !settled && reader.Masks() && t.Valid() && sink.Valid() && npixels == |sink.emitted|
      invariant npixels <= maxPixels && (npixels == maxPixels ==> npixels == 0) && finChar < 256 && free >= FirstFree(p)
      invariant minSize <= 11 ==> reader.codeSize <= 12 && code < 4096 && oldCode < 4096
      invariant Tracks(p, ok, st, code, reader.bitOffset, reader.codeSize, free, oldCode, finChar, t.prefix[..], t.suffix[..], sink.emitted)
      decreases maxPixels - npixels
    {
      var done;
      if code == Pow2(minSize) {
        done, code, free, oldCode, finChar, npixels, ok, st :=
          ClearRound(reader, t, sink, code, free, oldCode, finChar, npixels, minSize, colorBits, maxPixels, p, ok, st);
      } else {
        done, code, free, oldCode, finChar, npixels, ok, st :=
          DataRound(reader, t, sink, code, free, oldCode, finChar, npixels, minSize, colorBits, maxPixels, p, ok, st);
      }
      if done {
        settled := true;
        break;
      }
    }
    if ok && !settled {
      RunEof(p, st);
    }
  }
}
