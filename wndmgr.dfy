/**
 * The parts of wndmgr.cpp with behaviour of their own: the layout file
 * that records the windows on the screen (its writer save_layout, its
 * readers is_layout_file, parseN and load_layout_file), the cyclic choice
 * of the next window by tab, and the frame count of the dissolve.
 *
 * A layout file is text. Its first line is the header "Osiva layout
 * file..." followed by a version: " 2", or " 2R" when the image paths are
 * relative to the folder of the layout file. Each further line is a
 * record: the path of an image, then nine integers, each after a '|':
 * left, top, width, height, transparent, tolerance, erosions, mask depth
 * and rotation. Files and the windows themselves are not modelled: the
 * writer produces the text of the file and the reader consumes it and
 * yields the placements of the windows it would open.
 */
module WindowManager {
  import opened Common
  import Snapshot

  // ---------------------------------------------------------------------
  // C library helpers: atoi and the "%d" format

  /** isspace in the C locale. */
  predicate IsSpace(c: char)
  {
    c == ' ' || c == '\t' || c == '\n' || c == '\U{000B}' || c == '\U{000C}' || c == '\r'
  }

  predicate IsDigit(c: char)
  {
    '0' <= c <= '9'
  }

  /** The number a string of digits spells, most significant first. */
  function Value(d: string): (v: nat)
    requires forall i :: 0 <= i < |d| ==> IsDigit(d[i])
  {
    if d == [] then 0
    else
      var c := d[|d| - 1];
      assert IsDigit(c);
      10 * Value(d[..|d| - 1]) + (c as int - '0' as int)
  }

  /** The first position at or after `k` whose character satisfies neither test. */
  function SkipWhite(s: string, k: nat): (j: nat)
    requires k <= |s|
    ensures k <= j <= |s| && (j < |s| ==> !IsSpace(s[j]))
    decreases |s| - k
  {
    if k == |s| || !IsSpace(s[k]) then k else SkipWhite(s, k + 1)
  }

  function DigitsEnd(s: string, k: nat): (j: nat)
    requires k <= |s|
    ensures k <= j <= |s| && (j < |s| ==> !IsDigit(s[j]))
    ensures forall i :: k <= i < j ==> IsDigit(s[i])
    decreases |s| - k
  {
    if k == |s| || !IsDigit(s[k]) then k else DigitsEnd(s, k + 1)
  }

  /**
   * atoi: white space, an optional sign, then as many digits as there are.
   * Anything else ends the number; no digits at all give 0.
   */
  function Atoi(s: string): int
  {
    var i := SkipWhite(s, 0);
    var neg := i < |s| && s[i] == '-';
    var d := if i < |s| && (s[i] == '-' || s[i] == '+') then i + 1 else i;
    var v: int := Value(s[d..DigitsEnd(s, d)]);
    if neg then -v else v
  }

  /** The digits of a natural number, as "%d" prints them. */
  function Digits(n: nat): (d: string)
    ensures |d| > 0 && forall i :: 0 <= i < |d| ==> IsDigit(d[i])
    ensures Value(d) == n
  {
    if n < 10 then [('0' as int + n) as char]
    else
      var h := Digits(n / 10);
      var d := h + [('0' as int + n % 10) as char];
      assert d[..|d| - 1] == h;
      d
  }

  /** "%d": a minus sign for a negative number, then its digits. */
  function Decimal(v: int): (d: string)
    ensures |d| > 0 && !IsSpace(d[0])
    ensures forall i :: 0 <= i < |d| ==> IsDigit(d[i]) || (i == 0 && d[i] == '-')
  {
    if v < 0 then ['-'] + Digits(-v) else Digits(v)
  }

  /** atoi reads back what "%d" prints. */
  lemma AtoiDecimal(v: int)
    ensures Atoi(Decimal(v)) == v
  {
    var s := Decimal(v);
    var d := if v < 0 then 1 else 0;
    assert SkipWhite(s, 0) == 0;
    DigitsRun(s, d);
    if v < 0 {
      assert s == ['-'] + Digits(-v);
      assert s[1..|s|] == Digits(-v);
      assert Value(s[1..DigitsEnd(s, 1)]) == -v;
    } else {
      assert s[0..|s|] == Digits(v);
    }
  }

  /** A string that is all digits from `k` on is read to its end. */
  lemma DigitsRun(s: string, k: nat)
    requires k <= |s| && forall i :: k <= i < |s| ==> IsDigit(s[i])
    ensures DigitsEnd(s, k) == |s|
    decreases |s| - k
  {
    if k < |s| {
      DigitsRun(s, k + 1);
    }
  }

  // ---------------------------------------------------------------------
  // strtok and parseN (wndmgr.cpp:1507-1525)

  /** The fields of a string: the maximal runs of characters that are not separators. */
  function Fields(s: string, seps: set<char>): seq<string>
    decreases |s|
  {
    if s == [] then []
    else if s[0] in seps then Fields(s[1..], seps)
    else
      var e := RunEnd(s, seps, 0);
      [s[..e]] + Fields(s[e..], seps)
  }

  /** The first separator at or after `k`, or the end. */
  function RunEnd(s: string, seps: set<char>, k: nat): (e: nat)
    requires k <= |s|
    ensures k <= e <= |s| && (e < |s| ==> s[e] in seps)
    ensures forall i :: k <= i < e ==> s[i] !in seps
    decreases |s| - k
  {
    if k == |s| || s[k] in seps then k else RunEnd(s, seps, k + 1)
  }

  /**
   * Fields split at a separator: the fields of a string that ends in a
   * separator, or is followed by one, then those of what follows.
   */
  lemma {:induction false} FieldsAppend(a: string, b: string, seps: set<char>)
    requires a == [] || a[|a| - 1] in seps || b == [] || b[0] in seps
    ensures Fields(a + b, seps) == Fields(a, seps) + Fields(b, seps)
    decreases |a|
  {
    if a == [] {
      assert a + b == b;
    } else if a[0] in seps {
      var s := a + b;
      assert s != [] && s[0] == a[0] && s[1..] == a[1..] + b;
      assert Fields(s, seps) == Fields(s[1..], seps);
      FieldsAppend(a[1..], b, seps);
    } else {
      var e := RunEnd(a, seps, 0);
      var s := a + b;
      if e < |a| {
        RunEndIs(s, seps, 0, e);
        assert s[..e] == a[..e];
        assert s[e..] == a[e..] + b;
        FieldsAppend(a[e..], b, seps);
      } else {
        assert a[|a| - 1] !in seps;
        RunEndIs(s, seps, 0, e);
        assert s[..e] == a && s[e..] == b;
        assert a[..e] == a && a[e..] == [];
        assert Fields(a, seps) == [a[..e]] + Fields(a[e..], seps);
      }
    }
  }

  /** A string without separators, when it is not empty, is one field. */
  lemma FieldsOne(x: string, seps: set<char>)
    requires x != [] && forall i :: 0 <= i < |x| ==> x[i] !in seps
    ensures Fields(x, seps) == [x]
  {
    RunEndIs(x, seps, 0, |x|);
    assert x[0] !in seps && x[..|x|] == x && x[|x|..] == [];
    assert Fields(x, seps) == [x[..|x|]] + Fields(x[|x|..], seps);
  }

  /** The separators of parseN: '|' and newline, and also ',' for the nine fields of version 1. */
  function Separators(n: int): set<char>
  {
    if n == 9 then {',', '|', '\n'} else {'|', '\n'}
  }

  /**
   * What parseN returns: the first `n` fields. The count is tested only
   * after a second field has been stored, so with `n` below 2 every field
   * is returned.
   */
  function Taken(fs: seq<string>, n: int): (r: seq<string>)
    ensures |r| <= |fs| && r == fs[..|r|]
    ensures 2 <= n ==> |r| == Min(n, |fs|)
  {
    if 2 <= n && n < |fs| then fs[..n] else fs
  }

  /**
   * strtok from position `p`: the separators there are passed over, and
   * the field after them is returned with the position after the
   * separator that ends it; there is no field when only separators are
   * left.
   */
  method Strtok(line: string, seps: set<char>, p: nat) returns (tok: Option<string>, next: nat)
    requires p <= |line|
    ensures p <= next <= |line|
    ensures tok.None? ==> Fields(line[p..], seps) == []
    ensures tok.Some? ==> p < next && Fields(line[p..], seps) == [tok.value] + Fields(line[next..], seps)
  {
    var j := p;
    while j < |line| && line[j] in seps
      invariant p <= j <= |line| && Fields(line[p..], seps) == Fields(line[j..], seps)
    {
      assert line[j..][1..] == line[j + 1..];
      j := j + 1;
    }
    if j == |line| {
      return None, j;
    }
    var e := j + 1;
    while e < |line| && line[e] !in seps
      invariant j < e <= |line| && forall i :: j <= i < e ==> line[i] !in seps
    {
      e := e + 1;
    }
    FieldAt(line, seps, j, e);
    tok := Some(line[j..e]);
    next := e;
    if e < |line| {
      assert line[e..][1..] == line[e + 1..];
      next := e + 1;
    }
  }

  /** The field that starts at `j` and ends at the separator at `e` (or the end). */
  lemma FieldAt(line: string, seps: set<char>, j: nat, e: nat)
    requires j < e <= |line| && (e < |line| ==> line[e] in seps) && forall i :: j <= i < e ==> line[i] !in seps
    ensures Fields(line[j..], seps) == [line[j..e]] + Fields(line[e..], seps)
  {
    var s := line[j..];
    RunEndIs(s, seps, 0, e - j);
    assert s[..e - j] == line[j..e];
    assert s[e - j..] == line[e..];
  }

  /** Where the run from `k` ends, when the characters of the run are known. */
  lemma RunEndIs(s: string, seps: set<char>, k: nat, e: nat)
    requires k <= e <= |s| && (e < |s| ==> s[e] in seps) && forall i :: k <= i < e ==> s[i] !in seps
    ensures RunEnd(s, seps, k) == e
  {
  }

  /**
   * parseN (wndmgr.cpp:1507-1525): the fields of a line, split on the
   * separators for `n` fields, stopping once `n` have been stored.
   */
  method ParseN(line: string, n: int) returns (toks: seq<string>)
    ensures toks == Taken(Fields(line, Separators(n)), n)
  {
    var seps := Separators(n);
    ghost var all := Fields(line, seps);
    assert line[0..] == line;
    var token, p := Strtok(line, seps, 0);
    toks := [];
    if token.Some? {
      toks := [token.value];
    }
    while token.Some?
      invariant p <= |line| && |toks| <= |all| && toks == all[..|toks|]
      invariant token.Some? ==> Fields(line[p..], seps) == all[|toks|..] && |toks| >= 1 && (2 <= n ==> |toks| < n)
      invariant token.None? ==> toks == all && (2 <= n ==> |toks| <= n)
      decreases |line| - p, token.Some?
    {
      token, p := Strtok(line, seps, p);
      if token.Some? {
        toks := toks + [token.value];
      }
      if |toks| == n {
        break;
      }
    }
  }

  // ---------------------------------------------------------------------
  // fgets and is_layout_file (wndmgr.cpp:1471-1499)

  /** The header and "magic" of a layout file (wndmgr.cpp:65). */
  const HEADER: string := "Osiva layout file..."

  /** _MAX_PATH, the longest path Windows accepts, with its NUL. */
  const MAX_PATH: nat := 260

  /**
   * Where `fgets` into a buffer of `size` characters stops reading: after
   * a newline, after `size - 1` characters, or at the end of the text.
   */
  function FgetsEnd(text: string, pos: nat, size: nat): (e: nat)
    requires pos <= |text|
    ensures pos <= e <= |text| && e <= pos + Max(size - 1, 0)
    ensures forall i :: pos <= i < e - 1 ==> text[i] != '\n'
    ensures 1 < size && pos < |text| ==> pos < e
    ensures e < |text| && e < pos + size - 1 ==> pos < e && text[e - 1] == '\n'
    decreases size
  {
    if pos == |text| || size <= 1 then pos
    else if text[pos] == '\n' then pos + 1
    else FgetsEnd(text, pos + 1, size - 1)
  }

  /** The string a buffer holds once a trailing newline is cut off. */
  function Chomp(b: string): string
  {
    if |b| > 0 && b[|b| - 1] == '\n' then b[..|b| - 1] else b
  }

  /**
   * is_layout_file (wndmgr.cpp:1471-1499) on the text of the file: 0 when
   * the first line read into 80 characters does not start with the
   * header, 1 when nothing follows the header, otherwise atoi of what
   * follows, negated when the line ends in 'R' (paths relative to the
   * folder of the layout file).
   */
  function LayoutVersion(text: string): int
  {
    if |text| == 0 then 0 else LineVersion(FirstLine(text))
  }

  /** The first line of a file as is_layout_file reads it: 79 characters at most, and no newline. */
  function FirstLine(text: string): (line: string)
    ensures |line| <= |text| && line == text[..|line|]
  {
    var b := text[..FgetsEnd(text, 0, 80)];
    var t := Snapshot.Text(b);
    assert t == text[..|t|];
    Chomp(t)
  }

  /** The version a first line announces. */
  function LineVersion(line: string): (v: int)
    ensures v != 0 ==> |HEADER| <= |line| && line[..|HEADER|] == HEADER
  {
    if |line| < |HEADER| || line[..|HEADER|] != HEADER then 0
    else if |line| == |HEADER| then 1
    else
      var v := Atoi(line[|HEADER|..]);
      if line[|line| - 1] == 'R' then -v else v
  }

  /** Only a file that starts with the header is a layout file. */
  lemma VersionNeedsHeader(text: string)
    requires LayoutVersion(text) != 0
    ensures |HEADER| <= |text| && text[..|HEADER|] == HEADER
  {
    var line := FirstLine(text);
    assert line[..|HEADER|] == text[..|HEADER|];
  }

  /** A C string that holds no NUL is all of its buffer. */
  lemma TextWhole(a: string)
    requires Snapshot.NUL !in a
    ensures Snapshot.Text(a) == a
  {
  }

  /** The first line save_layout writes (wndmgr.cpp:1348-1352). */
  function HeaderLine(consolidate: bool): string
  {
    HEADER + (if consolidate then " 2R\n" else " 2\n")
  }

  /**
   * A file that starts with the first line save_layout writes is a layout
   * file of version 2, with relative paths exactly when it was written
   * consolidated.
   */
  lemma HeaderVersion(consolidate: bool, rest: string)
    ensures LayoutVersion(HeaderLine(consolidate) + rest) == if consolidate then -2 else 2
  {
    HeaderFirstLine(consolidate, rest);
    HeaderLineVersion(consolidate);
  }

  lemma HeaderFirstLine(consolidate: bool, rest: string)
    ensures FirstLine(HeaderLine(consolidate) + rest) == HEADER + (if consolidate then " 2R" else " 2")
  {
    var h := HeaderLine(consolidate);
    var tail := if consolidate then " 2R\n" else " 2\n";
    var text := h + rest;
    HeaderClean();
    assert tail[|tail| - 1] == '\n' && Snapshot.NUL !in tail;
    assert forall i :: 0 <= i < |h| - 1 ==> h[i] != '\n' by {
      forall i | 0 <= i < |h| - 1
        ensures h[i] != '\n'
      {
        if i < |HEADER| {
          assert h[i] == HEADER[i];
        } else {
          assert h[i] == tail[i - |HEADER|];
        }
      }
    }
    FgetsWholeLine(text, 0, |h|, 80);
    assert text[..|h|] == h;
    TextWhole(h);
  }

  /** The header holds neither a newline nor a NUL. */
  lemma HeaderClean()
    ensures Snapshot.NUL !in HEADER && '\n' !in HEADER
  {
  }

  lemma HeaderLineVersion(consolidate: bool)
    ensures LineVersion(HEADER + (if consolidate then " 2R" else " 2")) == if consolidate then -2 else 2
  {
    var line := HEADER + (if consolidate then " 2R" else " 2");
    assert line[..|HEADER|] == HEADER;
    var tail := line[|HEADER|..];
    assert tail == if consolidate then " 2R" else " 2";
    assert SkipWhite(tail, 0) == 1;
    assert DigitsEnd(tail, 1) == 2;
    assert tail[1..2] == "2";
    assert Value("2") == 2 by {
      assert "2"[..0] == "";
    }
  }

  /** fgets reads a line that ends in its only newline and fits the buffer whole. */
  lemma FgetsWholeLine(text: string, pos: nat, e: nat, size: nat)
    requires pos < e <= |text| && e - pos < size && text[e - 1] == '\n'
    requires forall i :: pos <= i < e - 1 ==> text[i] != '\n'
    ensures FgetsEnd(text, pos, size) == e
    decreases e - pos
  {
    if pos + 1 < e {
      FgetsWholeLine(text, pos + 1, e, size - 1);
    }
  }

  // ---------------------------------------------------------------------
  // save_layout (wndmgr.cpp:1271-1417)

  /**
   * A window as save_layout reads it: the path of its image (none for a
   * window without one), the corner of its window on the screen, the size
   * of its image and its transparency settings and rotation.
   */
  datatype Shown = Shown(path: Option<string>, left: int, top: int, width: int, height: int,
                         transparent: int, tolerance: int, erosions: int, depth: int, rotation: int)

  /** The position of the last `c` in `s`, as strrchr finds it. */
  function LastIndex(s: string, c: char): (r: Option<nat>)
    ensures r.Some? ==> r.value < |s| && s[r.value] == c && c !in s[r.value + 1..]
    ensures r.None? ==> c !in s
  {
    if |s| == 0 then None
    else if s[|s| - 1] == c then Some(|s| - 1)
    else
      var r := LastIndex(s[..|s| - 1], c);
      assert s[..|s| - 1] + [s[|s| - 1]] == s;
      r
  }

  /** The file name of a path: what follows its last backslash. */
  function BaseName(path: string): (b: string)
    ensures '\\' !in b && |b| <= |path|
  {
    match LastIndex(path, '\\')
    case None => path
    case Some(i) => path[i + 1..]
  }

  /** The path written for a window: its file name alone when consolidating. */
  function Written(path: string, consolidate: bool): string
  {
    if consolidate then BaseName(path) else path
  }

  /** One integer of a record, after its '|'. */
  function Bar(n: int): string
  {
    "|" + Decimal(n)
  }

  /** Whether a window gets a record: it has a path and what is written of it has 3 characters or more. */
  predicate Kept(w: Shown, consolidate: bool)
  {
    w.path.Some? && |Written(w.path.value, consolidate)| >= 3
  }

  /** The record of one window (wndmgr.cpp:1398-1414), empty when it is skipped. */
  function RecordOf(w: Shown, consolidate: bool): string
  {
    if Kept(w, consolidate) then Line(Written(w.path.value, consolidate), w) else ""
  }

  /** A record line: the path, the nine integers, the newline. */
  function Line(dst: string, w: Shown): string
  {
    dst + Bar(w.left) + Bar(w.top) + Bar(w.width) + Bar(w.height) + Bar(w.transparent)
      + Bar(w.tolerance) + Bar(w.erosions) + Bar(w.depth) + Bar(w.rotation) + "\n"
  }

  /** The records of windows in the order given. */
  function Records(ws: seq<Shown>, consolidate: bool): string
  {
    if ws == [] then "" else RecordOf(ws[0], consolidate) + Records(ws[1..], consolidate)
  }

  function Reverse<T>(xs: seq<T>): (r: seq<T>)
    ensures |r| == |xs| && forall i :: 0 <= i < |xs| ==> r[i] == xs[|xs| - 1 - i]
  {
    if xs == [] then [] else Reverse(xs[1..]) + [xs[0]]
  }

  /**
   * The text save_layout writes for the windows in z order, topmost
   * first: the header line, then a record per window from the bottom up.
   */
  function LayoutText(zorder: seq<Shown>, consolidate: bool): string
  {
    HeaderLine(consolidate) + Records(Reverse(zorder), consolidate)
  }

  lemma Associative(a: string, b: string, c: string)
    ensures a + (b + c) == (a + b) + c
  {
  }

  /** One more record at the end. */
  lemma RecordsSnoc(ws: seq<Shown>, w: Shown, consolidate: bool)
    ensures Records(ws + [w], consolidate) == Records(ws, consolidate) + RecordOf(w, consolidate)
  {
    if ws != [] {
      assert (ws + [w])[0] == ws[0] && (ws + [w])[1..] == ws[1..] + [w];
      RecordsSnoc(ws[1..], w, consolidate);
      Associative(RecordOf(ws[0], consolidate), Records(ws[1..], consolidate), RecordOf(w, consolidate));
    }
  }

  /**
   * The writing loop of save_layout (wndmgr.cpp:1348-1415): the header
   * line, then the windows walked from the bottom of the z order up, each
   * kept one as a record.
   */
  method SaveLayout(zorder: seq<Shown>, consolidate: bool) returns (text: string)
    ensures text == LayoutText(zorder, consolidate)
  {
    text := HEADER;
    if consolidate {
      text := text + " 2R\n";
    } else {
      text := text + " 2\n";
    }
    var i := |zorder|;
    while i > 0
      invariant 0 <= i <= |zorder|
      invariant text == HeaderLine(consolidate) + Records(Reverse(zorder[i..]), consolidate)
    {
      i := i - 1;
      var w := zorder[i];
      LayoutStep(zorder, i, consolidate);
      if w.path.None? {
        continue;
      }
      var dst := w.path.value;
      if consolidate {
        var cp := LastIndex(dst, '\\');
        if cp.Some? {
          dst := dst[cp.value + 1..];
        }
      }
      if |dst| < 3 {
        continue;
      }
      assert Line(dst, w) == RecordOf(w, consolidate);
      text := PrintRecord(text, dst, w);
    }
    assert zorder[0..] == zorder;
  }

  /** The bytes `260 - strlen(name)` holds as a 32-bit size_t. */
  function Room(length: nat): (r: nat)
    ensures r < 0x1_0000_0000
    ensures length <= 260 ==> r == 260 - length
  {
    (260 - length) % 0x1_0000_0000
  }

  /**
   * The name a layout is saved under (wndmgr.cpp:1327-1335): ".osiva" is
   * appended when the name has no '.' or what follows its last '.' is
   * more than five characters, and `260 - strlen` leaves more than 7.
   */
  function LayoutName(file: string): (name: string)
    ensures name == file || name == file + ".osiva"
    ensures name != file <==> (LastIndex(file, '.').None? || |file| - LastIndex(file, '.').value > 6) && Room(|file|) > 7
  {
    var dot := LastIndex(file, '.');
    var extlen := if dot.None? then 0 else |file| - dot.value;
    if (extlen == 0 || extlen > 6) && Room(|file|) > 7 then file + ".osiva" else file
  }

  /** A name the rule has been applied to is left alone the next time. */
  lemma LayoutNameIdempotent(file: string)
    ensures LayoutName(LayoutName(file)) == LayoutName(file)
  {
    var name := LayoutName(file);
    if name != file {
      assert name[|file|] == '.' && name[|file| + 1..] == "osiva";
      LastIndexIs(name, '.', |file|);
    }
  }

  /** The last `c` is the one no `c` follows. */
  lemma LastIndexIs(s: string, c: char, k: nat)
    requires k < |s| && s[k] == c && c !in s[k + 1..]
    ensures LastIndex(s, c) == Some(k)
  {
  }

  /** The text so far, one window further down the z order. */
  lemma LayoutStep(zorder: seq<Shown>, i: nat, consolidate: bool)
    requires i < |zorder|
    ensures HeaderLine(consolidate) + Records(Reverse(zorder[i..]), consolidate)
      == HeaderLine(consolidate) + Records(Reverse(zorder[i + 1..]), consolidate) + RecordOf(zorder[i], consolidate)
  {
    assert Reverse(zorder[i..]) == Reverse(zorder[i + 1..]) + [zorder[i]] by {
      assert zorder[i..][1..] == zorder[i + 1..];
    }
    RecordsSnoc(Reverse(zorder[i + 1..]), zorder[i], consolidate);
  }

  /** The fprintf calls of one record (wndmgr.cpp:1402-1414). */
  method PrintRecord(text: string, dst: string, w: Shown) returns (out: string)
    ensures out == text + Line(dst, w)
  {
    var record := dst;
    record := record + Bar(w.left);
    record := record + Bar(w.top);
    record := record + Bar(w.width);
    record := record + Bar(w.height);
    record := record + Bar(w.transparent);
    record := record + Bar(w.tolerance);
    record := record + Bar(w.erosions);
    record := record + Bar(w.depth);
    record := record + Bar(w.rotation);
    record := record + "\n";
    out := text + record;
  }

  // ---------------------------------------------------------------------
  // load_layout_file (wndmgr.cpp:1531-1627)

  /**
   * A window as load_layout_file opens it: the path of its image, its
   * rectangle, its transparency flag, the tolerance, erosions and mask
   * depth it applies when transparent, and the quarter turns it makes
   * (true for clockwise).
   */
  datatype Placement = Placement(path: string, rect: Snapshot.Rect, transparent: int,
                                 options: Option<(int, int, int)>, turns: seq<bool>)

  /** What the reader needs to know of the file: fields per record, and the folder of relative paths. */
  datatype Context = Context(ntoks: int, relative: bool, folder: string)

  /**
   * The turns for a recorded rotation (wndmgr.cpp:1598-1607): 2 falls
   * through to 1 and so turns twice clockwise, 3 turns once the other
   * way, anything else not at all.
   */
  function Turns(rotation: int): (ts: seq<bool>)
    ensures |ts| <= 2
  {
    if rotation == 2 then [true, true]
    else if rotation == 1 then [true]
    else if rotation == 3 then [false]
    else []
  }

  /** The rotation a window reaches by the turns from `start`. */
  function ApplyTurns(start: int, ts: seq<bool>): (r: int)
    requires 0 <= start < 4
    ensures 0 <= r < 4
    decreases |ts|
  {
    if ts == [] then start else ApplyTurns(Snapshot.Turn(start, ts[0]), ts[1..])
  }

  /** A freshly loaded window turned as recorded comes back to the recorded rotation. */
  lemma TurnsRestore(rotation: int)
    requires 0 <= rotation < 4
    ensures ApplyTurns(0, Turns(rotation)) == rotation
  {
    if rotation == 2 {
      assert Turns(2)[1..] == [true];
    }
  }

  /** The folder of a path: all before its last backslash, or the path itself when it has none. */
  function Folder(path: string): string
  {
    match LastIndex(path, '\\')
    case None => path
    case Some(i) => path[..i]
  }

  /** The bytes sprintf writes for folder, backslash, name and NUL. */
  function PathBytes(folderLength: int, nameLength: int): int
  {
    folderLength + 1 + nameLength + 1
  }

  /** The test of wndmgr.cpp:1576 that skips a relative path too long for its buffer. */
  predicate OverLongAsWritten(folderLength: int, nameLength: int)
  {
    folderLength + nameLength > MAX_PATH
  }

  /** The buffer of a relative path holds _MAX_PATH + 1 characters (wndmgr.cpp:1550). */
  predicate OverLong(folderLength: int, nameLength: int)
  {
    PathBytes(folderLength, nameLength) > MAX_PATH + 1
  }

  /**
   * The test as written lets through a folder and a name whose joined path
   * and NUL are one character longer than the buffer.
   */
  lemma RelativePathOverrun()
    ensures !OverLongAsWritten(250, 10) && PathBytes(250, 10) > MAX_PATH + 1
  {
  }

  /** The path a window is opened with. */
  function ImagePath(ctx: Context, name: string): string
  {
    if ctx.relative then ctx.folder + "\\" + name else name
  }

  /**
   * The window a record opens (wndmgr.cpp:1572-1620): none for fewer than
   * nine fields or for a relative path too long for its buffer; otherwise
   * the fields read by atoi, the rotation only when a tenth field is
   * there, the rectangle with right = left + width - 1 and
   * bottom = top + height - 1.
   */
  function Placed(ctx: Context, toks: seq<string>): (p: Option<Placement>)
    ensures p.Some? ==> 9 <= |toks| && p.value.path == ImagePath(ctx, toks[0])
    ensures p.Some? && ctx.relative ==> |p.value.path| + 1 <= MAX_PATH + 1
    ensures p.None? ==> |toks| < 9 || (ctx.relative && OverLong(|ctx.folder|, |toks[0]|))
  {
    if |toks| < 9 then None
    else if ctx.relative && OverLong(|ctx.folder|, |toks[0]|) then None
    else
      var left := Atoi(toks[1]);
      var top := Atoi(toks[2]);
      var width := Atoi(toks[3]);
      var height := Atoi(toks[4]);
      var trans := Atoi(toks[5]);
      var rotation := if |toks| > 9 then Atoi(toks[9]) else 0;
      Some(Placement(ImagePath(ctx, toks[0]), Snapshot.Rect(left, top, left + width - 1, top + height - 1), trans,
                     if trans != 0 then Some((Atoi(toks[6]), Atoi(toks[7]), Atoi(toks[8]))) else None,
                     Turns(rotation)))
  }

  /** The fields of one line as the reader takes them. */
  function LineFields(ctx: Context, line: string): seq<string>
  {
    Taken(Fields(Snapshot.Text(line), Separators(ctx.ntoks)), ctx.ntoks)
  }

  /** The windows the records of the rest of a file open, line by line as fgets reads into 256 characters. */
  function LoadFrom(ctx: Context, rest: string): (ps: seq<Placement>)
    ensures ctx.relative ==> forall i :: 0 <= i < |ps| ==> |ps[i].path| + 1 <= MAX_PATH + 1
    decreases |rest|
  {
    if rest == [] then []
    else
      var e := FgetsEnd(rest, 0, 256);
      var p := Placed(ctx, LineFields(ctx, rest[..e]));
      (if p.Some? then [p.value] else []) + LoadFrom(ctx, rest[e..])
  }

  /** How a file of the given version is read. */
  function ContextOf(path: string, version: int): Context
  {
    var v := if version < 0 then -version else version;
    Context(if v > 1 then 10 else 9, version < 0, if version < 0 then Folder(path) else "")
  }

  /**
   * load_layout_file with its skips corrected: the windows a layout file
   * opens, none when it is not a layout file, and its first line passed
   * over.
   */
  function Loaded(path: string, text: string): seq<Placement>
  {
    var version := LayoutVersion(text);
    if version == 0 then []
    else LoadFrom(ContextOf(path, version), text[FgetsEnd(text, 0, 256)..])
  }

  /**
   * One pass of the loop of load_layout_file (wndmgr.cpp:1572-1621): the
   * window the fields of one line open, or nothing when they are skipped.
   */
  method ReadRecord(ntoks: int, relative: bool, rpath: string, toks: seq<string>) returns (p: Option<Placement>)
    ensures p == Placed(Context(ntoks, relative, rpath), toks)
  {
    var n := |toks|;
    if n < 9 {
      return None;
    }
    var imgpath := toks[0];
    if relative {
      if |rpath| + 1 + |toks[0]| + 1 > MAX_PATH + 1 {
        return None;
      }
      imgpath := rpath + "\\" + toks[0];
    }
    var left := Atoi(toks[1]);
    var top := Atoi(toks[2]);
    var width := Atoi(toks[3]);
    var height := Atoi(toks[4]);
    var trans := Atoi(toks[5]);
    var tolerance := Atoi(toks[6]);
    var erosion := Atoi(toks[7]);
    var depth := Atoi(toks[8]);
    var rotation := 0;
    if n > 9 {
      rotation := Atoi(toks[9]);
    }
    var options := None;
    if trans != 0 {
      options := Some((tolerance, erosion, depth));
    }
    p := Some(Placement(imgpath, Snapshot.Rect(left, top, left + width - 1, top + height - 1), trans, options, Turns(rotation)));
  }

  /** One line taken off the rest of a file keeps the windows opened so far and those still to come together. */
  lemma LoadStep(ctx: Context, rest: string, placed: seq<Placement>, all: seq<Placement>)
    requires rest != [] && placed + LoadFrom(ctx, rest) == all
    ensures var e := FgetsEnd(rest, 0, 256);
            var p := Placed(ctx, LineFields(ctx, rest[..e]));
            (if p.Some? then placed + [p.value] else placed) + LoadFrom(ctx, rest[e..]) == all
  {
    var e := FgetsEnd(rest, 0, 256);
    var p := Placed(ctx, LineFields(ctx, rest[..e]));
    var tail := LoadFrom(ctx, rest[e..]);
    assert LoadFrom(ctx, rest) == (if p.Some? then [p.value] else []) + tail;
    if p.Some? {
      assert placed + ([p.value] + tail) == placed + [p.value] + tail;
    }
  }

  /**
   * load_layout_file (wndmgr.cpp:1531-1627), with a skipped record going
   * on to the next line: each line after the first is split by parseN
   * and, unless it is skipped, opens a window.
   */
  method LoadLayout(path: string, text: string) returns (placed: seq<Placement>)
    ensures placed == Loaded(path, text)
    ensures LayoutVersion(text) < 0 ==> forall i :: 0 <= i < |placed| ==> |placed[i].path| + 1 <= MAX_PATH + 1
  {
    var version := LayoutVersion(text);
    placed := [];
    if version == 0 {
      return;
    }
    ghost var ctx := ContextOf(path, version);
    var relative := false;
    var rpath := "";
    if version < 0 {
      relative := true;
      version := -version;
      rpath := path;
      var cp := LastIndex(rpath, '\\');
      if cp.Some? {
        rpath := rpath[..cp.value];
      }
    }
    var ntoks := 9;
    if version > 1 {
      ntoks := 10;
    }
    assert ctx == Context(ntoks, relative, rpath);
    var rest := text[FgetsEnd(text, 0, 256)..];
    ghost var all := LoadFrom(ctx, rest);
    while rest != []
      invariant placed + LoadFrom(ctx, rest) == all
      decreases |rest|
    {
      var e := FgetsEnd(rest, 0, 256);
      var toks := ParseN(Snapshot.Text(rest[..e]), ntoks);
      var p := ReadRecord(ntoks, relative, rpath, toks);
      LoadStep(ctx, rest, placed, all);
      if p.Some? {
        placed := placed + [p.value];
      }
      rest := rest[e..];
    }
  }

  // ---------------------------------------------------------------------
  // The loop of load_layout_file as written

  /**
   * The buffer after strtok has returned the first field of a line: a NUL
   * now ends it after that field, so what a C string of it holds is the
   * leading separators and the field; a line with no field is left alone.
   */
  function Mangled(s: string, seps: set<char>): string
    decreases |s|
  {
    if s == [] then []
    else if s[0] in seps then [s[0]] + Mangled(s[1..], seps)
    else s[..RunEnd(s, seps, 0)]
  }

  /** A mangled buffer holds at most one field, and strtok leaves it as it is. */
  lemma {:induction false} MangledFields(s: string, seps: set<char>)
    ensures |Fields(Mangled(s, seps), seps)| <= 1
    ensures Mangled(Mangled(s, seps), seps) == Mangled(s, seps)
    decreases |s|
  {
    var m := Mangled(s, seps);
    if s == [] {
    } else if s[0] in seps {
      var t := Mangled(s[1..], seps);
      MangledFields(s[1..], seps);
      assert m == [s[0]] + t && m[0] == s[0] && m[1..] == t;
      assert Fields(m, seps) == Fields(t, seps);
      assert Mangled(m, seps) == [s[0]] + Mangled(t, seps);
    } else {
      var e := RunEnd(s, seps, 0);
      assert m == s[..e] && 0 < e;
      assert forall i :: 0 <= i < |m| ==> m[i] == s[i];
      FieldsOne(m, seps);
      RunEndIs(m, seps, 0, |m|);
      assert m[0] !in seps && m[..|m|] == m;
    }
  }

  /**
   * Where the loop stands: the C string in the buffer, and the part of the
   * file fgets has not read yet.
   */
  datatype Reader = Reader(buffer: string, rest: string)

  /**
   * One pass of the loop as written (wndmgr.cpp:1570-1622): a skipped
   * record `continue`s without calling fgets, so the next pass splits the
   * buffer strtok has already cut; a placed record reads the next line,
   * and the loop ends when there is none.
   */
  function NextAsWritten(ctx: Context, r: Reader): (next: Option<Reader>)
    ensures Placed(ctx, Taken(Fields(r.buffer, Separators(ctx.ntoks)), ctx.ntoks)).None? ==>
              next == Some(Reader(Mangled(r.buffer, Separators(ctx.ntoks)), r.rest))
  {
    var seps := Separators(ctx.ntoks);
    if Placed(ctx, Taken(Fields(r.buffer, seps), ctx.ntoks)).None? then Some(Reader(Mangled(r.buffer, seps), r.rest))
    else if r.rest == [] then None
    else
      var e := FgetsEnd(r.rest, 0, 256);
      Some(Reader(Snapshot.Text(r.rest[..e]), r.rest[e..]))
  }

  /**
   * Once a record is skipped the loop as written never reads another
   * line: the pass after the skip finds at most one field, skips again and
   * leaves the reader as it found it, for ever.
   */
  lemma SkipStalls(ctx: Context, r: Reader)
    requires Placed(ctx, Taken(Fields(r.buffer, Separators(ctx.ntoks)), ctx.ntoks)).None?
    ensures var stuck := Reader(Mangled(r.buffer, Separators(ctx.ntoks)), r.rest);
            NextAsWritten(ctx, r) == Some(stuck) && NextAsWritten(ctx, stuck) == Some(stuck)
  {
    var seps := Separators(ctx.ntoks);
    MangledFields(r.buffer, seps);
  }

  /** A line of two fields is skipped, and the loop as written stops there on a file that goes on. */
  lemma ShortLineStalls()
    ensures var ctx := Context(10, false, "");
            var stuck := Reader("a", "b|1|2|3|4|0|0|0|0|0\n");
            NextAsWritten(ctx, Reader("a|b\n", stuck.rest)) == Some(stuck) && NextAsWritten(ctx, stuck) == Some(stuck)
  {
    var seps := Separators(10);
    assert "a|b\n"[0] !in seps && "a|b\n"[1] in seps;
    RunEndIs("a|b\n", seps, 0, 1);
    assert Mangled("a|b\n", seps) == "a";
    FieldsOne("b", seps);
    FieldsOne("a", seps);
    assert Fields("\n", seps) == [] by {
      assert "\n"[0] in seps && "\n"[1..] == [];
    }
    FieldsAppend("a|", "b\n", seps);
    FieldsAppend("|", "b", seps);
    FieldsAppend("b", "\n", seps);
    assert "a|b\n" == "a|" + "b\n" && "b\n" == "b" + "\n";
    assert Fields("a|", seps) == ["a"] by {
      FieldsAppend("a", "|", seps);
      assert "a|" == "a" + "|";
      assert Fields("|", seps) == [] by {
        assert "|"[0] in seps && "|"[1..] == [];
      }
    }
    SkipStalls(Context(10, false, ""), Reader("a|b\n", "b|1|2|3|4|0|0|0|0|0\n"));
  }

  // ---------------------------------------------------------------------
  // A saved layout loads back

  /** "%d" prints no separator and no NUL. */
  lemma DecimalClean(n: int)
    ensures forall i :: 0 <= i < |Decimal(n)| ==> Decimal(n)[i] !in Separators(10) && Decimal(n)[i] != Snapshot.NUL
  {
  }

  /** A '|' and a number add that number as one more field. */
  lemma FieldsBar(x: string, n: int)
    ensures Fields(x + Bar(n), Separators(10)) == Fields(x, Separators(10)) + [Decimal(n)]
  {
    var seps := Separators(10);
    var b := Bar(n);
    DecimalClean(n);
    FieldsOne(Decimal(n), seps);
    assert b[0] == '|' && b[1..] == Decimal(n);
    assert Fields(b, seps) == Fields(b[1..], seps);
    FieldsAppend(x, b, seps);
  }

  /** Four numbers, each after its '|', add four fields. */
  lemma FourBars(x: string, a: int, b: int, c: int, d: int)
    ensures Fields(x + Bar(a) + Bar(b) + Bar(c) + Bar(d), Separators(10))
         == Fields(x, Separators(10)) + [Decimal(a), Decimal(b), Decimal(c), Decimal(d)]
  {
    FieldsBar(x, a);
    FieldsBar(x + Bar(a), b);
    FieldsBar(x + Bar(a) + Bar(b), c);
    FieldsBar(x + Bar(a) + Bar(b) + Bar(c), d);
  }

  /** The fields of a record line: the path and the nine numbers. */
  lemma FieldsOfLine(dst: string, w: Shown)
    requires dst != [] && forall i :: 0 <= i < |dst| ==> dst[i] !in Separators(10)
    ensures Fields(Line(dst, w), Separators(10))
         == [dst] + [Decimal(w.left), Decimal(w.top), Decimal(w.width), Decimal(w.height)]
            + [Decimal(w.transparent), Decimal(w.tolerance), Decimal(w.erosions), Decimal(w.depth)] + [Decimal(w.rotation)]
  {
    var seps := Separators(10);
    FieldsOne(dst, seps);
    FourBars(dst, w.left, w.top, w.width, w.height);
    var p4 := dst + Bar(w.left) + Bar(w.top) + Bar(w.width) + Bar(w.height);
    FourBars(p4, w.transparent, w.tolerance, w.erosions, w.depth);
    var p8 := p4 + Bar(w.transparent) + Bar(w.tolerance) + Bar(w.erosions) + Bar(w.depth);
    FieldsBar(p8, w.rotation);
    var p9 := p8 + Bar(w.rotation);
    var fs := [dst] + [Decimal(w.left), Decimal(w.top), Decimal(w.width), Decimal(w.height)]
      + [Decimal(w.transparent), Decimal(w.tolerance), Decimal(w.erosions), Decimal(w.depth)] + [Decimal(w.rotation)];
    assert Fields(p9, seps) == fs;
    assert Fields("\n", seps) == [] by {
      assert "\n"[0] in seps && "\n"[1..] == [];
    }
    assert Line(dst, w) == p9 + "\n";
    FieldsAppend(p9, "\n", seps);
    assert fs + [] == fs;
  }

  /** A record line holds no NUL, and no newline before its last character. */
  lemma LineClean(dst: string, w: Shown)
    requires forall i :: 0 <= i < |dst| ==> dst[i] !in Separators(10) && dst[i] != Snapshot.NUL
    ensures Snapshot.NUL !in Line(dst, w)
    ensures forall i :: 0 <= i < |Line(dst, w)| - 1 ==> Line(dst, w)[i] != '\n'
    ensures Line(dst, w)[|Line(dst, w)| - 1] == '\n'
  {
    var body := dst + Bar(w.left) + Bar(w.top) + Bar(w.width) + Bar(w.height) + Bar(w.transparent)
      + Bar(w.tolerance) + Bar(w.erosions) + Bar(w.depth) + Bar(w.rotation);
    BarClean(w.left);
    BarClean(w.top);
    BarClean(w.width);
    BarClean(w.height);
    BarClean(w.transparent);
    BarClean(w.tolerance);
    BarClean(w.erosions);
    BarClean(w.depth);
    BarClean(w.rotation);
    assert '\n' !in dst && Snapshot.NUL !in dst;
    assert '\n' !in body && Snapshot.NUL !in body;
    var line := Line(dst, w);
    assert line == body + "\n";
    forall i | 0 <= i < |line| - 1
      ensures line[i] != '\n'
    {
      assert line[i] == body[i];
    }
  }

  lemma BarClean(n: int)
    ensures '\n' !in Bar(n) && Snapshot.NUL !in Bar(n)
  {
    DecimalClean(n);
  }

  /** A name save_layout can write and load_layout_file read back whole. */
  predicate Storable(name: string)
  {
    forall i :: 0 <= i < |name| ==> name[i] !in Separators(10) && name[i] != Snapshot.NUL
  }

  /**
   * What a saved window opens as: its path (joined to the folder of the
   * layout file when consolidated), the rectangle of its position and
   * size, its transparency settings and the turns to its rotation.
   */
  function Restored(ctx: Context, w: Shown, consolidate: bool): Placement
    requires w.path.Some?
  {
    Placement(ImagePath(ctx, Written(w.path.value, consolidate)),
              Snapshot.Rect(w.left, w.top, w.left + w.width - 1, w.top + w.height - 1), w.transparent,
              if w.transparent != 0 then Some((w.tolerance, w.erosions, w.depth)) else None,
              Turns(w.rotation))
  }

  /**
   * A window that comes back has the corner and size it was saved with,
   * and, from a fresh window, turns to the rotation it was saved with.
   */
  lemma RestoredKeeps(ctx: Context, w: Shown, consolidate: bool)
    requires w.path.Some?
    ensures var p := Restored(ctx, w, consolidate);
            p.rect.left == w.left && p.rect.top == w.top
            && p.rect.right - p.rect.left + 1 == w.width && p.rect.bottom - p.rect.top + 1 == w.height
            && (0 <= w.rotation < 4 ==> ApplyTurns(0, p.turns) == w.rotation)
  {
    if 0 <= w.rotation < 4 {
      TurnsRestore(w.rotation);
    }
  }

  /** The windows that come back, in the order the records were written. */
  function RestoredAll(ctx: Context, ws: seq<Shown>, consolidate: bool): seq<Placement>
  {
    if ws == [] then []
    else (if Kept(ws[0], consolidate) then [Restored(ctx, ws[0], consolidate)] else [])
         + RestoredAll(ctx, ws[1..], consolidate)
  }

  /** What a window must be for its record to come back: a storable name, a line fgets reads whole, a path that fits. */
  predicate Restorable(ctx: Context, w: Shown, consolidate: bool)
  {
    Kept(w, consolidate) ==>
      var name := Written(w.path.value, consolidate);
      Storable(name) && |Line(name, w)| < 256 && (ctx.relative ==> !OverLong(|ctx.folder|, |name|))
  }

  /** The fields of a record open the window it was written for. */
  lemma RecordPlaced(ctx: Context, w: Shown, consolidate: bool)
    requires ctx.ntoks == 10 && ctx.relative == consolidate
    requires Kept(w, consolidate) && Restorable(ctx, w, consolidate)
    ensures Placed(ctx, LineFields(ctx, RecordOf(w, consolidate))) == Some(Restored(ctx, w, consolidate))
  {
    var name := Written(w.path.value, consolidate);
    assert name != [] && Storable(name) && (ctx.relative ==> !OverLong(|ctx.folder|, |name|));
    var line := Line(name, w);
    var fs := Fields(line, Separators(10));
    LineFields10(ctx, name, w);
    AtoiTen(name, w, fs);
    DecimalsPlaced(ctx, name, w, fs);
    assert RecordOf(w, consolidate) == line;
    assert LineFields(ctx, RecordOf(w, consolidate)) == fs;
    RestoredIs(ctx, w, consolidate, name);
  }

  lemma RestoredIs(ctx: Context, w: Shown, consolidate: bool, name: string)
    requires w.path.Some? && name == Written(w.path.value, consolidate)
    ensures Restored(ctx, w, consolidate) == Placement(ImagePath(ctx, name),
              Snapshot.Rect(w.left, w.top, w.left + w.width - 1, w.top + w.height - 1), w.transparent,
              if w.transparent != 0 then Some((w.tolerance, w.erosions, w.depth)) else None,
              Turns(w.rotation))
  {
  }

  /** parseN splits a record line into exactly its ten fields. */
  lemma LineFields10(ctx: Context, name: string, w: Shown)
    requires ctx.ntoks == 10 && name != [] && Storable(name)
    ensures LineFields(ctx, Line(name, w)) == Fields(Line(name, w), Separators(10))
    ensures Fields(Line(name, w), Separators(10))
         == [name] + [Decimal(w.left), Decimal(w.top), Decimal(w.width), Decimal(w.height)]
            + [Decimal(w.transparent), Decimal(w.tolerance), Decimal(w.erosions), Decimal(w.depth)] + [Decimal(w.rotation)]
  {
    LineClean(name, w);
    TextWhole(Line(name, w));
    FieldsOfLine(name, w);
  }

  /** Fields that are a name and nine numbers that atoi reads back open a window at those numbers. */
  lemma DecimalsPlaced(ctx: Context, name: string, w: Shown, toks: seq<string>)
    requires ctx.relative ==> !OverLong(|ctx.folder|, |name|)
    requires |toks| == 10 && toks[0] == name
    requires Atoi(toks[1]) == w.left && Atoi(toks[2]) == w.top && Atoi(toks[3]) == w.width && Atoi(toks[4]) == w.height
    requires Atoi(toks[5]) == w.transparent && Atoi(toks[6]) == w.tolerance && Atoi(toks[7]) == w.erosions
    requires Atoi(toks[8]) == w.depth && Atoi(toks[9]) == w.rotation
    ensures Placed(ctx, toks) == Some(Placement(ImagePath(ctx, name),
              Snapshot.Rect(w.left, w.top, w.left + w.width - 1, w.top + w.height - 1), w.transparent,
              if w.transparent != 0 then Some((w.tolerance, w.erosions, w.depth)) else None,
              Turns(w.rotation)))
  {
  }

  lemma AtoiTen(name: string, w: Shown, toks: seq<string>)
    requires toks == [name] + [Decimal(w.left), Decimal(w.top), Decimal(w.width), Decimal(w.height)]
            + [Decimal(w.transparent), Decimal(w.tolerance), Decimal(w.erosions), Decimal(w.depth)] + [Decimal(w.rotation)]
    ensures |toks| == 10 && toks[0] == name
    ensures Atoi(toks[1]) == w.left && Atoi(toks[2]) == w.top && Atoi(toks[3]) == w.width && Atoi(toks[4]) == w.height
    ensures Atoi(toks[5]) == w.transparent && Atoi(toks[6]) == w.tolerance && Atoi(toks[7]) == w.erosions
    ensures Atoi(toks[8]) == w.depth && Atoi(toks[9]) == w.rotation
  {
    assert toks[1] == Decimal(w.left) && toks[2] == Decimal(w.top) && toks[3] == Decimal(w.width);
    assert toks[4] == Decimal(w.height) && toks[5] == Decimal(w.transparent) && toks[6] == Decimal(w.tolerance);
    assert toks[7] == Decimal(w.erosions) && toks[8] == Decimal(w.depth) && toks[9] == Decimal(w.rotation);
    AtoiDecimal(w.left);
    AtoiDecimal(w.top);
    AtoiDecimal(w.width);
    AtoiDecimal(w.height);
    AtoiDecimal(w.transparent);
    AtoiDecimal(w.tolerance);
    AtoiDecimal(w.erosions);
    AtoiDecimal(w.depth);
    AtoiDecimal(w.rotation);
  }

  /** The records of windows load back as the windows they were written for. */
  lemma {:induction false} RecordsLoad(ctx: Context, ws: seq<Shown>, consolidate: bool)
    requires ctx.ntoks == 10 && ctx.relative == consolidate
    requires forall i :: 0 <= i < |ws| ==> Restorable(ctx, ws[i], consolidate)
    ensures LoadFrom(ctx, Records(ws, consolidate)) == RestoredAll(ctx, ws, consolidate)
  {
    if ws != [] {
      var w := ws[0];
      var rest := Records(ws[1..], consolidate);
      assert forall i :: 0 <= i < |ws[1..]| ==> Restorable(ctx, ws[1..][i], consolidate) by {
        forall i | 0 <= i < |ws[1..]|
          ensures Restorable(ctx, ws[1..][i], consolidate)
        {
          assert ws[1..][i] == ws[i + 1];
        }
      }
      RecordsLoad(ctx, ws[1..], consolidate);
      assert Records(ws, consolidate) == RecordOf(w, consolidate) + rest;
      if Kept(w, consolidate) {
        assert Restorable(ctx, ws[0], consolidate);
        RecordLoads(ctx, w, consolidate, rest);
        assert RestoredAll(ctx, ws, consolidate) == [Restored(ctx, w, consolidate)] + RestoredAll(ctx, ws[1..], consolidate);
      } else {
        assert RecordOf(w, consolidate) == "";
        assert RecordOf(w, consolidate) + rest == rest;
        assert RestoredAll(ctx, ws, consolidate) == [] + RestoredAll(ctx, ws[1..], consolidate);
      }
    }
  }

  /** A record followed by more text: fgets reads exactly the record, which opens its window. */
  lemma RecordLoads(ctx: Context, w: Shown, consolidate: bool, rest: string)
    requires ctx.ntoks == 10 && ctx.relative == consolidate
    requires Kept(w, consolidate) && Restorable(ctx, w, consolidate)
    ensures LoadFrom(ctx, RecordOf(w, consolidate) + rest) == [Restored(ctx, w, consolidate)] + LoadFrom(ctx, rest)
  {
    var line := RecordOf(w, consolidate);
    var text := line + rest;
    LineClean(Written(w.path.value, consolidate), w);
    assert forall i :: 0 <= i < |line| - 1 ==> text[i] != '\n';
    FgetsWholeLine(text, 0, |line|, 256);
    assert text[..|line|] == line && text[|line|..] == rest;
    RecordPlaced(ctx, w, consolidate);
  }

  /** fgets passes over exactly the header line. */
  lemma HeaderSkipped(consolidate: bool, rest: string)
    ensures FgetsEnd(HeaderLine(consolidate) + rest, 0, 256) == |HeaderLine(consolidate)|
  {
    var h := HeaderLine(consolidate);
    var tail := if consolidate then " 2R\n" else " 2\n";
    HeaderClean();
    forall i | 0 <= i < |h| - 1
      ensures (h + rest)[i] != '\n'
    {
      if i < |HEADER| {
        assert h[i] == HEADER[i];
      } else {
        assert h[i] == tail[i - |HEADER|];
      }
    }
    FgetsWholeLine(h + rest, 0, |h|, 256);
  }

  /**
   * A layout saved by save_layout and loaded by load_layout_file opens
   * the windows it was saved from that have a path of three or more
   * characters, from the bottom of the z order up, at their positions
   * and sizes, with their transparency and rotation.
   */
  lemma SavedLayoutLoads(layoutPath: string, zorder: seq<Shown>, consolidate: bool)
    requires var ctx := ContextOf(layoutPath, if consolidate then -2 else 2);
             forall i :: 0 <= i < |zorder| ==> Restorable(ctx, zorder[i], consolidate)
    ensures Loaded(layoutPath, LayoutText(zorder, consolidate))
         == RestoredAll(ContextOf(layoutPath, if consolidate then -2 else 2), Reverse(zorder), consolidate)
  {
    var ctx := ContextOf(layoutPath, if consolidate then -2 else 2);
    var ws := Reverse(zorder);
    var records := Records(ws, consolidate);
    var text := LayoutText(zorder, consolidate);
    HeaderVersion(consolidate, records);
    HeaderSkipped(consolidate, records);
    assert text[|HeaderLine(consolidate)|..] == records;
    forall i | 0 <= i < |ws|
      ensures Restorable(ctx, ws[i], consolidate)
    {
      assert ws[i] == zorder[|zorder| - 1 - i];
    }
    RecordsLoad(ctx, ws, consolidate);
  }

  // ---------------------------------------------------------------------
  // tab (wndmgr.cpp:288-312)

  /** The position of the first `w` in the window list, or its length when `w` is not in it. */
  function IndexOf(windows: seq<int>, w: int): (i: nat)
    ensures i <= |windows| && (i < |windows| <==> w in windows)
    ensures i < |windows| ==> windows[i] == w
    ensures forall j :: 0 <= j < i ==> windows[j] != w
  {
    if windows == [] then 0
    else if windows[0] == w then 0
    else 1 + IndexOf(windows[1..], w)
  }

  /** The search loop of tab (wndmgr.cpp:297-302). */
  method Find(windows: seq<int>, w: int) returns (i: nat)
    ensures i == IndexOf(windows, w)
  {
    i := 0;
    while i < |windows|
      invariant i <= |windows| && forall j :: 0 <= j < i ==> windows[j] != w
    {
      if windows[i] == w {
        break;
      }
      i := i + 1;
    }
    IndexUnique(windows, w, i);
  }

  /** The first position of `w` is the one before which no `w` is found. */
  lemma IndexUnique(windows: seq<int>, w: int, i: nat)
    requires i <= |windows| && (i < |windows| ==> windows[i] == w)
    requires forall j :: 0 <= j < i ==> windows[j] != w
    ensures IndexOf(windows, w) == i
  {
  }

  /** The window after position `i` in a list of `n`, wrapping at the end, or the one before it, wrapping at the start. */
  function Stepped(i: int, n: int, back: bool): int
  {
    if !back then (if i + 1 == n then 0 else i + 1)
    else (if i - 1 < 0 then n - 1 else i - 1)
  }

  /** The step is a step round the cycle of positions. */
  lemma SteppedCycles(i: int, n: int, back: bool)
    requires 0 <= i < n
    ensures Stepped(i, n, back) == (if back then (i + n - 1) % n else (i + 1) % n)
    ensures 0 <= Stepped(i, n, back) < n
  {
  }

  /** A step back undoes a step forward, and a step forward a step back. */
  lemma SteppedBack(i: int, n: int, back: bool)
    requires 0 <= i < n
    ensures Stepped(Stepped(i, n, back), n, !back) == i
  {
  }

  /**
   * tab (wndmgr.cpp:288-312): the window brought to the top, the one after
   * the current window in the list or, with Shift held or in reverse, the
   * one before it; nothing for a window not in the list.
   */
  method Tab(windows: seq<int>, current: int, shifted: bool, reverse: bool) returns (next: Option<int>)
    ensures current !in windows <==> next.None?
    ensures next.Some? ==> next.value == windows[Stepped(IndexOf(windows, current), |windows|, shifted || reverse)]
  {
    var i := Find(windows, current);
    if i == |windows| {
      return None;
    }
    if !shifted && !reverse {
      i := i + 1;
      if i == |windows| {
        i := 0;
      }
    } else {
      var k := i - 1;
      if k < 0 {
        k := |windows| - 1;
      }
      i := k;
    }
    next := Some(windows[i]);
  }

  // ---------------------------------------------------------------------
  // dissolve_init and dissolve_frame (wndmgr.cpp:1760-1763, 1783-1862)

  /** The frame count of dissolve_init: 2 multiplied in dissolve_bits times. */
  method DissolveFrames(bits: int) returns (frames: int)
    ensures frames == Pow2(if bits < 0 then 0 else bits)
  {
    frames := 1;
    var n := 0;
    while n < bits
      invariant (bits < 0 ==> n == 0) && (0 <= bits ==> n <= bits) && frames == Pow2(n)
    {
      frames := frames * 2;
      n := n + 1;
    }
  }

  /**
   * One colour of a dissolve frame (wndmgr.cpp:1822): the old value moved
   * `frame` steps of 2^bits toward the new one, the shift rounding down.
   */
  function Blend(from: int, to: int, frame: nat, bits: nat): int
  {
    from + (frame * (to - from)) / Pow2(bits)
  }

  /**
   * The dissolve starts at the old image and its last frame, `frame_num`
   * equal to the frame count, is the new image exactly.
   */
  lemma BlendEnds(from: int, to: int, bits: nat)
    ensures Blend(from, to, 0, bits) == from && Blend(from, to, Pow2(bits), bits) == to
  {
    var p := Pow2(bits);
    assert 0 * (to - from) == 0;
    MulDivCancel(p, to - from);
  }

  /** Every frame of the dissolve lies between the old value and the new one, so it fits the byte it is stored in. */
  lemma BlendBetween(from: int, to: int, frame: nat, bits: nat)
    requires frame <= Pow2(bits)
    ensures Min(from, to) <= Blend(from, to, frame, bits) <= Max(from, to)
  {
    var p := Pow2(bits);
    var d := to - from;
    MulBetween(frame, p, d);
    DivBetween(frame * d, p, d);
  }

  /** `k * d` lies between 0 and `p * d` when `k` lies between 0 and `p`. */
  lemma MulBetween(k: nat, p: nat, d: int)
    requires k <= p
    ensures (0 <= k * d <= p * d) || (p * d <= k * d <= 0)
  {
    assert p * d - k * d == (p - k) * d;
    MulSign(p - k, d);
    MulSign(k, d);
  }

  /** The sign of a product of a natural number and an integer. */
  lemma MulSign(k: nat, d: int)
    ensures d >= 0 ==> k * d >= 0
    ensures d <= 0 ==> k * d <= 0
  {
  }

  /** A positive factor keeps the sign of the other. */
  lemma MulPositive(p: int, k: int)
    requires p > 0
    ensures (p * k > 0 <==> k > 0) && (p * k >= 0 <==> k >= 0)
  {
  }

  /** Dividing a multiple of `p` by `p` gives back the multiplier. */
  lemma MulDivCancel(p: int, d: int)
    requires p > 0
    ensures (p * d) / p == d
  {
    var q := (p * d) / p;
    var r := (p * d) % p;
    assert p * d == p * q + r && 0 <= r < p;
    assert p * (d - q) == r;
    MulPositive(p, d - q);
    MulPositive(p, d - q - 1);
    assert p * (d - q - 1) == r - p;
  }

  /** `x / p` lies between 0 and `d` when `x` lies between 0 and `p * d`. */
  lemma DivBetween(x: int, p: int, d: int)
    requires p > 0 && ((0 <= x <= p * d) || (p * d <= x <= 0))
    ensures Min(0, d) <= x / p <= Max(0, d)
  {
    var q := x / p;
    var r := x % p;
    assert x == p * q + r && 0 <= r < p;
    assert p * (q + 1) == x - r + p;
    assert p * (d - q) == p * d - x + r;
    assert p * (q + 1 - d) == x - r + p - p * d;
    MulPositive(p, q);
    MulPositive(p, q + 1);
    MulPositive(p, d - q);
    MulPositive(p, q + 1 - d);
    MulPositive(p, d);
  }
}
