/**
 * The parts of snapshot.cpp with behaviour of their own: the splitter of
 * the command line into arguments, the counter of quarter turns a window
 * remembers, the step of a keyboard move and the clamp of a zoom click.
 *
 * The command line is a NUL-terminated buffer of characters. The
 * splitter counts the arguments in one pass and extracts them in a
 * second, overwriting the delimiter after each argument with NUL so that
 * each argument is a C string of its own inside the buffer.
 */
module Snapshot {
  import opened Common

  // ---------------------------------------------------------------------
  // parse_command_line (snapshot.cpp:1788-1832)

  const NUL: char := '\0'
  const QUOTE: char := '\"'

  /** The characters before the first NUL: the C string the buffer holds. */
  function Text(a: seq<char>): (s: string)
    ensures |s| <= |a| && s == a[..|s|] && NUL !in s
    ensures |s| < |a| ==> a[|s|] == NUL
  {
    if |a| == 0 || a[0] == NUL then [] else [a[0]] + Text(a[1..])
  }

  /** The first position at or after `k` that is not a space. */
  function SkipSpaces(s: string, k: nat): (j: nat)
    requires k <= |s|
    ensures k <= j <= |s| && (j < |s| ==> s[j] != ' ')
    ensures forall i :: k <= i < j ==> s[i] == ' '
    decreases |s| - k
  {
    if k == |s| || s[k] != ' ' then k else SkipSpaces(s, k + 1)
  }

  /** The first position at or after `k` holding `c`, or the end. */
  function Find(s: string, k: nat, c: char): (j: nat)
    requires k <= |s|
    ensures k <= j <= |s| && (j < |s| ==> s[j] == c)
    ensures forall i :: k <= i < j ==> s[i] != c
    decreases |s| - k
  {
    if k == |s| || s[k] == c then k else Find(s, k + 1, c)
  }

  /**
   * An argument as positions in the line: it runs from `start` to `end`,
   * and the scan goes on from `next`.
   */
  datatype Span = Span(start: nat, end: nat, next: nat)

  /**
   * The argument that begins at `k`, a position that is not a space: a
   * quoted one runs from after the quote to the next quote, any other to
   * the next space; either one stops at the end of the line. The
   * delimiter, when there is one, is passed over.
   */
  function SpanAt(s: string, k: nat): (sp: Span)
    requires k < |s|
    ensures k <= sp.start <= sp.end <= |s| && k < sp.next <= |s|
    ensures sp.next == if sp.end < |s| then sp.end + 1 else sp.end
  {
    var start := if s[k] == QUOTE then k + 1 else k;
    var end := if s[k] == QUOTE then Find(s, k + 1, QUOTE) else Find(s, k + 1, ' ');
    Span(start, end, if end < |s| then end + 1 else end)
  }

  /** The arguments of the line from position `k` on, in order. */
  function Spans(s: string, k: nat): seq<Span>
    requires k <= |s|
    decreases |s| - k, 1
  {
    var j := SkipSpaces(s, k);
    if j == |s| then [] else SpansFrom(s, j)
  }

  function SpansFrom(s: string, j: nat): seq<Span>
    requires j < |s|
    decreases |s| - j, 0
  {
    var sp := SpanAt(s, j);
    [sp] + Spans(s, sp.next)
  }

  /** The arguments as strings. */
  function Args(s: string): (r: seq<string>)
  {
    Texts(s, Spans(s, 0))
  }

  /** The strings the spans cover. */
  function Texts(s: string, spans: seq<Span>): (r: seq<string>)
    ensures |r| == |spans| && forall i :: 0 <= i < |spans| ==> r[i] == ArgText(s, spans[i])
  {
    seq(|spans|, i requires 0 <= i < |spans| => ArgText(s, spans[i]))
  }

  function ArgText(s: string, sp: Span): string
  {
    if sp.start <= sp.end <= |s| then s[sp.start..sp.end] else []
  }

  /** The buffer from `cp` on still holds the line from `cp` on, and its NUL. */
  ghost predicate HoldsFrom(b: seq<char>, s: string, cp: nat)
  {
    NUL !in s && |s| < |b| && b[|s|] == NUL && forall i :: cp <= i < |s| ==> b[i] == s[i]
  }

  /** A buffer holds the string before its first NUL. */
  lemma TextHeld(a: seq<char>)
    requires NUL in a
    ensures HoldsFrom(a, Text(a), 0)
  {
    var s := Text(a);
    forall i | 0 <= i < |s|
      ensures a[i] == s[i]
    {
      assert a[..|s|][i] == a[i];
    }
  }

  /**
   * The first pass of parse_command_line (snapshot.cpp:1796-1808): it
   * counts the arguments.
   */
  method CountArgs(line: array<char>) returns (toks: nat)
    requires NUL in line[..]
    ensures toks == |Spans(Text(line[..]), 0)|
  {
    ghost var s := Text(line[..]);
    TextHeld(line[..]);
    var cp := 0;
    toks := 0;
    while true
      invariant cp <= |s| && toks + |Spans(s, cp)| == |Spans(s, 0)|
      decreases |s| - cp
    {
      cp := SkipBlanks(line, s, cp);
      if line[cp] == NUL {
        break;
      }
      cp := PassArg(line, s, cp);
      toks := toks + 1;
    }
  }

  /** `for (; *cp == ' '; cp++);` */
  method SkipBlanks(line: array<char>, ghost s: string, cp: nat) returns (j: nat)
    requires cp <= |s| && HoldsFrom(line[..], s, cp)
    ensures j == SkipSpaces(s, cp) && (line[j] == NUL <==> j == |s|)
  {
    j := cp;
    while line[j] == ' '
      invariant j <= |s| && SkipSpaces(s, j) == SkipSpaces(s, cp)
      decreases |s| - j
    {
      j := j + 1;
    }
  }

  /** One argument of the first pass, from its first character to where the scan goes on. */
  method PassArg(line: array<char>, ghost s: string, cp: nat) returns (next: nat)
    requires cp < |s| && s[cp] != ' ' && HoldsFrom(line[..], s, cp)
    ensures next == SpanAt(s, cp).next
  {
    ghost var sp := SpanAt(s, cp);
    next := cp + 1;
    if line[cp] == QUOTE {
      while line[next] != NUL && line[next] != QUOTE
        invariant cp < next <= |s| && Find(s, next, QUOTE) == sp.end
        decreases |s| - next
      {
        next := next + 1;
      }
    } else {
      while line[next] != NUL && line[next] != ' '
        invariant cp < next <= |s| && Find(s, next, ' ') == sp.end
        decreases |s| - next
      {
        next := next + 1;
      }
    }
    if line[next] != NUL {
      next := next + 1;
    }
  }

  /** The C string that starts at `i`: the characters up to the next NUL. */
  function CString(a: seq<char>, i: nat): string
    requires i <= |a|
    decreases |a| - i
  {
    if i == |a| || a[i] == NUL then [] else [a[i]] + CString(a, i + 1)
  }

  /** The ends of the arguments that are followed by a delimiter. */
  function Ends(spans: seq<Span>, n: nat): set<nat>
  {
    set k | 0 <= k < |spans| && spans[k].end < n :: spans[k].end
  }

  /** The buffer with a NUL written at each position of `ends`. */
  function Cut(a: seq<char>, ends: set<nat>): (b: seq<char>)
    ensures |b| == |a|
  {
    seq(|a|, i requires 0 <= i < |a| => if i in ends then NUL else a[i])
  }

  /**
   * The second pass of parse_command_line (snapshot.cpp:1812-1829): the
   * start of each argument is recorded and the delimiter after it
   * overwritten with NUL; the array has one more entry, a null pointer,
   * and is sized by the count of the first pass.
   */
  method SplitArgs(line: array<char>, toks: nat) returns (tok: array<Option<nat>>)
    requires NUL in line[..] && toks == |Spans(Text(line[..]), 0)|
    modifies line
    ensures fresh(tok) && tok.Length == toks + 1 && tok[toks] == None
    ensures forall t :: 0 <= t < toks ==> tok[t] == Some(Spans(Text(old(line[..])), 0)[t].start)
    ensures line[..] == Cut(old(line[..]), Ends(Spans(Text(old(line[..])), 0), |Text(old(line[..]))|))
  {
    ghost var a := line[..];
    ghost var s := Text(a);
    ghost var all := Spans(s, 0);
    TextHeld(a);
    tok := new Option<nat>[toks + 1](_ => None);
    var t := 0;
    var cp := 0;
    ghost var done: seq<Span> := [];
    while true
      invariant t == |done| && Progress(line[..], tok[..], a, s, all, done, cp)
      decreases |s| - cp
    {
      CutAbove(a, s, done, cp);
      ghost var c0 := cp;
      cp := SkipBlanks(line, s, cp);
      if line[cp] == NUL {
        assert Spans(s, c0) == [] && done == all;
        break;
      }
      ghost var sp := SpanAt(s, cp);
      Advance(s, all, done, c0);
      ghost var b, m := line[..], tok[..];
      var next := SplitOne(line, tok, s, cp, t);
      ProgressStep(b, line[..], m, tok[..], a, s, all, done, c0);
      done := done + [sp];
      cp := next;
      t := t + 1;
    }
  }

  /**
   * The state of the second pass at `cp`: the arguments `done` split off,
   * their starts recorded in order and the entries after them still null.
   */
  ghost predicate Progress(b: seq<char>, marks: seq<Option<nat>>, a: seq<char>, s: string, all: seq<Span>, done: seq<Span>, cp: nat)
  {
    && cp <= |s| < |a| && |marks| == |all| + 1 && all == done + Spans(s, cp)
    && (forall k :: 0 <= k < |done| ==> done[k].end < cp || done[k].end == |s|)
    && b == Cut(a, Ends(done, |s|))
    && forall k :: 0 <= k < |marks| ==> marks[k] == if k < |done| then Some(all[k].start) else None
  }

  /** Splitting off the next argument keeps the state of the second pass. */
  lemma ProgressStep(b: seq<char>, b': seq<char>, m: seq<Option<nat>>, m': seq<Option<nat>>,
                     a: seq<char>, s: string, all: seq<Span>, done: seq<Span>, c0: nat)
    requires Progress(b, m, a, s, all, done, c0) && SkipSpaces(s, c0) < |s|
    requires var sp := SpanAt(s, SkipSpaces(s, c0));
      && b' == (if sp.end < |s| then b[sp.end := NUL] else b)
      && |done| < |m| && m' == m[|done| := Some(sp.start)]
    ensures var sp := SpanAt(s, SkipSpaces(s, c0));
      Progress(b', m', a, s, all, done + [sp], sp.next)
  {
    var sp := SpanAt(s, SkipSpaces(s, c0));
    Advance(s, all, done, c0);
    CutStep(a, s, done, sp, b, b');
  }

  /**
   * parse_command_line (snapshot.cpp:1788-1832): the arguments of the
   * line, each a C string inside the overwritten buffer, in order, and a
   * null entry after the last.
   */
  method ParseCommandLine(line: array<char>) returns (tok: array<Option<nat>>)
    requires NUL in line[..]
    modifies line
    ensures fresh(tok) && tok.Length == |Args(Text(old(line[..])))| + 1
    ensures tok[tok.Length - 1] == None
    ensures forall t :: 0 <= t < tok.Length - 1 ==>
      tok[t].Some? && tok[t].value <= line.Length && CString(line[..], tok[t].value) == Args(Text(old(line[..])))[t]
  {
    ghost var a := line[..];
    var toks := CountArgs(line);
    tok := SplitArgs(line, toks);
    forall t | 0 <= t < toks
      ensures tok[t].value <= line.Length && CString(line[..], tok[t].value) == Args(Text(a))[t]
    {
      CutArg(a, Text(a), t);
    }
  }

  /** A run of characters other than NUL, ended by a NUL, is the C string there. */
  lemma {:induction false} CStringRun(b: seq<char>, i: nat, j: nat)
    requires i <= j < |b| && b[j] == NUL && forall k :: i <= k < j ==> b[k] != NUL
    ensures CString(b, i) == b[i..j]
    decreases j - i
  {
    if i < j {
      CStringRun(b, i + 1, j);
    }
  }

  /** In the overwritten buffer, each argument is the C string at its start. */
  lemma CutArg(a: seq<char>, s: string, t: nat)
    requires NUL in a && s == Text(a) && t < |Spans(s, 0)|
    ensures var sp := Spans(s, 0)[t];
      sp.start <= |a| && CString(Cut(a, Ends(Spans(s, 0), |s|)), sp.start) == Args(s)[t]
  {
    var all := Spans(s, 0);
    var sp := all[t];
    var b := Cut(a, Ends(all, |s|));
    SpansOrdered(s, 0);
    forall k | sp.start <= k < sp.end
      ensures b[k] == s[k]
    {
      forall j | 0 <= j < |all| && all[j].end < |s|
        ensures all[j].end != k
      {
        if j < t {
          assert all[j].next <= sp.start;
        } else if j > t {
          assert sp.next <= all[j].start;
        }
      }
    }
    assert b[sp.end] == NUL by {
      if sp.end < |s| {
        assert sp.end in Ends(all, |s|);
      }
    }
    CStringRun(b, sp.start, sp.end);
    assert b[sp.start..sp.end] == s[sp.start..sp.end];
  }

  /**
   * How a caller puts an argument on the command line: quoted when it is
   * empty or holds a space, as it is otherwise.
   */
  function Render(x: string): (r: string)
    ensures |r| > 0
  {
    if x == [] || ' ' in x || x[0] == QUOTE then [QUOTE] + x + [QUOTE] else x
  }

  /** The arguments rendered and separated by single spaces. */
  function CommandLine(args: seq<string>): (s: string)
    ensures args == [] <==> s == []
  {
    if |args| == 0 then []
    else if |args| == 1 then Render(args[0])
    else Render(args[0]) + [' '] + CommandLine(args[1..])
  }

  /** An argument the splitter can take back: no quote and no NUL in it. */
  predicate Splittable(x: string)
  {
    QUOTE !in x && NUL !in x
  }

  /**
   * Splitting undoes rendering: the line made of the arguments gives back
   * exactly those arguments.
   */
  lemma ArgsOfCommandLine(args: seq<string>)
    requires forall i :: 0 <= i < |args| ==> Splittable(args[i])
    ensures Args(CommandLine(args)) == args
  {
    var s := CommandLine(args);
    assert s[0..] == s;
    SpansOfLine(s, 0, args);
  }

  /** The splitting of a line whose tail from `k` on is rendered arguments. */
  lemma {:induction false} SpansOfLine(s: string, k: nat, args: seq<string>)
    requires k <= |s| && s[k..] == CommandLine(args)
    requires forall i :: 0 <= i < |args| ==> Splittable(args[i])
    ensures Texts(s, Spans(s, k)) == args
    decreases |args|
  {
    if |args| == 0 {
      assert SkipSpaces(s, k) == k;
    } else {
      var q := HeadSpan(s, k, args);
      if |args| > 1 {
        SpansOfLine(s, q, args[1..]);
      }
      TextsCons(s, SpanAt(s, k), Spans(s, q));
      assert [args[0]] + args[1..] == args;
    }
  }

  /** The strings of spans one after another. */
  lemma TextsCons(s: string, sp: Span, rest: seq<Span>)
    ensures Texts(s, [sp] + rest) == [ArgText(s, sp)] + Texts(s, rest)
  {
  }

  /** The first argument of a line of rendered arguments, and where the rest begin. */
  lemma HeadSpan(s: string, k: nat, args: seq<string>) returns (q: nat)
    requires k <= |s| && s[k..] == CommandLine(args) && |args| > 0 && Splittable(args[0])
    ensures k < |s| && q <= |s| && Spans(s, k) == [SpanAt(s, k)] + Spans(s, q)
    ensures ArgText(s, SpanAt(s, k)) == args[0]
    ensures |args| == 1 ==> Spans(s, q) == []
    ensures |args| > 1 ==> s[q..] == CommandLine(args[1..])
  {
    var e := k + |Render(args[0])|;
    q := if e < |s| then e + 1 else e;
    FirstRendered(s, k, args);
    RenderedArg(s, k, args[0]);
    SpansStep(s, k, q);
    if |args| == 1 {
      assert SkipSpaces(s, q) == q;
    }
  }

  /** The arguments from an argument on: it, then those after the space that may follow it. */
  lemma SpansStep(s: string, k: nat, q: nat)
    requires k < |s| && SkipSpaces(s, k) == k
    requires var n := SpanAt(s, k).next; q == n || (q == n + 1 <= |s| && s[n] == ' ')
    ensures Spans(s, k) == [SpanAt(s, k)] + Spans(s, q)
  {
    var n := SpanAt(s, k).next;
    if q != n {
      SpacePassed(s, n);
    }
    assert Spans(s, k) == SpansFrom(s, k);
  }

  /** The first rendered argument of a line, and what follows it. */
  lemma FirstRendered(s: string, k: nat, args: seq<string>)
    requires k <= |s| && s[k..] == CommandLine(args) && |args| > 0
    ensures var e := k + |Render(args[0])|;
      && e <= |s| && s[k..e] == Render(args[0])
      && (|args| == 1 ==> e == |s|)
      && (|args| > 1 ==> e < |s| && s[e] == ' ' && s[e + 1..] == CommandLine(args[1..]))
  {
    var r := Render(args[0]);
    assert s[k..][..|r|] == r;
    if |args| > 1 {
      assert s[k..][|r|] == ' ';
      assert s[k..][|r| + 1..] == CommandLine(args[1..]);
    }
  }

  /** One rendered argument at `k`, followed by a space or the end of the line. */
  lemma RenderedArg(s: string, k: nat, x: string)
    requires Splittable(x) && k + |Render(x)| <= |s| && s[k..k + |Render(x)|] == Render(x)
    requires k + |Render(x)| < |s| ==> s[k + |Render(x)|] == ' '
    ensures SkipSpaces(s, k) == k
    ensures ArgText(s, SpanAt(s, k)) == x
    ensures var e := k + |Render(x)|;
      e <= SpanAt(s, k).next <= e + 1 && (e == |s| ==> SpanAt(s, k).next == e)
  {
    var r := Render(x);
    var e := k + |r|;
    assert s[k] == r[0];
    var sp := SpanAt(s, k);
    if r == x {
      assert forall i :: k + 1 <= i < e ==> s[i] == x[i - k];
      FindFirst(s, k + 1, e, ' ');
      assert sp.next == if e < |s| then e + 1 else e;
    } else {
      assert forall i :: k + 1 <= i < e - 1 ==> s[i] == x[i - k - 1];
      assert s[e - 1] == QUOTE;
      FindFirst(s, k + 1, e - 1, QUOTE);
      assert s[k + 1..e - 1] == x;
    }
  }

  /** A space before the next argument changes nothing. */
  lemma SpacePassed(s: string, k: nat)
    requires k < |s| && s[k] == ' '
    ensures Spans(s, k) == Spans(s, k + 1)
  {
    assert SkipSpaces(s, k) == SkipSpaces(s, k + 1);
  }

  /** Where the next `c` is, when the characters before it are known. */
  lemma FindFirst(s: string, k: nat, j: nat, c: char)
    requires k <= j <= |s| && (j < |s| ==> s[j] == c) && forall i :: k <= i < j ==> s[i] != c
    ensures Find(s, k, c) == j
  {
  }

  /** One argument of the second pass: its start recorded as entry `t`, then its end cut. */
  method SplitOne(line: array<char>, tok: array<Option<nat>>, ghost s: string, cp: nat, t: nat) returns (next: nat)
    requires cp < |s| && s[cp] != ' ' && HoldsFrom(line[..], s, cp) && t < tok.Length
    modifies line, tok
    ensures next == SpanAt(s, cp).next
    ensures tok[..] == old(tok[..])[t := Some(SpanAt(s, cp).start)]
    ensures line[..] == if SpanAt(s, cp).end < |s| then old(line[..])[SpanAt(s, cp).end := NUL] else old(line[..])
  {
    tok[t] := Some(if line[cp] == QUOTE then cp + 1 else cp);
    next := TakeArg(line, s, cp);
  }

  /**
   * One argument of the second pass, from its first character: its start,
   * where the scan goes on, and the NUL written over its delimiter.
   */
  method TakeArg(line: array<char>, ghost s: string, cp: nat) returns (next: nat)
    requires cp < |s| && s[cp] != ' ' && HoldsFrom(line[..], s, cp)
    modifies line
    ensures next == SpanAt(s, cp).next
    ensures line[..] == if SpanAt(s, cp).end < |s| then old(line[..])[SpanAt(s, cp).end := NUL] else old(line[..])
  {
    ghost var sp := SpanAt(s, cp);
    next := cp;
    if line[next] == QUOTE {
      next := next + 1;
      while line[next] != NUL && line[next] != QUOTE
        invariant cp < next <= |s| && Find(s, next, QUOTE) == sp.end
        decreases |s| - next
      {
        next := next + 1;
      }
    } else {
      next := next + 1;
      while line[next] != NUL && line[next] != ' '
        invariant cp < next <= |s| && Find(s, next, ' ') == sp.end
        decreases |s| - next
      {
        next := next + 1;
      }
    }
    if line[next] != NUL {
      line[next] := NUL;
      next := next + 1;
    }
  }

  /** One more argument is split off: where the scan of the line goes on. */
  lemma Advance(s: string, all: seq<Span>, done: seq<Span>, c0: nat)
    requires c0 <= |s| && all == done + Spans(s, c0) && SkipSpaces(s, c0) < |s|
    requires forall k :: 0 <= k < |done| ==> done[k].end < c0 || done[k].end == |s|
    ensures var sp := SpanAt(s, SkipSpaces(s, c0));
      && |done| < |all| && all[|done|] == sp
      && all == (done + [sp]) + Spans(s, sp.next)
      && c0 <= sp.next <= |s|
      && forall k :: 0 <= k <= |done| ==> (done + [sp])[k].end < sp.next || (done + [sp])[k].end == |s|
  {
    var cp := SkipSpaces(s, c0);
    var sp := SpanAt(s, cp);
    assert Spans(s, c0) == SpansFrom(s, cp) == [sp] + Spans(s, sp.next);
    assert all[|done|] == sp;
  }

  /** The buffer after one more delimiter is overwritten. */
  lemma CutStep(a: seq<char>, s: string, done: seq<Span>, sp: Span, before: seq<char>, after: seq<char>)
    requires |s| < |a| && before == Cut(a, Ends(done, |s|))
    requires after == if sp.end < |s| then before[sp.end := NUL] else before
    ensures after == Cut(a, Ends(done + [sp], |s|))
  {
    EndsGrow(done, sp, |s|);
    CutAdd(a, Ends(done, |s|), sp.end, |s|);
  }

  /** Past the last delimiter written so far, the buffer still holds the line. */
  lemma CutAbove(a: seq<char>, s: string, spans: seq<Span>, cp: nat)
    requires HoldsFrom(a, s, 0)
    requires forall k :: 0 <= k < |spans| ==> spans[k].end < cp || spans[k].end == |s|
    ensures HoldsFrom(Cut(a, Ends(spans, |s|)), s, cp)
  {
  }

  /** One more NUL written into the buffer. */
  lemma CutAdd(a: seq<char>, ends: set<nat>, x: nat, n: nat)
    requires n < |a|
    ensures Cut(a, ends + (if x < n then {x} else {})) == if x < n then Cut(a, ends)[x := NUL] else Cut(a, ends)
  {
  }

  /** Adding an argument adds its end, when a delimiter follows it. */
  lemma EndsGrow(spans: seq<Span>, sp: Span, n: nat)
    ensures Ends(spans + [sp], n) == Ends(spans, n) + (if sp.end < n then {sp.end} else {})
  {
    var e := spans + [sp];
    forall x | x in Ends(e, n)
      ensures x in Ends(spans, n) + (if sp.end < n then {sp.end} else {})
    {
      var k :| 0 <= k < |e| && e[k].end < n && e[k].end == x;
      if k < |spans| {
        assert spans[k] == e[k];
      }
    }
    forall x | x in Ends(spans, n)
      ensures x in Ends(e, n)
    {
      var k :| 0 <= k < |spans| && spans[k].end < n && spans[k].end == x;
      assert e[k] == spans[k];
    }
    if sp.end < n {
      assert e[|spans|] == sp;
    }
  }

  /**
   * The arguments lie one after another, each inside the line and each
   * starting at or after `k`.
   */
  lemma {:induction false} SpansOrdered(s: string, k: nat)
    requires k <= |s|
    ensures forall i :: 0 <= i < |Spans(s, k)| ==> k <= Spans(s, k)[i].start <= Spans(s, k)[i].end <= Spans(s, k)[i].next <= |s|
    ensures forall i :: 0 <= i < |Spans(s, k)| ==> Spans(s, k)[i].next == if Spans(s, k)[i].end < |s| then Spans(s, k)[i].end + 1 else |s|
    ensures forall i, j :: 0 <= i < j < |Spans(s, k)| ==> Spans(s, k)[i].next <= Spans(s, k)[j].start
    decreases |s| - k
  {
    var j := SkipSpaces(s, k);
    if j < |s| {
      var sp := SpanAt(s, j);
      SpansOrdered(s, sp.next);
      var r := Spans(s, k);
      assert r == SpansFrom(s, j) == [sp] + Spans(s, sp.next);
    }
  }

  // ---------------------------------------------------------------------
  // The window of one image: its rotation and its moves by key

  /** A rectangle on the screen, edges included as Windows gives them. */
  datatype Rect = Rect(left: int, top: int, right: int, bottom: int)

  /** The four arrow keys. */
  datatype Arrow = Up | Down | Left | Right

  /** The rotation after one quarter turn of the image (snapshot.cpp:1190-1195). */
  function Turn(rotation: int, clockwise: bool): (r: int)
    requires 0 <= rotation < 4
    ensures 0 <= r < 4
    ensures clockwise ==> r == if rotation == 3 then 0 else rotation + 1
    ensures !clockwise ==> r == if rotation == 0 then 3 else rotation - 1
  {
    if clockwise then (rotation + 1) % 4 else (rotation - 1 + 4) % 4
  }

  /** A turn the other way undoes a turn. */
  lemma TurnBack(rotation: int, clockwise: bool)
    requires 0 <= rotation < 4
    ensures Turn(Turn(rotation, clockwise), !clockwise) == rotation
  {
  }

  /** Four turns the same way bring the image back. */
  lemma FourTurns(rotation: int, clockwise: bool)
    requires 0 <= rotation < 4
    ensures Turn(Turn(Turn(Turn(rotation, clockwise), clockwise), clockwise), clockwise) == rotation
  {
  }

  /**
   * The step of a move by key (snapshot.cpp:762-767): one pixel, four with
   * shift, ten with control, thirty-two with both.
   */
  function KeyStep(shift: bool, ctrl: bool): (step: int)
    ensures step > 0 && (ctrl ==> step >= 10) && (!ctrl ==> step <= 4)
    ensures shift ==> step > KeyStep(false, ctrl)
  {
    if ctrl then (if shift then 32 else 10) else if shift then 4 else 1
  }

  /**
   * The window after an arrow key (snapshot.cpp:786-805): it moves by the
   * step unless it is already within 16 pixels of the edge of the work area
   * it would move past.
   */
  function Moved(r: Rect, key: Arrow, step: int, screen: Rect): (m: Rect)
    ensures m.right - m.left == r.right - r.left && m.bottom - m.top == r.bottom - r.top
    ensures key.Up? || key.Down? ==> m.left == r.left
    ensures key.Left? || key.Right? ==> m.top == r.top
  {
    var rw := r.right - r.left;
    var rh := r.bottom - r.top;
    match key
    case Up => if r.bottom > 16 then Rect(r.left, r.top - step, r.left + rw, r.top - step + rh) else r
    case Down => if r.top < screen.bottom - 16 then Rect(r.left, r.top + step, r.left + rw, r.top + step + rh) else r
    case Left => if r.right > 16 then Rect(r.left - step, r.top, r.left - step + rw, r.top + rh) else r
    case Right => if r.left < screen.right - 16 then Rect(r.left + step, r.top, r.left + step + rw, r.top + rh) else r
  }

  /** The opposite arrow. */
  function Opposite(key: Arrow): Arrow
  {
    match key
    case Up => Down
    case Down => Up
    case Left => Right
    case Right => Left
  }

  /**
   * A window well inside the work area moves back to where it was when the
   * opposite arrow follows an arrow with the same modifiers.
   */
  lemma MoveBack(r: Rect, key: Arrow, step: int, screen: Rect)
    requires 0 < step
    requires 16 + step < r.left && r.right + step < screen.right - 16 && r.left < r.right
    requires 16 + step < r.top && r.bottom + step < screen.bottom - 16 && r.top < r.bottom
    ensures Moved(Moved(r, key, step, screen), Opposite(key), step, screen) == r
  {
  }

  /**
   * The point a zoom is centred on (snapshot.cpp:427-432): the click held
   * 16 pixels inside the left and top of the screen, then inside its right
   * and bottom.
   */
  function ClickPoint(x: int, y: int, screen: Rect): (p: (int, int))
  {
    (Clamp(x, screen.right), Clamp(y, screen.bottom))
  }

  /** `min(max(16, v), limit - 16)`. */
  function Clamp(v: int, limit: int): (c: int)
    ensures c <= limit - 16 && (c == v || c == 16 || c == limit - 16)
    ensures 32 <= limit ==> 16 <= c
  {
    var lo := if v < 16 then 16 else v;
    if lo < limit - 16 then lo else limit - 16
  }

  /** A click already in the band is kept, and clamping twice moves nothing more. */
  lemma ClickPointKept(x: int, y: int, screen: Rect)
    ensures 16 <= x <= screen.right - 16 && 16 <= y <= screen.bottom - 16 ==> ClickPoint(x, y, screen) == (x, y)
    ensures var p := ClickPoint(x, y, screen); 32 <= screen.right && 32 <= screen.bottom ==> ClickPoint(p.0, p.1, screen) == p
  {
  }

  // ---------------------------------------------------------------------
  // Where a window goes when it shows a new or turned image

  /** What load_image found in the file (snapshot.cpp:1029-1060). */
  datatype Opened =
    | Picture(width: int, height: int)   // an image some decoder read, or the logo
    | Layout                             // no image, but a layout file
    | Failed(width: int, height: int)    // nothing readable: the error image

  /**
   * show_centered_img (snapshot.cpp:1430-1468): the window takes the size
   * of the picture, at least 16 each way, and keeps the image point under
   * the click `(x, y)` in the window `r` under the click; a negative
   * coordinate centres the picture on the work area `screen` instead, and
   * the logo shown at start-up sits by the help dialog whose right edge
   * is `help`.
   */
  function Centred(r: Rect, x: int, y: int, imgW: int, imgH: int, screen: Rect, help: Option<int>): (m: Rect)
    requires r.left != r.right && r.top != r.bottom
    ensures m.right - m.left == Max(16, imgW) && m.bottom - m.top == Max(16, imgH)
  {
    var w, h := Max(16, imgW), Max(16, imgH);
    var nx := if help.Some? then help.value - w + 32 else if x < 0 then CDiv(screen.right - w, 2) else Follow(r.left, r.right, x, w);
    var ny := if y < 0 then CDiv(screen.bottom - h, 2) else Follow(r.top, r.bottom, y, h);
    Rect(nx, ny, nx + w, ny + h)
  }

  /**
   * The start along one axis of a window `size` across that shows the
   * point `p` of the old span `lo`..`hi` at the same fraction of its width.
   */
  function Follow(lo: int, hi: int, p: int, size: int): int
    requires lo != hi
  {
    p - CDiv(size * (p - lo), hi - lo)
  }

  /** The point stays within the new span when it was within the old one. */
  lemma Followed(lo: int, hi: int, p: int, size: int)
    requires lo < hi && lo <= p <= hi && 0 <= size
    ensures Follow(lo, hi, p, size) <= p <= Follow(lo, hi, p, size) + size
  {
    ScaledWithin(size, p - lo, hi - lo);
  }

  /** `w * t / d` lies between 0 and `w` when `t` does between 0 and `d`. */
  lemma ScaledWithin(w: int, t: int, d: int)
    requires 0 <= w && 0 <= t <= d && 0 < d
    ensures 0 <= CDiv(w * t, d) <= w
  {
    var p := w * t;
    assert 0 <= p by {
      NonNegativeProduct(w, t);
    }
    assert p < (w + 1) * d by {
      NonNegativeProduct(w, d - t);
      assert w * d - p == w * (d - t);
      assert (w + 1) * d == w * d + d;
    }
    QuotientBelow(p, d, w + 1);
  }

  /** A product of two numbers that are not negative is not negative. */
  lemma NonNegativeProduct(a: int, b: int)
    requires 0 <= a && 0 <= b
    ensures 0 <= a * b
  {
  }

  /**
   * A click inside the window, at a point that is not negative, stays
   * inside the resized window.
   */
  lemma ClickHeld(r: Rect, x: int, y: int, imgW: int, imgH: int, screen: Rect)
    requires r.left < r.right && r.top < r.bottom
    requires r.left <= x <= r.right && r.top <= y <= r.bottom && 0 <= x && 0 <= y
    ensures var m := Centred(r, x, y, imgW, imgH, screen, None); m.left <= x <= m.right && m.top <= y <= m.bottom
  {
    var w, h := Max(16, imgW), Max(16, imgH);
    Followed(r.left, r.right, x, w);
    Followed(r.top, r.bottom, y, h);
  }

  /**
   * The start of the window along one axis in show_img_fix_corner
   * (snapshot.cpp:935-963): the window holds the edge `lo` or `hi` of the
   * half that the drop point `p` is in.
   */
  function Anchor(lo: int, hi: int, p: int, size: int): int
  {
    if p - lo > CDiv(hi - lo, 2) then hi - size else lo
  }

  /** The pull back onto the work area that ends `limit` (snapshot.cpp:968-977). */
  function OnWork(n: int, size: int, limit: int): int
  {
    if n + size < 8 then 0 else if n > limit - 8 then limit - size else n
  }

  /**
   * show_img_fix_corner (snapshot.cpp:924-984): the window takes the size
   * of the picture and keeps the corner of the quarter the drop `(x, y)`
   * is in, pulled back onto the work area.
   */
  function Cornered(r: Rect, x: int, y: int, imgW: int, imgH: int, screen: Rect): (m: Rect)
    ensures m.right - m.left == Max(16, imgW) && m.bottom - m.top == Max(16, imgH)
  {
    var w, h := Max(16, imgW), Max(16, imgH);
    var nx := OnWork(Anchor(r.left, r.right, x, w), w, screen.right);
    var ny := OnWork(Anchor(r.top, r.bottom, y, h), h, screen.bottom);
    Rect(nx, ny, nx + w, ny + h)
  }

  /** Unless pulled back, the corner of the drop's quarter stays where it was. */
  lemma CornerKept(r: Rect, x: int, y: int, imgW: int, imgH: int, screen: Rect)
    requires var a := Anchor(r.left, r.right, x, Max(16, imgW)); 8 <= a + Max(16, imgW) && a <= screen.right - 8
    requires var a := Anchor(r.top, r.bottom, y, Max(16, imgH)); 8 <= a + Max(16, imgH) && a <= screen.bottom - 8
    ensures var m := Cornered(r, x, y, imgW, imgH, screen);
      (if x - r.left > CDiv(r.right - r.left, 2) then m.right == r.right else m.left == r.left) &&
      (if y - r.top > CDiv(r.bottom - r.top, 2) then m.bottom == r.bottom else m.top == r.top)
  {
  }

  /** The placed window keeps at least 8 pixels on a work area at least 8 across. */
  lemma CorneredOnScreen(r: Rect, x: int, y: int, imgW: int, imgH: int, screen: Rect)
    requires 8 <= screen.right && 8 <= screen.bottom
    ensures var m := Cornered(r, x, y, imgW, imgH, screen);
      8 <= m.right && m.left <= screen.right - 8 && 8 <= m.bottom && m.top <= screen.bottom - 8
  {
  }

  /**
   * The window of a turned image (snapshot.cpp:1111-1116, 1159-1164): the
   * `w` by `h` picture shown before the turn gives an `h` by `w` window
   * about the old window's centre.
   */
  function Recentred(r: Rect, w: int, h: int): (m: Rect)
    ensures m.right - m.left == h && m.bottom - m.top == w
  {
    var cx := CDiv(r.right + r.left, 2);
    var cy := CDiv(r.bottom + r.top, 2);
    var left := cx - CDiv(h, 2);
    var top := cy - CDiv(w, 2);
    Rect(left, top, left + h, top + w)
  }

  /** The turned window's centre is within one pixel of the old one each way. */
  lemma RecentredCentre(r: Rect, w: int, h: int)
    requires 0 <= w && 0 <= h
    ensures var m := Recentred(r, w, h);
      Abs((m.left + m.right) - (r.left + r.right)) <= 2 && Abs((m.top + m.bottom) - (r.top + r.bottom)) <= 2
  {
    CDivRemainder(r.right + r.left, 2);
    CDivRemainder(r.bottom + r.top, 2);
  }

  /**
   * The part of a window of snapshot.cpp that the rest of the viewer reads
   * back: the quarter turns of its image, clockwise from the image as read,
   * and where it is on the screen.
   */
  class Window {
    var rotation: int
    var rect: Rect

    ghost predicate Valid()
      reads this
    {
      0 <= rotation < 4
    }

    /** A new window shows its image as read (snapshot.cpp:276). */
    constructor (r: Rect)
      ensures Valid() && rotation == 0 && rect == r
    {
      rotation := 0;
      rect := r;
    }

    /**
     * load_image (snapshot.cpp:1024-1090) once the file is opened: a layout
     * file leaves this window as it is; otherwise the window is placed
     * about the click as show_centered_img does when `x` is negative or
     * the error image is shown, and as show_img_fix_corner does else, and
     * the picture is shown as read.
     */
    method Load(found: Opened, x: int, y: int, screen: Rect, help: Option<int>)
      requires Valid()
      requires !found.Layout? && (x < 0 || found.Failed?) ==> rect.left != rect.right && rect.top != rect.bottom
      modifies this
      ensures Valid()
      ensures found.Layout? ==> rotation == old(rotation) && rect == old(rect)
      ensures !found.Layout? ==> rotation == 0
      ensures !found.Layout? && (x < 0 || found.Failed?) ==>
        rect == Centred(old(rect), x, y, found.width, found.height, screen, help)
      ensures !found.Layout? && !(x < 0 || found.Failed?) ==>
        rect == Cornered(old(rect), x, y, found.width, found.height, screen)
    {
      if found.Layout? {
        return;
      }
      if x < 0 || found.Failed? {
        rect := Centred(rect, x, y, found.width, found.height, screen, help);
      } else {
        rect := Cornered(rect, x, y, found.width, found.height, screen);
      }
      rotation := 0;
    }

    /**
     * SnapShotW::rotate (snapshot.cpp:1100-1195) for a shown picture `w` by
     * `h`: when the turn of the image fails nothing changes; otherwise the
     * window is turned about its centre and the turn is counted.
     */
    method Rotate(clockwise: bool, failed: bool, w: int, h: int)
      requires Valid()
      modifies this
      ensures Valid()
      ensures failed ==> rotation == old(rotation) && rect == old(rect)
      ensures !failed ==> rotation == Turn(old(rotation), clockwise) && rect == Recentred(old(rect), w, h)
    {
      if failed {
        return;
      }
      var cx := CDiv(rect.right + rect.left, 2);
      var cy := CDiv(rect.bottom + rect.top, 2);
      var left := cx - CDiv(h, 2);
      var top := cy - CDiv(w, 2);
      rect := Rect(left, top, left + h, top + w);
      if clockwise {
        rotation := (rotation + 1) % 4;
      } else {
        rotation := (rotation - 1 + 4) % 4;
      }
    }

    /** An arrow key (snapshot.cpp:752-805). */
    method KeyMove(key: Arrow, shift: bool, ctrl: bool, screen: Rect)
      modifies this
      ensures rect == Moved(old(rect), key, KeyStep(shift, ctrl), screen) && rotation == old(rotation)
    {
      var step := 1;
      if shift {
        step := 4;
      }
      if ctrl {
        step := 10;
        if shift {
          step := 32;
        }
      }
      var rw := rect.right - rect.left;
      var rh := rect.bottom - rect.top;
      match key {
        case Up =>
          if rect.bottom > 16 {
            rect := Rect(rect.left, rect.top - step, rect.left + rw, rect.top - step + rh);
          }
        case Down =>
          if rect.top < screen.bottom - 16 {
            rect := Rect(rect.left, rect.top + step, rect.left + rw, rect.top + step + rh);
          }
        case Left =>
          if rect.right > 16 {
            rect := Rect(rect.left - step, rect.top, rect.left - step + rw, rect.top + rh);
          }
        case Right =>
          if rect.left < screen.right - 16 {
            rect := Rect(rect.left + step, rect.top, rect.left + step + rw, rect.top + rh);
          }
      }
    }
  }
}
