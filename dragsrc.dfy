// The drag source of Osiva (dragsrc.cpp): the IDropSource that decides
// when a drag ends, the IEnumFORMATETC cursor over the formats offered,
// the reference counts of both, the DROPFILES package of a dragged file
// and how the outcome of the drag is reported.
module DragSource {
  import opened Common

  const WORD: int := 0x1_0000_0000

  /** ++ on a 32-bit unsigned count. */
  function Inc32(n: int): (r: int)
    requires 0 <= n < WORD
    ensures 0 <= r < WORD && (n + 1 < WORD ==> r == n + 1)
  {
    (n + 1) % WORD
  }

  /** -- on a 32-bit unsigned count: 0 wraps to 0xFFFFFFFF. */
  function Dec32(n: int): (r: int)
    requires 0 <= n < WORD
    ensures 0 <= r < WORD && (0 < n ==> r == n - 1)
  {
    (n + WORD - 1) % WORD
  }

  /** A Release undoes an AddRef, and an AddRef a Release. */
  lemma CountsCancel(n: int)
    requires 0 <= n < WORD
    ensures Dec32(Inc32(n)) == n && Inc32(Dec32(n)) == n
  {
  }

  // ---------------------------------------------------------------------
  // DropSource (dragsrc.cpp:96-182)

  const MK_LBUTTON: bv32 := 0x0001
  const MK_RBUTTON: bv32 := 0x0002

  /** What QueryContinueDrag answers: S_OK, DRAGDROP_S_DROP or DRAGDROP_S_CANCEL. */
  datatype DragReply = Continue | Drop | Cancel

  /** The HRESULT of a reply, which DoDragDrop passes back when the reply ends the drag. */
  function ReplyCode(q: DragReply): int
  {
    match q
    case Continue => 0
    case Drop => DRAGDROP_S_DROP
    case Cancel => DRAGDROP_S_CANCEL
  }

  const DRAGDROP_S_DROP: int := 0x0004_0100
  const DRAGDROP_S_CANCEL: int := 0x0004_0101

  class DropSource {
    var refs: int
    var dropMask: bv32
    var cancelMask: bv32
    var alive: bool

    predicate Valid()
      reads this
    {
      0 <= refs < WORD
    }

    /**
     * The button held when the drag starts drops, the other one cancels
     * (dragsrc.cpp:96-114); the left button wins when both are down, and
     * with neither both masks are 0.
     */
    constructor (leftDown: bool, rightDown: bool)
      ensures Valid() && alive && refs == 0
      ensures leftDown ==> dropMask == MK_LBUTTON && cancelMask == MK_RBUTTON
      ensures !leftDown && rightDown ==> dropMask == MK_RBUTTON && cancelMask == MK_LBUTTON
      ensures !leftDown && !rightDown ==> dropMask == 0 && cancelMask == 0
    {
      refs := 0;
      var cancel: bv32 := 0;
      var drop: bv32 := 0;
      if leftDown {
        drop := drop | MK_LBUTTON;
        cancel := cancel | MK_RBUTTON;
      } else if rightDown {
        drop := drop | MK_RBUTTON;
        cancel := cancel | MK_LBUTTON;
      }
      dropMask := drop;
      cancelMask := cancel;
      alive := true;
    }

    /** AddRef (dragsrc.cpp:120-124): the count one up, returned. */
    method AddRef() returns (count: int)
      requires Valid() && alive
      modifies this
      ensures Valid() && alive && refs == Inc32(old(refs)) && count == refs
      ensures dropMask == old(dropMask) && cancelMask == old(cancelMask)
    {
      refs := Inc32(refs);
      count := refs;
    }

    /** Release (dragsrc.cpp:130-139): the count one down, returned; the object is destroyed at 0. */
    method Release() returns (count: int)
      requires Valid() && alive
      modifies this
      ensures Valid() && refs == Dec32(old(refs)) && count == refs
      ensures alive <==> refs != 0
      ensures dropMask == old(dropMask) && cancelMask == old(cancelMask)
    {
      refs := Dec32(refs);
      if refs == 0 {
        alive := false;
        return 0;
      }
      count := refs;
    }

    /**
     * QueryContinueDrag (dragsrc.cpp:161-172): cancel on Escape or when the
     * cancel button is down, otherwise drop once the drop button is up,
     * otherwise go on.
     */
    function QueryContinueDrag(escape: bool, keys: bv32): (q: DragReply)
      reads this
      ensures q == Cancel <==> escape || keys & cancelMask != 0
      ensures q == Drop <==> !escape && keys & cancelMask == 0 && keys & dropMask == 0
    {
      if escape || keys & cancelMask != 0 then Cancel
      else if keys & dropMask == 0 then Drop
      else Continue
    }
  }

  /**
   * A drag started with one button goes on while that button alone is
   * held, drops when it is let go and is cancelled when the other button
   * is pressed as well.
   */
  lemma ButtonDrag(ds: DropSource)
    requires (ds.dropMask == MK_LBUTTON && ds.cancelMask == MK_RBUTTON)
          || (ds.dropMask == MK_RBUTTON && ds.cancelMask == MK_LBUTTON)
    ensures ds.QueryContinueDrag(false, ds.dropMask) == Continue
    ensures ds.QueryContinueDrag(false, 0) == Drop
    ensures ds.QueryContinueDrag(false, MK_LBUTTON | MK_RBUTTON) == Cancel
  {
  }

  /** A drag started with no button down drops at once, whatever is held, unless Escape is pressed. */
  lemma NoButtonDrops(ds: DropSource, escape: bool, keys: bv32)
    requires ds.dropMask == 0 && ds.cancelMask == 0
    ensures ds.QueryContinueDrag(escape, keys) == if escape then Cancel else Drop
  {
  }

  // ---------------------------------------------------------------------
  // EnumFORMATETC (dragsrc.cpp:190-353)

  /** A FORMATETC: clipboard format, target device, aspect, page and medium. */
  datatype Format = Format(clipFormat: int, device: bool, aspect: int, index: int, medium: int)

  /** What Next, Skip, Reset and Clone answer: S_OK, S_FALSE or E_POINTER. */
  datatype Status = Ok | Fail | BadPointer

  /** The formats Next hands out from `cur` when asked for `celt`: as many as there are, up to `celt`. */
  function Fetch(formats: seq<Format>, cur: int, celt: int): (r: seq<Format>)
    requires 0 <= cur <= |formats| && 0 <= celt
    ensures |r| == Min(celt, |formats| - cur)
    ensures forall i :: 0 <= i < |r| ==> r[i] == formats[cur + i]
  {
    formats[cur..Min(cur + celt, |formats|)]
  }

  /** Two calls of Next hand out what one call for both counts hands out. */
  lemma FetchSplit(formats: seq<Format>, cur: int, a: int, b: int)
    requires 0 <= cur <= |formats| && 0 <= a && 0 <= b
    ensures var first := Fetch(formats, cur, a);
            first + Fetch(formats, cur + |first|, b) == Fetch(formats, cur, a + b)
  {
    var first := Fetch(formats, cur, a);
    var e := cur + |first|;
    assert formats[cur..e] + formats[e..Min(e + b, |formats|)] == formats[cur..Min(cur + a + b, |formats|)];
  }

  /** From the start, one call for the whole count hands out every format in order. */
  lemma FetchAll(formats: seq<Format>)
    ensures Fetch(formats, 0, |formats|) == formats
  {
    assert formats[0..|formats|] == formats;
  }

  /** Whether Next refuses at once (dragsrc.cpp:296-300): nothing asked, no buffer, at the end, or more than one without a count to report. */
  predicate Refused(celt: int, buffer: bool, counted: bool, cur: int, size: int)
  {
    celt == 0 || !buffer || cur >= size || (!counted && celt != 1)
  }

  /**
   * Where Skip leaves the cursor (dragsrc.cpp:317-324), or None when it
   * fails: the sum is compared as a 32-bit unsigned value, so skipping
   * exactly to the end fails and a count above 2^31 can move the cursor
   * back.
   */
  function SkipTo(cur: int, celt: int, size: int): (r: Option<int>)
    requires 0 <= cur && 0 <= celt < WORD
    ensures r.Some? ==> 0 <= r.value < size
    ensures cur + celt < WORD ==> (r.Some? <==> cur + celt < size) && (r.Some? ==> r.value == cur + celt)
  {
    var t := (cur + celt) % WORD;
    if t >= size then None else Some(t)
  }

  /** Skipping to exactly the end fails. */
  lemma SkipToEndFails(cur: int, size: int)
    requires 0 <= cur <= size < WORD
    ensures SkipTo(cur, size - cur, size) == None
  {
  }

  /** Skipping 0xFFFFFFFF from the second of two formats moves the cursor back to the first. */
  lemma SkipWrapsBack()
    ensures SkipTo(1, WORD - 1, 2) == Some(0)
  {
  }

  class EnumFormats {
    var formats: seq<Format>
    var cur: int
    var refs: int

    predicate Valid()
      reads this
    {
      0 <= cur <= |formats| && 0 <= refs < WORD
    }

    /** The constructor (dragsrc.cpp:221-235): a copy of the formats, the cursor at the start, no references. */
    constructor (fs: seq<Format>)
      ensures Valid() && formats == fs && cur == 0 && refs == 0
    {
      var copy := [];
      var i := 0;
      while i < |fs|
        invariant 0 <= i <= |fs| && copy == fs[..i]
      {
        copy := copy + [fs[i]];
        i := i + 1;
      }
      formats := copy;
      cur := 0;
      refs := 0;
    }

    /** add (dragsrc.cpp:243-247): one more format at the end. */
    method Add(f: Format)
      requires Valid()
      modifies this
      ensures Valid() && formats == old(formats) + [f] && cur == old(cur) && refs == old(refs)
    {
      formats := formats + [f];
    }

    /** AddRef (dragsrc.cpp:268-272). */
    method AddRef() returns (count: int)
      requires Valid()
      modifies this
      ensures Valid() && refs == Inc32(old(refs)) && count == refs
      ensures formats == old(formats) && cur == old(cur)
    {
      refs := Inc32(refs);
      count := refs;
    }

    /** Release (dragsrc.cpp:275-282): the count one down and returned; the object is destroyed at 0. */
    method Release() returns (count: int, destroyed: bool)
      requires Valid()
      modifies this
      ensures Valid() && refs == Dec32(old(refs)) && count == refs && (destroyed <==> refs == 0)
      ensures formats == old(formats) && cur == old(cur)
    {
      refs := Dec32(refs);
      count := refs;
      destroyed := count == 0;
    }

    /**
     * Next (dragsrc.cpp:288-311): `celt` formats from the cursor into the
     * buffer, as many as remain when fewer do, the cursor moved past them
     * and their number reported when a place for it is given; S_OK exactly
     * when all `celt` were copied, S_FALSE and nothing copied when the
     * request is refused.
     */
    method Next(celt: int, buffer: bool, counted: bool) returns (status: Status, copied: seq<Format>, fetched: Option<int>)
      requires Valid() && 0 <= celt < WORD
      modifies this
      ensures Valid() && formats == old(formats) && refs == old(refs)
      ensures Refused(celt, buffer, counted, old(cur), |formats|) ==>
                status == Fail && copied == [] && cur == old(cur) && fetched == (if counted then Some(0) else None)
      ensures !Refused(celt, buffer, counted, old(cur), |formats|) ==>
                copied == Fetch(formats, old(cur), celt) && cur == old(cur) + |copied|
                && fetched == (if counted then Some(|copied|) else None)
                && (status == Ok <==> |copied| == celt) && (status == Ok || status == Fail)
    {
      fetched := None;
      if counted {
        fetched := Some(0);
      }
      copied := [];
      var remaining := celt;
      if celt <= 0 || !buffer || cur >= |formats| {
        return Fail, copied, fetched;
      }
      if !counted && celt != 1 {
        return Fail, copied, fetched;
      }
      ghost var start := cur;
      while cur < |formats| && remaining > 0
        invariant start <= cur <= |formats| && 0 <= remaining <= celt
        invariant cur - start == celt - remaining
        invariant copied == formats[start..cur]
        invariant refs == old(refs) && formats == old(formats)
        decreases remaining
      {
        copied := copied + [formats[cur]];
        cur := cur + 1;
        remaining := remaining - 1;
      }
      if counted {
        fetched := Some(celt - remaining);
      }
      status := if remaining == 0 then Ok else Fail;
    }

    /** Skip (dragsrc.cpp:317-324): the cursor moved on by `celt`, or left alone with S_FALSE. */
    method Skip(celt: int) returns (status: Status)
      requires Valid() && 0 <= celt < WORD
      modifies this
      ensures Valid() && formats == old(formats) && refs == old(refs)
      ensures SkipTo(old(cur), celt, |formats|).None? ==> status == Fail && cur == old(cur)
      ensures SkipTo(old(cur), celt, |formats|).Some? ==> status == Ok && cur == SkipTo(old(cur), celt, |formats|).value
    {
      if (cur + celt) % WORD >= |formats| {
        return Fail;
      }
      cur := (cur + celt) % WORD;
      status := Ok;
    }

    /** Reset (dragsrc.cpp:330-334): the cursor back at the start. */
    method Reset() returns (status: Status)
      requires Valid()
      modifies this
      ensures Valid() && status == Ok && cur == 0 && formats == old(formats) && refs == old(refs)
    {
      cur := 0;
      status := Ok;
    }

    /**
     * Clone (dragsrc.cpp:340-353): E_POINTER without a place for the
     * clone; otherwise a new enumerator over the same formats at the same
     * cursor, holding one reference.
     */
    method Clone(wanted: bool) returns (status: Status, copy: EnumFormats?)
      requires Valid()
      ensures !wanted ==> status == BadPointer && copy == null
      ensures wanted ==>
                status == Ok && copy != null && fresh(copy) && copy.Valid()
                && copy.formats == formats && copy.cur == cur && copy.refs == 1
    {
      if !wanted {
        return BadPointer, null;
      }
      var e := new EnumFormats(formats);
      var _ := e.AddRef();
      e.cur := cur;
      return Ok, e;
    }
  }

  // ---------------------------------------------------------------------
  // drag_file_out (dragsrc.cpp:577-633)

  /** sizeof(DROPFILES): pFiles, the point pt, fNC and fWide, four bytes each. */
  const DROPFILES_SIZE: int := 20

  /** A 32-bit little-endian value at `k`. */
  function Le32(p: seq<bv8>, k: nat): int
    requires k + 4 <= |p|
  {
    p[k] as int + 256 * (p[k + 1] as int + 256 * (p[k + 2] as int + 256 * p[k + 3] as int))
  }

  /**
   * The package drag_file_out builds (dragsrc.cpp:581-590): a zeroed
   * DROPFILES whose pFiles is its own size and fWide 0, then the file
   * name and two NULs.
   */
  function DropPackage(name: seq<bv8>): (p: seq<bv8>)
    ensures |p| == DROPFILES_SIZE + |name| + 2
    ensures Le32(p, 0) == DROPFILES_SIZE && Le32(p, 16) == 0
    ensures p[DROPFILES_SIZE..DROPFILES_SIZE + |name|] == name
    ensures p[|p| - 2] == 0 && p[|p| - 1] == 0
  {
    var header := [20 as bv8] + seq(DROPFILES_SIZE - 1, _ => 0 as bv8);
    var p := header + name + [0, 0];
    assert p[DROPFILES_SIZE..DROPFILES_SIZE + |name|] == name;
    p
  }

  /** The first NUL at or after `k`, or the end. */
  function NulFrom(p: seq<bv8>, k: nat): (e: nat)
    requires k <= |p|
    ensures k <= e <= |p| && (e < |p| ==> p[e] == 0)
    ensures forall i :: k <= i < e ==> p[i] != 0
    decreases |p| - k
  {
    if k == |p| || p[k] == 0 then k else NulFrom(p, k + 1)
  }

  /** The names of a double-NUL-terminated list from `k`, as a drop target reads them. */
  function FileList(p: seq<bv8>, k: nat): seq<seq<bv8>>
    requires k <= |p|
    decreases |p| - k
  {
    var e := NulFrom(p, k);
    if e == k || e == |p| then [] else [p[k..e]] + FileList(p, e + 1)
  }

  /** The files a DROPFILES package names: the list at pFiles. */
  function DroppedFiles(p: seq<bv8>): seq<seq<bv8>>
  {
    if |p| < DROPFILES_SIZE then []
    else
      var at := Le32(p, 0);
      if at > |p| then [] else FileList(p, at)
  }

  /** The package of a file name names that one file, and no file for an empty name. */
  lemma DropRoundTrip(name: seq<bv8>)
    requires 0 !in name
    ensures DroppedFiles(DropPackage(name)) == if name == [] then [] else [name]
  {
    var p := DropPackage(name);
    var z := DROPFILES_SIZE + |name|;
    assert forall i :: DROPFILES_SIZE <= i < z ==> p[i] == name[i - DROPFILES_SIZE];
    assert forall i :: DROPFILES_SIZE <= i < z ==> p[i] != 0;
    assert NulFrom(p, DROPFILES_SIZE) == z by {
      NulIs(p, DROPFILES_SIZE, z);
    }
    if name != [] {
      assert NulFrom(p, z + 1) == z + 1;
      assert FileList(p, z + 1) == [];
    }
  }

  /** The first NUL is the one no NUL precedes. */
  lemma NulIs(p: seq<bv8>, k: nat, e: nat)
    requires k <= e < |p| && p[e] == 0 && forall i :: k <= i < e ==> p[i] != 0
    ensures NulFrom(p, k) == e
    decreases e - k
  {
    if k < e {
      NulIs(p, k + 1, e);
    }
  }

  const DROPEFFECT_COPY: bv32 := 1

  /**
   * What drag_file_out returns (dragsrc.cpp:617-632): 1 for a drop that
   * copied the file, 2 for any other drop (a move, or the zero effect some
   * systems report for one), 0 when the drag did not end in a drop.
   */
  function DragResult(dragret: int, effect: bv32): (r: int)
    ensures r == 1 <==> dragret == DRAGDROP_S_DROP && effect == DROPEFFECT_COPY
    ensures r == 0 <==> dragret != DRAGDROP_S_DROP
    ensures 0 <= r <= 2
  {
    if dragret == DRAGDROP_S_DROP then (if effect == DROPEFFECT_COPY then 1 else 2) else 0
  }

  /** The drag reports a result other than 0 exactly when the reply that ended it was a drop. */
  lemma ReplyResult(q: DragReply, effect: bv32)
    ensures DragResult(ReplyCode(q), effect) != 0 <==> q == Drop
  {
  }
}
