/** The chunker of src/chunker.py: a cursor loop that cuts the document into windows of at most
    chunkSize characters, pulls an early cut back to the last space in the window, emits each
    window stripped (dropping blank ones) and steps the cursor back by overlap characters.

    The loop in the source has no termination guarantee: the next cursor, end - overlap, can
    be at or before the current one. The model follows the source exactly while the cursor
    advances and stops, reporting Stuck, at the first iteration where it does not. */
module Chunker {
  import opened Text

  /** Python's text.rfind(c, lo, hi) for 0 <= lo <= hi <= |text|: the highest index in
      [lo, hi) holding c, or -1. */
  function RFind(text: string, c: char, lo: nat, hi: nat): (p: int)
    requires lo <= hi <= |text|
    ensures p == -1 || lo <= p < hi
    decreases hi - lo
  {
    if hi == lo then -1
    else if text[hi - 1] == c then hi - 1
    else RFind(text, c, lo, hi - 1)
  }

  /** Where the window that starts at `start` is cut (src/chunker.py:25-36): at the end of the
      text when the window reaches it, else at the last space of the window (see CutAtLastSpace). */
  function CutEnd(text: string, chunkSize: int, start: nat): (end: nat)
    requires chunkSize > 0 && start < |text|
    ensures start < end <= |text| && end <= start + chunkSize
    ensures start + chunkSize >= |text| ==> end == |text|
  {
    if start + chunkSize < |text| then
      var spacePos := RFind(text, ' ', start, start + chunkSize);
      if spacePos > start then spacePos else start + chunkSize
    else |text|
  }

  /** An early cut (the window ends before the text does) is at the highest p with
      start < p < start + chunkSize and text[p] == ' ', or at start + chunkSize when there is
      none; only ' ' counts, and a space at `start` itself is passed over (src/chunker.py:27-33). */
  lemma CutAtLastSpace(text: string, chunkSize: int, start: nat)
    requires chunkSize > 0 && start < |text| && start + chunkSize < |text|
    ensures var end := CutEnd(text, chunkSize, start);
      (end == start + chunkSize && forall p :: start < p < start + chunkSize ==> text[p] != ' ')
      || (end < start + chunkSize && text[end] == ' ' && forall p :: end < p < start + chunkSize ==> text[p] != ' ')
  {
    RFindSpec(text, ' ', start, start + chunkSize);
  }

  lemma {:induction false} RFindSpec(text: string, c: char, lo: nat, hi: nat)
    requires lo <= hi <= |text|
    ensures var p := RFind(text, c, lo, hi);
      (p == -1 || text[p] == c)
      && (p == -1 ==> forall j :: lo <= j < hi ==> text[j] != c)
      && (p != -1 ==> forall j :: p < j < hi ==> text[j] != c)
    decreases hi - lo
  {
    if hi > lo && text[hi - 1] != c {
      RFindSpec(text, c, lo, hi - 1);
    }
  }

  /** The raw window text[lo:hi] of one loop iteration. */
  datatype Window = Window(lo: nat, hi: nat)

  /** The windows the loop visits, in order, and how the loop ends: Completed when it reaches
      the end of the text, Stalled when the cursor would move to `next` <= the last window's start. */
  datatype Trace = Completed(windows: seq<Window>) | Stalled(windows: seq<Window>, next: int)

  function Cons(w: Window, t: Trace): (r: Trace)
  {
    match t
    case Completed(ws) => Completed([w] + ws)
    case Stalled(ws, next) => Stalled([w] + ws, next)
  }

  /** The loop's windows from cursor `start` on. */
  function TraceFrom(text: string, chunkSize: int, overlap: int, start: nat): (t: Trace)
    requires chunkSize > 0
    ensures forall i :: 0 <= i < |t.windows| ==>
      start <= t.windows[i].lo < t.windows[i].hi <= |text| && t.windows[i].hi <= t.windows[i].lo + chunkSize
    ensures start < |text| <==> |t.windows| > 0
    ensures start < |text| ==> t.windows[0].lo == start
    decreases |text| - start
  {
    if start >= |text| then Completed([])
    else
      var end := CutEnd(text, chunkSize, start);
      var w := Window(start, end);
      if end >= |text| then Completed([w])
      else if end - overlap <= start then Stalled([w], end - overlap)
      else Cons(w, TraceFrom(text, chunkSize, overlap, end - overlap))
  }

  /** The chunk a window produces: its stripped text, or nothing when that is blank. The
      windows of a run always lie in the text (TraceFrom); one that does not produces nothing. */
  function Emit(text: string, w: Window): (cs: seq<string>)
    ensures |cs| <= 1 && forall c :: c in cs ==> c != [] && IsTrimmed(c)
    ensures w.lo <= w.hi <= |text| ==> (cs == [] <==> IsBlank(text[w.lo..w.hi]))
  {
    if w.lo <= w.hi <= |text| then
      var c := Strip(text[w.lo..w.hi]);
      if c == [] then [] else [c]
    else []
  }

  /** The chunks the loop appends for the windows `ws`, in window order. */
  function ChunksOf(text: string, ws: seq<Window>): (cs: seq<string>)
  {
    if ws == [] then [] else Emit(text, ws[0]) + ChunksOf(text, ws[1..])
  }

  /** What chunk_text gives: Done(chunks) is the list the source returns; Stuck(chunks, next)
      says the source reached an iteration whose next cursor `next` is not past the current
      one, after appending `chunks`. */
  datatype ChunkResult = Done(chunks: seq<string>) | Stuck(chunks: seq<string>, next: int)

  function ResultOf(text: string, t: Trace): (r: ChunkResult)
  {
    match t
    case Completed(ws) => Done(ChunksOf(text, ws))
    case Stalled(ws, next) => Stuck(ChunksOf(text, ws), next)
  }

  function Prepend(pre: seq<string>, r: ChunkResult): (r': ChunkResult)
  {
    match r
    case Done(cs) => Done(pre + cs)
    case Stuck(cs, next) => Stuck(pre + cs, next)
  }

  /** The specification of chunk_text(text, chunkSize, overlap). */
  function Chunk(text: string, chunkSize: int, overlap: int): (r: ChunkResult)
    requires chunkSize > 0
  {
    ResultOf(text, TraceFrom(text, chunkSize, overlap, 0))
  }

  /** chunk_text (src/chunker.py:9-49). */
  method ChunkText(text: string, chunkSize: int, overlap: int) returns (r: ChunkResult)
    requires chunkSize > 0
    ensures r == Chunk(text, chunkSize, overlap)
  {
    var chunks: seq<string> := [];
    var start: nat := 0;
    var textLen := |text|;
    PrependNothing(Chunk(text, chunkSize, overlap));
    while start < textLen
      invariant Chunk(text, chunkSize, overlap) == Prepend(chunks, ResultOf(text, TraceFrom(text, chunkSize, overlap, start)))
      decreases textLen - start
    {
      var end := WindowEnd(text, chunkSize, start);
      var chunk := Strip(text[start..end]);
      ghost var before := chunks;
      if chunk != [] {
        chunks := chunks + [chunk];
      }
      assert chunks == before + Emit(text, Window(start, end));
      if end >= textLen {
        StepDone(text, chunkSize, overlap, start, end);
        break;
      }
      var next := end - overlap;
      if next <= start {
        StepStuck(text, chunkSize, overlap, start, end);
        return Stuck(chunks, next);
      }
      StepOn(text, chunkSize, overlap, start, end, next);
      PrependTwice(before, Emit(text, Window(start, end)), ResultOf(text, TraceFrom(text, chunkSize, overlap, next)));
      start := next;
    }
    r := Done(chunks);
  }

  /** The cut of one iteration (src/chunker.py:25-36), as the loop computes it. */
  method WindowEnd(text: string, chunkSize: int, start: nat) returns (end: nat)
    requires chunkSize > 0 && start < |text|
    ensures end == CutEnd(text, chunkSize, start)
  {
    var textLen := |text|;
    var cut := start + chunkSize;
    if cut < textLen {
      var spacePos := RFind(text, ' ', start, cut);
      if spacePos > start {
        cut := spacePos;
      }
    } else {
      cut := textLen;
    }
    end := cut;
  }

  lemma PrependNothing(r: ChunkResult)
    ensures Prepend([], r) == r
  {
    assert [] + r.chunks == r.chunks;
  }

  lemma PrependTwice(a: seq<string>, b: seq<string>, r: ChunkResult)
    ensures Prepend(a, Prepend(b, r)) == Prepend(a + b, r)
  {
    assert a + (b + r.chunks) == (a + b) + r.chunks;
  }

  /** One iteration of the loop, from cursor `start` with cut `end`. When the window reaches the
      end of the text, its chunk is the last one (src/chunker.py:24-43). */
  lemma StepDone(text: string, chunkSize: int, overlap: int, start: nat, end: nat)
    requires chunkSize > 0 && start < |text| && end == CutEnd(text, chunkSize, start) && end >= |text|
    ensures ResultOf(text, TraceFrom(text, chunkSize, overlap, start)) == Done(Emit(text, Window(start, end)))
  {
    SingleWindow(text, Window(start, end));
  }

  /** When the next cursor end - overlap is not past `start`, the run stalls after this window's
      chunk (src/chunker.py:42-47). */
  lemma StepStuck(text: string, chunkSize: int, overlap: int, start: nat, end: nat)
    requires chunkSize > 0 && start < |text| && end == CutEnd(text, chunkSize, start) && end < |text|
    requires end - overlap <= start
    ensures ResultOf(text, TraceFrom(text, chunkSize, overlap, start)) == Stuck(Emit(text, Window(start, end)), end - overlap)
  {
    SingleWindow(text, Window(start, end));
  }

  /** Otherwise this window's chunk comes first, then those of the run from `next` on
      (src/chunker.py:38-47). */
  lemma StepOn(text: string, chunkSize: int, overlap: int, start: nat, end: nat, next: nat)
    requires chunkSize > 0 && start < |text| && end == CutEnd(text, chunkSize, start) && end < |text|
    requires next == end - overlap && next > start
    ensures ResultOf(text, TraceFrom(text, chunkSize, overlap, start))
      == Prepend(Emit(text, Window(start, end)), ResultOf(text, TraceFrom(text, chunkSize, overlap, next)))
  {
    var w := Window(start, end);
    var rest := TraceFrom(text, chunkSize, overlap, next);
    assert TraceFrom(text, chunkSize, overlap, start) == Cons(w, rest);
    ResultOfCons(text, w, rest);
  }

  lemma SingleWindow(text: string, w: Window)
    ensures ChunksOf(text, [w]) == Emit(text, w)
  {
    assert [w][1..] == [];
    assert ChunksOf(text, [w]) == Emit(text, w) + ChunksOf(text, []);
  }

  lemma ResultOfCons(text: string, w: Window, t: Trace)
    ensures ResultOf(text, Cons(w, t)) == Prepend(Emit(text, w), ResultOf(text, t))
  {
    assert ([w] + t.windows)[1..] == t.windows;
  }

  /** Every chunk is non-empty and has no leading or trailing whitespace, and there are at most
      as many chunks as windows (src/chunker.py:38-40). */
  lemma {:induction false} ChunksTrimmed(text: string, ws: seq<Window>)
    ensures |ChunksOf(text, ws)| <= |ws|
    ensures forall k :: 0 <= k < |ChunksOf(text, ws)| ==> ChunksOf(text, ws)[k] != [] && IsTrimmed(ChunksOf(text, ws)[k])
    decreases |ws|
  {
    if ws != [] {
      var tail := ws[1..];
      assert forall j :: 0 <= j < |tail| ==> tail[j] == ws[j + 1];
      ChunksTrimmed(text, tail);
      var e := Emit(text, ws[0]);
      var cs := ChunksOf(text, ws);
      assert cs == e + ChunksOf(text, tail);
      forall k | 0 <= k < |cs|
        ensures cs[k] != [] && IsTrimmed(cs[k])
      {
        if k >= |e| {
          assert cs[k] == ChunksOf(text, tail)[k - |e|];
        }
      }
    }
  }

  /** What chunk_text returns, and what it appended before it stalls, are non-empty trimmed chunks. */
  lemma ChunkTrimmed(text: string, chunkSize: int, overlap: int)
    requires chunkSize > 0
    ensures var cs := Chunk(text, chunkSize, overlap).chunks;
      forall k :: 0 <= k < |cs| ==> cs[k] != [] && IsTrimmed(cs[k])
  {
    ChunksTrimmed(text, TraceFrom(text, chunkSize, overlap, 0).windows);
  }

  /** Empty text gives no chunks; text no longer than chunkSize is one window, the whole text,
      and gives its stripped form unless it is blank (src/chunker.py:22-25, 34-43). */
  lemma ShortText(text: string, chunkSize: int, overlap: int)
    requires chunkSize > 0
    ensures |text| == 0 ==> TraceFrom(text, chunkSize, overlap, 0) == Completed([])
    ensures 0 < |text| <= chunkSize ==> TraceFrom(text, chunkSize, overlap, 0) == Completed([Window(0, |text|)])
    ensures |text| <= chunkSize ==> Chunk(text, chunkSize, overlap) == Done(if IsBlank(text) then [] else [Strip(text)])
  {
    if 0 < |text| <= chunkSize {
      var ws := [Window(0, |text|)];
      assert text[0..|text|] == text;
      assert ChunksOf(text, ws) == Emit(text, ws[0]) + ChunksOf(text, ws[1..]);
    }
  }

  /** Consecutive windows: each but the last ends before the text does, and the next one
      starts overlap characters before its end, strictly after its start. */
  ghost predicate Chained(text: string, overlap: int, ws: seq<Window>) {
    forall i :: 0 <= i < |ws| - 1 ==> Linked(text, overlap, ws[i], ws[i + 1])
  }

  ghost predicate Linked(text: string, overlap: int, w: Window, w': Window) {
    w.hi < |text| && w'.lo == w.hi - overlap && w.lo < w'.lo
  }

  /** The windows of every run are chained (src/chunker.py:42-47). */
  lemma {:induction false} TraceSteps(text: string, chunkSize: int, overlap: int, start: nat)
    requires chunkSize > 0
    ensures Chained(text, overlap, TraceFrom(text, chunkSize, overlap, start).windows)
    decreases |text| - start
  {
    if start < |text| {
      var end := CutEnd(text, chunkSize, start);
      if end < |text| && end - overlap > start {
        var next: nat := end - overlap;
        TraceSteps(text, chunkSize, overlap, next);
        var ws := TraceFrom(text, chunkSize, overlap, start).windows;
        var rest := TraceFrom(text, chunkSize, overlap, next).windows;
        assert ws == [Window(start, end)] + rest;
        forall i | 0 <= i < |ws| - 1
          ensures Linked(text, overlap, ws[i], ws[i + 1])
        {
          if i > 0 {
            assert ws[i] == rest[i - 1] && ws[i + 1] == rest[i];
          }
        }
      }
    }
  }

  /** How the loop ends: a completed run's last window ends exactly at the end of the text, or,
      with a negative overlap, moves the cursor past it; a stalled run's last window ends before it, and the cursor would move to next = end - overlap,
      which is not after that window's start (src/chunker.py:36, 42-47). */
  ghost predicate EndsRight(text: string, overlap: int, t: Trace) {
    (t.Completed? && t.windows != [] ==> FinishesAt(text, overlap, t.windows[|t.windows| - 1]))
    && (t.Stalled? ==> t.windows != [] && StallsAt(text, overlap, t.windows[|t.windows| - 1], t.next))
  }

  ghost predicate FinishesAt(text: string, overlap: int, last: Window) {
    last.hi == |text| || (overlap < 0 && last.hi - overlap >= |text|)
  }

  ghost predicate StallsAt(text: string, overlap: int, last: Window, next: int) {
    last.hi < |text| && next == last.hi - overlap && next <= last.lo
  }

  lemma {:induction false} TraceEnds(text: string, chunkSize: int, overlap: int, start: nat)
    requires chunkSize > 0
    ensures EndsRight(text, overlap, TraceFrom(text, chunkSize, overlap, start))
    decreases |text| - start
  {
    if start < |text| {
      var end := CutEnd(text, chunkSize, start);
      if end < |text| && end - overlap > start {
        var next: nat := end - overlap;
        TraceEnds(text, chunkSize, overlap, next);
        var rest := TraceFrom(text, chunkSize, overlap, next);
        var t := TraceFrom(text, chunkSize, overlap, start);
        assert t == Cons(Window(start, end), rest);
        if rest.windows != [] {
          assert t.windows[|t.windows| - 1] == rest.windows[|rest.windows| - 1];
        }
      }
    }
  }

  /** One iteration that does not reach the end of the text moves the cursor strictly forward
      iff its window is longer than overlap: the run goes on from end - overlap when it is, and
      stalls right after this window when it is not (src/chunker.py:31-33, 47). */
  lemma CursorAdvances(text: string, chunkSize: int, overlap: int, start: nat)
    requires chunkSize > 0 && start < |text| && CutEnd(text, chunkSize, start) < |text|
    ensures var end := CutEnd(text, chunkSize, start);
      end - start <= overlap <==> TraceFrom(text, chunkSize, overlap, start) == Stalled([Window(start, end)], end - overlap)
    ensures var end := CutEnd(text, chunkSize, start);
      end - start > overlap ==>
        (end - overlap > start
         && TraceFrom(text, chunkSize, overlap, start) == Cons(Window(start, end), TraceFrom(text, chunkSize, overlap, end - overlap)))
  {
    var end := CutEnd(text, chunkSize, start);
    if end - start > overlap {
      var next: nat := end - overlap;
      TraceEnds(text, chunkSize, overlap, next);
      var rest := TraceFrom(text, chunkSize, overlap, next);
      assert TraceFrom(text, chunkSize, overlap, start) == Cons(Window(start, end), rest);
      assert |Cons(Window(start, end), rest).windows| != 1 || rest.Completed?;
    }
  }

  /** Without overlap the cursor always advances, so the loop ends (sufficient condition one). */
  lemma {:induction false} NoOverlapTerminates(text: string, chunkSize: int, start: nat)
    requires chunkSize > 0
    ensures TraceFrom(text, chunkSize, 0, start).Completed?
    decreases |text| - start
  {
    if start < |text| {
      var end := CutEnd(text, chunkSize, start);
      if end < |text| {
        NoOverlapTerminates(text, chunkSize, end);
      }
    }
  }

  /** In text without spaces every early cut is at start + chunkSize, so with
      0 <= overlap < chunkSize the cursor always advances and the loop ends (sufficient condition two). */
  lemma {:induction false} SpaceFreeTerminates(text: string, chunkSize: int, overlap: int, start: nat)
    requires 0 <= overlap < chunkSize
    requires forall j :: 0 <= j < |text| ==> text[j] != ' '
    ensures TraceFrom(text, chunkSize, overlap, start).Completed?
    decreases |text| - start
  {
    if start < |text| {
      var end := CutEnd(text, chunkSize, start);
      if end < |text| {
        CutAtLastSpace(text, chunkSize, start);
        assert end == start + chunkSize;
        var next: nat := end - overlap;
        SpaceFreeTerminates(text, chunkSize, overlap, next);
      }
    }
  }

  /** The cursor need not advance, even with overlap < chunkSize: in "a bcdefghij klmno" with
      chunkSize 10 and overlap 3, the first cut is pulled back to the space at 1, the chunk "a"
      is emitted, and the cursor would move to 1 - 3 = -2. From there Python's negative indices
      take over: cursor -2 appends "n", and cursor -4 then appends "lmn" again and again. */
  lemma StallExample()
    ensures Chunk("a bcdefghij klmno", 10, 3) == Stuck(["a"], -2)
  {
    var text := "a bcdefghij klmno";
    assert text[1] == ' ';
    assert forall p :: 1 < p < 10 ==> text[p] != ' ';
    assert CutEnd(text, 10, 0) == 1;
    assert TraceFrom(text, 10, 3, 0) == Stalled([Window(0, 1)], -2);
    assert text[0..1] == "a";
    StripTrimmed("a");
    assert [Window(0, 1)][1..] == [];
  }

  /** A stall whose next cursor is still in the text repeats forever in the source: with
      0 <= overlap < chunkSize, the window from next is cut at the same space, so the cursor
      comes back to next and chunk_text keeps appending the chunk of text[next:end]. */
  lemma StallRepeats(text: string, chunkSize: int, overlap: int, start: nat)
    requires 0 <= overlap < chunkSize && start < |text|
    requires CutEnd(text, chunkSize, start) < |text|
    requires 0 <= CutEnd(text, chunkSize, start) - overlap <= start
    ensures var end := CutEnd(text, chunkSize, start);
      var next: nat := end - overlap;
      next < end && CutEnd(text, chunkSize, next) == end
      && TraceFrom(text, chunkSize, overlap, next) == Stalled([Window(next, end)], next)
  {
    var end := CutEnd(text, chunkSize, start);
    var next: nat := end - overlap;
    CutAtLastSpace(text, chunkSize, start);
    assert end < start + chunkSize && text[end] == ' ';
    CutAtLastSpace(text, chunkSize, next);
    assert next < end < next + chunkSize <= start + chunkSize;
  }

  /** Text no longer than the chunk size: "short text" with 500 and 100 gives ["short text"]. */
  lemma ShortExample()
    ensures Chunk("short text", 500, 100) == Done(["short text"])
  {
    var text := "short text";
    assert !IsSpace('s') && !IsSpace('t');
    assert text[0] == 's' && text[|text| - 1] == 't';
    StripTrimmed(text);
    ShortText(text, 500, 100);
  }

  /** With overlap >= 0 the windows of a completed run leave no gap: every position of the text
      lies in some window (src/chunker.py:21, 36, 42-47). */
  lemma {:induction false} CoveringWindow(text: string, chunkSize: int, overlap: int, start: nat, p: nat)
    returns (i: nat)
    requires chunkSize > 0 && overlap >= 0 && start <= p < |text|
    requires TraceFrom(text, chunkSize, overlap, start).Completed?
    ensures var ws := TraceFrom(text, chunkSize, overlap, start).windows;
      i < |ws| && ws[i].lo <= p < ws[i].hi
    decreases |text| - start
  {
    var end := CutEnd(text, chunkSize, start);
    if p < end {
      i := 0;
    } else {
      var next: nat := end - overlap;
      var rest := TraceFrom(text, chunkSize, overlap, next);
      var i' := CoveringWindow(text, chunkSize, overlap, next, p);
      assert TraceFrom(text, chunkSize, overlap, start).windows == [Window(start, end)] + rest.windows;
      i := i' + 1;
    }
  }

  /** With overlap >= 0, a run that completes without stalling loses no content: every non-whitespace character of
      the text lies in a window whose stripped text is one of the chunks chunk_text returns. */
  lemma ContentKept(text: string, chunkSize: int, overlap: int, p: nat) returns (w: Window)
    requires chunkSize > 0 && overlap >= 0 && p < |text| && !IsSpace(text[p])
    requires TraceFrom(text, chunkSize, overlap, 0).Completed?
    ensures w in TraceFrom(text, chunkSize, overlap, 0).windows
    ensures w.lo <= p < w.hi <= |text|
    ensures Strip(text[w.lo..w.hi]) in Chunk(text, chunkSize, overlap).chunks
  {
    var ws := TraceFrom(text, chunkSize, overlap, 0).windows;
    var i := CoveringWindow(text, chunkSize, overlap, 0, p);
    w := ws[i];
    var s := text[w.lo..w.hi];
    assert s[p - w.lo] == text[p];
    assert Emit(text, w) == [Strip(s)];
    EmitInChunks(text, ws, i);
  }

  /** So text that is not all whitespace gives at least one chunk, whenever the run completes
      without stalling. */
  lemma NonBlankHasChunks(text: string, chunkSize: int, overlap: int)
    requires chunkSize > 0 && overlap >= 0 && !IsBlank(text)
    requires TraceFrom(text, chunkSize, overlap, 0).Completed?
    ensures Chunk(text, chunkSize, overlap).chunks != []
  {
    var p :| 0 <= p < |text| && !IsSpace(text[p]);
    var w := ContentKept(text, chunkSize, overlap, p);
  }

  /** The chunk of window i is among the chunks of the windows. */
  lemma {:induction false} EmitInChunks(text: string, ws: seq<Window>, i: nat)
    requires i < |ws|
    ensures forall c :: c in Emit(text, ws[i]) ==> c in ChunksOf(text, ws)
    decreases i
  {
    assert ChunksOf(text, ws) == Emit(text, ws[0]) + ChunksOf(text, ws[1..]);
    if i > 0 {
      EmitInChunks(text, ws[1..], i - 1);
      assert ws[1..][i - 1] == ws[i];
    }
  }

  /** The chunks follow window order: the chunks of two runs of windows are those of the first
      run followed by those of the second (src/chunker.py:20, 40). */
  lemma {:induction false} ChunksOfAppend(text: string, ws1: seq<Window>, ws2: seq<Window>)
    ensures ChunksOf(text, ws1 + ws2) == ChunksOf(text, ws1) + ChunksOf(text, ws2)
    decreases |ws1|
  {
    if ws1 == [] {
      assert ws1 + ws2 == ws2;
    } else {
      var tail := ws1[1..];
      ChunksOfAppend(text, tail, ws2);
      var ws := ws1 + ws2;
      TailOfAppend(ws1, ws2);
      calc {
        ChunksOf(text, ws);
        Emit(text, ws1[0]) + ChunksOf(text, tail + ws2);
        Emit(text, ws1[0]) + (ChunksOf(text, tail) + ChunksOf(text, ws2));
        (Emit(text, ws1[0]) + ChunksOf(text, tail)) + ChunksOf(text, ws2);
      }
    }
  }

  lemma TailOfAppend(a: seq<Window>, b: seq<Window>)
    requires a != []
    ensures (a + b)[0] == a[0] && (a + b)[1..] == a[1..] + b
  {
  }

  /** Every chunk is the stripped text of one of the windows (src/chunker.py:38-40). */
  lemma {:induction false} ChunkOrigin(text: string, ws: seq<Window>, k: nat) returns (i: nat)
    requires k < |ChunksOf(text, ws)|
    ensures i < |ws| && ws[i].lo <= ws[i].hi <= |text| && ChunksOf(text, ws)[k] == Strip(text[ws[i].lo..ws[i].hi])
    decreases |ws|
  {
    var e := Emit(text, ws[0]);
    var tail := ws[1..];
    var rest := ChunksOf(text, tail);
    assert ChunksOf(text, ws) == e + rest;
    if k < |e| {
      EmitOne(text, ws[0]);
      i := 0;
    } else {
      var i' := ChunkOrigin(text, tail, k - |e|);
      assert ChunksOf(text, ws)[k] == rest[k - |e|];
      assert tail[i'] == ws[i' + 1];
      i := i' + 1;
    }
  }

  /** A window that produces a chunk lies in the text and produces exactly its stripped text. */
  lemma EmitOne(text: string, w: Window)
    requires Emit(text, w) != []
    ensures w.lo <= w.hi <= |text| && Emit(text, w) == [Strip(text[w.lo..w.hi])]
  {
  }

  /** Each chunk chunk_text returns is the stripped text of a window text[lo:hi] of the run with
      lo < hi <= lo + chunkSize, so it has at most chunkSize characters (src/chunker.py:25, 31-38). */
  lemma ChunkWindow(text: string, chunkSize: int, overlap: int, k: nat) returns (w: Window)
    requires chunkSize > 0 && k < |Chunk(text, chunkSize, overlap).chunks|
    ensures w in TraceFrom(text, chunkSize, overlap, 0).windows
    ensures w.lo < w.hi <= |text| && w.hi <= w.lo + chunkSize
    ensures Chunk(text, chunkSize, overlap).chunks[k] == Strip(text[w.lo..w.hi])
    ensures |Chunk(text, chunkSize, overlap).chunks[k]| <= chunkSize
  {
    var ws := TraceFrom(text, chunkSize, overlap, 0).windows;
    var i := ChunkOrigin(text, ws, k);
    w := ws[i];
  }
}
