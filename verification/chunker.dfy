// The sliding-window text chunker `create_chunks(text, chunk_size, overlap)`
// of largedocsummary.py.
//
// A cursor `start` walks over the text. Each iteration takes the window
// [start, start + chunkSize), pulls its end back to just after a whitespace
// character when the window does not reach the end of the text, keeps the
// stripped slice when it is not empty, and moves the cursor to
// `end - overlap`, or to `end` when that would not move past the old start.
//
// The functions below describe one iteration (PullBack, WindowEnd,
// NextStart, Emitted) and the whole run as a function of the number of
// iterations done (Cursor, ChunksOf); CreateChunks is the loop itself,
// proved to compute ChunksOf up to the iteration where the loop exits.
module Chunker {
  import opened Text

  /** Default arguments of create_chunks. */
  const DefaultChunkSize := 10000
  const DefaultOverlap := 2000

  /** The inner loop: walk `end` back towards `start` until the character
      just before it is whitespace (PullBackSpec says what it finds). */
  function PullBack(text: string, start: int, end: int): (e: int)
    requires 0 <= start <= end <= |text|
    ensures start <= e <= end
    decreases end - start
  {
    if end > start && !IsSpace(text[end - 1]) then PullBack(text, start, end - 1) else end
  }

  /** The pulled-back end is the last whitespace boundary in (start, end]:
      the character before it is whitespace, none after it is, or else
      there is no boundary and it is `start`. */
  lemma {:induction false} PullBackSpec(text: string, start: int, end: int)
    requires 0 <= start <= end <= |text|
    ensures PullBack(text, start, end) > start ==> IsSpace(text[PullBack(text, start, end) - 1])
    ensures forall k :: PullBack(text, start, end) <= k < end ==> !IsSpace(text[k])
    decreases end - start
  {
    if end > start && !IsSpace(text[end - 1]) {
      PullBackSpec(text, start, end - 1);
    }
  }

  /** `text[lo..hi]` holds a whitespace character. */
  predicate HasSpaceIn(text: string, lo: int, hi: int)
    requires 0 <= lo <= hi <= |text|
  {
    exists k :: lo <= k < hi && IsSpace(text[k])
  }

  /** The end of the window that starts at `start`. */
  function WindowEnd(text: string, chunkSize: int, start: int): (e: int)
    requires chunkSize > 0 && 0 <= start < |text|
    ensures start <= e <= |text| && e <= start + chunkSize
  {
    if start + chunkSize < |text| then PullBack(text, start, start + chunkSize) else |text|
  }

  /** A window reaches the end of the text exactly when nothing is left after
      it; one that stops short does not split a word and ends at the last
      boundary it can, and it moves past its start exactly when it holds a
      whitespace character. */
  lemma WindowEndSpec(text: string, chunkSize: int, start: int)
    requires chunkSize > 0 && 0 <= start < |text|
    ensures WindowEnd(text, chunkSize, start) == |text| <==> start + chunkSize >= |text|
    ensures WindowEnd(text, chunkSize, start) < |text| ==>
      WindowEnd(text, chunkSize, start) == start || IsSpace(text[WindowEnd(text, chunkSize, start) - 1])
    ensures WindowEnd(text, chunkSize, start) < |text| ==>
      forall k :: WindowEnd(text, chunkSize, start) <= k < start + chunkSize ==> !IsSpace(text[k])
    ensures WindowEnd(text, chunkSize, start) > start <==>
      start + chunkSize >= |text| || HasSpaceIn(text, start, start + chunkSize)
  {
    var e := WindowEnd(text, chunkSize, start);
    if start + chunkSize < |text| {
      PullBackSpec(text, start, start + chunkSize);
      if HasSpaceIn(text, start, start + chunkSize) {
        var k :| start <= k < start + chunkSize && IsSpace(text[k]);
        assert e > start;
      }
      if e > start {
        assert start <= e - 1 < start + chunkSize && IsSpace(text[e - 1]);
      }
    }
  }

  /** The cursor after the iteration that started at `start`. */
  function NextStart(text: string, chunkSize: int, overlap: int, start: int): (r: int)
    requires chunkSize > 0 && 0 <= start < |text|
    ensures r >= start
  {
    var end := WindowEnd(text, chunkSize, start);
    var next := end - overlap;
    if next <= start then end else next
  }

  /** Where the cursor goes: back by `overlap` from the window end, so that
      the next window shares exactly `overlap` characters with this one;
      or, when that would not move past the old start, to the window end.
      It advances exactly when the overlap is negative or the window end
      moved past the start. */
  lemma NextStartSpec(text: string, chunkSize: int, overlap: int, start: int)
    requires chunkSize > 0 && 0 <= start < |text|
    ensures var e := WindowEnd(text, chunkSize, start);
      var r := NextStart(text, chunkSize, overlap, start);
      (e - overlap > start ==> e - r == overlap)
      && (e - overlap <= start ==> r == e)
      && (r > start <==> overlap < 0 || e > start)
  {
  }

  /** With a positive overlap and an unforced step, the next window starts
      `overlap` characters before the end of this one, lies inside the text,
      and reaches at least as far: consecutive windows share exactly
      `overlap` characters. */
  lemma OverlapKept(text: string, chunkSize: int, overlap: int, n: nat)
    requires chunkSize > 0 && overlap > 0
    requires Cursor(text, chunkSize, overlap, n) < |text|
    requires WindowEnd(text, chunkSize, Cursor(text, chunkSize, overlap, n)) - overlap > Cursor(text, chunkSize, overlap, n)
    ensures var s := Cursor(text, chunkSize, overlap, n);
      var e := WindowEnd(text, chunkSize, s);
      var r := Cursor(text, chunkSize, overlap, n + 1);
      r == e - overlap && s < r < |text| && WindowEnd(text, chunkSize, r) >= e
  {
    var s := Cursor(text, chunkSize, overlap, n);
    var e := WindowEnd(text, chunkSize, s);
    CursorStep(text, chunkSize, overlap, n);
    var r := e - overlap;
    assert Cursor(text, chunkSize, overlap, n + 1) == r;
    if r + chunkSize < |text| {
      WindowEndSpec(text, chunkSize, s);
      assert IsSpace(text[e - 1]);
      PullBackSpec(text, r, r + chunkSize);
    }
  }

  /** The stripped window at `start`. */
  function WindowChunk(text: string, chunkSize: int, start: int): (r: string)
    requires chunkSize > 0 && 0 <= start < |text|
    ensures |r| <= chunkSize
  {
    Strip(text[start..WindowEnd(text, chunkSize, start)])
  }

  /** The chunk an iteration appends, if any. */
  function Emitted(text: string, chunkSize: int, start: int): (r: seq<string>)
    requires chunkSize > 0 && 0 <= start < |text|
    ensures |r| <= 1
  {
    var chunk := WindowChunk(text, chunkSize, start);
    if chunk != [] then [chunk] else []
  }

  /** The cursor after `n` iterations; once it has reached the end of the
      text the loop has exited and it stays where it is. */
  function Cursor(text: string, chunkSize: int, overlap: int, n: nat): (s: int)
    requires chunkSize > 0
    ensures s >= 0
  {
    if n == 0 then 0
    else
      var prev := Cursor(text, chunkSize, overlap, n - 1);
      if prev < |text| then NextStart(text, chunkSize, overlap, prev) else prev
  }

  /** The list of chunks after `n` iterations. */
  function ChunksOf(text: string, chunkSize: int, overlap: int, n: nat): (r: seq<string>)
    requires chunkSize > 0
  {
    if n == 0 then []
    else
      var prev := Cursor(text, chunkSize, overlap, n - 1);
      ChunksOf(text, chunkSize, overlap, n - 1)
        + (if prev < |text| then Emitted(text, chunkSize, prev) else [])
  }

  /** The loop runs at least `n` iterations: the cursor is inside the text
      before each of them. */
  ghost predicate RunsFor(text: string, chunkSize: int, overlap: int, n: nat)
    requires chunkSize > 0
  {
    forall i: nat :: i < n ==> Cursor(text, chunkSize, overlap, i) < |text|
  }

  /** The loop exits after exactly `n` iterations. */
  ghost predicate ExitsAt(text: string, chunkSize: int, overlap: int, n: nat)
    requires chunkSize > 0
  {
    Cursor(text, chunkSize, overlap, n) >= |text| && RunsFor(text, chunkSize, overlap, n)
  }

  /** The window at step n reaches the end of the text or holds a
      whitespace character. */
  ghost predicate BreakableAt(text: string, chunkSize: int, overlap: int, n: nat)
    requires chunkSize > 0
  {
    var s := Cursor(text, chunkSize, overlap, n);
    s + chunkSize < |text| ==> HasSpaceIn(text, s, s + chunkSize)
  }

  /** Every window the run visits that stops short of the end of the text
      holds a whitespace character. */
  ghost predicate WindowsBreakable(text: string, chunkSize: int, overlap: int)
    requires chunkSize > 0
  {
    forall n: nat :: BreakableAt(text, chunkSize, overlap, n)
  }

  /** The end of the window at `start`: the window's own end when it stops
      short of the end of the text, walked back to just after a whitespace
      character; the end of the text otherwise. */
  method FindWindowEnd(text: string, chunkSize: int, start: int) returns (end: int)
    requires chunkSize > 0 && 0 <= start < |text|
    ensures end == WindowEnd(text, chunkSize, start)
  {
    end := start + chunkSize;
    if end < |text| {
      while end > start && !IsSpace(text[end - 1])
        invariant start <= end <= start + chunkSize
        invariant PullBack(text, start, end) == PullBack(text, start, start + chunkSize)
      {
        end := end - 1;
      }
    } else {
      end := |text|;
    }
  }

  /** create_chunks. It returns the chunks of the run up to the iteration
      at which the loop exits (`steps` counts the iterations). The proof works
      from the contracts of RunStart, LoopStep and RunChunks alone, so the
      definitions of the run's functions are hidden from it. */
  method CreateChunks(text: string, chunkSize: int, overlap: int) returns (chunks: seq<string>)
    requires chunkSize > 0
    requires overlap < 0 || WindowsBreakable(text, chunkSize, overlap)
    ensures exists n: nat :: n <= |text| && ExitsAt(text, chunkSize, overlap, n) && chunks == ChunksOf(text, chunkSize, overlap, n)
    ensures forall c :: c in chunks ==> IsChunkOf(text, chunkSize, c) && |c| <= chunkSize
    ensures Blank(text) ==> chunks == []
    ensures |text| <= chunkSize ==> chunks == ShortTextChunks(text, overlap)
  {
    hide *;
    RunStart(text, chunkSize, overlap);
    chunks := [];
    var start := 0;
    ghost var steps: nat := 0;
    while start < |text|
      invariant start == Cursor(text, chunkSize, overlap, steps)
      invariant RunsFor(text, chunkSize, overlap, steps)
      invariant steps <= start && steps <= |text|
      invariant chunks == ChunksOf(text, chunkSize, overlap, steps)
      decreases |text| - start
    {
      var end := FindWindowEnd(text, chunkSize, start);
      var chunk := Strip(text[start..end]);
      ghost var oldChunks := chunks;
      if chunk != [] {
        chunks := chunks + [chunk];
      }
      var oldStart := start;
      start := end - overlap;
      if start <= oldStart {
        start := end;
      }
      LoopStep(text, chunkSize, overlap, steps, oldStart, end, oldChunks, start, chunks);
      steps := steps + 1;
    }
    RunChunks(text, chunkSize, overlap, steps);
  }

  /** Before the first iteration the cursor is at 0 and the list is empty. */
  lemma RunStart(text: string, chunkSize: int, overlap: int)
    requires chunkSize > 0
    ensures Cursor(text, chunkSize, overlap, 0) == 0 && ChunksOf(text, chunkSize, overlap, 0) == []
    ensures RunsFor(text, chunkSize, overlap, 0)
  {
  }

  /** What the finished run returns: chunks that are the non-empty strips
      of slices no longer than the chunk size, none for a blank text, and
      ShortTextChunks for a short one. */
  lemma RunChunks(text: string, chunkSize: int, overlap: int, n: nat)
    requires chunkSize > 0 && Cursor(text, chunkSize, overlap, n) >= |text| && RunsFor(text, chunkSize, overlap, n)
    ensures ExitsAt(text, chunkSize, overlap, n)
    ensures forall c :: c in ChunksOf(text, chunkSize, overlap, n) ==> IsChunkOf(text, chunkSize, c) && |c| <= chunkSize
    ensures Blank(text) ==> ChunksOf(text, chunkSize, overlap, n) == []
    ensures |text| <= chunkSize ==> ChunksOf(text, chunkSize, overlap, n) == ShortTextChunks(text, overlap)
  {
    ChunksBounded(text, chunkSize, overlap, n);
    if Blank(text) {
      BlankYieldsNothing(text, chunkSize, overlap, n);
    }
    if |text| <= chunkSize {
      ShortText(text, chunkSize, overlap, n);
    }
  }

  // ---------------------------------------------------------------------
  // One iteration

  /** Where iteration n moves the cursor, when the loop runs it. */
  lemma CursorStep(text: string, chunkSize: int, overlap: int, n: nat)
    requires chunkSize > 0 && Cursor(text, chunkSize, overlap, n) < |text|
    ensures Cursor(text, chunkSize, overlap, n + 1) == NextStart(text, chunkSize, overlap, Cursor(text, chunkSize, overlap, n))
  {
  }

  /** What iteration n appends, when the loop runs it. */
  lemma ChunksStep(text: string, chunkSize: int, overlap: int, n: nat)
    requires chunkSize > 0 && Cursor(text, chunkSize, overlap, n) < |text|
    ensures ChunksOf(text, chunkSize, overlap, n + 1)
      == ChunksOf(text, chunkSize, overlap, n) + Emitted(text, chunkSize, Cursor(text, chunkSize, overlap, n))
  {
  }

  /** One run of the loop body: from the state after n iterations, the
      cursor and the list as the body updates them are those after n + 1
      iterations, and the cursor has moved forward. */
  lemma LoopStep(text: string, chunkSize: int, overlap: int, n: nat,
                 start: int, end: int, chunks: seq<string>, start': int, chunks': seq<string>)
    requires chunkSize > 0
    requires overlap < 0 || WindowsBreakable(text, chunkSize, overlap)
    requires RunsFor(text, chunkSize, overlap, n) && start == Cursor(text, chunkSize, overlap, n) && start < |text|
    requires chunks == ChunksOf(text, chunkSize, overlap, n)
    requires end == WindowEnd(text, chunkSize, start)
    requires start' == (if end - overlap <= start then end else end - overlap)
    requires var chunk := Strip(text[start..end]);
      chunks' == (if chunk != [] then chunks + [chunk] else chunks)
    ensures RunsFor(text, chunkSize, overlap, n + 1)
    ensures start' == Cursor(text, chunkSize, overlap, n + 1) && start' > start
    ensures chunks' == ChunksOf(text, chunkSize, overlap, n + 1)
  {
    ChunkUpdate(text, chunkSize, overlap, n, Strip(text[start..end]));
    Iteration(text, chunkSize, overlap, n, start, end);
    WindowAdvances(text, chunkSize, overlap, n);
  }

  /** Where iteration n moves the cursor, as the loop body writes it. */
  lemma Iteration(text: string, chunkSize: int, overlap: int, n: nat, start: int, end: int)
    requires chunkSize > 0 && RunsFor(text, chunkSize, overlap, n)
    requires start == Cursor(text, chunkSize, overlap, n) && start < |text|
    requires end == WindowEnd(text, chunkSize, start)
    ensures RunsFor(text, chunkSize, overlap, n + 1)
    ensures Cursor(text, chunkSize, overlap, n + 1) == (if end - overlap <= start then end else end - overlap)
  {
    CursorStep(text, chunkSize, overlap, n);
  }

  /** What iteration n appends, as the loop body writes it: its chunk when
      that is not empty, nothing otherwise. */
  lemma ChunkUpdate(text: string, chunkSize: int, overlap: int, n: nat, chunk: string)
    requires chunkSize > 0 && Cursor(text, chunkSize, overlap, n) < |text|
    requires chunk == WindowChunk(text, chunkSize, Cursor(text, chunkSize, overlap, n))
    ensures chunk != [] ==> ChunksOf(text, chunkSize, overlap, n + 1) == ChunksOf(text, chunkSize, overlap, n) + [chunk]
    ensures chunk == [] ==> ChunksOf(text, chunkSize, overlap, n + 1) == ChunksOf(text, chunkSize, overlap, n)
  {
    ChunksStep(text, chunkSize, overlap, n);
  }

  /** Under the termination condition, the iteration at step n advances
      the cursor. */
  lemma WindowAdvances(text: string, chunkSize: int, overlap: int, n: nat)
    requires chunkSize > 0
    requires overlap < 0 || WindowsBreakable(text, chunkSize, overlap)
    requires Cursor(text, chunkSize, overlap, n) < |text|
    ensures Cursor(text, chunkSize, overlap, n + 1) > Cursor(text, chunkSize, overlap, n)
  {
    var s := Cursor(text, chunkSize, overlap, n);
    if overlap >= 0 {
      assert BreakableAt(text, chunkSize, overlap, n);
    }
    WindowEndSpec(text, chunkSize, s);
    NextStartSpec(text, chunkSize, overlap, s);
    CursorStep(text, chunkSize, overlap, n);
  }

  // ---------------------------------------------------------------------
  // The cursor

  /** The cursor never moves backwards. */
  lemma {:induction false} CursorMonotone(text: string, chunkSize: int, overlap: int, n: nat, m: nat)
    requires chunkSize > 0 && n <= m
    ensures Cursor(text, chunkSize, overlap, n) <= Cursor(text, chunkSize, overlap, m)
    decreases m - n
  {
    if n < m {
      assert Cursor(text, chunkSize, overlap, n) <= Cursor(text, chunkSize, overlap, n + 1);
      CursorMonotone(text, chunkSize, overlap, n + 1, m);
    }
  }

  /** Under the termination condition, window starts strictly increase for
      as long as the loop runs: chunks are appended in order of strictly
      increasing window starts. */
  lemma CursorIncreases(text: string, chunkSize: int, overlap: int, n: nat, m: nat)
    requires chunkSize > 0
    requires overlap < 0 || WindowsBreakable(text, chunkSize, overlap)
    requires n < m && Cursor(text, chunkSize, overlap, n) < |text|
    ensures Cursor(text, chunkSize, overlap, n) < Cursor(text, chunkSize, overlap, m)
  {
    WindowAdvances(text, chunkSize, overlap, n);
    CursorMonotone(text, chunkSize, overlap, n + 1, m);
  }

  /** From step n on, the loop exits at some later step. */
  lemma {:induction false} ReachesEnd(text: string, chunkSize: int, overlap: int, n: nat)
    requires chunkSize > 0
    requires overlap < 0 || WindowsBreakable(text, chunkSize, overlap)
    ensures exists m: nat :: m >= n && Cursor(text, chunkSize, overlap, m) >= |text|
    decreases |text| - Cursor(text, chunkSize, overlap, n)
  {
    if Cursor(text, chunkSize, overlap, n) < |text| {
      WindowAdvances(text, chunkSize, overlap, n);
      ReachesEnd(text, chunkSize, overlap, n + 1);
    }
  }

  /** With overlap >= 0, a window that stops short of the end and holds no
      whitespace leaves the cursor where it is. */
  lemma StallStep(text: string, chunkSize: int, overlap: int, n: nat)
    requires chunkSize > 0 && overlap >= 0
    requires Cursor(text, chunkSize, overlap, n) + chunkSize < |text|
    requires !HasSpaceIn(text, Cursor(text, chunkSize, overlap, n), Cursor(text, chunkSize, overlap, n) + chunkSize)
    ensures Cursor(text, chunkSize, overlap, n + 1) == Cursor(text, chunkSize, overlap, n)
  {
    var s := Cursor(text, chunkSize, overlap, n);
    WindowEndSpec(text, chunkSize, s);
    NextStartSpec(text, chunkSize, overlap, s);
    CursorStep(text, chunkSize, overlap, n);
  }

  /** ... and so stalls it for good. */
  lemma {:induction false} Stalls(text: string, chunkSize: int, overlap: int, n: nat, m: nat)
    requires chunkSize > 0 && overlap >= 0 && n <= m
    requires Cursor(text, chunkSize, overlap, n) + chunkSize < |text|
    requires !HasSpaceIn(text, Cursor(text, chunkSize, overlap, n), Cursor(text, chunkSize, overlap, n) + chunkSize)
    ensures Cursor(text, chunkSize, overlap, m) == Cursor(text, chunkSize, overlap, n)
    decreases m - n
  {
    if n < m {
      StallStep(text, chunkSize, overlap, n);
      Stalls(text, chunkSize, overlap, n + 1, m);
    }
  }

  /** The loop terminates if and only if the overlap is negative or every
      window it visits short of the end holds whitespace. */
  lemma TerminatesIff(text: string, chunkSize: int, overlap: int)
    requires chunkSize > 0
    ensures (exists m: nat :: Cursor(text, chunkSize, overlap, m) >= |text|) <==>
      (overlap < 0 || WindowsBreakable(text, chunkSize, overlap))
  {
    if overlap < 0 || WindowsBreakable(text, chunkSize, overlap) {
      ReachesEnd(text, chunkSize, overlap, 0);
    } else {
      var n: nat :| !BreakableAt(text, chunkSize, overlap, n);
      forall m: nat ensures Cursor(text, chunkSize, overlap, m) < |text| {
        if m <= n {
          CursorMonotone(text, chunkSize, overlap, m, n);
        } else {
          Stalls(text, chunkSize, overlap, n, m);
        }
      }
    }
  }

  /** With a non-negative overlap, the last window of the run ends at the
      end of the text. */
  lemma FinalWindowReachesEnd(text: string, chunkSize: int, overlap: int, n: nat)
    requires chunkSize > 0 && overlap >= 0 && n > 0
    requires ExitsAt(text, chunkSize, overlap, n)
    ensures Cursor(text, chunkSize, overlap, n - 1) < |text|
    ensures WindowEnd(text, chunkSize, Cursor(text, chunkSize, overlap, n - 1)) == |text|
  {
    var k: nat := n - 1;
    var s := Cursor(text, chunkSize, overlap, k);
    assert s < |text|;
    CursorStep(text, chunkSize, overlap, k);
    assert k + 1 == n;
    NextStartSpec(text, chunkSize, overlap, s);
  }

  /** The loop runs no iteration exactly when the text is empty. */
  lemma NoIterationIffEmpty(text: string, chunkSize: int, overlap: int, n: nat)
    requires chunkSize > 0 && ExitsAt(text, chunkSize, overlap, n)
    ensures n == 0 <==> |text| == 0
  {
    if n > 0 {
      assert Cursor(text, chunkSize, overlap, 0) < |text|;
    }
  }

  /** With a non-negative overlap, the windows of the run cover the text:
      every position lies in the window of some iteration. */
  lemma WindowsCover(text: string, chunkSize: int, overlap: int, n: nat, p: int)
    requires chunkSize > 0 && overlap >= 0
    requires ExitsAt(text, chunkSize, overlap, n) && 0 <= p < |text|
    ensures exists i: nat :: i < n && InWindow(text, chunkSize, overlap, i, p)
  {
    CoveredBefore(text, chunkSize, overlap, n, p);
  }

  /** Position p lies in the window of iteration i. */
  ghost predicate InWindow(text: string, chunkSize: int, overlap: int, i: nat, p: int)
    requires chunkSize > 0
  {
    var s := Cursor(text, chunkSize, overlap, i);
    s <= p && s < |text| && p < WindowEnd(text, chunkSize, s)
  }

  /** Every position before the cursor after n iterations lies in the
      window of one of those iterations. */
  lemma {:induction false} CoveredBefore(text: string, chunkSize: int, overlap: int, n: nat, p: int)
    requires chunkSize > 0 && overlap >= 0
    requires forall i: nat :: i < n ==> Cursor(text, chunkSize, overlap, i) < |text|
    requires 0 <= p < Cursor(text, chunkSize, overlap, n) && p < |text|
    ensures exists i: nat :: i < n && InWindow(text, chunkSize, overlap, i, p)
  {
    var k: nat := n - 1;
    var prev := Cursor(text, chunkSize, overlap, k);
    CursorStep(text, chunkSize, overlap, k);
    assert k + 1 == n;
    NextStartSpec(text, chunkSize, overlap, prev);
    if p < prev {
      CoveredBefore(text, chunkSize, overlap, k, p);
    } else {
      assert InWindow(text, chunkSize, overlap, k, p);
    }
  }

  // ---------------------------------------------------------------------
  // The chunks

  /** `c` is a chunk the chunker may emit: the non-empty strip of a slice of
      the text no longer than the chunk size. */
  ghost predicate IsChunkOf(text: string, chunkSize: int, c: string)
  {
    c != [] && exists s, e :: 0 <= s <= e <= |text| && e - s <= chunkSize && c == Strip(text[s..e])
  }

  /** Every chunk is non-empty, at most `chunkSize` long, and the strip of a
      slice of the text at most `chunkSize` long. */
  lemma {:induction false} ChunksBounded(text: string, chunkSize: int, overlap: int, n: nat)
    requires chunkSize > 0
    ensures forall c :: c in ChunksOf(text, chunkSize, overlap, n) ==>
      IsChunkOf(text, chunkSize, c) && 0 < |c| <= chunkSize
  {
    if n > 0 {
      var k: nat := n - 1;
      ChunksBounded(text, chunkSize, overlap, k);
      var prev := Cursor(text, chunkSize, overlap, k);
      if prev < |text| {
        ChunksStep(text, chunkSize, overlap, k);
        assert k + 1 == n;
        var e := WindowEnd(text, chunkSize, prev);
        assert forall c :: c in Emitted(text, chunkSize, prev) ==> c == Strip(text[prev..e]) && c != [];
      }
    }
  }

  /** A blank text (empty, or only whitespace) yields no chunk. */
  lemma {:induction false} BlankYieldsNothing(text: string, chunkSize: int, overlap: int, n: nat)
    requires chunkSize > 0 && Blank(text)
    ensures ChunksOf(text, chunkSize, overlap, n) == []
  {
    if n > 0 {
      var k: nat := n - 1;
      BlankYieldsNothing(text, chunkSize, overlap, k);
      var prev := Cursor(text, chunkSize, overlap, k);
      if prev < |text| {
        ChunksStep(text, chunkSize, overlap, k);
        assert k + 1 == n;
        var e := WindowEnd(text, chunkSize, prev);
        BlankSlice(text, prev, e);
        StripSpec(text[prev..e]);
      }
    }
  }

  /** Chunks are only ever appended: the list after m iterations is a
      prefix of the list after any later iteration. */
  lemma {:induction false} ChunksGrow(text: string, chunkSize: int, overlap: int, m: nat, n: nat)
    requires chunkSize > 0 && m <= n
    ensures ChunksOf(text, chunkSize, overlap, m) <= ChunksOf(text, chunkSize, overlap, n)
    decreases n - m
  {
    if m < n {
      var prev := Cursor(text, chunkSize, overlap, m);
      PrefixOfAppend(ChunksOf(text, chunkSize, overlap, m), if prev < |text| then Emitted(text, chunkSize, prev) else []);
      ChunksGrow(text, chunkSize, overlap, m + 1, n);
      PrefixTransitive(ChunksOf(text, chunkSize, overlap, m), ChunksOf(text, chunkSize, overlap, m + 1), ChunksOf(text, chunkSize, overlap, n));
    }
  }

  lemma PrefixOfAppend<T>(a: seq<T>, b: seq<T>)
    ensures a <= a + b
  {
  }

  lemma PrefixTransitive<T>(a: seq<T>, b: seq<T>, c: seq<T>)
    requires a <= b && b <= c
    ensures a <= c
  {
  }

  /** With a non-negative overlap, every non-whitespace character of the text
      appears in the chunk of a window that holds it, at its offset in that
      window less the window's leading whitespace. */
  lemma ContentCovered(text: string, chunkSize: int, overlap: int, n: nat, p: int)
    requires chunkSize > 0 && overlap >= 0
    requires ExitsAt(text, chunkSize, overlap, n) && 0 <= p < |text| && !IsSpace(text[p])
    ensures exists i: nat :: i < n && InWindow(text, chunkSize, overlap, i, p) && KeptIn(text, chunkSize, overlap, i, n, p)
  {
    WindowsCover(text, chunkSize, overlap, n, p);
    var i: nat :| i < n && InWindow(text, chunkSize, overlap, i, p);
    WindowKept(text, chunkSize, overlap, i, n, p);
  }

  /** The chunk of the window of iteration i holds each non-whitespace
      character of that window and stays in the list from then on. */
  lemma WindowKept(text: string, chunkSize: int, overlap: int, i: nat, n: nat, p: int)
    requires chunkSize > 0 && i < n
    requires InWindow(text, chunkSize, overlap, i, p) && !IsSpace(text[p])
    ensures KeptIn(text, chunkSize, overlap, i, n, p)
  {
    var s := Cursor(text, chunkSize, overlap, i);
    var chunk := WindowChunk(text, chunkSize, s);
    var offset := p - s - LeadingSpace(text[s..WindowEnd(text, chunkSize, s)]);
    ChunkHolds(text, chunkSize, s, p);
    assert 0 <= offset < |chunk| && chunk[offset] == text[p];
    ChunkAppended(text, chunkSize, overlap, i, n);
    var k := |ChunksOf(text, chunkSize, overlap, i)|;
    assert k < |ChunksOf(text, chunkSize, overlap, n)| && ChunksOf(text, chunkSize, overlap, n)[k] == chunk;
  }

  /** A non-whitespace character of a window is in its chunk, at its offset
      in the window less the window's leading whitespace. */
  lemma ChunkHolds(text: string, chunkSize: int, s: int, p: int)
    requires chunkSize > 0 && 0 <= s <= p < |text| && !IsSpace(text[p])
    requires p < WindowEnd(text, chunkSize, s)
    ensures var window := text[s..WindowEnd(text, chunkSize, s)];
      0 <= p - s - LeadingSpace(window) < |WindowChunk(text, chunkSize, s)|
      && WindowChunk(text, chunkSize, s)[p - s - LeadingSpace(window)] == text[p]
  {
    var window := text[s..WindowEnd(text, chunkSize, s)];
    assert window[p - s] == text[p];
    StripKeeps(window, p - s);
  }

  /** A non-empty chunk of iteration i is appended after the chunks of the
      earlier iterations and stays at that position. */
  lemma ChunkAppended(text: string, chunkSize: int, overlap: int, i: nat, n: nat)
    requires chunkSize > 0 && i < n && Cursor(text, chunkSize, overlap, i) < |text|
    requires WindowChunk(text, chunkSize, Cursor(text, chunkSize, overlap, i)) != []
    ensures |ChunksOf(text, chunkSize, overlap, i)| < |ChunksOf(text, chunkSize, overlap, n)|
    ensures ChunksOf(text, chunkSize, overlap, n)[|ChunksOf(text, chunkSize, overlap, i)|]
      == WindowChunk(text, chunkSize, Cursor(text, chunkSize, overlap, i))
  {
    var chunk := WindowChunk(text, chunkSize, Cursor(text, chunkSize, overlap, i));
    ChunksStep(text, chunkSize, overlap, i);
    ChunksGrow(text, chunkSize, overlap, i + 1, n);
    PrefixAt(ChunksOf(text, chunkSize, overlap, i), chunk, ChunksOf(text, chunkSize, overlap, n));
  }

  lemma PrefixAt<T>(a: seq<T>, x: T, b: seq<T>)
    requires a + [x] <= b
    ensures |a| < |b| && b[|a|] == x
  {
    assert (a + [x])[|a|] == x;
  }

  /** The chunk of window i is the chunk at position |ChunksOf(i)| of the
      list after n iterations, and it holds text[p] at p's offset in the
      window less the window's leading whitespace. */
  ghost predicate KeptIn(text: string, chunkSize: int, overlap: int, i: nat, n: nat, p: int)
    requires chunkSize > 0 && InWindow(text, chunkSize, overlap, i, p)
  {
    var s := Cursor(text, chunkSize, overlap, i);
    var chunk := WindowChunk(text, chunkSize, s);
    var offset := p - s - LeadingSpace(text[s..WindowEnd(text, chunkSize, s)]);
    var k := |ChunksOf(text, chunkSize, overlap, i)|;
    k < |ChunksOf(text, chunkSize, overlap, n)| && ChunksOf(text, chunkSize, overlap, n)[k] == chunk
    && 0 <= offset < |chunk| && chunk[offset] == text[p]
  }

  /** What a text no longer than the chunk size gives: its strip, followed
      by the strip of its last `overlap` characters when 0 < overlap < |text|
      and those are not all whitespace. */
  function ShortTextChunks(text: string, overlap: int): (r: seq<string>)
    ensures |r| <= 2
  {
    (if Blank(text) then [] else [Strip(text)])
    + (if 0 < overlap < |text| && !Blank(text[|text| - overlap..])
       then [Strip(text[|text| - overlap..])] else [])
  }

  /** A text no longer than the chunk size gives ShortTextChunks. */
  lemma ShortText(text: string, chunkSize: int, overlap: int, n: nat)
    requires chunkSize > 0 && |text| <= chunkSize
    requires ExitsAt(text, chunkSize, overlap, n)
    ensures ChunksOf(text, chunkSize, overlap, n) == ShortTextChunks(text, overlap)
  {
    if |text| == 0 {
      assert n == 0;
    } else {
      ShortFirstStep(text, chunkSize, overlap);
      assert Cursor(text, chunkSize, overlap, 0) < |text|;
      if 0 < overlap < |text| {
        ShortSecondStep(text, chunkSize, overlap);
        assert Cursor(text, chunkSize, overlap, 1) < |text|;
        assert n == 2;
      } else {
        assert n == 1;
      }
    }
  }

  /** The first iteration over a short text takes all of it and moves the
      cursor to `overlap` characters before the end (past the end when the
      overlap is negative), or to the end when the overlap is the whole text
      or more. */
  lemma ShortFirstStep(text: string, chunkSize: int, overlap: int)
    requires chunkSize > 0 && 0 < |text| <= chunkSize
    ensures Cursor(text, chunkSize, overlap, 1) == (if overlap < |text| then |text| - overlap else |text|)
    ensures ChunksOf(text, chunkSize, overlap, 1) == (if Blank(text) then [] else [Strip(text)])
  {
    CursorStep(text, chunkSize, overlap, 0);
    ChunksStep(text, chunkSize, overlap, 0);
    NextStartSpec(text, chunkSize, overlap, 0);
    StripSpec(text);
    assert text[0..|text|] == text;
  }

  /** The second iteration over a short text takes its last `overlap`
      characters and ends the loop. */
  lemma ShortSecondStep(text: string, chunkSize: int, overlap: int)
    requires chunkSize > 0 && 0 < overlap < |text| <= chunkSize
    requires Cursor(text, chunkSize, overlap, 1) == |text| - overlap
    ensures Cursor(text, chunkSize, overlap, 2) == |text|
    ensures ChunksOf(text, chunkSize, overlap, 2) == ChunksOf(text, chunkSize, overlap, 1)
      + (if Blank(text[|text| - overlap..]) then [] else [Strip(text[|text| - overlap..])])
  {
    var c1 := |text| - overlap;
    CursorStep(text, chunkSize, overlap, 1);
    ChunksStep(text, chunkSize, overlap, 1);
    NextStartSpec(text, chunkSize, overlap, c1);
    assert text[c1..|text|] == text[|text| - overlap..];
    StripSpec(text[c1..|text|]);
  }
}
