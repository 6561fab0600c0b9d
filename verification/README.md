# Sliding-window text chunker

A Dafny model of `create_chunks(text, chunk_size, overlap)` from
`largedocsummary.py`. The script uses it to split the text extracted from a
PDF into pieces small enough to send to an abstractive-summarisation
service.

The chunker walks a cursor `start` over the text:

- It takes the window `[start, start + chunk_size)`.
- If the window stops short of the end of the text, it walks the window's
  end back until the character just before it is whitespace, so a word is
  not split. If the window reaches the end, the window ends at the text end.
- It strips the slice with Python's `str.strip()` and keeps it when it is
  not empty.
- It moves the cursor to `end - overlap`, or to `end` when that would not
  move past the old start.

The project has two modules:

- `Text` (`text.dfy`) models Python's `str.isspace()` for one character as
  the fixed table of characters Python treats as whitespace. It also models
  `str.strip()`, and proves what the strip keeps and removes, that it is
  unique, and that it is idempotent.
- `Chunker` (`chunker.dfy`) describes one iteration as functions:
  - `PullBack` is the inner loop.
  - `WindowEnd` is where a window ends.
  - `NextStart` is where the cursor goes.
  - `WindowChunk` and `Emitted` give the chunk an iteration keeps.

  It describes the whole run as functions of the number of iterations done:
  `Cursor` and `ChunksOf`. `CreateChunks` is the loop itself, with the inner
  loop hoisted into `FindWindowEnd`. Both are methods proved against those
  functions. The lemmas prove the following about the functions:
  - the chunk properties: non-empty, bounded by `chunk_size`, the strip of
    a slice;
  - the cursor's movement and the exact condition under which the loop
    terminates;
  - coverage of the text, in the sense that every non-whitespace character
    appears in some chunk;
  - the behaviour on short texts.

`CreateChunks` requires `chunkSize > 0`. It also requires that the overlap
is negative or that every window the run visits short of the end holds a
whitespace character. `TerminatesIff` proves that this second condition is
exactly when the source's loop exits.

A text no longer than `chunk_size` does not always give one chunk. The code
gives a second chunk, the strip of the last `overlap` characters, whenever
`0 < overlap < len(text)` and those characters are not all whitespace. This happens because after the first
window reaches the end, the cursor moves back to `len(text) - overlap`
(`largedocsummary.py:50-53`). `Chunker.ShortText` states the behaviour of
the code.

## Model

| member | source | states |
|---|---|---|
| Chunker.CreateChunks | largedocsummary.py:18-60 | Under its termination condition the loop exits, after at most `len(text)` iterations. It returns the list of kept chunks (`ChunksOf`) up to the first iteration at which the cursor reaches the end of the text (`ExitsAt`). Every returned chunk is the non-empty strip of a slice of the text and at most `chunk_size` long. A blank text gives `[]`. A text no longer than `chunk_size` gives exactly its strip, followed by the strip of its last `overlap` characters when `0 < overlap < len(text)` and those are not blank. |
| Chunker.RunStart | largedocsummary.py:20-21 | Before the first iteration, the list is empty and the cursor is at 0. |
| Chunker.LoopStep | largedocsummary.py:26-57 | The loop body, from the state after `n` iterations, yields the cursor and list after `n + 1` iterations. Under the termination condition, the cursor strictly increases. |
| Chunker.RunChunks | largedocsummary.py:25-60 | When the loop exits after `n` iterations, the returned list has the properties listed for `CreateChunks`. |
| Text.IsSpace | largedocsummary.py:34 | Python's `str.isspace()` for one character, as the table of characters Python treats as whitespace. |
| Text.Strip | largedocsummary.py:42 | Python's `str.strip()`. The result is never longer than its input; `StripSpec` and `StripUnique` characterise it. |
| Chunker.PullBack | largedocsummary.py:34-35 | The inner loop as a function: walks `end` back while the character before it is not whitespace. The result lies between `start` and the old end; `PullBackSpec` characterises it. |
| Chunker.WindowEnd | largedocsummary.py:27-39 | The end of the window at `start`, pulled back when the window stops short of the text end. It lies between `start` and `len(text)` and never beyond `start + chunk_size`. |
| Chunker.NextStart | largedocsummary.py:49-57 | The cursor after the iteration at `start`. It is never below `start`; `NextStartSpec` gives its value. |
| Chunker.WindowChunk | largedocsummary.py:42 | The stripped window at `start`, never longer than `chunk_size`. |
| Chunker.Emitted | largedocsummary.py:43-45 | What one iteration appends: its chunk when that is non-empty, otherwise nothing. At most one chunk. |
| Chunker.Cursor | largedocsummary.py:25-57 | The cursor after `n` iterations. It is never negative, and it stays where it is once it reaches the end of the text. |
| Chunker.ChunksOf | largedocsummary.py:25-57 | The list after `n` iterations. `ChunksStep`, `ChunksGrow` and `ChunksBounded` state how it grows and what it holds. |
| Chunker.FindWindowEnd | largedocsummary.py:27-39 | The inner loop and the last-window branch compute the window end `WindowEnd`. |
| Chunker.PullBackSpec | largedocsummary.py:33-35 | Walking `end` back stops just after the last whitespace character of `(start, end]`. No whitespace lies between that point and the old end. Without such a character it stops at `start`. It never goes below `start` or above the old end. |
| Chunker.WindowEndSpec | largedocsummary.py:27-39 | A window ends at the text end exactly when `start + chunk_size >= len(text)`. A window that stops short ends at `start` or just after a whitespace character, with no whitespace between its end and `start + chunk_size`. The window end moves past `start` exactly when the window reaches the end or holds whitespace. |
| Chunker.NextStartSpec | largedocsummary.py:49-57 | The new cursor is `end - overlap` when that exceeds the old start, and `end` otherwise. The cursor advances exactly when `overlap < 0` or `end > start`. |
| Chunker.OverlapKept | largedocsummary.py:49-50 | With `overlap > 0` and an unforced step, the next window starts `overlap` characters before the end of this one, inside the text. It also ends no earlier than this one, so consecutive windows share exactly `overlap` characters. |
| Chunker.Iteration | largedocsummary.py:49-57 | One loop iteration moves the cursor as the body writes it, and the loop keeps running up to that iteration. |
| Chunker.ChunkUpdate | largedocsummary.py:42-45 | One iteration appends its stripped window when it is non-empty, and leaves the list unchanged otherwise. |
| Chunker.WindowAdvances | largedocsummary.py:34-57 | Under the termination condition, every iteration strictly advances the cursor. This is the decreasing measure `len(text) - start` of the loop. |
| Chunker.CursorMonotone | largedocsummary.py:49-57 | The cursor never decreases. |
| Chunker.CursorIncreases | largedocsummary.py:45-57 | Under the termination condition, window starts strictly increase while the loop runs, so chunks are appended in order of strictly increasing window start. |
| Chunker.ReachesEnd | largedocsummary.py:25-57 | Under the termination condition, from every iteration on, the cursor later reaches the end of the text. |
| Chunker.StallStep | largedocsummary.py:34-57 | With `overlap >= 0`, a window that stops short of the end and holds no whitespace is walked back to `start`, and the forced advance leaves the cursor where it was. |
| Chunker.Stalls | largedocsummary.py:25-57 | Such a window stalls the cursor for every later iteration, so the loop never exits. |
| Chunker.TerminatesIff | largedocsummary.py:25-57 | The loop exits for some number of iterations if and only if `overlap < 0` or every window the run visits short of the end holds whitespace. Both directions are proved. |
| Chunker.FinalWindowReachesEnd | largedocsummary.py:37-57 | With `overlap >= 0`, the last iteration's cursor was inside the text and its window ended at `len(text)`. |
| Chunker.NoIterationIffEmpty | largedocsummary.py:21-25 | The loop runs no iteration exactly when the text is empty. |
| Chunker.WindowsCover | largedocsummary.py:25-57 | With `overlap >= 0`, every position of the text lies in the window of some iteration of the run. |
| Chunker.ContentCovered | largedocsummary.py:25-57 | With `overlap >= 0`, every non-whitespace character of the text appears in a returned chunk. It sits in the chunk of a window that holds it, at its offset in that window less the window's leading whitespace. |
| Chunker.WindowKept | largedocsummary.py:42-45 | A non-whitespace character in the window of iteration `i` is in that iteration's chunk. That chunk is in the final list at the position after the chunks of the earlier iterations. |
| Chunker.ChunkHolds | largedocsummary.py:42 | A non-whitespace character of a window survives the strip, at its offset in the window less the leading whitespace. |
| Chunker.ChunkAppended | largedocsummary.py:43-45 | A non-empty chunk of iteration `i` stays at index `len(chunks)`, as it was before iteration `i`, in the list of every later iteration. |
| Chunker.ChunksBounded | largedocsummary.py:27-45 | Every chunk in the list is non-empty and at most `chunk_size` long. Each is the strip of a slice `text[s:e]` with `0 <= s <= e <= len(text)` and `e - s <= chunk_size`. |
| Chunker.BlankYieldsNothing | largedocsummary.py:42-43 | An empty text or one made only of whitespace yields an empty list. |
| Chunker.ChunksGrow | largedocsummary.py:42-45 | The list is only ever appended to: the list after `m` iterations is a prefix of the list after any later iteration. |
| Chunker.ShortText | largedocsummary.py:25-57 | For a text no longer than `chunk_size`, the result is its strip when it is not blank. A second chunk, the strip of the last `overlap` characters, follows exactly when `0 < overlap < len(text)` and those characters are not all whitespace. |
| Chunker.ShortFirstStep | largedocsummary.py:37-57 | The first window of a short text is the whole text. The cursor then moves to `len(text) - overlap`, or to `len(text)` when `overlap >= len(text)`. |
| Chunker.ShortSecondStep | largedocsummary.py:37-57 | When `0 < overlap < len(text) <= chunk_size`, the second window is the last `overlap` characters. The cursor then moves to the end of the text. |
| Text.SkipForwardSpec | largedocsummary.py:42 | Skipping leading whitespace passes only whitespace and stops at a non-whitespace character or the end. |
| Text.SkipBackwardSpec | largedocsummary.py:42 | Skipping trailing whitespace passes only whitespace and stops just after a non-whitespace character or at the start. |
| Text.StripSpec | largedocsummary.py:42-43 | `strip()` gives a slice with only whitespace outside it. It is empty exactly when the string is blank, and otherwise neither starts nor ends with whitespace. |
| Text.StripUnique | largedocsummary.py:42 | Every slice with only whitespace outside it and non-whitespace at both ends is the strip. |
| Text.StripIdempotent | largedocsummary.py:42 | Stripping a stripped string changes nothing. |
| Text.StripKeeps | largedocsummary.py:42 | Every non-whitespace character survives the strip, at its index less the leading whitespace. |
| Text.BlankSlice | largedocsummary.py:42-43 | Every slice of a blank string is blank. |

## Left out

- The `print` calls of `create_chunks` (`largedocsummary.py:19-59`) are console logging and do not affect the result.
- The rest of `largedocsummary.py` (lines 1-16 and 63 on) is not part of this model. It covers loading the environment, reading the PDF, the calls to the summarisation service and the file writes, all of which are I/O and foreign service calls.
- The repository's other scripts (`aisearchindexer.py`, `semantickernelwithaisearch.py`, `filesearchagent.py`, `OpenAIwithOwnData.py`) are not part of this model. They only call hosted services.
- Chunker.CreateChunks: requires `chunkSize > 0`. An empty text returns `[]` for any arguments, because the loop condition fails at once; the requires also excludes that case for `chunk_size <= 0`. With `chunk_size <= 0` and `overlap >= 0` the source's loop never exits on a non-empty text. With a negative overlap it can still advance, but its window end then lies at or before `start`, possibly below 0, and the slice follows Python's rules for reversed and negative bounds, which the model does not have.
- Chunker.CreateChunks: requires termination (negative overlap, or every visited window short of the end holds whitespace), because the source loops forever otherwise. `TerminatesIff` shows that this condition is exact.
- Chunker.CreateChunks: the coverage of the text and the order of the windows are proved about `Cursor` and `ChunksOf` (`ContentCovered`, `CursorIncreases`), not repeated in the method's own postcondition.
- Chunker.FindWindowEnd: the inner loop is a separate method rather than a loop nested inside `CreateChunks`. It reads and writes the same `end` variable as in the source.
- Text.IsSpace is a fixed table of Python's whitespace characters rather than a lookup in the Unicode database. The table matches the characters for which `str.isspace()` holds.
- The default arguments `chunk_size=10000, overlap=2000` are the constants `Chunker.DefaultChunkSize` and `Chunker.DefaultOverlap`. No member depends on them.
- Chunker.FinalWindowReachesEnd, Chunker.WindowsCover and Chunker.ContentCovered: stated only for `overlap >= 0`. With a negative overlap the cursor jumps past the end of each window, so the last window need not reach the end and the skipped characters are in no chunk.
