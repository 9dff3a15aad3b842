/**
 * `RAGService._chunk_text`: split a text into overlapping windows of at most
 * `chunkSize` characters, snapping each window that stops short of the end of
 * the text back to just after its last sentence end, trimming every window and
 * dropping the empty ones.
 *
 * The source moves its cursor to `end - chunkOverlap` without checking that
 * this is past the current cursor. A window snapped back close to its start
 * then either repeats the cursor, so the loop never ends, or sends it below
 * zero, where Python's negative slicing yields empty windows and the loop
 * resumes further on, skipping text. `SourceChunkFrom` models the loop as
 * written, with an `int` cursor, Python's slice semantics and a bound on the
 * number of turns. `ChunkFrom` is the corrected chunker, whose cursor always
 * moves forward, and which agrees with the source on every run whose cursor
 * moves forward at each window.
 */
module Chunker {
  import opened PyStr
  import opened Wrappers

  /** The characters `_chunk_text` treats as sentence ends: '.', '!' and '?'. */
  predicate IsSentenceEnd(c: char) {
    c == '.' || c == '!' || c == '?'
  }

  /** Index of the last sentence end in `w`, or -1 when `w` has none. */
  function LastSentenceEnd(w: string): (k: int)
    ensures -1 <= k < |w|
    ensures k >= 0 ==> IsSentenceEnd(w[k])
    ensures forall j :: k < j < |w| ==> !IsSentenceEnd(w[j])
  {
    if w == [] then -1
    else if IsSentenceEnd(w[|w| - 1]) then |w| - 1
    else LastSentenceEnd(w[..|w| - 1])
  }

  /**
   * The end of the window that starts at `start`. A window that reaches the
   * end of the text keeps `start + chunkSize`. Any other window ends just after
   * the last sentence end in `text[start..start + chunkSize]`, or at
   * `start + chunkSize` when that slice holds no sentence end.
   */
  function WindowEnd(text: string, start: nat, chunkSize: nat): (end: nat)
    requires start < |text|
    ensures start <= end
    ensures start + chunkSize >= |text| ==> end == start + chunkSize
    ensures start + chunkSize < |text| ==>
      || (end == start + chunkSize &&
          forall j :: start <= j < start + chunkSize ==> !IsSentenceEnd(text[j]))
      || (start < end <= start + chunkSize && IsSentenceEnd(text[end - 1]) &&
          forall j :: end <= j < start + chunkSize ==> !IsSentenceEnd(text[j]))
  {
    if start + chunkSize < |text| then
      var window := text[start..start + chunkSize];
      var k := LastSentenceEnd(window);
      assert forall j :: start <= j < start + chunkSize ==> text[j] == window[j - start];
      if k >= 0 then start + k + 1 else start + chunkSize
    else
      start + chunkSize
  }

  /**
   * The end of the window at cursor `start` exactly as the source computes
   * it, for any integer cursor: `start + chunkSize`, snapped back to just
   * after the last sentence end of Python's slice `text[start:start +
   * chunkSize]` when that end is before the end of the text.
   */
  function SourceEnd(text: string, start: int, chunkSize: nat): (end: int)
    ensures start <= end <= start + chunkSize
    ensures start + chunkSize >= |text| ==> end == start + chunkSize
  {
    if start + chunkSize < |text| then
      var k := LastSentenceEnd(PySlice(text, start, start + chunkSize));
      if k >= 0 then start + k + 1 else start + chunkSize
    else
      start + chunkSize
  }

  /** For a cursor that is not negative the source's end is `WindowEnd`. */
  lemma SourceEndIsWindowEnd(text: string, start: nat, chunkSize: nat)
    requires start < |text|
    ensures SourceEnd(text, start, chunkSize) == WindowEnd(text, start, chunkSize)
  {
    if start + chunkSize < |text| {
      assert PySlice(text, start, start + chunkSize) == text[start..start + chunkSize];
    }
  }

  /**
   * The cursor after a window ending at `end`, exactly as the source computes
   * it: `end - chunkOverlap` when the window stops short of the end of the
   * text, otherwise the text length. It may be at or before the old cursor,
   * and even negative.
   */
  function NextStart(text: string, end: int, chunkOverlap: nat): (next: int)
    ensures end >= |text| ==> next == |text|
    ensures end < |text| ==> next + chunkOverlap == end
  {
    if end < |text| then end - chunkOverlap else |text|
  }

  /**
   * The corrected cursor after a window ending at `end`: `end - chunkOverlap`
   * as in the source when that moves forward, otherwise the window's end, so
   * that consecutive windows overlap by at most `chunkOverlap` characters and
   * leave no gap. A window of size 0 moves the cursor by one.
   */
  function AdvancedStart(text: string, start: nat, end: nat, chunkOverlap: nat): (next: nat)
    requires start < |text|
    ensures start < next <= |text|
    ensures end >= |text| ==> next == |text|
    ensures end < |text| ==> next >= end - chunkOverlap
    ensures end < |text| && start < end ==> next <= end
    ensures end < |text| && end - chunkOverlap > start ==> next == NextStart(text, end, chunkOverlap)
  {
    if end >= |text| then |text|
    else if end - chunkOverlap > start then end - chunkOverlap
    else Max(end, start + 1)
  }

  /** The trimmed text of the window `[start, end)`, the slice clamped to the text as Python slicing does. */
  function Piece(text: string, start: nat, end: nat): (piece: string)
    requires start <= |text| && start <= end
    ensures |piece| <= Min(end, |text|) - start
    ensures piece == [] <==> AllSpace(text[start..Min(end, |text|)])
  {
    Strip(text[start..Min(end, |text|)])
  }

  /** The corrected chunker's piece is the source's `text[start:end].strip()` for the same window. */
  lemma PieceIsSourceSlice(text: string, start: nat, end: nat)
    requires start <= |text| && start <= end
    ensures Piece(text, start, end) == Strip(PySlice(text, start, end))
  {
  }

  /**
   * `_chunk_text`'s loop as written, from cursor `start` on, allowed at most
   * `fuel` turns: the trimmed non-empty windows, or `None` when the loop has
   * not ended within `fuel` turns. Every chunk it returns is non-empty and
   * has no whitespace at either end.
   */
  function SourceChunkFrom(text: string, chunkSize: nat, chunkOverlap: nat, start: int, fuel: nat): (r: Option<seq<string>>)
    ensures start >= |text| ==> r == Some([])
    ensures r.Some? ==> forall c :: c in r.value ==> c != [] && !IsSpace(c[0]) && !IsSpace(c[|c| - 1])
    decreases fuel
  {
    if start >= |text| then Some([])
    else if fuel == 0 then None
    else
      var end := SourceEnd(text, start, chunkSize);
      var piece := Strip(PySlice(text, start, end));
      match SourceChunkFrom(text, chunkSize, chunkOverlap, NextStart(text, end, chunkOverlap), fuel - 1)
      case Some(rest) => Some(if piece == [] then rest else [piece] + rest)
      case None => None
  }

  /** One turn of the source's loop: the window's piece, if any, before what the following turns produce. */
  lemma SourceStep(text: string, chunkSize: nat, chunkOverlap: nat, start: int, turns: nat, rest: seq<string>)
    requires start < |text|
    requires SourceChunkFrom(text, chunkSize, chunkOverlap,
                             NextStart(text, SourceEnd(text, start, chunkSize), chunkOverlap), turns) == Some(rest)
    ensures var piece := Strip(PySlice(text, start, SourceEnd(text, start, chunkSize)));
            SourceChunkFrom(text, chunkSize, chunkOverlap, start, turns + 1) ==
              Some(if piece == [] then rest else [piece] + rest)
  {
  }

  /** A run that does not finish from the following cursor does not finish from this one either. */
  lemma SourceStops(text: string, chunkSize: nat, chunkOverlap: nat, start: int, fuel: nat, turns: nat)
    requires start < |text| && fuel == turns + 1
    requires SourceChunkFrom(text, chunkSize, chunkOverlap,
                             NextStart(text, SourceEnd(text, start, chunkSize), chunkOverlap), turns) == None
    ensures SourceChunkFrom(text, chunkSize, chunkOverlap, start, fuel) == None
  {
    assert SourceChunkFrom(text, chunkSize, chunkOverlap, start, turns + 1) == None;
  }

  /** The corrected chunks from cursor `start` on: the non-empty trimmed windows, in order. */
  function ChunkFrom(text: string, chunkSize: nat, chunkOverlap: nat, start: nat): seq<string>
    decreases |text| - start
  {
    if start >= |text| then []
    else
      var end := WindowEnd(text, start, chunkSize);
      var piece := Piece(text, start, end);
      var rest := ChunkFrom(text, chunkSize, chunkOverlap, AdvancedStart(text, start, end, chunkOverlap));
      if piece == [] then rest else [piece] + rest
  }

  /** `_chunk_text(text, chunk_size, chunk_overlap)`, corrected: the run from cursor 0. */
  function Chunk(text: string, chunkSize: nat, chunkOverlap: nat): seq<string> {
    ChunkFrom(text, chunkSize, chunkOverlap, 0)
  }

  /** The source's cursor moves forward at every window from `start` on. */
  predicate SourceAdvances(text: string, chunkSize: nat, chunkOverlap: nat, start: nat)
    decreases |text| - start
  {
    start >= |text| ||
    var next := NextStart(text, WindowEnd(text, start, chunkSize), chunkOverlap);
    next > start && SourceAdvances(text, chunkSize, chunkOverlap, next)
  }

  /**
   * The correction changes nothing on a run whose cursor moves forward at
   * every window: the source's loop then ends within one turn per remaining
   * character, with the same chunks as the corrected chunker.
   */
  lemma {:induction false} ChunkAgreesWithSource(text: string, chunkSize: nat, chunkOverlap: nat, start: nat, fuel: nat)
    requires SourceAdvances(text, chunkSize, chunkOverlap, start)
    requires start + fuel >= |text|
    ensures SourceChunkFrom(text, chunkSize, chunkOverlap, start, fuel) == Some(ChunkFrom(text, chunkSize, chunkOverlap, start))
    decreases |text| - start
  {
    if start < |text| {
      var next := NextStart(text, WindowEnd(text, start, chunkSize), chunkOverlap);
      var turns: nat := fuel - 1;
      ChunkAgreesWithSource(text, chunkSize, chunkOverlap, next, turns);
      AgreeStep(text, chunkSize, chunkOverlap, start, fuel, turns);
    } else {
      assert SourceChunkFrom(text, chunkSize, chunkOverlap, start, fuel) == Some([]);
    }
  }

  /** A turn on which the source's cursor moves forward keeps the two chunkers in step. */
  lemma AgreeStep(text: string, chunkSize: nat, chunkOverlap: nat, start: nat, fuel: nat, turns: nat)
    requires start < |text| && fuel == turns + 1
    requires NextStart(text, WindowEnd(text, start, chunkSize), chunkOverlap) > start
    requires var next := NextStart(text, WindowEnd(text, start, chunkSize), chunkOverlap);
             SourceChunkFrom(text, chunkSize, chunkOverlap, next, turns) == Some(ChunkFrom(text, chunkSize, chunkOverlap, next))
    ensures SourceChunkFrom(text, chunkSize, chunkOverlap, start, fuel) == Some(ChunkFrom(text, chunkSize, chunkOverlap, start))
  {
    var end := WindowEnd(text, start, chunkSize);
    var next := NextStart(text, end, chunkOverlap);
    var rest := ChunkFrom(text, chunkSize, chunkOverlap, next);
    SourceEndIsWindowEnd(text, start, chunkSize);
    PieceIsSourceSlice(text, start, end);
    SourceStep(text, chunkSize, chunkOverlap, start, turns, rest);
    ChunkFromStep(text, chunkSize, chunkOverlap, start);
  }

  /**
   * A cursor that the source maps back to itself is never left: the loop
   * does not end, however many turns it is given.
   */
  lemma {:induction false} SourceSpins(text: string, chunkSize: nat, chunkOverlap: nat, start: int, fuel: nat)
    requires start < |text|
    requires NextStart(text, SourceEnd(text, start, chunkSize), chunkOverlap) == start
    ensures SourceChunkFrom(text, chunkSize, chunkOverlap, start, fuel) == None
    decreases fuel
  {
    if fuel == 0 {
      assert SourceChunkFrom(text, chunkSize, chunkOverlap, start, 0) == None;
    } else {
      var turns: nat := fuel - 1;
      SourceSpins(text, chunkSize, chunkOverlap, start, turns);
      SourceStops(text, chunkSize, chunkOverlap, start, fuel, turns);
    }
  }

  /**
   * The backward `for` loop of `_chunk_text`: scan the window from its last
   * character down and stop at the first sentence end met.
   */
  method SnapEnd(text: string, start: nat, chunkSize: nat) returns (end: nat)
    requires start < |text|
    ensures end == WindowEnd(text, start, chunkSize)
  {
    end := start + chunkSize;
    if end < |text| {
      var window := text[start..end];
      for i := |window| downto 0
        invariant end == start + chunkSize
        invariant forall j :: i <= j < |window| ==> !IsSentenceEnd(window[j])
      {
        if IsSentenceEnd(window[i]) {
          end := start + i + 1;
          break;
        }
      }
    }
  }

  /** One turn of the loop: the run from `start` is this window's piece, if any, then the run from the next cursor. */
  lemma ChunkFromStep(text: string, chunkSize: nat, chunkOverlap: nat, start: nat)
    requires start < |text|
    ensures var end := WindowEnd(text, start, chunkSize);
            var piece := Piece(text, start, end);
            ChunkFrom(text, chunkSize, chunkOverlap, start) ==
              (if piece == [] then [] else [piece]) +
              ChunkFrom(text, chunkSize, chunkOverlap, AdvancedStart(text, start, end, chunkOverlap))
  {
  }

  /** Appending a kept piece to the chunks so far moves it out of the remaining run. */
  lemma KeepPiece(chunks: seq<string>, piece: string, rest: seq<string>)
    ensures chunks + ((if piece == [] then [] else [piece]) + rest) ==
            (if piece == [] then chunks else chunks + [piece]) + rest
  {
    if piece == [] {
      assert [] + rest == rest;
    } else {
      assert chunks + ([piece] + rest) == (chunks + [piece]) + rest;
    }
  }

  /**
   * The loop of `_chunk_text`, corrected: a `while` loop over the cursor that
   * appends each non-empty trimmed window. It computes exactly `Chunk`.
   */
  method ChunkText(text: string, chunkSize: nat, chunkOverlap: nat) returns (chunks: seq<string>)
    ensures chunks == Chunk(text, chunkSize, chunkOverlap)
  {
    chunks := [];
    var start: nat := 0;
    var textLength := |text|;
    while start < textLength
      invariant start <= textLength
      invariant Chunk(text, chunkSize, chunkOverlap) == chunks + ChunkFrom(text, chunkSize, chunkOverlap, start)
      decreases textLength - start
    {
      var end := SnapEnd(text, start, chunkSize);
      var piece := Piece(text, start, end);
      var next := AdvancedStart(text, start, end, chunkOverlap);
      ChunkFromStep(text, chunkSize, chunkOverlap, start);
      KeepPiece(chunks, piece, ChunkFrom(text, chunkSize, chunkOverlap, next));
      if piece != [] {
        chunks := chunks + [piece];
      }
      start := next;
    }
    assert ChunkFrom(text, chunkSize, chunkOverlap, start) == [];
    assert chunks + [] == chunks;
  }

  /** `c` is the trimmed text of a window of at most `chunkSize` characters starting at or after `lo`. */
  ghost predicate FromWindow(text: string, chunkSize: nat, lo: nat, c: string) {
    exists a: nat, b: nat :: lo <= a < b <= |text| && b - a <= chunkSize && c == Strip(text[a..b])
  }

  /** The non-space character at `p` lies in a window of at most `chunkSize` characters whose trimmed text is in `cs`. */
  ghost predicate Covered(text: string, chunkSize: nat, cs: seq<string>, p: nat) {
    exists a: nat, b: nat :: a <= p < b <= |text| && b - a <= chunkSize && Strip(text[a..b]) in cs
  }

  /**
   * Chunk shape: every chunk is non-empty and is the trimmed text of a window
   * of at most `chunkSize` characters at or after the cursor the run started
   * from (so it also has no whitespace at either end, by `Strip`'s contract).
   */
  lemma {:induction false} ChunkShape(text: string, chunkSize: nat, chunkOverlap: nat, start: nat)
    ensures forall c :: c in ChunkFrom(text, chunkSize, chunkOverlap, start) ==>
              c != [] && FromWindow(text, chunkSize, start, c)
    decreases |text| - start
  {
    if start < |text| {
      var end := WindowEnd(text, start, chunkSize);
      var piece := Piece(text, start, end);
      var next := AdvancedStart(text, start, end, chunkOverlap);
      ChunkFromStep(text, chunkSize, chunkOverlap, start);
      var rest := ChunkFrom(text, chunkSize, chunkOverlap, next);
      var all := ChunkFrom(text, chunkSize, chunkOverlap, start);
      assert all == (if piece == [] then [] else [piece]) + rest;
      ChunkShape(text, chunkSize, chunkOverlap, next);
      forall c | c in all ensures c != [] && FromWindow(text, chunkSize, start, c) {
        if c in rest {
          ShiftWindow(text, chunkSize, start, next, c);
        } else {
          assert c == piece;
          PieceFromWindow(text, chunkSize, start, end);
        }
      }
    }
  }

  lemma ShiftWindow(text: string, chunkSize: nat, lo: nat, lo': nat, c: string)
    requires lo <= lo' && FromWindow(text, chunkSize, lo', c)
    ensures FromWindow(text, chunkSize, lo, c)
  {
    var a: nat, b: nat :| lo' <= a < b <= |text| && b - a <= chunkSize && c == Strip(text[a..b]);
  }

  lemma PieceFromWindow(text: string, chunkSize: nat, start: nat, end: nat)
    requires start < |text| && end == WindowEnd(text, start, chunkSize)
    requires Piece(text, start, end) != []
    ensures FromWindow(text, chunkSize, start, Piece(text, start, end))
  {
    var b := Min(end, |text|);
    assert start < b <= |text| && b - start <= chunkSize;
  }

  /**
   * Coverage: with a positive chunk size no non-space character of the text
   * from the starting cursor on is left out; each one lies in a window whose
   * trimmed text is one of the chunks.
   */
  lemma {:induction false} ChunkCovers(text: string, chunkSize: nat, chunkOverlap: nat, start: nat, p: nat)
    requires chunkSize > 0
    requires start <= p < |text| && !IsSpace(text[p])
    ensures Covered(text, chunkSize, ChunkFrom(text, chunkSize, chunkOverlap, start), p)
    decreases |text| - start
  {
    var cs := ChunkFrom(text, chunkSize, chunkOverlap, start);
    var end := WindowEnd(text, start, chunkSize);
    var piece := Piece(text, start, end);
    var next := AdvancedStart(text, start, end, chunkOverlap);
    var rest := ChunkFrom(text, chunkSize, chunkOverlap, next);
    ChunkFromStep(text, chunkSize, chunkOverlap, start);
    var b := Min(end, |text|);
    if p < b {
      assert text[start..b][p - start] == text[p];
      assert piece != [];
      assert piece in cs;
      assert start <= p < b <= |text| && b - start <= chunkSize && Strip(text[start..b]) in cs;
    } else {
      assert next <= p;
      ChunkCovers(text, chunkSize, chunkOverlap, next, p);
      var a: nat, b': nat :| a <= p < b' <= |text| && b' - a <= chunkSize && Strip(text[a..b']) in rest;
      assert Strip(text[a..b']) in cs;
    }
  }

  /**
   * A text without sentence ends is never snapped, so with an overlap
   * smaller than the chunk size every window of the source's loop advances
   * the cursor, and the loop ends with the corrected chunker's chunks.
   */
  lemma {:induction false} UnsnappedRunCompletes(text: string, chunkSize: nat, chunkOverlap: nat, start: nat, fuel: nat)
    requires forall j :: 0 <= j < |text| ==> !IsSentenceEnd(text[j])
    requires chunkOverlap < chunkSize
    requires start + fuel >= |text|
    ensures SourceAdvances(text, chunkSize, chunkOverlap, start)
    ensures SourceChunkFrom(text, chunkSize, chunkOverlap, start, fuel) ==
            Some(ChunkFrom(text, chunkSize, chunkOverlap, start))
    decreases |text| - start
  {
    if start < |text| {
      var end := WindowEnd(text, start, chunkSize);
      if start + chunkSize < |text| {
        assert end == start + chunkSize;
      }
      UnsnappedRunCompletes(text, chunkSize, chunkOverlap, NextStart(text, end, chunkOverlap), fuel);
    }
    ChunkAgreesWithSource(text, chunkSize, chunkOverlap, start, fuel);
  }

  /** Empty or whitespace-only text yields no chunks. */
  lemma {:induction false} BlankTextNoChunks(text: string, chunkSize: nat, chunkOverlap: nat, start: nat)
    requires AllSpace(text)
    ensures ChunkFrom(text, chunkSize, chunkOverlap, start) == []
    decreases |text| - start
  {
    if start < |text| {
      var end := WindowEnd(text, start, chunkSize);
      var b := Min(end, |text|);
      assert AllSpace(text[start..b]);
      BlankTextNoChunks(text, chunkSize, chunkOverlap, AdvancedStart(text, start, end, chunkOverlap));
    }
  }

  /**
   * With a positive chunk size the chunk list is empty exactly when the text
   * is empty or whitespace only.
   */
  lemma NoChunksIffBlank(text: string, chunkSize: nat, chunkOverlap: nat)
    requires chunkSize > 0
    ensures Chunk(text, chunkSize, chunkOverlap) == [] <==> AllSpace(text)
  {
    if AllSpace(text) {
      BlankTextNoChunks(text, chunkSize, chunkOverlap, 0);
    } else {
      var p :| 0 <= p < |text| && !IsSpace(text[p]);
      ChunkCovers(text, chunkSize, chunkOverlap, 0, p);
    }
  }

  /**
   * When the cursor fails to advance: exactly when the window stops short of
   * the end of the text and its (snapped) end is within `chunkOverlap`
   * characters of the cursor.
   */
  lemma NoProgressIff(text: string, chunkSize: nat, chunkOverlap: nat, start: nat)
    requires start < |text|
    ensures var end := WindowEnd(text, start, chunkSize);
            NextStart(text, end, chunkOverlap) <= start <==>
              end < |text| && end <= start + chunkOverlap
  {
  }

  /**
   * The progress guard never fires on a window that is not snapped when the
   * overlap is smaller than the chunk size: without snapping the cursor moves
   * by `chunkSize - chunkOverlap`.
   */
  lemma UnsnappedWindowAdvances(text: string, chunkSize: nat, chunkOverlap: nat, start: nat)
    requires start < |text| && chunkOverlap < chunkSize
    requires WindowEnd(text, start, chunkSize) == start + chunkSize
    ensures NextStart(text, start + chunkSize, chunkOverlap) > start
  {
  }

  /**
   * The source's cursor does not move on "a.bbbbb" with chunk size 4 and
   * overlap 2: the first window "a.bb" is snapped to "a.", whose end 2 minus
   * the overlap is the cursor 0 again, so `_chunk_text` appends "a." forever.
   */
  lemma StallExample(fuel: nat)
    ensures WindowEnd("a.bbbbb", 0, 4) == 2
    ensures NextStart("a.bbbbb", 2, 2) == 0
    ensures SourceChunkFrom("a.bbbbb", 4, 2, 0, fuel) == None
  {
    var w := "a.bbbbb"[0..4];
    assert w == "a.bb";
    assert LastSentenceEnd(w) == 1;
    SourceSpins("a.bbbbb", 4, 2, 0, fuel);
  }

  /** The text of the stall with the configured sizes: 500 'a's, one '.', then 1500 'b's. */
  function StallText(): string {
    seq(500, _ => 'a') + "." + seq(1500, _ => 'b')
  }

  /**
   * The same stall with the configured chunk size 1000 and overlap 200: the
   * first window is snapped to end 501 and the cursor moves to 301; the
   * window from 301 snaps to 501 again, and 501 - 200 is 301 once more, so
   * the source's loop does not end, however many turns it is given.
   */
  lemma StallWithDefaults(fuel: nat)
    ensures WindowEnd(StallText(), 0, 1000) == 501
    ensures NextStart(StallText(), 501, 200) == 301
    ensures WindowEnd(StallText(), 301, 1000) == 501
    ensures SourceChunkFrom(StallText(), 1000, 200, 0, fuel) == None
  {
    var text := StallText();
    assert |text| == 2001;
    assert text[500] == '.';
    assert forall j :: 0 <= j < |text| && j != 500 ==> !IsSentenceEnd(text[j]) by {
      forall j | 0 <= j < |text| && j != 500 ensures !IsSentenceEnd(text[j]) {
        if j < 500 { assert text[j] == 'a'; } else { assert text[j] == 'b'; }
      }
    }
    assert WindowEnd(text, 0, 1000) == 501;
    assert WindowEnd(text, 301, 1000) == 501;
    SourceSpins(text, 1000, 200, 301, if fuel == 0 then 0 else fuel - 1);
  }

  /** The text of the small rewind example, ".bcdefghijklmnopqrstu": '.', then the 20 letters 'b' to 'u'. */
  function RewindText(): string {
    "." + seq(20, i requires 0 <= i < 20 => (98 + i) as char)
  }

  lemma RewindTextChars()
    ensures |RewindText()| == 21 && RewindText()[0] == '.'
    ensures forall j :: 1 <= j < 21 ==> RewindText()[j] == (97 + j) as char
    ensures forall j :: 1 <= j < 21 ==> !IsSentenceEnd(RewindText()[j]) && !IsSpace(RewindText()[j])
  {
    var t := RewindText();
    forall j | 1 <= j < 21 ensures t[j] == (97 + j) as char {
      assert t[j] == seq(20, i requires 0 <= i < 20 => (98 + i) as char)[j - 1];
    }
  }

  /**
   * A window snapped below the overlap sends the source's cursor below zero,
   * and the text it skips is lost. With chunk size 10 and overlap 3 on
   * ".bcdefghijklmnopqrstu", the first window snaps to ".", the cursor goes
   * to -2, where Python's slice `text[-2:8]` is empty, then to 5: the loop
   * ends after four turns with ".", "fghijklmno" and "mnopqrstu", and the
   * letters 'b' to 'e' are in no chunk.
   */
  lemma RewindExample()
    ensures var t := RewindText();
            SourceChunkFrom(t, 10, 3, 0, 4) == Some([t[..1], t[5..15], t[12..]])
    ensures var t := RewindText();
            forall c, j :: c in [t[..1], t[5..15], t[12..]] && 1 <= j < 5 ==> t[j] !in c
  {
    var t := RewindText();
    RewindFromZero();
    ChunkDisplays(t[..1], t[5..15], t[12..], []);
    RewindLosesLetters();
  }

  /** The last turn of the rewind example: the window from 12 reaches the end of the text. */
  lemma RewindFromTwelve()
    ensures var t := RewindText();
            SourceChunkFrom(t, 10, 3, 12, 1) == Some([t[12..]])
  {
    var t := RewindText();
    RewindTextChars();
    assert SourceEnd(t, 12, 10) == 22;
    assert NextStart(t, 22, 3) == 21;
    assert SourceChunkFrom(t, 10, 3, 21, 0) == Some([]);
    assert PySlice(t, 12, 22) == t[12..];
    StripUnchanged(t[12..]);
    SourceStep(t, 10, 3, 12, 0, []);
    assert [t[12..]] + [] == [t[12..]];
  }

  /** The window from 5 holds no sentence end and moves the cursor to 12. */
  lemma RewindFromFive()
    ensures var t := RewindText();
            SourceChunkFrom(t, 10, 3, 5, 2) == Some([t[5..15]] + [t[12..]])
  {
    var t := RewindText();
    RewindTextChars();
    RewindFromTwelve();
    SourceEndIsWindowEnd(t, 5, 10);
    assert WindowEnd(t, 5, 10) == 15;
    StripUnchanged(t[5..15]);
    SourceStep(t, 10, 3, 5, 1, [t[12..]]);
  }

  /** At cursor -2 the window `text[-2:8]` is empty and the cursor moves to 5. */
  lemma RewindFromMinusTwo()
    ensures var t := RewindText();
            SourceChunkFrom(t, 10, 3, -2, 3) == Some([t[5..15]] + [t[12..]])
  {
    var t := RewindText();
    RewindTextChars();
    RewindFromFive();
    assert PySlice(t, -2, 8) == [];
    assert SourceEnd(t, -2, 10) == 8;
    SourceStep(t, 10, 3, -2, 2, [t[5..15]] + [t[12..]]);
  }

  /** The first window snaps to "." and sends the cursor to -2. */
  lemma RewindFromZero()
    ensures var t := RewindText();
            SourceChunkFrom(t, 10, 3, 0, 4) == Some([t[..1]] + ([t[5..15]] + [t[12..]]))
  {
    var t := RewindText();
    RewindTextChars();
    RewindFromMinusTwo();
    SourceEndIsWindowEnd(t, 0, 10);
    assert WindowEnd(t, 0, 10) == 1;
    assert PySlice(t, 0, 1) == t[..1];
    StripUnchanged(t[..1]);
    SourceStep(t, 10, 3, 0, 3, [t[5..15]] + [t[12..]]);
  }

  /** None of the rewind example's chunks holds the letters 'b' to 'e'. */
  lemma RewindLosesLetters()
    ensures var t := RewindText();
            forall c, j :: c in [t[..1], t[5..15], t[12..]] && 1 <= j < 5 ==> t[j] !in c
  {
    var t := RewindText();
    RewindTextChars();
    forall c, j | c in [t[..1], t[5..15], t[12..]] && 1 <= j < 5 ensures t[j] !in c {
      forall k | 0 <= k < |c| ensures c[k] != t[j] {
        if c == t[..1] {
          assert c[k] == '.';
        } else if c == t[5..15] {
          assert c[k] == t[5 + k];
        } else {
          assert c[k] == t[12 + k];
        }
      }
    }
  }

  /**
   * The corrected chunker keeps every letter of the same text: after "." it
   * resumes at the window's end, cursor 1, and returns ".", "bcdefghijk",
   * "ijklmnopqr" and "pqrstu".
   */
  lemma RewindExampleCorrected()
    ensures var t := RewindText();
            Chunk(t, 10, 3) == [t[..1], t[1..11], t[8..18], t[15..]]
  {
    var t := RewindText();
    CorrectedFromZero();
    ChunkDisplays(t[0..1], t[1..11], t[8..18], t[15..]);
    assert t[0..1] == t[..1];
  }

  /** The nested concatenations that the per-window steps of the examples build are the list displays. */
  lemma ChunkDisplays(a: string, b: string, c: string, d: string)
    ensures [a] + [b] == [a, b]
    ensures [a] + ([b] + [c]) == [a, b, c]
    ensures [a] + ([b] + ([c] + [d])) == [a, b, c, d]
  {
  }

  lemma CorrectedFromZero()
    ensures var t := RewindText();
            ChunkFrom(t, 10, 3, 0) == [t[0..1]] + ([t[1..11]] + ([t[8..18]] + [t[15..]]))
  {
    var t := RewindText();
    RewindTextChars();
    CorrectedFromOne();
    assert WindowEnd(t, 0, 10) == 1;
    CorrectedStep(0, 1, 1);
  }

  /** A window of the corrected run on the rewind text that starts and ends with a letter or '.' and is kept whole. */
  lemma CorrectedStep(start: nat, end: nat, next: nat)
    requires start < end <= 21 && start < 21
    requires WindowEnd(RewindText(), start, 10) == end
    requires AdvancedStart(RewindText(), start, end, 3) == next
    ensures var t := RewindText();
            ChunkFrom(t, 10, 3, start) == [t[start..end]] + ChunkFrom(t, 10, 3, next)
  {
    var t := RewindText();
    RewindTextChars();
    assert t[start..Min(end, |t|)] == t[start..end];
    assert t[start..end][0] == t[start];
    assert t[start..end][end - start - 1] == t[end - 1];
    StripUnchanged(t[start..end]);
    ChunkFromStep(t, 10, 3, start);
  }

  lemma CorrectedFromOne()
    ensures var t := RewindText();
            ChunkFrom(t, 10, 3, 1) == [t[1..11]] + ([t[8..18]] + [t[15..]])
  {
    var t := RewindText();
    RewindTextChars();
    assert WindowEnd(t, 15, 10) == 25;
    assert ChunkFrom(t, 10, 3, 15) == [t[15..]] by {
      assert t[15..Min(25, 21)] == t[15..];
      assert t[15..][0] == t[15] && t[15..][5] == t[20];
      StripUnchanged(t[15..]);
      ChunkFromStep(t, 10, 3, 15);
      assert [t[15..]] + [] == [t[15..]];
    }
    assert WindowEnd(t, 8, 10) == 18;
    CorrectedStep(8, 18, 15);
    assert WindowEnd(t, 1, 10) == 11;
    CorrectedStep(1, 11, 8);
  }

  /** The text of the rewind with the configured sizes: "Hello." then 1000 'x's. */
  function RewindDefaultsText(): string {
    "Hello." + seq(1000, _ => 'x')
  }

  lemma RewindDefaultsChars()
    ensures var t := RewindDefaultsText();
            |t| == 1006 && t[..6] == "Hello." && t[5] == '.' &&
            (forall j :: 0 <= j < 5 ==> !IsSentenceEnd(t[j])) &&
            (forall j :: 6 <= j < 1006 ==> t[j] == 'x')
  {
    var t := RewindDefaultsText();
    assert t[..6] == "Hello.";
    forall j | 6 <= j < 1006 ensures t[j] == 'x' {
      assert t[j] == seq(1000, _ => 'x')[j - 6];
    }
  }

  /** The first window with the configured sizes snaps to just after the '.' at position 5. */
  lemma RewindDefaultsFirstWindow()
    ensures WindowEnd(RewindDefaultsText(), 0, 1000) == 6
  {
    var t := RewindDefaultsText();
    RewindDefaultsChars();
    assert IsSentenceEnd(t[5]) && !IsSentenceEnd('x');
  }

  /** The last turn with the configured sizes: the window from 606 reaches the end of the text. */
  lemma RewindDefaultsFrom606()
    ensures var t := RewindDefaultsText();
            SourceChunkFrom(t, 1000, 200, 606, 1) == Some([seq(400, _ => 'x')])
  {
    var t := RewindDefaultsText();
    RewindDefaultsChars();
    var xs := seq(400, _ => 'x');
    assert SourceEnd(t, 606, 1000) == 1606;
    assert NextStart(t, 1606, 200) == 1006;
    assert SourceChunkFrom(t, 1000, 200, 1006, 0) == Some([]);
    assert PySlice(t, 606, 1606) == xs;
    StripUnchanged(xs);
    SourceStep(t, 1000, 200, 606, 0, []);
    assert [xs] + [] == [xs];
  }

  /** At cursor -194 the window `text[-194:806]` is `text[812:806]`, empty, and the cursor moves to 606. */
  lemma RewindDefaultsFromMinus194()
    ensures var t := RewindDefaultsText();
            SourceChunkFrom(t, 1000, 200, -194, 2) == Some([seq(400, _ => 'x')])
  {
    var t := RewindDefaultsText();
    RewindDefaultsChars();
    RewindDefaultsFrom606();
    assert PySlice(t, -194, 806) == [];
    assert SourceEnd(t, -194, 1000) == 806;
    SourceStep(t, 1000, 200, -194, 1, [seq(400, _ => 'x')]);
  }

  /**
   * The same rewind with the configured chunk size 1000 and overlap 200: the
   * first window snaps to "Hello.", the cursor goes to -194, whose window
   * `text[-194:806]` is empty, then to 606, and the loop ends after three
   * turns with "Hello." and the last 400 'x's; the 'x's at positions 6 to
   * 605 are in no window.
   */
  lemma RewindWithDefaults()
    ensures SourceChunkFrom(RewindDefaultsText(), 1000, 200, 0, 3) == Some(["Hello.", seq(400, _ => 'x')])
  {
    var t := RewindDefaultsText();
    RewindDefaultsChars();
    RewindDefaultsFromMinus194();
    SourceEndIsWindowEnd(t, 0, 1000);
    RewindDefaultsFirstWindow();
    assert PySlice(t, 0, 6) == "Hello.";
    StripUnchanged("Hello.");
    SourceStep(t, 1000, 200, 0, 2, [seq(400, _ => 'x')]);
    ChunkDisplays("Hello.", seq(400, _ => 'x'), [], []);
  }
}
