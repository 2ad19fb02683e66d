/** Overlapping text windows for search (packages/profiles/src/file.ts:4-51).
    A text is a sequence of UTF-16 code units, as JavaScript indexes it. */
module FileChunks {

  newtype CodeUnit = n: int | 0 <= n < 0x1_0000

  type Text = seq<CodeUnit>

  const CHUNK_TARGET: nat := 1500
  const CHUNK_OVERLAP: nat := 200
  const CHUNK_MAX: nat := 3000

  const NEWLINE: CodeUnit := 0x0A

  const HASH: CodeUnit := 0x23

  datatype FileChunk = FileChunk(index: nat, content: Text)

  datatype Window = Window(start: nat, end: nat)

  // ---- Trimming ----------------------------------------------------------------

  /** What `String.prototype.trim` removes: WhiteSpace and LineTerminator. */
  predicate IsSpace(c: CodeUnit)
  {
    || 0x09 <= c <= 0x0D || c == 0x20 || c == 0xA0 || c == 0x1680 || 0x2000 <= c <= 0x200A
    || c == 0x2028 || c == 0x2029 || c == 0x202F || c == 0x205F || c == 0x3000 || c == 0xFEFF
  }

  /** The range of text[a..b] that trimming leaves: empty when all of it is space. */
  function TrimRange(text: Text, a: nat, b: nat): (r: Window)
    requires a <= b <= |text|
    ensures a <= r.start <= r.end <= b
    ensures forall i :: a <= i < r.start || r.end <= i < b ==> IsSpace(text[i])
    ensures r.start < r.end ==> !IsSpace(text[r.start]) && !IsSpace(text[r.end - 1])
    decreases b - a
  {
    if a == b then Window(a, b)
    else if IsSpace(text[a]) then TrimRange(text, a + 1, b)
    else if IsSpace(text[b - 1]) then TrimRange(text, a, b - 1)
    else Window(a, b)
  }

  function Trim(text: Text): Text
  {
    var r := TrimRange(text, 0, |text|);
    text[r.start..r.end]
  }

  // ---- Where a window ends ----------------------------------------------------------

  predicate OccursAt(text: Text, pattern: Text, i: nat)
  {
    i + |pattern| <= |text| && text[i..i + |pattern|] == pattern
  }

  function LastIndexBelow(text: Text, pattern: Text, limit: nat): (r: int)
    ensures -1 <= r < limit
    ensures r >= 0 ==> OccursAt(text, pattern, r)
    ensures forall i :: r < i < limit && i >= 0 ==> !OccursAt(text, pattern, i)
  {
    if limit == 0 then -1
    else if OccursAt(text, pattern, limit - 1) then limit - 1
    else LastIndexBelow(text, pattern, limit - 1)
  }

  /** `String.prototype.lastIndexOf`. */
  function LastIndexOf(text: Text, pattern: Text): (r: int)
    ensures r >= 0 ==> OccursAt(text, pattern, r)
    ensures forall i :: i > r && i >= 0 ==> !OccursAt(text, pattern, i)
  {
    LastIndexBelow(text, pattern, |text| + 1)
  }

  function Min(a: int, b: int): int
  {
    if a < b then a else b
  }

  /** The end of the window that starts at `offset`: after the last paragraph break,
      else before the last heading, else after the last newline of the lookahead,
      each only when it lies past half the target; else at the target. */
  function WindowEnd(text: Text, offset: nat): (end: nat)
    requires offset < |text|
    ensures offset < end <= |text|
    ensures end <= offset + CHUNK_MAX
    ensures end < |text| ==> end >= offset + 752
  {
    var end := Min(offset + CHUNK_TARGET, |text|);
    if end == |text| then end
    else
      var window := text[offset..Min(offset + CHUNK_MAX, |text|)];
      var paragraph := LastIndexOf(window, [NEWLINE, NEWLINE]);
      var heading := LastIndexOf(window, [NEWLINE, HASH]);
      var newline := LastIndexOf(window, [NEWLINE]);
      if paragraph > CHUNK_TARGET / 2 then offset + paragraph + 2
      else if heading > CHUNK_TARGET / 2 then offset + heading + 1
      else if newline > CHUNK_TARGET / 2 then offset + newline + 1
      else end
  }

  /** A place past half the target where the window from `offset` has the pattern. */
  predicate BreaksAt(text: Text, offset: nat, pattern: Text, i: nat)
  {
    && CHUNK_TARGET / 2 < i && offset + i + |pattern| <= Min(offset + CHUNK_MAX, |text|)
    && text[offset + i..offset + i + |pattern|] == pattern
  }

  ghost predicate LastBreakAt(text: Text, offset: nat, pattern: Text, i: nat)
  {
    BreaksAt(text, offset, pattern, i) && forall j :: j > i ==> !BreaksAt(text, offset, pattern, j)
  }

  ghost predicate NoBreak(text: Text, offset: nat, pattern: Text)
  {
    forall j :: !BreaksAt(text, offset, pattern, j)
  }

  lemma LastBreak(text: Text, offset: nat, pattern: Text)
    requires offset <= |text|
    ensures var r := LastIndexOf(text[offset..Min(offset + CHUNK_MAX, |text|)], pattern);
            if r > CHUNK_TARGET / 2 then LastBreakAt(text, offset, pattern, r) else NoBreak(text, offset, pattern)
  {
    var stop := Min(offset + CHUNK_MAX, |text|);
    var window := text[offset..stop];
    var r := LastIndexOf(window, pattern);
    forall j: nat | CHUNK_TARGET / 2 < j ensures BreaksAt(text, offset, pattern, j) <==> OccursAt(window, pattern, j) {
      if offset + j + |pattern| <= stop {
        assert window[j..j + |pattern|] == text[offset + j..offset + j + |pattern|];
      }
    }
    hide LastIndexOf, OccursAt;
    assert r > CHUNK_TARGET / 2 ==> BreaksAt(text, offset, pattern, r);
  }

  /** A window ends after its last paragraph break, failing that before its last heading,
      failing that after its last newline, failing all at the target; or with the text. */
  lemma WindowEndExactly(text: Text, offset: nat, i: nat)
    requires offset < |text|
    ensures var paragraph, heading, newline := [NEWLINE, NEWLINE], [NEWLINE, HASH], [NEWLINE];
            var end := WindowEnd(text, offset);
            if offset + CHUNK_TARGET >= |text| then end == |text|
            else
              && (LastBreakAt(text, offset, paragraph, i) ==> end == offset + i + 2)
              && (NoBreak(text, offset, paragraph) && LastBreakAt(text, offset, heading, i) ==> end == offset + i + 1)
              && (NoBreak(text, offset, paragraph) && NoBreak(text, offset, heading) && LastBreakAt(text, offset, newline, i) ==>
                    end == offset + i + 1)
              && (NoBreak(text, offset, paragraph) && NoBreak(text, offset, heading) && NoBreak(text, offset, newline) ==>
                    end == offset + CHUNK_TARGET)
  {
    LastBreak(text, offset, [NEWLINE, NEWLINE]);
    LastBreak(text, offset, [NEWLINE, HASH]);
    LastBreak(text, offset, [NEWLINE]);
    hide LastIndexOf, BreaksAt;
  }

  predicate WindowsWithin(text: Text, ws: seq<Window>)
  {
    forall k :: 0 <= k < |ws| ==> ws[k].start <= ws[k].end <= |text|
  }

  /** The windows from `offset` on. */
  function Windows(text: Text, offset: nat): (ws: seq<Window>)
    requires offset < |text|
    ensures WindowsWithin(text, ws)
    decreases |text| - offset
  {
    var end := WindowEnd(text, offset);
    [Window(offset, end)] + if end == |text| then [] else Windows(text, end - CHUNK_OVERLAP)
  }

  // ---- Window arithmetic ---------------------------------------------------------------

  /** The step from one window to the next: exactly 200 units are shared, and the
      offset advances by at least 552. */
  predicate Follows(w: Window, next: Window)
  {
    next.start == w.end - CHUNK_OVERLAP && next.start >= w.start + 552
  }

  /** Windows start at the offset and end with the text; each is at most 3000 long;
      and each follows the one before it. */
  lemma {:induction false} WindowArithmetic(text: Text, offset: nat)
    requires offset < |text|
    ensures var ws := Windows(text, offset);
            && |ws| >= 1 && ws[0].start == offset && ws[|ws| - 1].end == |text|
            && (forall k :: 0 <= k < |ws| ==> ws[k].start < ws[k].end <= |text| && ws[k].end - ws[k].start <= CHUNK_MAX)
            && (forall k :: 1 <= k < |ws| ==> Follows(ws[k - 1], ws[k]))
    decreases |text| - offset
  {
    hide WindowEnd;
    var ws := Windows(text, offset);
    var end := WindowEnd(text, offset);
    if end < |text| {
      WindowArithmetic(text, end - CHUNK_OVERLAP);
      var rest := Windows(text, end - CHUNK_OVERLAP);
      assert ws == [Window(offset, end)] + rest;
      forall k | 1 <= k < |ws| ensures Follows(ws[k - 1], ws[k]) {
        if k > 1 {
          assert ws[k - 1] == rest[k - 2] && ws[k] == rest[k - 1];
        }
      }
    }
  }

  lemma {:induction false} StartsSpread(ws: seq<Window>, k: nat)
    requires k < |ws|
    requires forall j :: 1 <= j < |ws| ==> Follows(ws[j - 1], ws[j])
    ensures ws[k].start >= 552 * k
  {
    if k > 0 {
      StartsSpread(ws, k - 1);
    }
  }

  /** A text of length n uses at most 1 + (n - 1) / 552 windows. */
  lemma WindowCount(text: Text)
    requires |text| >= 1
    ensures |Windows(text, 0)| <= 1 + (|text| - 1) / 552
  {
    WindowArithmetic(text, 0);
    var ws := Windows(text, 0);
    StartsSpread(ws, |ws| - 1);
    assert 552 * (|ws| - 1) <= ws[|ws| - 1].start <= |text| - 1;
  }

  // ---- Coverage ---------------------------------------------------------------------------

  /** Every range of at most 201 units lies inside one window. */
  lemma {:induction false} ShortRangeInOneWindow(text: Text, offset: nat, a: nat, b: nat) returns (k: nat)
    requires offset <= a < b <= |text| && b - a <= CHUNK_OVERLAP + 1
    ensures k < |Windows(text, offset)|
    ensures Windows(text, offset)[k].start <= a && b <= Windows(text, offset)[k].end
    decreases |text| - offset
  {
    hide WindowEnd;
    var end := WindowEnd(text, offset);
    if b <= end {
      k := 0;
    } else {
      k := ShortRangeInOneWindow(text, end - CHUNK_OVERLAP, a, b);
      k := k + 1;
    }
  }

  lemma NewlineAtMatch(window: Text, pattern: Text, r: int)
    requires |pattern| > 0
    ensures 0 <= r && r + |pattern| <= |window| && window[r..r + |pattern|] == pattern ==> window[r] == pattern[0]
  {
    assert 0 <= r && r + |pattern| <= |window| ==> window[r..r + |pattern|][0] == window[r];
  }

  lemma NoNewlineNoMatch(window: Text, pattern: Text)
    requires NEWLINE !in window && |pattern| > 0 && pattern[0] == NEWLINE
    ensures LastIndexOf(window, pattern) < 0
  {
    NewlineAtMatch(window, pattern, LastIndexOf(window, pattern));
  }

  lemma {:induction false} LaterStarts(ws: seq<Window>, k: nat)
    requires 1 <= k < |ws|
    requires forall j :: 1 <= j < |ws| ==> Follows(ws[j - 1], ws[j])
    ensures ws[k].start >= ws[0].end - CHUNK_OVERLAP
  {
    if k > 1 {
      LaterStarts(ws, k - 1);
    }
  }

  /** 201 is the most that can be promised: a text of n >= 1502 units without newlines
      is cut at 1500, and no window holds the 202 units around that cut. */
  lemma LongerRangeMayBeSplit(text: Text)
    requires |text| >= 1502 && NEWLINE !in text
    ensures forall k :: 0 <= k < |Windows(text, 0)| ==>
              !(Windows(text, 0)[k].start <= 1299 && 1501 <= Windows(text, 0)[k].end)
  {
    var window := text[..Min(CHUNK_MAX, |text|)];
    NoNewlineNoMatch(window, [NEWLINE, NEWLINE]);
    NoNewlineNoMatch(window, [NEWLINE, HASH]);
    NoNewlineNoMatch(window, [NEWLINE]);
    assert text[0..Min(CHUNK_MAX, |text|)] == window;
    assert WindowEnd(text, 0) == 1500;
    WindowArithmetic(text, 0);
    var ws := Windows(text, 0);
    assert ws[0] == Window(0, 1500);
    forall k | 1 <= k < |ws| ensures ws[k].start >= 1300 {
      LaterStarts(ws, k);
    }
  }

  // ---- The chunks ------------------------------------------------------------------------------

  function Content(text: Text, w: Window): Text
    requires w.start <= w.end <= |text|
  {
    Trim(text[w.start..w.end])
  }

  /** The non-blank windows, trimmed and numbered in order. */
  function ChunksOf(text: Text, ws: seq<Window>): seq<FileChunk>
    requires WindowsWithin(text, ws)
  {
    if ws == [] then []
    else
      var front := ChunksOf(text, ws[..|ws| - 1]);
      var content := Content(text, ws[|ws| - 1]);
      if content == [] then front else front + [FileChunk(|front|, content)]
  }

  predicate HasPart(content: Text, part: Text)
  {
    exists i: nat :: i <= |content| && OccursAt(content, part, i)
  }

  lemma SliceOfSlice(s: Text, a: nat, b: nat, c: nat, d: nat)
    requires a <= b <= |s| && c <= d <= b - a
    ensures s[a..b][c..d] == s[a + c..a + d]
  {
    assert forall i :: 0 <= i < d - c ==> s[a..b][c..d][i] == s[a + c..a + d][i];
  }

  /** Trimming a window keeps every part that starts and ends with non-space. */
  lemma TrimKeepsPart(text: Text, w: Window, a: nat, b: nat)
    requires w.start <= a < b <= w.end <= |text|
    requires !IsSpace(text[a]) && !IsSpace(text[b - 1])
    ensures HasPart(Content(text, w), text[a..b])
  {
    hide TrimRange, IsSpace;
    var cut := text[w.start..w.end];
    var r := TrimRange(cut, 0, |cut|);
    assert cut[a - w.start] == text[a] && cut[b - 1 - w.start] == text[b - 1];
    assert r.start <= a - w.start && b - w.start <= r.end;
    var i := a - w.start - r.start;
    var content := cut[r.start..r.end];
    assert content[i..i + (b - a)] == text[a..b] by {
      SliceOfSlice(cut, r.start, r.end, i, i + (b - a));
      SliceOfSlice(text, w.start, w.end, a - w.start, b - w.start);
    }
    assert OccursAt(content, text[a..b], i);
  }

  lemma {:induction false} NonBlankWindowIsAChunk(text: Text, ws: seq<Window>, k: nat) returns (c: nat)
    requires WindowsWithin(text, ws) && k < |ws| && Content(text, ws[k]) != []
    ensures c < |ChunksOf(text, ws)| && ChunksOf(text, ws)[c].content == Content(text, ws[k])
    decreases |ws|
  {
    if k == |ws| - 1 {
      c := |ChunksOf(text, ws[..k])|;
    } else {
      c := NonBlankWindowIsAChunk(text, ws[..|ws| - 1], k);
    }
  }

  lemma {:induction false} ChunkFromWindow(text: Text, ws: seq<Window>, c: nat) returns (k: nat)
    requires WindowsWithin(text, ws) && c < |ChunksOf(text, ws)|
    ensures k < |ws| && Content(text, ws[k]) != []
    ensures ChunksOf(text, ws)[c] == FileChunk(c, Content(text, ws[k]))
    decreases |ws|
  {
    var n := |ws| - 1;
    if c < |ChunksOf(text, ws[..n])| {
      k := ChunkFromWindow(text, ws[..n], c);
    } else {
      k := n;
    }
  }

  function AllChunks(text: Text): seq<FileChunk>
  {
    if Trim(text) == [] then []
    else ChunksOf(text, Windows(text, 0))
  }

  /** Every part of the text of at most 201 units that starts and ends with non-space
      lies whole inside some chunk. */
  lemma ShortPartsSurvive(text: Text, a: nat, b: nat) returns (c: nat)
    requires a < b <= |text| && b - a <= CHUNK_OVERLAP + 1
    requires !IsSpace(text[a]) && !IsSpace(text[b - 1])
    ensures c < |AllChunks(text)| && HasPart(AllChunks(text)[c].content, text[a..b])
  {
    var r := TrimRange(text, 0, |text|);
    WindowArithmetic(text, 0);
    var ws := Windows(text, 0);
    var k := ShortRangeInOneWindow(text, 0, a, b);
    TrimKeepsPart(text, ws[k], a, b);
    c := NonBlankWindowIsAChunk(text, ws, k);
  }

  /** In particular every non-space unit of the text is in a chunk. */
  lemma NonSpaceUnitsSurvive(text: Text, i: nat) returns (c: nat)
    requires i < |text| && !IsSpace(text[i])
    ensures c < |AllChunks(text)| && text[i] in AllChunks(text)[c].content
  {
    c := ShortPartsSurvive(text, i, i + 1);
    var content, part := AllChunks(text)[c].content, text[i..i + 1];
    var j: nat :| j <= |content| && OccursAt(content, part, j);
    assert content[j..j + |part|][0] == content[j];
  }

  lemma ContentIsPart(text: Text, w: Window)
    requires w.start <= w.end <= |text|
    ensures var content := Content(text, w);
            && |content| <= w.end - w.start && HasPart(text, content)
            && (content != [] ==> !IsSpace(content[0]) && !IsSpace(content[|content| - 1]))
  {
    var cut := text[w.start..w.end];
    var r := TrimRange(cut, 0, |cut|);
    var i := w.start + r.start;
    assert text[i..i + (r.end - r.start)] == cut[r.start..r.end];
    assert OccursAt(text, cut[r.start..r.end], i);
  }

  /** Every chunk is a trimmed, non-empty piece of the text of at most 3000 units,
      numbered by its position. */
  lemma ChunksAreTrimmedPieces(text: Text, c: nat)
    requires c < |AllChunks(text)|
    ensures var chunk := AllChunks(text)[c];
            && chunk.index == c && 0 < |chunk.content| <= CHUNK_MAX && HasPart(text, chunk.content)
            && !IsSpace(chunk.content[0]) && !IsSpace(chunk.content[|chunk.content| - 1])
  {
    hide WindowEnd, Content, Trim, TrimRange, LastIndexOf;
    WindowArithmetic(text, 0);
    var k := ChunkFromWindow(text, Windows(text, 0), c);
    ContentIsPart(text, Windows(text, 0)[k]);
  }

  lemma ChunksSnoc(text: Text, ws: seq<Window>, w: Window)
    requires WindowsWithin(text, ws) && w.start <= w.end <= |text|
    ensures WindowsWithin(text, ws + [w])
    ensures var front, content := ChunksOf(text, ws), Content(text, w);
            ChunksOf(text, ws + [w]) == if content == [] then front else front + [FileChunk(|front|, content)]
  {
    assert (ws + [w])[..|ws|] == ws;
  }

  // ---- The loop ----------------------------------------------------------------------------------

  lemma Regroup(done: seq<Window>, w: Window, rest: seq<Window>)
    ensures done + ([w] + rest) == (done + [w]) + rest
    ensures (done + [w]) + [] == done + [w]
  {}

  lemma LoopStep(text: Text, done: seq<Window>, offset: nat)
    requires offset < |text|
    requires done + Windows(text, offset) == Windows(text, 0)
    ensures var end := WindowEnd(text, offset);
            var next := done + [Window(offset, end)];
            if end == |text| then next == Windows(text, 0)
            else next + Windows(text, end - CHUNK_OVERLAP) == Windows(text, 0)
  {
    var end := WindowEnd(text, offset);
    var rest := if end == |text| then [] else Windows(text, end - CHUNK_OVERLAP);
    assert Windows(text, offset) == [Window(offset, end)] + rest;
    Regroup(done, Window(offset, end), rest);
  }

  method ChunkText(text: Text) returns (chunks: seq<FileChunk>)
    ensures chunks == AllChunks(text)
  {
    if Trim(text) == [] {
      return [];
    }
    chunks := ChunkWindows(text);
  }

  method ChunkWindows(text: Text) returns (chunks: seq<FileChunk>)
    requires |text| > 0
    ensures chunks == ChunksOf(text, Windows(text, 0))
  {
    hide WindowEnd, Content, Trim, TrimRange, LastIndexOf, Windows;
    chunks := [];
    var offset := 0;
    var index := 0;
    ghost var done: seq<Window> := [];
    assert done + Windows(text, 0) == Windows(text, 0);
    while offset < |text|
      invariant offset < |text|
      invariant WindowsWithin(text, done)
      invariant done + Windows(text, offset) == Windows(text, 0)
      invariant chunks == ChunksOf(text, done) && index == |chunks|
      decreases |text| - offset
    {
      var end := WindowEnd(text, offset);
      LoopStep(text, done, offset);
      ChunksSnoc(text, done, Window(offset, end));
      done := done + [Window(offset, end)];
      var content := Content(text, Window(offset, end));
      if content != [] {
        chunks := chunks + [FileChunk(index, content)];
        index := index + 1;
      }
      if end >= |text| {
        return;
      }
      offset := if offset + 1 > end - CHUNK_OVERLAP then offset + 1 else end - CHUNK_OVERLAP;
    }
  }
}
