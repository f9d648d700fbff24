// Model of apps/server/src/knowledge/chunker.ts: overlapping word windows over a text.
module Chunker {
  import opened Wrappers
  import opened Text

  const CHARS_PER_TOKEN := 4
  const DEFAULT_CHUNK_SIZE_TOKENS := 800
  const DEFAULT_OVERLAP_TOKENS := 100

  datatype ChunkOptions = ChunkOptions(chunkSizeTokens: Option<int>, overlapTokens: Option<int>)

  const NO_OPTIONS := ChunkOptions(None, None)

  datatype TextChunk = TextChunk(chunkIndex: nat, content: string, tokenCount: nat)

  // Four characters a token, rounded up.
  function EstimateTokenCount(text: string): (n: nat)
    ensures CHARS_PER_TOKEN * (n - 1) < |text| <= CHARS_PER_TOKEN * n
  {
    (|text| + CHARS_PER_TOKEN - 1) / CHARS_PER_TOKEN
  }

  // Four characters to a token, five to a word and its blank, rounded down.
  function WordsOfTokens(tokens: int): int {
    tokens * CHARS_PER_TOKEN / |"word "|
  }

  function ChunkSizeWords(opts: ChunkOptions): (n: nat)
    ensures n >= 1
  {
    var words := WordsOfTokens(opts.chunkSizeTokens.GetOr(DEFAULT_CHUNK_SIZE_TOKENS));
    if words > 1 then words else 1
  }

  function OverlapWords(opts: ChunkOptions): nat {
    var words := WordsOfTokens(opts.overlapTokens.GetOr(DEFAULT_OVERLAP_TOKENS));
    if words > 0 then words else 0
  }

  // The greatest number of five-character words that the four-character tokens have room for:
  // at least one in a chunk, at least none shared, and 800 and 100 tokens by default.
  lemma WordsOfOptions(opts: ChunkOptions)
    ensures
      var tokens := if opts.chunkSizeTokens.Some? then opts.chunkSizeTokens.value else 800;
      var size := ChunkSizeWords(opts);
      size >= 1 && (size > 1 ==> 5 * size <= 4 * tokens) && 4 * tokens < 5 * (size + 1)
    ensures
      var tokens := if opts.overlapTokens.Some? then opts.overlapTokens.value else 100;
      var overlap := OverlapWords(opts);
      (overlap > 0 ==> 5 * overlap <= 4 * tokens) && 4 * tokens < 5 * (overlap + 1)
  {
  }

  // ---------------------------------------------------------------- splitting

  // Split at blanks: the pieces between the runs of blanks, empty ones at the ends included.
  function Split(s: string): (pieces: seq<string>)
    decreases |s|
  {
    var n := WordLength(s);
    if n == |s| then [s] else
      assert IsSpace(s[n..][0]);
      [s[..n]] + Split(TrimStart(s[n..][1..]))
  }

  lemma {:induction false} WordsSkipBlanks(s: string)
    ensures Words(TrimStart(s)) == Words(s)
  {
    if s != "" && IsSpace(s[0]) {
      WordsSkipBlanks(s[1..]);
    }
  }

  lemma {:induction false} TrimStartKeepsEnd(s: string)
    requires s != "" && !IsSpace(s[|s| - 1])
    ensures TrimStart(s) != "" && TrimStart(s)[|TrimStart(s)| - 1] == s[|s| - 1]
  {
    if IsSpace(s[0]) {
      TrimStartKeepsEnd(s[1..]);
    }
  }

  // A trimmed text has no empty pieces.
  lemma {:induction false} SplitOfTrimmed(s: string)
    requires Trimmed(s) && s != ""
    ensures Split(s) == Words(s) && Words(s) != []
    decreases |s|
  {
    var n := WordLength(s);
    if n < |s| {
      var rest := s[n..];
      assert rest[0] == s[n] && rest[|rest| - 1] == s[|s| - 1];
      assert rest[1..] != "";
      TrimStartKeepsEnd(rest[1..]);
      WordsSkipBlanks(rest[1..]);
      SplitOfTrimmed(TrimStart(rest[1..]));
    } else {
      assert s[..n] == s && s[n..] == "";
    }
  }

  // ---------------------------------------------------------------- windows

  // How far each window starts behind its predecessor, and what the two share.
  function Step(size: nat, overlap: nat): (step: nat)
    requires size >= 1
    ensures 1 <= step <= size
  {
    if overlap < size then size - overlap else size
  }

  function Shared(size: nat, overlap: nat): nat {
    if overlap < size then overlap else 0
  }

  // 1 + ceil(max(0, n - size) / step)
  function Count(n: nat, size: nat, step: nat): (count: nat)
    requires 1 <= step <= size
    ensures count >= 1
  {
    if n <= size then 1 else 1 + (n - size + step - 1) / step
  }

  function Min(a: nat, b: nat): nat {
    if a < b then a else b
  }

  lemma ProductMonotone(a: int, b: int, m: nat)
    requires a <= b
    ensures a * m <= b * m
  {
  }

  // Only the last window reaches the end, and every window starts before it.
  lemma WindowPlaces(n: nat, size: nat, step: nat, k: nat)
    requires 1 <= step <= size && n >= 1
    requires k < Count(n, size, step)
    ensures k * step < n
    ensures k * step + size >= n <==> k + 1 == Count(n, size, step)
  {
    if n > size {
      var q := (n - size + step - 1) / step;
      assert (q - 1) * step < n - size <= q * step;
      if k < q {
        ProductMonotone(k, q - 1, step);
      } else {
        assert k == q;
        assert k * step == (q - 1) * step + step;
      }
    } else {
      assert k == 0;
    }
  }

  // The words of window k.
  function Window<T>(words: seq<T>, size: nat, step: nat, k: nat): (w: seq<T>)
    requires 1 <= step <= size && words != [] && k < Count(|words|, size, step)
    ensures w != []
  {
    WindowPlaces(|words|, size, step, k);
    words[k * step..Min(k * step + size, |words|)]
  }

  function ChunkOf(index: nat, window: seq<string>): TextChunk {
    TextChunk(index, Join(window), EstimateTokenCount(Join(window)))
  }

  function ChunksOf(words: seq<string>, size: nat, step: nat): (chunks: seq<TextChunk>)
    requires 1 <= step <= size && words != []
    ensures |chunks| == Count(|words|, size, step)
    ensures forall k :: 0 <= k < |chunks| ==> chunks[k] == ChunkOf(k, Window(words, size, step, k))
  {
    var count := Count(|words|, size, step);
    seq(count, k requires 0 <= k < count => ChunkOf(k, Window(words, size, step, k)))
  }

  // The chunks of a text, in closed form.
  function ChunkText(text: string, opts: ChunkOptions): (chunks: seq<TextChunk>)
    ensures forall k :: 0 <= k < |chunks| ==>
      && chunks[k].chunkIndex == k
      && 4 * (chunks[k].tokenCount - 1) < |chunks[k].content| <= 4 * chunks[k].tokenCount
  {
    var words := Words(Trim(text));
    var size := ChunkSizeWords(opts);
    var step := Step(size, OverlapWords(opts));
    if words == [] then [] else ChunksOf(words, size, step)
  }

  // The loop, which ends for every text and every pair of options.
  method Chunk(text: string, opts: ChunkOptions) returns (chunks: seq<TextChunk>)
    ensures chunks == ChunkText(text, opts)
  {
    var trimmed := Trim(text);
    TrimIsTrimmed(text);
    if trimmed == "" {
      return [];
    }
    var words := Split(trimmed);
    SplitOfTrimmed(trimmed);
    chunks := CutWords(words, ChunkSizeWords(opts), OverlapWords(opts));
  }

  lemma NextStart(start: nat, size: nat, overlap: nat)
    requires size >= 1
    ensures
      var end := start + size;
      start + Step(size, overlap) == if end as int - overlap > start then end - overlap else end
  {
  }

  method CutWords(words: seq<string>, chunkSizeWords: nat, overlapWords: nat) returns (chunks: seq<TextChunk>)
    requires words != [] && chunkSizeWords >= 1
    ensures chunks == ChunksOf(words, chunkSizeWords, Step(chunkSizeWords, overlapWords))
  {
    chunks := [];
    var start := 0;
    ghost var step := Step(chunkSizeWords, overlapWords);
    ghost var whole := ChunksOf(words, chunkSizeWords, step);
    while start < |words|
      invariant |chunks| < |whole| && start == |chunks| * step < |words|
      invariant chunks == whole[..|chunks|]
      decreases |words| - start
    {
      ghost var k := |chunks|;
      WindowPlaces(|words|, chunkSizeWords, step, k);
      var end := Min(start + chunkSizeWords, |words|);
      var content := Join(words[start..end]);
      assert words[start..end] == Window(words, chunkSizeWords, step, k);
      chunks := chunks + [TextChunk(|chunks|, content, EstimateTokenCount(content))];
      if end >= |words| {
        break;
      }
      NextStart(start, chunkSizeWords, overlapWords);
      start := if end - overlapWords > start then end - overlapWords else end;
      NextProduct(k, step);
      WindowPlaces(|words|, chunkSizeWords, step, k + 1);
    }
  }

  lemma NextProduct(k: nat, m: nat)
    ensures (k + 1) * m == k * m + m
  {
  }

  // ---------------------------------------------------------------- cover

  // The windows one after the other, each without the part it shares with its predecessor.
  ghost function Glue<T>(windows: seq<seq<T>>, shared: nat): seq<T> {
    if windows == [] then []
    else if |windows| == 1 then windows[0]
    else
      var last := windows[|windows| - 1];
      Glue(windows[..|windows| - 1], shared) + last[Min(shared, |last|)..]
  }

  ghost function Windows<T>(words: seq<T>, size: nat, step: nat, m: nat): (ws: seq<seq<T>>)
    requires 1 <= step <= size && words != [] && m <= Count(|words|, size, step)
    ensures |ws| == m
  {
    seq(m, k requires 0 <= k < m => Window(words, size, step, k))
  }

  lemma GlueSnoc<T>(windows: seq<seq<T>>, last: seq<T>, shared: nat)
    requires windows != []
    ensures Glue(windows + [last], shared) == Glue(windows, shared) + last[Min(shared, |last|)..]
  {
    assert (windows + [last])[..|windows|] == windows;
  }

  lemma GlueTwo<T>(words: seq<T>, a: nat, b: nat, from: nat, shared: nat)
    requires from + shared == a <= b <= |words|
    ensures words[..a] + words[from..b][shared..] == words[..b]
  {
  }

  lemma WindowsSnoc<T>(words: seq<T>, size: nat, step: nat, m: nat)
    requires 1 <= step <= size && words != [] && m < Count(|words|, size, step)
    ensures Windows(words, size, step, m + 1) == Windows(words, size, step, m) + [Window(words, size, step, m)]
  {
  }

  lemma GlueNext<T>(glued: seq<T>, last: seq<T>, words: seq<T>, from: nat, size: nat, step: nat)
    requires 1 <= step <= size && from + size <= |words|
    requires glued == words[..from + size]
    requires last == words[from + step..Min(from + step + size, |words|)]
    ensures size - step <= |last|
    ensures glued + last[size - step..] == words[..Min(from + step + size, |words|)]
  {
    GlueTwo(words, from + size, Min(from + step + size, |words|), from + step, size - step);
  }

  // m + 1 windows glued together are the words up to the end of the last of them.
  ghost predicate GluedUpTo<T>(words: seq<T>, size: nat, step: nat, m: nat, end: nat)
    requires 1 <= step <= size && words != [] && m < Count(|words|, size, step) && end <= |words|
  {
    Glue(Windows(words, size, step, m + 1), size - step) == words[..end]
  }

  lemma GlueStep<T>(words: seq<T>, size: nat, step: nat, m: nat, from: nat)
    requires 1 <= step <= size && words != [] && 1 <= m < Count(|words|, size, step)
    requires from + step == m * step && from + size <= |words|
    requires GluedUpTo(words, size, step, m - 1, from + size)
    ensures GluedUpTo(words, size, step, m, Min(from + step + size, |words|))
  {
    var before, last := Windows(words, size, step, m), Window(words, size, step, m);
    WindowsSnoc(words, size, step, m);
    GlueSnoc(before, last, size - step);
    GlueNext(Glue(before, size - step), last, words, from, size, step);
  }

  lemma GlueFirst<T>(words: seq<T>, size: nat, step: nat)
    requires 1 <= step <= size && words != []
    ensures Glue(Windows(words, size, step, 1), size - step) == words[..Min(size, |words|)]
  {
    assert Windows(words, size, step, 1) == [Window(words, size, step, 0)];
  }

  ghost function WindowEnd(n: nat, size: nat, step: nat, m: nat): nat {
    Min(m * step + size, n)
  }

  ghost predicate Glued<T>(words: seq<T>, size: nat, step: nat, m: nat)
    requires 1 <= step <= size && words != [] && m < Count(|words|, size, step)
  {
    GluedUpTo(words, size, step, m, WindowEnd(|words|, size, step, m))
  }

  lemma NextWindowEnd(n: nat, size: nat, step: nat, m: nat)
    requires 1 <= step <= size && n >= 1 && m + 1 < Count(n, size, step)
    ensures WindowEnd(n, size, step, m) == m * step + size <= n
    ensures WindowEnd(n, size, step, m + 1) == Min(m * step + step + size, n)
    ensures m * step + step == (m + 1) * step
  {
    NextProduct(m, step);
    WindowPlaces(n, size, step, m);
  }

  lemma GluedNext<T>(words: seq<T>, size: nat, step: nat, m: nat)
    requires 1 <= step <= size && words != [] && m + 1 < Count(|words|, size, step)
    requires Glued(words, size, step, m)
    ensures Glued(words, size, step, m + 1)
  {
    NextWindowEnd(|words|, size, step, m);
    GlueStep(words, size, step, m + 1, m * step);
  }

  lemma GluedFirst<T>(words: seq<T>, size: nat, step: nat)
    requires 1 <= step <= size && words != []
    ensures Glued(words, size, step, 0)
  {
    GlueFirst(words, size, step);
  }

  lemma {:induction false} GlueOfWindows<T>(words: seq<T>, size: nat, step: nat, m: nat)
    requires 1 <= step <= size && words != [] && m < Count(|words|, size, step)
    ensures Glued(words, size, step, m)
  {
    if m == 0 {
      GluedFirst(words, size, step);
    } else {
      GlueOfWindows(words, size, step, m - 1);
      GluedNext(words, size, step, m - 1);
    }
  }

  lemma GlueOfAll<T>(words: seq<T>, size: nat, step: nat)
    requires 1 <= step <= size && words != []
    ensures Glue(Windows(words, size, step, Count(|words|, size, step)), size - step) == words
  {
    var count := Count(|words|, size, step);
    GlueOfWindows(words, size, step, count - 1);
    WindowPlaces(|words|, size, step, count - 1);
    assert words[..|words|] == words;
  }

  // The words of each chunk's content.
  ghost function ChunkWords(chunks: seq<TextChunk>): (ws: seq<seq<string>>)
    ensures |ws| == |chunks|
  {
    seq(|chunks|, k requires 0 <= k < |chunks| => Words(chunks[k].content))
  }

  lemma ContentSplitsBack(words: seq<string>, size: nat, step: nat)
    requires 1 <= step <= size && words != [] && forall w :: w in words ==> IsWord(w)
    ensures ChunkWords(ChunksOf(words, size, step)) == Windows(words, size, step, Count(|words|, size, step))
  {
    var chunks := ChunksOf(words, size, step);
    forall k | 0 <= k < |chunks| ensures Words(chunks[k].content) == Window(words, size, step, k) {
      var window := Window(words, size, step, k);
      WordsOfJoin(window);
    }
  }

  lemma ChunksCover(words: seq<string>, size: nat, overlap: nat)
    requires size >= 1 && words != [] && forall w :: w in words ==> IsWord(w)
    ensures Glue(ChunkWords(ChunksOf(words, size, Step(size, overlap))), Shared(size, overlap)) == words
  {
    var step := Step(size, overlap);
    ContentSplitsBack(words, size, step);
    GlueOfAll(words, size, step);
    assert Shared(size, overlap) == size - step;
  }

  // The contents of the chunks, without what each repeats, are the words of the text.
  lemma ChunksCoverTheText(text: string, opts: ChunkOptions)
    ensures Glue(ChunkWords(ChunkText(text, opts)), Shared(ChunkSizeWords(opts), OverlapWords(opts)))
      == Words(Trim(text))
  {
    var words := Words(Trim(text));
    if words == [] {
      assert ChunkWords(ChunkText(text, opts)) == [];
    } else {
      ChunksCover(words, ChunkSizeWords(opts), OverlapWords(opts));
    }
  }

  // Every chunk but the last is full, and ends with exactly the words its successor opens with.
  ghost predicate ShareWords<T>(w: seq<T>, next: seq<T>, size: nat, shared: nat) {
    |w| == size && shared < |next| && shared <= size && w[size - shared..] == next[..shared]
  }

  lemma ConsecutiveChunksShare(text: string, opts: ChunkOptions, k: nat)
    requires k + 1 < |ChunkText(text, opts)|
    ensures
      ShareWords(
        Words(ChunkText(text, opts)[k].content), Words(ChunkText(text, opts)[k + 1].content),
        ChunkSizeWords(opts), Shared(ChunkSizeWords(opts), OverlapWords(opts)))
  {
    var words := Words(Trim(text));
    var size := ChunkSizeWords(opts);
    var step := Step(size, OverlapWords(opts));
    ContentSplitsBack(words, size, step);
    WindowsShare(words, size, step, k);
    var ws := ChunkWords(ChunkText(text, opts));
    assert ws[k] == Window(words, size, step, k) && ws[k + 1] == Window(words, size, step, k + 1);
  }

  lemma WindowsShare<T>(words: seq<T>, size: nat, step: nat, k: nat)
    requires 1 <= step <= size && words != [] && k + 1 < Count(|words|, size, step)
    ensures ShareWords(Window(words, size, step, k), Window(words, size, step, k + 1), size, size - step)
  {
    WindowPlaces(|words|, size, step, k);
    WindowPlaces(|words|, size, step, k + 1);
    NextProduct(k, step);
    var a := k * step;
    var b := a + step;
    SharedPart(words, a, b, a + size, Min(b + size, |words|));
  }

  lemma SharedPart<T>(words: seq<T>, a: nat, b: nat, c: nat, d: nat)
    requires a <= b <= c <= d <= |words|
    ensures words[a..c][b - a..] == words[b..d][..c - b]
  {
  }

  // The number of chunks is the least that lets the last window reach the end.
  lemma ChunkCount(text: string, opts: ChunkOptions)
    requires Words(Trim(text)) != []
    ensures
      var n, size := |Words(Trim(text))|, ChunkSizeWords(opts);
      var step, count := Step(size, OverlapWords(opts)), |ChunkText(text, opts)|;
      && count >= 1 && (count - 1) * step + size >= n
      && (count >= 2 ==> (count - 2) * step + size < n)
  {
    var n, size := |Words(Trim(text))|, ChunkSizeWords(opts);
    var step := Step(size, OverlapWords(opts));
    var count := Count(n, size, step);
    WindowPlaces(n, size, step, count - 1);
    if count >= 2 {
      WindowPlaces(n, size, step, count - 2);
    }
  }
}
