// The chunk rows of one document, the page-limited listing of them that a retry deletes, and
// what that leaves behind. Used by the model of apps/server/src/db/document-service.ts.
module ChunkRows {
  import opened Wrappers
  import opened Chunker
  import opened Text

  // Rows returned by a chunk listing that asks for no particular page.
  const PAGE_LIMIT: nat := 1000

  datatype Row<V> = Row(content: string, tokenCount: nat, embedding: Option<V>)

  // ---------------------------------------------------------------- rows

  function Contents(chunks: seq<TextChunk>): (texts: seq<string>)
    ensures |texts| == |chunks| && forall i :: 0 <= i < |texts| ==> texts[i] == chunks[i].content
  {
    seq(|chunks|, i requires 0 <= i < |chunks| => chunks[i].content)
  }

  // The row holds the chunk, and the vector of its number if there is one.
  ghost predicate IsRowOf<V>(row: Row<V>, i: nat, chunk: TextChunk, vectors: seq<V>) {
    && row.content == chunk.content && row.tokenCount == chunk.tokenCount
    && (i < |vectors| ==> row.embedding == Some(vectors[i]))
    && (i >= |vectors| ==> row.embedding == None)
  }

  // The rows inserted for a parsed text: row i holds chunk i and the i-th vector, if any.
  function RowsOf<V>(embed: seq<string> -> seq<V>, markdown: string, opts: ChunkOptions): (rows: seq<Row<V>>)
    ensures |rows| == |ChunkText(markdown, opts)|
    ensures
      var chunks := ChunkText(markdown, opts);
      forall i :: 0 <= i < |rows| ==> IsRowOf(rows[i], i, chunks[i], embed(Contents(chunks)))
  {
    var chunks := ChunkText(markdown, opts);
    var vectors := embed(Contents(chunks));
    seq(|chunks|, i requires 0 <= i < |chunks| =>
      Row(chunks[i].content, chunks[i].tokenCount, if i < |vectors| then Some(vectors[i]) else None))
  }

  // The rows of one document by chunk index.
  ghost function Table<V>(rows: seq<Row<V>>): map<nat, Row<V>> {
    map i: nat | 0 <= i < |rows| :: rows[i]
  }

  // ---------------------------------------------------------------- the listing

  lemma SmallestExists(s: set<nat>)
    requires s != {}
    ensures exists m :: m in s && forall x :: x in s ==> m <= x
  {
    var x :| x in s;
    SmallestBelow(s, x);
  }

  lemma {:induction false} SmallestBelow(s: set<nat>, x: nat)
    requires x in s
    ensures exists m :: m in s && forall y :: y in s ==> m <= y
    decreases x
  {
    if y: nat :| y in s && y < x {
      SmallestBelow(s, y);
    } else {
      assert x in s && forall y :: y in s ==> x <= y;
    }
  }

  function Smallest(s: set<nat>): (m: nat)
    requires s != {}
    ensures m in s && forall x :: x in s ==> m <= x
  {
    SmallestExists(s);
    var m :| m in s && forall x :: x in s ==> m <= x;
    m
  }

  // The rows of smallest chunk index, as many as the limit allows.
  function Page(s: set<nat>, limit: nat): (page: seq<nat>)
    ensures forall i :: i in page ==> i in s
    decreases limit
  {
    if limit == 0 || s == {} then []
    else
      var m := Smallest(s);
      [m] + Page(s - {m}, limit - 1)
  }

  ghost function Beyond(s: set<nat>, limit: nat): set<nat> {
    set i | i in s && i !in Page(s, limit)
  }

  // A listing is complete exactly when there are no more rows than the limit; the rows it
  // leaves out have larger indices than all it returns.
  lemma {:induction false} PageIsComplete(s: set<nat>, limit: nat)
    ensures |Page(s, limit)| == Min(limit, |s|)
    ensures |Beyond(s, limit)| == |s| - Min(limit, |s|)
    ensures forall i, j :: i in Page(s, limit) && j in Beyond(s, limit) ==> i < j
    decreases limit
  {
    if limit == 0 || s == {} {
      assert Beyond(s, limit) == s;
    } else {
      var m := Smallest(s);
      var rest := s - {m};
      PageIsComplete(rest, limit - 1);
      assert Page(s, limit) == [m] + Page(rest, limit - 1);
      assert Beyond(s, limit) == Beyond(rest, limit - 1);
    }
  }

  // The rows a listing misses.
  ghost function LeftOver<V>(stored: map<nat, Row<V>>): map<nat, Row<V>> {
    map i | i in stored && i in Beyond(stored.Keys, PAGE_LIMIT) :: stored[i]
  }

  lemma LeftOverIsEmptyIff<V>(stored: map<nat, Row<V>>)
    ensures LeftOver(stored) == map[] <==> |stored| <= PAGE_LIMIT
  {
    PageIsComplete(stored.Keys, PAGE_LIMIT);
    var left := Beyond(stored.Keys, PAGE_LIMIT);
    assert |stored.Keys| == |stored|;
    assert LeftOver(stored).Keys == left;
    assert left == {} <==> |left| == 0;
    assert LeftOver(stored) == map[] <==> LeftOver(stored).Keys == {};
  }

  ghost predicate NoCollision<V>(before: map<nat, Row<V>>, rows: seq<Row<V>>) {
    forall i :: 0 <= i < |rows| ==> i !in before
  }

  lemma SumIsExactIff<V>(before: map<nat, Row<V>>, rows: seq<Row<V>>)
    requires NoCollision(before, rows)
    ensures before + Table(rows) == Table(rows) <==> before == map[]
  {
    if before != map[] {
      var i :| i in before;
      assert i in before + Table(rows) && i !in Table(rows);
    } else {
      assert before + Table(rows) == Table(rows);
    }
  }

  // After a retry the index holds the new rows and nothing else iff the listing of the old
  // ones was complete.
  lemma RetryIsExactIff<V>(stored: map<nat, Row<V>>, rows: seq<Row<V>>)
    requires NoCollision(LeftOver(stored), rows)
    ensures LeftOver(stored) + Table(rows) == Table(rows) <==> |stored| <= PAGE_LIMIT
  {
    LeftOverIsEmptyIff(stored);
    SumIsExactIff(LeftOver(stored), rows);
  }

  lemma {:induction false} TableSize<V>(rows: seq<Row<V>>)
    ensures |Table(rows)| == |rows|
  {
    if rows != [] {
      var n := |rows| - 1;
      TableSize(rows[..n]);
      assert Table(rows) == Table(rows[..n])[n := rows[n]];
    } else {
      assert Table(rows) == map[];
    }
  }

  // ---------------------------------------------------------------- inserting row by row

  // The first rows of a list are in, none of which was there before.
  ghost predicate Inserted<V>(before: map<nat, Row<V>>, rows: seq<Row<V>>, n: nat, now: map<nat, Row<V>>) {
    n <= |rows| && NoCollision(before, rows[..n]) && now == before + Table(rows[..n])
  }

  ghost predicate PartlyInserted<V>(before: map<nat, Row<V>>, rows: seq<Row<V>>, now: map<nat, Row<V>>) {
    exists n: nat :: Inserted(before, rows, n, now)
  }

  // Row by row, the insertion meets an index that is taken.
  ghost predicate Stuck<V>(before: map<nat, Row<V>>, rows: seq<Row<V>>, now: map<nat, Row<V>>) {
    exists n: nat :: n < |rows| && n in before && Inserted(before, rows, n, now)
  }

  // What inserting the rows comes to when every step takes place.
  ghost predicate Inserts<V>(before: map<nat, Row<V>>, rows: seq<Row<V>>, now: map<nat, Row<V>>, ok: bool) {
    && (ok <==> NoCollision(before, rows))
    && (ok ==> now == before + Table(rows))
    && (!ok ==> Stuck(before, rows, now))
  }

  lemma NothingInserted<V>(before: map<nat, Row<V>>, rows: seq<Row<V>>)
    ensures Inserted(before, rows, 0, before)
  {
    assert Table(rows[..0]) == map[];
  }

  lemma InsertedOneMore<V>(before: map<nat, Row<V>>, rows: seq<Row<V>>, n: nat, now: map<nat, Row<V>>)
    requires Inserted(before, rows, n, now) && n < |rows|
    ensures n in now <==> n in before
    ensures n !in now ==> Inserted(before, rows, n + 1, now[n := rows[n]])
    ensures n in now ==> !NoCollision(before, rows)
  {
    assert rows[..n + 1] == rows[..n] + [rows[n]];
    assert Table(rows[..n + 1]) == Table(rows[..n])[n := rows[n]];
  }

  lemma AllInserted<V>(before: map<nat, Row<V>>, rows: seq<Row<V>>, now: map<nat, Row<V>>)
    requires Inserted(before, rows, |rows|, now)
    ensures NoCollision(before, rows) && now == before + Table(rows)
  {
    assert rows[..|rows|] == rows;
  }

  lemma NothingCollides<V>(rows: seq<Row<V>>)
    ensures NoCollision(map[], rows) && map[] + Table(rows) == Table(rows)
  {
  }

  // ---------------------------------------------------------------- retries over old rows

  ghost predicate IsInterval(s: set<nat>, lo: nat, hi: nat) {
    forall i: nat :: i in s <==> lo <= i < hi
  }

  // The page of a gapless stretch of rows is its beginning.
  lemma {:induction false} PageOfInterval(s: set<nat>, lo: nat, hi: nat, limit: nat)
    requires IsInterval(s, lo, hi)
    ensures forall i: nat :: i in Page(s, limit) <==> lo <= i < hi && i < lo + limit
    decreases limit
  {
    if limit == 0 || s == {} {
      assert lo < hi ==> lo in s;
    } else {
      var m := Smallest(s);
      assert lo in s && m == lo;
      PageOfInterval(s - {lo}, lo + 1, hi, limit - 1);
      assert Page(s, limit) == [lo] + Page(s - {lo}, limit - 1);
    }
  }

  // Of a whole index the listing misses exactly the rows from the page limit on.
  lemma LeftOverOfTable<V>(was: seq<Row<V>>)
    ensures forall i: nat :: i in LeftOver(Table(was)) <==> PAGE_LIMIT <= i < |was|
  {
    assert IsInterval(Table(was).Keys, 0, |was|);
    PageOfInterval(Table(was).Keys, 0, |was|, PAGE_LIMIT);
  }

  // One document twice: over a whole old index the new rows find their places free iff one of
  // the two indexes fits a page, and what is stored then is exact iff the old one does.
  lemma RetryOverWholeIndex<V>(was: seq<Row<V>>, rows: seq<Row<V>>)
    ensures NoCollision(LeftOver(Table(was)), rows) <==> |was| <= PAGE_LIMIT || |rows| <= PAGE_LIMIT
    ensures NoCollision(LeftOver(Table(was)), rows) ==>
      (LeftOver(Table(was)) + Table(rows) == Table(rows) <==> |was| <= PAGE_LIMIT)
  {
    LeftOverOfTable(was);
    if |was| > PAGE_LIMIT && |rows| > PAGE_LIMIT {
      assert PAGE_LIMIT in LeftOver(Table(was));
    }
    if NoCollision(LeftOver(Table(was)), rows) {
      RetryIsExactIff(Table(was), rows);
      TableSize(was);
    }
  }

  // A retry that makes more than a page of rows over a whole index of more than a page meets
  // the row that the listing misses first, and leaves a whole index again.
  lemma RetryIsStuck<V>(stored: map<nat, Row<V>>, size: nat, rows: seq<Row<V>>, now: map<nat, Row<V>>, ok: bool)
    requires IsInterval(stored.Keys, 0, size) && size > PAGE_LIMIT && |rows| > PAGE_LIMIT
    requires Inserts(LeftOver(stored), rows, now, ok)
    ensures !ok && IsInterval(now.Keys, 0, size)
  {
    PageOfInterval(stored.Keys, 0, size, PAGE_LIMIT);
    var left := LeftOver(stored);
    assert PAGE_LIMIT in stored.Keys && PAGE_LIMIT in left;
    var n: nat :| n < |rows| && n in left && Inserted(left, rows, n, now);
    assert n == PAGE_LIMIT;
  }

  // Retries of one document, none of whose steps fails: retry i makes rows made[i].
  ghost predicate AreRetries<V>(states: seq<map<nat, Row<V>>>, made: seq<seq<Row<V>>>, oks: seq<bool>) {
    && |states| == |made| + 1 && |oks| == |made|
    && forall i {:trigger IsRetryAt(states, made, oks, i)} :: 0 <= i < |made| ==> IsRetryAt(states, made, oks, i)
  }

  ghost predicate IsRetryAt<V>(states: seq<map<nat, Row<V>>>, made: seq<seq<Row<V>>>, oks: seq<bool>, i: int)
    requires 0 <= i < |made| == |oks| && |states| == |made| + 1
  {
    Inserts(LeftOver(states[i]), made[i], states[i + 1], oks[i])
  }

  // All have failed, and the index is whole.
  ghost predicate StuckAt<V>(states: seq<map<nat, Row<V>>>, oks: seq<bool>, size: nat, i: nat)
    requires i <= |oks| < |states|
  {
    IsInterval(states[i].Keys, 0, size) && forall j :: 0 <= j < i ==> !oks[j]
  }

  // However often it is tried, under whatever settings that make more than a page of rows.
  lemma {:induction false} NeverIndexedAgain<V>(
    states: seq<map<nat, Row<V>>>, made: seq<seq<Row<V>>>, oks: seq<bool>, size: nat, i: nat)
    requires AreRetries(states, made, oks) && forall rows :: rows in made ==> |rows| > PAGE_LIMIT
    requires IsInterval(states[0].Keys, 0, size) && size > PAGE_LIMIT && i <= |made|
    ensures StuckAt(states, oks, size, i)
  {
    if i > 0 {
      NeverIndexedAgain(states, made, oks, size, i - 1);
      StuckOnceMore(states, made, oks, size, i - 1);
    }
  }

  lemma StuckOnceMore<V>(states: seq<map<nat, Row<V>>>, made: seq<seq<Row<V>>>, oks: seq<bool>, size: nat, i: nat)
    requires AreRetries(states, made, oks) && i < |made| && |made[i]| > PAGE_LIMIT && size > PAGE_LIMIT
    requires StuckAt(states, oks, size, i)
    ensures StuckAt(states, oks, size, i + 1)
  {
    assert IsRetryAt(states, made, oks, i);
    RetryIsStuck(states[i], size, made[i], states[i + 1], oks[i]);
  }

  // ---------------------------------------------------------------- one document

  // 50 tokens with an overlap of 49, which the settings schema admits.
  const DENSE := ChunkOptions(Some(50), Some(49))

  // 1040 words are 1001 chunks under these options and 2 by default.
  lemma ChunksOfManyWords(text: string, ws: seq<string>)
    requires |ws| == 1040 && (forall w :: w in ws ==> IsWord(w)) && text == Join(ws)
    ensures |ChunkText(text, DENSE)| == PAGE_LIMIT + 1
    ensures |ChunkText(text, NO_OPTIONS)| == 2
  {
    JoinedIsTrimmed(ws);
    WordsOfJoin(ws);
    CountsOfManyWords();
  }

  lemma CountsOfManyWords()
    ensures ChunkSizeWords(DENSE) == 40 && OverlapWords(DENSE) == 39 && Count(1040, 40, 1) == 1001
    ensures ChunkSizeWords(NO_OPTIONS) == 640 && OverlapWords(NO_OPTIONS) == 80 && Count(1040, 640, 560) == 2
  {
  }

  // One document whose index of 1001 rows is complete but for its status, which failed: with
  // the same options every retry collides with the row the listing misses; with the default
  // options a retry finds its places free and leaves that row beside the two it stores.
  lemma StaleRowSurvives<V>(embed: seq<string> -> seq<V>, text: string, ws: seq<string>)
    requires |ws| == 1040 && (forall w :: w in ws ==> IsWord(w)) && text == Join(ws)
    ensures
      var stored, anew := Table(RowsOf(embed, text, DENSE)), RowsOf(embed, text, NO_OPTIONS);
      && |stored| == PAGE_LIMIT + 1
      && !NoCollision(LeftOver(stored), RowsOf(embed, text, DENSE))
      && NoCollision(LeftOver(stored), anew) && LeftOver(stored) + Table(anew) != Table(anew)
  {
    ChunksOfManyWords(text, ws);
    var was := RowsOf(embed, text, DENSE);
    TableSize(was);
    RetryOverWholeIndex(was, was);
    RetryOverWholeIndex(was, RowsOf(embed, text, NO_OPTIONS));
  }
}
