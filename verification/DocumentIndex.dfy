// Model of apps/server/src/db/document-service.ts (index, retry, delete) over the document
// row, the chunk table and the object store, with any step allowed to fail.
module DocumentIndex {
  import opened Wrappers
  import opened Chunker
  import opened ChunkRows

  // What an effect on a store can do: take place, not take place, or take place although
  // its caller is told that it did not.
  datatype Outcome = Done | FailedBefore | FailedAfter

  datatype Access = NoAccess | Viewer | Editor | Owner

  datatype Status = Pending | Indexed | Failed

  datatype Document<H> = Document(
    projectId: nat, filename: string, contentHash: H, mimeType: string, s3Key: nat, status: Status, chunkCount: nat)

  datatype ServiceError = NotFound | Forbidden | Conflict | Unavailable

  // Where a document's index comes from: the uploaded bytes, the chunk options of the last
  // attempt, and how many rows the document had when that attempt began.
  datatype Origin<B> = Origin(bytes: B, options: ChunkOptions, stale: nat)

  // Writing takes an editor or the owner; who may not read is told there is nothing.
  function EntryError(access: Access, there: bool): (error: Option<ServiceError>)
    ensures !there || access == NoAccess ==> error == Some(NotFound)
    ensures there && access == Viewer ==> error == Some(Forbidden)
    ensures there && (access == Editor || access == Owner) ==> error == None
  {
    if !there then Some(NotFound)
    else match access
      case NoAccess => Some(NotFound)
      case Viewer => Some(Forbidden)
      case Editor => None
      case Owner => None
  }

  // ---------------------------------------------------------------- the service

  // What the service is given: the parser, the embedding provider and the content hash.
  datatype Env<!B, H, V> = Env(
    parse: (B, string, string) -> string, embed: seq<string> -> seq<V>, hash: B -> H)

  // A document row with its chunk rows, which the foreign key ties to it.
  datatype Item<!B, H, V> = Item(doc: Document<H>, stored: map<nat, Row<V>>, ghost origin: Origin<B>) {

    // The rows the document's source calls for.
    ghost function Rows(env: Env<B, H, V>): seq<Row<V>> {
      RowsUnder(env, origin.options)
    }

    // The rows it calls for under these options.
    ghost function RowsUnder(env: Env<B, H, V>, options: ChunkOptions): seq<Row<V>> {
      RowsOf(env.embed, env.parse(origin.bytes, doc.mimeType, doc.filename), options)
    }
  }

  // A document indexed by its upload: its rows are exactly those of the uploaded bytes.
  ghost predicate FreshlyIndexed<B, H, V>(
    env: Env<B, H, V>, item: Item<B, H, V>, filename: string, mimeType: string, data: B)
  {
    && item.doc.status == Indexed && item.doc.filename == filename && item.doc.mimeType == mimeType
    && item.origin.bytes == data && item.stored == Table(item.Rows(env)) && item.doc.chunkCount == |item.Rows(env)|
  }

  // An indexed document's rows are those of its source, and there are no others iff the
  // attempt that indexed it began with no more rows than one listing returns.
  ghost predicate Agrees<B, H, V>(env: Env<B, H, V>, item: Item<B, H, V>) {
    item.doc.status == Indexed ==>
      var rows := item.Rows(env);
      && item.doc.chunkCount == |rows|
      && (forall i :: 0 <= i < |rows| ==> i in item.stored && item.stored[i] == rows[i])
      && (item.stored == Table(rows) <==> item.origin.stale <= PAGE_LIMIT)
  }

  // The document also carries the hash of its bytes, and its object, while it is there, is
  // those bytes.
  ghost predicate ItemOk<B, H, V>(env: Env<B, H, V>, objects: map<nat, B>, item: Item<B, H, V>) {
    && Agrees(env, item)
    && item.doc.contentHash == env.hash(item.origin.bytes)
    && (item.doc.s3Key in objects ==> objects[item.doc.s3Key] == item.origin.bytes)
  }

  predicate IsContent<H(==)>(doc: Document<H>, projectId: nat, contentHash: H) {
    doc.projectId == projectId && doc.contentHash == contentHash
  }

  ghost predicate SameContent<B, H, V>(a: Item<B, H, V>, b: Item<B, H, V>) {
    IsContent(a.doc, b.doc.projectId, b.doc.contentHash)
  }

  ghost predicate SameKey<B, H, V>(a: Item<B, H, V>, b: Item<B, H, V>) {
    a.doc.s3Key == b.doc.s3Key
  }

  // Every document is as above, the only one of its content in its project, and the only one
  // with its object.
  ghost predicate Consistent<B, H, V>(env: Env<B, H, V>, table: map<nat, Item<B, H, V>>, objects: map<nat, B>) {
    && (forall d {:trigger ItemOk(env, objects, table[d])} :: d in table ==> ItemOk(env, objects, table[d]))
    && (forall d, e {:trigger SameContent(table[d], table[e])} ::
          d in table && e in table && SameContent(table[d], table[e]) ==> d == e)
    && (forall d, e {:trigger SameKey(table[d], table[e])} ::
          d in table && e in table && SameKey(table[d], table[e]) ==> d == e)
  }

  // Ids and keys still to come are not in use.
  ghost predicate Unused<B, H, V>(table: map<nat, Item<B, H, V>>, objects: map<nat, B>, nextId: nat, nextKey: nat) {
    && (forall d :: d in table ==> d < nextId && table[d].doc.s3Key < nextKey)
    && (forall k :: k in objects ==> k < nextKey)
  }

  // Two states of the same upload.
  ghost predicate SameUpload<B, H, V>(a: Item<B, H, V>, b: Item<B, H, V>) {
    && a.doc == b.doc.(status := a.doc.status, chunkCount := a.doc.chunkCount)
    && a.origin.bytes == b.origin.bytes
  }

  // In every state the rows 0..chunkCount-1 of an indexed document are the chunks of the parse
  // of its stored bytes, each with the vector of its own number among those that the provider
  // gives for all contents in order, and there are no others iff the last listing was complete.
  lemma IndexedIsChunksOfSource<B(!new), H(!new), V(!new)>(
    env: Env<B, H, V>, table: map<nat, Item<B, H, V>>, objects: map<nat, B>, d: nat, bytes: B)
    requires Consistent(env, table, objects) && d in table && table[d].doc.status == Indexed
    requires table[d].doc.s3Key in objects && objects[table[d].doc.s3Key] == bytes
    ensures
      var doc, stored, origin := table[d].doc, table[d].stored, table[d].origin;
      var chunks := ChunkText(env.parse(bytes, doc.mimeType, doc.filename), origin.options);
      var vectors := env.embed(Contents(chunks));
      && doc.chunkCount == |chunks|
      && (forall i :: 0 <= i < doc.chunkCount ==>
            && i in stored && stored[i].content == chunks[i].content && stored[i].tokenCount == chunks[i].tokenCount
            && stored[i].embedding == if i < |vectors| then Some(vectors[i]) else None)
      && ((forall i :: i in stored ==> i < doc.chunkCount) <==> origin.stale <= PAGE_LIMIT)
  {
    assert ItemOk(env, objects, table[d]);
    var rows := table[d].Rows(env);
    if forall i :: i in table[d].stored ==> i < |rows| {
      assert table[d].stored == Table(rows);
    } else {
      var i :| i in table[d].stored && i >= |rows|;
      assert i !in Table(rows);
    }
  }

  // The provider gives every text its own vector, in order.
  ghost predicate EmbedsEach<V>(embed: seq<string> -> seq<V>, vec: string -> V) {
    forall texts :: |embed(texts)| == |texts| && forall i :: 0 <= i < |texts| ==> embed(texts)[i] == vec(texts[i])
  }

  // Then every row of an indexed document carries the vector of its own content.
  lemma RowsCarryTheirVectors<B(!new), H(!new), V(!new)>(
    env: Env<B, H, V>, table: map<nat, Item<B, H, V>>, objects: map<nat, B>, d: nat, bytes: B, vec: string -> V)
    requires Consistent(env, table, objects) && d in table && table[d].doc.status == Indexed
    requires table[d].doc.s3Key in objects && objects[table[d].doc.s3Key] == bytes
    requires EmbedsEach(env.embed, vec)
    ensures forall i :: 0 <= i < table[d].doc.chunkCount ==>
      i in table[d].stored && table[d].stored[i].embedding == Some(vec(table[d].stored[i].content))
  {
    IndexedIsChunksOfSource(env, table, objects, d, bytes);
    var chunks := ChunkText(env.parse(bytes, table[d].doc.mimeType, table[d].doc.filename), table[d].origin.options);
    var texts := Contents(chunks);
    assert |env.embed(texts)| == |texts|;
    forall i | 0 <= i < |texts| ensures env.embed(texts)[i] == vec(chunks[i].content) {
      assert texts[i] == chunks[i].content;
    }
  }

  lemma UpdateKeeps<B(!new), H(!new), V(!new)>(
    env: Env<B, H, V>, table: map<nat, Item<B, H, V>>, objects: map<nat, B>, d: nat, item: Item<B, H, V>)
    requires Consistent(env, table, objects) && d in table
    requires SameUpload(item, table[d]) && Agrees(env, item)
    ensures Consistent(env, table[d := item], objects)
  {
    var table' := table[d := item];
    assert ItemOk(env, objects, table[d]);
    forall e | e in table' ensures ItemOk(env, objects, table'[e]) {
      assert e in table && ItemOk(env, objects, table[e]);
    }
    forall e, f | e in table' && f in table' && SameContent(table'[e], table'[f]) ensures e == f {
      assert SameContent(table[e], table[f]);
    }
    forall e, f | e in table' && f in table' && SameKey(table'[e], table'[f]) ensures e == f {
      assert SameKey(table[e], table[f]);
    }
  }

  lemma InsertKeeps<B(!new), H(!new), V(!new)>(
    env: Env<B, H, V>, table: map<nat, Item<B, H, V>>, objects: map<nat, B>, d: nat, item: Item<B, H, V>)
    requires Consistent(env, table, objects) && d !in table && ItemOk(env, objects, item)
    requires forall e :: e in table ==> !IsContent(table[e].doc, item.doc.projectId, item.doc.contentHash)
    requires forall e :: e in table ==> table[e].doc.s3Key != item.doc.s3Key
    ensures Consistent(env, table[d := item], objects)
  {
    var table' := table[d := item];
    forall e | e in table' ensures ItemOk(env, objects, table'[e]) {
      assert e in table ==> ItemOk(env, objects, table[e]);
    }
    forall e, f | e in table' && f in table' && SameContent(table'[e], table'[f]) ensures e == f {
      assert e in table && f in table ==> SameContent(table[e], table[f]);
    }
    forall e, f | e in table' && f in table' && SameKey(table'[e], table'[f]) ensures e == f {
      assert e in table && f in table ==> SameKey(table[e], table[f]);
    }
  }

  lemma RemoveKeeps<B(!new), H(!new), V(!new)>(
    env: Env<B, H, V>, table: map<nat, Item<B, H, V>>, objects: map<nat, B>, d: nat)
    requires Consistent(env, table, objects)
    ensures Consistent(env, table - {d}, objects)
  {
    var table' := table - {d};
    forall e | e in table' ensures ItemOk(env, objects, table'[e]) {
      assert ItemOk(env, objects, table[e]);
    }
    forall e, f | e in table' && f in table' && SameContent(table'[e], table'[f]) ensures e == f {
      assert SameContent(table[e], table[f]);
    }
    forall e, f | e in table' && f in table' && SameKey(table'[e], table'[f]) ensures e == f {
      assert SameKey(table[e], table[f]);
    }
  }

  // Objects of no document may come, and any may go.
  lemma ObjectsKeep<B(!new), H(!new), V(!new)>(
    env: Env<B, H, V>, table: map<nat, Item<B, H, V>>, objects: map<nat, B>, objects': map<nat, B>)
    requires Consistent(env, table, objects)
    requires forall d :: d in table && table[d].doc.s3Key in objects' ==>
      table[d].doc.s3Key in objects && objects'[table[d].doc.s3Key] == objects[table[d].doc.s3Key]
    ensures Consistent(env, table, objects')
  {
    forall d | d in table ensures ItemOk(env, objects', table[d]) {
      assert ItemOk(env, objects, table[d]);
    }
  }

  // With the source's rows just inserted, the status may say so.
  lemma ReadyToIndex<B, H, V>(env: Env<B, H, V>, item: Item<B, H, V>, before: map<nat, Row<V>>, rows: seq<Row<V>>)
    requires item.doc.status == Indexed && item.doc.chunkCount == |rows| && item.stored == before + Table(rows)
    requires rows == item.Rows(env) && NoCollision(before, rows)
    requires before == map[] <==> item.origin.stale <= PAGE_LIMIT
    ensures Agrees(env, item)
  {
    SumIsExactIff(before, rows);
  }

  // The later of two updates at one key is the one that stays.
  lemma LastUpdateStays<T>(m0: map<nat, T>, m1: map<nat, T>, m2: map<nat, T>, d: nat)
    requires d in m1 && d in m2 && m1 == m0[d := m1[d]] && m2 == m1[d := m2[d]]
    ensures m2 == m0[d := m2[d]]
  {
  }

  lemma SameValueStays<T>(m: map<nat, T>, d: nat)
    requires d in m
    ensures m[d := m[d]] == m
  {
  }

  lemma WithoutTheNew<T>(m: map<nat, T>, k: nat, v: T)
    requires k !in m
    ensures m[k := v] - {k} == m && m - {k} == m
  {
  }

  // The first rows of a page are gone, and no others.
  ghost predicate Deleted<V>(before: map<nat, Row<V>>, page: seq<nat>, n: nat, now: map<nat, Row<V>>) {
    n <= |page| && now == map i | i in before && i !in page[..n] :: before[i]
  }

  ghost predicate PartlyDeleted<V>(before: map<nat, Row<V>>, page: seq<nat>, now: map<nat, Row<V>>) {
    exists n: nat :: Deleted(before, page, n, now)
  }

  lemma DeletedOneMore<V>(before: map<nat, Row<V>>, page: seq<nat>, n: nat, now: map<nat, Row<V>>)
    requires Deleted(before, page, n, now) && n < |page|
    ensures Deleted(before, page, n + 1, now - {page[n]})
  {
    assert page[..n + 1] == page[..n] + [page[n]];
  }

  lemma PageDeleted<V>(before: map<nat, Row<V>>, now: map<nat, Row<V>>)
    requires var page := Page(before.Keys, PAGE_LIMIT); Deleted(before, page, |page|, now)
    ensures now == LeftOver(before) && |Page(before.Keys, PAGE_LIMIT)| == Min(PAGE_LIMIT, |before|)
  {
    var page := Page(before.Keys, PAGE_LIMIT);
    assert page[..|page|] == page;
    PageIsComplete(before.Keys, PAGE_LIMIT);
    assert |before.Keys| == |before|;
  }

  class DocumentService<B(!new), H(==, !new), V(!new)> {
    const env: Env<B, H, V>
    // What the n-th step of the run does, and the settings it would find.
    const outcome: nat -> Outcome
    const settings: nat -> Option<ChunkOptions>

    var table: map<nat, Item<B, H, V>>
    var objects: map<nat, B>
    var nextId: nat
    var nextKey: nat
    var clock: nat

    ghost predicate Valid()
      reads this
    {
      Consistent(env, table, objects) && Unused(table, objects, nextId, nextKey)
    }

    constructor (env: Env<B, H, V>, outcome: nat -> Outcome, settings: nat -> Option<ChunkOptions>)
      ensures Valid() && table == map[] && objects == map[] && clock == 0
      ensures this.env == env && this.outcome == outcome && this.settings == settings
    {
      this.env, this.outcome, this.settings := env, outcome, settings;
      table, objects, nextId, nextKey, clock := map[], map[], 0, 0, 0;
    }

    // Every step from this one on takes place.
    ghost predicate SmoothFrom(from: nat) {
      forall k: nat {:trigger outcome(k)} :: k >= from ==> outcome(k) == Done
    }

    // The chunk options that step n of the run would find.
    ghost function OptionsAt(n: nat): ChunkOptions {
      settings(n).GetOr(NO_OPTIONS)
    }

    // Only document d may be stored differently, and it is still the same upload.
    twostate predicate OnlyChanged(d: nat)
      reads this`table
    {
      d in old(table) && d in table && table == old(table)[d := table[d]] && SameUpload(table[d], old(table)[d])
    }

    method Step() returns (o: Outcome)
      modifies this`clock
      ensures o == outcome(old(clock)) && clock == old(clock) + 1
    {
      o := outcome(clock);
      clock := clock + 1;
    }

    // A step without an effect of its own on the stores.
    method Try() returns (ok: bool)
      modifies this`clock
      ensures ok <==> outcome(old(clock)) == Done
      ensures clock == old(clock) + 1
    {
      var o := Step();
      ok := o.Done?;
    }

    // What a caller is told who is turned away by what step n finds.
    ghost function TurnedAway(n: nat, error: ServiceError): ServiceError {
      if outcome(n) == Done then error else Unavailable
    }

    // Reads the document or its project, then looks at what the caller may do.
    method Enter(access: Access, there: bool) returns (error: Option<ServiceError>)
      modifies this`clock
      ensures error == if outcome(old(clock)) == Done then EntryError(access, there) else Some(Unavailable)
      ensures clock == old(clock) + 1
    {
      var reachable := Try();
      if !reachable {
        error := Some(Unavailable);
      } else {
        error := EntryError(access, there);
      }
    }

    // The defaults when no settings can be had.
    method ResolveChunkOptions() returns (opts: ChunkOptions)
      modifies this`clock
      ensures opts == OptionsAt(old(clock)) && clock == old(clock) + 1
      ensures settings(old(clock)).Some? ==> opts == settings(old(clock)).value
      ensures settings(old(clock)).None? ==> opts == ChunkOptions(None, None)
    {
      var found := settings(clock);
      clock := clock + 1;
      opts := found.GetOr(NO_OPTIONS);
    }

    // One row after the other; the table refuses an index that is already there.
    method InsertRows(stored: map<nat, Row<V>>, rows: seq<Row<V>>) returns (now: map<nat, Row<V>>, ok: bool)
      modifies this`clock
      ensures clock >= old(clock) && PartlyInserted(stored, rows, now)
      ensures ok ==> NoCollision(stored, rows) && now == stored + Table(rows)
      ensures SmoothFrom(old(clock)) ==> Inserts(stored, rows, now, ok)
    {
      now := stored;
      NothingInserted(stored, rows);
      for i := 0 to |rows|
        invariant clock >= old(clock) && Inserted(stored, rows, i, now)
      {
        var index: nat := i;
        InsertedOneMore(stored, rows, index, now);
        var o := Step();
        if index in now || o == FailedBefore {
          return now, false;
        }
        now := now[index := rows[i]];
        if o == FailedAfter {
          return now, false;
        }
      }
      AllInserted(stored, rows, now);
      ok := true;
    }

    // Rows deleted one by one.
    method DeleteRows(stored: map<nat, Row<V>>, page: seq<nat>) returns (now: map<nat, Row<V>>, ok: bool)
      modifies this`clock
      ensures clock >= old(clock) && PartlyDeleted(stored, page, now)
      ensures ok ==> Deleted(stored, page, |page|, now) && clock == old(clock) + |page|
      ensures SmoothFrom(old(clock)) ==> ok
    {
      now := stored;
      assert Deleted(stored, page, 0, now);
      for k := 0 to |page|
        invariant clock == old(clock) + k && Deleted(stored, page, k, now)
      {
        DeletedOneMore(stored, page, k, now);
        var o := Step();
        if o == FailedBefore {
          return now, false;
        }
        now := now - {page[k]};
        if o == FailedAfter {
          return now, false;
        }
      }
      ok := true;
    }

    // Document d as it is stored from now on.
    method Put(d: nat, doc: Document<H>, stored: map<nat, Row<V>>, ghost origin: Origin<B>)
      requires Valid() && d in table
      requires SameUpload(Item(doc, stored, origin), table[d]) && Agrees(env, Item(doc, stored, origin))
      modifies this`table
      ensures Valid() && OnlyChanged(d) && table[d] == Item(doc, stored, origin)
    {
      UpdateKeeps(env, table, objects, d, Item(doc, stored, origin));
      table := table[d := Item(doc, stored, origin)];
    }

    method BulkInsert(d: nat, rows: seq<Row<V>>) returns (ok: bool)
      requires Valid() && d in table && table[d].doc.status != Indexed
      modifies this`table, this`clock
      ensures Valid() && OnlyChanged(d) && clock >= old(clock)
      ensures table[d].doc == old(table[d].doc) && table[d].origin == old(table[d].origin)
      ensures PartlyInserted(old(table[d].stored), rows, table[d].stored)
      ensures ok ==> NoCollision(old(table[d].stored), rows) && table[d].stored == old(table[d].stored) + Table(rows)
      ensures SmoothFrom(old(clock)) ==> Inserts(old(table)[d].stored, rows, table[d].stored, ok)
    {
      var now;
      now, ok := InsertRows(table[d].stored, rows);
      Put(d, table[d].doc, now, table[d].origin);
    }

    // The update of a document row: it takes place unless the step fails before that.
    method SetStatus(d: nat, status: Status, chunkCount: nat) returns (ok: bool)
      requires Valid() && d in table
      requires Agrees(env, table[d].(doc := table[d].doc.(status := status, chunkCount := chunkCount)))
      modifies this`table, this`clock
      ensures Valid() && OnlyChanged(d) && clock == old(clock) + 1
      ensures ok <==> outcome(old(clock)) == Done
      ensures table[d] ==
        if outcome(old(clock)) == FailedBefore then old(table[d])
        else old(table[d]).(doc := old(table[d].doc).(status := status, chunkCount := chunkCount))
    {
      SameValueStays(table, d);
      var o := Step();
      if o != FailedBefore {
        Put(d, table[d].doc.(status := status, chunkCount := chunkCount), table[d].stored, table[d].origin);
      }
      ok := o.Done?;
    }

    // Parse, chunk, embed, insert, mark as indexed; the settings are asked for at the given
    // step, after the parse. Any failure marks the document as failed,
    // unless that update fails as well. Without failing steps it succeeds iff the rows of the
    // source find their places free.
    method Attempt(d: nat, data: B, ghost step: nat) returns (ok: bool)
      requires Valid() && d in table && table[d].doc.status != Indexed && data == table[d].origin.bytes
      requires step == clock + 1
      requires table[d].stored == map[] <==> table[d].origin.stale <= PAGE_LIMIT
      modifies this`table, this`clock
      ensures Valid() && OnlyChanged(d) && IsAttempt(old(table[d]), table[d], ok)
      ensures SmoothFrom(old(clock)) ==>
        && Inserts(old(table)[d].stored, old(table)[d].RowsUnder(env, OptionsAt(step)), table[d].stored, ok)
        && table[d].origin.options == OptionsAt(step)
        && (!ok ==> table[d].doc.status == Failed)
    {
      ghost var start := table;
      ok := TryToIndex(d, data, step);
      if !ok {
        ghost var middle := table;
        var marked := SetStatus(d, Failed, table[d].doc.chunkCount);
        LastUpdateStays(start, middle, table, d);
      }
    }

    // What an attempt leaves behind, whatever fails.
    ghost predicate IsAttempt(before: Item<B, H, V>, after: Item<B, H, V>, ok: bool) {
      && after.origin.stale == before.origin.stale
      && PartlyInserted(before.stored, after.Rows(env), after.stored)
      && (ok ==>
            && after.doc.status == Indexed && NoCollision(before.stored, after.Rows(env))
            && after.stored == before.stored + Table(after.Rows(env)))
    }

    // What the attempt guards against failure.
    method TryToIndex(d: nat, data: B, ghost step: nat) returns (ok: bool)
      requires Valid() && d in table && table[d].doc.status != Indexed && data == table[d].origin.bytes
      requires step == clock + 1
      requires table[d].stored == map[] <==> table[d].origin.stale <= PAGE_LIMIT
      modifies this`table, this`clock
      ensures Valid() && OnlyChanged(d) && clock >= old(clock) && IsAttempt(old(table[d]), table[d], ok)
      ensures SmoothFrom(old(clock)) ==>
        && Inserts(old(table)[d].stored, old(table)[d].RowsUnder(env, OptionsAt(step)), table[d].stored, ok)
        && table[d].origin.options == OptionsAt(step)
        && (!ok ==> table[d].doc.status == old(table[d].doc.status))
    {
      ghost var start := table;
      ok := false;
      var rows := MakeRows(d, data);
      NothingInserted(table[d].stored, table[d].Rows(env));
      if rows.Some? {
        ghost var middle := table;
        ok := Store(d, rows.value);
        LastUpdateStays(start, middle, table, d);
      }
    }

    // Parsed, chunked with the settings of the moment and embedded.
    method MakeRows(d: nat, data: B) returns (rows: Option<seq<Row<V>>>)
      requires Valid() && d in table && table[d].doc.status != Indexed && data == table[d].origin.bytes
      modifies this`table, this`clock
      ensures Valid() && OnlyChanged(d) && clock >= old(clock)
      ensures
        var was := old(table)[d];
        table[d] == if outcome(old(clock)) == Done then WithOptions(was, OptionsAt(old(clock) + 1)) else was
      ensures rows.Some? ==> rows.value == table[d].Rows(env)
      ensures SmoothFrom(old(clock)) ==> rows.Some?
    {
      SameValueStays(table, d);
      rows := None;
      var parsed := Try();
      if parsed {
        var markdown := env.parse(data, table[d].doc.mimeType, table[d].doc.filename);
        var opts := ResolveChunkOptions();
        SetOptions(d, opts);
        rows := Embed(markdown, opts);
      }
    }

    ghost function WithOptions(item: Item<B, H, V>, options: ChunkOptions): Item<B, H, V> {
      item.(origin := item.origin.(options := options))
    }

    // The options that the rows to come are made with, none of which is stored yet.
    method SetOptions(d: nat, ghost options: ChunkOptions)
      requires Valid() && d in table && table[d].doc.status != Indexed
      modifies this`table
      ensures Valid() && OnlyChanged(d) && table[d] == WithOptions(old(table)[d], options)
    {
      Put(d, table[d].doc, table[d].stored, table[d].origin.(options := options));
    }

    // The provider is asked only if there are chunks.
    method Embed(markdown: string, opts: ChunkOptions) returns (rows: Option<seq<Row<V>>>)
      modifies this`clock
      ensures clock >= old(clock) && (rows.Some? ==> rows.value == RowsOf(env.embed, markdown, opts))
      ensures SmoothFrom(old(clock)) ==> rows.Some?
    {
      var made := RowsOf(env.embed, markdown, opts);
      var embedded := true;
      if made != [] {
        embedded := Try();
      }
      rows := if embedded then Some(made) else None;
    }

    // The status says indexed only after all rows are in.
    method Store(d: nat, rows: seq<Row<V>>) returns (ok: bool)
      requires Valid() && d in table && table[d].doc.status != Indexed && rows == table[d].Rows(env)
      requires table[d].stored == map[] <==> table[d].origin.stale <= PAGE_LIMIT
      modifies this`table, this`clock
      ensures Valid() && OnlyChanged(d) && clock >= old(clock) && table[d].origin == old(table[d].origin)
      ensures PartlyInserted(old(table[d].stored), rows, table[d].stored)
      ensures ok ==>
        && table[d].doc.status == Indexed && NoCollision(old(table[d].stored), rows)
        && table[d].stored == old(table[d].stored) + Table(rows)
      ensures SmoothFrom(old(clock)) ==>
        && Inserts(old(table)[d].stored, rows, table[d].stored, ok)
        && (!ok ==> table[d].doc.status == old(table[d].doc.status))
    {
      ghost var start := table;
      ok := BulkInsert(d, rows);
      if ok {
        ghost var middle := table;
        ReadyToIndex(
          env, table[d].(doc := table[d].doc.(status := Indexed, chunkCount := |rows|)), start[d].stored, rows);
        ok := SetStatus(d, Indexed, |rows|);
        LastUpdateStays(start, middle, table, d);
      }
    }

    method ByContentHash(projectId: nat, contentHash: H) returns (found: Option<nat>)
      ensures found.Some? ==>
        && found.value in table && IsContent(table[found.value].doc, projectId, contentHash)
        && table[found.value].doc.projectId == projectId && table[found.value].doc.contentHash == contentHash
      ensures found.None? ==> forall d :: d in table ==> !IsContent(table[d].doc, projectId, contentHash)
    {
      if d :| d in table && IsContent(table[d].doc, projectId, contentHash) {
        found := Some(d);
      } else {
        found := None;
      }
    }

    // Upload and index. A document of the project with the same hash is returned as it is;
    // otherwise at most one new document appears, under the next id, and one new object.
    method Index(access: Access, projectId: nat, filename: string, mimeType: string, data: B)
      returns (res: Result<nat, ServiceError>)
      requires Valid()
      modifies this
      ensures Valid() && OnlyAdded()
      ensures access == NoAccess || access == Viewer ==>
        StoresKept() && res == Err(TurnedAway(old(clock), if access == Viewer then Forbidden else NotFound))
      ensures access == Editor || access == Owner ==> res.Ok? || res == Err(Unavailable)
      ensures forall d ::
        && d in old(table) && old(table)[d].doc.projectId == projectId
        && old(table)[d].doc.contentHash == env.hash(data) ==>
          StoresKept() && (res.Ok? ==> res.value == d)
      ensures res.Ok? ==>
        && res.value in table && table[res.value].doc.projectId == projectId
        && table[res.value].doc.contentHash == env.hash(data)
      ensures res.Ok? && res.value !in old(table) ==>
        && FreshlyIndexed(env, table[res.value], filename, mimeType, data)
        && table[res.value].doc.s3Key in objects && objects[table[res.value].doc.s3Key] == data
      ensures SmoothFrom(old(clock)) && (access == Editor || access == Owner) ==> res.Ok?
    {
      var refusal := Enter(access, true);
      if refusal.Some? {
        return Err(refusal.value);
      }
      var existing := ByContentHash(projectId, env.hash(data));
      if existing.Some? {
        OneOfItsContent(existing.value, projectId, env.hash(data));
        return Ok(existing.value);
      }
      res := Upload(Document(projectId, filename, env.hash(data), mimeType, nextKey, Pending, 0), data);
    }

    twostate predicate StoresKept()
      reads this
    {
      table == old(table) && objects == old(objects)
    }

    // What was there is there, rows and objects; at most the next id and the next key are new.
    twostate predicate OnlyAdded()
      reads this
    {
      RowsOnlyAdded() && old(nextKey) !in old(objects) && objects - {old(nextKey)} == old(objects)
    }

    twostate predicate RowsOnlyAdded()
      reads this
    {
      old(nextId) !in old(table) && table - {old(nextId)} == old(table)
    }

    lemma OneOfItsContent(d: nat, projectId: nat, contentHash: H)
      requires Valid() && d in table && IsContent(table[d].doc, projectId, contentHash)
      ensures forall e :: e in table && IsContent(table[e].doc, projectId, contentHash) ==> e == d
    {
      forall e | e in table && IsContent(table[e].doc, projectId, contentHash) ensures e == d {
        assert SameContent(table[e], table[d]);
      }
    }

    // Put the object, insert the row, index it. An object or a pending row may stay behind.
    method Upload(doc: Document<H>, data: B) returns (res: Result<nat, ServiceError>)
      requires Valid() && doc.status == Pending && doc.contentHash == env.hash(data) && doc.s3Key == nextKey
      requires forall d :: d in table ==> !IsContent(table[d].doc, doc.projectId, doc.contentHash)
      modifies this
      ensures Valid() && OnlyAdded()
      ensures res.Err? ==> res.error == Unavailable
      ensures res.Ok? ==>
        && res.value == old(nextId) && res.value in table
        && IsContent(table[res.value].doc, doc.projectId, doc.contentHash)
        && FreshlyIndexed(env, table[res.value], doc.filename, doc.mimeType, data)
        && table[res.value].doc.s3Key in objects && objects[table[res.value].doc.s3Key] == data
      ensures SmoothFrom(old(clock)) ==> res.Ok?
    {
      res := Err(Unavailable);
      var put := PutObject(data);
      if put {
        var id := nextId;
        var ok := InsertAndIndex(doc, data);
        res := if ok then Ok(id) else Err(Unavailable);
      }
    }

    // The row of a stored object, and its index.
    method InsertAndIndex(doc: Document<H>, data: B) returns (ok: bool)
      requires Valid() && doc.status == Pending && doc.contentHash == env.hash(data)
      requires doc.s3Key in objects && objects[doc.s3Key] == data && doc.s3Key < nextKey
      requires forall d :: d in table ==> table[d].doc.s3Key != doc.s3Key
      requires forall d :: d in table ==> !IsContent(table[d].doc, doc.projectId, doc.contentHash)
      modifies this`table, this`nextId, this`clock
      ensures Valid() && RowsOnlyAdded()
      ensures ok ==>
        && old(nextId) in table && IsContent(table[old(nextId)].doc, doc.projectId, doc.contentHash)
        && FreshlyIndexed(env, table[old(nextId)], doc.filename, doc.mimeType, data)
        && table[old(nextId)].doc.s3Key == doc.s3Key
      ensures SmoothFrom(old(clock)) ==> ok
    {
      ghost var item := Item(doc, map[], Origin(data, NO_OPTIONS, 0));
      ghost var start := table;
      WithoutTheNew(table, nextId, item);
      ok := false;
      var inserted := InsertDocument(doc, data);
      if inserted.Some? {
        ok := IndexNew(inserted.value, doc, data);
        WithoutTheNew(start, inserted.value, table[inserted.value]);
        LastUpdateStays(start, start[inserted.value := item], table, inserted.value);
      }
    }

    // The first attempt, which finds no rows in its way.
    method IndexNew(d: nat, doc: Document<H>, data: B) returns (ok: bool)
      requires Valid() && d in table && doc.status == Pending
      requires table[d] == Item(doc, map[], Origin(data, NO_OPTIONS, 0))
      modifies this`table, this`clock
      ensures Valid() && OnlyChanged(d)
      ensures ok ==> FreshlyIndexed(env, table[d], doc.filename, doc.mimeType, data)
      ensures SmoothFrom(old(clock)) ==> ok
    {
      NothingCollides(table[d].RowsUnder(env, OptionsAt(clock + 1)));
      ok := Attempt(d, data, clock + 1);
      assert ItemOk(env, objects, table[d]);
      NothingCollides(table[d].Rows(env));
    }

    // Under a fresh key.
    method PutObject(data: B) returns (ok: bool)
      requires Valid()
      modifies this`objects, this`nextKey, this`clock
      ensures Valid() && clock == old(clock) + 1
      ensures old(nextKey) !in old(objects) && objects - {old(nextKey)} == old(objects)
      ensures ok <==> outcome(old(clock)) == Done
      ensures ok ==> old(nextKey) in objects && objects[old(nextKey)] == data && old(nextKey) < nextKey
    {
      WithoutTheNew(objects, nextKey, data);
      var o := Step();
      if o != FailedBefore {
        ObjectsKeep(env, table, objects, objects[nextKey := data]);
        objects := objects[nextKey := data];
        nextKey := nextKey + 1;
      }
      ok := o.Done?;
    }

    method InsertDocument(doc: Document<H>, ghost data: B) returns (id: Option<nat>)
      requires Valid() && doc.status == Pending && doc.contentHash == env.hash(data)
      requires doc.s3Key in objects && objects[doc.s3Key] == data && doc.s3Key < nextKey
      requires forall d :: d in table ==> table[d].doc.s3Key != doc.s3Key
      requires forall d :: d in table ==> !IsContent(table[d].doc, doc.projectId, doc.contentHash)
      modifies this`table, this`nextId, this`clock
      ensures Valid() && old(nextId) !in old(table) && clock == old(clock) + 1
      ensures table ==
        if outcome(old(clock)) == FailedBefore then old(table)
        else old(table)[old(nextId) := Item(doc, map[], Origin(data, NO_OPTIONS, 0))]
      ensures id == if outcome(old(clock)) == Done then Some(old(nextId)) else None
    {
      var o := Step();
      id := None;
      if o != FailedBefore {
        InsertKeeps(env, table, objects, nextId, Item(doc, map[], Origin(data, NO_OPTIONS, 0)));
        table := table[nextId := Item(doc, map[], Origin(data, NO_OPTIONS, 0))];
        id := if o == Done then Some(nextId) else None;
        nextId := nextId + 1;
      }
    }

    // Only a failed document is indexed again, from the bytes in the object store. Without
    // failing steps that succeeds iff CanRetry.
    method Retry(access: Access, d: nat) returns (res: Result<nat, ServiceError>)
      requires Valid()
      modifies this`table, this`clock
      ensures Valid()
      ensures !old(MayRetry(access, d)) ==>
        table == old(table) && res == Err(TurnedAway(old(clock),
          if d !in table || access == NoAccess then NotFound else if access == Viewer then Forbidden else Conflict))
      ensures old(MayRetry(access, d)) ==>
        && OnlyChanged(d) && IsRetry(old(table)[d], table[d], res.Ok?)
        && (res == Ok(d) || res == Err(Unavailable))
      ensures SmoothFrom(old(clock)) && old(MayRetry(access, d)) ==>
        var step := old(clock) + StepsToSettings(old(table)[d]);
        && (res.Ok? <==> CanRetry(old(table)[d], objects, step))
        && IndexesAgain(Cleared(old(table)[d]), table[d], objects, step, res.Ok?)
    {
      ghost var step := if d in table then clock + StepsToSettings(table[d]) else clock;
      var refusal := EnterRetry(access, d);
      if refusal.None? {
        var ok := RetryFailed(d, step);
        res := if ok then Ok(d) else Err(Unavailable);
      } else {
        res := Err(refusal.value);
        if d in table {
          SameValueStays(table, d);
        }
      }
    }

    method EnterRetry(access: Access, d: nat) returns (error: Option<ServiceError>)
      modifies this`clock
      ensures clock == old(clock) + 1
      ensures
        if MayRetry(access, d) then error == if outcome(old(clock)) == Done then None else Some(Unavailable)
        else error == Some(TurnedAway(old(clock),
          if d !in table || access == NoAccess then NotFound else if access == Viewer then Forbidden else Conflict))
    {
      error := Enter(access, d in table);
      if error.None? && table[d].doc.status != Failed {
        error := Some(Conflict);
      }
    }

    ghost predicate MayRetry(access: Access, d: nat)
      reads this`table
    {
      d in table && (access == Editor || access == Owner) && table[d].doc.status == Failed
    }

    // The steps a retry takes before it asks for its settings: the document, the listing, the
    // deletions, the object and the parse.
    ghost function StepsToSettings(item: Item<B, H, V>): nat {
      4 + Min(PAGE_LIMIT, |item.stored|)
    }

    // The object is there, and the rows the document calls for under the settings of this
    // step find their places free.
    ghost predicate CanIndex(item: Item<B, H, V>, there: map<nat, B>, step: nat) {
      && item.doc.s3Key in there
      && NoCollision(item.stored, item.RowsUnder(env, OptionsAt(step)))
    }

    // The same with only the rows that the listing misses in the way.
    ghost predicate CanRetry(item: Item<B, H, V>, there: map<nat, B>, step: nat) {
      CanIndex(Cleared(item), there, step)
    }

    ghost function Cleared(item: Item<B, H, V>): Item<B, H, V> {
      item.(stored := LeftOver(item.stored))
    }

    // What indexing a failed document again comes to when every step takes place.
    ghost predicate IndexesAgain(
      before: Item<B, H, V>, after: Item<B, H, V>, there: map<nat, B>, step: nat, ok: bool)
    {
      && (ok <==> CanIndex(before, there, step))
      && (!ok ==> after.doc.status == Failed)
      && (before.doc.s3Key in there ==>
            Inserts(before.stored, before.RowsUnder(env, OptionsAt(step)), after.stored, ok))
    }

    // What a retry leaves behind: the rows its listing missed and those of the source.
    ghost predicate IsRetry(before: Item<B, H, V>, after: Item<B, H, V>, ok: bool) {
      ok ==>
        && after.doc.status == Indexed && NoCollision(LeftOver(before.stored), after.Rows(env))
        && after.stored == LeftOver(before.stored) + Table(after.Rows(env))
        && (after.stored == Table(after.Rows(env)) <==> |before.stored| <= PAGE_LIMIT)
    }

    ghost predicate IsDeletion(before: Item<B, H, V>, after: Item<B, H, V>, ok: bool) {
      && after == before.(
           stored := after.stored, origin := before.origin.(stale := |before.stored|))
      && PartlyDeleted(before.stored, Page(before.stored.Keys, PAGE_LIMIT), after.stored)
      && (ok ==> after.stored == LeftOver(before.stored))
    }

    lemma AttemptAfterDeletion(before: Item<B, H, V>, middle: Item<B, H, V>, after: Item<B, H, V>, ok: bool)
      requires IsDeletion(before, middle, true) && IsAttempt(middle, after, ok)
      ensures IsRetry(before, after, ok)
    {
      if ok {
        RetryIsExactIff(before.stored, after.Rows(env));
      }
    }

    lemma IndexAfterDeletion(
      before: Item<B, H, V>, middle: Item<B, H, V>, after: Item<B, H, V>, there: map<nat, B>, step: nat, ok: bool)
      requires IsDeletion(before, middle, true) && IndexesAgain(middle, after, there, step, ok)
      ensures IndexesAgain(Cleared(before), after, there, step, ok)
    {
    }

    // The retry of a document that is there, is failed, and whose caller may.
    method RetryFailed(d: nat, ghost step: nat) returns (ok: bool)
      requires Valid() && d in table && table[d].doc.status == Failed
      requires step == clock + StepsToSettings(table[d]) - 1
      modifies this`table, this`clock
      ensures Valid() && OnlyChanged(d) && IsRetry(old(table)[d], table[d], ok)
      ensures SmoothFrom(old(clock)) ==> IndexesAgain(Cleared(old(table)[d]), table[d], objects, step, ok)
    {
      ghost var start := table;
      ok := DeleteStale(d);
      if ok {
        ghost var middle := table;
        ok := IndexAgain(d, step);
        if SmoothFrom(old(clock)) {
          IndexAfterDeletion(start[d], middle[d], table[d], objects, step, ok);
        }
        AttemptAfterDeletion(start[d], middle[d], table[d], ok);
        LastUpdateStays(start, middle, table, d);
      }
    }

    // Another attempt, on the bytes that are stored.
    method IndexAgain(d: nat, ghost step: nat) returns (ok: bool)
      requires Valid() && d in table && table[d].doc.status == Failed && step == clock + 2
      requires table[d].stored == map[] <==> table[d].origin.stale <= PAGE_LIMIT
      modifies this`table, this`clock
      ensures Valid() && OnlyChanged(d) && IsAttempt(old(table)[d], table[d], ok)
      ensures SmoothFrom(old(clock)) ==> IndexesAgain(old(table)[d], table[d], objects, step, ok)
    {
      NothingInserted(table[d].stored, table[d].Rows(env));
      SameValueStays(table, d);
      ok := Try();
      if ok {
        ok := table[d].doc.s3Key in objects;
        if ok {
          assert ItemOk(env, objects, table[d]);
          ok := Attempt(d, objects[table[d].doc.s3Key], step);
        }
      }
    }

    // The listed rows of a failed document are deleted one by one.
    method DeleteStale(d: nat) returns (ok: bool)
      requires Valid() && d in table && table[d].doc.status == Failed
      modifies this`table, this`clock
      ensures Valid() && OnlyChanged(d) && clock >= old(clock) && IsDeletion(old(table)[d], table[d], ok)
      ensures ok ==>
        && (table[d].stored == map[] <==> table[d].origin.stale <= PAGE_LIMIT)
        && clock == old(clock) + StepsToSettings(old(table)[d]) - 3
      ensures SmoothFrom(old(clock)) ==> ok
    {
      var now;
      now, ok := DeleteListed(table[d].stored);
      Put(d, table[d].doc, now, table[d].origin.(stale := |table[d].stored|));
    }

    method DeleteListed(stored: map<nat, Row<V>>) returns (now: map<nat, Row<V>>, ok: bool)
      modifies this`clock
      ensures clock >= old(clock) && PartlyDeleted(stored, Page(stored.Keys, PAGE_LIMIT), now)
      ensures ok ==>
        && now == LeftOver(stored) && (now == map[] <==> |stored| <= PAGE_LIMIT)
        && clock == old(clock) + 1 + Min(PAGE_LIMIT, |stored|)
      ensures SmoothFrom(old(clock)) ==> ok
    {
      now := stored;
      assert Deleted(stored, Page(stored.Keys, PAGE_LIMIT), 0, now);
      ok := Try();
      if ok {
        now, ok := DeleteRows(stored, Page(stored.Keys, PAGE_LIMIT));
        if ok {
          PageDeleted(stored, now);
          LeftOverIsEmptyIff(stored);
        }
      }
    }

    // The object first, then the row, with its chunks by the foreign key. No other document
    // loses its row, its chunks or its object.
    method Delete(access: Access, d: nat) returns (error: Option<ServiceError>)
      requires Valid()
      modifies this`table, this`objects, this`clock
      ensures Valid() && (table == old(table) || table == old(table) - {d})
      ensures forall e :: e in old(table) && e != d ==> ObjectKept(old(table)[e].doc.s3Key)
      ensures d !in old(table) || access == NoAccess ==>
        StoresKept() && error == Some(TurnedAway(old(clock), NotFound))
      ensures d in old(table) && access == Viewer ==>
        StoresKept() && error == Some(TurnedAway(old(clock), Forbidden))
      ensures d in old(table) && (access == Editor || access == Owner) ==> error.None? || error == Some(Unavailable)
      ensures error.None? ==> d in old(table) && d !in table && old(table)[d].doc.s3Key !in objects
      ensures SmoothFrom(old(clock)) && d in old(table) && (access == Editor || access == Owner) ==> error.None?
    {
      error := Enter(access, d in table);
      if error.Some? {
        return;
      }
      var removal := RemoveObject(d);
      if removal != Done {
        return Some(Unavailable);
      }
      var deletion := Step();
      if deletion != FailedBefore {
        RemoveKeeps(env, table, objects, d);
        table := table - {d};
      }
      error := if deletion == Done then None else Some(Unavailable);
    }

    // The object under this key is as it was, there or not.
    twostate predicate ObjectKept(key: nat)
      reads this
    {
      if key in old(objects) then key in objects && objects[key] == old(objects)[key] else key !in objects
    }

    method RemoveObject(d: nat) returns (o: Outcome)
      requires Valid() && d in table
      modifies this`objects, this`clock
      ensures Valid() && o == outcome(old(clock)) && clock == old(clock) + 1
      ensures o == Done ==> table[d].doc.s3Key !in objects
      ensures forall e :: e in table && e != d ==> ObjectKept(table[e].doc.s3Key)
    {
      o := Step();
      if o != FailedBefore {
        ObjectsKeep(env, table, objects, objects - {table[d].doc.s3Key});
        objects := objects - {table[d].doc.s3Key};
        forall e | e in table && e != d ensures table[e].doc.s3Key != table[d].doc.s3Key {
          assert !SameKey(table[e], table[d]);
        }
      }
    }
  }
}
