/**
 * The relational store of services/BookService.js as values: the four
 * tables, the rows the service writes into them, and what each operation
 * of the service does to them. The class that performs the operations
 * step by step is in book_service.dfy and is proved against these
 * functions.
 */
module BookStore {
  import opened Wrappers
  import opened JsValue
  import opened Models

  /** Books are stored in chunks of this many parsed records. */
  const ChunkSize: nat := 1000

  /** What `published_at` receives for a book without a date. */
  const ZeroDateTime: string := "0000-00-00 00:00:00"

  /** What the licenses of a book are joined with in the `license` column. */
  const LicenseSeparator: string := "; "

  /** The prefix the run puts before the message of a storage error. */
  const FailurePrefix: string := "unable to store book #"

  /** A `published_at` cell: a date, or the zero date-time text. */
  datatype DateCell = DateValue(date: Date) | DateText(text: string)

  datatype AgentRow = AgentRow(id: nat, name: string, rdfUri: string)
  datatype BookRow = BookRow(id: nat, title: Node, publisher: Node, publishedAt: DateCell, language: Node, license: string)
  datatype SubjectRow = SubjectRow(bookId: nat, subject: Node)

  /** A `book_creator` row; `agent_id` is `None` when the service passes `undefined`. */
  datatype CreatorRow = CreatorRow(bookId: nat, agentId: Option<nat>)

  /**
   * The contents of the database, with the next value the auto-increment
   * counter of `agent` hands out.
   */
  datatype Tables = Tables(
    book: seq<BookRow>,
    bookSubject: seq<SubjectRow>,
    bookCreator: seq<CreatorRow>,
    agent: seq<AgentRow>,
    autoIncrement: nat)

  /** The only statement of the service that the database can refuse: a second `book` row with one id. */
  datatype StoreError = DuplicateBook(id: nat)

  /** A storage error as the run re-throws it, with the id of the book it was storing. */
  datatype RunError = UnableToStoreBook(bookId: nat, cause: StoreError)

  /** The message of the re-thrown error, given the message of its cause. */
  function FailureMessage(bookId: nat, causeMessage: string): string {
    FailurePrefix + NatToString(bookId) + ": " + causeMessage
  }

  /** What the record generator yields: a parsed book, or the error its document raised. */
  datatype SourceItem = Parsed(book: RdfBook) | Unparsed(bookId: nat, error: string)

  function BookIds(rows: seq<BookRow>): set<nat> {
    set k | 0 <= k < |rows| :: rows[k].id
  }

  function AgentIds(rows: seq<AgentRow>): set<nat> {
    set k | 0 <= k < |rows| :: rows[k].id
  }

  /**
   * The integrity the schema enforces and the service keeps: book ids are
   * unique, agent ids are handed out in ascending order below the counter,
   * and every join row refers to a stored book and, when it names one, a
   * stored agent.
   */
  predicate Valid(t: Tables) {
    && t.autoIncrement >= 1
    && (forall i, j :: 0 <= i < j < |t.book| ==> t.book[i].id != t.book[j].id)
    && (forall i, j :: 0 <= i < j < |t.agent| ==> t.agent[i].id < t.agent[j].id)
    && (forall k :: 0 <= k < |t.agent| ==> 1 <= t.agent[k].id < t.autoIncrement)
    && (forall k :: 0 <= k < |t.bookSubject| ==> t.bookSubject[k].bookId in BookIds(t.book))
    && (forall k :: 0 <= k < |t.bookCreator| ==> t.bookCreator[k].bookId in BookIds(t.book))
    && (forall k :: 0 <= k < |t.bookCreator| && t.bookCreator[k].agentId.Some? ==>
          t.bookCreator[k].agentId.value in AgentIds(t.agent))
  }

  /** A cache of agent ids by URI names only stored agents. */
  predicate CacheValid(t: Tables, cache: map<string, nat>) {
    forall u :: u in cache ==> cache[u] in AgentIds(t.agent)
  }

  /** `cleanAll`: every row deleted; `DELETE` leaves the counter where it was. */
  function Cleaned(t: Tables): Tables {
    Tables([], [], [], [], t.autoIncrement)
  }

  /**
   * `getAgentsIdsByUris`: the stored agents whose URI is asked for, by
   * URI; when one URI is stored twice, the row read last wins.
   */
  function AgentIdsByUris(rows: seq<AgentRow>, uris: seq<string>): map<string, nat> {
    if rows == [] then map[]
    else
      var init := AgentIdsByUris(rows[..|rows| - 1], uris);
      var row := rows[|rows| - 1];
      if row.rdfUri in uris then init[row.rdfUri := row.id] else init
  }

  /** The keys are the asked-for URIs that some stored agent has. */
  lemma {:induction false} AgentIdsByUrisKeys(rows: seq<AgentRow>, uris: seq<string>)
    ensures forall u :: u in AgentIdsByUris(rows, uris) <==> u in uris && exists k :: 0 <= k < |rows| && rows[k].rdfUri == u
  {
    if rows != [] {
      var init := rows[..|rows| - 1];
      AgentIdsByUrisKeys(init, uris);
      assert forall k :: 0 <= k < |init| ==> init[k] == rows[k];
      forall u | u in uris && (exists k :: 0 <= k < |rows| && rows[k].rdfUri == u)
        ensures u in AgentIdsByUris(rows, uris)
      {
        var k :| 0 <= k < |rows| && rows[k].rdfUri == u;
        if k < |init| {
          assert init[k].rdfUri == u;
        }
      }
    }
  }

  /** `k` is the last of `rows` with URI `u`. */
  predicate LastWithUri(rows: seq<AgentRow>, u: string, k: int) {
    0 <= k < |rows| && rows[k].rdfUri == u && forall j :: k < j < |rows| ==> rows[j].rdfUri != u
  }

  /** Each value is the id of the last stored row with that URI. */
  lemma {:induction false} AgentIdsByUrisLastRow(rows: seq<AgentRow>, uris: seq<string>)
    ensures forall u :: u in AgentIdsByUris(rows, uris) ==>
      exists k :: LastWithUri(rows, u, k) && AgentIdsByUris(rows, uris)[u] == rows[k].id
  {
    if rows != [] {
      var last := |rows| - 1;
      var init := rows[..last];
      var r0 := AgentIdsByUris(init, uris);
      var r := AgentIdsByUris(rows, uris);
      AgentIdsByUrisLastRow(init, uris);
      AgentIdsByUrisKeys(rows, uris);
      forall u | u in r
        ensures exists k :: LastWithUri(rows, u, k) && r[u] == rows[k].id
      {
        if rows[last].rdfUri == u {
          assert LastWithUri(rows, u, last) && r[u] == rows[last].id;
        } else {
          assert u in r0 && r[u] == r0[u];
          var k :| LastWithUri(init, u, k) && r0[u] == init[k].id;
          assert rows[k] == init[k];
          forall j | k < j < |rows| ensures rows[j].rdfUri != u {
            if j < last {
              assert rows[j] == init[j];
            }
          }
          assert LastWithUri(rows, u, k);
        }
      }
    }
  }

  /** `rdfBook.creators || []` */
  function Creators(book: RdfBook): seq<Agent> {
    if book.creators.Some? then book.creators.value else []
  }

  /** The URIs of some agents, in order. */
  function Uris(agents: seq<Agent>): seq<string> {
    seq(|agents|, k requires 0 <= k < |agents| => agents[k].rdfUri)
  }

  /** `map.get(uri)`: the cached id, or `undefined`. */
  function Lookup(cache: map<string, nat>, uri: string): Option<nat> {
    if uri in cache then Some(cache[uri]) else None
  }

  /** The truthiness of a looked-up id: `undefined` and `0` are falsy. */
  predicate Known(id: Option<nat>) {
    id.Some? && id.value != 0
  }

  /**
   * What the creator loop of `storeBookWithRelations` builds: the
   * insertion-ordered set of ids it later joins to the book, the agent rows
   * it inserts, and the map of new ids by URI.
   */
  datatype Resolution = Resolution(ids: seq<Option<nat>>, inserted: seq<AgentRow>, added: map<string, nat>)

  /**
   * The creator loop over `creators`, ids being handed out from `next`.
   * An agent whose looked-up id is falsy is inserted, and its new id goes
   * into `added`; but what joins the set is the looked-up value in every
   * case, since the new id is assigned to a second, inner `agentId`.
   */
  function Resolve(creators: seq<Agent>, cache: map<string, nat>, next: nat): Resolution {
    if creators == [] then Resolution([], [], map[])
    else
      var r0 := Resolve(creators[..|creators| - 1], cache, next);
      var agent := creators[|creators| - 1];
      var id := Lookup(cache, agent.rdfUri);
      var ids := if id in r0.ids then r0.ids else r0.ids + [id];
      if Known(id) then Resolution(ids, r0.inserted, r0.added)
      else
        var newId := next + |r0.inserted|;
        Resolution(ids, r0.inserted + [AgentRow(newId, agent.name, agent.rdfUri)], r0.added[agent.rdfUri := newId])
  }

  /** The creators whose looked-up id is falsy, in order: those the loop inserts as agents. */
  function UnknownCreators(creators: seq<Agent>, cache: map<string, nat>): seq<Agent> {
    if creators == [] then []
    else
      var agent := creators[|creators| - 1];
      UnknownCreators(creators[..|creators| - 1], cache) + if Known(Lookup(cache, agent.rdfUri)) then [] else [agent]
  }

  /** The ids joined to the book are distinct. */
  lemma {:induction false} ResolveIdsDistinct(creators: seq<Agent>, cache: map<string, nat>, next: nat)
    ensures forall i, j :: 0 <= i < j < |Resolve(creators, cache, next).ids| ==>
      Resolve(creators, cache, next).ids[i] != Resolve(creators, cache, next).ids[j]
  {
    if creators != [] {
      ResolveIdsDistinct(creators[..|creators| - 1], cache, next);
    }
  }

  /** The ids joined to the book are the looked-up values of the creators. */
  lemma {:induction false} ResolveIdsLookedUp(creators: seq<Agent>, cache: map<string, nat>, next: nat)
    ensures forall x :: x in Resolve(creators, cache, next).ids <==>
      exists k :: 0 <= k < |creators| && x == Lookup(cache, creators[k].rdfUri)
  {
    if creators != [] {
      var init := creators[..|creators| - 1];
      var r0 := Resolve(init, cache, next);
      var r := Resolve(creators, cache, next);
      var id := Lookup(cache, creators[|creators| - 1].rdfUri);
      ResolveIdsLookedUp(init, cache, next);
      assert r.ids == if id in r0.ids then r0.ids else r0.ids + [id];
      forall x ensures x in r.ids <==> exists k :: 0 <= k < |creators| && x == Lookup(cache, creators[k].rdfUri) {
        if x in r0.ids {
          var k :| 0 <= k < |init| && x == Lookup(cache, init[k].rdfUri);
          assert init[k] == creators[k];
        }
        if exists k :: 0 <= k < |creators| && x == Lookup(cache, creators[k].rdfUri) {
          var k :| 0 <= k < |creators| && x == Lookup(cache, creators[k].rdfUri);
          if k < |init| {
            assert init[k] == creators[k];
            assert x == Lookup(cache, init[k].rdfUri);
          }
        }
      }
    }
  }

  /**
   * One agent row is inserted per creator whose looked-up id is falsy, in
   * order, with consecutive ids from `next`; the new ids are recorded by URI.
   */
  lemma {:induction false} ResolveInserted(creators: seq<Agent>, cache: map<string, nat>, next: nat)
    ensures var r := Resolve(creators, cache, next);
      var unknown := UnknownCreators(creators, cache);
      && |r.inserted| == |unknown| <= |creators|
      && (forall k :: 0 <= k < |r.inserted| ==> r.inserted[k] == AgentRow(next + k, unknown[k].name, unknown[k].rdfUri))
    ensures var r := Resolve(creators, cache, next);
      && (forall u :: u in r.added <==> exists k :: 0 <= k < |creators| && creators[k].rdfUri == u && !Known(Lookup(cache, u)))
      && (forall u :: u in r.added ==> next <= r.added[u] < next + |r.inserted|)
  {
    ResolveRows(creators, cache, next);
    ResolveAdded(creators, cache, next);
  }

  /** The inserted rows are numbered from `next`, and `added` maps each unknown creator's URI to one of them. */
  lemma {:induction false} ResolveAdded(creators: seq<Agent>, cache: map<string, nat>, next: nat)
    ensures var r := Resolve(creators, cache, next);
      && |r.inserted| <= |creators|
      && (forall k :: 0 <= k < |r.inserted| ==> r.inserted[k].id == next + k)
      && (forall u :: u in r.added <==> exists k :: 0 <= k < |creators| && creators[k].rdfUri == u && !Known(Lookup(cache, u)))
      && (forall u :: u in r.added ==> next <= r.added[u] < next + |r.inserted|)
  {
    if creators != [] {
      var init := creators[..|creators| - 1];
      ResolveAdded(init, cache, next);
      assert forall k :: 0 <= k < |init| ==> init[k] == creators[k];
    }
  }

  /** The inserted rows are the unknown creators, in order, numbered from `next`. */
  lemma {:induction false} ResolveRows(creators: seq<Agent>, cache: map<string, nat>, next: nat)
    ensures var r := Resolve(creators, cache, next);
      var unknown := UnknownCreators(creators, cache);
      && |r.inserted| == |unknown| <= |creators|
      && (forall k :: 0 <= k < |r.inserted| ==> r.inserted[k] == AgentRow(next + k, unknown[k].name, unknown[k].rdfUri))
  {
    if creators != [] {
      ResolveRows(creators[..|creators| - 1], cache, next);
    }
  }

  /** The `book` row of a record. */
  function BookRowOf(book: RdfBook): BookRow {
    BookRow(
      book.id,
      book.title,
      book.publisher,
      if book.publishedAt.Some? then DateValue(book.publishedAt.value) else DateText(ZeroDateTime),
      book.language,
      Join(book.licenses, LicenseSeparator))
  }

  function SubjectRows(bookId: nat, subjects: seq<Node>): seq<SubjectRow> {
    seq(|subjects|, k requires 0 <= k < |subjects| => SubjectRow(bookId, subjects[k]))
  }

  function CreatorRows(bookId: nat, ids: seq<Option<nat>>): seq<CreatorRow> {
    seq(|ids|, k requires 0 <= k < |ids| => CreatorRow(bookId, ids[k]))
  }

  /** The tables after a book, with the cache and the error a storage step yields. */
  datatype Stored = Stored(tables: Tables, cache: map<string, nat>, failure: Option<StoreError>)

  /**
   * The transaction of `storeBookWithRelations` with a given cache: the
   * creators' agents, the book row, its subject rows and its creator rows
   * commit together, after which the new ids join the cache; a duplicate
   * book id rolls all of it back, except the auto-increment values the
   * agent inserts used up.
   */
  function Persist(t: Tables, book: RdfBook, cache: map<string, nat>): Stored {
    var res := Resolve(Creators(book), cache, t.autoIncrement);
    var next := t.autoIncrement + |res.inserted|;
    if book.id in BookIds(t.book) then
      Stored(t.(autoIncrement := next), cache, Some(DuplicateBook(book.id)))
    else
      Stored(
        Tables(
          t.book + [BookRowOf(book)],
          t.bookSubject + SubjectRows(book.id, book.subjects),
          t.bookCreator + CreatorRows(book.id, res.ids),
          t.agent + res.inserted,
          next),
        cache + res.added,
        None)
  }

  /**
   * `storeBookWithRelations(rdfBook, stored)`: without a cache it looks its
   * creators up first and keeps the result to itself.
   */
  function StoreBook(t: Tables, book: RdfBook, stored: Option<map<string, nat>>): Stored {
    match stored
    case Some(cache) => Persist(t, book, cache)
    case None =>
      var s := Persist(t, book, AgentIdsByUris(t.agent, Uris(Creators(book))));
      Stored(s.tables, map[], s.failure)
  }

  /** The tables after a sequence of storage steps, and the error that stopped them. */
  datatype Flushed = Flushed(tables: Tables, failure: Option<RunError>)

  /** The books of a chunk stored one after the other with one shared cache, the first error ending it. */
  function StoreEach(t: Tables, books: seq<RdfBook>, cache: map<string, nat>): Flushed
    decreases |books|
  {
    if books == [] then Flushed(t, None)
    else
      var s := Persist(t, books[0], cache);
      if s.failure.Some? then Flushed(s.tables, Some(UnableToStoreBook(books[0].id, s.failure.value)))
      else StoreEach(s.tables, books[1..], s.cache)
  }

  /** The books of a chunk whose id is not among `ids`, in order. */
  function FreshBooks(ids: set<nat>, books: seq<RdfBook>): (r: seq<RdfBook>)
    ensures forall b :: b in r <==> b in books && b.id !in ids
    ensures |r| <= |books|
  {
    if books == [] then []
    else
      var init := FreshBooks(ids, books[..|books| - 1]);
      var book := books[|books| - 1];
      assert forall b :: b in books <==> b in books[..|books| - 1] || b == book;
      if book.id in ids then init else init + [book]
  }

  /** The creators of some books, book by book. */
  function ChunkCreators(books: seq<RdfBook>): seq<Agent> {
    if books == [] then [] else ChunkCreators(books[..|books| - 1]) + Creators(books[|books| - 1])
  }

  /** The books a chunk stores: all of them after a clean, otherwise the ones not stored yet. */
  function ToStore(t: Tables, chunk: seq<RdfBook>, clean: bool): seq<RdfBook> {
    if clean then chunk else FreshBooks(BookIds(t.book), chunk)
  }

  /** One chunk: existing books filtered out, the creators looked up in one query, each book stored. */
  function Flush(t: Tables, chunk: seq<RdfBook>, clean: bool): Flushed {
    var books := ToStore(t, chunk, clean);
    StoreEach(t, books, AgentIdsByUris(t.agent, Uris(ChunkCreators(books))))
  }

  /** The tables at the end of a run, the progress counts it reported, and the error that stopped it. */
  datatype Run = Run(tables: Tables, progress: seq<nat>, failure: Option<RunError>)

  /**
   * The loop of `storeAllBooks` from the point where `items` are still to
   * be pulled, `chunk` holds the parsed books not stored yet and `count`
   * records have been pulled: errors are skipped, a chunk is flushed when
   * it reaches the chunk size or the records run out, and the count is
   * reported after each flush.
   */
  function Loop(t: Tables, items: seq<SourceItem>, chunk: seq<RdfBook>, count: nat, clean: bool): Run
    decreases |items|, |chunk|
  {
    var done := items == [];
    if done && chunk == [] then Run(t, [], None)
    else if !done && items[0].Unparsed? then Loop(t, items[1..], chunk, count + 1, clean)
    else
      var count' := if done then count else count + 1;
      var chunk' := if done then chunk else chunk + [items[0].book];
      var rest := if done then items else items[1..];
      if !done && |chunk'| < ChunkSize then Loop(t, rest, chunk', count', clean)
      else
        var f := Flush(t, chunk', clean);
        if f.failure.Some? then Run(f.tables, [], f.failure)
        else
          var r := Loop(f.tables, rest, [], count', clean);
          Run(r.tables, [count'] + r.progress, r.failure)
  }

  /** The end of a run resumed with `items` still to pull, after the counts `reported`. */
  function Resume(t: Tables, items: seq<SourceItem>, chunk: seq<RdfBook>, count: nat, clean: bool, reported: seq<nat>): Run {
    var r := Loop(t, items, chunk, count, clean);
    Run(r.tables, reported + r.progress, r.failure)
  }

  /** With no record left and an empty chunk, the loop ends with what it has reported. */
  lemma ResumeEnds(t: Tables, count: nat, clean: bool, reported: seq<nat>)
    ensures Resume(t, [], [], count, clean, reported) == Run(t, reported, None)
  {
    assert reported + [] == reported;
  }

  /** A record that failed to parse is counted and skipped. */
  lemma ResumeSkips(t: Tables, items: seq<SourceItem>, chunk: seq<RdfBook>, count: nat, clean: bool, reported: seq<nat>)
    requires items != [] && items[0].Unparsed?
    ensures Resume(t, items, chunk, count, clean, reported) == Resume(t, items[1..], chunk, count + 1, clean, reported)
  {
  }

  /** A parsed book that leaves the chunk below the chunk size is counted and kept. */
  lemma ResumeGathers(t: Tables, items: seq<SourceItem>, chunk: seq<RdfBook>, count: nat, clean: bool, reported: seq<nat>)
    requires items != [] && items[0].Parsed? && |chunk| + 1 < ChunkSize
    ensures Resume(t, items, chunk, count, clean, reported) ==
      Resume(t, items[1..], chunk + [items[0].book], count + 1, clean, reported)
  {
  }

  /** The conditions under which the loop flushes `chunk'` and goes on with `rest`, `count'` records pulled. */
  predicate Flushing(items: seq<SourceItem>, chunk: seq<RdfBook>, count: nat, rest: seq<SourceItem>, chunk': seq<RdfBook>, count': nat) {
    if items == [] then chunk != [] && rest == [] && chunk' == chunk && count' == count
    else
      && items[0].Parsed? && |chunk| + 1 >= ChunkSize
      && rest == items[1..] && chunk' == chunk + [items[0].book] && count' == count + 1
  }

  /** How the loop goes on once it flushes: the flush's error ends it, otherwise the count is reported. */
  lemma LoopFlushes(t: Tables, items: seq<SourceItem>, chunk: seq<RdfBook>, count: nat, clean: bool,
                    rest: seq<SourceItem>, chunk': seq<RdfBook>, count': nat)
    requires Flushing(items, chunk, count, rest, chunk', count')
    ensures Loop(t, items, chunk, count, clean) ==
      var f := Flush(t, chunk', clean);
      if f.failure.Some? then Run(f.tables, [], f.failure)
      else
        var r := Loop(f.tables, rest, [], count', clean);
        Run(r.tables, [count'] + r.progress, r.failure)
  {
  }

  /** A full chunk, or the last one, is flushed and the count reported. */
  lemma ResumeFlushes(t: Tables, items: seq<SourceItem>, chunk: seq<RdfBook>, count: nat, clean: bool, reported: seq<nat>,
                      rest: seq<SourceItem>, chunk': seq<RdfBook>, count': nat)
    requires Flushing(items, chunk, count, rest, chunk', count')
    requires Flush(t, chunk', clean).failure.None?
    ensures Resume(t, items, chunk, count, clean, reported) ==
      Resume(Flush(t, chunk', clean).tables, rest, [], count', clean, reported + [count'])
  {
    var r := Loop(Flush(t, chunk', clean).tables, rest, [], count', clean);
    assert reported + ([count'] + r.progress) == reported + [count'] + r.progress;
  }

  /** A flush that fails ends the loop with its tables and error. */
  lemma ResumeFails(t: Tables, items: seq<SourceItem>, chunk: seq<RdfBook>, count: nat, clean: bool, reported: seq<nat>,
                    rest: seq<SourceItem>, chunk': seq<RdfBook>, count': nat)
    requires Flushing(items, chunk, count, rest, chunk', count')
    requires Flush(t, chunk', clean).failure.Some?
    ensures Resume(t, items, chunk, count, clean, reported) ==
      Run(Flush(t, chunk', clean).tables, reported, Flush(t, chunk', clean).failure)
  {
    LoopFlushes(t, items, chunk, count, clean, rest, chunk', count');
    assert reported + [] == reported;
  }

  /** `storeAllBooks(source, needCleanAll)` */
  function StoreAll(t: Tables, source: seq<SourceItem>, needCleanAll: bool): Run {
    Loop(if needCleanAll then Cleaned(t) else t, source, [], 0, needCleanAll)
  }

  /** The parsed books of a source, in order. */
  function ParsedBooks(items: seq<SourceItem>): seq<RdfBook>
    decreases |items|
  {
    if items == [] then []
    else if items[0].Parsed? then [items[0].book] + ParsedBooks(items[1..])
    else ParsedBooks(items[1..])
  }

  function BookRows(books: seq<RdfBook>): seq<BookRow> {
    seq(|books|, k requires 0 <= k < |books| => BookRowOf(books[k]))
  }
}
