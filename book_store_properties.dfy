/**
 * What the store operations of BookStore keep and guarantee: the integrity
 * of the tables, the contents a run leaves, the re-run that stores
 * nothing, the reported counts, and how creators are joined.
 */
module BookStoreProperties {
  import opened Wrappers
  import opened JsValue
  import opened Models
  import opened BookStore
  import opened RdfBookParser

  lemma BookIdsAppend(a: seq<BookRow>, b: seq<BookRow>)
    ensures BookIds(a + b) == BookIds(a) + BookIds(b)
  {
    var ab := a + b;
    forall x | x in BookIds(ab) ensures x in BookIds(a) + BookIds(b) {
      var k :| 0 <= k < |ab| && ab[k].id == x;
      if k < |a| {
        assert a[k] == ab[k];
      } else {
        assert b[k - |a|] == ab[k];
      }
    }
    forall x | x in BookIds(a) + BookIds(b) ensures x in BookIds(ab) {
      if x in BookIds(a) {
        var k :| 0 <= k < |a| && a[k].id == x;
        assert ab[k] == a[k];
      } else {
        var k :| 0 <= k < |b| && b[k].id == x;
        assert ab[|a| + k] == b[k];
      }
    }
  }

  lemma AgentIdsAppend(a: seq<AgentRow>, b: seq<AgentRow>)
    ensures AgentIds(a + b) == AgentIds(a) + AgentIds(b)
  {
    var ab := a + b;
    forall x | x in AgentIds(ab) ensures x in AgentIds(a) + AgentIds(b) {
      var k :| 0 <= k < |ab| && ab[k].id == x;
      if k < |a| {
        assert a[k] == ab[k];
      } else {
        assert b[k - |a|] == ab[k];
      }
    }
    forall x | x in AgentIds(a) + AgentIds(b) ensures x in AgentIds(ab) {
      if x in AgentIds(a) {
        var k :| 0 <= k < |a| && a[k].id == x;
        assert ab[k] == a[k];
      } else {
        var k :| 0 <= k < |b| && b[k].id == x;
        assert ab[|a| + k] == b[k];
      }
    }
  }

  /** An empty database is consistent. */
  lemma EmptyValid()
    ensures Valid(Tables([], [], [], [], 1))
  {
  }

  /** Deleting every row keeps the tables consistent. */
  lemma CleanedValid(t: Tables)
    requires Valid(t)
    ensures Valid(Cleaned(t)) && Cleaned(t).autoIncrement == t.autoIncrement
  {
  }

  /** The agent rows a cache lookup can name are stored ones. */
  lemma LookupStored(t: Tables, cache: map<string, nat>, rows: seq<AgentRow>, uris: seq<string>)
    requires cache == AgentIdsByUris(rows, uris) && rows == t.agent
    ensures CacheValid(t, cache)
  {
    AgentIdsByUrisLastRow(rows, uris);
    forall u | u in cache ensures cache[u] in AgentIds(t.agent) {
      var k :| LastWithUri(rows, u, k) && cache[u] == rows[k].id;
    }
  }

  /** The agent rows of a successful transaction extend the table with ascending ids above the old ones. */
  lemma PersistAgentsValid(t: Tables, book: RdfBook, cache: map<string, nat>)
    requires Valid(t)
    ensures var res := Resolve(Creators(book), cache, t.autoIncrement);
      var agents := t.agent + res.inserted;
      && (forall i, j :: 0 <= i < j < |agents| ==> agents[i].id < agents[j].id)
      && (forall k :: 0 <= k < |agents| ==> 1 <= agents[k].id < t.autoIncrement + |res.inserted|)
      && AgentIds(agents) == AgentIds(t.agent) + AgentIds(res.inserted)
      && (forall u :: u in res.added ==> res.added[u] in AgentIds(res.inserted))
  {
    var res := Resolve(Creators(book), cache, t.autoIncrement);
    ResolveAdded(Creators(book), cache, t.autoIncrement);
    AgentIdsAppend(t.agent, res.inserted);
    AppendedAgentsAscend(t.agent, res.inserted, t.autoIncrement);
    forall u | u in res.added ensures res.added[u] in AgentIds(res.inserted) {
      var k := res.added[u] - t.autoIncrement;
      assert res.inserted[k].id == res.added[u];
    }
  }

  /** Agent rows numbered on from the counter keep the ids ascending and below the advanced counter. */
  lemma AppendedAgentsAscend(agents: seq<AgentRow>, inserted: seq<AgentRow>, next: nat)
    requires next >= 1
    requires forall i, j :: 0 <= i < j < |agents| ==> agents[i].id < agents[j].id
    requires forall k :: 0 <= k < |agents| ==> 1 <= agents[k].id < next
    requires forall k :: 0 <= k < |inserted| ==> inserted[k].id == next + k
    ensures var all := agents + inserted;
      && (forall i, j :: 0 <= i < j < |all| ==> all[i].id < all[j].id)
      && (forall k :: 0 <= k < |all| ==> 1 <= all[k].id < next + |inserted|)
  {
    var all := agents + inserted;
    forall k | 0 <= k < |all| ensures all[k].id == if k < |agents| then agents[k].id else next + (k - |agents|) {
    }
  }

  /** The creator rows of a successful transaction name cached agents or none. */
  lemma PersistCreatorsValid(t: Tables, book: RdfBook, cache: map<string, nat>)
    requires CacheValid(t, cache)
    ensures var ids := Resolve(Creators(book), cache, t.autoIncrement).ids;
      forall k :: 0 <= k < |ids| && ids[k].Some? ==> ids[k].value in AgentIds(t.agent)
  {
    var creators := Creators(book);
    var ids := Resolve(creators, cache, t.autoIncrement).ids;
    ResolveIdsLookedUp(creators, cache, t.autoIncrement);
    forall k | 0 <= k < |ids| && ids[k].Some? ensures ids[k].value in AgentIds(t.agent) {
      assert ids[k] in ids;
      var j :| 0 <= j < |creators| && ids[k] == Lookup(cache, creators[j].rdfUri);
    }
  }

  /** The book rows after a commit: unique ids, one more of them. */
  lemma CommitBooksValid(t: Tables, book: RdfBook)
    requires Valid(t) && book.id !in BookIds(t.book)
    ensures var rows := t.book + [BookRowOf(book)];
      && (forall i, j :: 0 <= i < j < |rows| ==> rows[i].id != rows[j].id)
      && BookIds(rows) == BookIds(t.book) + {book.id}
  {
    var rows := t.book + [BookRowOf(book)];
    BookIdsAppend(t.book, [BookRowOf(book)]);
    assert BookIds([BookRowOf(book)]) == {book.id} by {
      assert [BookRowOf(book)][0].id == book.id;
    }
    forall i, j | 0 <= i < j < |rows| ensures rows[i].id != rows[j].id {
      assert rows[i] == t.book[i];
      if j < |t.book| {
        assert rows[j] == t.book[j];
      } else {
        assert t.book[i].id in BookIds(t.book);
      }
    }
  }

  /** The join rows after a commit refer to stored books and agents. */
  lemma CommitJoinsValid(t: Tables, book: RdfBook, ids: seq<Option<nat>>, books: set<nat>, agents: set<nat>)
    requires Valid(t) && BookIds(t.book) <= books && book.id in books && AgentIds(t.agent) <= agents
    requires forall k :: 0 <= k < |ids| && ids[k].Some? ==> ids[k].value in agents
    ensures var subjects := t.bookSubject + SubjectRows(book.id, book.subjects);
      forall k :: 0 <= k < |subjects| ==> subjects[k].bookId in books
    ensures var creators := t.bookCreator + CreatorRows(book.id, ids);
      && (forall k :: 0 <= k < |creators| ==> creators[k].bookId in books)
      && (forall k :: 0 <= k < |creators| && creators[k].agentId.Some? ==> creators[k].agentId.value in agents)
  {
    var subjects := t.bookSubject + SubjectRows(book.id, book.subjects);
    var creators := t.bookCreator + CreatorRows(book.id, ids);
    assert forall k :: 0 <= k < |t.bookSubject| ==> subjects[k] == t.bookSubject[k];
    assert forall k :: 0 <= k < |t.bookCreator| ==> creators[k] == t.bookCreator[k];
    assert forall k :: |t.bookCreator| <= k < |creators| ==> creators[k] == CreatorRow(book.id, ids[k - |t.bookCreator|]);
  }

  /** A transaction keeps the tables consistent and the cache naming stored agents, committed or not. */
  lemma PersistValid(t: Tables, book: RdfBook, cache: map<string, nat>)
    requires Valid(t) && CacheValid(t, cache)
    ensures var s := Persist(t, book, cache);
      Valid(s.tables) && CacheValid(s.tables, s.cache)
  {
    if book.id !in BookIds(t.book) {
      var res := Resolve(Creators(book), cache, t.autoIncrement);
      CommitValid(t, book, cache, res);
    }
  }

  /** The tables and cache a commit leaves behind are consistent. */
  lemma CommitValid(t: Tables, book: RdfBook, cache: map<string, nat>, res: Resolution)
    requires Valid(t) && CacheValid(t, cache) && book.id !in BookIds(t.book)
    requires res == Resolve(Creators(book), cache, t.autoIncrement)
    ensures var u := Tables(
        t.book + [BookRowOf(book)],
        t.bookSubject + SubjectRows(book.id, book.subjects),
        t.bookCreator + CreatorRows(book.id, res.ids),
        t.agent + res.inserted,
        t.autoIncrement + |res.inserted|);
      Valid(u) && CacheValid(u, cache + res.added)
  {
    var books := t.book + [BookRowOf(book)];
    var agents := t.agent + res.inserted;
    PersistAgentsValid(t, book, cache);
    PersistCreatorsValid(t, book, cache);
    CommitBooksValid(t, book);
    CommitJoinsValid(t, book, res.ids, BookIds(books), AgentIds(agents));
  }

  /**
   * `storeBookWithRelations` on its own keeps the tables consistent: with
   * a cache naming stored agents, and without one, when it looks the
   * creators up itself; a passed cache comes back naming stored agents.
   */
  lemma StoreBookValid(t: Tables, book: RdfBook, stored: Option<map<string, nat>>)
    requires Valid(t) && (stored.Some? ==> CacheValid(t, stored.value))
    ensures Valid(StoreBook(t, book, stored).tables)
    ensures stored.Some? ==> CacheValid(StoreBook(t, book, stored).tables, StoreBook(t, book, stored).cache)
  {
    match stored {
      case Some(cache) => PersistValid(t, book, cache);
      case None =>
        var uris := Uris(Creators(book));
        var cache := AgentIdsByUris(t.agent, uris);
        LookupStored(t, cache, t.agent, uris);
        PersistValid(t, book, cache);
    }
  }

  /** `storeAgent` outside a transaction appends a row with the next id, which keeps the tables consistent. */
  lemma InsertAgentValid(t: Tables, name: string, rdfUri: string)
    requires Valid(t)
    ensures var u := t.(agent := t.agent + [AgentRow(t.autoIncrement, name, rdfUri)], autoIncrement := t.autoIncrement + 1);
      Valid(u) && AgentIds(u.agent) == AgentIds(t.agent) + {t.autoIncrement}
  {
    var agents := t.agent + [AgentRow(t.autoIncrement, name, rdfUri)];
    assert forall k :: 0 <= k < |t.agent| ==> agents[k] == t.agent[k];
    assert agents[|t.agent|].id == t.autoIncrement;
    assert AgentIds(agents) == AgentIds(t.agent) + {t.autoIncrement} by {
      forall x | x in AgentIds(agents) ensures x in AgentIds(t.agent) + {t.autoIncrement} {
        var k :| 0 <= k < |agents| && agents[k].id == x;
        if k < |t.agent| { assert t.agent[k].id == x; }
      }
      forall x | x in AgentIds(t.agent) ensures x in AgentIds(agents) {
        var k :| 0 <= k < |t.agent| && t.agent[k].id == x;
        assert agents[k].id == x;
      }
    }
  }

  /** Storing the books of a chunk one by one keeps the tables consistent. */
  lemma {:induction false} StoreEachValid(t: Tables, books: seq<RdfBook>, cache: map<string, nat>)
    requires Valid(t) && CacheValid(t, cache)
    ensures Valid(StoreEach(t, books, cache).tables)
    decreases |books|
  {
    if books != [] {
      PersistValid(t, books[0], cache);
      var s := Persist(t, books[0], cache);
      if s.failure.None? {
        StoreEachValid(s.tables, books[1..], s.cache);
      }
    }
  }

  lemma FlushValid(t: Tables, chunk: seq<RdfBook>, clean: bool)
    requires Valid(t)
    ensures Valid(Flush(t, chunk, clean).tables)
  {
    var books := ToStore(t, chunk, clean);
    var cache := AgentIdsByUris(t.agent, Uris(ChunkCreators(books)));
    LookupStored(t, cache, t.agent, Uris(ChunkCreators(books)));
    StoreEachValid(t, books, cache);
  }

  lemma {:induction false} LoopValid(t: Tables, items: seq<SourceItem>, chunk: seq<RdfBook>, count: nat, clean: bool)
    requires Valid(t)
    ensures Valid(Loop(t, items, chunk, count, clean).tables)
    decreases |items|, |chunk|
  {
    var done := items == [];
    if done && chunk == [] {
    } else if !done && items[0].Unparsed? {
      LoopValid(t, items[1..], chunk, count + 1, clean);
    } else {
      var count' := if done then count else count + 1;
      var chunk' := if done then chunk else chunk + [items[0].book];
      var rest := if done then items else items[1..];
      if !done && |chunk'| < ChunkSize {
        LoopValid(t, rest, chunk', count', clean);
      } else {
        FlushValid(t, chunk', clean);
        var f := Flush(t, chunk', clean);
        if f.failure.None? {
          LoopValid(f.tables, rest, [], count', clean);
        }
      }
    }
  }

  /**
   * A run keeps the tables consistent, whether it finishes or stops on an
   * error: book ids stay unique and every join row refers to stored rows.
   */
  lemma StoreAllValid(t: Tables, source: seq<SourceItem>, needCleanAll: bool)
    requires Valid(t)
    ensures Valid(StoreAll(t, source, needCleanAll).tables)
  {
    LoopValid(if needCleanAll then Cleaned(t) else t, source, [], 0, needCleanAll);
  }

  /** Every book of `books` has its id among `ids`. */
  predicate AllStored(ids: set<nat>, books: seq<RdfBook>) {
    forall k :: 0 <= k < |books| ==> books[k].id in ids
  }

  /** A transaction never removes a book, and a committed one adds its own. */
  lemma PersistStores(t: Tables, book: RdfBook, cache: map<string, nat>)
    ensures var s := Persist(t, book, cache);
      && t.book <= s.tables.book
      && (s.failure.None? ==> book.id in BookIds(s.tables.book))
  {
    var s := Persist(t, book, cache);
    if s.failure.None? {
      var rows := s.tables.book;
      assert rows[|rows| - 1].id == book.id;
    }
  }

  lemma BookIdsOfPrefix(a: seq<BookRow>, b: seq<BookRow>)
    requires a <= b
    ensures BookIds(a) <= BookIds(b)
  {
    forall x | x in BookIds(a) ensures x in BookIds(b) {
      var k :| 0 <= k < |a| && a[k].id == x;
      assert b[k] == a[k];
    }
  }

  /** Storing a chunk never removes a book, and a chunk stored without error has all its books stored. */
  lemma {:induction false} StoreEachStores(t: Tables, books: seq<RdfBook>, cache: map<string, nat>)
    ensures var f := StoreEach(t, books, cache);
      && t.book <= f.tables.book
      && (f.failure.None? ==> AllStored(BookIds(f.tables.book), books))
    decreases |books|
  {
    if books != [] {
      var s := Persist(t, books[0], cache);
      PersistStores(t, books[0], cache);
      if s.failure.None? {
        StoreEachStores(s.tables, books[1..], s.cache);
        var f := StoreEach(s.tables, books[1..], s.cache);
        BookIdsOfPrefix(s.tables.book, f.tables.book);
        if f.failure.None? {
          forall k | 0 <= k < |books| ensures books[k].id in BookIds(f.tables.book) {
            if k > 0 {
              assert books[k] == books[1..][k - 1];
            }
          }
        }
      }
    }
  }

  lemma FlushStores(t: Tables, chunk: seq<RdfBook>, clean: bool)
    ensures var f := Flush(t, chunk, clean);
      && t.book <= f.tables.book
      && (f.failure.None? ==> AllStored(BookIds(f.tables.book), chunk))
  {
    var books := ToStore(t, chunk, clean);
    var cache := AgentIdsByUris(t.agent, Uris(ChunkCreators(books)));
    StoreEachStores(t, books, cache);
    var f := StoreEach(t, books, cache);
    BookIdsOfPrefix(t.book, f.tables.book);
    if f.failure.None? {
      forall k | 0 <= k < |chunk| ensures chunk[k].id in BookIds(f.tables.book) {
        if chunk[k] in books {
          var j :| 0 <= j < |books| && books[j] == chunk[k];
        }
      }
    }
  }

  /** What is stored after a flush stays stored, with what the rest of the loop stores. */
  lemma AllStoredAfterFlush(before: seq<BookRow>, after: seq<BookRow>, chunk: seq<RdfBook>, later: seq<RdfBook>)
    requires before <= after
    requires AllStored(BookIds(before), chunk) && AllStored(BookIds(after), later)
    ensures AllStored(BookIds(after), chunk + later)
  {
    BookIdsOfPrefix(before, after);
    var all := chunk + later;
    forall k | 0 <= k < |all| ensures all[k].id in BookIds(after) {
      if k >= |chunk| {
        assert all[k] == later[k - |chunk|];
      } else {
        assert all[k] == chunk[k];
      }
    }
  }

  /** The run `r` keeps the books of `t` and, when it ends without error, has stored `books`. */
  predicate Keeps(t: Tables, r: Run, books: seq<RdfBook>) {
    t.book <= r.tables.book && (r.failure.None? ==> AllStored(BookIds(r.tables.book), books))
  }

  /**
   * A loop never removes a book, and a loop that ends without error has
   * stored every book of its chunk and every parsed book still to come.
   */
  lemma {:induction false} LoopStores(t: Tables, items: seq<SourceItem>, chunk: seq<RdfBook>, count: nat, clean: bool)
    ensures Keeps(t, Loop(t, items, chunk, count, clean), chunk + ParsedBooks(items))
    decreases |items|, |chunk|
  {
    var done := items == [];
    if done && chunk == [] {
    } else if !done && items[0].Unparsed? {
      LoopStores(t, items[1..], chunk, count + 1, clean);
    } else {
      var count' := if done then count else count + 1;
      var chunk' := if done then chunk else chunk + [items[0].book];
      var rest := if done then items else items[1..];
      assert chunk + ParsedBooks(items) == chunk' + ParsedBooks(rest);
      if !done && |chunk'| < ChunkSize {
        LoopStores(t, rest, chunk', count', clean);
      } else {
        var f := Flush(t, chunk', clean);
        if f.failure.None? {
          LoopStores(f.tables, rest, [], count', clean);
        }
        FlushedLoopStores(t, items, chunk, count, clean, rest, chunk', count');
      }
    }
  }

  /** The flush step of `LoopStores`, given what the rest of the loop keeps. */
  lemma FlushedLoopStores(t: Tables, items: seq<SourceItem>, chunk: seq<RdfBook>, count: nat, clean: bool,
                          rest: seq<SourceItem>, chunk': seq<RdfBook>, count': nat)
    requires Flushing(items, chunk, count, rest, chunk', count')
    requires var f := Flush(t, chunk', clean);
      f.failure.None? ==> Keeps(f.tables, Loop(f.tables, rest, [], count', clean), [] + ParsedBooks(rest))
    ensures Keeps(t, Loop(t, items, chunk, count, clean), chunk' + ParsedBooks(rest))
  {
    LoopFlushes(t, items, chunk, count, clean, rest, chunk', count');
    FlushStores(t, chunk', clean);
    var f := Flush(t, chunk', clean);
    if f.failure.None? {
      var r := Loop(f.tables, rest, [], count', clean);
      assert [] + ParsedBooks(rest) == ParsedBooks(rest);
      if r.failure.None? {
        AllStoredAfterFlush(f.tables.book, r.tables.book, chunk', ParsedBooks(rest));
      }
    }
  }

  /** With every book already stored, a non-clean chunk stores nothing. */
  lemma FlushNothingNew(t: Tables, chunk: seq<RdfBook>)
    requires AllStored(BookIds(t.book), chunk)
    ensures Flush(t, chunk, false) == Flushed(t, None)
  {
  }

  /**
   * With every book of the chunk and of the rest of the source already
   * stored, a non-clean loop changes nothing.
   */
  lemma {:induction false} LoopNothingNew(t: Tables, items: seq<SourceItem>, chunk: seq<RdfBook>, count: nat)
    requires AllStored(BookIds(t.book), chunk + ParsedBooks(items))
    ensures Loop(t, items, chunk, count, false).tables == t
    ensures Loop(t, items, chunk, count, false).failure == None
    decreases |items|, |chunk|
  {
    var done := items == [];
    if done && chunk == [] {
    } else if !done && items[0].Unparsed? {
      assert ParsedBooks(items) == ParsedBooks(items[1..]);
      LoopNothingNew(t, items[1..], chunk, count + 1);
    } else {
      var count' := if done then count else count + 1;
      var chunk' := if done then chunk else chunk + [items[0].book];
      var rest := if done then items else items[1..];
      var all := chunk' + ParsedBooks(rest);
      assert chunk + ParsedBooks(items) == all;
      if !done && |chunk'| < ChunkSize {
        LoopNothingNew(t, rest, chunk', count');
      } else {
        assert forall k :: 0 <= k < |chunk'| ==> chunk'[k] == all[k];
        FlushNothingNew(t, chunk');
        assert forall k :: 0 <= k < |ParsedBooks(rest)| ==> ParsedBooks(rest)[k] == all[|chunk'| + k];
        assert [] + ParsedBooks(rest) == ParsedBooks(rest);
        LoopNothingNew(t, rest, [], count');
      }
    }
  }

  /** The counts a loop reports do not depend on the tables, as long as no flush fails. */
  lemma {:induction false} LoopProgressOnly(t: Tables, u: Tables, items: seq<SourceItem>, chunk: seq<RdfBook>, count: nat, clean: bool)
    requires Loop(t, items, chunk, count, clean).failure.None? && Loop(u, items, chunk, count, clean).failure.None?
    ensures Loop(t, items, chunk, count, clean).progress == Loop(u, items, chunk, count, clean).progress
    decreases |items|, |chunk|
  {
    var done := items == [];
    if done && chunk == [] {
    } else if !done && items[0].Unparsed? {
      LoopProgressOnly(t, u, items[1..], chunk, count + 1, clean);
    } else {
      var count' := if done then count else count + 1;
      var chunk' := if done then chunk else chunk + [items[0].book];
      var rest := if done then items else items[1..];
      if !done && |chunk'| < ChunkSize {
        LoopProgressOnly(t, u, rest, chunk', count', clean);
      } else {
        LoopProgressOnly(Flush(t, chunk', clean).tables, Flush(u, chunk', clean).tables, rest, [], count', clean);
      }
    }
  }

  /**
   * Idempotence: after a non-clean run that ends without error, a second
   * non-clean run over the same source changes nothing, ends without error
   * and reports the same counts.
   */
  lemma RerunStoresNothing(t: Tables, source: seq<SourceItem>)
    requires StoreAll(t, source, false).failure.None?
    ensures var first := StoreAll(t, source, false);
      StoreAll(first.tables, source, false) == Run(first.tables, first.progress, None)
  {
    var first := StoreAll(t, source, false);
    LoopStores(t, source, [], 0, false);
    assert [] + ParsedBooks(source) == ParsedBooks(source);
    LoopNothingNew(first.tables, source, [], 0);
    LoopProgressOnly(t, first.tables, source, [], 0, false);
  }

  /** No two books share an id. */
  predicate DistinctIds(books: seq<RdfBook>) {
    forall i, j :: 0 <= i < j < |books| ==> books[i].id != books[j].id
  }

  /** No book has its id among `ids`. */
  predicate NoneStored(ids: set<nat>, books: seq<RdfBook>) {
    forall k :: 0 <= k < |books| ==> books[k].id !in ids
  }

  lemma BookRowsAppend(a: seq<RdfBook>, b: seq<RdfBook>)
    ensures BookRows(a + b) == BookRows(a) + BookRows(b)
  {
  }

  lemma BookIdsOfRows(books: seq<RdfBook>)
    ensures BookIds(BookRows(books)) == set k | 0 <= k < |books| :: books[k].id
  {
    var rows := BookRows(books);
    assert forall k :: 0 <= k < |books| ==> rows[k].id == books[k].id;
  }

  /** Splitting distinct, unstored books into a chunk and what follows it. */
  lemma FreshAfterChunk(stored: seq<BookRow>, chunk: seq<RdfBook>, later: seq<RdfBook>)
    requires DistinctIds(chunk + later) && NoneStored(BookIds(stored), chunk + later)
    ensures DistinctIds(chunk) && NoneStored(BookIds(stored), chunk)
    ensures DistinctIds(later) && NoneStored(BookIds(stored + BookRows(chunk)), later)
  {
    var all := chunk + later;
    assert forall k :: 0 <= k < |chunk| ==> chunk[k] == all[k];
    assert forall k :: 0 <= k < |later| ==> later[k] == all[|chunk| + k];
    BookIdsAppend(stored, BookRows(chunk));
    BookIdsOfRows(chunk);
    forall k | 0 <= k < |later| ensures later[k].id !in BookIds(stored + BookRows(chunk)) {
      assert later[k] == all[|chunk| + k];
      forall j | 0 <= j < |chunk| ensures chunk[j].id != later[k].id {
        assert chunk[j] == all[j];
      }
    }
  }

  /** A chunk stored without error appends the rows of its books, in order. */
  lemma {:induction false} StoreEachRows(t: Tables, books: seq<RdfBook>, cache: map<string, nat>)
    requires StoreEach(t, books, cache).failure.None?
    ensures StoreEach(t, books, cache).tables.book == t.book + BookRows(books)
    decreases |books|
  {
    if books != [] {
      var s := Persist(t, books[0], cache);
      StoreEachRows(s.tables, books[1..], s.cache);
      assert BookRows(books) == [BookRowOf(books[0])] + BookRows(books[1..]);
    }
  }

  /** Distinct books none of which is stored yet are all stored without error. */
  lemma {:induction false} StoreEachFresh(t: Tables, books: seq<RdfBook>, cache: map<string, nat>)
    requires DistinctIds(books) && NoneStored(BookIds(t.book), books)
    ensures StoreEach(t, books, cache).failure == None
    decreases |books|
  {
    if books != [] {
      var s := Persist(t, books[0], cache);
      assert s.tables.book == t.book + BookRows([books[0]]);
      assert books == [books[0]] + books[1..];
      FreshAfterChunk(t.book, [books[0]], books[1..]);
      StoreEachFresh(s.tables, books[1..], s.cache);
    }
  }

  lemma RowsAfterFlush(before: seq<BookRow>, middle: seq<BookRow>, after: seq<BookRow>, chunk: seq<RdfBook>, later: seq<RdfBook>)
    requires middle == before + BookRows(chunk) && after == middle + BookRows(later)
    ensures after == before + BookRows(chunk + later)
  {
    BookRowsAppend(chunk, later);
  }

  /** A clean loop that ends without error has appended the rows of its chunk and of every parsed book to come. */
  lemma {:induction false} CleanLoopRows(t: Tables, items: seq<SourceItem>, chunk: seq<RdfBook>, count: nat)
    requires Loop(t, items, chunk, count, true).failure.None?
    ensures Loop(t, items, chunk, count, true).tables.book == t.book + BookRows(chunk + ParsedBooks(items))
    decreases |items|, |chunk|
  {
    var done := items == [];
    if done && chunk == [] {
    } else if !done && items[0].Unparsed? {
      CleanLoopRows(t, items[1..], chunk, count + 1);
    } else {
      var count' := if done then count else count + 1;
      var chunk' := if done then chunk else chunk + [items[0].book];
      var rest := if done then items else items[1..];
      assert chunk + ParsedBooks(items) == chunk' + ParsedBooks(rest);
      BookRowsAppend(chunk', ParsedBooks(rest));
      if !done && |chunk'| < ChunkSize {
        CleanLoopRows(t, rest, chunk', count');
      } else {
        var f := Flush(t, chunk', true);
        if f.failure.None? {
          StoreEachRows(t, chunk', AgentIdsByUris(t.agent, Uris(ChunkCreators(chunk'))));
          CleanLoopRows(f.tables, rest, [], count');
          assert [] + ParsedBooks(rest) == ParsedBooks(rest);
          RowsAfterFlush(t.book, f.tables.book, Loop(f.tables, rest, [], count', true).tables.book, chunk', ParsedBooks(rest));
        }
      }
    }
  }

  /** A clean loop over distinct books none of which is stored ends without error. */
  lemma {:induction false} CleanLoopSucceeds(t: Tables, items: seq<SourceItem>, chunk: seq<RdfBook>, count: nat)
    requires DistinctIds(chunk + ParsedBooks(items)) && NoneStored(BookIds(t.book), chunk + ParsedBooks(items))
    ensures Loop(t, items, chunk, count, true).failure == None
    decreases |items|, |chunk|
  {
    var done := items == [];
    if done && chunk == [] {
    } else if !done && items[0].Unparsed? {
      CleanLoopSucceeds(t, items[1..], chunk, count + 1);
    } else {
      var count' := if done then count else count + 1;
      var chunk' := if done then chunk else chunk + [items[0].book];
      var rest := if done then items else items[1..];
      assert chunk + ParsedBooks(items) == chunk' + ParsedBooks(rest);
      if !done && |chunk'| < ChunkSize {
        CleanLoopSucceeds(t, rest, chunk', count');
      } else {
        var f := Flush(t, chunk', true);
        FreshAfterChunk(t.book, chunk', ParsedBooks(rest));
        StoreEachFresh(t, chunk', AgentIdsByUris(t.agent, Uris(ChunkCreators(chunk'))));
        StoreEachRows(t, chunk', AgentIdsByUris(t.agent, Uris(ChunkCreators(chunk'))));
        assert [] + ParsedBooks(rest) == ParsedBooks(rest);
        CleanLoopSucceeds(f.tables, rest, [], count');
      }
    }
  }

  /**
   * A clean run ends without error exactly when no two parsed books share
   * an id, and then `book` holds one row per parsed book, in source order:
   * records that failed to parse are skipped and the ones after them are
   * still stored.
   */
  lemma CleanRunStoresEveryBook(t: Tables, source: seq<SourceItem>)
    requires Valid(t)
    ensures var r := StoreAll(t, source, true);
      && (r.failure.None? <==> DistinctIds(ParsedBooks(source)))
      && (r.failure.None? ==> r.tables.book == BookRows(ParsedBooks(source)))
  {
    var books := ParsedBooks(source);
    assert [] + books == books;
    if DistinctIds(books) {
      CleanLoopSucceeds(Cleaned(t), source, [], 0);
    }
    if StoreAll(t, source, true).failure.None? {
      CleanRunRows(t, source);
    }
  }

  /** A clean run that ends without error has stored exactly the parsed rows, so their ids were distinct. */
  lemma CleanRunRows(t: Tables, source: seq<SourceItem>)
    requires Valid(t) && StoreAll(t, source, true).failure.None?
    ensures StoreAll(t, source, true).tables.book == BookRows(ParsedBooks(source))
    ensures DistinctIds(ParsedBooks(source))
  {
    var r := StoreAll(t, source, true);
    var books := ParsedBooks(source);
    assert [] + books == books;
    CleanLoopRows(Cleaned(t), source, [], 0);
    assert r.tables.book == BookRows(books);
    StoreAllValid(t, source, true);
    forall i, j | 0 <= i < j < |books| ensures books[i].id != books[j].id {
      assert r.tables.book[i].id == books[i].id && r.tables.book[j].id == books[j].id;
    }
  }

  /**
   * The counts a loop reports rise strictly, and each lies between the
   * records pulled before and the records pulled in all; a loop that
   * starts with an empty chunk reports only counts above its start.
   */
  lemma {:induction false} LoopProgress(t: Tables, items: seq<SourceItem>, chunk: seq<RdfBook>, count: nat, clean: bool)
    ensures var p := Loop(t, items, chunk, count, clean).progress;
      && (forall i, j :: 0 <= i < j < |p| ==> p[i] < p[j])
      && (forall k :: 0 <= k < |p| ==> count <= p[k] <= count + |items|)
      && (chunk == [] ==> forall k :: 0 <= k < |p| ==> count < p[k])
    decreases |items|, |chunk|
  {
    var done := items == [];
    if done && chunk == [] {
    } else if !done && items[0].Unparsed? {
      assert Loop(t, items, chunk, count, clean) == Loop(t, items[1..], chunk, count + 1, clean);
      LoopProgress(t, items[1..], chunk, count + 1, clean);
    } else {
      var count' := if done then count else count + 1;
      var chunk' := if done then chunk else chunk + [items[0].book];
      var rest := if done then items else items[1..];
      if !done && |chunk'| < ChunkSize {
        assert Loop(t, items, chunk, count, clean) == Loop(t, rest, chunk', count', clean);
        LoopProgress(t, rest, chunk', count', clean);
      } else {
        var f := Flush(t, chunk', clean);
        LoopProgress(f.tables, rest, [], count', clean);
        assert forall k :: 0 <= k < |Loop(f.tables, rest, [], count', clean).progress| ==> Loop(f.tables, rest, [], count', clean).progress[k] <= count' + |rest|;
        if f.failure.None? {
          var q := Loop(f.tables, rest, [], count', clean).progress;
          assert Loop(t, items, chunk, count, clean).progress == [count'] + q;
          assert chunk != [];
          PrependCount(count, count', q, count + |items|);
        }
      }
    }
  }

  /** A count reported before rising counts above it keeps the sequence rising. */
  lemma PrependCount(low: nat, n: nat, q: seq<nat>, high: nat)
    requires low <= n <= high
    requires forall i, j :: 0 <= i < j < |q| ==> q[i] < q[j]
    requires forall k :: 0 <= k < |q| ==> n < q[k] <= high
    ensures var p := [n] + q;
      && (forall i, j :: 0 <= i < j < |p| ==> p[i] < p[j])
      && (forall k :: 0 <= k < |p| ==> low <= p[k] <= high)
  {
    var p := [n] + q;
    assert forall k :: 0 < k < |p| ==> p[k] == q[k - 1];
  }

  /** What a run reports: strictly rising counts of pulled records, none above the size of the source. */
  lemma RunProgress(t: Tables, source: seq<SourceItem>, needCleanAll: bool)
    ensures var p := StoreAll(t, source, needCleanAll).progress;
      && (forall i, j :: 0 <= i < j < |p| ==> p[i] < p[j])
      && (forall k :: 0 <= k < |p| ==> 1 <= p[k] <= |source|)
  {
    var start := if needCleanAll then Cleaned(t) else t;
    LoopProgress(start, source, [], 0, needCleanAll);
    assert StoreAll(t, source, needCleanAll) == Loop(start, source, [], 0, needCleanAll);
  }

  /**
   * A chunk is flushed when it reaches the chunk size or when the source
   * ends, so a loop that ends without error reports one count per started
   * chunk of parsed books.
   */
  lemma {:induction false} LoopFlushCount(t: Tables, items: seq<SourceItem>, chunk: seq<RdfBook>, count: nat, clean: bool)
    requires |chunk| < ChunkSize
    requires Loop(t, items, chunk, count, clean).failure.None?
    ensures |Loop(t, items, chunk, count, clean).progress| == (|chunk| + |ParsedBooks(items)| + ChunkSize - 1) / ChunkSize
    decreases |items|
  {
    if items == [] && chunk == [] {
    } else if items != [] && items[0].Unparsed? {
      assert Loop(t, items, chunk, count, clean) == Loop(t, items[1..], chunk, count + 1, clean);
      LoopFlushCount(t, items[1..], chunk, count + 1, clean);
    } else if items != [] && |chunk| + 1 < ChunkSize {
      var chunk' := chunk + [items[0].book];
      assert Loop(t, items, chunk, count, clean) == Loop(t, items[1..], chunk', count + 1, clean);
      LoopFlushCount(t, items[1..], chunk', count + 1, clean);
    } else {
      var rest := if items == [] then items else items[1..];
      var chunk' := if items == [] then chunk else chunk + [items[0].book];
      var count' := if items == [] then count else count + 1;
      LoopFlushes(t, items, chunk, count, clean, rest, chunk', count');
      var f := Flush(t, chunk', clean);
      assert f.failure.None?;
      if items != [] {
        LoopFlushCount(f.tables, rest, [], count', clean);
        assert |chunk| + |ParsedBooks(items)| == ChunkSize + |ParsedBooks(rest)|;
      }
    }
  }

  /** A run that ends without error reports once per started chunk of 1000 parsed books. */
  lemma RunFlushCount(t: Tables, source: seq<SourceItem>, needCleanAll: bool)
    requires StoreAll(t, source, needCleanAll).failure.None?
    ensures |StoreAll(t, source, needCleanAll).progress| == (|ParsedBooks(source)| + ChunkSize - 1) / ChunkSize
  {
    LoopFlushCount(if needCleanAll then Cleaned(t) else t, source, [], 0, needCleanAll);
  }

  /**
   * A run that stops on an error reports fewer counts than a run that
   * ends without one: the failing chunk is never reported.
   */
  lemma {:induction false} LoopFailureStopsReporting(t: Tables, items: seq<SourceItem>, chunk: seq<RdfBook>, count: nat, clean: bool)
    requires |chunk| < ChunkSize
    requires Loop(t, items, chunk, count, clean).failure.Some?
    ensures |Loop(t, items, chunk, count, clean).progress| < (|chunk| + |ParsedBooks(items)| + ChunkSize - 1) / ChunkSize
    decreases |items|
  {
    if items == [] && chunk == [] {
    } else if items != [] && items[0].Unparsed? {
      assert Loop(t, items, chunk, count, clean) == Loop(t, items[1..], chunk, count + 1, clean);
      LoopFailureStopsReporting(t, items[1..], chunk, count + 1, clean);
    } else if items != [] && |chunk| + 1 < ChunkSize {
      var chunk' := chunk + [items[0].book];
      assert Loop(t, items, chunk, count, clean) == Loop(t, items[1..], chunk', count + 1, clean);
      LoopFailureStopsReporting(t, items[1..], chunk', count + 1, clean);
    } else {
      var rest := if items == [] then items else items[1..];
      var chunk' := if items == [] then chunk else chunk + [items[0].book];
      var count' := if items == [] then count else count + 1;
      LoopFlushes(t, items, chunk, count, clean, rest, chunk', count');
      var f := Flush(t, chunk', clean);
      if items != [] {
        assert |chunk| + |ParsedBooks(items)| == ChunkSize + |ParsedBooks(rest)|;
        if f.failure.None? {
          LoopFailureStopsReporting(f.tables, rest, [], count', clean);
        }
      }
    }
  }

  /** A flush fails only on a book whose id is already in `book`, and reports that id. */
  lemma {:induction false} StoreEachFailure(t: Tables, books: seq<RdfBook>, cache: map<string, nat>)
    ensures var f := StoreEach(t, books, cache);
      f.failure.Some? ==> f.failure.value.cause == DuplicateBook(f.failure.value.bookId) && f.failure.value.bookId in BookIds(f.tables.book)
    decreases |books|
  {
    if books != [] {
      var s := Persist(t, books[0], cache);
      if s.failure.None? {
        StoreEachFailure(s.tables, books[1..], s.cache);
      }
    }
  }

  /**
   * A flush that fails stops at the failing book: the `book` table holds
   * exactly the rows of the books before it, and nothing after it is stored.
   */
  lemma {:induction false} StoreEachAborts(t: Tables, books: seq<RdfBook>, cache: map<string, nat>)
    ensures var f := StoreEach(t, books, cache);
      f.failure.Some? ==> exists k :: 0 <= k < |books| && books[k].id == f.failure.value.bookId && f.tables.book == t.book + BookRows(books[..k])
    decreases |books|
  {
    var f := StoreEach(t, books, cache);
    if books != [] && f.failure.Some? {
      var s := Persist(t, books[0], cache);
      PersistBookTable(t, books[0], cache);
      if s.failure.Some? {
        assert BookRows(books[..0]) == [];
      } else {
        var rest := books[1..];
        StoreEachAborts(s.tables, rest, s.cache);
        var j :| 0 <= j < |rest| && rest[j].id == f.failure.value.bookId
          && f.tables.book == s.tables.book + BookRows(rest[..j]);
        AbortedAfter(t.book, f.tables.book, books, j);
        assert books[j + 1].id == f.failure.value.bookId;
      }
    }
  }

  /** A transaction appends its book's row when it commits, and leaves `book` as it was when it does not. */
  lemma PersistBookTable(t: Tables, book: RdfBook, cache: map<string, nat>)
    ensures var s := Persist(t, book, cache);
      s.tables.book == if s.failure.None? then t.book + [BookRowOf(book)] else t.book
  {
  }

  lemma AbortedAfter(before: seq<BookRow>, rows: seq<BookRow>, books: seq<RdfBook>, j: nat)
    requires j < |books| - 1
    requires rows == before + [BookRowOf(books[0])] + BookRows(books[1..][..j])
    ensures rows == before + BookRows(books[..j + 1])
  {
    assert books[..j + 1] == [books[0]] + books[1..][..j];
    BookRowsAppend([books[0]], books[1..][..j]);
  }

  /** A run stops only on a book whose id is already stored, and reports that id. */
  lemma {:induction false} LoopFailure(t: Tables, items: seq<SourceItem>, chunk: seq<RdfBook>, count: nat, clean: bool)
    ensures var r := Loop(t, items, chunk, count, clean);
      r.failure.Some? ==> r.failure.value.cause == DuplicateBook(r.failure.value.bookId) && r.failure.value.bookId in BookIds(r.tables.book)
    decreases |items|, |chunk|
  {
    var done := items == [];
    if done && chunk == [] {
    } else if !done && items[0].Unparsed? {
      LoopFailure(t, items[1..], chunk, count + 1, clean);
    } else {
      var count' := if done then count else count + 1;
      var chunk' := if done then chunk else chunk + [items[0].book];
      var rest := if done then items else items[1..];
      if !done && |chunk'| < ChunkSize {
        LoopFailure(t, rest, chunk', count', clean);
      } else {
        var books := ToStore(t, chunk', clean);
        StoreEachFailure(t, books, AgentIdsByUris(t.agent, Uris(ChunkCreators(books))));
        var f := Flush(t, chunk', clean);
        if f.failure.None? {
          LoopFailure(f.tables, rest, [], count', clean);
        }
      }
    }
  }

  /**
   * Creators all unknown to the cache are each inserted as a new agent,
   * yet the book is joined to them by one row whose agent id is
   * `undefined`: the id the insert answered never reaches the set.
   */
  lemma {:induction false} UnknownCreatorsJoinOnce(creators: seq<Agent>, cache: map<string, nat>, next: nat)
    requires creators != [] && forall k :: 0 <= k < |creators| ==> creators[k].rdfUri !in cache
    ensures Resolve(creators, cache, next).ids == [None]
    ensures |Resolve(creators, cache, next).inserted| == |creators|
  {
    var init := creators[..|creators| - 1];
    if init != [] {
      assert forall k :: 0 <= k < |init| ==> init[k] == creators[k];
      UnknownCreatorsJoinOnce(init, cache, next);
    }
  }

  /** Creators whose cached ids are all truthy insert nothing and are joined only by those ids. */
  lemma {:induction false} KnownCreatorsInsertNothing(creators: seq<Agent>, cache: map<string, nat>, next: nat)
    requires forall k :: 0 <= k < |creators| ==> Known(Lookup(cache, creators[k].rdfUri))
    ensures Resolve(creators, cache, next).inserted == [] && Resolve(creators, cache, next).added == map[]
    ensures forall x :: x in Resolve(creators, cache, next).ids ==> Known(x)
  {
    ResolveIdsLookedUp(creators, cache, next);
    if creators != [] {
      var init := creators[..|creators| - 1];
      assert forall k :: 0 <= k < |init| ==> init[k] == creators[k];
      KnownCreatorsInsertNothing(init, cache, next);
    }
  }

  /** The licenses of a book are stored joined with `; `. */
  lemma LicenseJoinExample(book: RdfBook)
    requires book.licenses == [Str("CC0"), Str("public-domain")]
    ensures BookRowOf(book).license == "CC0; public-domain"
  {
    var parts := seq(2, k requires 0 <= k < 2 => ElementString(book.licenses[k]));
    assert parts == ["CC0", "public-domain"];
    assert parts[..1] == ["CC0"];
    assert JoinStrings(parts, LicenseSeparator) == JoinStrings(["CC0"], LicenseSeparator) + "; " + "public-domain";
  }

  /** A book without a date is stored with the zero date-time. */
  lemma MissingDateStoredAsZero(book: RdfBook)
    requires book.publishedAt.None?
    ensures BookRowOf(book).publishedAt == DateText("0000-00-00 00:00:00")
  {
  }

  /** The message of a run error starts with the prefix, then the decimal id of the book, then the cause. */
  lemma FailureMessageNamesBook(bookId: nat, causeMessage: string)
    ensures var m := FailureMessage(bookId, causeMessage);
      var n := |FailurePrefix| + |NatToString(bookId)|;
      && |m| >= n
      && m[..|FailurePrefix|] == FailurePrefix
      && IsDigits(m[|FailurePrefix|..n]) && DecimalValue(m[|FailurePrefix|..n]) == bookId
      && m[n..] == ": " + causeMessage
  {
    var m := FailureMessage(bookId, causeMessage);
    var n := |FailurePrefix| + |NatToString(bookId)|;
    assert m == FailurePrefix + NatToString(bookId) + (": " + causeMessage);
    assert m[|FailurePrefix|..n] == NatToString(bookId);
    DecimalRoundTrip(bookId);
  }

  /**
   * The parser fills `authors` and never `creators`, which is what the
   * store reads: a parsed book is committed with no agent rows, no
   * creator rows and an unchanged cache.
   */
  lemma ParsedBookStoresNoCreators(xmlDoc: Node, parseDate: Node -> Option<Date>, t: Tables, cache: map<string, nat>)
    requires ParsedBook(xmlDoc, parseDate).Ok?
    ensures var s := Persist(t, ParsedBook(xmlDoc, parseDate).value, cache);
      && s.tables.bookCreator == t.bookCreator
      && s.tables.agent == t.agent
      && s.tables.autoIncrement == t.autoIncrement
      && s.cache == cache
  {
    ParsedBookFields(xmlDoc, parseDate);
    NoCreatorsStoreNoAgents(t, ParsedBook(xmlDoc, parseDate).value, cache);
  }

  /** A book without creators commits no agent or creator rows and leaves the counter and the cache as they are. */
  lemma NoCreatorsStoreNoAgents(t: Tables, book: RdfBook, cache: map<string, nat>)
    requires book.creators == None
    ensures var s := Persist(t, book, cache);
      && s.tables.bookCreator == t.bookCreator
      && s.tables.agent == t.agent
      && s.tables.autoIncrement == t.autoIncrement
      && s.cache == cache
  {
    assert cache + map[] == cache;
    assert CreatorRows(book.id, []) == [];
  }

  /** Nothing the store writes depends on the authors of a book. */
  lemma AuthorsNotStored(t: Tables, book: RdfBook, cache: map<string, nat>, authors: seq<Node>)
    ensures Persist(t, book.(authors := authors), cache) == Persist(t, book, cache)
  {
  }
}
