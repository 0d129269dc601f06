/**
 * services/BookService.js: the service and the database it writes, as
 * classes whose methods change the tables step by step. Every method is
 * proved to leave the database as the matching function of BookStore says.
 */
module BookService {
  import opened Wrappers
  import opened JsValue
  import opened Models
  import opened BookStore
  import BookStoreProperties

  datatype TableName = BookTable | BookSubjectTable | BookCreatorTable | AgentTable

  /**
   * The database behind the knex handle: four tables and the auto-increment
   * counter of `agent`. A transaction is a snapshot of the tables taken at
   * its start, which a rollback restores.
   */
  class Database {
    var book: seq<BookRow>
    var bookSubject: seq<SubjectRow>
    var bookCreator: seq<CreatorRow>
    var agent: seq<AgentRow>
    var autoIncrement: nat

    /** An empty database whose counter starts at 1. */
    constructor ()
      ensures State() == Tables([], [], [], [], 1)
    {
      book := [];
      bookSubject := [];
      bookCreator := [];
      agent := [];
      autoIncrement := 1;
    }

    function State(): Tables
      reads this
    {
      Tables(book, bookSubject, bookCreator, agent, autoIncrement)
    }

    /** `knex(table).del()` */
    method Delete(table: TableName)
      modifies this
      ensures State() == match table
        case BookTable => old(State()).(book := [])
        case BookSubjectTable => old(State()).(bookSubject := [])
        case BookCreatorTable => old(State()).(bookCreator := [])
        case AgentTable => old(State()).(agent := [])
    {
      match table {
        case BookTable => book := [];
        case BookSubjectTable => bookSubject := [];
        case BookCreatorTable => bookCreator := [];
        case AgentTable => agent := [];
      }
    }

    /** An `agent` insert; it answers the id the counter handed out. */
    method InsertAgent(name: string, rdfUri: string) returns (id: nat)
      modifies this
      ensures id == old(autoIncrement)
      ensures State() == old(State()).(agent := old(agent) + [AgentRow(id, name, rdfUri)], autoIncrement := id + 1)
    {
      id := autoIncrement;
      agent := agent + [AgentRow(id, name, rdfUri)];
      autoIncrement := autoIncrement + 1;
    }

    /** A `book` insert, refused when the id is taken. */
    method InsertBook(row: BookRow) returns (failure: Option<StoreError>)
      modifies this
      ensures row.id in BookIds(old(book)) ==> failure == Some(DuplicateBook(row.id)) && State() == old(State())
      ensures row.id !in BookIds(old(book)) ==> failure == None && State() == old(State()).(book := old(book) + [row])
    {
      if row.id in BookIds(book) {
        failure := Some(DuplicateBook(row.id));
      } else {
        failure := None;
        book := book + [row];
      }
    }

    method InsertSubject(row: SubjectRow)
      modifies this
      ensures State() == old(State()).(bookSubject := old(bookSubject) + [row])
    {
      bookSubject := bookSubject + [row];
    }

    method InsertCreator(row: CreatorRow)
      modifies this
      ensures State() == old(State()).(bookCreator := old(bookCreator) + [row])
    {
      bookCreator := bookCreator + [row];
    }

    /** A rollback: the tables as they were, the counter as it is. */
    method Rollback(saved: Tables)
      modifies this
      ensures State() == saved.(autoIncrement := old(autoIncrement))
    {
      book := saved.book;
      bookSubject := saved.bookSubject;
      bookCreator := saved.bookCreator;
      agent := saved.agent;
    }
  }

  class BookService {
    const knex: Database

    constructor (knex: Database)
      ensures this.knex == knex
    {
      this.knex := knex;
    }

    /** Deletes the join tables first, then `book`, then `agent`. */
    method CleanAll()
      modifies knex
      ensures knex.State() == Cleaned(old(knex.State()))
    {
      knex.Delete(BookCreatorTable);
      knex.Delete(BookSubjectTable);
      knex.Delete(BookTable);
      knex.Delete(AgentTable);
    }

    /** One query for the ids of many agents, read into a map by URI. */
    method GetAgentsIdsByUris(agentsUris: seq<string>) returns (idsPerUris: map<string, nat>)
      ensures idsPerUris == AgentIdsByUris(knex.agent, agentsUris)
    {
      var rows := knex.agent;
      idsPerUris := map[];
      for k := 0 to |rows|
        invariant idsPerUris == AgentIdsByUris(rows[..k], agentsUris)
      {
        assert rows[..k + 1][..k] == rows[..k];
        var row := rows[k];
        if row.rdfUri in agentsUris {
          idsPerUris := idsPerUris[row.rdfUri := row.id];
        }
      }
      assert rows[..|rows|] == rows;
    }

    /** Inserts one agent and answers its new id; the transaction handle is the same database here. */
    method StoreAgent(agent: Agent) returns (id: nat)
      modifies knex
      ensures id == old(knex.autoIncrement)
      ensures knex.State() == old(knex.State()).(agent := old(knex.agent) + [AgentRow(id, agent.name, agent.rdfUri)], autoIncrement := id + 1)
    {
      id := knex.InsertAgent(agent.name, agent.rdfUri);
    }

    /**
     * `storeBookWithRelations(rdfBook, agentsIdsByUrisStored)`: with a cache,
     * the cache comes back with the new agents merged in once the book is
     * committed; without one, the creators are looked up first.
     */
    method StoreBookWithRelations(rdfBook: RdfBook, agentsIdsByUrisStored: Option<map<string, nat>>)
      returns (failure: Option<StoreError>, stored: Option<map<string, nat>>)
      modifies knex
      ensures var s := StoreBook(old(knex.State()), rdfBook, agentsIdsByUrisStored);
        knex.State() == s.tables && failure == s.failure &&
        stored == if agentsIdsByUrisStored.Some? then Some(s.cache) else None
    {
      var cache: map<string, nat>;
      if agentsIdsByUrisStored.None? {
        cache := GetAgentsIdsByUris(Uris(Creators(rdfBook)));
      } else {
        cache := agentsIdsByUrisStored.value;
      }
      var newAgentsIdsByUris;
      failure, newAgentsIdsByUris := Transaction(rdfBook, cache);
      if failure.None? {
        cache := Merge(cache, newAgentsIdsByUris);
      }
      stored := if agentsIdsByUrisStored.Some? then Some(cache) else None;
    }

    /** Copies every entry of `added` into `cache`, one at a time. */
    static method Merge(cache: map<string, nat>, added: map<string, nat>) returns (merged: map<string, nat>)
      ensures merged == cache + added
    {
      merged := cache;
      var rest := added;
      while rest.Keys != {}
        invariant forall u :: u in rest ==> u in added && rest[u] == added[u]
        invariant forall u :: u in added && u !in rest ==> u in merged && merged[u] == added[u]
        invariant forall u :: u !in added ==> (u in merged <==> u in cache)
        invariant forall u :: u !in added && u in cache ==> merged[u] == cache[u]
        invariant forall u :: u in merged ==> u in cache || u in added
        decreases |rest.Keys|
      {
        var uri :| uri in rest;
        merged := merged[uri := rest[uri]];
        rest := rest - {uri};
      }
    }

    /**
     * The body of the transaction: the creator loop, the book row, the
     * subject rows and the creator rows; a refused book row rolls it back.
     */
    method Transaction(rdfBook: RdfBook, cache: map<string, nat>) returns (failure: Option<StoreError>, newAgentsIdsByUris: map<string, nat>)
      modifies knex
      ensures var s := Persist(old(knex.State()), rdfBook, cache);
        knex.State() == s.tables && failure == s.failure &&
        (failure.None? ==> cache + newAgentsIdsByUris == s.cache)
    {
      var saved := knex.State();
      var creators := Creators(rdfBook);
      var creatorsIdsSet: seq<Option<nat>> := [];
      newAgentsIdsByUris := map[];
      ghost var inserted: seq<AgentRow> := [];
      for k := 0 to |creators|
        invariant Resolve(creators[..k], cache, saved.autoIncrement) == Resolution(creatorsIdsSet, inserted, newAgentsIdsByUris)
        invariant knex.State() == saved.(agent := saved.agent + inserted, autoIncrement := saved.autoIncrement + |inserted|)
      {
        assert creators[..k + 1][..k] == creators[..k];
        var agent := creators[k];
        var agentId := Lookup(cache, agent.rdfUri);
        if !Known(agentId) {
          // This declaration shadows the outer `agentId`, which keeps the looked-up value.
          var agentId := StoreAgent(agent);
          newAgentsIdsByUris := newAgentsIdsByUris[agent.rdfUri := agentId];
          inserted := inserted + [AgentRow(agentId, agent.name, agent.rdfUri)];
        }
        if agentId !in creatorsIdsSet {
          creatorsIdsSet := creatorsIdsSet + [agentId];
        }
      }
      assert creators[..|creators|] == creators;
      failure := knex.InsertBook(BookRowOf(rdfBook));
      if failure.Some? {
        knex.Rollback(saved);
        return;
      }
      InsertJoinRows(rdfBook.id, rdfBook.subjects, creatorsIdsSet);
    }

    /** One `book_subject` row per subject, then one `book_creator` row per id. */
    method InsertJoinRows(bookId: nat, subjects: seq<Node>, ids: seq<Option<nat>>)
      modifies knex
      ensures knex.State() == old(knex.State()).(
        bookSubject := old(knex.bookSubject) + SubjectRows(bookId, subjects),
        bookCreator := old(knex.bookCreator) + CreatorRows(bookId, ids))
    {
      ghost var start := knex.State();
      for k := 0 to |subjects|
        invariant knex.State() == start.(bookSubject := start.bookSubject + SubjectRows(bookId, subjects[..k]))
      {
        assert SubjectRows(bookId, subjects[..k + 1]) == SubjectRows(bookId, subjects[..k]) + [SubjectRow(bookId, subjects[k])];
        knex.InsertSubject(SubjectRow(bookId, subjects[k]));
      }
      assert subjects[..|subjects|] == subjects;
      ghost var middle := knex.State();
      for k := 0 to |ids|
        invariant knex.State() == middle.(bookCreator := middle.bookCreator + CreatorRows(bookId, ids[..k]))
      {
        assert CreatorRows(bookId, ids[..k + 1]) == CreatorRows(bookId, ids[..k]) + [CreatorRow(bookId, ids[k])];
        knex.InsertCreator(CreatorRow(bookId, ids[k]));
      }
      assert ids[..|ids|] == ids;
    }

    /**
     * `storeAllBooks(generatorBooksWithIds, needCleanAll)` over the records
     * the generator yields in order; answers the error that stopped the run
     * and the counts the run reported after each chunk.
     */
    method StoreAllBooks(source: seq<SourceItem>, needCleanAll: bool) returns (failure: Option<RunError>, progress: seq<nat>)
      modifies knex
      ensures var r := StoreAll(old(knex.State()), source, needCleanAll);
        knex.State() == r.tables && progress == r.progress && failure == r.failure
      ensures Valid(old(knex.State())) ==> Valid(knex.State())
    {
      ghost var goal := StoreAll(old(knex.State()), source, needCleanAll);
      if Valid(knex.State()) {
        BookStoreProperties.StoreAllValid(knex.State(), source, needCleanAll);
      }
      if needCleanAll {
        CleanAll();
      }
      var countDone := 0;
      var chunkBooks: seq<RdfBook> := [];
      var i := 0;
      progress := [];
      failure := None;
      assert source[0..] == source && [] + Loop(knex.State(), source, [], 0, needCleanAll).progress == goal.progress;
      while true
        invariant i <= |source| && failure == None
        invariant goal == Resume(knex.State(), source[i..], chunkBooks, countDone, needCleanAll, progress)
        decreases |source| - i, |chunkBooks|
      {
        ghost var t := knex.State();
        ghost var items := source[i..];
        ghost var count0 := countDone;
        ghost var chunk0 := chunkBooks;
        var done := i == |source|;
        if done {
          if chunkBooks == [] {
            ResumeEnds(t, countDone, needCleanAll, progress);
            break;
          }
        } else {
          assert items[0] == source[i] && items[1..] == source[i + 1..];
          countDone := countDone + 1;
          var item := source[i];
          i := i + 1;
          if item.Parsed? {
            chunkBooks := chunkBooks + [item.book];
          } else {
            ResumeSkips(t, items, chunk0, count0, needCleanAll, progress);
            continue;
          }
        }
        if !done && |chunkBooks| < ChunkSize {
          ResumeGathers(t, items, chunk0, count0, needCleanAll, progress);
          continue;
        }
        assert Flushing(items, chunk0, count0, source[i..], chunkBooks, countDone);
        var chunkFailure := StoreChunk(chunkBooks, needCleanAll);
        if chunkFailure.Some? {
          ResumeFails(t, items, chunk0, count0, needCleanAll, progress, source[i..], chunkBooks, countDone);
          failure := chunkFailure;
          break;
        }
        ResumeFlushes(t, items, chunk0, count0, needCleanAll, progress, source[i..], chunkBooks, countDone);
        chunkBooks := [];
        progress := progress + [countDone];
      }
    }

    /** One flush: the existence check unless cleaned, one agent lookup, then every book. */
    method StoreChunk(chunkBooks: seq<RdfBook>, needCleanAll: bool) returns (failure: Option<RunError>)
      modifies knex
      ensures var f := Flush(old(knex.State()), chunkBooks, needCleanAll);
        knex.State() == f.tables && failure == f.failure
    {
      var booksToStore := chunkBooks;
      if !needCleanAll {
        booksToStore := FreshBooks(BookIds(knex.book), chunkBooks);
      }
      var agents := ChunkCreators(booksToStore);
      var agentsIdsPerUris := GetAgentsIdsByUris(Uris(agents));
      failure := StoreEachBook(booksToStore, agentsIdsPerUris);
    }

    /** Stores the books in order with one shared cache; the first error stops it, tagged with its book id. */
    method StoreEachBook(books: seq<RdfBook>, agentsIdsPerUris: map<string, nat>) returns (failure: Option<RunError>)
      modifies knex
      ensures var f := StoreEach(old(knex.State()), books, agentsIdsPerUris);
        knex.State() == f.tables && failure == f.failure
    {
      ghost var goal := StoreEach(knex.State(), books, agentsIdsPerUris);
      var cache := agentsIdsPerUris;
      failure := None;
      for k := 0 to |books|
        invariant goal == StoreEach(knex.State(), books[k..], cache)
      {
        assert books[k..][0] == books[k] && books[k..][1..] == books[k + 1..];
        var f, stored := StoreBookWithRelations(books[k], Some(cache));
        if f.Some? {
          failure := Some(UnableToStoreBook(books[k].id, f.value));
          return;
        }
        cache := stored.value;
      }
    }
  }
}
