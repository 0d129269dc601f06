# rdf-extractor in Dafny

A model of the core of rdf-extractor. The program reads the RDF catalogue of Project Gutenberg,
turns each ebook's RDF/XML record into an `RdfBook` and stores the books in a MySQL database
through knex. Three parts are modelled:

- **The traversal helper** (`RdfHelper`). It walks the object tree that xml2js builds and
  collects every node found at the end of a path of property names, flattening arrays along
  the way. `JsValue` models the JavaScript values it sees: `undefined`, strings, arrays,
  objects, and the numbers that appear as `length`. It also models truthiness, the `in`
  operator (a `TypeError` on primitives), `split`, `join` and the decimal text of a number.
- **The parser** (`RdfBookParser`). It models `parseRdfBook` from the parsed document onward:
  - the four `assert`s (root, ebook object, `rdf:about` string, valid id), each modelled as an
    error result;
  - the `ebooks/<digits>` id;
  - the field reads;
  - the subject filter.

  It also models `subjectToText`, with its LCC / LCSH switch and the Library of Congress
  letter table `SUBJECT_LLC_CODES`.
- **The store** (`BookStore`, `BookService`, `BookStoreProperties`).
  - `BookStore` holds the four tables (`book`, `book_subject`, `book_creator`, `agent`) and
    the auto-increment counter of `agent` as one value. Pure functions say what each service
    operation leaves behind.
  - `BookService` has two classes. The class `Database` changes the tables in place, with
    all-or-nothing transactions. The class `BookService` runs the five service operations
    step by step, as the JavaScript does. Each method is proved to end in the state the
    matching function names.
  - `BookStoreProperties` proves what those functions promise:
    - every store operation keeps the tables consistent: a transaction, `storeAgent`,
      `storeBookWithRelations` with or without a cache, a chunk, a whole run;
    - after a run that ended without error, a second non-clean run over the same source
      stores nothing new;
    - a clean run stores every book exactly when the ids are distinct;
    - the reported counts rise, and a run without error reports once per started chunk of
      1000 parsed books;
    - a failure names a book that is already stored;
    - two defects of the code are modelled as written.

`Models` holds the records `RdfBook`, `Agent` and `Date`. `Wrappers` holds `Option` and `Result`.

### Behaviour of the code worth knowing

- Agents are keyed by their `rdf_uri` (services/BookService.js:36-40); creators are joined
  through the `book_creator` table.
- The LCC lookup uses the whole `rdf:value` as the key (services/RdfBookParser.js:42). So a
  class such as `PS` is not in the table and the subject is dropped
  (`RdfBookParser.LccLookupExamples`).
- The parser fills `authors` (services/RdfBookParser.js:79). The store reads `creators`
  (services/BookService.js:69, 79, 178), which the parser never sets. So no agents or
  creator rows are ever written for a parsed book (`BookStoreProperties.ParsedBookStoresNoCreators`).
- In `storeBookWithRelations`, the `let agentId` at services/BookService.js:82 declares a new
  variable inside the `if`. The id that the insert returns therefore never reaches
  `creatorsIdsSet`, and the outer `agentId` stays `undefined`. The model keeps this:
  - the id added to the set is always the cache lookup, `None` when the URI is not in the cache;
  - all creators unknown to the cache produce a single creator row whose agent id is `undefined`
    (`BookStoreProperties.UnknownCreatorsJoinOnce`).
- The cache of new agents is merged only after the transaction commits
  (services/BookService.js:113-115). So a URI that is not stored yet and appears twice in one
  book is inserted twice.
- When `pgterms:ebook` is missing, `|| {}` turns it into an empty object. The object check then
  passes, and the failure is the `rdf:about` check (`RdfBookParser.ParseWithoutEbook`).

## Model

| member | source | states |
|---|---|---|
| RdfHelper.TraverseDownAndAggregate | helpers/RdfHelper.js:9-31 | The nested loops return exactly `Traverse(root, path)`: a falsy root gives `[]`; otherwise each step replaces the stack by the children under that key, flattening arrays, and stops early on an empty stack; `in` on a primitive is an error |
| RdfHelper.Traverse | helpers/RdfHelper.js:10-13 | A falsy root gives `[]`; a truthy root with no steps gives `[root]` |
| RdfHelper.Step | helpers/RdfHelper.js:16-26 | One step fails exactly when some node of the stack is a primitive, and then reports such a node |
| RdfHelper.Contribution | helpers/RdfHelper.js:17-24 | Reference definition of one node's part of the next stack: a `TypeError` on a primitive, nothing without the key, the elements of an array child, the child itself otherwise |
| RdfHelper.Walk | helpers/RdfHelper.js:14-29 | Reference definition of the `for` loop over the path: one step per key, stopping with `[]` as soon as a step leaves nothing |
| RdfHelper.StepConcat | helpers/RdfHelper.js:16-26 | The step of a concatenated stack is the two steps' results concatenated (the first error wins) |
| RdfHelper.StepUnfold | helpers/RdfHelper.js:16-26 | A step over a stack is the step over all but the last node followed by the last node's contribution |
| RdfHelper.StepSingleton | helpers/RdfHelper.js:17-24 | A step over one node is that node's contribution: its array child's elements, its single child, or nothing |
| RdfHelper.StepLength | helpers/RdfHelper.js:19-24 | The new stack holds as many nodes as the children counted node by node (an array counts its length) |
| RdfHelper.WalkEmpty | helpers/RdfHelper.js:28 | An empty stack stays empty whatever path follows |
| RdfHelper.WalkConcat | helpers/RdfHelper.js:14-29 | Walking `p + q` is walking `p` and then walking `q` from where `p` ended, errors propagating |
| RdfHelper.TraverseSnoc | helpers/RdfHelper.js:14-29 | Extending a path that reaches a non-empty stack by one step is exactly one more step on that stack, its error included |
| RdfHelper.TraverseEarlyExit | helpers/RdfHelper.js:28 | Once a prefix of the path reaches nothing, no later step is looked at and the result is `[]` |
| RdfHelper.TraverseMissingKey | helpers/RdfHelper.js:17 | An object without the first key yields nothing for any path |
| JsValue.NatToString | services/BookService.js:186 | The decimal text of a number is non-empty digits with no leading zero, and is `"0"` exactly for 0 |
| JsValue.DecimalRoundTrip | services/RdfBookParser.js:75 | `parseInt` reads the decimal text of `n` back as `n` |
| JsValue.CanonicalDecimal | helpers/RdfHelper.js:17-18 | A canonical numeral is the decimal text of its own value |
| JsValue.ArrayIndex | helpers/RdfHelper.js:17-18 | A key read as an array index is the decimal text of that index |
| JsValue.ArrayIndexOfDecimal | helpers/RdfHelper.js:17-18 | Every decimal text `String(n)` addresses array element `n` |
| JsValue.DigitChar | services/BookService.js:186 | A digit character carries the digit's value |
| JsValue.Split | services/RdfBookParser.js:36 | `split` always gives at least one part |
| JsValue.SplitNoSeparator | services/RdfBookParser.js:36 | No part of a split holds the separator |
| JsValue.SplitJoin | services/RdfBookParser.js:36 | Joining the parts back with the separator gives the string (the round trip of `split` and `join`) |
| JsValue.SplitLast | services/RdfBookParser.js:36 | The last part is a suffix without the separator, preceded by the separator or by nothing |
| JsValue.LastPartAfterSeparator | services/RdfBookParser.js:36 | The last part of `prefix + "/" + tail` is `tail` when `tail` has no `/` |
| JsValue.LastPartNotLonger | services/RdfBookParser.js:36 | That last part is no longer than `tail` |
| JsValue.LastPartNotShorter | services/RdfBookParser.js:36 | That last part is no shorter than `tail` |
| JsValue.SplitWithoutSeparator | services/RdfBookParser.js:36 | A string without the separator splits into itself |
| RdfBookParser.LccTable | services/RdfBookParser.js:151-173 | The table has 21 entries, keyed by single capital letters other than I, O, W, X and Y; Q is SCIENCE and E and F share HISTORY OF THE AMERICAS |
| RdfBookParser.LccKeysListed | services/RdfBookParser.js:151-173 | The keys of the table are exactly the listed letters |
| RdfBookParser.LccLettersAscending | services/RdfBookParser.js:152-172 | The listed keys are single letters in ascending order |
| RdfBookParser.AscendingLettersDistinct | services/RdfBookParser.js:152-172 | Ascending single letters are pairwise distinct, so the 21 entries give 21 keys |
| RdfBookParser.LccShape | services/RdfBookParser.js:152-172 | Each key is one capital letter other than I, O, W, X and Y |
| RdfBookParser.LccValues | services/RdfBookParser.js:156-166 | Q maps to SCIENCE; E and F both map to HISTORY OF THE AMERICAS |
| RdfBookParser.LccSize | services/RdfBookParser.js:151-173 | The table has 21 entries |
| RdfBookParser.SubjectToText | services/RdfBookParser.js:29-51 | Reference definition of `subjectToText`: first member resource, its scheme term, first value, then the LCC / LCSH / other switch, with the traversal errors carried |
| RdfBookParser.SchemeTerm | services/RdfBookParser.js:36 | Reference definition of the scheme term: the member, or `''` when it is falsy, split at `/`, its last part; an error when that value is not a string |
| RdfBookParser.LccLookup | services/RdfBookParser.js:42 | Reference definition of `SUBJECT_LLC_CODES.get(value)`: the entry for a string key, `undefined` otherwise |
| RdfBookParser.Aggregate | services/RdfBookParser.js:31 | Calling the helper method returns the parser's view of the traversal |
| RdfBookParser.SchemeTermOfUri | services/RdfBookParser.js:31-36 | A member URI ending in `/code` gives scheme term `code` |
| RdfBookParser.SchemeTermOfNothing | services/RdfBookParser.js:36 | A missing member gives the empty scheme term (the `|| ''`) |
| RdfBookParser.MemberOfXml | services/RdfBookParser.js:31 | In a subject node as xml2js builds it, the member path reaches the `rdf:resource` text |
| RdfBookParser.ValueOfXml | services/RdfBookParser.js:38 | In such a node, `rdf:value` reaches the value text |
| RdfBookParser.SubjectToTextOfXml | services/RdfBookParser.js:29-51 | A subject whose scheme URI ends in LCC gives the table entry of its value (or `undefined`), LCSH gives the value itself, anything else gives `undefined` |
| RdfBookParser.SubjectToTextOfResource | services/RdfBookParser.js:29-51 | On any subject node whose first member resource is a string and whose value traversal does not throw, the result is decided by the last `/`-segment of that resource: LCC looks the first value up, LCSH returns it, anything else gives `undefined` |
| RdfBookParser.SubjectUnderDcTerm | services/RdfBookParser.js:29-51 | The same classification for a scheme under `http://purl.org/dc/terms/` |
| RdfBookParser.LccLookupExamples | services/RdfBookParser.js:42 | The lookup is keyed by the whole value: `Q` gives SCIENCE, `PS` gives `undefined` |
| RdfBookParser.EbookIdRoundTrip | services/RdfBookParser.js:73-75 | `ebooks/` followed by the decimal text of `n` gives book id `n` |
| RdfBookParser.EbookIdExamples | services/RdfBookParser.js:73-75 | `ebooks/84` and `ebooks/084` give 84; `ebooks/abc`, `foo/84`, `ebooks/` and `ebooks/84/` are rejected |
| RdfBookParser.MatchEbookId | services/RdfBookParser.js:73-75 | Reference definition of `/^ebooks\/(\d+)$/` and `parseInt` of the digits |
| RdfBookParser.EbookEntry | services/RdfBookParser.js:67 | Reference definition of `_.get(rdfRoot, ['pgterms:ebook', 0])` |
| RdfBookParser.PublishedAt | services/RdfBookParser.js:83-85 | Reference definition of the date: parsed only from a truthy `dcterms:issued`, and absent when the parse fails |
| RdfBookParser.KeepSubjects | services/RdfBookParser.js:90-96 | The subjects succeed exactly when every conversion does; only truthy subjects are kept, never more than the nodes |
| RdfBookParser.KeepSubjectsPrefix | services/RdfBookParser.js:91-95 | One more conversion appends its subject when truthy, or propagates its error |
| RdfBookParser.KeepSubjectsFirstError | services/RdfBookParser.js:91-95 | Once a conversion fails, later nodes do not change the outcome |
| RdfBookParser.CollectSubjects | services/RdfBookParser.js:89-96 | The loop over subject nodes returns exactly the kept subjects |
| RdfBookParser.ReadFields | services/RdfBookParser.js:77-98 | Reading the fields after the id returns the book the field functions describe |
| RdfBookParser.ParseRdfBook | services/RdfBookParser.js:58-102 | Parsing a document returns exactly `ParsedBook`: the assertion errors in order, then the book |
| RdfBookParser.ParsedBook | services/RdfBookParser.js:58-102 | Reference definition of `parseRdfBook` after xml2js: the `rdf:RDF` property, the root, ebook-object, `rdf:about` string and id checks in order, then `BookFields` |
| RdfBookParser.BookFields | services/RdfBookParser.js:77-98 | Reference definition of the field reads after the id: title, authors, publisher, date, language, truthy subjects and licenses, creators unset |
| RdfBookParser.ParseWithoutRoot | services/RdfBookParser.js:64-65 | For any document: `undefined` fails on the `rdf:RDF` property, and any other document whose `rdf:RDF` is missing or falsy fails the root assertion |
| RdfBookParser.ParseWithoutEbook | services/RdfBookParser.js:67-71 | For any document with a truthy root: a missing `pgterms:ebook`, or any falsy first entry, becomes `{}` and fails the `rdf:about` check; a truthy first entry that is not an object fails the object check |
| RdfBookParser.ParsedBookFields | services/RdfBookParser.js:64-100 | A parsed book's id is the one its `rdf:about` names; title and publisher are the first node at their path when it is truthy and `''` otherwise; the date is `parseDate` of a truthy first `dcterms:issued` and absent otherwise; the language is the first node at its path; every subject is truthy; authors and licenses are the traversals of their paths; creators are never set |
| RdfBookParser.ParsedBookStages | services/RdfBookParser.js:63-75 | A document that parses has passed the three checks in order, and its book is `BookFields` of its root, its ebook entry and the id its `rdf:about` names |
| RdfBookParser.ParsedBookReachesFields | services/RdfBookParser.js:63-75 | Conversely, a document passing the three checks is parsed by `BookFields` with that id |
| RdfBookParser.BookFieldsShape | services/RdfBookParser.js:77-98 | Field reading keeps the id given; title and publisher are the first node found when truthy and `''` otherwise; the date is `parseDate` of a truthy first `dcterms:issued` and absent otherwise (an unparseable date included); the language is the first node found; only truthy subjects are kept; authors and licenses are as traversed; creators are never set |
| RdfBookParser.BookFieldsWithoutData | services/RdfBookParser.js:77-98 | When no field path finds its first key, every field takes its default: `''`, `[]`, `undefined` or no date |
| RdfBookParser.ParseMinimalDocument | services/RdfBookParser.js:58-102 | A document holding only `rdf:about="ebooks/<id>"` parses to a book with that id, empty title and publisher and no other data |
| BookStore.AgentIdsByUrisKeys | services/BookService.js:34-43 | The map has a key for exactly the requested URIs that some agent row carries |
| BookStore.AgentIdsByUrisLastRow | services/BookService.js:39-41 | Each URI maps to the id of the last matching row |
| BookStore.AgentIdsByUris | services/BookService.js:34-43 | Reference definition of `getAgentsIdsByUris`: the rows whose URI was requested, set into a map in row order |
| BookStore.Cleaned | services/BookService.js:20-25 | Reference definition of `cleanAll`: all four tables empty, the counter kept |
| BookStore.Resolve | services/BookService.js:79-87 | Reference definition of the creator loop: a lookup per creator, an insert with the next id when it is falsy, and the lookup (not the new id) added to the set |
| BookStore.BookRowOf | services/BookService.js:89-96 | Reference definition of the book row: id, title, publisher, the date or `0000-00-00 00:00:00`, language, licenses joined by `; ` |
| BookStore.Persist | services/BookService.js:75-115 | Reference definition of the transaction: rollback on a duplicate book id, otherwise agents, book, subject and creator rows committed and the new ids merged into the cache |
| BookStore.StoreBook | services/BookService.js:66-116 | Reference definition of `storeBookWithRelations`: the lookup when no cache is passed, then `Persist` |
| BookStore.StoreEach | services/BookService.js:181-189 | Reference definition of the loop over the books to store: in order, stopping at the first failure with `unable to store book #id` |
| BookStore.Flush | services/BookService.js:166-189 | Reference definition of a chunk flush: filter to unstored books unless cleaning, one agent lookup, then `StoreEach` |
| BookStore.Loop | services/BookService.js:137-194 | Reference definition of the `while (true)` loop: count every record, skip parse errors, gather up to 1000 books, flush and report the count |
| BookStore.StoreAll | services/BookService.js:125-197 | Reference definition of `storeAllBooks`: the optional clean, then `Loop` from an empty chunk and count 0 |
| BookStore.ResolveIdsDistinct | services/BookService.js:77-87 | The creator-id set holds no value twice |
| BookStore.ResolveIdsLookedUp | services/BookService.js:80-86 | Because of the shadowing, the set holds exactly the cache lookups of the creators' URIs (`undefined` for unseen ones) |
| BookStore.UnknownCreators | services/BookService.js:79-83 | The creators whose looked-up id is falsy, in order (reference definition for `ResolveInserted`) |
| BookStore.ResolveInserted | services/BookService.js:79-83 | One agent row is inserted per creator with a falsy lookup: the inserted rows are exactly `UnknownCreators`, in order, each with its name and URI and with consecutive ids from the counter; the new ids are recorded for exactly those URIs |
| BookStore.FreshBooks | services/BookService.js:169-173 | The books to store are exactly the chunk's books whose ids are not stored |
| BookService.Database.Delete | services/BookService.js:21-24 | Deleting a table empties it and leaves the others and the counter alone |
| BookService.Database.InsertAgent | services/BookService.js:53-58 | An agent row goes in with the next auto-increment id, which is returned |
| BookService.Database.InsertBook | services/BookService.js:89-96 | A book row with an existing id is refused and changes nothing; otherwise it is appended |
| BookService.Database.InsertSubject | services/BookService.js:99-102 | A subject row is appended |
| BookService.Database.InsertCreator | services/BookService.js:106-109 | A creator row is appended |
| BookService.Database.Rollback | services/BookService.js:75-111 | A rollback restores the tables saved at the start of the transaction but keeps the advanced counter |
| BookService.Database.constructor | main.js:48-51 | A freshly initialised schema: four empty tables, the agent counter at 1 |
| BookService.BookService.constructor | services/BookService.js:13-17 | The service keeps the database connection it is given |
| BookService.BookService.CleanAll | services/BookService.js:20-25 | The four tables are emptied; the counter is kept |
| BookService.BookService.GetAgentsIdsByUris | services/BookService.js:34-43 | The loop over the rows builds `AgentIdsByUris` of the agent table |
| BookService.BookService.StoreAgent | services/BookService.js:51-59 | Inserts the agent with its name and URI and returns its new id |
| BookService.BookService.Transaction | services/BookService.js:75-111 | The transaction ends in `Persist`: a duplicate book rolls back every row; otherwise the book, subject, creator and agent rows are committed and the new ids returned |
| BookService.BookService.InsertJoinRows | services/BookService.js:98-110 | Subject rows, then one creator row per id of the set, are appended |
| BookService.BookService.Merge | services/BookService.js:113-115 | Merging puts every new id into the cache over the old one |
| BookService.BookService.StoreBookWithRelations | services/BookService.js:66-116 | Storing a book ends in `StoreBook`; with no cache the agents are looked up first, and the caller's cache grows only when one was passed |
| BookService.BookService.StoreEachBook | services/BookService.js:181-189 | The books of a chunk are stored in order until the first failure, which is reported as `unable to store book #id` |
| BookService.BookService.StoreChunk | services/BookService.js:166-189 | A chunk is filtered to unstored books unless cleaning, its agents are looked up once, and it is stored as `Flush` says |
| BookService.BookService.StoreAllBooks | services/BookService.js:125-197 | The loop ends in `StoreAll`: optional clean, chunks of 1000, parse errors skipped but counted, a count reported after each chunk; a consistent database stays consistent |
| BookStoreProperties.EmptyValid | main.js:48-51 | The freshly initialised, empty database is consistent |
| BookStoreProperties.CleanedValid | services/BookService.js:20-25 | Cleaning keeps the database consistent and the counter unchanged |
| BookStoreProperties.LookupStored | services/BookService.js:34-43 | Every id the lookup returns belongs to a stored agent |
| BookStoreProperties.PersistAgentsValid | services/BookService.js:81-83 | New agent ids stay ascending, above the stored ones and below the counter, and the new cache entries name them |
| BookStoreProperties.AppendedAgentsAscend | services/BookService.js:53-58 | Agent rows numbered on from the counter keep the agent ids ascending and below the advanced counter |
| BookStoreProperties.PersistCreatorsValid | services/BookService.js:86 | Every defined id in the creator set names a stored agent |
| BookStoreProperties.CommitBooksValid | services/BookService.js:89-96 | A committed book keeps book ids unique |
| BookStoreProperties.CommitJoinsValid | services/BookService.js:98-110 | Committed join rows refer to stored books and agents |
| BookStoreProperties.PersistValid | services/BookService.js:75-111 | A transaction, committed or rolled back, keeps the database consistent and the cache naming stored agents |
| BookStoreProperties.StoreBookValid | services/BookService.js:66-116 | `storeBookWithRelations` keeps the database consistent, with a cache naming stored agents or with its own lookup, and a passed cache comes back naming stored agents |
| BookStoreProperties.InsertAgentValid | services/BookService.js:51-59 | A standalone `storeAgent` keeps the database consistent and adds exactly its new id to the agent ids |
| BookStoreProperties.CommitValid | services/BookService.js:75-115 | The tables a commit leaves (book, subject, creator and agent rows appended, counter advanced) and the merged cache are consistent |
| BookStoreProperties.StoreEachValid | services/BookService.js:181-189 | Storing a chunk keeps the database consistent |
| BookStoreProperties.FlushValid | services/BookService.js:166-189 | Flushing a chunk keeps the database consistent |
| BookStoreProperties.LoopValid | services/BookService.js:137-194 | The whole loop keeps the database consistent |
| BookStoreProperties.StoreAllValid | services/BookService.js:125-197 | A run keeps a consistent database consistent |
| BookStoreProperties.PersistStores | services/BookService.js:75-111 | A transaction never removes a book, and a committed one adds its own id |
| BookStoreProperties.StoreEachStores | services/BookService.js:181-189 | Storing a chunk never removes a book, and without error stores every book of the chunk |
| BookStoreProperties.FlushStores | services/BookService.js:166-189 | After a flush without error every book of the chunk is stored |
| BookStoreProperties.LoopStores | services/BookService.js:137-194 | A loop ending without error has stored every parsed book of the chunk and of the source |
| BookStoreProperties.FlushNothingNew | services/BookService.js:169-173 | A non-clean flush of books already stored changes nothing |
| BookStoreProperties.LoopNothingNew | services/BookService.js:137-194 | A non-clean loop over books already stored changes nothing and does not fail |
| BookStoreProperties.LoopProgressOnly | services/BookService.js:150-192 | For two runs over the same source that both end without error, the reported counts are the same whatever the tables |
| BookStoreProperties.RerunStoresNothing | services/BookService.js:125-197 | After a successful non-clean run, running it again over the same source leaves the database as it is, reports the same counts and does not fail |
| BookStoreProperties.BookIdsOfRows | services/BookService.js:89-96 | The ids of the stored rows are the books' ids |
| BookStoreProperties.FreshAfterChunk | services/BookService.js:161-191 | Distinct unstored books stay distinct and unstored across the chunk boundary |
| BookStoreProperties.StoreEachRows | services/BookService.js:181-189 | A chunk stored without error appends its books' rows in order |
| BookStoreProperties.StoreEachFresh | services/BookService.js:181-189 | Distinct books none of which is stored are all stored without error |
| BookStoreProperties.CleanLoopRows | services/BookService.js:137-194 | A clean loop ending without error appends the rows of all parsed books in source order |
| BookStoreProperties.CleanLoopSucceeds | services/BookService.js:137-194 | A clean loop over distinct unstored books does not fail |
| BookStoreProperties.CleanRunStoresEveryBook | services/BookService.js:125-197 | A clean run succeeds exactly when the parsed books have distinct ids, and then the book table is their rows in source order |
| BookStoreProperties.CleanRunRows | services/BookService.js:125-197 | A clean run that ends without error leaves the book table equal to the parsed books' rows in source order, so their ids were distinct |
| BookStoreProperties.LoopProgress | services/BookService.js:137-194 | The counts rise strictly and lie between the count so far and the count after the source |
| BookStoreProperties.RunProgress | services/BookService.js:125-197 | A run reports strictly rising counts between 1 and the number of records |
| BookStoreProperties.LoopFlushCount | services/BookService.js:144-192 | A chunk is flushed when it reaches 1000 books or the source ends: a loop without error reports `ceil((chunk + parsed books) / 1000)` counts |
| BookStoreProperties.RunFlushCount | services/BookService.js:125-197 | A run without error reports `ceil(parsed books / 1000)` counts |
| BookStoreProperties.StoreEachFailure | services/BookService.js:181-189 | A chunk fails only on a book whose id is already stored, and names it |
| BookStoreProperties.StoreEachAborts | services/BookService.js:181-189 | A chunk that fails stops at the failing book `books[k]`, whose id it reports: the `book` table holds the old rows plus exactly those of `books[..k]` |
| BookStoreProperties.LoopFailure | services/BookService.js:137-194 | A run fails only on a book whose id is already stored in the final tables, and names it |
| BookStoreProperties.LoopFailureStopsReporting | services/BookService.js:137-194 | A run that fails reports fewer than `ceil((chunk + parsed books) / 1000)` counts: the failing chunk is never reported |
| BookStoreProperties.UnknownCreatorsJoinOnce | services/BookService.js:79-87 | Creators all unknown to the cache are each inserted, yet only one creator row is written, with agent id `undefined` |
| BookStoreProperties.KnownCreatorsInsertNothing | services/BookService.js:79-87 | Creators all known to the cache insert no agent and are joined by their cached ids |
| BookStoreProperties.LicenseJoinExample | services/BookService.js:95 | Licenses are stored joined by `; ` |
| BookStoreProperties.MissingDateStoredAsZero | services/BookService.js:93 | A book without a date is stored with `0000-00-00 00:00:00` |
| BookStoreProperties.FailureMessageNamesBook | services/BookService.js:186 | The error message is `unable to store book #`, the decimal id read back as the book's id, then `: ` and the cause |
| BookStoreProperties.ParsedBookStoresNoCreators | services/RdfBookParser.js:79 | A parsed book commits no agent or creator rows and leaves the counter and the cache unchanged, because the parser sets `authors` and the store reads `creators` |
| BookStoreProperties.NoCreatorsStoreNoAgents | services/BookService.js:79-110 | A book without creators commits no agent or creator rows and leaves the counter and the cache unchanged |
| BookStoreProperties.AuthorsNotStored | services/BookService.js:89-110 | Nothing written depends on a book's authors |

## Left out

- XML parsing: the model starts from the object xml2js builds (a `JsValue.Node`), with
  attributes under `$` and text under `_`, as the traversal paths use them.
- Date parsing (`new Date(...)` and the `isNaN` test) is a parameter `parseDate` of the parser.
  `null` and an invalid date both come out as `None`.
- `parseRdfBookById`, `scanBooksIds` and `downloadFiles` do file and network I/O and are not
  part of this model. main.js and its async generator of `[book, id]` pairs are replaced by a
  sequence of `SourceItem`s.
- Asynchrony, `await` and concurrency. Every call is taken as completing in program order.
- knex and SQL:
  - The only database failure modelled is a duplicate primary key in `book`. Column types,
    NOT NULL constraints and foreign keys (including the `undefined` agent id of the shadowing
    defect) are not checked.
  - The row order that `select` returns is the insertion order.
  - `whereIn` with an empty list matches nothing.
  - `whereIn('rdf_uri', ...)` (services/BookService.js:36-40) compares URIs exactly. A
    case-insensitive MySQL collation would match more rows than the model does.
- The id an agent insert returns is the agent table's auto-increment counter. The counter is
  kept across `DELETE` and rollback, as in InnoDB. A server that reuses ids is not modelled.
- `console.log` and `console.warn`: the counts logged after each chunk are returned as the
  `progress` sequence. Parse-error warnings are not modelled.
- Errors thrown by `storeBookWithRelations` other than the duplicate book, and the text of a
  database error message (a parameter of `FailureMessage`).
- Properties a value inherits from its prototype, such as `toString` seen by `in`. Only own
  properties, array indices and `length` are modelled.
- `parseInt` on ids beyond 2^53 (JavaScript number precision). Ids are unbounded naturals.
- `Agent.aliases`, which nothing in the core reads, and the `RdfBook` constructor's `null`
  defaults. A book's fields are always set by the parser.
- Numbers in the document other than `length`: xml2js produces only strings, arrays and objects.
