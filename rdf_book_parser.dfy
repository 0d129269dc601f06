/**
 * `RdfBookParser` (services/RdfBookParser.js): the Library of Congress
 * classification table, `subjectToText` and `parseRdfBook` after xml2js has
 * produced the tree.
 */
module RdfBookParser {
  import opened Wrappers
  import opened JsValue
  import opened RdfHelper
  import opened Models

  /** Top-level classes of the Library of Congress Classification (`SUBJECT_LLC_CODES`). */
  const SubjectLccCodes: map<string, string> := map[
    "A" := "GENERAL WORKS",
    "B" := "PHILOSOPHY. PSYCHOLOGY. RELIGION",
    "C" := "AUXILIARY SCIENCES OF HISTORY",
    "D" := "WORLD HISTORY AND HISTORY OF EUROPE, ASIA, AFRICA, AUSTRALIA, NEW ZEALAND, ETC.",
    "E" := "HISTORY OF THE AMERICAS",
    "F" := "HISTORY OF THE AMERICAS",
    "G" := "GEOGRAPHY. ANTHROPOLOGY. RECREATION",
    "H" := "SOCIAL SCIENCES",
    "J" := "POLITICAL SCIENCE",
    "K" := "LAW",
    "L" := "EDUCATION",
    "M" := "MUSIC AND BOOKS ON MUSIC",
    "N" := "FINE ARTS",
    "P" := "LANGUAGE AND LITERATURE",
    "Q" := "SCIENCE",
    "R" := "MEDICINE",
    "S" := "AGRICULTURE",
    "T" := "TECHNOLOGY",
    "U" := "MILITARY SCIENCE",
    "V" := "NAVAL SCIENCE",
    "Z" := "BIBLIOGRAPHY. LIBRARY SCIENCE. INFORMATION RESOURCES (GENERAL)"
  ]

  /** The keys of the table in the order they are listed. */
  const LccLetters: seq<string> := ["A", "B", "C", "D", "E", "F", "G", "H", "J", "K", "L", "M", "N",
                                    "P", "Q", "R", "S", "T", "U", "V", "Z"]

  /** One-letter strings in strictly increasing order are pairwise distinct. */
  lemma {:induction false} AscendingLettersDistinct(s: seq<string>)
    requires forall i :: 0 <= i < |s| ==> |s[i]| == 1
    requires forall i :: 0 < i < |s| ==> s[i - 1][0] < s[i][0]
    ensures |set x | x in s| == |s|
    ensures forall x :: x in s ==> s[0][0] <= x[0]
  {
    if |s| > 0 {
      var rest := s[1..];
      AscendingLettersDistinct(rest);
      assert (set x | x in s) == {s[0]} + (set x | x in rest);
      if |rest| > 0 {
        assert s[0][0] < rest[0][0];
      }
      assert s[0] !in (set x | x in rest);
    }
  }

  lemma LccKeysListed()
    ensures SubjectLccCodes.Keys == set x | x in LccLetters
  {
  }

  lemma LccLettersAscending()
    ensures forall i :: 0 <= i < |LccLetters| ==> |LccLetters[i]| == 1
    ensures forall i :: 0 < i < |LccLetters| ==> LccLetters[i - 1][0] < LccLetters[i][0]
  {
  }

  lemma LccShape()
    ensures forall k :: k in SubjectLccCodes ==> |k| == 1 && 'A' <= k[0] <= 'Z' && k[0] !in {'I', 'O', 'W', 'X', 'Y'}
  {
  }

  lemma LccValues()
    ensures SubjectLccCodes["Q"] == "SCIENCE"
    ensures SubjectLccCodes["E"] == SubjectLccCodes["F"] == "HISTORY OF THE AMERICAS"
  {
  }

  lemma LccSize()
    ensures |SubjectLccCodes| == 21
  {
    LccKeysListed();
    LccLettersAscending();
    AscendingLettersDistinct(LccLetters);
    assert |SubjectLccCodes| == |SubjectLccCodes.Keys|;
  }

  /**
   * The table has exactly 21 keys, the letters A to Z without I, O, W, X and
   * Y; `Q` is science, and E and F share one value.
   */
  lemma LccTable()
    ensures SubjectLccCodes.Keys == set x | x in LccLetters
    ensures |SubjectLccCodes| == 21
    ensures forall k :: k in SubjectLccCodes ==> |k| == 1 && 'A' <= k[0] <= 'Z' && k[0] !in {'I', 'O', 'W', 'X', 'Y'}
    ensures SubjectLccCodes["Q"] == "SCIENCE"
    ensures SubjectLccCodes["E"] == SubjectLccCodes["F"] == "HISTORY OF THE AMERICAS"
  {
    LccKeysListed();
    LccSize();
    LccShape();
    LccValues();
  }

  /** What `parseRdfBook` throws. */
  datatype ParseError =
    | PropertyOfUndefined(key: string)   // reading `rdf:RDF` of an empty parse result
    | MissingRdfRoot                     // must be "rdf:RDF" in root of rdf document
    | EbookNotObject                     // there must be "pgterms:ebook"
    | AboutNotString                     // there must be "rdf:about" in "pgterms:ebook"
    | AboutInvalid                       // "rdf:about" must be valid
    | Traversal(cause: TraverseError)    // a TypeError thrown inside the traversal
    | SplitNotFunction(member: Node)     // `.split` called on something that is not a string

  const MemberPath: seq<string> := ["dcam:memberOf", "$", "rdf:resource"]
  const ValuePath: seq<string> := ["rdf:value"]
  const AboutPath: seq<string> := ["$", "rdf:about"]
  const TitlePath: seq<string> := ["dcterms:title"]
  const AuthorsPath: seq<string> := ["dcterms:creator", "pgterms:agent", "pgterms:name"]
  const PublisherPath: seq<string> := ["dcterms:publisher"]
  const IssuedPath: seq<string> := ["dcterms:issued", "_"]
  const LanguagePath: seq<string> := ["dcterms:language", "rdf:Description", "rdf:value", "_"]
  const SubjectsPath: seq<string> := ["dcterms:subject", "rdf:Description"]
  const LicensesPath: seq<string> := ["cc:Work", "cc:license", "$", "rdf:resource"]

  /** The traversal with its TypeError carried as a parse error. */
  function Aggregated(root: Node, path: seq<string>): Result<seq<Node>, ParseError> {
    match Traverse(root, path)
    case Ok(nodes) => Ok(nodes)
    case Err(e) => Err(Traversal(e))
  }

  /**
   * The classification scheme named by a `dcam:memberOf` resource:
   * `_.last((member || '').split('/'))`.
   */
  function SchemeTerm(member: Node): Result<string, ParseError> {
    var text := Or(member, Str(""));
    if text.Str? then Ok(Last(Split(text.s, '/'))) else Err(SplitNotFunction(text))
  }

  /** `SUBJECT_LLC_CODES.get(value)`; `undefined` for anything that is not a key. */
  function LccLookup(value: Node): Node {
    if value.Str? && value.s in SubjectLccCodes then Str(SubjectLccCodes[value.s]) else Undefined
  }

  /**
   * `subjectToText`: a Library of Congress class letter through the table,
   * a subject heading unchanged, and `undefined` for any other scheme.
   */
  function SubjectToText(subjectNode: Node): Result<Node, ParseError> {
    var members :- Aggregated(subjectNode, MemberPath);
    var term :- SchemeTerm(First(members));
    var values :- Aggregated(subjectNode, ValuePath);
    var rdfValue := First(values);
    Ok(if term == "LCC" then LccLookup(rdfValue) else if term == "LCSH" then rdfValue else Undefined)
  }

  /**
   * What the loop over the subject candidates keeps of the classifier's
   * results: the truthy ones in order, or the first error.
   */
  function KeepSubjects(results: seq<Result<Node, ParseError>>): (r: Result<seq<Node>, ParseError>)
    ensures r.Ok? <==> forall k :: 0 <= k < |results| ==> results[k].Ok?
    ensures r.Ok? ==> |r.value| <= |results| && forall k :: 0 <= k < |r.value| ==> Truthy(r.value[k])
  {
    if results == [] then Ok([])
    else
      var init := results[..|results| - 1];
      assert forall k :: 0 <= k < |init| ==> init[k] == results[k];
      match KeepSubjects(init)
      case Err(e) => Err(e)
      case Ok(front) =>
        match results[|results| - 1]
        case Err(e) => Err(e)
        case Ok(subject) => Ok(if Truthy(subject) then front + [subject] else front)
  }

  /** `subjectToText` of every candidate, in order. */
  function SubjectResults(nodes: seq<Node>): seq<Result<Node, ParseError>> {
    seq(|nodes|, k requires 0 <= k < |nodes| => SubjectToText(nodes[k]))
  }

  const EbookPrefix: string := "ebooks/"

  /** `about.match(/^ebooks\/(\d+)$/)` and `parseInt` of the captured digits. */
  function MatchEbookId(about: string): Option<nat> {
    var n := |EbookPrefix|;
    if |about| > n && about[..n] == EbookPrefix && IsDigits(about[n..]) then Some(DecimalValue(about[n..]))
    else None
  }

  /** `_.get(rdfRoot, ['pgterms:ebook', 0])` on a root that is not `undefined`. */
  function EbookEntry(rdfRoot: Node): Node {
    var entries := Get(rdfRoot, "pgterms:ebook");
    if entries.Undefined? then Undefined else Get(entries, "0")
  }

  /** `publishedAt && new Date(publishedAt)`, then kept only when it is a valid date. */
  function PublishedAt(issued: Node, parseDate: Node -> Option<Date>): Option<Date> {
    if Truthy(issued) then parseDate(issued) else None
  }

  /**
   * `parseRdfBook` on the tree xml2js returned: the required structure is
   * asserted in order, every other field is best effort.
   */
  function ParsedBook(xmlDoc: Node, parseDate: Node -> Option<Date>): Result<RdfBook, ParseError> {
    if xmlDoc.Undefined? then Err(PropertyOfUndefined("rdf:RDF"))
    else
      var rdfRoot := Get(xmlDoc, "rdf:RDF");
      if !Truthy(rdfRoot) then Err(MissingRdfRoot)
      else
        var pgTerms := Or(EbookEntry(rdfRoot), Obj(map[]));
        if !pgTerms.Obj? then Err(EbookNotObject)
        else
          var abouts :- Aggregated(pgTerms, AboutPath);
          var about := First(abouts);
          if !about.Str? then Err(AboutNotString)
          else if MatchEbookId(about.s).None? then Err(AboutInvalid)
          else
            BookFields(rdfRoot, pgTerms, MatchEbookId(about.s).value, parseDate)
  }

  /** The best-effort fields, read once the identifier is known. */
  function BookFields(rdfRoot: Node, pgTerms: Node, id: nat, parseDate: Node -> Option<Date>): Result<RdfBook, ParseError> {
    var titles :- Aggregated(pgTerms, TitlePath);
    var authors :- Aggregated(pgTerms, AuthorsPath);
    var publishers :- Aggregated(pgTerms, PublisherPath);
    var issued :- Aggregated(pgTerms, IssuedPath);
    var languages :- Aggregated(pgTerms, LanguagePath);
    var subjectNodes :- Aggregated(pgTerms, SubjectsPath);
    var subjects :- KeepSubjects(SubjectResults(subjectNodes));
    var licenses :- Aggregated(rdfRoot, LicensesPath);
    Ok(RdfBook(
      id,
      Or(First(titles), Str("")),
      authors,
      Or(First(publishers), Str("")),
      PublishedAt(First(issued), parseDate),
      First(languages),
      subjects,
      licenses,
      None))
  }

  /** `traverseDownAndAggregate` called from the parser, its TypeError becoming a parse error. */
  method Aggregate(root: Node, path: seq<string>) returns (r: Result<seq<Node>, ParseError>)
    ensures r == Aggregated(root, path)
  {
    var nodes := TraverseDownAndAggregate(root, path);
    match nodes {
      case Ok(found) => r := Ok(found);
      case Err(e) => r := Err(Traversal(e));
    }
  }

  /**
   * The imperative `parseRdfBook`: the fields are filled one after another
   * and a loop pushes the truthy subjects.
   */
  method ParseRdfBook(xmlDoc: Node, parseDate: Node -> Option<Date>) returns (r: Result<RdfBook, ParseError>)
    ensures r == ParsedBook(xmlDoc, parseDate)
  {
    if xmlDoc.Undefined? {
      return Err(PropertyOfUndefined("rdf:RDF"));
    }
    var rdfRoot := Get(xmlDoc, "rdf:RDF");
    if !Truthy(rdfRoot) {
      return Err(MissingRdfRoot);
    }
    var pgTerms := Or(EbookEntry(rdfRoot), Obj(map[]));
    if !pgTerms.Obj? {
      return Err(EbookNotObject);
    }
    var abouts :- Aggregate(pgTerms, AboutPath);
    var about := First(abouts);
    if !about.Str? {
      return Err(AboutNotString);
    }
    var idMatches := MatchEbookId(about.s);
    if idMatches.None? {
      return Err(AboutInvalid);
    }
    r := ReadFields(rdfRoot, pgTerms, idMatches.value, parseDate);
  }

  /** The field assignments of `parseRdfBook` after the identifier check. */
  method ReadFields(rdfRoot: Node, pgTerms: Node, id: nat, parseDate: Node -> Option<Date>) returns (r: Result<RdfBook, ParseError>)
    ensures r == BookFields(rdfRoot, pgTerms, id, parseDate)
  {
    var titles :- Aggregate(pgTerms, TitlePath);
    var title := Or(First(titles), Str(""));
    var authors :- Aggregate(pgTerms, AuthorsPath);
    var publishers :- Aggregate(pgTerms, PublisherPath);
    var publisher := Or(First(publishers), Str(""));
    var issued :- Aggregate(pgTerms, IssuedPath);
    var publishedAt := PublishedAt(First(issued), parseDate);
    var languages :- Aggregate(pgTerms, LanguagePath);
    var language := First(languages);
    var subjectsNodes :- Aggregate(pgTerms, SubjectsPath);
    var subjects :- CollectSubjects(subjectsNodes);
    var licenses :- Aggregate(rdfRoot, LicensesPath);
    return Ok(RdfBook(id, title, authors, publisher, publishedAt, language, subjects, licenses, None));
  }

  /** The loop of `parseRdfBook` that pushes every truthy `subjectToText` result. */
  method CollectSubjects(subjectsNodes: seq<Node>) returns (r: Result<seq<Node>, ParseError>)
    ensures r == KeepSubjects(SubjectResults(subjectsNodes))
  {
    ghost var results := SubjectResults(subjectsNodes);
    var subjects := [];
    for k := 0 to |subjectsNodes|
      invariant KeepSubjects(results[..k]) == Ok(subjects)
    {
      var subject := SubjectToText(subjectsNodes[k]);
      KeepSubjectsPrefix(results, k);
      if subject.Err? {
        KeepSubjectsFirstError(results[..k + 1], results[k + 1..]);
        assert results[..k + 1] + results[k + 1..] == results;
        return Err(subject.error);
      }
      if Truthy(subject.value) {
        subjects := subjects + [subject.value];
      }
    }
    assert results[..|subjectsNodes|] == results;
    return Ok(subjects);
  }

  /** The kept subjects of a prefix one longer, from those of the prefix. */
  lemma KeepSubjectsPrefix(results: seq<Result<Node, ParseError>>, k: nat)
    requires k < |results|
    ensures KeepSubjects(results[..k + 1]) ==
      match KeepSubjects(results[..k])
      case Err(e) => Err(e)
      case Ok(kept) => match results[k]
        case Err(e) => Err(e)
        case Ok(subject) => Ok(if Truthy(subject) then kept + [subject] else kept)
  {
    assert results[..k + 1][..k] == results[..k];
  }

  /** Once a prefix of the candidates fails, later candidates do not change the error. */
  lemma {:induction false} KeepSubjectsFirstError(front: seq<Result<Node, ParseError>>, rest: seq<Result<Node, ParseError>>)
    requires KeepSubjects(front).Err?
    ensures KeepSubjects(front + rest) == KeepSubjects(front)
    decreases |rest|
  {
    if rest != [] {
      var all := front + rest;
      KeepSubjectsFirstError(front, rest[..|rest| - 1]);
      assert all[..|all| - 1] == front + rest[..|rest| - 1];
    } else {
      assert front + rest == front;
    }
  }

  /** The scheme is the text after the last `/` of the resource URI. */
  lemma SchemeTermOfUri(prefix: string, code: string)
    requires '/' !in code
    ensures SchemeTerm(Str(prefix + ['/'] + code)) == Ok(code)
  {
    LastPartAfterSeparator(prefix, '/', code);
  }

  /** A missing `dcam:memberOf` resource gives the empty scheme. */
  lemma SchemeTermOfNothing()
    ensures SchemeTerm(Undefined) == Ok("")
  {
    SplitWithoutSeparator("", '/');
  }

  /** A subject candidate as xml2js builds it from `<rdf:Description>`. */
  function SubjectNode(resource: string, value: string): Node {
    Obj(map[
      "dcam:memberOf" := Arr([Obj(map["$" := Obj(map["rdf:resource" := Str(resource)])])]),
      "rdf:value" := Arr([Str(value)])])
  }

  /** The resource URI of a well-formed candidate is found under `MemberPath`. */
  lemma MemberOfXml(resource: string, value: string)
    ensures Traverse(SubjectNode(resource, value), MemberPath) == Ok([Str(resource)])
  {
    var n := SubjectNode(resource, value);
    var attributes := Obj(map["rdf:resource" := Str(resource)]);
    var description := Obj(map["$" := attributes]);
    assert Contribution(attributes, "rdf:resource") == Ok([Str(resource)]);
    StepSingleton(attributes, "rdf:resource");
    assert Walk([attributes], ["rdf:resource"]) == Ok([Str(resource)]);
    assert Contribution(description, "$") == Ok([attributes]);
    StepSingleton(description, "$");
    assert ["$", "rdf:resource"][1..] == ["rdf:resource"];
    assert Walk([description], ["$", "rdf:resource"]) == Ok([Str(resource)]);
    assert Contribution(n, "dcam:memberOf") == Ok([description]);
    StepSingleton(n, "dcam:memberOf");
    assert MemberPath[1..] == ["$", "rdf:resource"];
  }

  /** The value of a well-formed candidate is found under `ValuePath`. */
  lemma ValueOfXml(resource: string, value: string)
    ensures Traverse(SubjectNode(resource, value), ValuePath) == Ok([Str(value)])
  {
    var n := SubjectNode(resource, value);
    assert Contribution(n, "rdf:value") == Ok([Str(value)]);
    StepSingleton(n, "rdf:value");
  }

  /**
   * On a well-formed candidate, the classifier looks the value up in the
   * table under the LCC scheme, returns it unchanged under LCSH, and gives
   * `undefined` for any other scheme.
   */
  lemma SubjectToTextOfXml(resource: string, value: string)
    ensures SubjectToText(SubjectNode(resource, value)) ==
      var term := Last(Split(resource, '/'));
      Ok(if term == "LCC" then LccLookup(Str(value))
         else if term == "LCSH" then Str(value)
         else Undefined)
  {
    MemberOfXml(resource, value);
    ValueOfXml(resource, value);
    SubjectToTextOfResource(SubjectNode(resource, value), resource);
  }

  /**
   * On any candidate whose first member resource is a string and whose
   * value traversal does not throw, the classifier decides by the last
   * segment of that resource.
   */
  lemma SubjectToTextOfResource(subjectNode: Node, resource: string)
    requires Traverse(subjectNode, MemberPath).Ok? && First(Traverse(subjectNode, MemberPath).value) == Str(resource)
    requires Traverse(subjectNode, ValuePath).Ok?
    ensures SubjectToText(subjectNode) ==
      var term := Last(Split(resource, '/'));
      var rdfValue := First(Traverse(subjectNode, ValuePath).value);
      Ok(if term == "LCC" then LccLookup(rdfValue)
         else if term == "LCSH" then rdfValue
         else Undefined)
  {
    assert Or(Str(resource), Str("")) == Str(resource);
    assert SchemeTerm(Str(resource)) == Ok(Last(Split(resource, '/')));
  }

  const DcTerms: string := "http://purl.org/dc/terms"

  /** A candidate whose resource is a Dublin Core term URI is classified by that term. */
  lemma SubjectUnderDcTerm(code: string, value: string)
    requires '/' !in code
    ensures SubjectToText(SubjectNode(DcTerms + "/" + code, value)) ==
      Ok(if code == "LCC" then LccLookup(Str(value))
         else if code == "LCSH" then Str(value)
         else Undefined)
  {
    assert DcTerms + "/" + code == DcTerms + ['/'] + code;
    LastPartAfterSeparator(DcTerms, '/', code);
    SubjectToTextOfXml(DcTerms + "/" + code, value);
  }

  /** The lookup is by the whole value: `Q` is found, the two-letter class `PS` is not. */
  lemma LccLookupExamples()
    ensures LccLookup(Str("Q")) == Str("SCIENCE")
    ensures LccLookup(Str("PS")) == Undefined
  {
    LccShape();
    LccValues();
  }

  /** `ebooks/<n>` is read back as `n`. */
  lemma EbookIdRoundTrip(n: nat)
    ensures MatchEbookId(EbookPrefix + NatToString(n)) == Some(n)
  {
    var about := EbookPrefix + NatToString(n);
    assert about[..|EbookPrefix|] == EbookPrefix;
    assert about[|EbookPrefix|..] == NatToString(n);
    DecimalRoundTrip(n);
  }

  /** The pattern is anchored at both ends and needs at least one digit. */
  lemma EbookIdExamples()
    ensures MatchEbookId("ebooks/84") == Some(84)
    ensures MatchEbookId("ebooks/084") == Some(84)
    ensures MatchEbookId("ebooks/abc") == None
    ensures MatchEbookId("foo/84") == None
    ensures MatchEbookId("ebooks/") == None
    ensures MatchEbookId("ebooks/84/") == None
  {
    assert "ebooks/84"[..7] == EbookPrefix && "ebooks/84"[7..] == "84";
    assert DecimalValue("84") == 84 by {
      assert "84"[..1] == "8";
      assert "8"[..0] == "";
    }
    assert "ebooks/084"[..7] == EbookPrefix && "ebooks/084"[7..] == "084";
    assert DecimalValue("084") == 84 by {
      assert "084"[..2] == "08";
      assert "08"[..1] == "0";
      assert "0"[..0] == "";
    }
    assert "ebooks/abc"[7..][0] == 'a';
    assert "foo/84"[0] == 'f';
    assert "ebooks/84/"[7..][2] == '/';
  }

  /**
   * The root must be present and truthy: `undefined` throws on the
   * property, and any other document with a falsy `rdf:RDF` fails the
   * root assertion.
   */
  lemma ParseWithoutRoot(xmlDoc: Node, parseDate: Node -> Option<Date>)
    ensures xmlDoc.Undefined? ==> ParsedBook(xmlDoc, parseDate) == Err(PropertyOfUndefined("rdf:RDF"))
    ensures !xmlDoc.Undefined? && !Truthy(Get(xmlDoc, "rdf:RDF")) ==> ParsedBook(xmlDoc, parseDate) == Err(MissingRdfRoot)
  {
  }

  /**
   * A falsy first ebook entry (a missing `pgterms:ebook` among them) is
   * replaced by `{}`, so it is the `rdf:about` check that rejects it; only
   * a truthy entry that is not an object fails the ebook check.
   */
  lemma ParseWithoutEbook(xmlDoc: Node, parseDate: Node -> Option<Date>)
    requires !xmlDoc.Undefined? && Truthy(Get(xmlDoc, "rdf:RDF"))
    ensures Get(Get(xmlDoc, "rdf:RDF"), "pgterms:ebook").Undefined? ==> ParsedBook(xmlDoc, parseDate) == Err(AboutNotString)
    ensures !Truthy(EbookEntry(Get(xmlDoc, "rdf:RDF"))) ==> ParsedBook(xmlDoc, parseDate) == Err(AboutNotString)
    ensures var entry := EbookEntry(Get(xmlDoc, "rdf:RDF"));
      Truthy(entry) && !entry.Obj? ==> ParsedBook(xmlDoc, parseDate) == Err(EbookNotObject)
  {
    TraverseMissingKey(Obj(map[]), AboutPath);
  }

  /** The ebook entry of a document, as the parser finds it. */
  function PgTerms(xmlDoc: Node): Node {
    Or(EbookEntry(Get(xmlDoc, "rdf:RDF")), Obj(map[]))
  }

  /**
   * A document parses exactly when its root and ebook entry pass the
   * three checks in order, and then it is parsed by `BookFields` with the
   * identifier of its `rdf:about`.
   */
  lemma ParsedBookStages(xmlDoc: Node, parseDate: Node -> Option<Date>)
    requires ParsedBook(xmlDoc, parseDate).Ok?
    ensures !xmlDoc.Undefined? && Truthy(Get(xmlDoc, "rdf:RDF")) && PgTerms(xmlDoc).Obj?
    ensures Traverse(PgTerms(xmlDoc), AboutPath).Ok?
    ensures var about := First(Traverse(PgTerms(xmlDoc), AboutPath).value);
      && about.Str? && MatchEbookId(about.s).Some?
      && ParsedBook(xmlDoc, parseDate) == BookFields(Get(xmlDoc, "rdf:RDF"), PgTerms(xmlDoc), MatchEbookId(about.s).value, parseDate)
  {
  }

  /** The converse: a document passing the three checks is parsed by `BookFields`. */
  lemma ParsedBookReachesFields(xmlDoc: Node, about: string, parseDate: Node -> Option<Date>)
    requires !xmlDoc.Undefined? && Truthy(Get(xmlDoc, "rdf:RDF")) && PgTerms(xmlDoc).Obj?
    requires Traverse(PgTerms(xmlDoc), AboutPath).Ok? && First(Traverse(PgTerms(xmlDoc), AboutPath).value) == Str(about)
    requires MatchEbookId(about).Some?
    ensures ParsedBook(xmlDoc, parseDate) == BookFields(Get(xmlDoc, "rdf:RDF"), PgTerms(xmlDoc), MatchEbookId(about).value, parseDate)
  {
  }

  /**
   * What the fields of a parsed book hold: the identifier given, the title
   * and publisher defaulting to `''`, only truthy subjects, the authors and
   * licenses as traversed, a date only for a truthy `dcterms:issued`, and
   * no creators.
   */
  lemma BookFieldsShape(rdfRoot: Node, pgTerms: Node, id: nat, parseDate: Node -> Option<Date>)
    requires BookFields(rdfRoot, pgTerms, id, parseDate).Ok?
    ensures var book := BookFields(rdfRoot, pgTerms, id, parseDate).value;
      && book.id == id
      && (forall k :: 0 <= k < |book.subjects| ==> Truthy(book.subjects[k]))
      && Traverse(pgTerms, AuthorsPath) == Ok(book.authors)
      && Traverse(rdfRoot, LicensesPath) == Ok(book.licenses)
      && book.creators == None
    ensures Traverse(pgTerms, TitlePath).Ok? && Traverse(pgTerms, PublisherPath).Ok?
    ensures Traverse(pgTerms, IssuedPath).Ok? && Traverse(pgTerms, LanguagePath).Ok?
    ensures var book := BookFields(rdfRoot, pgTerms, id, parseDate).value;
      var title := First(Traverse(pgTerms, TitlePath).value);
      var publisher := First(Traverse(pgTerms, PublisherPath).value);
      && (Truthy(title) ==> book.title == title) && (!Truthy(title) ==> book.title == Str(""))
      && (Truthy(publisher) ==> book.publisher == publisher) && (!Truthy(publisher) ==> book.publisher == Str(""))
    ensures var book := BookFields(rdfRoot, pgTerms, id, parseDate).value;
      var issued := First(Traverse(pgTerms, IssuedPath).value);
      && (Truthy(issued) ==> book.publishedAt == parseDate(issued))
      && (!Truthy(issued) ==> book.publishedAt.None?)
      && book.language == First(Traverse(pgTerms, LanguagePath).value)
  {
    var titles := Aggregated(pgTerms, TitlePath).value;
    var authors := Aggregated(pgTerms, AuthorsPath).value;
    var publishers := Aggregated(pgTerms, PublisherPath).value;
    var issued := Aggregated(pgTerms, IssuedPath).value;
    var languages := Aggregated(pgTerms, LanguagePath).value;
    var subjectNodes := Aggregated(pgTerms, SubjectsPath).value;
    var subjects := KeepSubjects(SubjectResults(subjectNodes)).value;
    var licenses := Aggregated(rdfRoot, LicensesPath).value;
    assert BookFields(rdfRoot, pgTerms, id, parseDate).value == RdfBook(
      id, Or(First(titles), Str("")), authors, Or(First(publishers), Str("")),
      PublishedAt(First(issued), parseDate), First(languages), subjects, licenses, None);
  }

  /** What a parsed book holds, read off the document it came from. */
  lemma ParsedBookFields(xmlDoc: Node, parseDate: Node -> Option<Date>)
    requires ParsedBook(xmlDoc, parseDate).Ok?
    ensures var book := ParsedBook(xmlDoc, parseDate).value;
      && Traverse(PgTerms(xmlDoc), AboutPath).Ok?
      && var about := First(Traverse(PgTerms(xmlDoc), AboutPath).value);
      && about.Str? && MatchEbookId(about.s) == Some(book.id)
      && (forall k :: 0 <= k < |book.subjects| ==> Truthy(book.subjects[k]))
      && Traverse(PgTerms(xmlDoc), AuthorsPath) == Ok(book.authors)
      && Traverse(Get(xmlDoc, "rdf:RDF"), LicensesPath) == Ok(book.licenses)
      && book.creators == None
    ensures Traverse(PgTerms(xmlDoc), TitlePath).Ok? && Traverse(PgTerms(xmlDoc), PublisherPath).Ok?
    ensures Traverse(PgTerms(xmlDoc), IssuedPath).Ok? && Traverse(PgTerms(xmlDoc), LanguagePath).Ok?
    ensures var book := ParsedBook(xmlDoc, parseDate).value;
      var title := First(Traverse(PgTerms(xmlDoc), TitlePath).value);
      var publisher := First(Traverse(PgTerms(xmlDoc), PublisherPath).value);
      && (Truthy(title) ==> book.title == title) && (!Truthy(title) ==> book.title == Str(""))
      && (Truthy(publisher) ==> book.publisher == publisher) && (!Truthy(publisher) ==> book.publisher == Str(""))
    ensures var book := ParsedBook(xmlDoc, parseDate).value;
      var issued := First(Traverse(PgTerms(xmlDoc), IssuedPath).value);
      && (Truthy(issued) ==> book.publishedAt == parseDate(issued))
      && (!Truthy(issued) ==> book.publishedAt.None?)
      && book.language == First(Traverse(PgTerms(xmlDoc), LanguagePath).value)
  {
    ParsedBookStages(xmlDoc, parseDate);
    var about := First(Traverse(PgTerms(xmlDoc), AboutPath).value);
    BookFieldsShape(Get(xmlDoc, "rdf:RDF"), PgTerms(xmlDoc), MatchEbookId(about.s).value, parseDate);
  }

  /** A document with nothing but a valid `rdf:about` parses to the book of defaults. */
  function MinimalDocument(id: nat): Node {
    Obj(map["rdf:RDF" := Obj(map["pgterms:ebook" := Arr([AboutEntry(EbookPrefix + NatToString(id))])])])
  }

  lemma ParseMinimalDocument(id: nat, parseDate: Node -> Option<Date>)
    ensures ParsedBook(MinimalDocument(id), parseDate) ==
      Ok(RdfBook(id, Str(""), [], Str(""), None, Undefined, [], [], None))
  {
    var about := EbookPrefix + NatToString(id);
    MinimalDocumentReachesFields(id, parseDate);
    AboutEntryFields(about, id, parseDate);
  }

  /** The ebook root holding the one entry `AboutEntry(about)`. */
  function AboutRoot(about: string): Node {
    Obj(map["pgterms:ebook" := Arr([AboutEntry(about)])])
  }

  /** An ebook entry holding only its `rdf:about` attribute. */
  function AboutEntry(about: string): Node {
    Obj(map["$" := Obj(map["rdf:about" := Str(about)])])
  }

  /** The `rdf:about` attribute of an entry is found under `AboutPath`. */
  lemma AboutOfEntry(about: string)
    ensures Traverse(AboutEntry(about), AboutPath) == Ok([Str(about)])
  {
    var attributes := Obj(map["rdf:about" := Str(about)]);
    StepSingleton(AboutEntry(about), "$");
    StepSingleton(attributes, "rdf:about");
    assert AboutPath[1..] == ["rdf:about"];
  }

  /** The minimal document passes the three checks with its identifier. */
  lemma MinimalDocumentReachesFields(id: nat, parseDate: Node -> Option<Date>)
    ensures var about := EbookPrefix + NatToString(id);
      ParsedBook(MinimalDocument(id), parseDate) == BookFields(AboutRoot(about), AboutEntry(about), id, parseDate)
  {
    var about := EbookPrefix + NatToString(id);
    EntryOfAboutRoot(about);
    assert Get(MinimalDocument(id), "rdf:RDF") == AboutRoot(about);
    AboutOfEntry(about);
    EbookIdRoundTrip(id);
    ParsedBookReachesFields(MinimalDocument(id), about, parseDate);
  }

  /** The first ebook entry of `AboutRoot(about)` is `AboutEntry(about)`. */
  lemma EntryOfAboutRoot(about: string)
    ensures EbookEntry(AboutRoot(about)) == AboutEntry(about)
  {
    assert ArrayIndex("0") == Some(0);
  }

  /** Besides its identifier, an entry holding only `rdf:about` gives every field its default. */
  lemma AboutEntryFields(about: string, id: nat, parseDate: Node -> Option<Date>)
    ensures BookFields(AboutRoot(about), AboutEntry(about), id, parseDate) ==
      Ok(RdfBook(id, Str(""), [], Str(""), None, Undefined, [], [], None))
  {
    BookFieldsWithoutData(AboutRoot(about), AboutEntry(about), id, parseDate);
  }

  /** When no field path finds its first key, every field takes its default. */
  lemma BookFieldsWithoutData(rdfRoot: Node, pgTerms: Node, id: nat, parseDate: Node -> Option<Date>)
    requires rdfRoot.Obj? && LicensesPath[0] !in rdfRoot.props
    requires pgTerms.Obj? && TitlePath[0] !in pgTerms.props && AuthorsPath[0] !in pgTerms.props
    requires PublisherPath[0] !in pgTerms.props && IssuedPath[0] !in pgTerms.props
    requires LanguagePath[0] !in pgTerms.props && SubjectsPath[0] !in pgTerms.props
    ensures BookFields(rdfRoot, pgTerms, id, parseDate) ==
      Ok(RdfBook(id, Str(""), [], Str(""), None, Undefined, [], [], None))
  {
    TraverseMissingKey(pgTerms, TitlePath);
    TraverseMissingKey(pgTerms, AuthorsPath);
    TraverseMissingKey(pgTerms, PublisherPath);
    TraverseMissingKey(pgTerms, IssuedPath);
    TraverseMissingKey(pgTerms, LanguagePath);
    TraverseMissingKey(pgTerms, SubjectsPath);
    TraverseMissingKey(rdfRoot, LicensesPath);
    assert SubjectResults([]) == [];
  }
}
