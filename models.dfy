/** The records of models/RdfBook.js and models/Agent.js. */
module Models {
  import opened Wrappers
  import opened JsValue

  /** A valid JavaScript `Date`: its time value in milliseconds since the epoch. */
  datatype Date = Date(timeValue: int)

  /** A contributor as the store reads it: its RDF URI and its name. */
  datatype Agent = Agent(rdfUri: string, name: string)

  /**
   * One catalog entry. The fields hold the JavaScript values the parser
   * assigns (mostly strings, but whatever the tree holds at those paths).
   * `creators` is the field the store reads; the parser never assigns it,
   * so on a parsed book it is `None` (`undefined`).
   */
  datatype RdfBook = RdfBook(
    id: nat,
    title: Node,
    authors: seq<Node>,
    publisher: Node,
    publishedAt: Option<Date>,
    language: Node,
    subjects: seq<Node>,
    licenses: seq<Node>,
    creators: Option<seq<Agent>>)
}
