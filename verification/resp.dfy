/** Records the server sends back: a contents model (a file, a notebook or a
    directory with its listing), kernels, sessions and terminals. Instants and
    identifiers are kept abstract. */
module Resp {

  import opened Wrappers

  /** An instant (`DateTime<Utc>`); only its presence matters to the model. */
  type Timestamp = int

  /** A UUID, as the 128-bit number it stands for. */
  type Uuid = int

  /** The `content` of a contents model: a file's text or a directory's listing. */
  datatype ContentValue =
    | TextValue(text: string)
    | Listing(entries: seq<Contents>)

  /** A contents model of `GET /api/contents/{path}`. */
  datatype Contents = Contents(
    name: string,
    path: string,
    contentType: string,
    writable: bool,
    created: Option<Timestamp>,
    lastModified: Option<Timestamp>,
    size: Option<nat>,
    mimetype: Option<string>,
    content: Option<ContentValue>,
    format: Option<string>,
    hash: Option<string>,
    hashAlgorithm: Option<string>)

  datatype Kernel = Kernel(
    id: Uuid,
    name: string,
    lastActivity: Option<Timestamp>,
    connections: Option<nat>,
    executionState: Option<string>)

  datatype Session = Session(
    id: Option<Uuid>,
    path: Option<string>,
    name: Option<string>,
    sessionType: Option<string>,
    kernel: Option<Kernel>)

  datatype Terminal = Terminal(name: string, lastActivity: Option<Timestamp>)
}
