/** The file-system verbs over the notebook server's contents API: listing,
    metadata, single and chunked upload with its size check, download through
    `/files` with the contents endpoint as fallback, hashing, removal, directory
    creation, renaming and guarded directory removal.

    The server is an oracle: every reply is a function of the whole request
    trace up to and including the request being answered, so the model makes no
    assumption about how the server behaves. Every verb returns its result
    together with the requests it issued, in order. */
module FsService {

  import opened Wrappers
  import opened Resp
  import Utf8
  import Base64
  import Text
  import Params
  import Client

  type Byte = Utf8.Byte

  // ---------------------------------------------------------------------------
  // Entry kinds and entries

  datatype EntryKind = File | Directory | Notebook | Other(name: string)

  /** `EntryKind::from_content_type`. */
  function FromContentType(value: string): (k: EntryKind)
    ensures k == File <==> value == "file"
    ensures k == Directory <==> value == "directory"
    ensures k == Notebook <==> value == "notebook"
    ensures k.Other? <==> value !in {"file", "directory", "notebook"}
    ensures k.Other? ==> k.name == value
  {
    if value == "file" then File
    else if value == "directory" then Directory
    else if value == "notebook" then Notebook
    else Other(value)
  }

  /** The type string a kind is read from. */
  function ContentTypeName(k: EntryKind): string {
    match k
    case File => "file"
    case Directory => "directory"
    case Notebook => "notebook"
    case Other(name) => name
  }

  /** The type string can be recovered from the kind: the mapping loses nothing. */
  lemma ContentTypeRoundTrip(value: string)
    ensures ContentTypeName(FromContentType(value)) == value
  {
  }

  /** Two type strings give the same kind only when they are equal. */
  lemma FromContentTypeInjective(a: string, b: string)
    requires FromContentType(a) == FromContentType(b)
    ensures a == b
  {
    ContentTypeRoundTrip(a);
    ContentTypeRoundTrip(b);
  }

  predicate IsDirectory(k: EntryKind) {
    k.Directory?
  }

  /** `is_file_like`: every kind that is not a directory. */
  function IsFileLike(k: EntryKind): (r: bool)
    ensures r <==> !IsDirectory(k)
  {
    match k
    case File => true
    case Notebook => true
    case Other(_) => true
    case Directory => false
  }

  datatype Entry = Entry(
    name: string,
    path: string,
    kind: EntryKind,
    writable: bool,
    created: Option<Timestamp>,
    lastModified: Option<Timestamp>,
    size: Option<nat>,
    mimetype: Option<string>,
    hash: Option<string>,
    hashAlgorithm: Option<string>)

  /** `Entry::from`: the metadata of a contents model, its payload dropped. */
  function EntryFrom(c: Contents): (e: Entry)
    ensures e.kind == FromContentType(c.contentType)
    ensures e.name == c.name && e.path == c.path && e.writable == c.writable
    ensures e.created == c.created && e.lastModified == c.lastModified
    ensures e.size == c.size && e.mimetype == c.mimetype
    ensures e.hash == c.hash && e.hashAlgorithm == c.hashAlgorithm
  {
    Entry(c.name, c.path, FromContentType(c.contentType), c.writable, c.created, c.lastModified,
          c.size, c.mimetype, c.hash, c.hashAlgorithm)
  }

  /** Two models give the same entry exactly when they differ at most in their
      payload and its format. */
  lemma EntryFromForgetsOnlyPayload(a: Contents, b: Contents)
    ensures EntryFrom(a) == EntryFrom(b) <==> a.(content := None, format := None) == b.(content := None, format := None)
  {
    if EntryFrom(a) == EntryFrom(b) {
      FromContentTypeInjective(a.contentType, b.contentType);
    }
  }

  /** The example of the unit tests: a "file" model keeps its size, mimetype and
      hash algorithm. */
  lemma EntryFromExample()
    ensures var e := EntryFrom(Contents("example", "example", "file", true, None, None, Some(42),
                                        Some("text/plain"), None, Some("text"), Some("abc"), Some("sha256")));
            e.kind == File && e.size == Some(42) && e.mimetype == Some("text/plain") && e.hashAlgorithm == Some("sha256")
  {
  }

  // ---------------------------------------------------------------------------
  // Errors

  datatype FsError =
    | Client(error: Client.RestError)
    | NotAFile(path: string)
    | NotADirectory(path: string)
    | MissingContent(path: string)
    | InvalidPayload(reason: string)
    | Decode(decodeError: Base64.DecodeError)
    | NotImplemented(feature: string)

  /** `impl Display for FsError`. The base64 decoder's own message, which the
      source appends after the colon, is not modelled. */
  function Message(e: FsError): (r: string)
    ensures e.Client? ==> r == "client api error: " + Client.Display(e.error)
    ensures e.NotAFile? ==> r == e.path + " is not a file"
    ensures e.NotADirectory? ==> r == e.path + " is not a directory"
    ensures e.MissingContent? ==> r == "no content returned for " + e.path
    ensures e.InvalidPayload? ==> r == "invalid payload: " + e.reason
    ensures e.NotImplemented? ==> r == "not implemented: " + e.feature
  {
    match e
    case Client(err) => "client api error: " + Client.Display(err)
    case NotAFile(path) => path + " is not a file"
    case NotADirectory(path) => path + " is not a directory"
    case MissingContent(path) => "no content returned for " + path
    case InvalidPayload(reason) => "invalid payload: " + reason
    case Decode(_) => "failed to decode file payload: "
    case NotImplemented(feature) => "not implemented: " + feature
  }

  /** Two errors of the same kind with the same message carry the same path or
      reason: the message loses nothing. */
  lemma MessageKeepsDetail(e1: FsError, e2: FsError)
    requires (e1.NotAFile? && e2.NotAFile?) || (e1.NotADirectory? && e2.NotADirectory?)
          || (e1.MissingContent? && e2.MissingContent?) || (e1.InvalidPayload? && e2.InvalidPayload?)
          || (e1.NotImplemented? && e2.NotImplemented?)
    requires Message(e1) == Message(e2)
    ensures e1 == e2
  {
    var m1, m2 := Message(e1), Message(e2);
    if e1.NotAFile? {
      assert e1.path == m1[..|m1| - |" is not a file"|];
      assert e2.path == m2[..|m2| - |" is not a file"|];
    } else if e1.NotADirectory? {
      assert e1.path == m1[..|m1| - |" is not a directory"|];
      assert e2.path == m2[..|m2| - |" is not a directory"|];
    } else if e1.MissingContent? {
      assert e1.path == m1[|"no content returned for "|..];
      assert e2.path == m2[|"no content returned for "|..];
    } else if e1.InvalidPayload? {
      assert e1.reason == m1[|"invalid payload: "|..];
      assert e2.reason == m2[|"invalid payload: "|..];
    } else {
      assert e1.feature == m1[|"not implemented: "|..];
      assert e2.feature == m2[|"not implemented: "|..];
    }
  }

  // ---------------------------------------------------------------------------
  // The server

  /** A byte range `start..` or `start..=end` of `GET /files/{path}`. */
  datatype ByteRange = ByteRange(start: nat, end: Option<nat>)

  datatype Request =
    | GetContents(path: string, params: Params.GetParams)
    | SaveContents(path: string, model: Params.SaveModel)
    | UploadContents(path: string, data: seq<Byte>, chunk: Option<int>)
    | RenameContents(path: string, to: string)
    | DeleteContents(path: string)
    | GetFiles(path: string, range: Option<ByteRange>)

  /** The server's answers, each a function of the request trace ending with the
      request answered: a contents model for reads, saves and renames, an
      acknowledgement for deletes, a body for `/files`. */
  datatype Server = Server(
    contents: seq<Request> -> Result<Contents, Client.RestError>,
    deletion: seq<Request> -> Result<(), Client.RestError>,
    files: seq<Request> -> Result<seq<Byte>, Client.RestError>)

  /** A verb's outcome and the requests it issued, in order. */
  datatype Exchange<T> = Exchange(result: Result<T, FsError>, requests: seq<Request>)

  predicate IssuesDelete(requests: seq<Request>) {
    exists i :: 0 <= i < |requests| && requests[i].DeleteContents?
  }

  predicate IssuesWrite(requests: seq<Request>) {
    exists i :: 0 <= i < |requests| && (requests[i].DeleteContents? || requests[i].SaveContents? || requests[i].UploadContents? || requests[i].RenameContents?)
  }

  /** Query parameters the verbs send: only the listed fields are present. */
  function ContentFlag(content: bool): Params.GetParams {
    Params.DefaultGetParams.(content := Some(content))
  }

  const DownloadParams := Params.DefaultGetParams.(content := Some(true), format := Some(Params.ContentsFormat.Base64))

  const HashParams := Params.DefaultGetParams.(content := Some(false), hash := Some(true))

  // ---------------------------------------------------------------------------
  // Listing and metadata

  /** The entries of a listing, in the server's order. */
  function Entries(es: seq<Contents>): (r: seq<Entry>)
    ensures |r| == |es| && forall i :: 0 <= i < |es| ==> r[i] == EntryFrom(es[i])
  {
    if |es| == 0 then [] else [EntryFrom(es[0])] + Entries(es[1..])
  }

  /** `ls`: a directory's listing, or the single entry of anything else. */
  function Ls(srv: Server, past: seq<Request>, path: string): (x: Exchange<seq<Entry>>)
    ensures x.requests == [GetContents(path, ContentFlag(true))]
    ensures var reply := srv.contents(past + x.requests);
      && (reply.Err? ==> x.result == Err(Client(reply.error)))
      && (reply.Ok? && !IsDirectory(FromContentType(reply.value.contentType)) ==>
            x.result == Ok([EntryFrom(reply.value)]))
      && (reply.Ok? && IsDirectory(FromContentType(reply.value.contentType)) ==>
            match reply.value.content
            case Some(Listing(es)) =>
              x.result.Ok? && |x.result.value| == |es|
              && forall i :: 0 <= i < |es| ==> x.result.value[i] == EntryFrom(es[i])
            case Some(TextValue(_)) => x.result == Err(InvalidPayload(reply.value.path))
            case None => x.result == Err(MissingContent(reply.value.path)))
  {
    var req := GetContents(path, ContentFlag(true));
    var reply := srv.contents(past + [req]);
    match reply
    case Err(e) => Exchange(Err(Client(e)), [req])
    case Ok(c) =>
      if IsDirectory(FromContentType(c.contentType)) then
        (match c.content
         case Some(Listing(es)) => Exchange(Ok(Entries(es)), [req])
         case Some(TextValue(_)) => Exchange(Err(InvalidPayload(c.path)), [req])
         case None => Exchange(Err(MissingContent(c.path)), [req]))
      else Exchange(Ok([EntryFrom(c)]), [req])
  }

  /** `metadata`: the entry of a path, fetched without its payload. */
  function Metadata(srv: Server, past: seq<Request>, path: string): (x: Exchange<Entry>)
    ensures x.requests == [GetContents(path, ContentFlag(false))]
    ensures var reply := srv.contents(past + x.requests);
      && (reply.Err? ==> x.result == Err(Client(reply.error)))
      && (reply.Ok? ==> x.result == Ok(EntryFrom(reply.value)))
  {
    var req := GetContents(path, ContentFlag(false));
    match srv.contents(past + [req])
    case Err(e) => Exchange(Err(Client(e)), [req])
    case Ok(c) => Exchange(Ok(EntryFrom(c)), [req])
  }

  /** Listing and metadata only read. */
  lemma ReadsOnly(srv: Server, past: seq<Request>, path: string)
    ensures !IssuesWrite(Ls(srv, past, path).requests)
    ensures !IssuesWrite(Metadata(srv, past, path).requests)
  {
  }

  // ---------------------------------------------------------------------------
  // Upload

  /** The save model of one upload request: a base64 file, with its chunk index
      when chunked. */
  function UploadModel(data: seq<Byte>, chunk: Option<int>): (m: Params.SaveModel)
    ensures m.entryType == Some(Params.ContentsEntryType.File)
    ensures m.format == Some(Params.ContentsFormat.Base64)
    ensures m.chunk == chunk && m.name.None? && m.path.None? && m.content.Some?
  {
    Params.DefaultSaveModel.(entryType := Some(Params.ContentsEntryType.File),
                             format := Some(Params.ContentsFormat.Base64),
                             content := Some(Base64.Encode(data)),
                             chunk := chunk)
  }

  /** The server can recover exactly the uploaded bytes from the model's
      content, and no other bytes encode to it. */
  lemma UploadModelCarriesData(data: seq<Byte>, chunk: Option<int>)
    ensures Base64.Decode(UploadModel(data, chunk).content.value) == Ok(data)
    ensures forall other: seq<Byte> :: Base64.Encode(other) == UploadModel(data, chunk).content.value ==> other == data
  {
    Base64.DecodeEncode(data);
    forall other: seq<Byte> | Base64.Encode(other) == UploadModel(data, chunk).content.value
      ensures other == data
    {
      Base64.DecodeEncode(other);
    }
  }

  /** The JSON body of a save request: the model given, or for an upload the
      base64 file model of its bytes. */
  function SaveBody(r: Request): (m: Option<Params.SaveModel>)
    ensures m.Some? <==> r.SaveContents? || r.UploadContents?
    ensures r.UploadContents? ==> m.value.content.Some? && Base64.Decode(m.value.content.value) == Ok(r.data)
  {
    match r
    case SaveContents(_, model) => Some(model)
    case UploadContents(_, data, chunk) => UploadModelCarriesData(data, chunk); Some(UploadModel(data, chunk))
    case _ => None
  }

  /** `_upload`: one save request carrying the data in base64. */
  function UploadOnce(srv: Server, past: seq<Request>, path: string, data: seq<Byte>, chunk: Option<int>): (x: Exchange<Entry>)
    ensures x.requests == [UploadContents(path, data, chunk)]
    ensures var reply := srv.contents(past + x.requests);
      && (reply.Err? ==> x.result == Err(Client(reply.error)))
      && (reply.Ok? ==> x.result == Ok(EntryFrom(reply.value)))
  {
    var req := UploadContents(path, data, chunk);
    match srv.contents(past + [req])
    case Err(e) => Exchange(Err(Client(e)), [req])
    case Ok(c) => Exchange(Ok(EntryFrom(c)), [req])
  }

  /** `_check_uploaded`: the size the server reports, when it reports one, must
      be the number of bytes sent. */
  function CheckUploaded(entry: Entry, total: nat): (r: Result<(), FsError>)
    ensures r.Err? <==> entry.size.Some? && entry.size.value != total
    ensures r.Err? ==> r.error.InvalidPayload?
  {
    match entry.size
    case Some(uploaded) =>
      if uploaded != total then
        Err(InvalidPayload("uploaded chunk size mismatch for " + entry.path + ": expected "
                           + Text.Decimal(total) + ", got " + Text.Decimal(uploaded)))
      else Ok(())
    case None => Ok(())
  }

  /** `upload`: one save, then the size check. */
  function Upload(srv: Server, past: seq<Request>, path: string, data: seq<Byte>): (x: Exchange<Entry>)
    ensures x.requests == [UploadContents(path, data, None)]
    ensures var reply := srv.contents(past + x.requests);
      && (reply.Err? ==> x.result == Err(Client(reply.error)))
      && (reply.Ok? ==> (x.result.Ok? <==> reply.value.size.None? || reply.value.size == Some(|data|)))
      && (reply.Ok? && x.result.Ok? ==> x.result.value == EntryFrom(reply.value))
      && (reply.Ok? && x.result.Err? ==> x.result.error.InvalidPayload?)
  {
    var once := UploadOnce(srv, past, path, data, None);
    match once.result
    case Err(e) => once
    case Ok(entry) =>
      match CheckUploaded(entry, |data|)
      case Err(e) => Exchange(Err(e), once.requests)
      case Ok(_) => once
  }

  // ---------------------------------------------------------------------------
  // Chunked upload

  /** One chunk of the plan: the slice `start..end` of the data and its index,
      -1 marking the last chunk. */
  datatype Chunk = Chunk(start: nat, end: nat, index: int)

  /** The chunk the loop of `upload_chunked` cuts at `offset`, and whether it is
      the last one. */
  function ChunkAt(total: nat, chunkSize: nat, offset: nat, idx: nat): (r: (Chunk, bool))
    requires offset <= total
    ensures r.0.start == offset && offset <= r.0.end <= total && r.0.end - offset <= chunkSize
    ensures r.1 <==> r.0.end == total
    ensures r.0.index == if r.1 then -1 else idx
    ensures !r.1 ==> r.0.end == offset + chunkSize
  {
    var end := if offset + chunkSize < total then offset + chunkSize else total;
    var last := end >= total;
    (Chunk(offset, end, if last then -1 else idx), last)
  }

  /** A zero chunk size never advances over non-empty data: the source's loop
      would send empty chunks forever. */
  lemma ZeroChunkSizeStalls(total: nat, offset: nat, idx: nat)
    requires offset < total
    ensures ChunkAt(total, 0, offset, idx).0.end == offset && !ChunkAt(total, 0, offset, idx).1
  {
  }

  /** The chunks `upload_chunked` sends from `offset` on, starting at index `idx`
      (see `PlanShape` and `PlanCoversData`). */
  function ChunkPlan(total: nat, chunkSize: nat, offset: nat, idx: nat): (plan: seq<Chunk>)
    requires offset <= total
    requires chunkSize >= 1 || offset == total
    ensures |plan| >= 1
    ensures plan[0].start == offset && plan[|plan| - 1].end == total
    ensures forall i :: 0 <= i < |plan| ==> offset <= plan[i].start <= plan[i].end <= total
    decreases total - offset
  {
    var c := ChunkAt(total, chunkSize, offset, idx).0;
    if c.end == total then [c]
    else [c] + ChunkPlan(total, chunkSize, c.end, idx + 1)
  }

  /** One chunk of a plan: at most `chunkSize` bytes, exactly that many and
      followed by the next chunk when it is not the last, numbered `idx + i`
      unless it is the last, which is marked -1. */
  lemma {:induction false} PlanAt(total: nat, chunkSize: nat, offset: nat, idx: nat, i: nat)
    requires offset <= total
    requires chunkSize >= 1 || offset == total
    requires i < |ChunkPlan(total, chunkSize, offset, idx)|
    ensures var plan := ChunkPlan(total, chunkSize, offset, idx);
      && plan[i].end - plan[i].start <= chunkSize
      && plan[i].index == (if i == |plan| - 1 then -1 else idx + i)
      && (i < |plan| - 1 ==> plan[i].end == plan[i + 1].start && plan[i].end - plan[i].start == chunkSize)
    decreases i
  {
    var plan := ChunkPlan(total, chunkSize, offset, idx);
    var c := ChunkAt(total, chunkSize, offset, idx).0;
    if c.end < total {
      var rest := ChunkPlan(total, chunkSize, c.end, idx + 1);
      assert plan == [c] + rest;
      if i > 0 {
        PlanAt(total, chunkSize, c.end, idx + 1, i - 1);
        assert plan[i] == rest[i - 1];
        if i < |plan| - 1 {
          assert plan[i + 1] == rest[i];
        }
      } else {
        assert plan[1] == rest[0];
      }
    } else {
      assert plan == [c];
    }
  }

  /** The shape of a plan: contiguous chunks, all but the last of exactly
      `chunkSize` bytes, numbered from `idx` with the last one marked -1. */
  lemma PlanShape(total: nat, chunkSize: nat, offset: nat, idx: nat)
    requires offset <= total
    requires chunkSize >= 1 || offset == total
    ensures var plan := ChunkPlan(total, chunkSize, offset, idx);
      && (forall i :: 0 <= i < |plan| ==> plan[i].end - plan[i].start <= chunkSize)
      && (forall i :: 0 <= i < |plan| - 1 ==> plan[i].end == plan[i + 1].start && plan[i].end - plan[i].start == chunkSize)
      && (forall i :: 0 <= i < |plan| ==> plan[i].index == if i == |plan| - 1 then -1 else idx + i)
  {
    var plan := ChunkPlan(total, chunkSize, offset, idx);
    forall i | 0 <= i < |plan|
      ensures plan[i].end - plan[i].start <= chunkSize
      ensures plan[i].index == if i == |plan| - 1 then -1 else idx + i
      ensures i < |plan| - 1 ==> plan[i].end - plan[i].start == chunkSize
      ensures i < |plan| - 1 ==> plan[i].end == plan[i + 1].start
    {
      PlanAt(total, chunkSize, offset, idx, i);
    }
  }

  /** The plan of empty data is the single empty chunk marked last. */
  lemma EmptyDataPlan(chunkSize: nat)
    ensures ChunkPlan(0, chunkSize, 0, 1) == [Chunk(0, 0, -1)]
  {
  }

  /** Every chunk of the plan lies within the data. */
  predicate InData(data: seq<Byte>, plan: seq<Chunk>) {
    forall i :: 0 <= i < |plan| ==> plan[i].start <= plan[i].end <= |data|
  }

  /** The concatenated slices a plan selects. */
  function Slices(data: seq<Byte>, plan: seq<Chunk>): seq<Byte>
    requires InData(data, plan)
    decreases |plan|
  {
    if |plan| == 0 then [] else data[plan[0].start..plan[0].end] + Slices(data, plan[1..])
  }

  /** The slices of a plan, put back together, are the data from `offset` on:
      every byte is sent once, in order. */
  lemma {:induction false} PlanCoversData(data: seq<Byte>, chunkSize: nat, offset: nat, idx: nat)
    requires offset <= |data|
    requires chunkSize >= 1 || offset == |data|
    ensures Slices(data, ChunkPlan(|data|, chunkSize, offset, idx)) == data[offset..]
    decreases |data| - offset
  {
    var plan := ChunkPlan(|data|, chunkSize, offset, idx);
    var c := ChunkAt(|data|, chunkSize, offset, idx).0;
    if c.end < |data| {
      var rest := ChunkPlan(|data|, chunkSize, c.end, idx + 1);
      PlanCoversData(data, chunkSize, c.end, idx + 1);
      assert plan == [c] + rest;
      assert plan[1..] == rest;
      assert data[offset..] == data[offset..c.end] + data[c.end..];
    } else {
      assert plan == [c];
    }
  }

  /** The number of chunks: one for empty data, otherwise the fewest chunks of
      `chunkSize` bytes that hold the data. */
  lemma {:induction false} PlanLength(total: nat, chunkSize: nat, offset: nat, idx: nat)
    requires offset < total && chunkSize >= 1
    ensures var n := |ChunkPlan(total, chunkSize, offset, idx)|;
      (n - 1) * chunkSize < total - offset <= n * chunkSize
    decreases total - offset
  {
    var c := ChunkAt(total, chunkSize, offset, idx).0;
    if c.end < total {
      PlanLength(total, chunkSize, c.end, idx + 1);
      var m := |ChunkPlan(total, chunkSize, c.end, idx + 1)|;
      assert |ChunkPlan(total, chunkSize, offset, idx)| == m + 1;
      MulStep(m - 1, chunkSize);
      MulStep(m, chunkSize);
    } else {
      assert |ChunkPlan(total, chunkSize, offset, idx)| == 1;
    }
  }

  lemma MulStep(m: int, d: int)
    ensures (m + 1) * d == m * d + d
  {
  }

  /** The request that uploads one chunk of the data. */
  function ChunkRequest(path: string, data: seq<Byte>, c: Chunk): Request
    requires c.start <= c.end <= |data|
  {
    UploadContents(path, data[c.start..c.end], Some(c.index))
  }

  /** The upload requests of a plan, in order. */
  function PlanRequests(path: string, data: seq<Byte>, plan: seq<Chunk>): (rs: seq<Request>)
    requires InData(data, plan)
    ensures |rs| == |plan|
    decreases |plan|
  {
    if |plan| == 0 then [] else [ChunkRequest(path, data, plan[0])] + PlanRequests(path, data, plan[1..])
  }

  /** The i-th request of a plan uploads its i-th chunk. */
  lemma {:induction false} PlanRequestAt(path: string, data: seq<Byte>, plan: seq<Chunk>, i: nat)
    requires InData(data, plan) && i < |plan|
    ensures PlanRequests(path, data, plan)[i] == ChunkRequest(path, data, plan[i])
    decreases i
  {
    if i > 0 {
      PlanRequestAt(path, data, plan[1..], i - 1);
    }
  }

  lemma PrefixAppend<T>(p: seq<T>, a: seq<T>, b: seq<T>)
    requires a <= b
    ensures p + a <= p + b
  {
    assert (p + b)[..|p + a|] == p + a;
  }

  /** The body of the loop of `upload_chunked`, run over the chunks of a plan:
      one upload per chunk, stopping at the first error; the reply to the last
      chunk must report the size the plan ends at. */
  function SendChunks(srv: Server, past: seq<Request>, path: string, data: seq<Byte>, plan: seq<Chunk>): (x: Exchange<Entry>)
    requires |plan| >= 1 && InData(data, plan)
    ensures 1 <= |x.requests| && x.requests <= PlanRequests(path, data, plan)
    ensures x.result.Ok? ==> x.requests == PlanRequests(path, data, plan)
    decreases |plan|
  {
    var c := plan[0];
    var once := UploadOnce(srv, past, path, data[c.start..c.end], Some(c.index));
    assert once.requests == [ChunkRequest(path, data, c)];
    match once.result
    case Err(e) => once
    case Ok(entry) =>
      if |plan| == 1 then
        (match CheckUploaded(entry, c.end)
         case Err(e) => Exchange(Err(e), once.requests)
         case Ok(_) => once)
      else
        var rest := SendChunks(srv, past + once.requests, path, data, plan[1..]);
        PrefixAppend(once.requests, rest.requests, PlanRequests(path, data, plan[1..]));
        Exchange(rest.result, once.requests + rest.requests)
  }

  /** `upload_chunked`: the chunks of `ChunkPlan`, from offset 0 and index 1.
      A chunk size of zero is accepted only for empty data: on non-empty data
      the source's loop never ends (`ZeroChunkSizeStalls`). */
  function UploadChunked(srv: Server, past: seq<Request>, path: string, data: seq<Byte>, chunkSize: nat): (x: Exchange<Entry>)
    requires chunkSize >= 1 || |data| == 0
    ensures var plan := ChunkPlan(|data|, chunkSize, 0, 1);
      && 1 <= |x.requests| && x.requests <= PlanRequests(path, data, plan)
      && (x.result.Ok? ==> x.requests == PlanRequests(path, data, plan))
    ensures var reqs := PlanRequests(path, data, ChunkPlan(|data|, chunkSize, 0, 1));
      && (x.result.Ok? <==> RepliesOk(srv, past, reqs, |reqs|) && LastSizeOk(srv, past, reqs, |data|))
      && (forall k :: 0 <= k < |reqs| && RepliesOk(srv, past, reqs, k) && Reply(srv, past, reqs, k).Err? ==>
            x.requests == reqs[..k + 1] && x.result == Err(Client(Reply(srv, past, reqs, k).error)))
      && (RepliesOk(srv, past, reqs, |reqs|) ==>
            var entry := EntryFrom(Reply(srv, past, reqs, |reqs| - 1).value);
            && x.requests == reqs
            && (x.result.Ok? ==> x.result.value == entry)
            && (x.result.Err? ==> CheckUploaded(entry, |data|).Err? && x.result.error == CheckUploaded(entry, |data|).error))
  {
    var plan := ChunkPlan(|data|, chunkSize, 0, 1);
    SendChunksOutcome(srv, past, path, data, plan);
    SendChunks(srv, past, path, data, plan)
  }

  /** The reply that ends a successful run over a plan is the result, and the
      size it reports, if any, is where the plan ends. */
  lemma {:induction false} SendChunksChecksEnd(srv: Server, past: seq<Request>, path: string, data: seq<Byte>, plan: seq<Chunk>)
    requires |plan| >= 1 && InData(data, plan)
    ensures var x := SendChunks(srv, past, path, data, plan);
      x.result.Ok? ==>
        var reply := srv.contents(past + x.requests);
        reply.Ok? && x.result.value == EntryFrom(reply.value)
        && (reply.value.size.None? || reply.value.size == Some(plan[|plan| - 1].end))
    decreases |plan|
  {
    if |plan| == 1 {
      SendLastChunk(srv, past, path, data, plan);
    } else {
      var c := plan[0];
      var once := UploadOnce(srv, past, path, data[c.start..c.end], Some(c.index));
      if once.result.Ok? {
        var rest := SendChunks(srv, past + once.requests, path, data, plan[1..]);
        SendChunksStep(srv, past, path, data, plan);
        SendChunksChecksEnd(srv, past + once.requests, path, data, plan[1..]);
        RequestsRegroup(past, once.requests, rest.requests);
      }
    }
  }

  lemma RequestsRegroup(a: seq<Request>, b: seq<Request>, c: seq<Request>)
    ensures a + b + c == a + (b + c)
  {
  }

  /** A run over one chunk succeeds only on a reply whose size, if any, is the chunk's end. */
  lemma SendLastChunk(srv: Server, past: seq<Request>, path: string, data: seq<Byte>, plan: seq<Chunk>)
    requires |plan| == 1 && InData(data, plan)
    ensures var x := SendChunks(srv, past, path, data, plan);
      x.result.Ok? ==>
        var reply := srv.contents(past + x.requests);
        reply.Ok? && x.result.value == EntryFrom(reply.value)
        && (reply.value.size.None? || reply.value.size == Some(plan[0].end))
  {
  }

  /** After a successful first chunk, the run goes on with the rest of the plan. */
  lemma SendChunksStep(srv: Server, past: seq<Request>, path: string, data: seq<Byte>, plan: seq<Chunk>)
    requires |plan| > 1 && InData(data, plan)
    requires UploadOnce(srv, past, path, data[plan[0].start..plan[0].end], Some(plan[0].index)).result.Ok?
    ensures var once := UploadOnce(srv, past, path, data[plan[0].start..plan[0].end], Some(plan[0].index));
      var rest := SendChunks(srv, past + once.requests, path, data, plan[1..]);
      SendChunks(srv, past, path, data, plan) == Exchange(rest.result, once.requests + rest.requests)
  {
  }

  /** A successful chunked upload ends with the reply to its last chunk, whose
      size, if reported, is the whole data's length. */
  lemma ChunkedUploadChecksTotal(srv: Server, past: seq<Request>, path: string, data: seq<Byte>, chunkSize: nat)
    requires chunkSize >= 1 || |data| == 0
    ensures var x := UploadChunked(srv, past, path, data, chunkSize);
      x.result.Ok? ==>
        var reply := srv.contents(past + x.requests);
        reply.Ok? && x.result.value == EntryFrom(reply.value)
        && (reply.value.size.None? || reply.value.size == Some(|data|))
  {
    SendChunksChecksEnd(srv, past, path, data, ChunkPlan(|data|, chunkSize, 0, 1));
  }

  /** The server's reply to the k-th of `reqs`, once the first k + 1 of them
      have been sent after `past`. */
  function Reply(srv: Server, past: seq<Request>, reqs: seq<Request>, k: nat): Result<Contents, Client.RestError>
    requires k < |reqs|
  {
    srv.contents(past + reqs[..k + 1])
  }

  /** The first `n` of `reqs` are all answered without an error. */
  predicate RepliesOk(srv: Server, past: seq<Request>, reqs: seq<Request>, n: nat)
    requires n <= |reqs|
  {
    forall k :: 0 <= k < n ==> Reply(srv, past, reqs, k).Ok?
  }

  /** The reply to the last of `reqs` is Ok and reports no size or `end`. */
  predicate LastSizeOk(srv: Server, past: seq<Request>, reqs: seq<Request>, end: nat)
    requires |reqs| >= 1
  {
    var last := Reply(srv, past, reqs, |reqs| - 1);
    last.Ok? && (last.value.size.None? || last.value.size == Some(end))
  }

  /** Once `r` is sent, the replies to the rest are those to the whole, one later. */
  lemma ReplyShift(srv: Server, past: seq<Request>, r: Request, rest: seq<Request>, k: nat)
    requires k < |rest|
    ensures Reply(srv, past, [r] + rest, k + 1) == Reply(srv, past + [r], rest, k)
  {
    assert ([r] + rest)[..k + 2] == [r] + rest[..k + 1];
    assert past + ([r] + rest[..k + 1]) == past + [r] + rest[..k + 1];
  }

  lemma RepliesOkShift(srv: Server, past: seq<Request>, r: Request, rest: seq<Request>, n: nat)
    requires n <= |rest|
    requires Reply(srv, past, [r] + rest, 0).Ok?
    ensures RepliesOk(srv, past, [r] + rest, n + 1) <==> RepliesOk(srv, past + [r], rest, n)
  {
    forall k | 0 <= k < |rest|
      ensures Reply(srv, past, [r] + rest, k + 1) == Reply(srv, past + [r], rest, k)
    {
      ReplyShift(srv, past, r, rest, k);
    }
    if RepliesOk(srv, past + [r], rest, n) {
      forall k | 0 <= k < n + 1
        ensures Reply(srv, past, [r] + rest, k).Ok?
      {
        if k > 0 {
          assert Reply(srv, past + [r], rest, k - 1).Ok?;
        }
      }
    }
  }

  /** How a run over a plan ends. It succeeds exactly when every chunk's reply
      is Ok and the last reply reports no size or the plan's end. It stops at
      the first failing reply, with that reply's error, having sent the
      requests up to and including it. Once every reply is Ok, every request
      has been sent, and the run gives the last reply's entry or the size
      check's error. */
  lemma {:induction false} SendChunksOutcome(srv: Server, past: seq<Request>, path: string, data: seq<Byte>, plan: seq<Chunk>)
    requires |plan| >= 1 && InData(data, plan)
    ensures var reqs := PlanRequests(path, data, plan);
      var x := SendChunks(srv, past, path, data, plan);
      var end := plan[|plan| - 1].end;
      && (x.result.Ok? <==> RepliesOk(srv, past, reqs, |reqs|) && LastSizeOk(srv, past, reqs, end))
      && (forall k :: 0 <= k < |reqs| && RepliesOk(srv, past, reqs, k) && Reply(srv, past, reqs, k).Err? ==>
            x.requests == reqs[..k + 1] && x.result == Err(Client(Reply(srv, past, reqs, k).error)))
      && (RepliesOk(srv, past, reqs, |reqs|) ==>
            var entry := EntryFrom(Reply(srv, past, reqs, |reqs| - 1).value);
            && x.requests == reqs
            && (x.result.Ok? ==> x.result.value == entry)
            && (x.result.Err? ==> CheckUploaded(entry, end).Err? && x.result.error == CheckUploaded(entry, end).error))
    decreases |plan|
  {
    var reqs := PlanRequests(path, data, plan);
    var c := plan[0];
    var once := UploadOnce(srv, past, path, data[c.start..c.end], Some(c.index));
    var rreqs := PlanRequests(path, data, plan[1..]);
    assert reqs == once.requests + rreqs;
    assert reqs[..1] == once.requests;
    assert Reply(srv, past, reqs, 0) == srv.contents(past + once.requests);
    if once.result.Err? {
      forall k | 0 < k <= |reqs|
        ensures !RepliesOk(srv, past, reqs, k)
      {
        assert Reply(srv, past, reqs, 0).Err?;
      }
    } else if |plan| == 1 {
      assert reqs == once.requests;
    } else {
      var past' := past + once.requests;
      SendChunksStep(srv, past, path, data, plan);
      SendChunksOutcome(srv, past', path, data, plan[1..]);
      RestOutcome(srv, past, reqs[0], rreqs);
      assert plan[1..][|plan| - 2] == plan[|plan| - 1];
    }
  }

  /** The replies to a plan whose first request is answered Ok are those to the
      rest of the plan, sent after the first. */
  lemma RestOutcome(srv: Server, past: seq<Request>, r: Request, rest: seq<Request>)
    requires |rest| >= 1
    requires Reply(srv, past, [r] + rest, 0).Ok?
    ensures RepliesOk(srv, past, [r] + rest, |rest| + 1) <==> RepliesOk(srv, past + [r], rest, |rest|)
    ensures Reply(srv, past, [r] + rest, |rest|) == Reply(srv, past + [r], rest, |rest| - 1)
    ensures forall k :: 0 <= k < |rest| + 1 && RepliesOk(srv, past, [r] + rest, k) && Reply(srv, past, [r] + rest, k).Err? ==>
      k >= 1 && RepliesOk(srv, past + [r], rest, k - 1) && Reply(srv, past + [r], rest, k - 1) == Reply(srv, past, [r] + rest, k)
      && ([r] + rest)[..k + 1] == [r] + rest[..k]
  {
    RepliesOkShift(srv, past, r, rest, |rest|);
    ReplyShift(srv, past, r, rest, |rest| - 1);
    forall k | 0 <= k < |rest| + 1 && RepliesOk(srv, past, [r] + rest, k) && Reply(srv, past, [r] + rest, k).Err?
      ensures k >= 1 && RepliesOk(srv, past + [r], rest, k - 1)
      ensures Reply(srv, past + [r], rest, k - 1) == Reply(srv, past, [r] + rest, k)
      ensures ([r] + rest)[..k + 1] == [r] + rest[..k]
    {
      RepliesOkShift(srv, past, r, rest, k - 1);
      ReplyShift(srv, past, r, rest, k - 1);
    }
  }

  // ---------------------------------------------------------------------------
  // Payload decoding

  const ListingPayload := "expected file payload, received directory listing"

  /** Whether a payload format names base64; an absent format counts as text. */
  predicate IsBase64(format: Option<string>) {
    format == Some("base64")
  }

  /** `decode_file_bytes`: a text payload is decoded as base64, its surrounding
      whitespace trimmed, when the format is "base64", and taken as UTF-8 text
      otherwise, the format defaulting to text; a listing is not a file payload. Since base64 encoding is
      injective, the bytes of a successful base64 decode are the only ones that
      encode to the trimmed text. */
  function DecodeFileBytes(format: Option<string>, payload: ContentValue): (r: Result<seq<Byte>, FsError>)
    ensures payload.Listing? ==> r == Err(InvalidPayload(ListingPayload))
    ensures payload.TextValue? && !IsBase64(format) ==> r == Ok(Utf8.Encode(payload.text))
    ensures payload.TextValue? && IsBase64(format) ==>
      && (r.Ok? <==> Base64.Decode(Text.TrimWhitespace(payload.text)).Ok?)
      && (r.Ok? ==> Base64.Encode(r.value) == Text.TrimWhitespace(payload.text))
      && (r.Err? ==> r.error.Decode?)
  {
    match payload
    case TextValue(data) =>
      if IsBase64(format) then
        var trimmed := Text.TrimWhitespace(data);
        (match Base64.Decode(trimmed)
         case Ok(b) => Base64.EncodeDecode(trimmed, b); Ok(b)
         case Err(e) => Err(Decode(e)))
      else Ok(Utf8.Encode(data))
    case Listing(_) => Err(InvalidPayload(ListingPayload))
  }

  /** Bytes whose base64 text the server sends, with or without surrounding
      whitespace, are decoded back exactly. */
  lemma DecodeFileBytesRoundTrip(bs: seq<Byte>)
    ensures DecodeFileBytes(Some("base64"), TextValue(Base64.Encode(bs))) == Ok(bs)
  {
    var s := Base64.Encode(bs);
    Base64.DecodeEncode(bs);
    if |s| > 0 {
      Base64.EncodedEnds(bs);
      EncodingCharNotWhitespace(s[0]);
      EncodingCharNotWhitespace(s[|s| - 1]);
    }
    assert Text.TrimWhitespace(s) == s;
  }

  lemma EncodingCharNotWhitespace(c: char)
    requires Base64.IsEncodingChar(c)
    ensures !Text.IsWhitespace(c)
  {
  }

  /** The base64 example of the unit tests: "MTIz" is "123". */
  lemma DecodeFileBytesBase64Example()
    ensures DecodeFileBytes(Some("base64"), TextValue("MTIz")) == Ok([0x31, 0x32, 0x33])
  {
    var bs: seq<Byte> := [0x31, 0x32, 0x33];
    Base64.DecodeExample();
    Base64.EncodeDecode("MTIz", bs);
    DecodeFileBytesRoundTrip(bs);
  }

  /** The text example of the unit tests: "hello" is its own bytes. */
  lemma DecodeFileBytesTextExample()
    ensures DecodeFileBytes(Some("text"), TextValue("hello")) == Ok([0x68, 0x65, 0x6C, 0x6C, 0x6F])
  {
    var hello := "hello";
    assert Utf8.IsAscii(hello);
    Utf8.AsciiEncoding(hello);
    assert Utf8.Encode(hello) == [0x68, 0x65, 0x6C, 0x6C, 0x6F];
  }

  /** `trim_leading_slash`: the path without its leading slashes (a path of
      slashes only becomes empty). */
  function TrimLeadingSlash(path: string): (r: string)
    ensures !Text.StartsWith(r, '/')
    ensures |r| <= |path| && r == path[|path| - |r|..]
    ensures Text.AllAre(path[..|path| - |r|], '/')
    ensures r == [] <==> Text.AllAre(path, '/')
  {
    var trimmed := Text.TrimStart(path, '/');
    if trimmed == [] then
      assert path[..|path|] == path;
      Text.Trim(path, '/')
    else
      assert !Text.AllAre(path, '/') by {
        assert path[|path| - |trimmed|] == trimmed[0];
      }
      trimmed
  }

  /** Trimming twice changes nothing more. */
  lemma TrimLeadingSlashIdempotent(path: string)
    ensures TrimLeadingSlash(TrimLeadingSlash(path)) == TrimLeadingSlash(path)
  {
    var r := TrimLeadingSlash(path);
    if r != [] {
      assert Text.TrimStart(r, '/') == r;
    }
  }

  // ---------------------------------------------------------------------------
  // Download

  datatype FileContent = FileContent(entry: Entry, bytes: seq<Byte>)

  /** `_download_use_contents`: the payload of a file-like path, requested in
      base64 through the contents endpoint. */
  function DownloadUseContents(srv: Server, past: seq<Request>, path: string): (x: Exchange<FileContent>)
    ensures x.requests == [GetContents(path, DownloadParams)]
    ensures var reply := srv.contents(past + x.requests);
      && (reply.Err? ==> x.result == Err(Client(reply.error)))
      && (reply.Ok? && !IsFileLike(FromContentType(reply.value.contentType)) ==>
            x.result == Err(NotAFile(reply.value.path)))
      && (reply.Ok? && IsFileLike(FromContentType(reply.value.contentType)) && reply.value.content.None? ==>
            x.result == Err(MissingContent(reply.value.path)))
      && (reply.Ok? && IsFileLike(FromContentType(reply.value.contentType)) && reply.value.content.Some? ==>
            match DecodeFileBytes(reply.value.format, reply.value.content.value)
            case Ok(bytes) => x.result == Ok(FileContent(EntryFrom(reply.value), bytes))
            case Err(e) => x.result == Err(e))
  {
    var req := GetContents(path, DownloadParams);
    match srv.contents(past + [req])
    case Err(e) => Exchange(Err(Client(e)), [req])
    case Ok(c) =>
      if !IsFileLike(FromContentType(c.contentType)) then Exchange(Err(NotAFile(c.path)), [req])
      else
        match c.content
        case None => Exchange(Err(MissingContent(c.path)), [req])
        case Some(payload) =>
          match DecodeFileBytes(c.format, payload)
          case Err(e) => Exchange(Err(e), [req])
          case Ok(bytes) => Exchange(Ok(FileContent(EntryFrom(c), bytes)), [req])
  }

  /** `download`: the `/files` body with the path's metadata, or, when `/files`
      fails, the contents endpoint. A metadata failure after a successful
      `/files` read is not retried. */
  function Download(srv: Server, past: seq<Request>, path: string): (x: Exchange<FileContent>)
    ensures |x.requests| == 2 && x.requests[0] == GetFiles(path, None)
    ensures var files := srv.files(past + [GetFiles(path, None)]);
      && (files.Ok? ==>
            x.requests[1] == GetContents(path, ContentFlag(false))
            && var meta := Metadata(srv, past + [GetFiles(path, None)], path);
               (meta.result.Ok? ==> x.result == Ok(FileContent(meta.result.value, files.value)))
               && (meta.result.Err? ==> x.result == Err(meta.result.error)))
      && (files.Err? ==>
            x.requests[1] == GetContents(path, DownloadParams)
            && x.result == DownloadUseContents(srv, past + [GetFiles(path, None)], path).result)
  {
    var req := GetFiles(path, None);
    match srv.files(past + [req])
    case Ok(payload) =>
      var meta := Metadata(srv, past + [req], path);
      (match meta.result
       case Ok(entry) => Exchange(Ok(FileContent(entry, payload)), [req] + meta.requests)
       case Err(e) => Exchange(Err(e), [req] + meta.requests))
    case Err(_) =>
      var fallback := DownloadUseContents(srv, past + [req], path);
      Exchange(fallback.result, [req] + fallback.requests)
  }

  // ---------------------------------------------------------------------------
  // In-memory reader

  /** `VecReader`: a byte buffer and the position reached. */
  datatype VecReader = VecReader(data: seq<Byte>, position: nat) {
    predicate Valid() {
      position <= |data|
    }

    function Remaining(): seq<Byte>
      requires Valid()
    {
      data[position..]
    }
  }

  /** `poll_read` into a buffer with `capacity` free bytes: as many of the
      remaining bytes as fit, in order. */
  function PollRead(r: VecReader, capacity: nat): (res: (VecReader, seq<Byte>))
    requires r.Valid()
    ensures res.0.Valid() && res.0.data == r.data
    ensures |res.1| == if |r.Remaining()| < capacity then |r.Remaining()| else capacity
    ensures r.Remaining() == res.1 + res.0.Remaining()
  {
    if r.position >= |r.data| then (r, [])
    else
      var remaining := r.data[r.position..];
      var len := if |remaining| < capacity then |remaining| else capacity;
      assert remaining == remaining[..len] + r.data[r.position + len..];
      (r.(position := r.position + len), remaining[..len])
  }

  /** Reads until a read returns nothing, as `sha256sum` does with its buffer. */
  function ReadToEnd(r: VecReader, capacity: nat): (out: seq<Byte>)
    requires r.Valid() && capacity >= 1
    ensures out == r.Remaining()
    decreases |r.data| - r.position
  {
    var (next, chunk) := PollRead(r, capacity);
    if |chunk| == 0 then []
    else chunk + ReadToEnd(next, capacity)
  }

  /** Where a download's reader gets its bytes. */
  datatype ReaderSource = FilesStream | ContentsBuffer

  /** `FileDownload`: the entry and a reader; a `/files` stream is modelled by the
      body the server sends. */
  datatype FileDownload = FileDownload(entry: Entry, source: ReaderSource, reader: VecReader)

  /** The range header `download_reader_from` asks for. */
  function RangeFrom(start: nat): (r: Option<ByteRange>)
    ensures r.None? <==> start == 0
    ensures r.Some? ==> r.value == ByteRange(start, None)
  {
    if start > 0 then Some(ByteRange(start, None)) else None
  }

  /** `download_reader_from`: a `/files` stream from `start` on, or, when it
      cannot be opened, the contents payload with its first `start` bytes
      dropped; an offset past the end is refused. */
  function DownloadReaderFrom(srv: Server, past: seq<Request>, path: string, start: nat): (x: Exchange<FileDownload>)
    ensures |x.requests| == 2 && x.requests[0] == GetFiles(path, RangeFrom(start))
    ensures x.result.Ok? ==> x.result.value.reader.Valid() && x.result.value.reader.position == 0
    ensures var first := past + [GetFiles(path, RangeFrom(start))];
      && (srv.files(first).Ok? ==>
            var meta := Metadata(srv, first, path);
            && (meta.result.Ok? ==> x.result == Ok(FileDownload(meta.result.value, FilesStream, VecReader(srv.files(first).value, 0))))
            && (meta.result.Err? ==> x.result == Err(meta.result.error)))
      && (srv.files(first).Err? ==>
            var fallback := DownloadUseContents(srv, first, path);
            && x.requests[1] == GetContents(path, DownloadParams)
            && (fallback.result.Err? ==> x.result == Err(fallback.result.error))
            && (fallback.result.Ok? && start > |fallback.result.value.bytes| ==> x.result.Err? && x.result.error.InvalidPayload?)
            && (fallback.result.Ok? && start <= |fallback.result.value.bytes| ==>
                  x.result == Ok(FileDownload(fallback.result.value.entry, ContentsBuffer,
                                              VecReader(fallback.result.value.bytes[start..], 0)))))
  {
    var req := GetFiles(path, RangeFrom(start));
    match srv.files(past + [req])
    case Ok(body) =>
      var meta := Metadata(srv, past + [req], path);
      (match meta.result
       case Ok(entry) => Exchange(Ok(FileDownload(entry, FilesStream, VecReader(body, 0))), [req] + meta.requests)
       case Err(e) => Exchange(Err(e), [req] + meta.requests))
    case Err(_) =>
      var fallback := DownloadUseContents(srv, past + [req], path);
      var requests := [req] + fallback.requests;
      match fallback.result
      case Err(e) => Exchange(Err(e), requests)
      case Ok(fc) =>
        if start > 0 && start > |fc.bytes| then
          Exchange(Err(InvalidPayload("requested offset " + Text.Decimal(start) + " exceeds file length "
                                      + Text.Decimal(|fc.bytes|) + " for " + path)), requests)
        else
          Exchange(Ok(FileDownload(fc.entry, ContentsBuffer, VecReader(fc.bytes[start..], 0))), requests)
  }

  /** Starting at zero asks for no range and, on the fallback, drops nothing. */
  lemma DownloadFromZero(srv: Server, past: seq<Request>, path: string)
    ensures DownloadReaderFrom(srv, past, path, 0).requests[0] == GetFiles(path, None)
    ensures var x := DownloadReaderFrom(srv, past, path, 0);
      var fallback := DownloadUseContents(srv, past + [GetFiles(path, None)], path);
      srv.files(past + [GetFiles(path, None)]).Err? && fallback.result.Ok? ==>
        x.result.Ok? && x.result.value.reader.Remaining() == fallback.result.value.bytes
  {
  }

  // ---------------------------------------------------------------------------
  // Hashing

  /** `remote_hashsum`: the algorithm and digest the server reports for a
      file-like path, requested without the payload. */
  function RemoteHashsum(srv: Server, past: seq<Request>, path: string): (x: Exchange<(string, string)>)
    ensures x.requests == [GetContents(path, HashParams)]
    ensures var reply := srv.contents(past + x.requests);
      && (reply.Err? ==> x.result == Err(Client(reply.error)))
      && (reply.Ok? && !IsFileLike(FromContentType(reply.value.contentType)) ==>
            x.result == Err(NotAFile(reply.value.path)))
      && (reply.Ok? && IsFileLike(FromContentType(reply.value.contentType)) ==>
            (x.result.Ok? <==> reply.value.hash.Some? && reply.value.hashAlgorithm.Some?)
            && (x.result.Ok? ==> x.result.value == (reply.value.hashAlgorithm.value, reply.value.hash.value))
            && (x.result.Err? ==> x.result.error.InvalidPayload?))
  {
    var req := GetContents(path, HashParams);
    match srv.contents(past + [req])
    case Err(e) => Exchange(Err(Client(e)), [req])
    case Ok(c) =>
      if !IsFileLike(FromContentType(c.contentType)) then Exchange(Err(NotAFile(c.path)), [req])
      else
        match c.hash
        case None => Exchange(Err(InvalidPayload("server did not return hash for " + c.path)), [req])
        case Some(digest) =>
          match c.hashAlgorithm
          case None => Exchange(Err(InvalidPayload("server did not return hash_algorithm for " + c.path)), [req])
          case Some(algorithm) => Exchange(Ok((algorithm, digest)), [req])
  }

  /** A SHA-256 digest: the server's hex string, or the digest of the bytes the
      client read (the hash function itself is not modelled). */
  datatype Digest = ServerDigest(hex: string) | LocalSha256(input: seq<Byte>)

  /** The read buffer of `sha256sum`: 16 KiB. */
  const HashBufferSize: nat := 16 * 1024

  /** Why reading the download failed, in `sha256sum`'s words. */
  function ReadFailure(path: string, reason: string): FsError {
    InvalidPayload("failed to read " + path + ": " + reason)
  }

  /** `sha256sum`: the server's digest when it reports one for "sha256" in any
      letter case, otherwise the digest of the whole file read locally.
      `streamError` is the transport failure, if any, that ends the body of a
      `/files` stream before it is complete; a buffer of the contents payload
      is read from memory and cannot fail. */
  function Sha256Sum(srv: Server, past: seq<Request>, path: string, streamError: Option<string>): (x: Exchange<Digest>)
    ensures |x.requests| >= 1
    ensures var remote := RemoteHashsum(srv, past, path);
      && x.requests[..1] == remote.requests
      && (remote.result.Ok? && Text.EqIgnoreAsciiCase(remote.result.value.0, "sha256") ==>
            x.result == Ok(ServerDigest(remote.result.value.1)) && |x.requests| == 1)
      && (!(remote.result.Ok? && Text.EqIgnoreAsciiCase(remote.result.value.0, "sha256")) ==>
            var local := DownloadReaderFrom(srv, past + remote.requests, path, 0);
            && x.requests == remote.requests + local.requests
            && (local.result.Ok? && local.result.value.source.FilesStream? && streamError.Some? ==>
                  x.result == Err(ReadFailure(path, streamError.value)))
            && (local.result.Ok? && (local.result.value.source.ContentsBuffer? || streamError.None?) ==>
                  x.result == Ok(LocalSha256(local.result.value.reader.Remaining())))
            && (local.result.Err? ==> x.result == Err(local.result.error)))
  {
    var remote := RemoteHashsum(srv, past, path);
    if remote.result.Ok? && Text.EqIgnoreAsciiCase(remote.result.value.0, "sha256") then
      Exchange(Ok(ServerDigest(remote.result.value.1)), remote.requests)
    else
      var local := DownloadReaderFrom(srv, past + remote.requests, path, 0);
      match local.result
      case Err(e) => Exchange(Err(e), remote.requests + local.requests)
      case Ok(d) =>
        if d.source.FilesStream? && streamError.Some? then
          Exchange(Err(ReadFailure(path, streamError.value)), remote.requests + local.requests)
        else
          Exchange(Ok(LocalSha256(ReadToEnd(d.reader, HashBufferSize))), remote.requests + local.requests)
  }

  // ---------------------------------------------------------------------------
  // Removal, creation, renaming

  /** `rm`: one delete request. */
  function Rm(srv: Server, past: seq<Request>, path: string): (x: Exchange<()>)
    ensures x.requests == [DeleteContents(path)]
    ensures var reply := srv.deletion(past + x.requests);
      (x.result.Ok? <==> reply.Ok?) && (reply.Err? ==> x.result == Err(Client(reply.error)))
  {
    var req := DeleteContents(path);
    match srv.deletion(past + [req])
    case Ok(_) => Exchange(Ok(()), [req])
    case Err(e) => Exchange(Err(Client(e)), [req])
  }

  /** `mkdir`: a save of a directory model with nothing else set. */
  function Mkdir(srv: Server, past: seq<Request>, path: string): (x: Exchange<Entry>)
    ensures x.requests == [SaveContents(path, Params.DefaultSaveModel.(entryType := Some(Params.ContentsEntryType.Directory)))]
    ensures var reply := srv.contents(past + x.requests);
      && (reply.Err? ==> x.result == Err(Client(reply.error)))
      && (reply.Ok? ==> x.result == Ok(EntryFrom(reply.value)))
  {
    var req := SaveContents(path, Params.DefaultSaveModel.(entryType := Some(Params.ContentsEntryType.Directory)));
    match srv.contents(past + [req])
    case Err(e) => Exchange(Err(Client(e)), [req])
    case Ok(c) => Exchange(Ok(EntryFrom(c)), [req])
  }

  /** `rename`: the new path is sent without its leading slashes. */
  function Rename(srv: Server, past: seq<Request>, from: string, to: string): (x: Exchange<Entry>)
    ensures x.requests == [RenameContents(from, TrimLeadingSlash(to))]
    ensures !Text.StartsWith(x.requests[0].to, '/')
    ensures var reply := srv.contents(past + x.requests);
      && (reply.Err? ==> x.result == Err(Client(reply.error)))
      && (reply.Ok? ==> x.result == Ok(EntryFrom(reply.value)))
  {
    var req := RenameContents(from, TrimLeadingSlash(to));
    match srv.contents(past + [req])
    case Err(e) => Exchange(Err(Client(e)), [req])
    case Ok(c) => Exchange(Ok(EntryFrom(c)), [req])
  }

  /** Whether a directory model lists at least one child. */
  predicate ListsChildren(c: Contents) {
    c.content.Some? && c.content.value.Listing? && |c.content.value.entries| > 0
  }

  /** `rmdir`: the path must be a directory and, unless recursive, list no
      children; only then is it deleted. */
  function Rmdir(srv: Server, past: seq<Request>, path: string, recursive: bool): (x: Exchange<()>)
    ensures |x.requests| >= 1 && x.requests[0] == GetContents(path, ContentFlag(!recursive))
    ensures var reply := srv.contents(past + [x.requests[0]]);
      && (reply.Err? ==> x.result == Err(Client(reply.error)) && x.requests == [x.requests[0]])
      && (reply.Ok? && !IsDirectory(FromContentType(reply.value.contentType)) ==>
            x.result == Err(NotADirectory(reply.value.path)) && !IssuesDelete(x.requests))
      && (reply.Ok? && IsDirectory(FromContentType(reply.value.contentType)) && ListsChildren(reply.value) ==>
            x.result == Err(InvalidPayload("directory " + reply.value.path + " is not empty")) && !IssuesDelete(x.requests))
      && (reply.Ok? && IsDirectory(FromContentType(reply.value.contentType)) && !ListsChildren(reply.value) ==>
            x.requests == [x.requests[0], DeleteContents(path)]
            && var deleted := srv.deletion(past + x.requests);
               (deleted.Ok? ==> x.result == Ok(())) && (deleted.Err? ==> x.result == Err(Client(deleted.error))))
  {
    var req := GetContents(path, ContentFlag(!recursive));
    match srv.contents(past + [req])
    case Err(e) => Exchange(Err(Client(e)), [req])
    case Ok(c) =>
      if !IsDirectory(FromContentType(c.contentType)) then Exchange(Err(NotADirectory(c.path)), [req])
      else if ListsChildren(c) then Exchange(Err(InvalidPayload("directory " + c.path + " is not empty")), [req])
      else
        var del := Rm(srv, past + [req], path);
        assert past + [req] + del.requests == past + ([req] + del.requests);
        Exchange(del.result, [req] + del.requests)
  }

  /** `rmdir` deletes only after a directory reply that lists no children; a
      recursive call asks for no listing, so a server that honours the flag
      never makes the emptiness check fail. */
  lemma RmdirDeletesOnlyEmptyDirectories(srv: Server, past: seq<Request>, path: string, recursive: bool)
    ensures var x := Rmdir(srv, past, path, recursive);
      IssuesDelete(x.requests) ==>
        var reply := srv.contents(past + [x.requests[0]]);
        reply.Ok? && IsDirectory(FromContentType(reply.value.contentType)) && !ListsChildren(reply.value)
    ensures recursive ==> Rmdir(srv, past, path, recursive).requests[0].params.content == Some(false)
  {
    var x := Rmdir(srv, past, path, recursive);
    var reply := srv.contents(past + [x.requests[0]]);
    if IssuesDelete(x.requests) {
      var i :| 0 <= i < |x.requests| && x.requests[i].DeleteContents?;
      assert i != 0;
    }
  }
}
