/** The older file-system helper over the contents API. Listing, metadata,
    upload, chunked upload, removal, directory creation, renaming and directory
    removal behave as in `FsService`; what differs is modelled here: downloads
    go through the contents endpoint only, hashing always downloads and hashes
    locally, and the error type names its client failure a REST error and has
    no "not implemented" case. */
module LegacyFs {

  import opened Wrappers
  import FsService
  import Client
  import Base64

  type Byte = FsService.Byte

  /** The errors of the older helper. */
  datatype LegacyError =
    | Rest(error: Client.RestError)
    | NotAFile(path: string)
    | NotADirectory(path: string)
    | MissingContent(path: string)
    | InvalidPayload(reason: string)
    | Decode(decodeError: Base64.DecodeError)

  /** The older error for a failure of a shared verb; `None` for the one kind
      the older type lacks. */
  function FromService(e: FsService.FsError): (r: Option<LegacyError>)
    ensures r.None? <==> e.NotImplemented?
    ensures e.Client? ==> r == Some(Rest(e.error))
    ensures e.NotAFile? ==> r == Some(NotAFile(e.path))
    ensures e.NotADirectory? ==> r == Some(NotADirectory(e.path))
    ensures e.MissingContent? ==> r == Some(MissingContent(e.path))
    ensures e.InvalidPayload? ==> r == Some(InvalidPayload(e.reason))
    ensures e.Decode? ==> r == Some(Decode(e.decodeError))
  {
    match e
    case Client(err) => Some(Rest(err))
    case NotAFile(p) => Some(NotAFile(p))
    case NotADirectory(p) => Some(NotADirectory(p))
    case MissingContent(p) => Some(MissingContent(p))
    case InvalidPayload(r) => Some(InvalidPayload(r))
    case Decode(d) => Some(Decode(d))
    case NotImplemented(_) => None
  }

  /** The service error an older error corresponds to. */
  function ToService(e: LegacyError): FsService.FsError {
    match e
    case Rest(err) => FsService.Client(err)
    case NotAFile(p) => FsService.NotAFile(p)
    case NotADirectory(p) => FsService.NotADirectory(p)
    case MissingContent(p) => FsService.MissingContent(p)
    case InvalidPayload(r) => FsService.InvalidPayload(r)
    case Decode(d) => FsService.Decode(d)
  }

  /** The two error types agree on every kind they share. */
  lemma ErrorsCorrespond(e: LegacyError, f: FsService.FsError)
    ensures FromService(ToService(e)) == Some(e)
    ensures FromService(f).Some? ==> ToService(FromService(f).value) == f
  {
  }

  /** `impl Display for FsError` of the older helper: as the service's, except
      that a client failure reads "rest api error". */
  function Message(e: LegacyError): (r: string)
    ensures e.Rest? ==> r == "rest api error: " + Client.Display(e.error)
    ensures !e.Rest? ==> r == FsService.Message(ToService(e))
  {
    match e
    case Rest(err) => "rest api error: " + Client.Display(err)
    case _ => FsService.Message(ToService(e))
  }

  /** The older `download`: the contents endpoint only, base64 requested. */
  function Download(srv: FsService.Server, past: seq<FsService.Request>, path: string): (x: FsService.Exchange<FsService.FileContent>)
    ensures x.requests == [FsService.GetContents(path, FsService.DownloadParams)]
    ensures var reply := srv.contents(past + x.requests);
      && (reply.Err? ==> x.result == Err(FsService.Client(reply.error)))
      && (reply.Ok? && x.result.Ok? ==>
            x.result.value.entry == FsService.EntryFrom(reply.value)
            && reply.value.content.Some?
            && FsService.DecodeFileBytes(reply.value.format, reply.value.content.value) == Ok(x.result.value.bytes))
  {
    FsService.DownloadUseContents(srv, past, path)
  }

  /** The older download never uses the `/files` endpoint, and it fails
      exactly when the newer download's fallback would. */
  lemma DownloadIsContentsFallback(srv: FsService.Server, past: seq<FsService.Request>, path: string)
    ensures forall i :: 0 <= i < |Download(srv, past, path).requests| ==> !Download(srv, past, path).requests[i].GetFiles?
    ensures var files := srv.files(past + [FsService.GetFiles(path, None)]);
      files.Err? ==>
        FsService.Download(srv, past, path).result
        == Download(srv, past + [FsService.GetFiles(path, None)], path).result
  {
  }

  /** The older `sha256sum`: always the digest of the downloaded bytes; the
      server's hash is never consulted. */
  function Sha256Sum(srv: FsService.Server, past: seq<FsService.Request>, path: string): (x: FsService.Exchange<FsService.Digest>)
    ensures x.requests == Download(srv, past, path).requests
    ensures var d := Download(srv, past, path);
      && (d.result.Ok? <==> x.result.Ok?)
      && (d.result.Ok? ==> x.result.value == FsService.LocalSha256(d.result.value.bytes))
      && (d.result.Err? ==> x.result.error == d.result.error)
    ensures forall i :: 0 <= i < |x.requests| ==> x.requests[i].params.hash.None?
  {
    var d := Download(srv, past, path);
    match d.result
    case Ok(file) => FsService.Exchange(Ok(FsService.LocalSha256(file.bytes)), d.requests)
    case Err(e) => FsService.Exchange(Err(e), d.requests)
  }
}
