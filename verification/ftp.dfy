/** The FTP storage backend: every FTP verb normalises the requested path the
    way a Unix `Path` splits into components, forwards to the contents service,
    and turns service failures into FTP error kinds. The server is the oracle of
    `FsService`; reading the uploaded stream is modelled by the bytes it yields. */
module Ftp {

  import opened Wrappers
  import Text
  import Client
  import FsService
  import Scp
  import Resp

  type Byte = FsService.Byte

  // ---------------------------------------------------------------------------
  // Error kinds

  /** The FTP error kinds the backend reports. */
  datatype ErrorKind =
    | PermanentFileNotAvailable
    | PermanentDirectoryNotAvailable
    | PermanentDirectoryNotEmpty
    | PermissionDenied
    | LocalError
    | CommandNotImplemented

  /** `map_client_error`: 404 is a missing file, 401 and 403 a refusal, 409 a
      non-empty directory; every other failure is local. */
  function MapClientError(e: Client.RestError): (k: ErrorKind)
    ensures k == PermanentFileNotAvailable <==> e.Api? && e.status == 404
    ensures k == PermissionDenied <==> e.Api? && (e.status == 401 || e.status == 403)
    ensures k == PermanentDirectoryNotEmpty <==> e.Api? && e.status == 409
    ensures k == LocalError <==> !(e.Api? && e.status in {401, 403, 404, 409})
  {
    match e
    case Api(status, _) =>
      if status == 404 then PermanentFileNotAvailable
      else if status == 403 || status == 401 then PermissionDenied
      else if status == 409 then PermanentDirectoryNotEmpty
      else LocalError
    case _ => LocalError
  }

  /** `map_fs_error`: client failures by status, a wrong kind of entry by the
      kind expected, a feature the service lacks as an unimplemented command,
      and every payload problem as a local error. */
  function MapFsError(e: FsService.FsError): (k: ErrorKind)
    ensures e.Client? ==> k == MapClientError(e.error)
    ensures k == CommandNotImplemented <==> e.NotImplemented?
    ensures k == PermanentDirectoryNotAvailable <==> e.NotADirectory?
    ensures k == PermanentFileNotAvailable <==> e.NotAFile? || (e.Client? && e.error.Api? && e.error.status == 404)
    ensures (e.MissingContent? || e.InvalidPayload? || e.Decode?) ==> k == LocalError
  {
    match e
    case Client(err) => MapClientError(err)
    case NotAFile(_) => PermanentFileNotAvailable
    case NotADirectory(_) => PermanentDirectoryNotAvailable
    case MissingContent(_) => LocalError
    case InvalidPayload(_) => LocalError
    case Decode(_) => LocalError
    case NotImplemented(_) => CommandNotImplemented
  }

  // ---------------------------------------------------------------------------
  // Metadata of an entry (`FsMetadata`)

  /** `len`: the reported size, zero when unknown. */
  function Len(e: FsService.Entry): (n: nat)
    ensures e.size.Some? ==> n == e.size.value
    ensures e.size.None? ==> n == 0
  {
    match e.size
    case Some(s) => s
    case None => 0
  }

  predicate IsDir(e: FsService.Entry) {
    e.kind.Directory?
  }

  /** `is_file`: everything that is not a directory, notebooks included. */
  function IsFile(e: FsService.Entry): (r: bool)
    ensures r <==> FsService.IsFileLike(e.kind)
    ensures r != IsDir(e)
  {
    !IsDir(e)
  }

  /** `is_symlink`: the contents service has no links. */
  function IsSymlink(e: FsService.Entry): (r: bool)
    ensures !r
  {
    false
  }

  /** `modified`: the last modification, else the creation, else a local
      error. */
  function Modified(e: FsService.Entry): (r: Result<Resp.Timestamp, ErrorKind>)
    ensures r.Ok? <==> e.lastModified.Some? || e.created.Some?
    ensures e.lastModified.Some? ==> r == Ok(e.lastModified.value)
    ensures e.lastModified.None? && e.created.Some? ==> r == Ok(e.created.value)
    ensures r.Err? ==> r.error == LocalError
  {
    match e.lastModified
    case Some(t) => Ok(t)
    case None =>
      match e.created
      case Some(t) => Ok(t)
      case None => Err(LocalError)
  }

  /** `gid` and `uid`: every entry belongs to user and group zero. */
  function Owner(e: FsService.Entry): (ids: (nat, nat))
    ensures ids.0 == 0 && ids.1 == 0
  {
    (0, 0)
  }

  /** The octal digit of a mode for one class of users: 0 for the owner, 1 for
      the group, 2 for others. */
  function ModeDigit(mode: nat, who: nat): nat
    requires who < 3
  {
    if who == 0 then (mode / 64) % 8 else if who == 1 then (mode / 8) % 8 else mode % 8
  }

  /** `permissions`: a writable entry is 0o755, any other 0o555. */
  function Permissions(e: FsService.Entry): (mode: nat)
    ensures mode < 512
    ensures ModeDigit(mode, 0) == (if e.writable then 7 else 5)
    ensures ModeDigit(mode, 1) == 5 && ModeDigit(mode, 2) == 5
  {
    if e.writable then 493 else 365
  }

  /** Everyone may read and traverse every entry; only the owner may write, and
      only when the service reports the entry writable. */
  lemma PermissionsBits(e: FsService.Entry, who: nat)
    requires who < 3
    ensures ModeDigit(Permissions(e), who) / 4 == 1
    ensures ModeDigit(Permissions(e), who) % 2 == 1
    ensures (ModeDigit(Permissions(e), who) / 2) % 2 == 1 <==> who == 0 && e.writable
  {
  }

  /** The example of the unit tests: a writable directory and a read-only file. */
  lemma MetadataExample(t: Resp.Timestamp)
    ensures var dir := FsService.Entry("sample", "sample", FsService.Directory, true, Some(t), Some(t), Some(10), None, None, None);
      && IsDir(dir) && !IsFile(dir) && Permissions(dir) == 0x1ED
      && var file := dir.(kind := FsService.File, writable := false);
         !IsDir(file) && IsFile(file) && Permissions(file) == 0x16D
  {
  }

  // ---------------------------------------------------------------------------
  // Listed entry paths

  /** `absolute_entry_path`: an empty path is the root, a rooted path is kept
      as it is, and a relative one is rooted with its empty pieces dropped. */
  function AbsoluteEntryPath(raw: string): (r: string)
    ensures Text.StartsWith(r, '/')
    ensures raw == [] ==> r == "/"
    ensures Text.StartsWith(raw, '/') ==> r == raw
  {
    if raw == [] then "/"
    else if raw[0] == '/' then raw
    else
      var pieces := Client.DropEmpty(Text.Split(raw, '/'));
      assert |pieces| > 0 by { FirstPieceNonEmpty(raw); }
      Scp.Render(pieces)
  }

  /** The first piece of a split is empty exactly when the string is empty or
      starts with the separator. */
  lemma FirstPieceNonEmpty(raw: string)
    requires raw != [] && raw[0] != '/'
    ensures Text.Split(raw, '/')[0] != []
    ensures |Client.DropEmpty(Text.Split(raw, '/'))| > 0
  {
    var parts := Text.Split(raw, '/');
    assert parts[0][0] == raw[0];
  }

  /** A relative entry path becomes the root followed by its non-empty pieces,
      in order: no piece is lost and none is left empty. */
  lemma RelativeEntryPathPieces(raw: string)
    requires raw != [] && raw[0] != '/'
    ensures Text.Split(AbsoluteEntryPath(raw), '/') == [""] + Client.DropEmpty(Text.Split(raw, '/'))
    ensures Client.Concat(Text.Split(AbsoluteEntryPath(raw), '/')) == Client.Remove(raw, '/')
  {
    var parts := Text.Split(raw, '/');
    var pieces := Client.DropEmpty(parts);
    FirstPieceNonEmpty(raw);
    Text.SplitJoin(pieces, '/');
    var j := Text.Join(pieces, '/');
    Text.SplitAtSeparator("", '/', j);
    assert AbsoluteEntryPath(raw) == "" + ['/'] + j;
    assert ([""] + pieces)[1..] == pieces;
    Client.ConcatSplit(raw, '/');
  }

  /** A listed entry: its absolute path and its metadata. */
  datatype FileInfo = FileInfo(path: string, metadata: FsService.Entry)

  /** `entry_to_fileinfo`. */
  function EntryToFileInfo(e: FsService.Entry): (info: FileInfo)
    ensures info.metadata == e
    ensures Text.StartsWith(info.path, '/')
    ensures Text.StartsWith(e.path, '/') ==> info.path == e.path
  {
    FileInfo(AbsoluteEntryPath(e.path), e)
  }

  function FileInfos(es: seq<FsService.Entry>): (r: seq<FileInfo>)
    ensures |r| == |es|
    ensures forall i :: 0 <= i < |es| ==> r[i] == EntryToFileInfo(es[i])
  {
    if |es| == 0 then [] else [EntryToFileInfo(es[0])] + FileInfos(es[1..])
  }

  // ---------------------------------------------------------------------------
  // Request paths (`normalize_request_path`)

  /** The components of a Unix `Path`; a Windows prefix never occurs. */
  datatype Component = RootDir | CurDir | ParentDir | Normal(name: string)

  /** The components of the pieces after the first: empty and "." pieces
      vanish. */
  function PieceComponents(pieces: seq<string>): (r: seq<Component>)
    ensures forall i :: 0 <= i < |r| ==> r[i].ParentDir? || r[i].Normal?
    ensures forall i :: 0 <= i < |r| && r[i].Normal? ==> r[i].name in pieces && r[i].name !in {"", ".", ".."}
    decreases |pieces|
  {
    if |pieces| == 0 then []
    else
      var p := pieces[0];
      var rest := PieceComponents(pieces[1..]);
      var head := if p == "" || p == "." then [] else if p == ".." then [ParentDir] else [Normal(p)];
      assert forall i :: 0 <= i < |head + rest| ==> (head + rest)[i] == (if i < |head| then head[i] else rest[i - |head|]);
      head + rest
  }

  /** `Path::components` of a Unix path: a root for a leading '/', a current
      directory for a leading "." piece, then the remaining pieces. */
  function PathComponents(path: string): (r: seq<Component>)
    ensures forall i :: 0 < i < |r| ==> r[i] != RootDir && r[i] != CurDir
    ensures forall i :: 0 <= i < |r| && r[i].Normal? ==> Scp.IsNormalComponent(r[i].name)
  {
    var pieces := Text.Split(path, '/');
    if |path| > 0 && path[0] == '/' then [RootDir] + PieceComponents(pieces[1..])
    else if pieces[0] == "." then [CurDir] + PieceComponents(pieces[1..])
    else PieceComponents(pieces)
  }

  /** One component applied to the stack of names. */
  function Apply(stack: seq<string>, c: Component): seq<string> {
    match c
    case RootDir => []
    case CurDir => stack
    case ParentDir => if |stack| == 0 then stack else stack[..|stack| - 1]
    case Normal(name) => stack + [name]
  }

  function Walk(stack: seq<string>, comps: seq<Component>): seq<string>
    decreases |comps|
  {
    if |comps| == 0 then stack else Walk(Apply(stack, comps[0]), comps[1..])
  }

  /** `normalize_request_path`: the surviving names under the root. */
  function NormalizeRequestPath(path: string): (r: string)
    ensures Text.StartsWith(r, '/')
  {
    Scp.Render(Walk([], PathComponents(path)))
  }

  /** Walking the components of some pieces is resolving the pieces. */
  lemma {:induction false} WalkPieces(stack: seq<string>, pieces: seq<string>)
    ensures Walk(stack, PieceComponents(pieces)) == Scp.Resolve(stack, pieces)
    decreases |pieces|
  {
    if |pieces| > 0 {
      var p := pieces[0];
      var rest := PieceComponents(pieces[1..]);
      WalkPieces(Scp.PushPart(stack, p), pieces[1..]);
      if p == "" || p == "." {
        assert PieceComponents(pieces) == rest;
      } else if p == ".." {
        assert PieceComponents(pieces) == [ParentDir] + rest;
        assert ([ParentDir] + rest)[1..] == rest;
      } else {
        assert PieceComponents(pieces) == [Normal(p)] + rest;
        assert ([Normal(p)] + rest)[1..] == rest;
      }
    }
  }

  /** The FTP backend and the copy tool normalise paths identically. */
  lemma NormalizeRequestMatchesRemote(path: string)
    ensures NormalizeRequestPath(path) == Scp.NormalizeRemotePath(path)
  {
    var pieces := Text.Split(path, '/');
    WalkPieces([], pieces[1..]);
    if |path| > 0 && path[0] == '/' {
      assert pieces[0] == "";
      var rest := PieceComponents(pieces[1..]);
      assert ([RootDir] + rest)[1..] == rest;
    } else if pieces[0] == "." {
      var rest := PieceComponents(pieces[1..]);
      assert ([CurDir] + rest)[1..] == rest;
    } else {
      WalkPieces([], pieces);
    }
  }

  /** The examples of the unit tests: the empty path and the root. */
  lemma NormalizeRootExamples()
    ensures NormalizeRequestPath("") == "/"
    ensures NormalizeRequestPath("/") == "/"
  {
    NormalizeRequestMatchesRemote("");
    Scp.NormalizeEmpty();
    NormalizeRequestMatchesRemote("/");
    Scp.RenderCanonical([]);
  }

  /** A relative path of two names is rooted as it is. */
  lemma TwoNamesRooted(a: string, b: string)
    requires Scp.IsNormalComponent(a) && Scp.IsNormalComponent(b)
    ensures NormalizeRequestPath(a + "/" + b) == "/" + a + "/" + b
  {
    var both := [a, b];
    assert Text.Join(both, '/') == a + "/" + b by {
      assert both[1..] == [b];
    }
    NormalizeRequestMatchesRemote(a + "/" + b);
    Scp.RelativeCanonical(both);
  }

  /** A "." piece between two names vanishes. */
  lemma DotBetweenNames(a: string, b: string)
    requires Scp.IsNormalComponent(a) && Scp.IsNormalComponent(b)
    ensures NormalizeRequestPath("/" + a + "/./" + b) == "/" + a + "/" + b
  {
    var both := [a, b];
    assert Text.Join(both, '/') == a + "/" + b by {
      assert both[1..] == [b];
    }
    assert Scp.Render(both) == "/" + a + "/" + b;
    NormalizeRequestMatchesRemote("/" + a + "/./" + b);
    Scp.DotPieceVanishes("/" + a, b);
    Scp.RenderCanonical(both);
  }

  /** A ".." piece after a name cancels it. */
  lemma ParentCancelsName(a: string, b: string)
    requires Scp.IsNormalComponent(a) && Scp.IsNormalComponent(b)
    ensures NormalizeRequestPath("/" + a + "/../" + b) == "/" + b
  {
    assert Scp.Render([b]) == "/" + b;
    assert "" + "/" + a + "/../" + b == "/" + a + "/../" + b;
    assert "" + "/" + b == "/" + b;
    NormalizeRequestMatchesRemote("/" + a + "/../" + b);
    Scp.NameThenParentCancels("", a, b);
    Scp.RenderCanonical([b]);
  }

  /** Nothing lies above the root: leading ".." pieces before a name vanish. */
  lemma ParentsAboveRootVanish(name: string)
    requires Scp.IsNormalComponent(name)
    ensures NormalizeRequestPath("../../" + name) == "/" + name
  {
    var once := "../" + name;
    assert "../" + once == "../../" + name;
    assert Text.Join([name], '/') == name;
    NormalizeRequestMatchesRemote("../../" + name);
    Scp.ParentOfRootIsRoot(once);
    Scp.ParentOfRootIsRoot(name);
    Scp.RelativeCanonical([name]);
  }

  // ---------------------------------------------------------------------------
  // The storage verbs

  /** A verb's outcome and the service requests it issued. */
  datatype FtpExchange<T> = FtpExchange(result: Result<T, ErrorKind>, requests: seq<FsService.Request>)

  /** A service outcome seen through `map_fs_error`. */
  function Lift<T>(x: FsService.Exchange<T>): (y: FtpExchange<T>)
    ensures y.requests == x.requests
    ensures y.result.Ok? <==> x.result.Ok?
    ensures x.result.Ok? ==> y.result.value == x.result.value
    ensures x.result.Err? ==> y.result.error == MapFsError(x.result.error)
  {
    match x.result
    case Ok(v) => FtpExchange(Ok(v), x.requests)
    case Err(e) => FtpExchange(Err(MapFsError(e)), x.requests)
  }

  /** `metadata`: one payload-free lookup of the normalised path. */
  function Metadata(srv: FsService.Server, past: seq<FsService.Request>, path: string): (x: FtpExchange<FsService.Entry>)
    ensures x.requests == [FsService.GetContents(NormalizeRequestPath(path), FsService.ContentFlag(false))]
    ensures var reply := srv.contents(past + x.requests);
      && (reply.Err? ==> x.result == Err(MapClientError(reply.error)))
      && (reply.Ok? ==> x.result == Ok(FsService.EntryFrom(reply.value)))
  {
    Lift(FsService.Metadata(srv, past, NormalizeRequestPath(path)))
  }

  /** `list`: the listing of the normalised path, each entry rooted. */
  function List(srv: FsService.Server, past: seq<FsService.Request>, path: string): (x: FtpExchange<seq<FileInfo>>)
    ensures var ls := FsService.Ls(srv, past, NormalizeRequestPath(path));
      && x.requests == ls.requests
      && (x.result.Ok? <==> ls.result.Ok?)
      && (ls.result.Ok? ==>
            |x.result.value| == |ls.result.value|
            && forall i :: 0 <= i < |ls.result.value| ==>
                 x.result.value[i].metadata == ls.result.value[i]
                 && x.result.value[i].path == AbsoluteEntryPath(ls.result.value[i].path))
      && (ls.result.Err? ==> x.result.error == MapFsError(ls.result.error))
  {
    var ls := FsService.Ls(srv, past, NormalizeRequestPath(path));
    match ls.result
    case Ok(entries) => FtpExchange(Ok(FileInfos(entries)), ls.requests)
    case Err(e) => FtpExchange(Err(MapFsError(e)), ls.requests)
  }

  /** `get`: a reader from `start` on, through the service's ranged download. */
  function Get(srv: FsService.Server, past: seq<FsService.Request>, path: string, start: nat): (x: FtpExchange<FsService.VecReader>)
    ensures var d := FsService.DownloadReaderFrom(srv, past, NormalizeRequestPath(path), start);
      && x.requests == d.requests
      && (x.result.Ok? <==> d.result.Ok?)
      && (d.result.Ok? ==> x.result.value == d.result.value.reader && x.result.value.position == 0)
      && (d.result.Err? ==> x.result.error == MapFsError(d.result.error))
    ensures x.requests[0] == FsService.GetFiles(NormalizeRequestPath(path), FsService.RangeFrom(start))
  {
    var d := FsService.DownloadReaderFrom(srv, past, NormalizeRequestPath(path), start);
    match d.result
    case Ok(download) => FtpExchange(Ok(download.reader), d.requests)
    case Err(e) => FtpExchange(Err(MapFsError(e)), d.requests)
  }

  /** `put`: only whole-file writes; the input is read to its end (`None` when
      reading fails) and uploaded in one save, answering the number of bytes. */
  function Put(srv: FsService.Server, past: seq<FsService.Request>, input: Option<seq<Byte>>, path: string, start: nat): (x: FtpExchange<nat>)
    ensures start != 0 ==> x == FtpExchange(Err(CommandNotImplemented), [])
    ensures start == 0 && input.None? ==> x == FtpExchange(Err(LocalError), [])
    ensures start == 0 && input.Some? ==>
      var up := FsService.Upload(srv, past, NormalizeRequestPath(path), input.value);
      && x.requests == [FsService.UploadContents(NormalizeRequestPath(path), input.value, None)]
      && (x.result.Ok? <==> up.result.Ok?)
      && (x.result.Ok? ==> x.result.value == |input.value|)
      && (up.result.Err? ==> x.result.error == MapFsError(up.result.error))
  {
    if start != 0 then FtpExchange(Err(CommandNotImplemented), [])
    else
      match input
      case None => FtpExchange(Err(LocalError), [])
      case Some(buffer) =>
        var up := FsService.Upload(srv, past, NormalizeRequestPath(path), buffer);
        match up.result
        case Ok(_) => FtpExchange(Ok(|buffer|), up.requests)
        case Err(e) => FtpExchange(Err(MapFsError(e)), up.requests)
  }

  /** `del`: one delete of the normalised path. */
  function Del(srv: FsService.Server, past: seq<FsService.Request>, path: string): (x: FtpExchange<()>)
    ensures x.requests == [FsService.DeleteContents(NormalizeRequestPath(path))]
    ensures var reply := srv.deletion(past + x.requests);
      && (x.result.Ok? <==> reply.Ok?)
      && (reply.Err? ==> x.result.error == MapClientError(reply.error))
  {
    Lift(FsService.Rm(srv, past, NormalizeRequestPath(path)))
  }

  /** `mkd`: one directory save of the normalised path; the created entry is
      dropped. */
  function Mkd(srv: FsService.Server, past: seq<FsService.Request>, path: string): (x: FtpExchange<()>)
    ensures var m := FsService.Mkdir(srv, past, NormalizeRequestPath(path));
      && x.requests == m.requests
      && (x.result.Ok? <==> m.result.Ok?)
      && (m.result.Err? ==> x.result.error == MapFsError(m.result.error))
    ensures |x.requests| == 1 && x.requests[0].SaveContents? && x.requests[0].path == NormalizeRequestPath(path)
  {
    var m := FsService.Mkdir(srv, past, NormalizeRequestPath(path));
    match m.result
    case Ok(_) => FtpExchange(Ok(()), m.requests)
    case Err(e) => FtpExchange(Err(MapFsError(e)), m.requests)
  }

  /** `rename`: both paths normalised; the target is sent relative to the
      root. */
  function Rename(srv: FsService.Server, past: seq<FsService.Request>, from: string, to: string): (x: FtpExchange<()>)
    ensures x.requests == [FsService.RenameContents(NormalizeRequestPath(from), FsService.TrimLeadingSlash(NormalizeRequestPath(to)))]
    ensures var reply := srv.contents(past + x.requests);
      && (x.result.Ok? <==> reply.Ok?)
      && (reply.Err? ==> x.result.error == MapClientError(reply.error))
  {
    var r := FsService.Rename(srv, past, NormalizeRequestPath(from), NormalizeRequestPath(to));
    match r.result
    case Ok(_) => FtpExchange(Ok(()), r.requests)
    case Err(e) => FtpExchange(Err(MapFsError(e)), r.requests)
  }

  /** `rmd`: a non-recursive directory removal of the normalised path. */
  function Rmd(srv: FsService.Server, past: seq<FsService.Request>, path: string): (x: FtpExchange<()>)
    ensures var r := FsService.Rmdir(srv, past, NormalizeRequestPath(path), false);
      && x.requests == r.requests
      && (x.result.Ok? <==> r.result.Ok?)
      && (r.result.Err? ==> x.result.error == MapFsError(r.result.error))
    ensures x.requests[0] == FsService.GetContents(NormalizeRequestPath(path), FsService.ContentFlag(true))
  {
    Lift(FsService.Rmdir(srv, past, NormalizeRequestPath(path), false))
  }

  /** `rmd` deletes only a directory the server listed as empty; a file is
      refused as an unavailable directory and a non-empty directory as a local
      error. */
  lemma RmdRemovesOnlyEmptyDirectories(srv: FsService.Server, past: seq<FsService.Request>, path: string)
    ensures var x := Rmd(srv, past, path);
      var reply := srv.contents(past + [x.requests[0]]);
      && (FsService.IssuesDelete(x.requests) ==>
            reply.Ok? && FsService.IsDirectory(FsService.FromContentType(reply.value.contentType))
            && !FsService.ListsChildren(reply.value))
      && (reply.Ok? && !FsService.IsDirectory(FsService.FromContentType(reply.value.contentType)) ==>
            x.result == Err(PermanentDirectoryNotAvailable))
      && ((reply.Ok? && FsService.IsDirectory(FsService.FromContentType(reply.value.contentType))
           && FsService.ListsChildren(reply.value)) ==> x.result == Err(LocalError))
  {
    FsService.RmdirDeletesOnlyEmptyDirectories(srv, past, NormalizeRequestPath(path), false);
  }

  /** `cwd`: succeeds exactly on a directory; anything else is an unavailable
      directory. */
  function Cwd(srv: FsService.Server, past: seq<FsService.Request>, path: string): (x: FtpExchange<()>)
    ensures x.requests == Metadata(srv, past, path).requests
    ensures var reply := srv.contents(past + x.requests);
      && (x.result.Ok? <==> reply.Ok? && FsService.IsDirectory(FsService.FromContentType(reply.value.contentType)))
      && (reply.Ok? && x.result.Err? ==> x.result.error == PermanentDirectoryNotAvailable)
      && (reply.Err? ==> x.result.error == MapClientError(reply.error))
  {
    var m := Metadata(srv, past, path);
    match m.result
    case Err(e) => FtpExchange(Err(e), m.requests)
    case Ok(entry) =>
      if FsService.IsDirectory(entry.kind) then FtpExchange(Ok(()), m.requests)
      else FtpExchange(Err(PermanentDirectoryNotAvailable), m.requests)
  }

  /** A successful change of directory means a listing there is a directory's
      listing, not the single entry of a file. */
  lemma CwdAgreesWithIsDir(srv: FsService.Server, past: seq<FsService.Request>, path: string)
    ensures var m := Metadata(srv, past, path);
      (Cwd(srv, past, path).result.Ok? <==> m.result.Ok? && IsDir(m.result.value))
  {
  }
}
