# jupyter-api-rs core, modelled in Dafny

This project models the decision logic of `jupyter-api-rs`. That is a Rust
client and command-line tool for the Jupyter server REST API. The model covers:

- the **file-system service** over the contents API (`FsService`). It covers
  listing, metadata, single and chunked uploads with their size check, and
  downloads through `/files` with the contents endpoint as fallback. It also
  covers ranged readers, hashing, removal, directory creation, renaming and
  guarded directory removal.
- the older **file-system helper** (`LegacyFs`), through what it does
  differently from the service.
- the **REST client's** pure parts (`Client`): error display, URL building
  from path segments, the token header and status classification.
- the **contents API parameters** (`Params`): enumeration names, the 0/1
  boolean flags and the query string.
- the **`scp` subcommand** (`Scp`). It covers the operand grammar with
  bracketed IPv6 hosts, remote path normalisation and joining, and the choice
  between an upload and a download plan. It also covers the rules that decide
  whether a destination is a directory, and the per-source steps.
- the **FTP storage backend** (`Ftp`): request-path normalisation, metadata of
  an entry, error mapping and every storage verb.
- the **command-line configuration** (`CliConfig`): the base URL, base-path
  sanitising and token resolution.
- the **client-side state cache** (`State`).

The older helper in src/fs.rs shares most of its code with src/services/fs.rs.
This covers `EntryKind`, `Entry::from`, `ls`, `metadata`, `upload`,
`upload_chunked`, `rmdir`, `decode_file_bytes` and `trim_leading_slash`. The
`FsService` members model that shared logic once. `LegacyFs` holds only what
differs: the error type and its text, a download through the contents endpoint
alone, and a hash that is always computed locally.

Base 64 (section 4 of RFC 4648, canonical padding, as the `base64` crate's
`STANDARD` engine decodes) and UTF-8 encoding are modelled in `Base64` and
`Utf8`. `Text` holds the Rust string helpers (`split`, `join`, `trim_matches`,
`trim`).

**The server is an oracle.** `FsService.Server` holds three functions of the
request trace: contents replies, delete acknowledgements and `/files` bodies.
Each reply depends on everything sent so far, including the request being
answered. Every verb returns an `Exchange` of its result and the requests it
issued, in order. Contracts can therefore say which requests were sent and how
each reply decides the outcome, with no assumption about the server. The
FTP verbs return the same pair with FTP error kinds (`FtpExchange`). The scp
steps return it with scp errors (`Step`). Local file-system facts enter the scp
model as parameters (`LocalStat`), and so do the clock, the token file's text
and the FTP upload stream.

Where the code and its design notes differ, the model follows the code:

- **Empty-host filter.** `parse_operand` drops an empty host *before* it trims
  IPv6 brackets (src/cli/scp.rs:146). So a target of only brackets such as
  `[]` keeps an empty host `Some("")`, not none. See `Scp.BracketOnlyHostIsEmpty`
  and `Scp.BracketPairTrimsAway`.
- **The `@remote` alias never matches.** `ensure_host_alignment` accepts the
  host alias `@remote` (src/cli/scp.rs:256). No parsed host can hold an `@`,
  because the host is what follows the last `@`. `Scp.ParsedHostHasNoAt`
  proves this, so that alias never matches.
- **The `chunk` field.** `SaveContentsModel` (src/structs/param.rs:70-82)
  declares no `chunk` field, but src/services/fs.rs:81 sets one. The model's
  save model carries `chunk`.
- **One client error type.** src/services/fs.rs and src/state.rs name the
  client `JupyterLabClient` and its error `ClientError`. src/api/client.rs
  defines `JupyterRestClient` and `RestError` with the same variants. They are
  modelled as one type, `Client.RestError`.
- **`rmdir` on a recursive call.** `rmdir` asks for the listing only when it
  is not recursive. It still refuses a directory whose reply lists children.
  `FsService.RmdirDeletesOnlyEmptyDirectories` states both facts.

## Model

| member | source | states |
|---|---|---|
| Params.ParseFormat | src/structs/param.rs:7-12 | a recognised format name is exactly the name the variant is written as |
| Params.ParseTypeQuery | src/structs/param.rs:16-20 | a recognised type-query name is exactly the name the variant is written as |
| Params.ParseEntryType | src/structs/param.rs:24-29 | a recognised entry-type name is exactly the name the variant is written as |
| Params.NamesRoundTrip | src/structs/param.rs:7-29 | each enumeration reads back from exactly the name it writes, in both directions |
| Params.NamesAreLowercase | src/structs/param.rs:7-29 | every written name is lowercase (`rename_all = "lowercase"`) |
| Params.SerializeFlag | src/structs/param.rs:105-116 | an absent flag stays absent; true goes out as 1 and false as 0 |
| Params.DeserializeFlag | src/structs/param.rs:118-124 | a number outside `u8` is an error; absent stays absent; zero is false and any other byte true |
| Params.FlagRoundTrip | src/structs/param.rs:105-124 | reading back a written flag gives the flag |
| Params.FlagNormalises | src/structs/param.rs:105-124 | reading then writing a byte normalises it to 0 or 1 |
| Params.Query | src/structs/param.rs:32-50 | the query has one pair per present field and none for an absent field; a present type or format is sent as its lowercase name, and a present flag as "1" for true and "0" for false |
| Params.QueryKeys | src/structs/param.rs:32-50 | each of `type`, `format`, `content` and `hash` appears in the query exactly when its field is present |
| Params.QueryExample | src/structs/param.rs:131-145 | the unit test's parameters give `type=file&format=text&content=1&hash=0` |
| Client.StatusText | src/api/client.rs:43-58 | a status is displayed as exactly three decimal digits |
| Client.Display | src/api/client.rs:43-58 | an API error reads "api error: <status>" and adds " - <message>" only for a non-empty message; the other variants read as their prefix and detail |
| Client.ApiDisplayInjective | src/api/client.rs:43-58 | the text of an API error determines both its status and its message |
| Client.StatusTextInjective | src/api/client.rs:43-58 | different statuses display differently |
| Client.PathSegment | src/api/client.rs:563-568 | a path segment keeps its value and adds nothing when empty |
| Client.PathAllowEmpty | src/api/client.rs:570-575 | a path segment that keeps a trailing slash when empty |
| Client.PopIfEmpty | src/api/client.rs:444-478 | exactly one trailing empty segment of the base is dropped, and nothing else |
| Client.DropEmpty | src/api/client.rs:444-478 | only empty pieces are dropped; order and text are kept |
| Client.Pushed | src/api/client.rs:451-475 | the loop hands `push` a literal as one piece, and a path as slash-free non-empty pieces that spell the path without its slashes, or as one empty piece when it allows empty and is only slashes |
| Client.DropDots | src/api/client.rs:454-470 | `push` skips exactly the "." and ".." pieces: every other piece is kept, and nothing else is added |
| Client.DropDotsAppend | src/api/client.rs:454-470 | skipping goes piece by piece, so the kept pieces stay in order |
| Client.Pieces | src/api/client.rs:444-478 | the URL segments one `Segment` adds: a literal adds itself unless it is "." or "..", when it adds nothing; a path adds the slash-free pieces handed to `push` less the dot pieces, and these spell the path without its slashes when it has no dot piece |
| Client.DotPiecesSkipped | src/api/client.rs:454-470 | `Segment::path("a/../b")` adds `a` and `b`; `Segment::path(".")` and a ".." literal add nothing |
| Client.BuildUrl | src/api/client.rs:444-478 | fails exactly on a base that cannot be a base; otherwise the base's segments less one trailing empty segment, followed by the pieces of the segments, dot pieces skipped |
| Client.FlattenAppend | src/api/client.rs:451-475 | the pieces of two lists of segments are those of the first followed by those of the second |
| Client.BuildUrlAppend | src/api/client.rs:444-478 | one more segment adds its pieces at the end of the URL path |
| Client.FlattenLiterals | src/api/client.rs:444-478 | literal segments appear verbatim, one path segment each and in order, except that "." and ".." are skipped |
| Client.PathPiecesClean | src/api/client.rs:444-478 | a path without leading, trailing or doubled slashes adds exactly its '/'-separated pieces, in order, less the "." and ".." pieces |
| Client.BuildUrlExample | src/api/client.rs:104 | `server_version` on `http://host/` requests `/api/` |
| Client.BuildUrlRootExample | src/api/client.rs:114-115 | the contents of the root on `http://host/lab/` are at `/lab/api/contents/` |
| Client.TokenHeader | src/api/client.rs:544-547 | the header is "token " followed by the token exactly when every character is allowed in a header value, and an invalid-header error otherwise |
| Client.Send | src/api/client.rs:433-442 | a response passes exactly when its status is a success; any other status is an API error carrying the body, or the empty text when the body cannot be read |
| Base64.Encode | src/services/fs.rs:73-89 | an encoding has a multiple of four characters and is empty exactly for empty input |
| Base64.EncodedLength | src/services/fs.rs:73-89 | every started group of three bytes takes four characters |
| Base64.DecodeEncode | src/services/fs.rs:73-89 | decoding inverts encoding for every byte sequence |
| Base64.EncodeDecode | src/services/fs.rs:506-518 | every string that decodes is the encoding of the bytes it decodes to |
| Base64.DecodeSucceedsIffEncoding | src/services/fs.rs:506-518 | decoding succeeds exactly on the encodings of byte sequences |
| Base64.DecodeExample | src/services/fs.rs:613-619 | "MTIz" decodes to the bytes of "123" |
| Utf8.EncodeChar | src/services/fs.rs:512 | one to four bytes; the lead byte announces the length; the rest are continuation bytes; one byte exactly for ASCII |
| Utf8.CharRoundTrip | src/services/fs.rs:512 | decoding the encoding of a scalar value gives it back |
| Utf8.Encode | src/services/fs.rs:512 | a string takes between one and four bytes per character |
| Utf8.AsciiEncoding | src/services/fs.rs:622-625 | an ASCII string encodes to its own code points, one byte each |
| Utf8.EncodeAppend | src/services/fs.rs:512 | the encoding of a concatenation is the concatenation of the encodings |
| FsService.FromContentType | src/services/fs.rs:397-404 | "file", "directory" and "notebook" each give their kind and nothing else does; any other string is kept as the other kind |
| FsService.ContentTypeRoundTrip | src/services/fs.rs:397-404 | the type string can be recovered from the kind |
| FsService.FromContentTypeInjective | src/services/fs.rs:397-404 | two type strings give the same kind only when they are equal |
| FsService.IsFileLike | src/services/fs.rs:406-412 | file-like is exactly not a directory |
| FsService.EntryFrom | src/services/fs.rs:430-457 | the entry carries the model's name, path, kind, permissions, times, size, mimetype and hash fields |
| FsService.EntryFromForgetsOnlyPayload | src/services/fs.rs:430-457 | two models give the same entry exactly when they differ at most in payload and format |
| FsService.EntryFromExample | src/services/fs.rs:604-610 | a "file" model keeps its size, mimetype and hash algorithm |
| FsService.Message | src/services/fs.rs:540-552 | each error's text is its prefix followed by the client error's display, path, reason or feature |
| FsService.MessageKeepsDetail | src/services/fs.rs:540-552 | two errors of one kind with the same text carry the same path, reason or feature |
| FsService.Entries | src/services/fs.rs:30-53 | a listing gives one entry per child, in the server's order |
| FsService.Ls | src/services/fs.rs:30-53 | one content-requesting read; a directory yields its children's entries, anything else its own entry; a failed reply, a text payload or a missing listing are the matching errors |
| FsService.Metadata | src/services/fs.rs:57-69 | one read without payload; the reply's entry, or the client error |
| FsService.ReadsOnly | src/services/fs.rs:30-69 | listing and metadata issue no save, rename or delete |
| FsService.UploadModel | src/services/fs.rs:73-89 | an upload's model is a base64 file with the given chunk index and no name or path |
| FsService.UploadModelCarriesData | src/services/fs.rs:73-89 | the server recovers exactly the uploaded bytes, and no other bytes encode to that content |
| FsService.SaveBody | src/services/fs.rs:73-89 | only saves and uploads carry a body, and an upload's body decodes to its bytes |
| FsService.UploadOnce | src/services/fs.rs:73-89 | one save of the data; the reply's entry or the client error |
| FsService.CheckUploaded | src/services/fs.rs:91-102 | fails exactly when the server reports a size other than the bytes sent |
| FsService.Upload | src/services/fs.rs:105-114 | one save; succeeds exactly when the reply reports no size or the data's length |
| FsService.ChunkAt | src/services/fs.rs:117-138 | a chunk starts at the offset, holds at most the chunk size, holds exactly that size unless it reaches the end, and is numbered -1 exactly when it is last |
| FsService.ZeroChunkSizeStalls | src/services/fs.rs:117-138 | with chunk size zero the loop never advances over non-empty data |
| FsService.ChunkPlan | src/services/fs.rs:117-138 | a plan is never empty and runs from the offset to the end of the data |
| FsService.PlanAt | src/services/fs.rs:117-138 | chunk i of a plan is contiguous with the next, full unless last, and numbered from the start index, the last marked -1 |
| FsService.PlanShape | src/services/fs.rs:117-138 | every chunk of a plan has that shape |
| FsService.EmptyDataPlan | src/services/fs.rs:117-138 | empty data is sent as one empty chunk marked last |
| FsService.PlanCoversData | src/services/fs.rs:117-138 | the slices of a plan, put back together, are the data: every byte is sent once, in order |
| FsService.PlanLength | src/services/fs.rs:117-138 | the number of chunks is the fewest chunks of the chunk size that hold the data |
| FsService.PlanRequests | src/services/fs.rs:117-138 | one upload request per chunk |
| FsService.PlanRequestAt | src/services/fs.rs:117-138 | request i of a plan uploads chunk i |
| FsService.SendChunksOutcome | src/services/fs.rs:117-138 | a run over a plan succeeds exactly when every chunk's reply is Ok and the last reports no size or the plan's end; the first failing reply ends it with that reply's client error, after the requests up to it; once all replies are Ok every request is sent and the result is the last reply's entry or the size check's error |
| FsService.UploadChunked | src/services/fs.rs:117-138 | the requests are a non-empty prefix of the plan from offset 0 and index 1; the upload succeeds exactly when every reply is Ok and the last reports no size or the data's length; it stops at the first failing reply with that reply's client error, or else gives the last reply's entry or the size check's error |
| FsService.SendChunksChecksEnd | src/services/fs.rs:117-138 | a successful run ends with the last chunk's reply, whose size if reported is where the plan ends |
| FsService.ChunkedUploadChecksTotal | src/services/fs.rs:117-138 | a successful chunked upload's result is the last reply, and its size if reported is the whole data's length |
| FsService.DecodeFileBytes | src/services/fs.rs:506-518 | a listing is refused; text in the "base64" format decodes exactly when its trimmed text is an encoding, to the bytes encoding to it; other text gives its UTF-8 bytes |
| FsService.DecodeFileBytesRoundTrip | src/services/fs.rs:506-518 | bytes sent as base64 are decoded back exactly |
| FsService.DecodeFileBytesBase64Example | src/services/fs.rs:613-619 | "MTIz" in base64 is "123" |
| FsService.DecodeFileBytesTextExample | src/services/fs.rs:622-625 | "hello" as text is its own bytes |
| FsService.TrimLeadingSlash | src/services/fs.rs:520-527 | the result is a suffix after a run of slashes, does not start with a slash, and is empty exactly for a path of slashes only |
| FsService.TrimLeadingSlashIdempotent | src/services/fs.rs:520-527 | trimming twice changes nothing more |
| FsService.DownloadUseContents | src/services/fs.rs:142-167 | one base64 read; a non-file, a missing payload and a decoding failure are refused, and otherwise the entry and the decoded bytes are returned |
| FsService.Download | src/services/fs.rs:170-200 | `/files` then metadata, or on a `/files` failure the contents endpoint; exactly two requests |
| FsService.PollRead | src/services/fs.rs:484-497 | reads as many remaining bytes as fit, in order, and advances past them |
| FsService.ReadToEnd | src/services/fs.rs:286-317 | reading until a read returns nothing yields every remaining byte |
| FsService.RangeFrom | src/services/fs.rs:208-241 | a range is requested exactly when the start is not zero, and it is open-ended |
| FsService.DownloadReaderFrom | src/services/fs.rs:208-241 | a ranged `/files` stream, or the contents payload without its first bytes; a start past the end is refused; the reader starts at zero |
| FsService.DownloadFromZero | src/services/fs.rs:203-241 | starting at zero requests no range and drops nothing on the fallback |
| FsService.RemoteHashsum | src/services/fs.rs:247-279 | one read with hash and without payload; a non-file is refused and a missing hash or algorithm is invalid |
| FsService.Sha256Sum | src/services/fs.rs:286-317 | the server's digest when its algorithm is "sha256" in any letter case; otherwise the digest of the whole file read locally, or "failed to read <path>: <reason>" when the `/files` stream breaks; a contents buffer cannot fail to read |
| FsService.Rm | src/services/fs.rs:321-329 | one delete; succeeds exactly when the server acknowledges it |
| FsService.Mkdir | src/services/fs.rs:333-343 | one save of a directory model with nothing else set |
| FsService.Rename | src/services/fs.rs:347-358 | one rename whose target has no leading slash |
| FsService.Rmdir | src/services/fs.rs:362-385 | a lookup, then a delete only for a directory that lists no children; a file or a non-empty directory is refused without a delete |
| FsService.RmdirDeletesOnlyEmptyDirectories | src/services/fs.rs:362-385 | a delete is issued only after a directory reply that lists no children, and a recursive call asks for no listing |
| LegacyFs.FromService | src/fs.rs:314-321 | the older error type holds every kind of the service's except "not implemented", with the same detail |
| LegacyFs.ErrorsCorrespond | src/fs.rs:314-350 | the two error types correspond one to one on the kinds they share |
| LegacyFs.Message | src/fs.rs:323-334 | as the service's text, except that a client failure reads "rest api error" |
| LegacyFs.Download | src/fs.rs:118-140 | one base64 read of the contents endpoint, with the same outcome rules as the service's fallback |
| LegacyFs.DownloadIsContentsFallback | src/fs.rs:118-140 | the older download never uses `/files` and fails exactly when the newer download's fallback would |
| LegacyFs.Sha256Sum | src/fs.rs:143-149 | always the digest of the downloaded bytes; the server's hash is never requested |
| Scp.FirstSplitColon | src/cli/scp.rs:164-179 | finds the first colon outside brackets at or after a position, or none |
| Scp.SplitRemoteSpec | src/cli/scp.rs:164-179 | splits exactly when a colon lies outside brackets, at the first such colon, and target, colon and fragment spell the operand |
| Scp.SplitRemoteSpecJoin | src/cli/scp.rs:164-179 | splitting inverts joining a target without an outside colon and with balanced brackets to a fragment |
| Scp.PlainTarget | src/cli/scp.rs:164-179 | a target without colons or brackets stays local |
| Scp.BracketedHostDoesNotSplit | src/cli/scp.rs:164-179 | the colons of a bracketed IPv6 host do not split; the colon after `]` does |
| Scp.StrayCloseBracketExample | src/cli/scp.rs:169 | a stray `]` leaves the depth at zero, so the colon after it splits |
| Scp.LastIndex | src/cli/scp.rs:185 | finds the last occurrence of a character, and none exactly when it is absent |
| Scp.SplitUserAndHost | src/cli/scp.rs:181-189 | empty gives neither; otherwise the host is what follows the last `@` (or the whole target) and user, `@` and host spell the target |
| Scp.TrimIpv6Brackets | src/cli/scp.rs:191-195 | the result neither starts with `[` nor ends with `]` |
| Scp.TrimIpv6BracketsInfix | src/cli/scp.rs:191-195 | only a leading run of `[` and a trailing run of `]` are removed |
| Scp.TrimIpv6BracketsIdempotent | src/cli/scp.rs:191-195 | trimming twice is trimming once |
| Scp.HostOf | src/cli/scp.rs:145-146 | the host is absent exactly for an empty target or one ending in `@`; otherwise it holds no `@` and no outer brackets |
| Scp.HostPartEmpty | src/cli/scp.rs:181-189 | the host part is empty exactly when the target ends in `@` |
| Scp.TrimKeepsAbsent | src/cli/scp.rs:191-195 | trimming brackets adds no character |
| Scp.HostAfterLastAt | src/cli/scp.rs:145-146 | the host of `user@host` is the host with its brackets trimmed |
| Scp.BracketOnlyHostIsEmpty | src/cli/scp.rs:146 | the empty-host filter runs before trimming, so a target of brackets only keeps an empty host |
| Scp.BracketPairTrimsAway | src/cli/scp.rs:191-195 | `[]` trims to the empty host |
| Scp.Resolve | src/cli/scp.rs:517-533 | applying slash-free pieces to normal components leaves normal components only |
| Scp.Components | src/cli/scp.rs:517-533 | a normalised path holds only non-empty components other than "." and ".." |
| Scp.NormalizeRemotePath | src/cli/scp.rs:517-533 | the result is rooted, and is the root alone exactly when no component survives |
| Scp.RenderCanonical | src/cli/scp.rs:517-533 | a rooted path of normal components normalises to itself and reads back as those components |
| Scp.RelativeCanonical | src/cli/scp.rs:517-533 | a relative path of normal components normalises to the same components under the root |
| Scp.NormalizeIdempotent | src/cli/scp.rs:517-533 | normalising twice is normalising once, and keeps the components |
| Scp.ParentOfRootIsRoot | src/cli/scp.rs:517-533 | a leading ".." is a no-op: nothing lies above the root |
| Scp.ResolveConcat | src/cli/scp.rs:517-533 | resolving two lists of pieces is resolving one after the other |
| Scp.ComponentsConcat | src/cli/scp.rs:517-533 | the components of `p/q` are those of `q` resolved on top of those of `p` |
| Scp.NormalizeEmpty | src/cli/scp.rs:517-533 | the empty path is the root |
| Scp.DotPieceVanishes | src/cli/scp.rs:517-533 | a "." piece changes nothing |
| Scp.EmptyPieceVanishes | src/cli/scp.rs:517-533 | a doubled '/' changes nothing |
| Scp.NameThenParentCancels | src/cli/scp.rs:517-533 | a name followed by ".." cancels out |
| Scp.JoinRemotePaths | src/cli/scp.rs:508-515 | the child without its surrounding slashes becomes the last segment, after exactly one '/'; the base keeps everything but its trailing slashes |
| Scp.RenderAppend | src/cli/scp.rs:508-515 | joining a plain name onto a rendered path renders one more component |
| Scp.JoinKeepsNormalForm | src/cli/scp.rs:508-533 | joining a plain name onto a normalised path appends one component and stays normalised |
| Scp.NamedPieces | src/cli/scp.rs:108-114 | the names a path keeps are non-empty and never "." |
| Scp.FileName | src/cli/scp.rs:108-114 | a file name, when there is one, is a normal component |
| Scp.NamedPiecesConcat | src/cli/scp.rs:108-114 | the names of two lists of pieces are the names of each, in order |
| Scp.TrailingSlashKeepsFileName | src/cli/scp.rs:108-114 | a trailing '/' does not change the file name |
| Scp.FileNameOfChild | src/cli/scp.rs:108-114 | the file name of `dir/name` is `name` |
| Scp.ParentRefHasNoFileName | src/cli/scp.rs:108-114 | a path ending in ".." has no file name |
| Scp.RootHasNoFileName | src/cli/scp.rs:108-114 | the root has no file name |
| Scp.Basename | src/cli/scp.rs:108-114 | succeeds exactly when the path has a file name, which is a plain name, and names the operand otherwise |
| Scp.ParseOperand | src/cli/scp.rs:143-162 | remote exactly when a colon lies outside brackets; the first such colon gives the host and the normalised path, and a directory marker for an empty or slash-ended fragment; a local operand is a directory by a trailing '/' |
| Scp.ParsedHostHasNoAt | src/cli/scp.rs:251-269 | no parsed host holds an `@`, so the `@remote` alias never matches |
| Scp.ParseAll | src/cli/scp.rs:131-141 | every value is parsed, in order |
| Scp.ParseOperands | src/cli/scp.rs:131-141 | fails exactly for fewer than two values; otherwise the last is the destination and the others are the sources, in order |
| Scp.FirstOfSide | src/cli/scp.rs:197-249 | finds the first operand on the given side, or none exactly when there is none |
| Scp.LocalsOf | src/cli/scp.rs:197-249 | the local operands of an all-local list, in order |
| Scp.RemotesOf | src/cli/scp.rs:197-249 | the remote operands of an all-remote list, in order |
| Scp.DetermineTransferPlan | src/cli/scp.rs:197-249 | no sources is an error; a remote destination gives an upload exactly when every source is local, a local one a download exactly when every source is remote, and otherwise the first source on the wrong side is named |
| Scp.PlanKeepsSources | src/cli/scp.rs:73-98 | a plan carries every source |
| Scp.HostWarning | src/cli/scp.rs:251-269 | warns only when both hosts are known, the operand's is not an alias and the two differ beyond ASCII case |
| Scp.FetchRemoteEntry | src/cli/scp.rs:500-506 | one metadata lookup; a 404 reply means absent, any other failure is passed on |
| Scp.EnsureRemoteDirectory | src/cli/scp.rs:480-498 | the root needs nothing; an existing directory is accepted and any other entry refused; only a missing path is created |
| Scp.UploadDestinationIsDir | src/cli/scp.rs:281-299 | an existing entry is a directory exactly when it is one; a missing one when marked or given several sources; a non-directory is refused when marked or given several sources |
| Scp.PrepareUpload | src/cli/scp.rs:271-299 | no sources is an error; otherwise the destination is looked up first, and several sources always give a directory; a missing destination meant as a directory is then created, its failure being the result, and a missing file destination sends nothing more |
| Scp.UploadTarget | src/cli/scp.rs:305-310 | a file destination is the target itself; a directory destination gets the source's file name joined on, and a source without one is refused |
| Scp.UploadTargetIsChild | src/cli/scp.rs:305-310 | a directory target is the normalised destination with one more component |
| Scp.UploadStep | src/cli/scp.rs:312-321 | unreadable metadata stops; a file is sent; a directory only with recursion; anything else is refused |
| Scp.DownloadDestination | src/cli/scp.rs:337-361 | no sources is an error; unreadable metadata stops; a non-directory is refused when marked or given several sources; a missing destination is created as a directory exactly when marked or given several sources |
| Scp.DownloadStep | src/cli/scp.rs:363-375 | a missing remote path is refused; a directory needs recursion; the local target is the destination, with the entry's name inside it when the destination is a directory |
| Ftp.MapClientError | src/ftp.rs:295-306 | 404 is a missing file, 401 and 403 a refusal, 409 a non-empty directory, anything else a local error; each both ways |
| Ftp.MapFsError | src/ftp.rs:283-293 | client failures by status, a non-directory as an unavailable directory, a non-file as an unavailable file, a missing feature as an unimplemented command, payload problems as local errors |
| Ftp.Len | src/ftp.rs:196-198 | the reported size, zero when unknown |
| Ftp.IsFile | src/ftp.rs:200-206 | a file exactly when not a directory |
| Ftp.IsSymlink | src/ftp.rs:208-210 | never a link |
| Ftp.Modified | src/ftp.rs:212-220 | the last modification, else the creation, else a local error |
| Ftp.Owner | src/ftp.rs:222-228 | user and group zero |
| Ftp.Permissions | src/ftp.rs:230-233 | 0o755 for a writable entry, 0o555 otherwise |
| Ftp.PermissionsBits | src/ftp.rs:230-233 | everyone reads and traverses; only the owner writes, and only a writable entry |
| Ftp.MetadataExample | src/ftp.rs:323-349 | the unit test's writable directory and read-only file |
| Ftp.AbsoluteEntryPath | src/ftp.rs:243-258 | always rooted; empty is the root; a rooted path is kept |
| Ftp.RelativeEntryPathPieces | src/ftp.rs:243-258 | a relative path becomes the root followed by its non-empty pieces, in order |
| Ftp.EntryToFileInfo | src/ftp.rs:236-241 | the metadata is the entry and the path is rooted |
| Ftp.FileInfos | src/ftp.rs:61-73 | one file info per entry, in order |
| Ftp.PathComponents | src/ftp.rs:260-281 | a root or a current directory only comes first, and names are normal components |
| Ftp.NormalizeRequestPath | src/ftp.rs:260-281 | the result is rooted |
| Ftp.WalkPieces | src/ftp.rs:260-281 | walking the components of some pieces is resolving the pieces |
| Ftp.NormalizeRequestMatchesRemote | src/ftp.rs:260-281 | the FTP backend and the copy tool normalise every path identically |
| Ftp.NormalizeRootExamples | src/ftp.rs:313-321 | the empty path and the root normalise to the root |
| Ftp.TwoNamesRooted | src/ftp.rs:313-321 | a relative path of two names is rooted as it is |
| Ftp.DotBetweenNames | src/ftp.rs:313-321 | a "." piece between names vanishes |
| Ftp.ParentCancelsName | src/ftp.rs:313-321 | a ".." piece cancels the name before it |
| Ftp.ParentsAboveRootVanish | src/ftp.rs:260-281 | ".." pieces above the root vanish |
| Ftp.Lift | src/ftp.rs:283-293 | an outcome keeps its requests and value, and its error goes through the error mapping |
| Ftp.Metadata | src/ftp.rs:50-59 | one payload-free lookup of the normalised path |
| Ftp.List | src/ftp.rs:61-73 | the listing of the normalised path, each entry rooted, failures mapped |
| Ftp.Get | src/ftp.rs:75-89 | a reader from the start offset through the ranged download of the normalised path |
| Ftp.Put | src/ftp.rs:91-116 | a non-zero offset is unimplemented; an unreadable input is a local error; otherwise one save of the whole input, answering its length |
| Ftp.Del | src/ftp.rs:118-126 | one delete of the normalised path |
| Ftp.Mkd | src/ftp.rs:128-137 | one directory save of the normalised path |
| Ftp.Rename | src/ftp.rs:139-150 | both paths normalised; the target sent without its leading slash |
| Ftp.Rmd | src/ftp.rs:152-160 | a non-recursive directory removal of the normalised path |
| Ftp.RmdRemovesOnlyEmptyDirectories | src/ftp.rs:152-160 | a delete only after an empty directory's listing; a file is an unavailable directory and a non-empty directory a local error |
| Ftp.Cwd | src/ftp.rs:162-175 | succeeds exactly on a directory; anything else is an unavailable directory |
| Ftp.CwdAgreesWithIsDir | src/ftp.rs:162-175 | a change of directory succeeds exactly when the metadata says directory |
| CliConfig.NormalizePath | src/cli/mod.rs:106-118 | exactly one slash on each side of the trimmed path; the root exactly for a path of slashes only |
| CliConfig.NormalizePathIdempotent | src/cli/mod.rs:106-118 | normalising twice is normalising once |
| CliConfig.RouteIndex | src/cli/mod.rs:89-95 | the position of the first front-end route among the pieces, or their number when there is none |
| CliConfig.KeptSegments | src/cli/mod.rs:87-104 | the kept segments are the pieces before the first front-end route, in order, with the empty ones skipped; all are kept when none is dropped |
| CliConfig.KeptSegmentsCut | src/cli/mod.rs:87-122 | a front-end route cuts off everything after it |
| CliConfig.SanitizeBasePath | src/cli/mod.rs:87-104 | the result has slashes at both ends and is the root exactly when no segment is kept |
| CliConfig.SanitizeCutsAtRoute | src/cli/mod.rs:87-122 | a notebook URL's base path is its segments before the front-end route, between slashes |
| CliConfig.SanitizeWithoutRoute | src/cli/mod.rs:87-104 | a path without routes keeps all its segments |
| CliConfig.DeriveBaseUrl | src/cli/mod.rs:35-46 | the query is dropped; the path is the supplied base path normalised, or the URL's own path sanitised |
| CliConfig.DeriveBaseUrlStable | src/cli/mod.rs:35-46 | deriving again with the derived path changes nothing |
| CliConfig.FirstTokenValue | src/cli/mod.rs:77-85 | the value of the first pair named "token", none exactly when no pair has that name |
| CliConfig.NonBlank | src/cli/mod.rs:77-85 | a blank value is absent; otherwise it is trimmed and usable |
| CliConfig.ExtractTokenFromUrl | src/cli/mod.rs:77-85 | the first "token" value, trimmed; blank or missing gives none |
| CliConfig.BlankFirstTokenHidesLater | src/cli/mod.rs:77-85 | a blank first token hides every later one |
| CliConfig.ResolveToken | src/cli/mod.rs:48-74 | the token file wins, then a non-blank option, then the URL; an unreadable or blank file is an error |
| CliConfig.TokenFileWins | src/cli/mod.rs:48-74 | with a token file, neither the option nor the URL matters |
| CliConfig.OptionBeatsUrl | src/cli/mod.rs:48-74 | a usable option hides the URL's token |
| State.MapInsert | src/state.rs:31-35 | the key takes the value and keeps its place, or goes last; other keys are untouched; the previous value is returned |
| State.InsertAll | src/state.rs:37-44 | each key holds its last value among the pairs, else its previous value |
| State.LastValue | src/state.rs:37-44 | the value of the last pair with the key, none exactly when no pair has it |
| State.Empty | src/state.rs:15-19 | nothing cached, never updated |
| State.Get | src/state.rs:46-52 | a value exactly for a cached key |
| State.Clear | src/state.rs:26-29 | nothing left, stamped with the current time |
| State.Insert | src/state.rs:31-35 | returns the previous value, the key holds the new one, other keys are untouched, the time is stamped |
| State.Update | src/state.rs:37-44 | the cache becomes the pairs, the last pair of a key winning, and exactly the listed keys are present |
| State.UpdateForgetsPrevious | src/state.rs:37-44 | what an update leaves does not depend on what was cached before |
| State.InsertKeepsOrder | src/state.rs:31-35 | a new key goes last; a present key keeps its place |
| State.InsertGetExample | src/state.rs:112-118 | nothing under a key of an empty cache, then the inserted value |
| State.SessionKey | src/state.rs:72-79 | a session's key is its id, else its kernel's id |
| State.KeyedSessions | src/state.rs:72-79 | exactly the sessions that have a key, each under it |
| State.KeyedKernels | src/state.rs:81-85 | every kernel under its id, in order |
| State.KeyedTerminals | src/state.rs:87-91 | every terminal under its name, in order |
| State.UpdateSessions | src/state.rs:72-79 | a listing replaces only the sessions cache; a failure changes nothing and is passed on |
| State.SessionKeying | src/state.rs:72-79 | a cached session is a listed one under its own key |
| State.UpdateKernels | src/state.rs:81-85 | a listing replaces only the kernels cache; a failure changes nothing and is passed on |
| State.UpdateTerminals | src/state.rs:87-91 | a listing replaces only the terminals cache; a failure changes nothing and is passed on |
| State.KernelsCachedById | src/state.rs:81-85 | every listed kernel is cached, and each cached kernel is a listed one under its own id |
| State.RefreshAll | src/state.rs:93-103 | each successful listing replaces its cache; the result fails exactly when a listing fails, reporting the first of kernels, sessions, terminals |

## Left out

- The HTTP transport (`reqwest`), the API wrappers of src/api/jupyter.rs, the
  `ssh` subcommand and terminals, the FTP command of src/cli/ftp.rs,
  src/main.rs and the `clap` argument parsing. They are I/O, or plumbing
  around the modelled logic.
- Local file-system effects of `scp`. These are `upload_directory`,
  `upload_file`, `download_entry` and `download_file` (src/cli/scp.rs:380-478),
  and the walk of directory trees. The model stops at the per-source decision
  (`Scp.UploadStep`, `Scp.DownloadStep`). Local metadata is a parameter
  (`LocalStat`), and a failure of `create_dir_all` is not modelled.
- `run` and the plan's label (src/cli/scp.rs:42-98). They are logging and
  dispatch.
- SHA-256 itself. `FsService.Sha256Sum` returns the server's hex digest or the
  bytes whose digest the client computes.
- Timestamps. They are `chrono` values, and only their presence matters to the
  model.
- The status reason phrase of `http::StatusCode`. `Client.StatusText` shows
  only the number.
- The base 64 decoder's own error message. `FsService.Message` keeps the
  `Decode` variant but not the crate's text after the colon.
- Error wording of `scp`. Its errors are `anyhow` messages, and they are
  modelled by variant, naming the operand involved.
- Windows path prefixes in `Path::components`. Only Unix paths are modelled.
- The payload of FTP errors. Only the error kind is kept.
- The read error of the FTP upload stream. It is an `Option` input of
  `Ftp.Put`.
- URL parsing, percent-decoding of the query, and the encoding applied by
  `Url::set_path`. A URL enters as its origin, path and decoded query pairs.
- Client.BuildUrl: URL path segments are modelled before percent-encoding.
  `PathSegmentsMut::push` also encodes characters such as `%` and `/`, and the
  model leaves that encoding out.
- Token logging, the locks and atomics of `Cached`, and the client handle held
  by `State`. Each operation is one step on an immutable value. The clock is a
  parameter.
- FsService.DownloadReaderFrom: the conversion of the start offset to `usize`
  cannot fail on unbounded integers, so its overflow branch is not modelled.
  A `/files` reader is modelled by the complete body the server sends. A
  transport failure part-way through the stream reaches whoever reads it, and
  only `FsService.Sha256Sum` models it, through its `streamError` input.
- FsService.UploadChunked: a chunk size of zero is accepted only for empty
  data, because on non-empty data the source's loop never ends. This is stated
  by `FsService.ZeroChunkSizeStalls`.
- Some unit tests' literal inputs are replaced by lemmas over all inputs of
  their shape, for example `Ftp.TwoNamesRooted`, `Ftp.DotBetweenNames` and
  `Scp.BracketOnlyHostIsEmpty`.
