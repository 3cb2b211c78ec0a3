/** Request parameters of the contents API: the lowercase names of the format
    and type enumerations, the optional-flag codec that sends `Option<bool>` as
    the integers 1 and 0, and the query string of `GET /api/contents/{path}`,
    which leaves out every absent field. */
module Params {

  import opened Wrappers
  import Text

  datatype ContentsFormat = Json | Text | Base64

  datatype ContentsTypeQuery = File | Directory

  datatype ContentsEntryType = Directory | File | Notebook

  // ---------------------------------------------------------------------------
  // Lowercase variant names (serde `rename_all = "lowercase"`)

  function FormatName(f: ContentsFormat): string {
    match f
    case Json => "json"
    case Text => "text"
    case Base64 => "base64"
  }

  function ParseFormat(s: string): (r: Option<ContentsFormat>)
    ensures r.Some? ==> FormatName(r.value) == s
  {
    if s == "json" then Some(ContentsFormat.Json)
    else if s == "text" then Some(ContentsFormat.Text)
    else if s == "base64" then Some(ContentsFormat.Base64)
    else None
  }

  function TypeQueryName(t: ContentsTypeQuery): string {
    match t
    case File => "file"
    case Directory => "directory"
  }

  function ParseTypeQuery(s: string): (r: Option<ContentsTypeQuery>)
    ensures r.Some? ==> TypeQueryName(r.value) == s
  {
    if s == "file" then Some(ContentsTypeQuery.File)
    else if s == "directory" then Some(ContentsTypeQuery.Directory)
    else None
  }

  function EntryTypeName(t: ContentsEntryType): string {
    match t
    case Directory => "directory"
    case File => "file"
    case Notebook => "notebook"
  }

  function ParseEntryType(s: string): (r: Option<ContentsEntryType>)
    ensures r.Some? ==> EntryTypeName(r.value) == s
  {
    if s == "directory" then Some(ContentsEntryType.Directory)
    else if s == "file" then Some(ContentsEntryType.File)
    else if s == "notebook" then Some(ContentsEntryType.Notebook)
    else None
  }

  /** Each enumeration is read back from exactly the names it is written as. */
  lemma NamesRoundTrip(f: ContentsFormat, t: ContentsTypeQuery, e: ContentsEntryType, s: string)
    ensures ParseFormat(s) == Some(f) <==> FormatName(f) == s
    ensures ParseTypeQuery(s) == Some(t) <==> TypeQueryName(t) == s
    ensures ParseEntryType(s) == Some(e) <==> EntryTypeName(e) == s
  {
  }

  /** Every name is the lowercase spelling of its variant. */
  lemma NamesAreLowercase(f: ContentsFormat, t: ContentsTypeQuery, e: ContentsEntryType)
    ensures forall i :: 0 <= i < |FormatName(f)| ==> Text.IsLowerAsciiOrDigit(FormatName(f)[i])
    ensures forall i :: 0 <= i < |TypeQueryName(t)| ==> Text.IsLowerAsciiOrDigit(TypeQueryName(t)[i])
    ensures forall i :: 0 <= i < |EntryTypeName(e)| ==> Text.IsLowerAsciiOrDigit(EntryTypeName(e)[i])
  {
  }

  // ---------------------------------------------------------------------------
  // `opt_bool_as_int`

  /** An unsigned 8-bit integer, the wire type of the flag. */
  type U8 = n: int | 0 <= n < 256

  /** Serialises a flag: absent stays absent, true is 1 and false is 0. */
  function SerializeFlag(x: Option<bool>): (r: Option<U8>)
    ensures r.None? <==> x.None?
    ensures r.Some? ==> (r.value == 1 <==> x.value) && (r.value == 0 <==> !x.value)
  {
    match x
    case None => None
    case Some(flag) => Some(if flag then 1 else 0)
  }

  /** The reason a flag could not be read: the number does not fit in `u8`. */
  datatype FlagError = OutOfRange(n: int)

  /** Deserialises a flag from an optional number: absent stays absent, zero is
      false, any other value of `u8` is true. */
  function DeserializeFlag(raw: Option<int>): (r: Result<Option<bool>, FlagError>)
    ensures r.Err? <==> raw.Some? && !(0 <= raw.value < 256)
    ensures r.Ok? ==> (r.value.None? <==> raw.None?)
    ensures r.Ok? && raw.Some? ==> (r.value.value <==> raw.value != 0)
  {
    match raw
    case None => Ok(None)
    case Some(n) => if 0 <= n < 256 then Ok(Some(n != 0)) else Err(OutOfRange(n))
  }

  /** Reading back a serialised flag gives the flag. */
  lemma FlagRoundTrip(x: Option<bool>)
    ensures DeserializeFlag(match SerializeFlag(x) case None => None case Some(n) => Some(n)) == Ok(x)
  {
  }

  /** Reading then writing a number normalises it to 0 or 1. */
  lemma FlagNormalises(n: U8)
    ensures SerializeFlag(DeserializeFlag(Some(n)).value) == Some(if n == 0 then 0 else 1)
  {
  }

  // ---------------------------------------------------------------------------
  // Query of `GET /api/contents/{path}`

  datatype GetParams = GetParams(
    entryType: Option<ContentsTypeQuery>,
    format: Option<ContentsFormat>,
    content: Option<bool>,
    hash: Option<bool>)

  /** `ContentsGetParams::default()`: every field absent. */
  const DefaultGetParams := GetParams(None, None, None, None)

  function FlagText(n: U8): string {
    Text.Decimal(n)
  }

  /** The query pairs in field order; absent fields are skipped, flags are sent
      as their integer. */
  function Query(p: GetParams): (q: seq<(string, string)>)
    ensures |q| == (if p.entryType.Some? then 1 else 0) + (if p.format.Some? then 1 else 0)
                   + (if p.content.Some? then 1 else 0) + (if p.hash.Some? then 1 else 0)
    ensures p.entryType.Some? ==> ("type", TypeQueryName(p.entryType.value)) in q
    ensures p.format.Some? ==> ("format", FormatName(p.format.value)) in q
    ensures p.content.Some? ==> ("content", if p.content.value then "1" else "0") in q
    ensures p.hash.Some? ==> ("hash", if p.hash.value then "1" else "0") in q
  {
    assert FlagText(0) == "0" && FlagText(1) == "1";
    (match p.entryType case Some(t) => [("type", TypeQueryName(t))] case None => [])
    + (match p.format case Some(f) => [("format", FormatName(f))] case None => [])
    + (match SerializeFlag(p.content) case Some(n) => [("content", FlagText(n))] case None => [])
    + (match SerializeFlag(p.hash) case Some(n) => [("hash", FlagText(n))] case None => [])
  }

  /** A key appears in the query exactly when its field is present. */
  lemma QueryKeys(p: GetParams)
    ensures (exists i :: 0 <= i < |Query(p)| && Query(p)[i].0 == "type") <==> p.entryType.Some?
    ensures (exists i :: 0 <= i < |Query(p)| && Query(p)[i].0 == "format") <==> p.format.Some?
    ensures (exists i :: 0 <= i < |Query(p)| && Query(p)[i].0 == "content") <==> p.content.Some?
    ensures (exists i :: 0 <= i < |Query(p)| && Query(p)[i].0 == "hash") <==> p.hash.Some?
  {
    var q := Query(p);
    var a := match p.entryType case Some(t) => [("type", TypeQueryName(t))] case None => [];
    var b := match p.format case Some(f) => [("format", FormatName(f))] case None => [];
    var c := match SerializeFlag(p.content) case Some(n) => [("content", FlagText(n))] case None => [];
    var d := match SerializeFlag(p.hash) case Some(n) => [("hash", FlagText(n))] case None => [];
    assert q == a + b + c + d;
    KeysOfParts(a, b, c, d);
  }

  /** The keys of four at-most-one-pair parts, one key per part. */
  lemma KeysOfParts(a: seq<(string, string)>, b: seq<(string, string)>, c: seq<(string, string)>, d: seq<(string, string)>)
    requires |a| <= 1 && |b| <= 1 && |c| <= 1 && |d| <= 1
    requires (|a| == 1 ==> a[0].0 == "type") && (|b| == 1 ==> b[0].0 == "format")
    requires (|c| == 1 ==> c[0].0 == "content") && (|d| == 1 ==> d[0].0 == "hash")
    ensures var q := a + b + c + d;
      && ((exists i :: 0 <= i < |q| && q[i].0 == "type") <==> |a| == 1)
      && ((exists i :: 0 <= i < |q| && q[i].0 == "format") <==> |b| == 1)
      && ((exists i :: 0 <= i < |q| && q[i].0 == "content") <==> |c| == 1)
      && ((exists i :: 0 <= i < |q| && q[i].0 == "hash") <==> |d| == 1)
  {
    var q := a + b + c + d;
    if |a| == 1 { assert q[0] == a[0]; }
    if |b| == 1 { assert q[|a|] == b[0]; }
    if |c| == 1 { assert q[|a| + |b|] == c[0]; }
    if |d| == 1 { assert q[|a| + |b| + |c|] == d[0]; }
  }

  /** The example of the unit test: type=file, format=text, content=1, hash=0. */
  lemma QueryExample()
    ensures Query(GetParams(Some(ContentsTypeQuery.File), Some(ContentsFormat.Text), Some(true), Some(false)))
            == [("type", "file"), ("format", "text"), ("content", "1"), ("hash", "0")]
  {
  }

  // ---------------------------------------------------------------------------
  // Body of `PUT /api/contents/{path}`

  /** `SaveContentsModel`, with the `chunk` index the upload path sets. */
  datatype SaveModel = SaveModel(
    name: Option<string>,
    path: Option<string>,
    entryType: Option<ContentsEntryType>,
    format: Option<ContentsFormat>,
    content: Option<string>,
    chunk: Option<int>)

  const DefaultSaveModel := SaveModel(None, None, None, None, None, None)
}
