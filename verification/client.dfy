/** The REST client's pure parts: its error type and how it is displayed, the
    URL path built from a base URL and a list of segments, the `Authorization`
    header value made from a token, and the classification of a response status. */
module Client {

  import opened Wrappers
  import Text

  /** An HTTP status code (`http::StatusCode` holds 100 to 999). */
  type StatusCode = n: int | 100 <= n < 1000 witness 200

  /** `RestError`; the transport error of `reqwest` is kept as its message. */
  datatype RestError =
    | InvalidBaseUrl(msg: string)
    | Http(msg: string)
    | Api(status: StatusCode, message: string)
    | InvalidHeader(msg: string)

  /** The number a status is displayed with; its three digits always come first. */
  function StatusText(s: StatusCode): (r: string)
    ensures |r| == 3
    ensures forall i :: 0 <= i < |r| ==> Text.IsDigit(r[i])
  {
    var d := Text.Decimal(s);
    assert |Text.Decimal(s / 10)| == 2 by { assert |Text.Decimal(s / 100)| == 1; }
    d
  }

  /** `impl Display for RestError`. */
  function Display(e: RestError): (r: string)
    ensures e.Api? && e.message == [] ==> r == "api error: " + StatusText(e.status)
    ensures e.Api? && e.message != [] ==> r == "api error: " + StatusText(e.status) + " - " + e.message
    ensures e.InvalidBaseUrl? ==> r == "invalid base url: " + e.msg
    ensures e.Http? ==> r == "http error: " + e.msg
    ensures e.InvalidHeader? ==> r == "invalid auth header: " + e.msg
  {
    match e
    case InvalidBaseUrl(msg) => "invalid base url: " + msg
    case Http(msg) => "http error: " + msg
    case Api(status, message) =>
      if |message| == 0 then "api error: " + StatusText(status)
      else "api error: " + StatusText(status) + " - " + message
    case InvalidHeader(msg) => "invalid auth header: " + msg
  }

  /** The text of an API error determines its status and its message. */
  lemma {:induction false} ApiDisplayInjective(s1: StatusCode, m1: string, s2: StatusCode, m2: string)
    requires Display(Api(s1, m1)) == Display(Api(s2, m2))
    ensures s1 == s2 && m1 == m2
  {
    var d1, d2 := Display(Api(s1, m1)), Display(Api(s2, m2));
    var p1, p2 := "api error: " + StatusText(s1), "api error: " + StatusText(s2);
    assert d1[..14] == p1 && d2[..14] == p2;
    assert p1[11..] == StatusText(s1) && p2[11..] == StatusText(s2);
    StatusTextInjective(s1, s2);
    if m1 != [] && m2 != [] {
      assert d1[17..] == m1 && d2[17..] == m2;
    }
  }

  lemma StatusTextInjective(s1: StatusCode, s2: StatusCode)
    requires StatusText(s1) == StatusText(s2)
    ensures s1 == s2
  {
    Text.DecimalRoundTrip(s1);
    Text.DecimalRoundTrip(s2);
  }

  // ---------------------------------------------------------------------------
  // URL building

  /** A base URL as far as `build_url` sees it: whether it can be a base and
      its path segments (`"http://h/"` has the single empty segment). */
  datatype BaseUrl = BaseUrl(cannotBeABase: bool, segments: seq<string>)

  datatype Segment =
    | Literal(value: string)
    | Path(value: string, keepTrailingSlashIfEmpty: bool)

  /** `Segment::path`: a path whose emptiness adds nothing. */
  function PathSegment(value: string): (s: Segment)
    ensures s.Path? && s.value == value && !s.keepTrailingSlashIfEmpty
  {
    Path(value, false)
  }

  /** `Segment::path_allow_empty`: a path that yields a trailing slash when empty. */
  function PathAllowEmpty(value: string): (s: Segment)
    ensures s.Path? && s.value == value && s.keepTrailingSlashIfEmpty
  {
    Path(value, true)
  }

  /** `PathSegmentsMut::pop_if_empty`: drops one trailing empty segment. */
  function PopIfEmpty(p: seq<string>): (r: seq<string>)
    ensures |p| > 0 && p[|p| - 1] == [] ==> r == p[..|p| - 1]
    ensures !(|p| > 0 && p[|p| - 1] == []) ==> r == p
  {
    if |p| > 0 && p[|p| - 1] == [] then p[..|p| - 1] else p
  }

  /** Concatenation of a list of strings. */
  function Concat(parts: seq<string>): string
    decreases |parts|
  {
    if |parts| == 0 then [] else parts[0] + Concat(parts[1..])
  }

  /** The string without any occurrence of `c`. */
  function Remove(s: string, c: char): (r: string)
    ensures c !in r
    decreases |s|
  {
    if |s| == 0 then []
    else if s[0] == c then Remove(s[1..], c)
    else [s[0]] + Remove(s[1..], c)
  }

  /** The non-empty strings of `parts`, in order. */
  function DropEmpty(parts: seq<string>): (r: seq<string>)
    ensures forall i :: 0 <= i < |r| ==> r[i] != [] && r[i] in parts
    ensures Concat(r) == Concat(parts)
    ensures (forall i :: 0 <= i < |parts| ==> parts[i] != []) ==> r == parts
    decreases |parts|
  {
    if |parts| == 0 then []
    else if parts[0] == [] then DropEmpty(parts[1..])
    else [parts[0]] + DropEmpty(parts[1..])
  }

  lemma {:induction false} ConcatSplit(s: string, sep: char)
    ensures Concat(Text.Split(s, sep)) == Remove(s, sep)
    decreases |s|
  {
    if |s| > 0 {
      ConcatSplit(s[1..], sep);
      var rest := Text.Split(s[1..], sep);
      if s[0] == sep {
        assert ([[]] + rest)[1..] == rest;
      } else {
        var parts := [[s[0]] + rest[0]] + rest[1..];
        assert parts[1..] == rest[1..];
        assert Concat(rest) == rest[0] + Concat(rest[1..]);
      }
    }
  }

  /** The pieces the loop of `build_url` hands to `push` for one `Segment`. */
  function Pushed(seg: Segment): (r: seq<string>)
    ensures seg.Literal? ==> r == [seg.value]
    ensures seg.Path? ==> forall i :: 0 <= i < |r| ==> '/' !in r[i]
    ensures seg.Path? ==> Concat(r) == Remove(seg.value, '/')
    ensures seg.Path? ==> (r == [[]] <==> seg.keepTrailingSlashIfEmpty && Remove(seg.value, '/') == [])
    ensures seg.Path? && r != [[]] ==> forall i :: 0 <= i < |r| ==> r[i] != []
  {
    match seg
    case Literal(v) => [v]
    case Path(v, keep) =>
      var t := Text.Trim(v, '/');
      TrimRemove(v);
      if t == [] then (if keep then [[]] else [])
      else
        var pieces := DropEmpty(Text.Split(t, '/'));
        ConcatSplit(t, '/');
        assert Concat(pieces) != [] by {
          RemoveNonEmpty(t, '/');
        }
        pieces
  }

  /** `PathSegmentsMut::push` skips a segment that is exactly "." or "..". */
  predicate IsDotPiece(p: string) {
    p == "." || p == ".."
  }

  /** The segments `push` keeps, in their order. */
  function DropDots(parts: seq<string>): (r: seq<string>)
    ensures forall i :: 0 <= i < |r| ==> !IsDotPiece(r[i]) && r[i] in parts
    ensures forall p :: p in parts && !IsDotPiece(p) ==> p in r
    ensures (forall i :: 0 <= i < |parts| ==> !IsDotPiece(parts[i])) ==> r == parts
    decreases |parts|
  {
    if |parts| == 0 then []
    else (if IsDotPiece(parts[0]) then [] else [parts[0]]) + DropDots(parts[1..])
  }

  /** Dropping dot pieces goes piece by piece, so it keeps the order. */
  lemma {:induction false} DropDotsAppend(a: seq<string>, b: seq<string>)
    ensures DropDots(a + b) == DropDots(a) + DropDots(b)
    decreases |a|
  {
    if |a| > 0 {
      var h: seq<string> := if IsDotPiece(a[0]) then [] else [a[0]];
      assert (a + b)[0] == a[0];
      assert (a + b)[1..] == a[1..] + b;
      DropDotsAppend(a[1..], b);
      assert DropDots(a + b) == h + DropDots(a[1..] + b);
      assert DropDots(a) == h + DropDots(a[1..]);
      Regroup(h, DropDots(a[1..]), DropDots(b));
    } else {
      assert a + b == b;
    }
  }

  /** The path segments one `Segment` appends to the URL: the pieces handed to
      `push`, less those it skips. */
  function Pieces(seg: Segment): (r: seq<string>)
    ensures seg.Literal? ==> r == if IsDotPiece(seg.value) then [] else [seg.value]
    ensures forall i :: 0 <= i < |r| ==> !IsDotPiece(r[i]) && r[i] in Pushed(seg)
    ensures forall p :: p in Pushed(seg) && !IsDotPiece(p) ==> p in r
    ensures seg.Path? ==> forall i :: 0 <= i < |r| ==> '/' !in r[i]
    ensures seg.Path? ==> (r == [[]] <==> seg.keepTrailingSlashIfEmpty && Remove(seg.value, '/') == [])
    ensures seg.Path? && r != [[]] ==> forall i :: 0 <= i < |r| ==> r[i] != []
    ensures seg.Path? && (forall i :: 0 <= i < |Pushed(seg)| ==> !IsDotPiece(Pushed(seg)[i])) ==>
      Concat(r) == Remove(seg.value, '/')
  {
    var pushed := Pushed(seg);
    if seg.Literal? then
      DropDotsOne(seg.value);
      DropDots(pushed)
    else
      DropDotsClean(pushed);
      DropDots(pushed)
  }

  lemma DropDotsOne(v: string)
    ensures DropDots([v]) == if IsDotPiece(v) then [] else [v]
  {
    assert [v][1..] == [];
  }

  /** Pieces that are one empty piece, or all non-empty, stay so once the dot
      pieces are dropped. */
  lemma DropDotsClean(parts: seq<string>)
    requires parts == [[]] || forall i :: 0 <= i < |parts| ==> parts[i] != []
    ensures DropDots(parts) == [[]] <==> parts == [[]]
    ensures DropDots(parts) != [[]] ==> forall i :: 0 <= i < |DropDots(parts)| ==> DropDots(parts)[i] != []
  {
    var r := DropDots(parts);
    if parts == [[]] {
      DropDotsOne([]);
    } else {
      forall i | 0 <= i < |r|
        ensures r[i] != []
      {
        assert r[i] in parts;
      }
    }
  }

  lemma {:induction false} RemoveNonEmpty(s: string, c: char)
    requires |s| > 0 && s[0] != c
    ensures Remove(s, c) != []
  {
  }

  /** Trimming `c` at both ends does not change what remains once every `c` is removed. */
  lemma TrimRemove(v: string)
    ensures Remove(Text.Trim(v, '/'), '/') == Remove(v, '/')
    ensures Text.Trim(v, '/') == [] <==> Remove(v, '/') == []
  {
    TrimStartRemove(v, '/');
    TrimEndRemove(Text.TrimStart(v, '/'), '/');
    RemoveEmpty(v, '/');
  }

  lemma {:induction false} TrimStartRemove(v: string, c: char)
    ensures Remove(Text.TrimStart(v, c), c) == Remove(v, c)
    decreases |v|
  {
    if |v| > 0 && v[0] == c {
      TrimStartRemove(v[1..], c);
    }
  }

  lemma {:induction false} TrimEndRemove(v: string, c: char)
    ensures Remove(Text.TrimEnd(v, c), c) == Remove(v, c)
    decreases |v|
  {
    if |v| > 0 && v[|v| - 1] == c {
      var w := v[..|v| - 1];
      TrimEndRemove(w, c);
      RemoveAppend(w, [c], c);
      assert w + [c] == v;
    }
  }

  lemma {:induction false} RemoveEmpty(s: string, c: char)
    ensures Remove(s, c) == [] <==> Text.AllAre(s, c)
    decreases |s|
  {
    if |s| > 0 {
      RemoveEmpty(s[1..], c);
      if s[0] == c {
        assert Text.AllAre(s, c) <==> Text.AllAre(s[1..], c) by {
          if Text.AllAre(s[1..], c) {
            forall i | 0 <= i < |s| ensures s[i] == c {
              if i > 0 { assert s[i] == s[1..][i - 1]; }
            }
          }
        }
      }
    }
  }

  lemma {:induction false} RemoveAppend(a: string, b: string, c: char)
    ensures Remove(a + b, c) == Remove(a, c) + Remove(b, c)
    decreases |a|
  {
    if |a| == 0 {
      assert a + b == b;
    } else {
      assert (a + b)[1..] == a[1..] + b;
      RemoveAppend(a[1..], b, c);
    }
  }

  function Flatten(segs: seq<Segment>): seq<string>
    decreases |segs|
  {
    if |segs| == 0 then [] else Pieces(segs[0]) + Flatten(segs[1..])
  }

  /** `build_url`: the base path without one trailing empty segment, followed by
      the pieces of every segment in order. */
  function BuildUrl(base: BaseUrl, segs: seq<Segment>): (r: Result<seq<string>, RestError>)
    ensures base.cannotBeABase <==> r.Err?
    ensures r.Err? ==> r.error.InvalidBaseUrl?
    ensures r.Ok? ==> |r.value| >= |PopIfEmpty(base.segments)|
    ensures r.Ok? ==> r.value[..|PopIfEmpty(base.segments)|] == PopIfEmpty(base.segments)
    ensures r.Ok? ==> r.value[|PopIfEmpty(base.segments)|..] == Flatten(segs)
  {
    if base.cannotBeABase then Err(InvalidBaseUrl("supplied base url cannot be a base"))
    else Ok(PopIfEmpty(base.segments) + Flatten(segs))
  }

  /** Segments are appended in order: the pieces of two lists of segments are
      the pieces of the first list followed by those of the second. */
  lemma {:induction false} FlattenAppend(a: seq<Segment>, b: seq<Segment>)
    ensures Flatten(a + b) == Flatten(a) + Flatten(b)
    decreases |a|
  {
    if |a| > 0 {
      assert (a + b)[1..] == a[1..] + b;
      FlattenAppend(a[1..], b);
    } else {
      assert a + b == b;
    }
  }

  /** Adding one more segment to a URL adds its pieces at the end. */
  lemma BuildUrlAppend(base: BaseUrl, segs: seq<Segment>, last: Segment)
    requires !base.cannotBeABase
    ensures BuildUrl(base, segs + [last]).value == BuildUrl(base, segs).value + Pieces(last)
  {
    var pre := PopIfEmpty(base.segments);
    var a, p := Flatten(segs), Pieces(last);
    assert Flatten(segs + [last]) == a + p by {
      FlattenAppend(segs, [last]);
      FlattenOne(last);
    }
    BuildUrlValue(base, segs + [last]);
    BuildUrlValue(base, segs);
    Regroup(pre, a, p);
  }

  lemma Regroup(a: seq<string>, b: seq<string>, c: seq<string>)
    ensures a + (b + c) == (a + b) + c
  {
  }

  lemma BuildUrlValue(base: BaseUrl, segs: seq<Segment>)
    requires !base.cannotBeABase
    ensures BuildUrl(base, segs).value == PopIfEmpty(base.segments) + Flatten(segs)
  {
  }

  lemma FlattenOne(seg: Segment)
    ensures Flatten([seg]) == Pieces(seg)
  {
    assert [seg][1..] == [];
  }

  /** Literal segments are appended verbatim, one path segment each, except
      that "." and ".." are skipped. */
  lemma {:induction false} FlattenLiterals(values: seq<string>)
    ensures Flatten(seq(|values|, i requires 0 <= i < |values| => Literal(values[i]))) == DropDots(values)
    decreases |values|
  {
    if |values| > 0 {
      var segs := seq(|values|, i requires 0 <= i < |values| => Literal(values[i]));
      FlattenLiterals(values[1..]);
      assert segs[1..] == seq(|values[1..]|, i requires 0 <= i < |values[1..]| => Literal(values[1..][i]));
      assert Pieces(segs[0]) == if IsDotPiece(values[0]) then [] else [values[0]];
    }
  }

  /** A path with no leading, trailing or doubled slash appends its
      '/'-separated pieces, in order, less the "." and ".." pieces. */
  lemma PathPiecesClean(v: string)
    requires forall i :: 0 <= i < |v| ==> v[i] != '/' || (0 < i < |v| - 1 && v[i - 1] != '/')
    requires |v| > 0 && v[0] != '/' && v[|v| - 1] != '/'
    ensures Pieces(PathSegment(v)) == DropDots(Text.Split(v, '/'))
  {
    PushedClean(v);
  }

  lemma PushedClean(v: string)
    requires forall i :: 0 <= i < |v| ==> v[i] != '/' || (0 < i < |v| - 1 && v[i - 1] != '/')
    requires |v| > 0 && v[0] != '/' && v[|v| - 1] != '/'
    ensures Pushed(PathSegment(v)) == Text.Split(v, '/')
  {
    var t := Text.Trim(v, '/');
    assert Text.TrimStart(v, '/') == v;
    assert Text.TrimEnd(v, '/') == v;
    NoEmptyPieces(v);
  }

  /** `push` skips dot segments: "a/../b" appends "a" and "b", while "." and a
      ".." literal append nothing. */
  lemma DotPiecesSkipped()
    ensures Pieces(PathSegment("a/../b")) == ["a", "b"]
    ensures Pieces(PathSegment(".")) == []
    ensures Pieces(Literal("..")) == []
  {
    PushedClean("a/../b");
    SplitParentExample();
    DropParentExample();
    PushedClean(".");
    assert Text.Split(".", '/') == ["."];
    DropDotsOne(".");
  }

  lemma SplitParentExample()
    ensures Text.Split("a/../b", '/') == ["a", "..", "b"]
  {
    var v := "a/../b";
    assert v[5..][1..] == [];
    var empty: seq<string> := [[]];
    assert Text.Split(v[5..][1..], '/') == empty;
    assert empty[1..] == [] && v[5] == 'b' && [v[5]] + empty[0] == "b";
    assert Text.Split(v[5..], '/') == ["b"];
    assert v[4..][1..] == v[5..];
    assert Text.Split(v[4..], '/') == [[]] + ["b"];
    assert v[3..][1..] == v[4..];
    var slashB: seq<string> := [[]] + ["b"];
    assert slashB[0] == [] && slashB[1..] == ["b"] && v[3] == '.';
    assert [v[3]] + slashB[0] == ['.'];
    assert Text.Split(v[3..], '/') == [['.']] + ["b"];
    assert v[2..][1..] == v[3..];
    var dotB: seq<string> := [['.']] + ["b"];
    assert dotB[1..] == ["b"] && v[2] == '.' && [v[2]] + dotB[0] == "..";
    assert Text.Split(v[2..], '/') == [".."] + ["b"];
    assert v[1..][1..] == v[2..];
    assert Text.Split(v[1..], '/') == [[]] + ["..", "b"];
    var rest: seq<string> := [[]] + ["..", "b"];
    assert rest[1..] == ["..", "b"] && v[0] == 'a' && [v[0]] + rest[0] == "a";
  }

  lemma DropParentExample()
    ensures DropDots(["a", "..", "b"]) == ["a", "b"]
  {
    DropDotsOne("b");
    assert ["a", "..", "b"][1..] == ["..", "b"];
    assert ["..", "b"][1..] == ["b"];
  }

  lemma {:induction false} NoEmptyPieces(v: string)
    requires forall i :: 0 <= i < |v| ==> v[i] != '/' || (0 < i < |v| - 1 && v[i - 1] != '/')
    requires |v| > 0 && v[0] != '/' && v[|v| - 1] != '/'
    ensures forall i :: 0 <= i < |Text.Split(v, '/')| ==> Text.Split(v, '/')[i] != []
    decreases |v|
  {
    var rest := Text.Split(v[1..], '/');
    if |v| > 1 && v[1] == '/' {
      var w := v[2..];
      assert |v| > 2 && v[2] != '/';
      forall i | 0 <= i < |w| && w[i] == '/'
        ensures 0 < i < |w| - 1 && w[i - 1] != '/'
      {
        assert v[i + 2] == '/';
      }
      NoEmptyPieces(w);
      assert v[1..][1..] == w;
      assert rest == [[]] + Text.Split(w, '/');
      assert rest[0] == [] && rest[1..] == Text.Split(w, '/');
      assert Text.Split(v, '/') == [[v[0]] + rest[0]] + rest[1..];
    } else if |v| > 1 {
      var w := v[1..];
      forall i | 0 <= i < |w| && w[i] == '/'
        ensures 0 < i < |w| - 1 && w[i - 1] != '/'
      {
        assert v[i + 1] == '/';
      }
      NoEmptyPieces(w);
      assert Text.Split(v, '/') == [[v[0]] + rest[0]] + rest[1..];
    }
  }

  /** The URL of `server_version` on the base `http://host/`: `/api/`. */
  lemma BuildUrlExample()
    ensures BuildUrl(BaseUrl(false, [[]]), [Literal("api"), Literal([])]) == Ok(["api", []])
  {
    var segs := [Literal("api"), Literal([])];
    assert Pieces(segs[0]) == ["api"];
    assert Pieces(segs[1]) == [[]];
    assert Flatten(segs[1..]) == [[]] + Flatten(segs[2..]);
    assert Flatten(segs) == ["api"] + Flatten(segs[1..]);
    var base: seq<string> := [[]];
    assert PopIfEmpty(base) == [];
    assert Flatten(segs) == ["api", []];
    assert BuildUrl(BaseUrl(false, base), segs) == Ok(PopIfEmpty(base) + Flatten(segs));
  }

  /** The contents URL of the root on the base `http://host/lab/`: `/lab/api/contents/`. */
  lemma BuildUrlRootExample()
    ensures BuildUrl(BaseUrl(false, ["lab", []]), [Literal("api"), Literal("contents"), PathAllowEmpty("/")])
            == Ok(["lab", "api", "contents", []])
  {
    var root := [PathAllowEmpty("/")];
    var tail := [Literal("contents")] + root;
    var segs := [Literal("api")] + tail;
    assert segs == [Literal("api"), Literal("contents"), PathAllowEmpty("/")];
    RootPieces();
    FlattenOne(PathAllowEmpty("/"));
    LiteralPiece("contents");
    FlattenCons(Literal("contents"), root);
    LiteralPiece("api");
    FlattenCons(Literal("api"), tail);
    var pieces := Flatten(segs);
    assert pieces == ["api"] + (["contents"] + [[]]);
    var base: seq<string> := ["lab", []];
    var pre := PopIfEmpty(base);
    assert pre == ["lab"];
    BuildUrlValue(BaseUrl(false, base), segs);
    assert pre + pieces == ["lab", "api", "contents", []];
  }

  lemma RootPieces()
    ensures Pieces(PathAllowEmpty("/")) == [[]]
  {
    assert Text.TrimStart("/", '/') == [];
  }

  lemma LiteralPiece(v: string)
    requires !IsDotPiece(v)
    ensures Pieces(Literal(v)) == [v]
  {
  }

  lemma FlattenCons(seg: Segment, rest: seq<Segment>)
    ensures Flatten([seg] + rest) == Pieces(seg) + Flatten(rest)
  {
    assert ([seg] + rest)[1..] == rest;
  }

  // ---------------------------------------------------------------------------
  // Authorization header and response status

  /** Bytes a header value may hold: visible ASCII, space, tab and anything above 127. */
  predicate IsHeaderChar(c: char) {
    (c as int >= 32 && c as int != 127) || c == '\t'
  }

  /** `build_token_header`: the value `token <token>`, refused when it holds a
      control character. */
  function TokenHeader(token: string): (r: Result<string, RestError>)
    ensures r.Ok? <==> forall i :: 0 <= i < |token| ==> IsHeaderChar(token[i])
    ensures r.Ok? ==> |r.value| == |token| + 6 && r.value[..6] == "token " && r.value[6..] == token
    ensures r.Err? ==> r.error.InvalidHeader?
  {
    var value := "token " + token;
    if forall i :: 0 <= i < |value| ==> IsHeaderChar(value[i]) then
      assert forall i :: 0 <= i < |token| ==> value[i + 6] == token[i];
      Ok(value)
    else
      assert !forall i :: 0 <= i < |token| ==> IsHeaderChar(token[i]) by {
        var j :| 0 <= j < |value| && !IsHeaderChar(value[j]);
        assert j >= 6 && value[j] == token[j - 6];
      }
      Err(InvalidHeader("failed to parse header value"))
  }

  predicate IsSuccess(status: StatusCode) {
    200 <= status < 300
  }

  /** `send`: a success status passes; any other becomes an API error carrying
      the response body, or the empty text when the body cannot be read. */
  function Send(status: StatusCode, body: Option<string>): (r: Result<StatusCode, RestError>)
    ensures r.Ok? <==> IsSuccess(status)
    ensures r.Ok? ==> r.value == status
    ensures r.Err? ==> r.error == Api(status, body.GetOr([]))
  {
    if IsSuccess(status) then Ok(status) else Err(Api(status, body.GetOr([])))
  }
}
