/** How the command line turns an endpoint URL and token options into the base
    URL and token the API client uses: the query is dropped, the path is cut
    before the first front-end route segment and given slashes at both ends,
    and the token comes from a file, an option or the URL, in that order. */
module CliConfig {

  import opened Wrappers
  import Text
  import Client

  // ---------------------------------------------------------------------------
  // Slash normalisation (`normalize_path`)

  /** `normalize_path`: the path without slashes at its ends, then exactly one
      slash on each side; the root when nothing is left. */
  function NormalizePath(path: string): (r: string)
    ensures Text.StartsWith(r, '/') && Text.EndsWith(r, '/')
    ensures r == "/" <==> Text.AllAre(path, '/')
    ensures r != "/" ==> r[1..|r| - 1] == Text.Trim(path, '/')
  {
    var trimmed := Text.Trim(path, '/');
    if trimmed == [] then "/"
    else
      var r := "/" + trimmed + "/";
      assert r[1..|r| - 1] == trimmed;
      r
  }

  /** A string without slashes at its ends is left as it is by trimming. */
  lemma TrimUnchanged(s: string)
    requires !Text.StartsWith(s, '/') && !Text.EndsWith(s, '/')
    ensures Text.Trim(s, '/') == s
  {
  }

  /** Normalising twice is normalising once. */
  lemma NormalizePathIdempotent(path: string)
    ensures NormalizePath(NormalizePath(path)) == NormalizePath(path)
  {
    var r := NormalizePath(path);
    if r == "/" {
      assert Text.AllAre(r, '/');
    } else {
      var t := Text.Trim(path, '/');
      assert r == "/" + t + "/";
      TrimSurrounded(t);
    }
  }

  /** One slash on each side of an untrimmable string is trimmed away again. */
  lemma TrimSurrounded(t: string)
    requires t != [] && !Text.StartsWith(t, '/') && !Text.EndsWith(t, '/')
    ensures Text.Trim("/" + t + "/", '/') == t
  {
    var s := "/" + t + "/";
    assert s[1..] == t + "/";
    assert Text.TrimStart(s, '/') == t + "/" by {
      assert Text.TrimStart(s, '/') == Text.TrimStart(s[1..], '/');
    }
    var u := t + "/";
    assert u[..|u| - 1] == t;
    assert Text.TrimEnd(u, '/') == t;
  }

  // ---------------------------------------------------------------------------
  // Base path sanitisation (`sanitize_base_path`)

  /** `is_frontend_route`: the path segments of the notebook front ends. */
  predicate IsFrontendRoute(segment: string) {
    segment in {"lab", "tree", "notebooks", "voila", "retro", "console"}
  }

  /** A segment `sanitize_base_path` keeps: not empty and not a front-end
      route. */
  predicate IsKeptSegment(segment: string) {
    segment != [] && !IsFrontendRoute(segment)
  }

  /** Where the first front-end route is among the pieces, or their number
      when there is none. */
  function RouteIndex(pieces: seq<string>): (n: nat)
    ensures n <= |pieces|
    ensures forall i :: 0 <= i < n ==> !IsFrontendRoute(pieces[i])
    ensures n < |pieces| ==> IsFrontendRoute(pieces[n])
    decreases |pieces|
  {
    if |pieces| == 0 || IsFrontendRoute(pieces[0]) then 0
    else 1 + RouteIndex(pieces[1..])
  }

  /** The loop of `sanitize_base_path`: empty pieces are skipped and the scan
      goes on; the first front-end route ends it. What is kept is the pieces
      before that route, in order, without the empty ones. */
  function KeptSegments(pieces: seq<string>): (kept: seq<string>)
    ensures forall i :: 0 <= i < |kept| ==> IsKeptSegment(kept[i]) && kept[i] in pieces
    ensures (forall i :: 0 <= i < |pieces| ==> IsKeptSegment(pieces[i])) ==> kept == pieces
    ensures kept == Client.DropEmpty(pieces[..RouteIndex(pieces)])
    decreases |pieces|
  {
    if |pieces| == 0 then []
    else if pieces[0] == [] then
      BeforeRouteStep(pieces);
      KeptSegments(pieces[1..])
    else if IsFrontendRoute(pieces[0]) then []
    else
      var rest := KeptSegments(pieces[1..]);
      BeforeRouteStep(pieces);
      assert forall i :: 1 <= i < |[pieces[0]] + rest| ==> ([pieces[0]] + rest)[i] == rest[i - 1];
      [pieces[0]] + rest
  }

  /** Before a piece that is not a route, the pieces up to the first route are
      that piece followed by the rest's. */
  lemma BeforeRouteStep(pieces: seq<string>)
    requires |pieces| > 0 && !IsFrontendRoute(pieces[0])
    ensures var m := RouteIndex(pieces[1..]);
      Client.DropEmpty(pieces[..RouteIndex(pieces)])
      == (if pieces[0] == [] then [] else [pieces[0]]) + Client.DropEmpty(pieces[1..][..m])
  {
    var m := RouteIndex(pieces[1..]);
    var pre := pieces[..m + 1];
    assert pre[0] == pieces[0];
    assert pre[1..] == pieces[1..][..m];
  }

  /** Kept segments in front pass through; a route cuts off everything after
      it. */
  lemma {:induction false} KeptSegmentsCut(front: seq<string>, route: string, back: seq<string>)
    requires forall i :: 0 <= i < |front| ==> IsKeptSegment(front[i])
    requires IsFrontendRoute(route)
    ensures KeptSegments(front + [route] + back) == front
    decreases |front|
  {
    if |front| == 0 {
      assert ([route] + back)[0] == route;
    } else {
      assert (front + [route] + back)[1..] == front[1..] + [route] + back;
      KeptSegmentsCut(front[1..], route, back);
      assert [front[0]] + front[1..] == front;
    }
  }

  /** `sanitize_base_path`: the kept segments of the path with its leading
      slashes dropped, normalised; the root when none is kept. */
  function SanitizeBasePath(path: string): (r: string)
    ensures Text.StartsWith(r, '/') && Text.EndsWith(r, '/')
    ensures r == "/" <==> KeptSegments(Text.Split(Text.TrimStart(path, '/'), '/')) == []
  {
    var kept := KeptSegments(Text.Split(Text.TrimStart(path, '/'), '/'));
    if kept == [] then "/"
    else
      JoinEnds(kept);
      NormalizePath(Text.Join(kept, '/'))
  }

  /** A join of non-empty slash-free segments neither starts nor ends with a
      slash, and is not empty. */
  lemma {:induction false} JoinEnds(segs: seq<string>)
    requires |segs| >= 1
    requires forall i :: 0 <= i < |segs| ==> segs[i] != [] && '/' !in segs[i]
    ensures Text.Join(segs, '/') != []
    ensures !Text.StartsWith(Text.Join(segs, '/'), '/') && !Text.EndsWith(Text.Join(segs, '/'), '/')
    decreases |segs|
  {
    if |segs| > 1 {
      JoinEnds(segs[1..]);
      var j := Text.Join(segs, '/');
      var rest := Text.Join(segs[1..], '/');
      assert j == segs[0] + ['/'] + rest;
      assert j[0] == segs[0][0];
      assert j[|j| - 1] == rest[|rest| - 1];
    } else {
      assert segs[0][0] in segs[0];
      assert segs[0][|segs[0]| - 1] in segs[0];
    }
  }

  /** One leading slash before a string that does not start with one is all
      that trimming drops. */
  lemma TrimOneSlash(x: string)
    requires x != [] && x[0] != '/'
    ensures Text.TrimStart("/" + x, '/') == x
  {
    assert ("/" + x)[1..] == x;
  }

  /** The pieces of a joined prefix, a route and the rest of a path. */
  lemma RoutePathPieces(segs: seq<string>, route: string, rest: string)
    requires |segs| >= 1
    requires forall i :: 0 <= i < |segs| ==> '/' !in segs[i]
    requires IsFrontendRoute(route)
    ensures Text.Split(Text.Join(segs, '/') + "/" + route + "/" + rest, '/') == segs + [route] + Text.Split(rest, '/')
  {
    var j := Text.Join(segs, '/');
    var tail := route + "/" + rest;
    assert j + "/" + route + "/" + rest == j + ['/'] + tail;
    Text.SplitConcat(j, '/', tail);
    Text.SplitJoin(segs, '/');
    assert '/' !in route;
    assert tail == route + ['/'] + rest;
    Text.SplitAtSeparator(route, '/', rest);
  }

  /** The base path of a notebook URL: the segments before the front-end route,
      between slashes. */
  lemma SanitizeCutsAtRoute(segs: seq<string>, route: string, rest: string)
    requires |segs| >= 1
    requires forall i :: 0 <= i < |segs| ==> IsKeptSegment(segs[i]) && '/' !in segs[i]
    requires IsFrontendRoute(route)
    ensures SanitizeBasePath("/" + Text.Join(segs, '/') + "/" + route + "/" + rest)
            == "/" + Text.Join(segs, '/') + "/"
  {
    var j := Text.Join(segs, '/');
    JoinEnds(segs);
    var inner := j + "/" + route + "/" + rest;
    var path := "/" + j + "/" + route + "/" + rest;
    assert path == "/" + inner by {
      Text.Regroup("/", j, "/");
      Text.Regroup("/", j + "/", route);
      Text.Regroup("/", j + "/" + route, "/");
      Text.Regroup("/", j + "/" + route + "/", rest);
    }
    TrimOneSlash(inner);
    RoutePathPieces(segs, route, rest);
    KeptSegmentsCut(segs, route, Text.Split(rest, '/'));
    assert KeptSegments(Text.Split(Text.TrimStart(path, '/'), '/')) == segs;
    assert SanitizeBasePath(path) == NormalizePath(j);
    TrimUnchanged(j);
  }

  /** A path without front-end routes keeps all its non-empty segments. */
  lemma SanitizeWithoutRoute(segs: seq<string>)
    requires |segs| >= 1
    requires forall i :: 0 <= i < |segs| ==> IsKeptSegment(segs[i]) && '/' !in segs[i]
    ensures SanitizeBasePath("/" + Text.Join(segs, '/')) == "/" + Text.Join(segs, '/') + "/"
  {
    var j := Text.Join(segs, '/');
    JoinEnds(segs);
    TrimOneSlash(j);
    Text.SplitJoin(segs, '/');
    TrimUnchanged(j);
  }

  // ---------------------------------------------------------------------------
  // Base URL (`derive_base_url`)

  /** A decoded `key=value` pair of a URL query. */
  datatype QueryPair = QueryPair(key: string, value: string)

  /** An endpoint URL: everything before the path kept whole, the path, and the
      decoded query pairs when there is a query. */
  datatype Url = Url(origin: string, path: string, query: Option<seq<QueryPair>>)

  /** `derive_base_url`: the URL without its query, its path the supplied base
      path normalised or, when none is supplied, its own path sanitised. */
  function DeriveBaseUrl(endpoint: Url, apiBasePath: Option<string>): (r: Url)
    ensures r.origin == endpoint.origin && r.query.None?
    ensures Text.StartsWith(r.path, '/') && Text.EndsWith(r.path, '/')
    ensures apiBasePath.Some? ==> r.path == NormalizePath(apiBasePath.value)
    ensures apiBasePath.None? ==> r.path == SanitizeBasePath(endpoint.path)
  {
    var path := match apiBasePath
      case Some(custom) => NormalizePath(custom)
      case None => SanitizeBasePath(endpoint.path);
    Url(endpoint.origin, path, None)
  }

  /** Deriving again from a derived URL with the same base path changes
      nothing. */
  lemma DeriveBaseUrlStable(endpoint: Url, custom: string)
    ensures var once := DeriveBaseUrl(endpoint, Some(custom));
      DeriveBaseUrl(once, Some(once.path)) == once
  {
    NormalizePathIdempotent(custom);
  }

  // ---------------------------------------------------------------------------
  // Token resolution (`resolve_token`, `extract_token_from_url`)

  /** The value of the first query pair named "token". */
  function FirstTokenValue(pairs: seq<QueryPair>): (r: Option<string>)
    ensures r.None? <==> forall i :: 0 <= i < |pairs| ==> pairs[i].key != "token"
    ensures r.Some? ==>
      exists i ::
        && 0 <= i < |pairs| && pairs[i].key == "token" && pairs[i].value == r.value
        && forall k :: 0 <= k < i ==> pairs[k].key != "token"
    decreases |pairs|
  {
    if |pairs| == 0 then None
    else if pairs[0].key == "token" then Some(pairs[0].value)
    else
      var r := FirstTokenValue(pairs[1..]);
      assert forall i :: 1 <= i < |pairs| ==> pairs[i] == pairs[1..][i - 1];
      if r.Some? then
        ghost var i :| 0 <= i < |pairs[1..]| && pairs[1..][i].key == "token" && pairs[1..][i].value == r.value
          && forall k :: 0 <= k < i ==> pairs[1..][k].key != "token";
        assert pairs[i + 1].key == "token" && pairs[i + 1].value == r.value;
        r
      else r
  }

  /** A usable token: not empty, and no whitespace at either end. */
  predicate IsToken(t: string) {
    t != [] && !Text.IsWhitespace(t[0]) && !Text.IsWhitespace(t[|t| - 1])
  }

  /** A token with its surrounding whitespace removed; blank means absent. */
  function NonBlank(value: string): (r: Option<string>)
    ensures r.None? <==> forall i :: 0 <= i < |value| ==> Text.IsWhitespace(value[i])
    ensures r.Some? ==> r.value == Text.TrimWhitespace(value) && IsToken(r.value)
  {
    var trimmed := Text.TrimWhitespace(value);
    if trimmed == [] then None else Some(trimmed)
  }

  /** `extract_token_from_url`: the first "token" query value, trimmed; a blank
      one gives no token even when a later pair has one. */
  function ExtractTokenFromUrl(url: Url): (r: Option<string>)
    ensures url.query.None? ==> r.None?
    ensures url.query.Some? ==>
      var first := FirstTokenValue(url.query.value);
      && (first.None? ==> r.None?)
      && (first.Some? ==> r == NonBlank(first.value))
  {
    match url.query
    case None => None
    case Some(pairs) =>
      match FirstTokenValue(pairs)
      case None => None
      case Some(value) => NonBlank(value)
  }

  /** A blank first token hides every later one. */
  lemma BlankFirstTokenHidesLater(origin: string, path: string, blank: string, rest: seq<QueryPair>)
    requires forall i :: 0 <= i < |blank| ==> Text.IsWhitespace(blank[i])
    ensures ExtractTokenFromUrl(Url(origin, path, Some([QueryPair("token", blank)] + rest))).None?
  {
  }

  /** Why no token could be resolved. */
  datatype TokenError = TokenFileUnreadable | TokenFileEmpty | NoToken

  /** `resolve_token`: the token file, read (`Err` when reading fails) and
      trimmed, wins; then a non-blank `--token`, trimmed; then the URL's
      token. */
  function ResolveToken(tokenFile: Option<Result<string, ()>>, token: Option<string>, endpoint: Url): (r: Result<string, TokenError>)
    ensures r.Ok? ==> IsToken(r.value)
    ensures tokenFile.Some? && tokenFile.value.Err? ==> r == Err(TokenFileUnreadable)
    ensures tokenFile.Some? && tokenFile.value.Ok? ==>
      r == (match NonBlank(tokenFile.value.value)
            case Some(t) => Ok(t)
            case None => Err(TokenFileEmpty))
    ensures tokenFile.None? && token.Some? && NonBlank(token.value).Some? ==> r == Ok(NonBlank(token.value).value)
    ensures tokenFile.None? && (token.None? || NonBlank(token.value).None?) ==>
      r == (match ExtractTokenFromUrl(endpoint)
            case Some(t) => Ok(t)
            case None => Err(NoToken))
  {
    match tokenFile
    case Some(Err(_)) => Err(TokenFileUnreadable)
    case Some(Ok(contents)) =>
      (match NonBlank(contents)
       case Some(t) => Ok(t)
       case None => Err(TokenFileEmpty))
    case None =>
      var fromOption := match token
        case Some(value) => NonBlank(value)
        case None => None;
      if fromOption.Some? then Ok(fromOption.value)
      else
        match ExtractTokenFromUrl(endpoint)
        case Some(t) => Ok(t)
        case None => Err(NoToken)
  }

  /** With a token file, neither the option nor the URL is consulted. */
  lemma TokenFileWins(file: Result<string, ()>, token1: Option<string>, url1: Url, token2: Option<string>, url2: Url)
    ensures ResolveToken(Some(file), token1, url1) == ResolveToken(Some(file), token2, url2)
  {
  }

  /** A usable `--token` hides the URL's token. */
  lemma OptionBeatsUrl(token: string, url1: Url, url2: Url)
    requires NonBlank(token).Some?
    ensures ResolveToken(None, Some(token), url1) == ResolveToken(None, Some(token), url2)
    ensures ResolveToken(None, Some(token), url1) == Ok(Text.TrimWhitespace(token))
  {
  }
}
