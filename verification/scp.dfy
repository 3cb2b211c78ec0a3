/** The `scp` subcommand's decision logic: the operand grammar
    (`[user@]host:path` with bracketed IPv6 hosts), remote path normalisation
    and joining, the choice between an upload and a download plan, and the
    rules that decide whether a destination is a directory. Local file-system
    facts (`fs::metadata`) enter as parameters; the remote side is the
    contents service of `FsService`. */
module Scp {

  import opened Wrappers
  import Text
  import FsService

  /** The reasons a transfer stops; each names the operand or path involved. */
  datatype ScpError =
    | TooFewOperands
    | NoSources
    | RemoteSourceToRemote(raw: string)
    | LocalSourceToLocal(raw: string, destination: string)
    | NoLocalSources
    | NoRemoteSources
    | NoFileName(raw: string)
    | DestinationNotDirectory(raw: string)
    | MultipleNeedDirectory(raw: string)
    | RemotePathMissing(raw: string)
    | DirectoryNeedsRecursive(raw: string)
    | NeitherFileNorDirectory(raw: string)
    | RemoteNotDirectory(raw: string)
    | LocalMetadata(raw: string)
    | ServiceFailed(error: FsService.FsError)

  // ---------------------------------------------------------------------------
  // `split_remote_spec`: the first colon outside brackets

  /** Bracket depth after one more character; ']' never goes below zero. */
  function StepDepth(depth: nat, c: char): nat {
    if c == '[' then depth + 1
    else if c == ']' then (if depth == 0 then 0 else depth - 1)
    else depth
  }

  /** Bracket depth after reading `s` from its start. */
  function Depth(s: string): nat
    decreases |s|
  {
    if |s| == 0 then 0 else StepDepth(Depth(s[..|s| - 1]), s[|s| - 1])
  }

  /** Position `i` of `raw` holds a colon outside every bracket pair. */
  predicate IsSplitColon(raw: string, i: int) {
    0 <= i < |raw| && raw[i] == ':' && Depth(raw[..i]) == 0
  }

  /** The first split colon at or after `i`, given the depth reached at `i`. */
  function FirstSplitColon(raw: string, i: nat, depth: nat): (r: Option<nat>)
    requires i <= |raw| && depth == Depth(raw[..i])
    ensures r.Some? ==> i <= r.value && IsSplitColon(raw, r.value)
    ensures r.Some? ==> forall j :: i <= j < r.value ==> !IsSplitColon(raw, j)
    ensures r.None? ==> forall j :: i <= j < |raw| ==> !IsSplitColon(raw, j)
    decreases |raw| - i
  {
    if i == |raw| then None
    else if raw[i] == ':' && depth == 0 then Some(i)
    else
      assert raw[..i + 1][..i] == raw[..i];
      FirstSplitColon(raw, i + 1, StepDepth(depth, raw[i]))
  }

  /** `split_remote_spec`: the target before and the path fragment after the
      first colon outside brackets, or `None` for a local operand. */
  function SplitRemoteSpec(raw: string): (r: Option<(string, string)>)
    ensures r.Some? <==> exists i :: IsSplitColon(raw, i)
    ensures r.Some? ==> raw == r.value.0 + [':'] + r.value.1
    ensures r.Some? ==> IsSplitColon(raw, |r.value.0|)
    ensures r.Some? ==> forall j :: 0 <= j < |r.value.0| ==> !IsSplitColon(raw, j)
  {
    match FirstSplitColon(raw, 0, 0)
    case None => None
    case Some(k) =>
      assert raw == raw[..k] + [':'] + raw[k + 1..];
      Some((raw[..k], raw[k + 1..]))
  }

  lemma DepthSnoc(s: string, c: char)
    ensures Depth(s + [c]) == StepDepth(Depth(s), c)
  {
    assert (s + [c])[..|s|] == s;
  }

  /** Text without brackets leaves the depth where it was. */
  lemma {:induction false} DepthPlain(s: string, t: string)
    requires '[' !in t && ']' !in t
    ensures Depth(s + t) == Depth(s)
    decreases |t|
  {
    if |t| > 0 {
      var u := t[..|t| - 1];
      var x := t[|t| - 1];
      assert x in t;
      assert x != '[' && x != ']';
      assert u + [x] == t;
      assert forall c :: c in u ==> c in t;
      DepthPlain(s, u);
      DepthSnoc(s + u, x);
      assert s + u + [x] == s + t;
      assert Depth(s + t) == StepDepth(Depth(s + u), x) == Depth(s + u);
    } else {
      assert s + t == s;
    }
  }

  /** Splitting is inverse to joining a target and a fragment with a colon,
      when the target has no colon of its own outside brackets and closes all
      it opens. */
  lemma SplitRemoteSpecJoin(target: string, fragment: string)
    requires SplitRemoteSpec(target).None? && Depth(target) == 0
    ensures SplitRemoteSpec(target + [':'] + fragment) == Some((target, fragment))
  {
    var raw := target + [':'] + fragment;
    assert raw[..|target|] == target;
    assert IsSplitColon(raw, |target|);
    forall j | 0 <= j < |target|
      ensures !IsSplitColon(raw, j)
    {
      assert raw[..j] == target[..j];
      assert !IsSplitColon(target, j);
    }
    var r := SplitRemoteSpec(raw).value;
    assert |r.0| == |target|;
    assert r.0 == raw[..|target|];
    assert r.1 == raw[|target| + 1..];
  }

  /** A target without colons or brackets stays local and leaves no bracket open. */
  lemma PlainTarget(target: string)
    requires ':' !in target && '[' !in target && ']' !in target
    ensures SplitRemoteSpec(target).None? && Depth(target) == 0
  {
    DepthPlain([], target);
    assert [] + target == target;
  }

  /** The colons of a bracketed IPv6 host do not split: the operand splits at
      the colon after the closing bracket. */
  lemma BracketedHostDoesNotSplit(user: string, host: string, fragment: string)
    requires ':' !in user && '[' !in user && ']' !in user
    requires '[' !in host && ']' !in host
    ensures var target := user + "[" + host + "]";
      SplitRemoteSpec(target + [':'] + fragment) == Some((target, fragment))
  {
    var target := user + "[" + host + "]";
    PlainTarget(user);
    DepthSnoc(user, '[');
    forall i | 0 <= i <= |host|
      ensures Depth(user + "[" + host[..i]) == 1
    {
      assert forall c :: c in host[..i] ==> c in host;
      DepthPlain(user + "[", host[..i]);
    }
    assert host[..|host|] == host;
    DepthSnoc(user + "[" + host, ']');
    forall j | 0 <= j < |target|
      ensures !IsSplitColon(target, j)
    {
      if j < |user| {
        assert target[j] == user[j] && user[j] in user;
      } else if |user| < j <= |user| + |host| {
        assert target[..j] == user + "[" + host[..j - |user| - 1];
      }
    }
    SplitRemoteSpecJoin(target, fragment);
  }

  /** A stray ']' leaves the depth at zero, so the colon after it still splits. */
  lemma StrayCloseBracketExample(fragment: string)
    ensures SplitRemoteSpec("]:" + fragment) == Some(("]", fragment))
  {
    DepthSnoc([], ']');
    assert [] + "]" == "]";
    SplitRemoteSpecJoin("]", fragment);
    assert "]" + [':'] + fragment == "]:" + fragment;
  }

  // ---------------------------------------------------------------------------
  // `split_user_and_host` and `trim_ipv6_brackets`

  /** The position of the last `c` in `s`. */
  function LastIndex(s: string, c: char): (r: Option<nat>)
    ensures r.None? <==> c !in s
    ensures r.Some? ==> r.value < |s| && s[r.value] == c && c !in s[r.value + 1..]
    decreases |s|
  {
    if |s| == 0 then None
    else if s[|s| - 1] == c then Some(|s| - 1)
    else
      assert s == s[..|s| - 1] + [s[|s| - 1]];
      var r := LastIndex(s[..|s| - 1], c);
      if r.Some? then
        assert s[r.value + 1..] == s[..|s| - 1][r.value + 1..] + [s[|s| - 1]];
        r
      else r
  }

  /** `split_user_and_host`: the user before and the host after the last '@'. */
  function SplitUserAndHost(target: string): (r: (Option<string>, Option<string>))
    ensures target == [] ==> r == (None, None)
    ensures target != [] ==> r.1.Some?
    ensures '@' in target ==> r.0.Some? && target == r.0.value + ['@'] + r.1.value && '@' !in r.1.value
    ensures '@' !in target && target != [] ==> r == (None, Some(target))
  {
    if target == [] then (None, None)
    else
      match LastIndex(target, '@')
      case Some(k) =>
        assert target == target[..k] + ['@'] + target[k + 1..];
        (Some(target[..k]), Some(target[k + 1..]))
      case None => (None, Some(target))
  }

  /** `trim_ipv6_brackets`: leading '[' then trailing ']' removed. */
  function TrimIpv6Brackets(host: string): (r: string)
    ensures !Text.StartsWith(r, '[') && !Text.EndsWith(r, ']')
  {
    var t := Text.TrimStart(host, '[');
    var r := Text.TrimEnd(t, ']');
    assert |r| > 0 ==> r[0] == t[0];
    r
  }

  /** Only brackets are removed: the result is the host between a run of
      '[' and a run of ']'. */
  lemma TrimIpv6BracketsInfix(host: string)
    ensures var r := TrimIpv6Brackets(host);
      var a := |host| - |Text.TrimStart(host, '[')|;
      && a + |r| <= |host| && r == host[a..a + |r|]
      && Text.AllAre(host[..a], '[') && Text.AllAre(host[a + |r|..], ']')
  {
    var t := Text.TrimStart(host, '[');
    var r := Text.TrimEnd(t, ']');
    assert r == TrimIpv6Brackets(host);
    InfixOfTrims(host, t, r);
  }

  /** A prefix `r` of a suffix `t` of `host`, with '[' before `t` and ']'
      after `r`, sits between the two runs. */
  lemma InfixOfTrims(host: string, t: string, r: string)
    requires |t| <= |host| && t == host[|host| - |t|..] && Text.AllAre(host[..|host| - |t|], '[')
    requires |r| <= |t| && r == t[..|r|] && Text.AllAre(t[|r|..], ']')
    ensures var a := |host| - |t|;
      && a + |r| <= |host| && r == host[a..a + |r|]
      && Text.AllAre(host[..a], '[') && Text.AllAre(host[a + |r|..], ']')
  {
    var a := |host| - |t|;
    assert t[..|r|] == host[a..a + |r|];
    assert t[|r|..] == host[a + |r|..];
  }

  /** Trimming the brackets a second time changes nothing. */
  lemma TrimIpv6BracketsIdempotent(host: string)
    ensures TrimIpv6Brackets(TrimIpv6Brackets(host)) == TrimIpv6Brackets(host)
  {
    var r := TrimIpv6Brackets(host);
    assert Text.TrimStart(r, '[') == r;
    assert Text.TrimEnd(r, ']') == r;
  }

  /** The host of a remote target as `parse_operand` keeps it: absent when the
      target is empty or ends in '@', otherwise the text after the last '@'
      with its brackets trimmed. */
  function HostOf(target: string): (h: Option<string>)
    ensures h.None? <==> target == [] || Text.EndsWith(target, '@')
    ensures h.Some? ==> '@' !in h.value
    ensures h.Some? ==> !Text.StartsWith(h.value, '[') && !Text.EndsWith(h.value, ']')
  {
    match SplitUserAndHost(target).1
    case None => None
    case Some(host) =>
      HostPartEmpty(target);
      if host == [] then None
      else
        TrimKeepsAbsent(host, '@');
        Some(TrimIpv6Brackets(host))
  }

  /** The host part is empty exactly when the target ends in '@'. */
  lemma HostPartEmpty(target: string)
    requires target != []
    ensures SplitUserAndHost(target).1.value == [] <==> Text.EndsWith(target, '@')
  {
    if '@' in target {
      var h := SplitUserAndHost(target).1.value;
      if h != [] {
        assert target[|target| - 1] == h[|h| - 1];
        assert h[|h| - 1] in h;
      }
    } else {
      assert target[|target| - 1] in target;
    }
  }

  /** Trimming brackets adds no character. */
  lemma TrimKeepsAbsent(host: string, c: char)
    requires c !in host
    ensures c !in TrimIpv6Brackets(host)
  {
    TrimIpv6BracketsInfix(host);
    var r := TrimIpv6Brackets(host);
    var a := |host| - |Text.TrimStart(host, '[')|;
    assert forall i :: 0 <= i < |r| ==> r[i] == host[a + i];
  }

  /** The host is what follows the last '@', brackets trimmed; with no '@'
      it is the whole target. */
  lemma HostAfterLastAt(user: string, host: string)
    requires '@' !in host && host != []
    ensures HostOf(user + "@" + host) == Some(TrimIpv6Brackets(host))
  {
    var target := user + "@" + host;
    var s := SplitUserAndHost(target);
    assert target[|user|] == '@';
    assert '@' in target;
    var h := s.1.value;
    assert h == target[|target| - |h|..] == host;
  }

  /** The empty-host filter runs before bracket trimming, so a target of
      only brackets (such as "[]", lemma `BracketPairTrimsAway`) keeps an
      empty host rather than none. */
  lemma BracketOnlyHostIsEmpty(target: string)
    requires target != [] && '@' !in target && TrimIpv6Brackets(target) == []
    ensures HostOf(target) == Some("")
  {
    assert SplitUserAndHost(target) == (None, Some(target));
  }

  /** An opening and a closing bracket trim to nothing. */
  lemma BracketPairTrimsAway(t: string)
    requires t == "[]"
    ensures TrimIpv6Brackets(t) == ""
  {
    assert t[1..] == "]";
    assert Text.TrimStart("]", '[') == "]";
    assert Text.TrimStart(t, '[') == "]";
    assert "]"[..0] == "";
    assert Text.TrimEnd("", ']') == "";
    assert Text.TrimEnd("]", ']') == "";
  }

  // ---------------------------------------------------------------------------
  // `normalize_remote_path`

  /** A component a normalised remote path may hold. */
  predicate IsNormalComponent(part: string) {
    part != "" && part != "." && part != ".." && '/' !in part
  }

  predicate AllNormal(comps: seq<string>) {
    forall i :: 0 <= i < |comps| ==> IsNormalComponent(comps[i])
  }

  /** One piece of the path applied to the component stack: empty and "."
      pieces are skipped, ".." pops (nothing above the root), others push. */
  function PushPart(stack: seq<string>, part: string): seq<string> {
    if part == "" || part == "." then stack
    else if part == ".." then (if |stack| == 0 then stack else stack[..|stack| - 1])
    else stack + [part]
  }

  /** The component stack after applying every piece in order. */
  function Resolve(stack: seq<string>, parts: seq<string>): (r: seq<string>)
    ensures AllNormal(stack) && (forall i :: 0 <= i < |parts| ==> '/' !in parts[i]) ==> AllNormal(r)
    decreases |parts|
  {
    if |parts| == 0 then stack else Resolve(PushPart(stack, parts[0]), parts[1..])
  }

  /** The components a remote path normalises to. */
  function Components(path: string): (r: seq<string>)
    ensures AllNormal(r)
  {
    Resolve([], Text.Split(path, '/'))
  }

  /** A rooted path spelled from its components. */
  function Render(comps: seq<string>): string {
    if |comps| == 0 then "/" else "/" + Text.Join(comps, '/')
  }

  /** `normalize_remote_path`: always rooted, and the root alone exactly when
      no component survives. */
  function NormalizeRemotePath(path: string): (r: string)
    ensures Text.StartsWith(r, '/')
    ensures r == "/" <==> Components(path) == []
  {
    var comps := Components(path);
    assert comps != [] ==> |Text.Join(comps, '/')| > 0 by {
      if |comps| > 1 {
        assert Text.Join(comps, '/') == comps[0] + ['/'] + Text.Join(comps[1..], '/');
      }
    }
    Render(comps)
  }

  /** Normal components pass through the stack unchanged. */
  lemma {:induction false} ResolveNormal(stack: seq<string>, comps: seq<string>)
    requires AllNormal(comps)
    ensures Resolve(stack, comps) == stack + comps
    decreases |comps|
  {
    if |comps| > 0 {
      ResolveNormal(stack + [comps[0]], comps[1..]);
      assert stack + [comps[0]] + comps[1..] == stack + comps;
    }
  }

  /** Joining one more part onto a non-empty list. */
  lemma {:induction false} JoinAppend(parts: seq<string>, sep: char, x: string)
    requires |parts| >= 1
    ensures Text.Join(parts + [x], sep) == Text.Join(parts, sep) + [sep] + x
    decreases |parts|
  {
    if |parts| > 1 {
      assert (parts + [x])[1..] == parts[1..] + [x];
      JoinAppend(parts[1..], sep, x);
    }
  }

  /** A rendered path reads back as the components it was rendered from. */
  lemma RenderCanonical(comps: seq<string>)
    requires AllNormal(comps)
    ensures Components(Render(comps)) == comps
    ensures NormalizeRemotePath(Render(comps)) == Render(comps)
  {
    if |comps| == 0 {
      assert Text.Split("/", '/') == [""] + Text.Split("", '/');
    } else {
      var j := Text.Join(comps, '/');
      Text.SplitJoin(comps, '/');
      Text.SplitAtSeparator("", '/', j);
      assert Render(comps) == "" + ['/'] + j;
      assert Text.Split(Render(comps), '/') == [""] + comps;
      assert ([""] + comps)[1..] == comps;
      ResolveNormal([], comps);
    }
  }

  /** A relative path of normal components normalises to the same components
      under the root. */
  lemma RelativeCanonical(comps: seq<string>)
    requires |comps| >= 1 && AllNormal(comps)
    ensures Components(Text.Join(comps, '/')) == comps
    ensures NormalizeRemotePath(Text.Join(comps, '/')) == Render(comps)
  {
    Text.SplitJoin(comps, '/');
    ResolveNormal([], comps);
  }

  /** Normalising twice is normalising once, and the result is the root
      followed by normal components only. */
  lemma NormalizeIdempotent(path: string)
    ensures NormalizeRemotePath(NormalizeRemotePath(path)) == NormalizeRemotePath(path)
    ensures Components(NormalizeRemotePath(path)) == Components(path)
  {
    RenderCanonical(Components(path));
  }

  /** A leading ".." is a no-op: nothing lies above the root. */
  lemma ParentOfRootIsRoot(path: string)
    ensures NormalizeRemotePath("../" + path) == NormalizeRemotePath(path)
  {
    Text.SplitAtSeparator("..", '/', path);
    assert "../" + path == ".." + ['/'] + path;
    assert ([".."] + Text.Split(path, '/'))[1..] == Text.Split(path, '/');
  }

  /** Resolving two lists of pieces is resolving one after the other. */
  lemma {:induction false} ResolveConcat(stack: seq<string>, a: seq<string>, b: seq<string>)
    ensures Resolve(stack, a + b) == Resolve(Resolve(stack, a), b)
    decreases |a|
  {
    if |a| == 0 {
      assert a + b == b;
    } else {
      assert (a + b)[1..] == a[1..] + b;
      ResolveConcat(PushPart(stack, a[0]), a[1..], b);
    }
  }

  /** The components of `p/q` are those of `q` resolved on top of those of `p`. */
  lemma ComponentsConcat(p: string, q: string)
    ensures Components(p + "/" + q) == Resolve(Components(p), Text.Split(q, '/'))
  {
    assert p + "/" + q == p + ['/'] + q;
    Text.SplitConcat(p, '/', q);
    ResolveConcat([], Text.Split(p, '/'), Text.Split(q, '/'));
  }

  /** The empty path is the root. */
  lemma NormalizeEmpty()
    ensures NormalizeRemotePath("") == "/"
  {
    assert Text.Split("", '/') == [""];
  }

  /** A "." piece changes nothing. */
  lemma DotPieceVanishes(p: string, q: string)
    ensures NormalizeRemotePath(p + "/./" + q) == NormalizeRemotePath(p + "/" + q)
  {
    ComponentsConcat(p, q);
    ComponentsConcat(p, "./" + q);
    assert p + "/./" + q == p + "/" + ("./" + q);
    assert "./" + q == "." + ['/'] + q;
    Text.SplitConcat(".", '/', q);
    Text.SplitWithoutSeparator(".", '/');
    assert (["."] + Text.Split(q, '/'))[1..] == Text.Split(q, '/');
  }

  /** An empty piece (a doubled '/') changes nothing. */
  lemma EmptyPieceVanishes(p: string, q: string)
    ensures NormalizeRemotePath(p + "//" + q) == NormalizeRemotePath(p + "/" + q)
  {
    ComponentsConcat(p, q);
    ComponentsConcat(p, "/" + q);
    assert p + "//" + q == p + "/" + ("/" + q);
    assert "/" + q == "" + ['/'] + q;
    Text.SplitConcat("", '/', q);
    assert Text.Split("", '/') == [""];
    assert ([""] + Text.Split(q, '/'))[1..] == Text.Split(q, '/');
  }

  /** The pieces of `../q`. */
  lemma SplitParent(q: string)
    ensures Text.Split("../" + q, '/') == [".."] + Text.Split(q, '/')
  {
    assert "../" + q == ".." + ['/'] + q;
    Text.SplitConcat("..", '/', q);
    Text.SplitWithoutSeparator("..", '/');
  }

  /** A name followed by ".." cancels out. */
  lemma NameThenParentCancels(p: string, name: string, q: string)
    requires IsNormalComponent(name)
    ensures NormalizeRemotePath(p + "/" + name + "/../" + q) == NormalizeRemotePath(p + "/" + q)
  {
    var x := p + "/" + name;
    var c := Components(p);
    ComponentsConcat(p, name);
    Text.SplitWithoutSeparator(name, '/');
    assert Components(x) == c + [name];
    ComponentsConcat(x, "../" + q);
    assert p + "/" + name + "/../" + q == x + "/" + ("../" + q);
    SplitParent(q);
    var sq := Text.Split(q, '/');
    assert ([".."] + sq)[1..] == sq;
    assert (c + [name])[..|c|] == c;
    assert Resolve(c + [name], [".."] + sq) == Resolve(c, sq);
    ComponentsConcat(p, q);
  }

  // ---------------------------------------------------------------------------
  // `join_remote_paths`

  /** `join_remote_paths`: the child, stripped of surrounding '/', becomes the
      last segment, separated from the base by exactly one '/'. */
  function JoinRemotePaths(base: string, child: string): (r: string)
    ensures var c := Text.Trim(child, '/');
      && |r| > |c| && r[|r| - |c| - 1..] == ['/'] + c
      && !Text.EndsWith(r[..|r| - |c| - 1], '/')
      && (base == "/" ==> |r| == |c| + 1)
      && (base != "/" ==> r[..|r| - |c| - 1] == Text.TrimEnd(base, '/'))
  {
    var c := Text.Trim(child, '/');
    if base == "/" then
      var r := "/" + c;
      assert r[|r| - |c| - 1..] == r && r[..|r| - |c| - 1] == [];
      r
    else
      var b := Text.TrimEnd(base, '/');
      var r := b + "/" + c;
      assert |r| - |c| - 1 == |b|;
      assert r[..|b|] == b && r[|b|..] == ['/'] + c;
      r
  }

  /** A string without `c` is its own trim. */
  lemma TrimAbsent(s: string, c: char)
    requires c !in s
    ensures Text.TrimStart(s, c) == s && Text.TrimEnd(s, c) == s && Text.Trim(s, c) == s
  {
    if |s| > 0 {
      assert s[0] in s && s[|s| - 1] in s;
    }
  }

  /** The last character of a join is the last character of its last part. */
  lemma JoinEndsWithLast(parts: seq<string>, sep: char)
    requires |parts| >= 1 && |parts[|parts| - 1]| > 0
    ensures var j := Text.Join(parts, sep); var last := parts[|parts| - 1];
      |j| > 0 && j[|j| - 1] == last[|last| - 1]
  {
    var last := parts[|parts| - 1];
    if |parts| > 1 {
      JoinAppend(parts[..|parts| - 1], sep, last);
      assert parts[..|parts| - 1] + [last] == parts;
    }
  }

  /** Joining a plain name onto a rendered path renders one more component. */
  lemma RenderAppend(comps: seq<string>, name: string)
    requires AllNormal(comps) && IsNormalComponent(name)
    ensures JoinRemotePaths(Render(comps), name) == Render(comps + [name])
  {
    TrimAbsent(name, '/');
    if |comps| == 0 {
      assert comps + [name] == [name];
      assert Render([name]) == "/" + name;
    } else {
      var j := Text.Join(comps, '/');
      var base := "/" + j;
      JoinAppend(comps, '/', name);
      JoinEndsWithLast(comps, '/');
      var last := comps[|comps| - 1];
      assert last[|last| - 1] in last;
      assert !Text.EndsWith(base, '/');
      assert Text.TrimEnd(base, '/') == base;
      assert base != "/";
      assert JoinRemotePaths(base, name) == base + "/" + name;
      assert Render(comps + [name]) == "/" + (j + "/" + name);
      Text.Regroup("/", j, "/");
      Text.Regroup("/", j + "/", name);
    }
  }

  /** Joining a plain name onto a normalised path appends one component, and
      the result is normalised again. */
  lemma JoinKeepsNormalForm(path: string, name: string)
    requires IsNormalComponent(name)
    ensures var j := JoinRemotePaths(NormalizeRemotePath(path), name);
      Components(j) == Components(path) + [name] && NormalizeRemotePath(j) == j
  {
    var comps := Components(path);
    var all := comps + [name];
    assert AllNormal(all) by {
      assert forall i :: 0 <= i < |comps| ==> all[i] == comps[i];
    }
    RenderAppend(comps, name);
    RenderCanonical(all);
  }

  // ---------------------------------------------------------------------------
  // Local file names (`Path::file_name` on a Unix path)

  /** The pieces `Path::components` keeps as names: empty and "." pieces go. */
  function NamedPieces(parts: seq<string>): (r: seq<string>)
    ensures forall i :: 0 <= i < |r| ==> r[i] != "" && r[i] != "."
    ensures (forall i :: 0 <= i < |parts| ==> '/' !in parts[i]) ==> forall i :: 0 <= i < |r| ==> '/' !in r[i]
    decreases |parts|
  {
    if |parts| == 0 then []
    else (if parts[0] == "" || parts[0] == "." then [] else [parts[0]]) + NamedPieces(parts[1..])
  }

  /** `Path::file_name`: the last named component, absent for a path that is
      empty, the root, "." or ends in "..". */
  function FileName(path: string): (r: Option<string>)
    ensures r.Some? ==> IsNormalComponent(r.value)
  {
    var names := NamedPieces(Text.Split(path, '/'));
    if |names| == 0 || names[|names| - 1] == ".." then None else Some(names[|names| - 1])
  }

  /** The names of two lists of pieces are the names of each, in order. */
  lemma {:induction false} NamedPiecesConcat(a: seq<string>, b: seq<string>)
    ensures NamedPieces(a + b) == NamedPieces(a) + NamedPieces(b)
    decreases |a|
  {
    if |a| == 0 {
      assert a + b == b;
    } else {
      assert (a + b)[1..] == a[1..] + b;
      NamedPiecesConcat(a[1..], b);
    }
  }

  /** The pieces of `dir/last` are those of `dir` and then `last`. */
  lemma NamedPiecesOfChild(dir: string, last: string)
    requires '/' !in last
    ensures NamedPieces(Text.Split(dir + "/" + last, '/'))
            == NamedPieces(Text.Split(dir, '/')) + NamedPieces([last])
  {
    assert dir + "/" + last == dir + ['/'] + last;
    Text.SplitConcat(dir, '/', last);
    Text.SplitWithoutSeparator(last, '/');
    NamedPiecesConcat(Text.Split(dir, '/'), [last]);
  }

  /** A trailing '/' does not change the file name. */
  lemma TrailingSlashKeepsFileName(path: string)
    ensures FileName(path + "/") == FileName(path)
  {
    NamedPiecesOfChild(path, "");
    assert path + "/" + "" == path + "/";
    assert NamedPieces([""]) == [] by { assert [""][1..] == []; }
    var pre := NamedPieces(Text.Split(path, '/'));
    assert NamedPieces(Text.Split(path + "/", '/')) == pre + [];
    assert pre + [] == pre;
  }

  /** The file name of `dir/name` is `name` for a plain name. */
  lemma FileNameOfChild(dir: string, name: string)
    requires IsNormalComponent(name)
    ensures FileName(dir + "/" + name) == Some(name)
  {
    NamedPiecesOfChild(dir, name);
    assert NamedPieces([name]) == [name] by { assert [name][1..] == []; }
    var names := NamedPieces(Text.Split(dir, '/')) + [name];
    assert NamedPieces(Text.Split(dir + "/" + name, '/')) == names;
    assert names[|names| - 1] == name;
  }

  /** A path ending in ".." has no file name. */
  lemma ParentRefHasNoFileName(dir: string)
    ensures FileName(dir + "/..") == None
  {
    var up := "..";
    NamedPiecesOfChild(dir, up);
    assert dir + "/.." == dir + "/" + up;
    assert NamedPieces([up]) == [up] by { assert [up][1..] == []; }
    var names := NamedPieces(Text.Split(dir, '/')) + [up];
    assert names[|names| - 1] == up;
  }

  /** The root has no file name. */
  lemma RootHasNoFileName()
    ensures FileName("/") == None
  {
    NamedPiecesOfChild("", "");
    assert "" + "/" + "" == "/";
    assert Text.Split("", '/') == [""];
    assert NamedPieces([""]) == [] + NamedPieces([]);
  }

  // ---------------------------------------------------------------------------
  // Operands

  datatype LocalOperand = LocalOperand(raw: string, explicitDir: bool)

  datatype RemoteOperand = RemoteOperand(raw: string, host: Option<string>, normalized: string, explicitDir: bool)

  datatype Operand = Local(local: LocalOperand) | Remote(remote: RemoteOperand)

  function Raw(op: Operand): string {
    match op
    case Local(l) => l.raw
    case Remote(r) => r.raw
  }

  /** `LocalOperand::basename`. */
  function Basename(op: LocalOperand): (r: Result<string, ScpError>)
    ensures r.Ok? <==> FileName(op.raw).Some?
    ensures r.Ok? ==> IsNormalComponent(r.value)
    ensures r.Err? ==> r.error == NoFileName(op.raw)
  {
    match FileName(op.raw)
    case Some(name) => Ok(name)
    case None => Err(NoFileName(op.raw))
  }

  /** `parse_operand`: remote exactly when a colon lies outside brackets; the
      fragment after it gives the normalised path and the directory marker, the
      text before it the host. A local operand is a directory by marker when it
      ends in '/'. */
  function ParseOperand(raw: string): (op: Operand)
    ensures Raw(op) == raw
    ensures op.Local? <==> forall i :: 0 <= i < |raw| ==> !IsSplitColon(raw, i)
    ensures op.Local? ==> (op.local.explicitDir <==> Text.EndsWith(raw, '/'))
    ensures op.Remote? ==> exists k ::
      && IsSplitColon(raw, k)
      && (forall j :: 0 <= j < k ==> !IsSplitColon(raw, j))
      && op.remote.host == HostOf(raw[..k])
      && op.remote.normalized == NormalizeRemotePath(raw[k + 1..])
      && (op.remote.explicitDir <==> raw[k + 1..] == [] || Text.EndsWith(raw[k + 1..], '/'))
  {
    match SplitRemoteSpec(raw)
    case Some((target, fragment)) =>
      var k := |target|;
      assert target == raw[..k] && fragment == raw[k + 1..];
      assert IsSplitColon(raw, k);
      Remote(RemoteOperand(raw, HostOf(target), NormalizeRemotePath(fragment),
                           Text.EndsWith(fragment, '/') || fragment == []))
    case None => Local(LocalOperand(raw, Text.EndsWith(raw, '/')))
  }

  /** No parsed host holds an '@', so the "@remote" alias in
      `ensure_host_alignment` can never match. */
  lemma ParsedHostHasNoAt(raw: string)
    ensures ParseOperand(raw).Remote? && ParseOperand(raw).remote.host.Some? ==>
      '@' !in ParseOperand(raw).remote.host.value
  {
  }

  /** Every operand in order. */
  function ParseAll(values: seq<string>): (r: seq<Operand>)
    ensures |r| == |values|
    ensures forall i :: 0 <= i < |values| ==> r[i] == ParseOperand(values[i])
    decreases |values|
  {
    if |values| == 0 then [] else [ParseOperand(values[0])] + ParseAll(values[1..])
  }

  /** `parse_operands`: at least two values; the last is the destination and
      the others are the sources, in order. */
  function ParseOperands(values: seq<string>): (r: Result<(seq<Operand>, Operand), ScpError>)
    ensures r.Err? <==> |values| < 2
    ensures r.Err? ==> r.error == TooFewOperands
    ensures r.Ok? ==>
      && |r.value.0| == |values| - 1
      && (forall i :: 0 <= i < |values| - 1 ==> r.value.0[i] == ParseOperand(values[i]))
      && r.value.1 == ParseOperand(values[|values| - 1])
  {
    if |values| < 2 then Err(TooFewOperands)
    else Ok((ParseAll(values[..|values| - 1]), ParseOperand(values[|values| - 1])))
  }

  // ---------------------------------------------------------------------------
  // `determine_transfer_plan` and `ensure_host_alignment`

  datatype TransferPlan =
    | Upload(locals: seq<LocalOperand>, remoteDestination: RemoteOperand)
    | Download(remotes: seq<RemoteOperand>, localDestination: LocalOperand)

  function SourceCount(plan: TransferPlan): nat {
    match plan
    case Upload(locals, _) => |locals|
    case Download(remotes, _) => |remotes|
  }

  /** The first operand of the given side (remote or local), if any. */
  function FirstOfSide(ops: seq<Operand>, remote: bool): (r: Option<nat>)
    ensures r.None? <==> forall i :: 0 <= i < |ops| ==> ops[i].Remote? != remote
    ensures r.Some? ==> r.value < |ops| && ops[r.value].Remote? == remote
    ensures r.Some? ==> forall j :: 0 <= j < r.value ==> ops[j].Remote? != remote
    decreases |ops|
  {
    if |ops| == 0 then None
    else if ops[0].Remote? == remote then Some(0)
    else
      match FirstOfSide(ops[1..], remote)
      case None => None
      case Some(k) => Some(k + 1)
  }

  function LocalsOf(ops: seq<Operand>): (r: seq<LocalOperand>)
    requires forall i :: 0 <= i < |ops| ==> ops[i].Local?
    ensures |r| == |ops| && forall i :: 0 <= i < |ops| ==> ops[i] == Local(r[i])
    decreases |ops|
  {
    if |ops| == 0 then [] else [ops[0].local] + LocalsOf(ops[1..])
  }

  function RemotesOf(ops: seq<Operand>): (r: seq<RemoteOperand>)
    requires forall i :: 0 <= i < |ops| ==> ops[i].Remote?
    ensures |r| == |ops| && forall i :: 0 <= i < |ops| ==> ops[i] == Remote(r[i])
    decreases |ops|
  {
    if |ops| == 0 then [] else [ops[0].remote] + RemotesOf(ops[1..])
  }

  /** `determine_transfer_plan`: a remote destination takes only local
      sources (an upload), a local destination only remote ones (a download);
      the first source on the wrong side is reported. */
  function DetermineTransferPlan(sources: seq<Operand>, destination: Operand): (r: Result<TransferPlan, ScpError>)
    ensures |sources| == 0 ==> r == Err(NoSources)
    ensures |sources| > 0 && destination.Remote? ==>
      && (r.Ok? <==> forall i :: 0 <= i < |sources| ==> sources[i].Local?)
      && (r.Ok? ==> r.value.Upload? && r.value.remoteDestination == destination.remote
                    && |r.value.locals| == |sources|
                    && forall i :: 0 <= i < |sources| ==> sources[i] == Local(r.value.locals[i]))
      && (r.Err? ==> exists i ::
            && 0 <= i < |sources| && sources[i].Remote?
            && (forall j :: 0 <= j < i ==> sources[j].Local?)
            && r.error == RemoteSourceToRemote(sources[i].remote.raw))
    ensures |sources| > 0 && destination.Local? ==>
      && (r.Ok? <==> forall i :: 0 <= i < |sources| ==> sources[i].Remote?)
      && (r.Ok? ==> r.value.Download? && r.value.localDestination == destination.local
                    && |r.value.remotes| == |sources|
                    && forall i :: 0 <= i < |sources| ==> sources[i] == Remote(r.value.remotes[i]))
      && (r.Err? ==> exists i ::
            && 0 <= i < |sources| && sources[i].Local?
            && (forall j :: 0 <= j < i ==> sources[j].Remote?)
            && r.error == LocalSourceToLocal(sources[i].local.raw, destination.local.raw))
  {
    if |sources| == 0 then Err(NoSources)
    else
      match destination
      case Remote(dest) =>
        (match FirstOfSide(sources, true)
         case Some(k) => Err(RemoteSourceToRemote(sources[k].remote.raw))
         case None => Ok(Upload(LocalsOf(sources), dest)))
      case Local(dest) =>
        (match FirstOfSide(sources, false)
         case Some(k) => Err(LocalSourceToLocal(sources[k].local.raw, dest.raw))
         case None => Ok(Download(RemotesOf(sources), dest)))
  }

  /** A plan carries every source. */
  lemma PlanKeepsSources(sources: seq<Operand>, destination: Operand)
    ensures DetermineTransferPlan(sources, destination).Ok? ==>
      SourceCount(DetermineTransferPlan(sources, destination).value) == |sources|
  {
  }

  /** `ensure_host_alignment`: whether a warning is logged. It never fails:
      the "remote" alias and a host equal to the endpoint's up to ASCII case
      are quiet, and an endpoint without a host checks nothing. */
  function HostWarning(expected: Option<string>, op: RemoteOperand): (warns: bool)
    ensures warns ==> expected.Some? && op.host.Some?
    ensures op.host == Some("remote") ==> !warns
    ensures expected.Some? && op.host.Some? && Text.EqIgnoreAsciiCase(op.host.value, expected.value) ==> !warns
    ensures (&& expected.Some? && op.host.Some? && !Text.EqIgnoreAsciiCase(op.host.value, expected.value)
             && op.host.value != "remote" && op.host.value != "@remote") ==> warns
  {
    match expected
    case None => false
    case Some(exp) =>
      match op.host
      case None => false
      case Some(host) =>
        if host == "remote" || host == "@remote" then false
        else !Text.EqIgnoreAsciiCase(host, exp)
  }

  // ---------------------------------------------------------------------------
  // Remote destination checks

  /** The outcome of a step of the transfer and the requests it issued. */
  datatype Step<T> = Step(result: Result<T, ScpError>, requests: seq<FsService.Request>)

  /** The request that reads a path's metadata. */
  function MetadataRequest(path: string): FsService.Request {
    FsService.GetContents(path, FsService.ContentFlag(false))
  }

  /** `fetch_remote_entry`: a 404 reply means the path does not exist. */
  function FetchRemoteEntry(srv: FsService.Server, past: seq<FsService.Request>, path: string): (x: Step<Option<FsService.Entry>>)
    ensures x.requests == [MetadataRequest(path)]
    ensures var reply := srv.contents(past + x.requests);
      && (x.result == Ok(None) <==> reply.Err? && reply.error.Api? && reply.error.status == 404)
      && (reply.Ok? ==> x.result == Ok(Some(FsService.EntryFrom(reply.value))))
      && (x.result.Err? ==> reply.Err? && x.result.error == ServiceFailed(FsService.Client(reply.error)))
  {
    var m := FsService.Metadata(srv, past, path);
    match m.result
    case Ok(entry) => Step(Ok(Some(entry)), m.requests)
    case Err(e) =>
      if e.Client? && e.error.Api? && e.error.status == 404 then Step(Ok(None), m.requests)
      else Step(Err(ServiceFailed(e)), m.requests)
  }

  /** `ensure_remote_directory`: the root needs nothing; an existing
      directory is accepted, any other existing entry refused, and a missing
      path created. Nothing is created over an existing entry. */
  function EnsureRemoteDirectory(srv: FsService.Server, past: seq<FsService.Request>, path: string): (x: Step<()>)
    ensures path == "/" ==> x == Step(Ok(()), [])
    ensures path != "/" ==> 1 <= |x.requests| <= 2 && x.requests[0] == MetadataRequest(path)
    ensures path != "/" ==> var f := FetchRemoteEntry(srv, past, path);
      && (|x.requests| == 2 <==> f.result == Ok(None))
      && (|x.requests| == 2 ==> x.requests[1..] == FsService.Mkdir(srv, past + f.requests, path).requests)
      && (f.result.Ok? && f.result.value.Some? ==>
            (x.result.Ok? <==> FsService.IsDirectory(f.result.value.value.kind)))
      && (x.result.Err? && f.result.Ok? && f.result.value.Some? ==> x.result.error == RemoteNotDirectory(path))
  {
    if path == "/" then Step(Ok(()), [])
    else
      var f := FetchRemoteEntry(srv, past, path);
      match f.result
      case Err(e) => Step(Err(e), f.requests)
      case Ok(Some(entry)) =>
        if FsService.IsDirectory(entry.kind) then Step(Ok(()), f.requests)
        else Step(Err(RemoteNotDirectory(path)), f.requests)
      case Ok(None) =>
        var m := FsService.Mkdir(srv, past + f.requests, path);
        Step(if m.result.Ok? then Ok(()) else Err(ServiceFailed(m.result.error)), f.requests + m.requests)
  }

  /** Whether an upload's destination is a directory, given what the server
      holds there: an existing directory is one; an existing non-directory is
      not, and is refused when marked as a directory or given several sources;
      a missing destination is one when marked or given several sources. */
  function UploadDestinationIsDir(dest: RemoteOperand, entry: Option<FsService.Entry>, count: nat): (r: Result<bool, ScpError>)
    ensures entry.None? ==> r == Ok(dest.explicitDir || count > 1)
    ensures entry.Some? ==> (r == Ok(true) <==> FsService.IsDirectory(entry.value.kind))
    ensures r.Err? <==> entry.Some? && !FsService.IsDirectory(entry.value.kind) && (dest.explicitDir || count > 1)
    ensures r.Err? ==> r.error == (if dest.explicitDir then DestinationNotDirectory(dest.raw) else MultipleNeedDirectory(dest.raw))
    ensures r.Ok? && count > 1 ==> r.value
  {
    var isDir :=
      match entry
      case Some(e) => FsService.IsDirectory(e.kind)
      case None => dest.explicitDir || count > 1;
    if entry.Some? && !isDir && dest.explicitDir then Err(DestinationNotDirectory(dest.raw))
    else if count > 1 && !isDir then Err(MultipleNeedDirectory(dest.raw))
    else Ok(isDir)
  }

  /** The part of `upload_paths` before any file is sent: reject an empty
      source list, look the destination up, decide whether it is a directory
      and create it when it is meant to be one and is missing. */
  function PrepareUpload(srv: FsService.Server, past: seq<FsService.Request>, dest: RemoteOperand, count: nat): (x: Step<bool>)
    ensures count == 0 ==> x == Step(Err(NoLocalSources), [])
    ensures count > 0 ==> |x.requests| >= 1 && x.requests[0] == MetadataRequest(dest.normalized)
    ensures count > 0 ==> var f := FetchRemoteEntry(srv, past, dest.normalized);
      && (f.result.Err? ==> x == Step(f.result.PropagateFailure(), f.requests))
      && (f.result.Ok? && f.result.value.Some? ==>
            x == Step(UploadDestinationIsDir(dest, f.result.value, count), f.requests))
      && (f.result.Ok? && f.result.value.None? ==>
            (x.result.Ok? ==> x.result.value == (dest.explicitDir || count > 1)))
    ensures count > 0 ==> var f := FetchRemoteEntry(srv, past, dest.normalized);
      f.result == Ok(None) ==>
        if dest.explicitDir || count > 1 then
          var d := EnsureRemoteDirectory(srv, past + f.requests, dest.normalized);
          && x.requests == f.requests + d.requests
          && (x.result.Ok? <==> d.result.Ok?)
          && (x.result.Ok? ==> x.result.value)
          && (x.result.Err? ==> x.result.error == d.result.error)
        else x == Step(Ok(false), f.requests)
    ensures x.result.Ok? && count > 1 ==> x.result.value
  {
    if count == 0 then Step(Err(NoLocalSources), [])
    else
      var f := FetchRemoteEntry(srv, past, dest.normalized);
      match f.result
      case Err(e) => Step(Err(e), f.requests)
      case Ok(entry) =>
        match UploadDestinationIsDir(dest, entry, count)
        case Err(e) => Step(Err(e), f.requests)
        case Ok(isDir) =>
          if isDir && entry.None? then
            var d := EnsureRemoteDirectory(srv, past + f.requests, dest.normalized);
            Step(if d.result.Ok? then Ok(true) else Err(d.result.error), f.requests + d.requests)
          else Step(Ok(isDir), f.requests)
  }

  // ---------------------------------------------------------------------------
  // Per-source decisions

  datatype LocalKind = RegularFile | LocalDirectory | OtherKind

  /** What `fs::metadata` reports for a local path. */
  datatype LocalStat = Exists(kind: LocalKind) | NotFound | Unreadable

  /** The remote path a local source is sent to: inside a directory
      destination under the source's file name, otherwise the destination. */
  function UploadTarget(dest: RemoteOperand, isDir: bool, source: LocalOperand): (r: Result<string, ScpError>)
    ensures !isDir ==> r == Ok(dest.normalized)
    ensures isDir ==> (r.Ok? <==> FileName(source.raw).Some?)
    ensures isDir && r.Err? ==> r.error == NoFileName(source.raw)
    ensures isDir && r.Ok? ==> r.value == JoinRemotePaths(dest.normalized, FileName(source.raw).value)
  {
    if isDir then
      match Basename(source)
      case Ok(name) => Ok(JoinRemotePaths(dest.normalized, name))
      case Err(e) => Err(e)
    else Ok(dest.normalized)
  }

  /** For a destination parsed from a remote operand, a directory target is
      the destination's normalised path with one more component. */
  lemma UploadTargetIsChild(fragment: string, dest: RemoteOperand, source: LocalOperand)
    requires dest.normalized == NormalizeRemotePath(fragment)
    ensures var r := UploadTarget(dest, true, source);
      r.Ok? ==> Components(r.value) == Components(fragment) + [FileName(source.raw).value]
                && NormalizeRemotePath(r.value) == r.value
  {
    if FileName(source.raw).Some? {
      JoinKeepsNormalForm(fragment, FileName(source.raw).value);
    }
  }

  datatype UploadAction = SendFile(local: string, remote: string) | SendTree(local: string, remote: string)

  /** One source of the loop in `upload_paths`: read its metadata, pick its
      target, then send a file, or a directory when recursion is on. */
  function UploadStep(source: LocalOperand, stat: LocalStat, dest: RemoteOperand, isDir: bool, recursive: bool): (r: Result<UploadAction, ScpError>)
    ensures !stat.Exists? ==> r == Err(LocalMetadata(source.raw))
    ensures r.Ok? ==> stat.Exists? && UploadTarget(dest, isDir, source) == Ok(r.value.remote) && r.value.local == source.raw
    ensures r.Ok? ==> (r.value.SendTree? <==> stat.kind == LocalDirectory)
    ensures stat.Exists? && UploadTarget(dest, isDir, source).Ok? ==>
      && (stat.kind == RegularFile ==> r.Ok?)
      && (stat.kind == LocalDirectory ==> (r.Ok? <==> recursive))
      && (stat.kind == LocalDirectory && !recursive ==> r == Err(DirectoryNeedsRecursive(source.raw)))
      && (stat.kind == OtherKind ==> r == Err(NeitherFileNorDirectory(source.raw)))
  {
    match stat
    case NotFound => Err(LocalMetadata(source.raw))
    case Unreadable => Err(LocalMetadata(source.raw))
    case Exists(kind) =>
      match UploadTarget(dest, isDir, source)
      case Err(e) => Err(e)
      case Ok(target) =>
        match kind
        case LocalDirectory =>
          if recursive then Ok(SendTree(source.raw, target)) else Err(DirectoryNeedsRecursive(source.raw))
        case RegularFile => Ok(SendFile(source.raw, target))
        case OtherKind => Err(NeitherFileNorDirectory(source.raw))
  }

  /** What `download_paths` decides about its local destination. */
  datatype LocalChoice = LocalChoice(isDir: bool, create: bool)

  /** The local destination of a download: an unreadable one stops the
      transfer; an existing non-directory is refused when marked as a
      directory or given several sources; a missing one is created as a
      directory when marked or given several sources. */
  function DownloadDestination(dest: LocalOperand, stat: LocalStat, count: nat): (r: Result<LocalChoice, ScpError>)
    ensures count == 0 ==> r == Err(NoRemoteSources)
    ensures count > 0 ==>
      (r.Err? <==> stat.Unreadable? || (stat.Exists? && stat.kind != LocalDirectory && (dest.explicitDir || count > 1)))
    ensures count > 0 && stat.Unreadable? ==> r == Err(LocalMetadata(dest.raw))
    ensures count > 0 && stat.Exists? && stat.kind != LocalDirectory && dest.explicitDir ==>
      r == Err(DestinationNotDirectory(dest.raw))
    ensures r.Ok? ==> (r.value.create <==> stat.NotFound? && (dest.explicitDir || count > 1))
    ensures r.Ok? ==> (r.value.isDir <==> stat == Exists(LocalDirectory) || r.value.create)
    ensures r.Ok? && count > 1 ==> r.value.isDir
  {
    if count == 0 then Err(NoRemoteSources)
    else
      match stat
      case Unreadable => Err(LocalMetadata(dest.raw))
      case Exists(kind) =>
        if dest.explicitDir && kind != LocalDirectory then Err(DestinationNotDirectory(dest.raw))
        else if count > 1 && kind != LocalDirectory then Err(MultipleNeedDirectory(dest.raw))
        else Ok(LocalChoice(kind == LocalDirectory, false))
      case NotFound =>
        var create := dest.explicitDir || count > 1;
        if count > 1 && !create then Err(MultipleNeedDirectory(dest.raw))
        else Ok(LocalChoice(create, create))
  }

  /** Where a remote source lands locally: the destination, or the entry's
      name inside it when the destination is a directory. */
  datatype LocalTarget = LocalTarget(base: string, child: Option<string>)

  datatype DownloadAction = FetchFile(remote: string, local: LocalTarget) | FetchTree(remote: string, local: LocalTarget)

  /** One source of the loop in `download_paths`, given what the server holds
      at its path: it must exist, and a directory needs recursion. */
  function DownloadStep(source: RemoteOperand, entry: Option<FsService.Entry>, dest: LocalOperand, isDir: bool, recursive: bool): (r: Result<DownloadAction, ScpError>)
    ensures entry.None? ==> r == Err(RemotePathMissing(source.raw))
    ensures entry.Some? ==>
      (r.Err? <==> FsService.IsDirectory(entry.value.kind) && !recursive)
    ensures r.Err? && entry.Some? ==> r.error == DirectoryNeedsRecursive(source.raw)
    ensures r.Ok? ==>
      && entry.Some? && r.value.remote == source.normalized
      && (r.value.FetchTree? <==> FsService.IsDirectory(entry.value.kind))
      && r.value.local.base == dest.raw
      && (r.value.local.child == if isDir then Some(entry.value.name) else None)
  {
    match entry
    case None => Err(RemotePathMissing(source.raw))
    case Some(e) =>
      var target := LocalTarget(dest.raw, if isDir then Some(e.name) else None);
      if FsService.IsDirectory(e.kind) then
        if recursive then Ok(FetchTree(source.normalized, target)) else Err(DirectoryNeedsRecursive(source.raw))
      else Ok(FetchFile(source.normalized, target))
  }
}
