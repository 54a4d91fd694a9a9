/**
SafeRedirect (api/shared/redirect.go:74-103), judged by where a browser goes: the basic URL
parser of section 4.4 of the WHATWG URL Standard, run against an https base.
*/
module Redirect {
  // ---------------------------------------------------------------------------
  // The browser's side: which origin the parser settles on

  /** The base's own origin, some other authority text under a scheme, or a URL with no web host. */
  datatype Destination = SameOrigin | Authority(scheme: string, text: string) | NoHost(scheme: string) | FileUrl

  const BASE_SCHEME := "https"

  predicate IsAlpha(c: char) { 'a' <= c <= 'z' || 'A' <= c <= 'Z' }

  predicate IsSchemeChar(c: char) { IsAlpha(c) || '0' <= c <= '9' || c == '+' || c == '-' || c == '.' }

  function Lower(s: string): string {
    if s == "" then "" else [if 'A' <= s[0] <= 'Z' then s[0] - 'A' + 'a' else s[0]] + Lower(s[1..])
  }

  predicate IsSpecial(scheme: string) {
    scheme in ["ftp", "file", "http", "https", "ws", "wss"]
  }

  predicate IsC0OrSpace(c: char) { c <= ' ' }

  predicate IsTabOrNewline(c: char) { c == '\t' || c == '\n' || c == '\r' }

  /** Leading and trailing C0 controls and spaces go. */
  function Strip(s: string): string
    decreases |s|
  {
    if s == "" then ""
    else if IsC0OrSpace(s[0]) then Strip(s[1..])
    else if IsC0OrSpace(s[|s| - 1]) then Strip(s[..|s| - 1])
    else s
  }

  /** Tabs and newlines go wherever they stand. */
  function DropTabs(s: string): string {
    if s == "" then ""
    else if IsTabOrNewline(s[0]) then DropTabs(s[1..])
    else [s[0]] + DropTabs(s[1..])
  }

  function Clean(s: string): string {
    DropTabs(Strip(s))
  }

  /** The length of the scheme name, or None when the text does not begin with one and a colon. */
  function SchemeLength(u: string, i: nat): int
    requires i <= |u|
    decreases |u| - i
  {
    if i == |u| then -1
    else if u[i] == ':' then (if i == 0 then -1 else i)
    else if (if i == 0 then IsAlpha(u[i]) else IsSchemeChar(u[i])) then SchemeLength(u, i + 1)
    else -1
  }

  predicate IsSlash(c: char) { c == '/' || c == '\\' }

  function SkipSlashes(u: string): string {
    if u != "" && IsSlash(u[0]) then SkipSlashes(u[1..]) else u
  }

  /** The authority state: everything up to the character that ends it. */
  function AuthorityText(u: string, special: bool): string {
    if u == "" || u[0] == '/' || u[0] == '?' || u[0] == '#' || (special && u[0] == '\\') then ""
    else [u[0]] + AuthorityText(u[1..], special)
  }

  /** The relative and relative slash states, under the special base scheme. */
  function Relative(u: string): Destination {
    if |u| >= 2 && IsSlash(u[0]) && IsSlash(u[1])
    then Authority(BASE_SCHEME, AuthorityText(SkipSlashes(u), true))
    else SameOrigin
  }

  /** The states after a scheme and its colon have been read. */
  function AfterScheme(scheme: string, rest: string): Destination {
    if scheme == "file" then FileUrl
    else if scheme == BASE_SCHEME && !(|rest| >= 2 && rest[0] == '/' && rest[1] == '/') then Relative(rest)
    else if IsSpecial(scheme) then Authority(scheme, AuthorityText(SkipSlashes(rest), true))
    else if |rest| >= 2 && rest[0] == '/' && rest[1] == '/' then Authority(scheme, AuthorityText(rest[2..], false))
    else NoHost(scheme)
  }

  function Resolve(input: string): Destination {
    var u := Clean(input);
    var n := SchemeLength(u, 0);
    if 0 < n < |u| then AfterScheme(Lower(u[..n]), u[n + 1..]) else Relative(u)
  }

  // ---------------------------------------------------------------------------
  // The server's side

  predicate IsControl(c: char) { c < ' ' || c == '\U{7F}' }

  /** What precedes the first '?' or '#'. */
  function PathPart(path: string): string {
    if path == "" || path[0] == '?' || path[0] == '#' then "" else [path[0]] + PathPart(path[1..])
  }

  /** `parses` is the verdict of the URL library: well formed, with neither scheme nor host. */
  predicate Accepts(path: string, parses: bool) {
    && path != ""
    && (forall i :: 0 <= i < |path| ==> !IsControl(path[i]))
    && '\\' !in PathPart(path)
    && !("//" <= path)
    && parses
    && "/" <= path
  }

  method SafeRedirect(path: string, fallback: string, parses: string -> bool) returns (r: string)
    ensures r == if Accepts(path, parses(path)) then path else fallback
  {
    if path == "" {
      return fallback;
    }
    for i := 0 to |path|
      invariant forall k :: 0 <= k < i ==> !IsControl(path[k])
    {
      if path[i] < ' ' || path[i] == '\U{7F}' {
        return fallback;
      }
    }
    if '\\' in PathPart(path) {
      return fallback;
    }
    if "//" <= path {
      return fallback;
    }
    if !parses(path) {
      return fallback;
    }
    if !("/" <= path) {
      return fallback;
    }
    return path;
  }

  // ---------------------------------------------------------------------------
  // What is accepted

  /** Position `i` lies in the path proper, before any '?' or '#'. */
  predicate BeforeQuery(path: string, i: nat)
    requires i <= |path|
  {
    forall j :: 0 <= j < i ==> path[j] != '?' && path[j] != '#'
  }

  lemma {:induction false} BackslashInPath(path: string)
    ensures '\\' in PathPart(path) <==> exists i :: 0 <= i < |path| && path[i] == '\\' && BeforeQuery(path, i)
  {
    if path != "" && path[0] != '?' && path[0] != '#' {
      var rest := path[1..];
      BackslashInPath(rest);
      if i :| 0 <= i < |rest| && rest[i] == '\\' && BeforeQuery(rest, i) {
        assert BeforeQuery(path, i + 1) by {
          forall j | 0 <= j < i + 1 ensures path[j] != '?' && path[j] != '#' { assert j > 0 ==> path[j] == rest[j - 1]; }
        }
        assert path[i + 1] == '\\';
      }
      if i :| 0 <= i < |path| && path[i] == '\\' && BeforeQuery(path, i) {
        if i > 0 {
          assert rest[i - 1] == '\\';
          assert BeforeQuery(rest, i - 1) by {
            forall j | 0 <= j < i - 1 ensures rest[j] != '?' && rest[j] != '#' { assert rest[j] == path[j + 1]; }
          }
        }
      }
    }
  }

  /**
  What SafeRedirect accepts of what the URL library accepts, character by character: a path that
  begins with one slash, has no control character, and no backslash before a '?' or '#'.
  */
  lemma AcceptsExact(path: string)
    ensures !Accepts(path, false)
    ensures Accepts(path, true) <==>
              && |path| >= 1 && path[0] == '/' && !(|path| >= 2 && path[1] == '/')
              && (forall i :: 0 <= i < |path| ==> path[i] as int >= 32 && path[i] as int != 127)
              && (forall i :: 0 <= i < |path| && path[i] == '\\' ==> !BeforeQuery(path, i))
  {
    BackslashInPath(path);
  }

  // ---------------------------------------------------------------------------
  // Accepted targets stay on the origin

  lemma {:induction false} StripRooted(s: string)
    requires s != "" && s[0] == '/'
    ensures Strip(s) != "" && Strip(s) <= s
    ensures |s| >= 2 && !IsC0OrSpace(s[1]) ==> |Strip(s)| >= 2
    decreases |s|
  {
    if IsC0OrSpace(s[|s| - 1]) { StripRooted(s[..|s| - 1]); }
  }

  lemma {:induction false} DropTabsNothing(s: string)
    requires forall i :: 0 <= i < |s| ==> !IsTabOrNewline(s[i])
    ensures DropTabs(s) == s
  {
    if s != "" { DropTabsNothing(s[1..]); }
  }

  /** For a rooted text without control characters the second character alone decides. */
  lemma RootedResolves(path: string)
    requires path != "" && path[0] == '/' && forall i :: 0 <= i < |path| ==> !IsControl(path[i])
    ensures Resolve(path) == SameOrigin <==> !(|path| >= 2 && IsSlash(path[1]))
  {
    StripRooted(path);
    var u := Strip(path);
    assert forall i :: 0 <= i < |u| ==> u[i] == path[i] && !IsControl(u[i]);
    DropTabsNothing(u);
    assert Clean(path) == u && SchemeLength(u, 0) == -1;
  }

  lemma SecondCharacter(path: string)
    requires |path| >= 2 && path[0] == '/'
    ensures path[1] == '/' ==> "//" <= path
    ensures path[1] == '\\' ==> '\\' in PathPart(path)
  {}

  /**
  Whatever SafeRedirect lets through, the browser's parser resolves to the base's own scheme and
  host, for every input and whatever the URL library makes of it.
  */
  lemma AcceptedStaysOnOrigin(path: string, parses: bool)
    requires Accepts(path, parses)
    ensures Resolve(path) == SameOrigin
  {
    if |path| >= 2 { SecondCharacter(path); }
    RootedResolves(path);
  }

  // ---------------------------------------------------------------------------
  // No layer is redundant

  /** A host text that neither ends the authority nor is touched by the cleaning. */
  predicate PlainHost(host: string) {
    host != "" && forall i :: 0 <= i < |host| ==> host[i] > ' ' && !IsSlash(host[i]) && host[i] != '?' && host[i] != '#'
  }

  lemma {:induction false} AuthorityIsHost(host: string)
    requires forall i :: 0 <= i < |host| ==> !IsSlash(host[i]) && host[i] != '?' && host[i] != '#'
    ensures AuthorityText(host, true) == host
  {
    if host != "" { AuthorityIsHost(host[1..]); }
  }

  lemma TwoSlashesName(u: string, host: string)
    requires PlainHost(host) && |u| >= 2 && u[0] == '/' && IsSlash(u[1]) && u[2..] == host
    ensures Relative(u) == Authority(BASE_SCHEME, host) && SchemeLength(u, 0) == -1
  {
    AuthorityIsHost(host);
    assert u[1..][1..] == host;
    assert SkipSlashes(host) == host;
    assert SkipSlashes(u[1..]) == host && SkipSlashes(u) == host;
  }

  /**
  Without a layer the input would choose the host: two slashes of either kind, and a slash, a tab
  and a slash, send the browser to exactly the host that follows them, whatever host that is.
  */
  lemma EachLayerNeeded(host: string)
    requires PlainHost(host)
    ensures Resolve("//" + host) == Authority(BASE_SCHEME, host)
    ensures Resolve("/\\" + host) == Authority(BASE_SCHEME, host)
    ensures Resolve("/\t/" + host) == Authority(BASE_SCHEME, host)
  {
    var a, b, c := "//" + host, "/\\" + host, "/\t/" + host;
    assert host[|host| - 1] > ' ' && a[|a| - 1] == b[|b| - 1] == c[|c| - 1] == host[|host| - 1];
    assert Strip(a) == a && Strip(b) == b && Strip(c) == c;
    DropTabsNothing(a);
    DropTabsNothing(b);
    DropTabsNothing(c[2..]);
    assert c[1..][1..] == c[2..];
    assert DropTabs(c) == "/" + c[2..] == a;
    TwoSlashesName(a, host);
    TwoSlashesName(b, host);
  }
}
