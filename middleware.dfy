/** The route gate (middleware.ts): which requests are redirected to the
    login page or to the administration pages, and which paths the gate runs
    on at all. The session lookup is reduced to whether it found a user. */
module Middleware {
  import opened Base

  /** `NextResponse.next()` or `NextResponse.redirect(new URL(to, ...))`. */
  datatype Decision = Next | Redirect(to: string)

  const LoginPath := "/login"
  const AdminPath := "/admin"

  predicate IsAuthPage(path: string) {
    StartsWith(path, LoginPath)
  }

  predicate IsAdminPage(path: string) {
    StartsWith(path, AdminPath)
  }

  /** The gate's decision for one request. */
  function Decide(path: string, authenticated: bool): (r: Decision)
    ensures r == Redirect(LoginPath) <==> IsAdminPage(path) && !authenticated
    ensures r == Redirect(AdminPath) <==> IsAuthPage(path) && authenticated
    ensures r == Next <==> !(IsAdminPage(path) && !authenticated) && !(IsAuthPage(path) && authenticated)
  {
    if IsAdminPage(path) && !authenticated then Redirect(LoginPath)
    else if IsAuthPage(path) && authenticated then Redirect(AdminPath)
    else Next
  }

  /** The two prefixes differ at their second character, so no path is both
      an administration page and the login page. */
  lemma PrefixesDisjoint(path: string)
    ensures !(IsAdminPage(path) && IsAuthPage(path))
  {
    assert IsAdminPage(path) ==> path[..|AdminPath|][1] == 'a';
    assert IsAuthPage(path) ==> path[..|LoginPath|][1] == 'l';
  }

  /** Following a redirect with the session unchanged lets the request
      through: the gate never redirects twice in a row. */
  lemma NoRedirectLoop(path: string, authenticated: bool)
    requires Decide(path, authenticated).Redirect?
    ensures Decide(Decide(path, authenticated).to, authenticated) == Next
  {
    assert LoginPath[..|AdminPath|] != AdminPath;
    assert AdminPath[..|LoginPath|] != LoginPath;
  }

  /** The prefix tests are plain prefix checks: any path that merely begins
      with "/admin", such as "/administrator", is gated too. */
  lemma PrefixNotSegment()
    ensures Decide("/administrator", false) == Redirect(LoginPath)
    ensures Decide("/login-help", true) == Redirect(AdminPath)
  {
    assert "/administrator"[..|AdminPath|] == AdminPath;
    assert "/login-help"[..|LoginPath|] == LoginPath;
  }

  /** `s` begins with `f`, where `f` is a pattern in which '.' stands for
      any one character (a regular-expression wildcard). */
  predicate StartsWithPattern(s: string, f: string) {
    |f| <= |s| && forall i :: 0 <= i < |f| ==> f[i] == '.' || s[i] == f[i]
  }

  /** The alternatives of the negative lookahead; "favicon.ico" keeps its
      unescaped dot. */
  const Excluded: seq<string> := ["api", "_next/static", "_next/image", "favicon.ico"]

  /** The anchored pattern `/((?!api|_next/static|_next/image|favicon.ico).*)`:
      the path starts with "/" and what follows does not begin with any
      excluded alternative. */
  predicate Matched(path: string) {
    |path| >= 1 && path[0] == '/'
    && forall k :: 0 <= k < |Excluded| ==> !StartsWithPattern(path[1..], Excluded[k])
  }

  /** The gate's effect on a request: unmatched paths are never gated. */
  function Gate(path: string, authenticated: bool): (r: Decision)
    ensures !Matched(path) ==> r == Next
    ensures Matched(path) ==> r == Decide(path, authenticated)
  {
    if Matched(path) then Decide(path, authenticated) else Next
  }

  /** API routes and static assets bypass the gate; they answer for
      themselves (the administrative API handlers check the session
      themselves). */
  lemma ApiNotGated(rest: string, authenticated: bool)
    ensures Gate("/api" + rest, authenticated) == Next
    ensures Gate("/_next/static" + rest, authenticated) == Next
    ensures Gate("/_next/image" + rest, authenticated) == Next
  {
    assert ("/api" + rest)[1..] == "api" + rest;
    assert StartsWithPattern("api" + rest, Excluded[0]);
    assert ("/_next/static" + rest)[1..] == "_next/static" + rest;
    assert StartsWithPattern("_next/static" + rest, Excluded[1]);
    assert ("/_next/image" + rest)[1..] == "_next/image" + rest;
    assert StartsWithPattern("_next/image" + rest, Excluded[2]);
  }

  /** The unescaped dot lets "favicon" + any character + "ico" through
      unmatched, not only "favicon.ico". */
  lemma FaviconWildcard(c: char, rest: string, authenticated: bool)
    ensures Gate("/favicon" + [c] + "ico" + rest, authenticated) == Next
  {
    var p := "/favicon" + [c] + "ico" + rest;
    assert p[1..][..11] == "favicon" + [c] + "ico";
    assert StartsWithPattern(p[1..], Excluded[3]);
  }

  /** Every administration page is matched, so a visitor without a session
      is always sent to the login page. */
  lemma AdminPagesGated(rest: string)
    ensures Gate(AdminPath + rest, false) == Redirect(LoginPath)
  {
    var p := AdminPath + rest;
    assert p[..|AdminPath|] == AdminPath;
    assert p[1..][0] == 'a' && p[1..][1] == 'd';
    assert "api"[1] == 'p' && "_next/static"[0] == '_' && "_next/image"[0] == '_';
    assert "favicon.ico"[0] == 'f';
  }

  /** Both redirect targets are themselves matched, so a redirected request
      is gated again, where NoRedirectLoop lets it through. */
  lemma TargetsMatched()
    ensures Matched(LoginPath) && Matched(AdminPath)
    ensures Gate(LoginPath, false) == Next && Gate(AdminPath, true) == Next
  {
    assert "login"[0] == 'l' && "admin"[1] == 'd';
    assert "api"[0] == 'a' && "api"[1] == 'p' && "_next/static"[0] == '_' && "_next/image"[0] == '_';
    assert "favicon.ico"[0] == 'f';
    assert LoginPath[1..] == "login" && AdminPath[1..] == "admin";
    assert LoginPath[..|AdminPath|] != AdminPath;
    assert AdminPath[..|LoginPath|] != LoginPath;
  }
}
