/**
 * The request guard (middleware.js): which paths it runs on, and for those
 * whether the request goes on or is redirected to the login page.
 */
module Middleware {
  import opened Records
  import opened Text

  datatype Decision = Next | Redirect(location: string)

  const PublicPaths: seq<string> := ["/", "/signup"]

  /**
   * `middleware`: API paths and the two public pages always go on; any other
   * path goes on only with a non-empty `user` cookie (`None`: no cookie).
   */
  function Guard(pathname: string, userCookie: Option<string>): (d: Decision)
    ensures d.Redirect? <==> !StartsWith(pathname, "/api/") && pathname !in PublicPaths && !Truthy(userCookie)
    ensures d.Redirect? ==> d.location == "/"
  {
    if StartsWith(pathname, "/api/") then Next
    else if pathname in PublicPaths then Next
    else if !Truthy(userCookie) then Redirect("/")
    else Next
  }

  /** The characters the regular-expression `.` does not match. */
  predicate IsLineTerminator(c: char)
  {
    c == '\n' || c == '\r' || c == '\U{2028}' || c == '\U{2029}'
  }

  /** The look-ahead `_next/static|_next/image|favicon.ico` at the start of `rest`. */
  predicate ExcludedPrefix(rest: string)
  {
    || StartsWith(rest, "_next/static")
    || StartsWith(rest, "_next/image")
    || (|rest| >= 11 && rest[..7] == "favicon" && !IsLineTerminator(rest[7]) && rest[8..11] == "ico")
  }

  /** `config.matcher`: `/((?!_next/static|_next/image|favicon.ico).*)` over the whole path. */
  predicate GuardRunsOn(pathname: string): (b: bool)
    ensures b ==> pathname != [] && pathname[0] == '/'
    ensures b ==> !StartsWith(pathname, "/_next/static") && !StartsWith(pathname, "/_next/image")
    ensures b ==> !StartsWith(pathname, "/favicon.ico")
    ensures pathname == "/" ==> b
  {
    SlashPrefix(pathname, "/_next/static");
    SlashPrefix(pathname, "/_next/image");
    SlashPrefix(pathname, "/favicon.ico");
    FaviconExcluded(pathname);
    && |pathname| >= 1 && pathname[0] == '/'
    && !ExcludedPrefix(pathname[1..])
    && forall i :: 1 <= i < |pathname| ==> !IsLineTerminator(pathname[i])
  }

  /** A path with a prefix starting at `/` continues, past the slash, with the rest of the prefix. */
  lemma SlashPrefix(s: string, prefix: string)
    requires |prefix| >= 1 && prefix[0] == '/'
    ensures StartsWith(s, prefix) ==> |s| >= 1 && StartsWith(s[1..], prefix[1..])
  {
  }

  /** The look-ahead excludes a path continuing with "favicon.ico" after its slash. */
  lemma FaviconExcluded(s: string)
    ensures StartsWith(s, "/favicon.ico") ==> |s| >= 1 && ExcludedPrefix(s[1..])
  {
    if StartsWith(s, "/favicon.ico") {
      var rest := s[1..];
      assert rest[..7] == "favicon" && rest[8..11] == "ico";
    }
  }

  /** What a request meets: the guard where the matcher selects it, otherwise nothing. */
  function Effective(pathname: string, userCookie: Option<string>): (d: Decision)
    ensures d.Redirect? <==> GuardRunsOn(pathname) && Guard(pathname, userCookie).Redirect?
  {
    if GuardRunsOn(pathname) then Guard(pathname, userCookie) else Next
  }

  /** Static assets, optimised images and the favicon are never redirected. */
  lemma AssetsNeverRedirected(rest: string, userCookie: Option<string>)
    ensures Effective("/_next/static" + rest, userCookie) == Next
    ensures Effective("/_next/image" + rest, userCookie) == Next
    ensures Effective("/favicon.ico" + rest, userCookie) == Next
  {
    AfterSlash("/_next/static", rest);
    AfterSlash("/_next/image", rest);
    AfterSlash("/favicon.ico", rest);
    var r3 := "favicon.ico" + rest;
    assert r3[..7] == r3[..11][..7] && r3[8..11] == r3[..11][8..11];
  }

  /** The part of `head + rest` after the leading slash starts with the rest of `head`. */
  lemma AfterSlash(head: string, rest: string)
    requires |head| >= 1 && head[0] == '/'
    ensures (head + rest)[1..] == head[1..] + rest
    ensures StartsWith(head[1..] + rest, head[1..])
  {
    assert (head[1..] + rest)[..|head| - 1] == head[1..];
  }

  /** A protected page without a cookie is sent to the login page, and with one it is served. */
  lemma DashboardNeedsCookie(userCookie: Option<string>)
    ensures Effective("/dashboard", userCookie) == if Truthy(userCookie) then Next else Redirect("/")
  {
    var p := "/dashboard";
    assert !ExcludedPrefix(p[1..]) by {
      assert p[1..][..5] == "dashb";
    }
    assert !StartsWith(p, "/api/") by {
      assert p[..5] != "/api/" by { assert p[1] == 'd'; }
    }
    assert p !in PublicPaths by {
      assert |p| != |PublicPaths[0]| && |p| != |PublicPaths[1]|;
    }
  }

  /**
   * The `.` in `favicon.ico` matches any character but a line terminator,
   * so `/favicon-ico` escapes the guard as well.
   */
  lemma FaviconDotIsWildcard(userCookie: Option<string>)
    ensures Effective("/favicon-ico", userCookie) == Next
  {
    var r := "/favicon-ico"[1..];
    assert r[..7] == "favicon" && r[8..11] == "ico";
  }

  /** Only paths under `/api/` pass unchecked: `/api` itself needs the cookie. */
  lemma BareApiPathGuarded()
    ensures Effective("/api", None) == Redirect("/")
  {
    var p := "/api";
    assert !ExcludedPrefix(p[1..]);
    assert p !in PublicPaths by {
      assert p != PublicPaths[1] by { assert |p| != |PublicPaths[1]|; }
    }
  }
}
