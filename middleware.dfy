/**
 * The request-time route guard. It reads only the `token` cookie and the pathname; the `role`
 * cookie plays no part, so no path is gated by role.
 */
module Middleware {
  import opened Js

  /** What the guard answers: let the request through, or redirect it. */
  datatype Decision = Next | Redirect(target: string)

  /** `if (token)` on `request.cookies.get('token')?.value`: present and not empty. */
  predicate HasToken(token: Option<string>) {
    token.Some? && token.value != ""
  }

  /** The sign-in area: the root page and everything under the literal prefix `/(auth)`. */
  predicate InAuthArea(pathname: string) {
    StartsWith(pathname, "/(auth)") || pathname == "/"
  }

  /** The protected area: everything under the prefix `/dashboard`. */
  predicate InDashboardArea(pathname: string) {
    StartsWith(pathname, "/dashboard")
  }

  /** The two areas never overlap. */
  lemma AreasDisjoint(pathname: string)
    ensures !(InAuthArea(pathname) && InDashboardArea(pathname))
  {
    if InDashboardArea(pathname) {
      assert pathname[..|"/dashboard"|] == "/dashboard";
      assert pathname[1] == 'd';
      assert |pathname| > 1;
    }
  }

  /**
   * The guard. A signed-in user is sent from the sign-in area to `/dashboard`; a visitor without
   * a token is sent from the dashboard to `/`; every other request passes.
   */
  function Guard(pathname: string, token: Option<string>): (d: Decision)
    ensures d == Redirect("/dashboard") <==> InAuthArea(pathname) && HasToken(token)
    ensures d == Redirect("/") <==> InDashboardArea(pathname) && !HasToken(token)
    ensures d.Redirect? ==> d.target == "/dashboard" || d.target == "/"
  {
    AreasDisjoint(pathname);
    if InAuthArea(pathname) then
      if HasToken(token) then Redirect("/dashboard") else Next
    else if InDashboardArea(pathname) then
      if !HasToken(token) then Redirect("/") else Next
    else
      Next
  }

  /** Paths outside both areas pass whatever the token; `/users` and `/black-lists` among them. */
  lemma OtherPathsPass(pathname: string, token: Option<string>)
    requires !InAuthArea(pathname) && !InDashboardArea(pathname)
    ensures Guard(pathname, token) == Next
  {
  }

  lemma UsersAndBlacklistsPass(token: Option<string>)
    ensures Guard("/users", token) == Next
    ensures Guard("/black-lists", token) == Next
  {
    assert "/users"[1] != "/(auth)"[1] && "/users"[1] != "/dashboard"[1];
    assert "/black-lists"[1] != "/(auth)"[1] && "/black-lists"[1] != "/dashboard"[1];
  }

  /**
   * No redirect loop: asking the guard again about the page it redirected to, with the same
   * token, lets the request through.
   */
  lemma {:induction false} NoRedirectLoop(pathname: string, token: Option<string>)
    requires Guard(pathname, token).Redirect?
    ensures Guard(Guard(pathname, token).target, token) == Next
  {
    var target := Guard(pathname, token).target;
    if target == "/dashboard" {
      AreasDisjoint("/dashboard");
      assert InDashboardArea("/dashboard");
    } else {
      assert !InDashboardArea("/");
    }
  }
}
