/**
 * The request middleware guarding the dashboard: a request under
 * "/dashboard" passes only with a session cookie of the authentication
 * service; otherwise it is sent to the login page, which is told where to
 * return.
 */
module Middleware {
  import opened Strings

  const DashboardPrefix := "/dashboard"
  const LoginPath := "/auth/login"

  /** What the middleware does with a request: let it through, or redirect to `path` with the query parameter `redirect`. */
  datatype Outcome = Next | Redirect(path: string, redirect: string)

  /**
   * `hasAuth`, over the names of the request's cookies: one of the three
   * named session cookies, or any cookie whose name starts with "sb-".
   */
  predicate HasAuth(cookies: seq<string>) {
    || "sb-access-token" in cookies
    || "sb-refresh-token" in cookies
    || "supabase-auth-token" in cookies
    || exists i :: 0 <= i < |cookies| && StartsWith(cookies[i], "sb-")
  }

  /** `middleware(request)` for a request to `path` carrying cookies named `cookies`. */
  function Decide(path: string, cookies: seq<string>): (r: Outcome)
    ensures !StartsWith(path, DashboardPrefix) ==> r == Next
    ensures r.Redirect? ==> StartsWith(path, DashboardPrefix) && r.path == LoginPath && r.redirect == path
  {
    if StartsWith(path, DashboardPrefix) && !HasAuth(cookies) then Redirect(LoginPath, path)
    else Next
  }

  /**
   * A dashboard request passes exactly when some cookie name starts with
   * "sb-" or a "supabase-auth-token" cookie is present: the two named "sb-"
   * cookies add nothing to the prefix test.
   */
  lemma DashboardPassesIffSessionCookie(path: string, cookies: seq<string>)
    requires StartsWith(path, DashboardPrefix)
    ensures Decide(path, cookies) == Next <==>
              (exists i :: 0 <= i < |cookies| && StartsWith(cookies[i], "sb-")) || "supabase-auth-token" in cookies
  {
    if "sb-access-token" in cookies {
      var i :| 0 <= i < |cookies| && cookies[i] == "sb-access-token";
      assert StartsWith(cookies[i], "sb-");
    }
    if "sb-refresh-token" in cookies {
      var i :| 0 <= i < |cookies| && cookies[i] == "sb-refresh-token";
      assert StartsWith(cookies[i], "sb-");
    }
  }

  /** The prefix test is a plain string prefix: "/dashboards" is checked too, and redirected without a cookie. */
  lemma DashboardsIsGuarded()
    ensures StartsWith("/dashboards", DashboardPrefix)
    ensures Decide("/dashboards", []) == Redirect(LoginPath, "/dashboards")
  {
    assert "/dashboards"[..|DashboardPrefix|] == DashboardPrefix;
  }
}
