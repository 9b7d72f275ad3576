/**
 * The super-admin middleware: the attached principal must be a super admin;
 * otherwise the call ends with a 403 envelope. It attaches nothing.
 */
module SuperAdminMiddleware {
  import opened Store
  import opened Pipeline
  import TokenMiddleware

  const Forbidden := "forbidden, this actions needs a superadmin"

  function RequireSuperAdmin(ctx: Context): (r: Decision)
    ensures r.Next? ==> r.ctx == ctx
    ensures r.Next? <==> ctx.user.Some? && ctx.user.value.user.userType == "superadmin"
    ensures !r.Next? ==> r == Dispatch(403, Forbidden)
  {
    if ctx.user.None? || ctx.user.value.user.userType != "superadmin" then Dispatch(403, Forbidden)
    else Next(ctx)
  }

  /**
   * The stack `__token` then `__isSuperAdmin`: an unauthenticated call gets the
   * 401 and never reaches the super-admin check; an authenticated one advances
   * exactly when the stored user is a super admin, and gets the 403 otherwise.
   */
  lemma SuperAdminStack(s: ValidDb, ctx: Context, verify: string -> TokenMiddleware.Verified)
    ensures var d := Then(TokenMiddleware.Authenticate(s, ctx, verify), RequireSuperAdmin);
            && (!TokenMiddleware.Authenticate(s, ctx, verify).Next? ==> d == Dispatch(401, TokenMiddleware.Unauthorized))
            && (TokenMiddleware.Authenticate(s, ctx, verify).Next? ==>
                  var p := TokenMiddleware.Authenticate(s, ctx, verify).ctx.user.value;
                  && (d.Next? <==> s.users[p.id].userType == "superadmin")
                  && (!d.Next? ==> d == Dispatch(403, Forbidden)))
  {
  }
}
