/**
 * The token middleware: the `token` header must verify, carry a user id and
 * an email, and name a stored user with that id and email; that user is
 * attached to the context. Every failure, including a throw from the
 * verifier or the lookup, is the same 401 envelope.
 */
module TokenMiddleware {
  import opened Wrappers
  import opened Store
  import opened Pipeline
  import opened Capability
  import UserManager

  const Unauthorized := "unauthorized"

  /** The payload of a verified token; a falsy `userId` is `None`, a falsy email `""`. */
  datatype Claims = Claims(userId: Option<Id>, email: string)

  /** What the token manager's verifier does with a token: it throws, or returns a payload or nothing. */
  datatype Verified = Threw | Decoded(claims: Option<Claims>)

  /**
   * The decision for a call with context `ctx`. A user id that the lookup
   * cannot cast (a throw) is modelled as an id that is not stored: both end in
   * the same 401.
   */
  function Authenticate(s: ValidDb, ctx: Context, verify: string -> Verified): (r: Decision)
    ensures ctx.token == "" ==> r == Dispatch(401, Unauthorized)
    ensures ctx.token != "" && verify(ctx.token) == Threw ==> r == Dispatch(401, Unauthorized)
    ensures !r.Next? ==> r == Dispatch(401, Unauthorized)
    ensures r.Next? ==>
              && ctx.token != ""
              && r.ctx.token == ctx.token && r.ctx.user.Some?
              && var p := r.ctx.user.value;
                 && p.id in s.users && p.user == s.users[p.id] && p.user.email != ""
                 && verify(ctx.token) == Decoded(Some(Claims(Some(p.id), p.user.email)))
    ensures forall k, e :: (&& ctx.token != "" && verify(ctx.token) == Decoded(Some(Claims(Some(k), e)))
                            && e != "" && k in s.users && s.users[k].email == e) ==>
              r == Next(ctx.(user := Some(Principal(k, s.users[k]))))
  {
    if ctx.token == "" then Dispatch(401, Unauthorized)
    else match verify(ctx.token)
      case Threw => Dispatch(401, Unauthorized)
      case Decoded(None) => Dispatch(401, Unauthorized)
      case Decoded(Some(c)) =>
        if c.userId.None? || c.email == "" then Dispatch(401, Unauthorized)
        else if c.userId.value in s.users && s.users[c.userId.value].email == c.email then
          Next(ctx.(user := Some(Principal(c.userId.value, s.users[c.userId.value]))))
        else Dispatch(401, Unauthorized)
  }

  /**
   * The token `login` returns authenticates its user, for a verifier that
   * decodes what the signer signed.
   */
  lemma LoginTokenAuthenticates(s: ValidDb, v: Validators, compare: (string, string) -> bool,
                                sign: (Id, string) -> string, verify: string -> Verified,
                                email: string, password: string)
    requires forall k, e :: verify(sign(k, e)) == Decoded(Some(Claims(Some(k), e)))
    requires forall k, e :: sign(k, e) != ""
    requires UserManager.Login(s, v, compare, sign, email, password).outcome.Ok?
    ensures var token := UserManager.Login(s, v, compare, sign, email, password).outcome.payload.token;
            var d := Authenticate(s, Context(token, None), verify);
            && d.Next? && d.ctx.user.Some?
            && d.ctx.user.value.user.email == email
            && compare(password, d.ctx.user.value.user.password)
  {
    var r := UserManager.Login(s, v, compare, sign, email, password);
    var k :| && k in s.users && s.users[k].email == email
             && compare(password, s.users[k].password)
             && r.outcome == Ok(LoginToken(sign(k, email)));
    assert verify(sign(k, email)) == Decoded(Some(Claims(Some(k), email)));
  }
}
