/**
 * What the middlewares see and decide. A middleware either advances with a
 * (possibly augmented) context or short-circuits by dispatching an error
 * envelope; the capability runs only when every middleware advances.
 */
module Pipeline {
  import opened Wrappers
  import opened Store

  /** The authenticated principal: the stored user document and its id. */
  datatype Principal = Principal(id: Id, user: User)

  /** The per-call context: the `token` header ("" when absent) and the attached principal. */
  datatype Context = Context(token: string, user: Option<Principal>)

  /** `Dispatch` is the `{ ok: false, code, errors }` envelope a middleware sends instead of calling `next`. */
  datatype Decision = Dispatch(code: int, errors: string) | Next(ctx: Context)

  /**
   * Running `mw` after a middleware that decided `d`: a dispatch ends the call
   * without calling `next`, so only an advance reaches `mw`.
   */
  function Then(d: Decision, mw: Context -> Decision): (r: Decision)
    ensures d.Dispatch? ==> r == d
    ensures d.Next? ==> r == mw(d.ctx)
    ensures r.Next? ==> d.Next?
  {
    match d
    case Dispatch(_, _) => d
    case Next(c) => mw(c)
  }
}
