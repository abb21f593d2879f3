/** The admin-secret gate (app/middleware/auth.py). */
module Auth {
  import opened Common

  /** The two places a request may carry the secret: `?secret=` and `X-Admin-Secret`. */
  datatype Request = Request(querySecret: Option<string>, headerSecret: Option<string>)

  /** A guarded route either answers 403 or runs its handler. */
  datatype Gated<T> = Forbidden | Allowed(response: T)

  /**
   * `require_admin_secret(f)` applied to a request: the handler runs when the
   * query secret or the header secret equals the configured `ADMIN_SECRET`
   * (`None` when it is not configured), and the request is refused otherwise.
   */
  function RequireAdminSecret<T>(handler: Request -> T, req: Request, expected: Option<string>): (r: Gated<T>)
    ensures r.Forbidden? <==> req.querySecret != expected && req.headerSecret != expected
    ensures r.Allowed? ==> r.response == handler(req)
  {
    if req.querySecret == expected || req.headerSecret == expected then Allowed(handler(req))
    else Forbidden
  }

  /** Either channel alone suffices, whatever the other one carries. */
  lemma EitherChannelSuffices<T>(handler: Request -> T, secret: string, other: Option<string>)
    ensures RequireAdminSecret(handler, Request(Some(secret), other), Some(secret)).Allowed?
    ensures RequireAdminSecret(handler, Request(other, Some(secret)), Some(secret)).Allowed?
  {
  }

  /** With a configured secret, a request that carries no secret is refused. */
  lemma MissingSecretForbidden<T>(handler: Request -> T, secret: string)
    ensures RequireAdminSecret(handler, Request(None, None), Some(secret)) == Forbidden
  {
  }

  /**
   * With no configured secret, `None == None` lets a request that carries no
   * secret through.
   */
  lemma UnconfiguredSecretOpen<T>(handler: Request -> T)
    ensures RequireAdminSecret(handler, Request(None, None), None) == Allowed(handler(Request(None, None)))
  {
  }
}
