/** The `auth` decorator: the check `protector` runs before a handler. */
module Auth {
  import opened Packages

  /** HTTP Basic credentials as the framework reports them: a user and a
      password that may be absent. */
  datatype Credentials = Credentials(user: string, password: Option<string>)

  /** Whether the wrapped handler runs, or the error the gate raises instead. */
  datatype Gate = Proceed | Deny(status: int)

  /** `protector` for a handler registered under `action`: actions outside
      `authenticate` pass straight through; otherwise missing credentials or
      a missing password give 401, credentials the checker refuses give 403. */
  function Protect(action: string, authenticate: set<string>, auth: Option<Credentials>,
                   auther: (string, string) -> bool): (g: Gate)
    ensures g.Proceed? <==>
      action !in authenticate
      || (auth.Some? && auth.value.password.Some? && auther(auth.value.user, auth.value.password.value))
    ensures g.Deny? ==> g.status == 401 || g.status == 403
    ensures g == Deny(401) <==> action in authenticate && (auth.None? || auth.value.password.None?)
    ensures g == Deny(403) ==> auth.Some? && auth.value.password.Some?
  {
    if action in authenticate then
      if auth.None? || auth.value.password.None? then Deny(401)
      else if !auther(auth.value.user, auth.value.password.value) then Deny(403)
      else Proceed
    else Proceed
  }

  /** Protecting fewer actions never turns a request away that a larger set
      of protected actions let through. */
  lemma ProtectMonotone(action: string, fewer: set<string>, more: set<string>,
                        auth: Option<Credentials>, auther: (string, string) -> bool)
    requires fewer <= more
    requires Protect(action, more, auth, auther) == Proceed
    ensures Protect(action, fewer, auth, auther) == Proceed
  {
  }

  /** For an unprotected action the credentials and the checker play no part. */
  lemma UnprotectedIgnoresCredentials(action: string, authenticate: set<string>,
                                      a1: Option<Credentials>, a2: Option<Credentials>,
                                      c1: (string, string) -> bool, c2: (string, string) -> bool)
    requires action !in authenticate
    ensures Protect(action, authenticate, a1, c1) == Protect(action, authenticate, a2, c2) == Proceed
  {
  }
}
