/** The two Express middlewares that gate the protected routes, as predicates on the
    session: each either hands the request on (`next()`) or answers it itself, in
    which case the handler behind it never runs. */
module Guards {
  import opened Records
  import opened Replies

  datatype Gate = Next | Halt(reply: Reply)

  /** `requireLogin`: passes exactly when a session user exists, otherwise 401. */
  function RequireLogin(session: Option<SessionUser>): (g: Gate)
    ensures g.Next? <==> session.Some?
    ensures g.Halt? ==> g.reply == Unauthorized
  {
    if session.Some? then Next else Halt(Unauthorized)
  }

  /** `requireRole(role)`: passes exactly when a session user exists and its role is
      `role` (exact string equality), otherwise 403 -- also when there is no session. */
  function RequireRole(role: string, session: Option<SessionUser>): (g: Gate)
    ensures g.Next? <==> session.Some? && session.value.role == role
    ensures g.Halt? ==> g.reply == Forbidden
  {
    if session.Some? && session.value.role == role then Next else Halt(Forbidden)
  }

  /** Middlewares listed on a route run left to right; the first that answers ends it. */
  function Then(first: Gate, second: Gate): Gate
  {
    if first.Halt? then first else second
  }

  /** `requireLogin, requireRole(role)`, the chain on every admin route and on the
      student's history: no session is 401, a session with another role is 403. */
  function LoginThenRole(role: string, session: Option<SessionUser>): (g: Gate)
    ensures g.Next? <==> session.Some? && session.value.role == role
    ensures session.None? ==> g == Halt(Unauthorized)
    ensures session.Some? && session.value.role != role ==> g == Halt(Forbidden)
  {
    Then(RequireLogin(session), RequireRole(role, session))
  }

  /** Chaining `requireLogin` in front of `requireRole` admits exactly the requests
      `requireRole` alone admits; it only changes the refusal for a missing session
      from 403 to 401. */
  lemma LoginThenRoleRefinesRole(role: string, session: Option<SessionUser>)
    ensures LoginThenRole(role, session).Next? == RequireRole(role, session).Next?
    ensures session.None? ==> RequireRole(role, session) == Halt(Forbidden)
                              && LoginThenRole(role, session) == Halt(Unauthorized)
    ensures session.Some? ==> LoginThenRole(role, session) == RequireRole(role, session)
  {
  }
}
