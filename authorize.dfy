/** `authorize(allowedRoles)`: the role allow-list decision. */
module Authorization {
  import opened Common
  import opened Http

  const NotAuthenticated := "Usuário não autenticado"
  const AccessDenied := "Acesso negado. Permissão insuficiente."

  /** A request without a user is refused with 401 before any role is looked
      at; a role outside the list gets 403 naming the required roles and the
      current one; otherwise the request goes on. */
  function Authorize(allowed: seq<Role>, user: Option<Identity>): (s: Step)
    ensures s.Next? <==> user.Some? && user.value.role in allowed
    ensures user.None? ==> s == Stop(401, Message(NotAuthenticated))
    ensures user.Some? && user.value.role !in allowed ==>
      s == Stop(403, Forbidden(AccessDenied, allowed, user.value.role))
  {
    if user.None? then Stop(401, Message(NotAuthenticated))
    else if user.value.role !in allowed then Stop(403, Forbidden(AccessDenied, allowed, user.value.role))
    else Next
  }

  /** The decision depends on the user's role alone, not on their id or session. */
  lemma RoleDecides(allowed: seq<Role>, a: Identity, b: Identity)
    requires a.role == b.role
    ensures Authorize(allowed, Some(a)) == Authorize(allowed, Some(b))
  {
  }
}
