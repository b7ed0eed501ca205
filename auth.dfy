/**
 * The role gates in front of the mutating routes. Login, password hashing
 * and the session store are outside the model: the gate receives the
 * session's user as it is already resolved, or None when nobody is logged in.
 */
module Auth {
  import opened Wrappers

  /** The session's `user` record: a user name and a role. */
  datatype User = User(name: string, role: string)

  const AdminRole: string := "admin"
  const UploaderRole: string := "uploader"

  /**
   * `requireRole(role)`: the request passes only when a user is logged in
   * and the user's role is exactly `role`.
   */
  predicate HasRole(user: Option<User>, role: string)
    ensures HasRole(user, role) <==> exists name :: user == Some(User(name, role))
  {
    !(user.None? || user.value.role != role)
  }

  /** The roster upload's own check: a logged-in user whose role is `admin` or `uploader`. */
  predicate MayImport(user: Option<User>)
    ensures MayImport(user) <==> HasRole(user, AdminRole) || HasRole(user, UploaderRole)
  {
    !(user.None? || user.value.role !in [AdminRole, UploaderRole])
  }

  /** Every user who may draw may also import; an uploader may import but not draw. */
  lemma GateOrder(user: Option<User>)
    ensures HasRole(user, AdminRole) ==> MayImport(user)
    ensures HasRole(user, UploaderRole) ==> MayImport(user) && !HasRole(user, AdminRole)
    ensures user.None? ==> !MayImport(user) && forall role :: !HasRole(user, role)
  {
  }
}
