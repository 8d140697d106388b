/**
 The earlier controller generation under `backend/controllers`. Its
 followings, comments and cascade code is the same logic as the current
 controllers and is modelled by the same members; only `update_user`
 differs: it has no short-circuit for an empty patch and returns nothing.
 */
module Legacy {
  import opened Store
  import Users

  /** Legacy `update_user`: validates a supplied e-mail, then always issues
      the update, so even an empty patch fails with `UserNotFound` for a
      missing or admin user. No change flag is returned. */
  function LegacyUpdateUser(db: Db, admin: string, valid: string -> bool, u: Id, patch: Users.UserPatch): (r: Result<Db>)
    ensures r == Err(InvalidEmail) <==> patch.email.Some? && !valid(patch.email.value)
    ensures (patch.email.None? || valid(patch.email.value)) ==>
      (r == Err(UserNotFound) <==> u !in db.users || db.users[u].email == admin)
    ensures r == Err(UserExists) <==>
      && patch.email.Some? && valid(patch.email.value)
      && u in db.users && db.users[u].email != admin
      && EmailTakenByOther(db, patch.email.value, u)
    ensures r.Err? ==> r.error in {InvalidEmail, UserNotFound, UserExists}
    ensures r.Ok? ==>
      && u in db.users && db.users[u].email != admin
      && r.value.posts == db.posts && r.value.comments == db.comments
      && r.value.users == db.users[u := Users.ApplyPatch(db.users[u], patch)]
  {
    if patch.email.Some? && !valid(patch.email.value) then Err(InvalidEmail)
    else if u !in db.users || db.users[u].email == admin then Err(UserNotFound)
    else if patch.email.Some? && EmailTakenByOther(db, patch.email.value, u) then Err(UserExists)
    else Ok(db.(users := db.users[u := Users.ApplyPatch(db.users[u], patch)]))
  }

  /** On a non-empty patch the legacy and current `update_user` fail alike and
      leave the same store. */
  lemma LegacyUpdateAgreesOnNonEmptyPatch(db: Db, admin: string, valid: string -> bool, u: Id, patch: Users.UserPatch)
    requires !Users.EmptyPatch(patch)
    ensures var legacy := LegacyUpdateUser(db, admin, valid, u, patch);
      var current := Users.UpdateUser(db, admin, valid, u, patch);
      && (legacy.Err? <==> current.Err?)
      && (legacy.Err? ==> legacy.error == current.error)
      && (legacy.Ok? ==> legacy.value == current.value.0)
  {
  }

  /** On an empty patch the versions differ: the current one returns `false`
      for any id, the legacy one still rejects a missing or admin user and
      otherwise leaves the store as it was. */
  lemma LegacyUpdateEmptyPatch(db: Db, admin: string, valid: string -> bool, u: Id)
    ensures var empty := Users.UserPatch(None, None, None);
      && Users.UpdateUser(db, admin, valid, u, empty) == Ok((db, false))
      && (LegacyUpdateUser(db, admin, valid, u, empty).Ok? ==> LegacyUpdateUser(db, admin, valid, u, empty).value == db)
      && (u !in db.users ==> LegacyUpdateUser(db, admin, valid, u, empty) == Err(UserNotFound))
  {
    var empty := Users.UserPatch(None, None, None);
    if u in db.users && db.users[u].email != admin {
      assert Users.ApplyPatch(db.users[u], empty) == db.users[u];
      assert db.users[u := db.users[u]] == db.users;
    }
  }
}
