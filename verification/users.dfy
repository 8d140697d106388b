/**
 The users controller: creation behind the e-mail check and the unique
 e-mail index, partial updates that never touch the admin account, and the
 deletion cascade that keeps follow lists, posts and comments consistent
 without foreign keys.

 The admin account is recognised by its e-mail address `admin`, read from
 the environment by the source; the e-mail format check is the parameter
 `valid`.
 */
module Users {
  import opened Store
  import Posts
  import Comments

  /** A partial update: each field is present or absent. */
  datatype UserPatch = UserPatch(name: Option<string>, email: Option<string>, credential: Option<Bytes>)

  predicate EmptyPatch(patch: UserPatch) {
    patch.name.None? && patch.email.None? && patch.credential.None?
  }

  /** The user with the supplied fields of `patch` written over it. */
  function ApplyPatch(user: User, patch: UserPatch): (r: User)
    ensures r.followings == user.followings
    ensures r.name == (if patch.name.Some? then patch.name.value else user.name)
    ensures r.email == (if patch.email.Some? then patch.email.value else user.email)
    ensures r.credential == (if patch.credential.Some? then patch.credential.value else user.credential)
  {
    var u1 := if patch.name.Some? then user.(name := patch.name.value) else user;
    var u2 := if patch.email.Some? then u1.(email := patch.email.value) else u1;
    if patch.credential.Some? then u2.(credential := patch.credential.value) else u2
  }

  /** `create_user`: the e-mail is validated, then the insert fails with
      `UserExists` when the unique index already holds the e-mail. The new
      user follows nobody. `newId` is the id the database assigns. */
  function CreateUser(db: Db, valid: string -> bool, name: string, email: string, credential: Bytes, newId: Id): (r: Result<(Db, User)>)
    requires newId !in db.users
    ensures !valid(email) ==> r == Err(InvalidEmail)
    ensures valid(email) ==> (r == Err(UserExists) <==> EmailTakenByOther(db, email, newId))
    ensures valid(email) && !EmailTakenByOther(db, email, newId) ==> r.Ok?
    ensures r.Ok? ==>
      var (db', user) := r.value;
      && db'.posts == db.posts && db'.comments == db.comments
      && db'.users.Keys == db.users.Keys + {newId}
      && (forall v :: v in db.users ==> db'.users[v] == db.users[v])
      && db'.users[newId] == user
      && user == User(name, email, credential, [])
  {
    if !valid(email) then Err(InvalidEmail)
    else if EmailTakenByOther(db, email, newId) then Err(UserExists)
    else
      var user := User(name, email, credential, []);
      Ok((db.(users := db.users[newId := user]), user))
  }

  /** `update_user`: a supplied e-mail is validated first; an empty patch
      returns `false` with the store untouched; the update matches only a
      user that exists and is not the admin account (`UserNotFound`
      otherwise); a new e-mail held by another user violates the unique index
      (`UserExists`). The flag says whether the document changed. */
  function UpdateUser(db: Db, admin: string, valid: string -> bool, u: Id, patch: UserPatch): (r: Result<(Db, bool)>)
    ensures r == Err(InvalidEmail) <==> patch.email.Some? && !valid(patch.email.value)
    ensures (patch.email.None? || valid(patch.email.value)) && EmptyPatch(patch) ==> r == Ok((db, false))
    ensures r.Err? && r.error == UserNotFound <==>
      (patch.email.None? || valid(patch.email.value)) && !EmptyPatch(patch) && (u !in db.users || db.users[u].email == admin)
    ensures r == Err(UserExists) <==>
      && patch.email.Some? && valid(patch.email.value) && !EmptyPatch(patch)
      && u in db.users && db.users[u].email != admin
      && EmailTakenByOther(db, patch.email.value, u)
    ensures r.Err? ==> r.error in {InvalidEmail, UserNotFound, UserExists}
    ensures r.Ok? ==>
      var (db', changed) := r.value;
      && db'.posts == db.posts && db'.comments == db.comments
      && db'.users.Keys == db.users.Keys
      && (forall v :: v in db.users && v != u ==> db'.users[v] == db.users[v])
      && (!EmptyPatch(patch) ==> u in db.users && db.users[u].email != admin && db'.users[u] == ApplyPatch(db.users[u], patch))
      && (changed <==> db' != db)
  {
    if patch.email.Some? && !valid(patch.email.value) then Err(InvalidEmail)
    else if EmptyPatch(patch) then Ok((db, false))
    else if u !in db.users || db.users[u].email == admin then Err(UserNotFound)
    else if patch.email.Some? && EmailTakenByOther(db, patch.email.value, u) then Err(UserExists)
    else
      var user := ApplyPatch(db.users[u], patch);
      var db' := db.(users := db.users[u := user]);
      assert db' == db <==> user == db.users[u] by {
        if user == db.users[u] {
          assert db.users[u := user] == db.users;
        }
      }
      Ok((db', user != db.users[u]))
  }

  /** The first step of the cascade: remove the user document and pull its
      id from every followings list (`update_many` with `$pull`). */
  function RemoveUserAndEdges(db: Db, u: Id): (r: Db)
    ensures r.posts == db.posts && r.comments == db.comments
    ensures r.users.Keys == db.users.Keys - {u}
    ensures forall v :: v in r.users ==> r.users[v] == db.users[v].(followings := Pull(db.users[v].followings, u))
  {
    var users := map v | v in db.users && v != u :: db.users[v].(followings := Pull(db.users[v].followings, u));
    db.(users := users)
  }

  /** `delete_user`: fails with `UserNotFound`, deleting nothing, when the
      user is missing or is the admin account. Otherwise removes the user,
      pulls its id from every followings list, deletes its posts with their
      comments, then deletes its remaining comments. Every other user keeps
      its fields with only `u` pulled from its list; every post of another
      author, and every comment neither written by `u` nor attached to a post
      of `u`, is kept unchanged. */
  function DeleteUser(db: Db, admin: string, u: Id): (r: Result<Db>)
    ensures r.Err? <==> u !in db.users || db.users[u].email == admin
    ensures r.Err? ==> r.error == UserNotFound
    ensures r.Ok? ==>
      var db' := r.value;
      && u !in db'.users
      && (forall v :: v in db'.users ==> u !in db'.users[v].followings)
      && (forall p :: p in db'.posts ==> db'.posts[p].author != u)
      && (forall c :: c in db'.comments ==>
            db'.comments[c].author != u
            && (db'.comments[c].post in db.posts ==> db.posts[db'.comments[c].post].author != u))
    ensures r.Ok? ==>
      var db' := r.value;
      && db'.users.Keys == db.users.Keys - {u}
      && (forall v :: v in db'.users ==>
            db'.users[v] == db.users[v].(followings := Pull(db.users[v].followings, u)))
      && (forall p :: p in db'.posts <==> p in db.posts && db.posts[p].author != u)
      && (forall p :: p in db'.posts ==> db'.posts[p] == db.posts[p])
      && (forall c :: c in db'.comments <==>
            && c in db.comments
            && db.comments[c].author != u
            && (db.comments[c].post !in db.posts || db.posts[db.comments[c].post].author != u))
      && (forall c :: c in db'.comments ==> db'.comments[c] == db.comments[c])
  {
    if u !in db.users || db.users[u].email == admin then Err(UserNotFound)
    else
      var db1 := RemoveUserAndEdges(db, u);
      var db2 := Posts.DeletePostsByAuthor(db1, u).0;
      var db3 := Comments.DeleteCommentsByAuthor(db2, u).0;
      Ok(db3)
  }

  /** `delete_user` with its filter read literally: in a query filter
      `{"$ne": {"$literal": admin_email}}` compares the e-mail string with an
      embedded document, which never equals it. Read so, the admin account is
      not excluded and only a missing user fails. */
  function DeleteUserAsWritten(db: Db, u: Id): (r: Result<Db>)
    ensures r.Err? <==> u !in db.users
    ensures r.Err? ==> r.error == UserNotFound
    ensures r.Ok? ==> r.value.users.Keys == db.users.Keys - {u}
  {
    if u !in db.users then Err(UserNotFound)
    else
      var db1 := RemoveUserAndEdges(db, u);
      var db2 := Posts.DeletePostsByAuthor(db1, u).0;
      var db3 := Comments.DeleteCommentsByAuthor(db2, u).0;
      Ok(db3)
  }

  /** As written, the admin account can be deleted; the guarded deletion
      refuses it. For every other user the two agree. */
  lemma AdminDeletableAsWritten(db: Db, admin: string, u: Id)
    requires u in db.users
    ensures db.users[u].email == admin ==>
      && DeleteUserAsWritten(db, u).Ok?
      && u !in DeleteUserAsWritten(db, u).value.users
      && DeleteUser(db, admin, u) == Err(UserNotFound)
    ensures db.users[u].email != admin ==> DeleteUserAsWritten(db, u) == DeleteUser(db, admin, u)
  {
  }

  /** The store after deleting every user in `gone` with its cascade, stated
      in one step: the users outside `gone` with those ids pulled from their
      lists, the posts of authors outside `gone`, and the comments neither
      written by a deleted user nor attached to a post of one. */
  function CascadeDelete(db: Db, gone: set<Id>): (r: Db)
    ensures r.users.Keys == db.users.Keys - gone
    ensures forall v :: v in r.users ==> r.users[v] == db.users[v].(followings := PullAll(db.users[v].followings, gone))
    ensures forall p :: p in r.posts <==> p in db.posts && db.posts[p].author !in gone
    ensures forall c :: c in r.comments <==>
      && c in db.comments
      && db.comments[c].author !in gone
      && (db.comments[c].post !in db.posts || db.posts[db.comments[c].post].author !in gone)
    ensures forall p :: p in r.posts ==> r.posts[p] == db.posts[p]
    ensures forall c :: c in r.comments ==> r.comments[c] == db.comments[c]
  {
    Db(
      map v | v in db.users && v !in gone :: db.users[v].(followings := PullAll(db.users[v].followings, gone)),
      map p | p in db.posts && db.posts[p].author !in gone :: db.posts[p],
      map c | c in db.comments && db.comments[c].author !in gone
                && (db.comments[c].post !in db.posts || db.posts[db.comments[c].post].author !in gone)
        :: db.comments[c])
  }

  /** A successful `delete_user` is the cascade for the one id. */
  lemma DeleteUserIsCascade(db: Db, admin: string, u: Id)
    requires DeleteUser(db, admin, u).Ok?
    ensures DeleteUser(db, admin, u).value == CascadeDelete(db, {u})
  {
    var d := DeleteUser(db, admin, u).value;
    forall v | v in d.users
      ensures d.users[v] == db.users[v].(followings := PullAll(db.users[v].followings, {u}))
    {
      PullIsPullAll(db.users[v].followings, u);
    }
    IsCascade(db, d, {u});
  }

  /** A store agreeing with the cascade's contract on every component is the
      cascade. */
  lemma IsCascade(db: Db, d: Db, gone: set<Id>)
    requires d.users.Keys == db.users.Keys - gone
    requires forall v :: v in d.users ==> d.users[v] == db.users[v].(followings := PullAll(db.users[v].followings, gone))
    requires forall p :: p in d.posts <==> p in db.posts && db.posts[p].author !in gone
    requires forall c :: c in d.comments <==>
      && c in db.comments
      && db.comments[c].author !in gone
      && (db.comments[c].post !in db.posts || db.posts[db.comments[c].post].author !in gone)
    requires forall p :: p in d.posts ==> d.posts[p] == db.posts[p]
    requires forall c :: c in d.comments ==> d.comments[c] == db.comments[c]
    ensures d == CascadeDelete(db, gone)
  {
    var c := CascadeDelete(db, gone);
    assert d.users == c.users;
    assert d.posts == c.posts;
    assert d.comments == c.comments;
  }

  /** Cascading one set of users and then another is cascading their union. */
  lemma CascadeTwice(db: Db, a: set<Id>, b: set<Id>)
    ensures CascadeDelete(CascadeDelete(db, a), b) == CascadeDelete(db, a + b)
  {
    var d1 := CascadeDelete(db, a);
    var d2 := CascadeDelete(d1, b);
    forall v | v in d2.users
      ensures d2.users[v] == db.users[v].(followings := PullAll(db.users[v].followings, a + b))
    {
      PullAllTwice(db.users[v].followings, a, b);
    }
    forall c | c in d2.comments
      ensures c in db.comments && db.comments[c].author !in a + b
      ensures db.comments[c].post !in db.posts || db.posts[db.comments[c].post].author !in a + b
    {
      assert c in d1.comments;
    }
    forall c | c in db.comments && db.comments[c].author !in a + b
                && (db.comments[c].post !in db.posts || db.posts[db.comments[c].post].author !in a + b)
      ensures c in d2.comments
    {
      assert c in d1.comments;
    }
    IsCascade(db, d2, a + b);
  }

  /** Cascading the empty set changes nothing. */
  lemma CascadeNothing(db: Db)
    ensures CascadeDelete(db, {}) == db
  {
    var d := CascadeDelete(db, {});
    forall v | v in d.users
      ensures d.users[v] == db.users[v]
    {
      PullAllNothing(db.users[v].followings);
    }
    assert d.users == db.users;
    assert d.posts == db.posts;
    assert d.comments == db.comments;
  }

  /** The cascade for any set of users keeps a consistent store consistent
      and e-mails unique. */
  lemma CascadePreservesInvariants(db: Db, gone: set<Id>)
    requires Consistent(db) && UniqueEmails(db)
    ensures Consistent(CascadeDelete(db, gone)) && UniqueEmails(CascadeDelete(db, gone))
  {
    var d := CascadeDelete(db, gone);
    forall c | c in d.comments
      ensures d.comments[c].post in d.posts
    {
      assert db.comments[c].post in db.posts;
    }
  }

  /** Creating a user keeps e-mails unique and the store consistent. */
  lemma CreateUserPreservesInvariants(db: Db, valid: string -> bool, name: string, email: string, credential: Bytes, newId: Id)
    requires newId !in db.users
    requires Consistent(db) && UniqueEmails(db)
    requires CreateUser(db, valid, name, email, credential, newId).Ok?
    ensures Consistent(CreateUser(db, valid, name, email, credential, newId).value.0)
    ensures UniqueEmails(CreateUser(db, valid, name, email, credential, newId).value.0)
  {
  }

  /** Updating a user keeps e-mails unique and the store consistent. */
  lemma UpdateUserPreservesInvariants(db: Db, admin: string, valid: string -> bool, u: Id, patch: UserPatch)
    requires Consistent(db) && UniqueEmails(db)
    requires UpdateUser(db, admin, valid, u, patch).Ok?
    ensures Consistent(UpdateUser(db, admin, valid, u, patch).value.0)
    ensures UniqueEmails(UpdateUser(db, admin, valid, u, patch).value.0)
  {
  }

  /** The cascade leaves a consistent store consistent: no follow entry,
      post author, comment author or comment post dangles afterwards. */
  lemma DeleteUserPreservesInvariants(db: Db, admin: string, u: Id)
    requires Consistent(db) && UniqueEmails(db)
    requires DeleteUser(db, admin, u).Ok?
    ensures Consistent(DeleteUser(db, admin, u).value)
    ensures UniqueEmails(DeleteUser(db, admin, u).value)
  {
    var db' := DeleteUser(db, admin, u).value;
    forall v, f | v in db'.users && f in db'.users[v].followings
      ensures f in db'.users
    {
      assert f != u;
      assert multiset(db'.users[v].followings)[f] == multiset(db.users[v].followings)[f];
      assert f in db.users[v].followings;
    }
    forall c | c in db'.comments
      ensures db'.comments[c].post in db'.posts
    {
      assert db.comments[c].post in db.posts;
    }
  }

  /** A created user is found by id and follows nobody. */
  lemma CreateThenGetUser(db: Db, valid: string -> bool, name: string, email: string, credential: Bytes, newId: Id)
    requires newId !in db.users
    requires CreateUser(db, valid, name, email, credential, newId).Ok?
    ensures var (db', user) := CreateUser(db, valid, name, email, credential, newId).value;
      GetUserById(db', newId) == Ok(user) && user.followings == []
  {
  }

  /** In a consistent store, deleting a user right after creating it gives
      back the original store: nobody follows the new id and it owns no posts
      or comments. */
  lemma CreateThenDeleteUser(db: Db, admin: string, valid: string -> bool, name: string, email: string, credential: Bytes, newId: Id)
    requires newId !in db.users && Consistent(db)
    requires CreateUser(db, valid, name, email, credential, newId).Ok?
    requires email != admin
    ensures DeleteUser(CreateUser(db, valid, name, email, credential, newId).value.0, admin, newId) == Ok(db)
  {
    var user := User(name, email, credential, []);
    assert CreateUser(db, valid, name, email, credential, newId).value.0 == db.(users := db.users[newId := user]);
    DeleteFreshUser(db, admin, newId, user);
  }

  /** The cascade for a user nobody references undoes its insertion. */
  lemma DeleteFreshUser(db: Db, admin: string, x: Id, user: User)
    requires x !in db.users && Consistent(db) && user.email != admin
    ensures DeleteUser(db.(users := db.users[x := user]), admin, x) == Ok(db)
  {
    var db1 := db.(users := db.users[x := user]);
    RemoveFreshUser(db, x, user);
    assert RemoveUserAndEdges(db1, x) == db;
    NothingOwnedBy(db, x);
  }

  lemma RemoveFreshUser(db: Db, x: Id, user: User)
    requires x !in db.users && Consistent(db)
    ensures RemoveUserAndEdges(db.(users := db.users[x := user]), x).users == db.users
  {
    var r := RemoveUserAndEdges(db.(users := db.users[x := user]), x).users;
    forall v | v in db.users
      ensures r[v] == db.users[v]
    {
      assert x !in db.users[v].followings;
    }
  }

  /** In a consistent store a missing user owns no posts and no comments, so
      both bulk deletes leave the store as it was. */
  lemma NothingOwnedBy(db: Db, x: Id)
    requires x !in db.users && Consistent(db)
    ensures Posts.DeletePostsByAuthor(db, x).0 == db
    ensures Comments.DeleteCommentsByAuthor(db, x).0 == db
  {
    var d1 := Posts.DeletePostsByAuthor(db, x).0;
    assert d1.posts == db.posts;
    assert d1.comments == db.comments;
    var d2 := Comments.DeleteCommentsByAuthor(db, x).0;
    assert d2.comments == db.comments;
  }

  /** A non-empty update is visible to the lookup by id: the user read back
      is the old document with the supplied fields written over it. */
  lemma UpdateThenGetUser(db: Db, admin: string, valid: string -> bool, u: Id, patch: UserPatch)
    requires UpdateUser(db, admin, valid, u, patch).Ok? && !EmptyPatch(patch)
    ensures GetUserById(UpdateUser(db, admin, valid, u, patch).value.0, u) == Ok(ApplyPatch(db.users[u], patch))
  {
  }

  /** A deleted user is no longer found by either existence check. */
  lemma DeleteThenGetUser(db: Db, admin: string, u: Id)
    requires DeleteUser(db, admin, u).Ok?
    ensures GetUserById(DeleteUser(db, admin, u).value, u) == Err(UserNotFound)
    ensures ValidateUserId(DeleteUser(db, admin, u).value, u) == Err(UserNotFound)
  {
  }
}
