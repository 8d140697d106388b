/**
 The followings controller. A follow edge is the membership of the followed
 user's id in the follower's `followings` list; following appends with
 `$addToSet`, unfollowing removes with `$pull`, and both check first that the
 followed user exists and then that the follower exists.
 */
module Followings {
  import opened Store

  /** `get_user_followers`: the users whose followings list contains `x`.
      `x` itself is not looked up. */
  function GetUserFollowers(db: Db, x: Id): (r: map<Id, User>)
    ensures forall u :: u in r <==> u in db.users && x in db.users[u].followings
    ensures forall u :: u in r ==> r[u] == db.users[u]
  {
    map u | u in db.users && x in db.users[u].followings :: db.users[u]
  }

  /** `get_user_followings`: fails with `UserNotFound` when the follower is
      missing; otherwise the existing users named in its list. Ids whose user
      is gone are skipped. */
  function GetUserFollowings(db: Db, f: Id): (r: Result<map<Id, User>>)
    ensures r.Err? <==> f !in db.users
    ensures r.Err? ==> r.error == UserNotFound
    ensures r.Ok? ==> forall u :: u in r.value <==> u in db.users && u in db.users[f].followings
    ensures r.Ok? ==> forall u :: u in r.value ==> r.value[u] == db.users[u]
  {
    var follower :- GetUserById(db, f);
    Ok(map u | u in db.users && u in follower.followings :: db.users[u])
  }

  /** The store `db'` differs from `db` at most in the followings list of user
      `u`: the same users with the same names, e-mails and credentials, and
      the same posts and comments. */
  predicate OnlyFollowingsOf(db: Db, db': Db, u: Id) {
    && db'.posts == db.posts
    && db'.comments == db.comments
    && db'.users.Keys == db.users.Keys
    && (forall v :: v in db.users && v != u ==> db'.users[v] == db.users[v])
    && (u in db.users ==> db'.users[u] == db.users[u].(followings := db'.users[u].followings))
  }

  /** Replace the followings list of an existing user. */
  function SetFollowings(db: Db, u: Id, l: seq<Id>): (db': Db)
    requires u in db.users
    ensures OnlyFollowingsOf(db, db', u)
    ensures db'.users[u].followings == l
  {
    db.(users := db.users[u := db.users[u].(followings := l)])
  }

  /** `follow_user`: the followed user is validated first, then the follower
      is matched. Self-follow is not rejected. The flag says whether the list
      changed. */
  function FollowUser(db: Db, follower: Id, following: Id): (r: Result<(Db, bool)>)
    ensures r.Err? <==> following !in db.users || follower !in db.users
    ensures r.Err? ==> r.error == UserNotFound
    ensures r.Ok? ==> OnlyFollowingsOf(db, r.value.0, follower)
    ensures r.Ok? ==>
      var (db', changed) := r.value;
      var before := db.users[follower].followings;
      var after := db'.users[follower].followings;
      && after == AddToSet(before, following)
      && (changed <==> following !in before)
      && following in after
      && (forall y :: y in after <==> y in before || y == following)
      && |before| <= |after| <= |before| + 1
      && after[..|before|] == before
      && (changed <==> after != before)
  {
    var _ :- ValidateUserId(db, following);
    var user :- GetUserById(db, follower);
    var changed := following !in user.followings;
    Ok((SetFollowings(db, follower, AddToSet(user.followings, following)), changed))
  }

  /** `unfollow_user`: the followed user must still exist; every occurrence of
      its id is removed from the follower's list. The flag says whether
      anything was removed. */
  function UnfollowUser(db: Db, follower: Id, following: Id): (r: Result<(Db, bool)>)
    ensures r.Err? <==> following !in db.users || follower !in db.users
    ensures r.Err? ==> r.error == UserNotFound
    ensures r.Ok? ==> OnlyFollowingsOf(db, r.value.0, follower)
    ensures r.Ok? ==>
      var (db', changed) := r.value;
      var before := db.users[follower].followings;
      var after := db'.users[follower].followings;
      && after == Pull(before, following)
      && following !in after
      && (forall y :: y != following ==> multiset(after)[y] == multiset(before)[y])
      && (changed <==> following in before)
      && (changed <==> after != before)
  {
    var _ :- ValidateUserId(db, following);
    var user :- GetUserById(db, follower);
    var changed := following in user.followings;
    Ok((SetFollowings(db, follower, Pull(user.followings, following)), changed))
  }

  /** Set semantics: a second identical follow succeeds, reports no change and
      leaves the store as the first one left it. */
  lemma FollowIdempotent(db: Db, a: Id, b: Id)
    requires FollowUser(db, a, b).Ok?
    ensures FollowUser(FollowUser(db, a, b).value.0, a, b) == Ok((FollowUser(db, a, b).value.0, false))
  {
    var db1 := FollowUser(db, a, b).value.0;
    assert db1.users[a := db1.users[a]] == db1.users;
  }

  /** Follow followed by unfollow restores the follower's list exactly when the
      followed id was not in it before (otherwise `$pull` removes the old
      entries as well), and the rest of the store is back as it was. */
  lemma FollowUnfollowRoundTrip(db: Db, a: Id, b: Id)
    requires a in db.users && b in db.users
    ensures var db1 := FollowUser(db, a, b).value.0;
      && UnfollowUser(db1, a, b).Ok?
      && (UnfollowUser(db1, a, b).value.0 == db <==> b !in db.users[a].followings)
  {
    var l := db.users[a].followings;
    var db1 := SetFollowings(db, a, AddToSet(l, b));
    assert FollowUser(db, a, b) == Ok((db1, b !in l));
    var db2 := SetFollowings(db1, a, Pull(AddToSet(l, b), b));
    assert UnfollowUser(db1, a, b) == Ok((db2, true));
    if b !in l {
      AddThenPull(l, b);
      SetFollowingsBack(db, a, AddToSet(l, b));
    } else {
      assert db2.users[a].followings != l;
    }
  }

  /** `$pull` undoes an `$addToSet` that appended. */
  lemma AddThenPull(l: seq<Id>, x: Id)
    requires x !in l
    ensures Pull(AddToSet(l, x), x) == l
  {
    PullAfterAppend(l, x);
  }

  /** Writing back a user's own list after another write restores the store. */
  lemma SetFollowingsBack(db: Db, u: Id, l: seq<Id>)
    requires u in db.users
    ensures SetFollowings(SetFollowings(db, u, l), u, db.users[u].followings) == db
  {
    assert db.users[u := db.users[u]] == db.users;
  }

  /** Reverse and forward lookups agree: for two existing users, `a` is a
      follower of `b` exactly when `b` is among the followings of `a`. */
  lemma FollowersFollowingsDual(db: Db, a: Id, b: Id)
    requires a in db.users && b in db.users
    ensures a in GetUserFollowers(db, b) <==> b in GetUserFollowings(db, a).value
  {
  }

  /** In a consistent store nobody follows a missing user, so its followers
      query is empty rather than an error. */
  lemma FollowersOfMissingUser(db: Db, x: Id)
    requires Consistent(db) && x !in db.users
    ensures GetUserFollowers(db, x) == map[]
  {
  }

  /** In a consistent store no followings id dangles, so the forward lookup
      returns one user per distinct id in the list. */
  lemma FollowingsComplete(db: Db, f: Id)
    requires Consistent(db) && f in db.users
    ensures GetUserFollowings(db, f).value.Keys == set y | y in db.users[f].followings
  {
  }

  /** A user may follow itself. */
  lemma SelfFollowAllowed(db: Db, a: Id)
    requires a in db.users
    ensures FollowUser(db, a, a).Ok?
    ensures a in GetUserFollowers(FollowUser(db, a, a).value.0, a)
  {
  }

  /** Changing only one user's followings list, to ids of existing users,
      keeps the store consistent and keeps e-mails unique. */
  lemma FollowingsChangeKeepsInvariants(db: Db, db': Db, u: Id)
    requires Consistent(db) && UniqueEmails(db) && u in db.users
    requires OnlyFollowingsOf(db, db', u)
    requires forall y :: y in db'.users[u].followings ==> y in db.users
    ensures Consistent(db') && UniqueEmails(db')
  {
    forall v, f | v in db'.users && f in db'.users[v].followings
      ensures f in db'.users
    {
      if v != u {
        assert db'.users[v] == db.users[v];
      }
    }
    forall v, w | v in db'.users && w in db'.users && db'.users[v].email == db'.users[w].email
      ensures v == w
    {
      assert db'.users[v].email == db.users[v].email;
      assert db'.users[w].email == db.users[w].email;
    }
  }

  /** Following keeps the store consistent and keeps e-mails unique. */
  lemma FollowPreservesInvariants(db: Db, a: Id, b: Id)
    requires Consistent(db) && UniqueEmails(db)
    requires FollowUser(db, a, b).Ok?
    ensures Consistent(FollowUser(db, a, b).value.0) && UniqueEmails(FollowUser(db, a, b).value.0)
  {
    FollowingsChangeKeepsInvariants(db, FollowUser(db, a, b).value.0, a);
  }

  /** Unfollowing keeps the store consistent and keeps e-mails unique. */
  lemma UnfollowPreservesInvariants(db: Db, a: Id, b: Id)
    requires Consistent(db) && UniqueEmails(db)
    requires UnfollowUser(db, a, b).Ok?
    ensures Consistent(UnfollowUser(db, a, b).value.0) && UniqueEmails(UnfollowUser(db, a, b).value.0)
  {
    var db' := UnfollowUser(db, a, b).value.0;
    forall y | y in db'.users[a].followings
      ensures y in db.users
    {
      assert multiset(db'.users[a].followings)[y] > 0;
    }
    FollowingsChangeKeepsInvariants(db, db', a);
  }
}
