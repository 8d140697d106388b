/**
 Concrete runs through the controllers, on a store of three users Alice (1),
 Bob (2) and Carol (3) with distinct e-mails and no admin among them.
 */
module Scenarios {
  import opened Store
  import Posts
  import Comments
  import Followings
  import Users

  const Admin: string := "admin@example.com"

  function Person(name: string, email: string): User {
    User(name, email, [], [])
  }

  function Alice(): User { Person("Alice", "alice@example.com") }
  function Bob(): User { Person("Bob", "bob@example.com") }
  function Carol(): User { Person("Carol", "carol@example.com") }

  function ThreeUsers(): Db {
    Db(map[1 := Alice(), 2 := Bob(), 3 := Carol()], map[], map[])
  }

  /** The store after Bob posts P1 (id 10). */
  function BobPosted(now: Time): Db {
    ThreeUsers().(posts := map[10 := Post("P1", now, now, 2)])
  }

  /** The store after Alice also follows Bob. */
  function AliceFollowsBob(now: Time): Db {
    BobPosted(now).(users := map[1 := Alice().(followings := [2]), 2 := Bob(), 3 := Carol()])
  }

  lemma PostStep(now: Time)
    ensures Posts.CreatePost(ThreeUsers(), "P1", 2, now, 10).Ok?
    ensures Posts.CreatePost(ThreeUsers(), "P1", 2, now, 10).value.0 == BobPosted(now)
  {
    var db' := Posts.CreatePost(ThreeUsers(), "P1", 2, now, 10).value.0;
    assert db'.posts == map[10 := Post("P1", now, now, 2)];
  }

  lemma FollowStep(now: Time)
    ensures Followings.FollowUser(BobPosted(now), 1, 2) == Ok((AliceFollowsBob(now), true))
  {
    assert Alice().followings == [];
    assert AddToSet([], 2) == [2];
    assert BobPosted(now).users[1 := Alice().(followings := [2])] == AliceFollowsBob(now).users;
  }

  lemma UnfollowStep(now: Time)
    ensures Followings.UnfollowUser(AliceFollowsBob(now), 1, 2) == Ok((BobPosted(now), true))
  {
    assert Pull([2], 2) == [];
    assert AliceFollowsBob(now).users[1 := Alice()] == BobPosted(now).users;
  }

  lemma FeedWithFollow(now: Time)
    ensures Posts.GetPostFeed(AliceFollowsBob(now), 1).value.Keys == {10}
  {
    assert 10 in Posts.GetPostFeed(AliceFollowsBob(now), 1).value;
  }

  lemma FeedWithoutFollow(now: Time)
    ensures Posts.GetPostFeed(BobPosted(now), 1).value.Keys == {}
  {
  }

  lemma DeleteBobStep(now: Time)
    ensures Users.DeleteUser(BobPosted(now), Admin, 2).Ok?
    ensures Users.DeleteUser(BobPosted(now), Admin, 2).value == Db(map[1 := Alice(), 3 := Carol()], map[], map[])
  {
    DeleteBobUsers(now);
    DeleteBobContent(now);
  }

  lemma DeleteBobUsers(now: Time)
    ensures Users.DeleteUser(BobPosted(now), Admin, 2).Ok?
    ensures Users.DeleteUser(BobPosted(now), Admin, 2).value.users == map[1 := Alice(), 3 := Carol()]
  {
    var db' := Users.DeleteUser(BobPosted(now), Admin, 2).value;
    assert Pull([], 2) == [];
    assert db'.users.Keys == {1, 3};
    assert db'.users[1] == Alice();
    assert db'.users[3] == Carol();
  }

  lemma DeleteBobContent(now: Time)
    ensures Users.DeleteUser(BobPosted(now), Admin, 2).Ok?
    ensures Users.DeleteUser(BobPosted(now), Admin, 2).value.posts == map[]
    ensures Users.DeleteUser(BobPosted(now), Admin, 2).value.comments == map[]
  {
    var db' := Users.DeleteUser(BobPosted(now), Admin, 2).value;
    assert db'.posts.Keys == {};
    assert db'.comments.Keys == {};
  }

  /** Bob posts P1 (id 10); Alice follows Bob and sees exactly P1 in her
      feed; after unfollowing she sees nothing. */
  lemma FeedScenario(now: Time)
    ensures var db1 := Posts.CreatePost(ThreeUsers(), "P1", 2, now, 10).value.0;
      var db2 := Followings.FollowUser(db1, 1, 2).value.0;
      var db3 := Followings.UnfollowUser(db2, 1, 2).value.0;
      && Posts.GetPostFeed(db2, 1).value.Keys == {10}
      && Posts.GetPostFeed(db3, 1).value.Keys == {}
  {
    PostStep(now);
    FollowStep(now);
    UnfollowStep(now);
    FeedWithFollow(now);
    FeedWithoutFollow(now);
  }

  /** Continuing the same run, deleting Bob removes P1 and leaves Alice's
      and Carol's lists empty. */
  lemma DeleteScenario(now: Time)
    ensures var db1 := Posts.CreatePost(ThreeUsers(), "P1", 2, now, 10).value.0;
      var db2 := Followings.FollowUser(db1, 1, 2).value.0;
      var db3 := Followings.UnfollowUser(db2, 1, 2).value.0;
      var db4 := Users.DeleteUser(db3, Admin, 2).value;
      && db4.posts == map[]
      && db4.users.Keys == {1, 3}
      && db4.users[1].followings == [] && db4.users[3].followings == []
  {
    PostStep(now);
    FollowStep(now);
    UnfollowStep(now);
    DeleteBobStep(now);
  }

  /** A comment on a post that does not exist is refused with
      `PostNotFound`, for an existing author. */
  lemma CommentOnMissingPost(now: Time)
    ensures Comments.CreateComment(ThreeUsers(), "hi", 1, 99, now, 0) == Err(PostNotFound)
  {
  }
}
