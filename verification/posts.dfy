/**
 The posts controller: reads that join each post with its author (and so
 drop posts whose author document is gone), the feed of a user, creation
 after an author check, updates and deletes scoped by an optional expected
 author, and the delete-by-author step of the user cascade.
 */
module Posts {
  import opened Store
  import Comments

  /** The post `p` would be matched by a filter on its id and, when one is
      given, on its author. */
  predicate Matches(db: Db, p: Id, author: Option<Id>) {
    p in db.posts && (author.None? || db.posts[p].author == author.value)
  }

  /** The `$match` stages of the post listings. */
  datatype PostFilter = AnyAuthor | ByAuthor(author: Id) | ByAuthors(authors: set<Id>)

  predicate Selects(f: PostFilter, post: Post) {
    match f
    case AnyAuthor => true
    case ByAuthor(a) => post.author == a
    case ByAuthors(s) => post.author in s
  }

  /** The `$lookup` + `$unwind` stage over the posts `f` selects: a post
      survives only when its author document exists. */
  function JoinAuthors(db: Db, f: PostFilter): (r: map<Id, PostView>)
    ensures forall p :: p in r <==> p in db.posts && Selects(f, db.posts[p]) && db.posts[p].author in db.users
    ensures forall p :: p in r ==> r[p] == PostView(db.posts[p], db.users[db.posts[p].author])
  {
    map p | p in db.posts && Selects(f, db.posts[p]) && db.posts[p].author in db.users
      :: PostView(db.posts[p], db.users[db.posts[p].author])
  }

  /** `get_all_posts`. */
  function GetAllPosts(db: Db): (r: map<Id, PostView>)
    ensures forall p :: p in r <==> p in db.posts && db.posts[p].author in db.users
    ensures forall p :: p in r ==> r[p].post == db.posts[p] && r[p].author == db.users[db.posts[p].author]
  {
    JoinAuthors(db, AnyAuthor)
  }

  /** `get_post_by_id`: fails with `PostNotFound` when the post is missing or
      its author document is gone. */
  function GetPostById(db: Db, p: Id): (r: Result<PostView>)
    ensures r.Err? <==> p !in db.posts || db.posts[p].author !in db.users
    ensures r.Err? ==> r.error == PostNotFound
    ensures r.Ok? ==> r.value == PostView(db.posts[p], db.users[db.posts[p].author])
  {
    if p in db.posts && db.posts[p].author in db.users then
      Ok(PostView(db.posts[p], db.users[db.posts[p].author]))
    else
      Err(PostNotFound)
  }

  /** `get_posts_by_author`: no existence check on the author, so a missing
      author yields no posts. */
  function GetPostsByAuthor(db: Db, a: Id): (r: map<Id, PostView>)
    ensures a !in db.users ==> r == map[]
    ensures forall p :: p in r <==> p in db.posts && db.posts[p].author == a && a in db.users
    ensures forall p :: p in r ==> r[p] == PostView(db.posts[p], db.users[a])
  {
    JoinAuthors(db, ByAuthor(a))
  }

  /** The authors whose posts make up the feed of `u`: `u` and every id in
      its followings list. */
  function FeedAuthors(user: User, u: Id): (r: set<Id>)
    ensures u in r
    ensures forall a :: a in r <==> a == u || a in user.followings
  {
    {u} + set a | a in user.followings
  }

  /** `get_post_feed`: fails with `UserNotFound` when `u` is missing;
      otherwise the posts of `u` and of everyone `u` follows, less those whose
      author document is gone. */
  function GetPostFeed(db: Db, u: Id): (r: Result<map<Id, PostView>>)
    ensures r.Err? <==> u !in db.users
    ensures r.Err? ==> r.error == UserNotFound
    ensures r.Ok? ==> forall p :: p in r.value <==>
      && p in db.posts
      && (db.posts[p].author == u || db.posts[p].author in db.users[u].followings)
      && db.posts[p].author in db.users
    ensures r.Ok? ==> forall p :: p in r.value ==>
      r.value[p].post == db.posts[p] && r.value[p].author == db.users[db.posts[p].author]
  {
    var user :- GetUserById(db, u);
    var authors := FeedAuthors(user, u);
    Ok(JoinAuthors(db, ByAuthors(authors)))
  }

  /** `create_post`: the author must exist; the new post is stamped with one
      instant for both creation and modification. */
  function CreatePost(db: Db, content: string, author: Id, now: Time, newId: Id): (r: Result<(Db, PostView)>)
    requires newId !in db.posts
    ensures r.Err? <==> author !in db.users
    ensures r.Err? ==> r.error == UserNotFound
    ensures r.Ok? ==>
      var (db', view) := r.value;
      && db'.users == db.users && db'.comments == db.comments
      && db'.posts.Keys == db.posts.Keys + {newId}
      && (forall p :: p in db.posts ==> db'.posts[p] == db.posts[p])
      && db'.posts[newId] == view.post
      && view.post.author == author && view.post.content == content
      && view.post.creationTime == view.post.modificationTime == now
      && view.author == db.users[author]
  {
    var user :- GetUserById(db, author);
    var post := Post(content, now, now, author);
    Ok((db.(posts := db.posts[newId := post]), PostView(post, user)))
  }

  /** `update_post`: sets the content and the modification time of the post
      matched by id and optional author, or fails with `PostNotFound`. */
  function UpdatePost(db: Db, p: Id, content: string, author: Option<Id>, now: Time): (r: Result<Db>)
    ensures r.Err? <==> !Matches(db, p, author)
    ensures r.Err? ==> r.error == PostNotFound
    ensures r.Ok? ==>
      && r.value.users == db.users && r.value.comments == db.comments
      && r.value.posts.Keys == db.posts.Keys
      && (forall q :: q in db.posts && q != p ==> r.value.posts[q] == db.posts[q])
      && r.value.posts[p] == db.posts[p].(content := content, modificationTime := now)
  {
    if !Matches(db, p, author) then Err(PostNotFound)
    else
      var prev := db.posts[p];
      Ok(db.(posts := db.posts[p := Post(content, prev.creationTime, now, prev.author)]))
  }

  /** `delete_post`: removes the post matched by id and optional author and
      then every comment of it; when nothing matches it fails with
      `PostNotFound` before any comment is touched. */
  function DeletePost(db: Db, p: Id, author: Option<Id>): (r: Result<Db>)
    ensures r.Err? <==> !Matches(db, p, author)
    ensures r.Err? ==> r.error == PostNotFound
    ensures r.Ok? ==>
      && r.value.users == db.users
      && r.value.posts.Keys == db.posts.Keys - {p}
      && (forall q :: q in r.value.posts ==> r.value.posts[q] == db.posts[q])
      && (forall c :: c in r.value.comments <==> c in db.comments && db.comments[c].post != p)
      && (forall c :: c in r.value.comments ==> r.value.comments[c] == db.comments[c])
  {
    if !Matches(db, p, author) then Err(PostNotFound)
    else
      var db1 := db.(posts := map q | q in db.posts && q != p :: db.posts[q]);
      Ok(Comments.DeleteCommentsOfPost(db1, p).0)
  }

  /** The ids of the posts of author `a`. */
  function PostsOf(db: Db, a: Id): (r: set<Id>)
    ensures forall p :: p in r <==> p in db.posts && db.posts[p].author == a
  {
    set p | p in db.posts && db.posts[p].author == a
  }

  /** `delete_posts_by_author`: deletes the comments of the author's posts,
      then the posts, and reports whether any post was deleted. */
  function DeletePostsByAuthor(db: Db, a: Id): (r: (Db, bool))
    ensures r.0.users == db.users
    ensures forall p :: p in r.0.posts <==> p in db.posts && db.posts[p].author != a
    ensures forall p :: p in r.0.posts ==> r.0.posts[p] == db.posts[p]
    ensures forall c :: c in r.0.comments <==>
      c in db.comments && (db.comments[c].post !in db.posts || db.posts[db.comments[c].post].author != a)
    ensures forall c :: c in r.0.comments ==> r.0.comments[c] == db.comments[c]
    ensures r.1 <==> exists p :: p in db.posts && db.posts[p].author == a
  {
    var ids := PostsOf(db, a);
    var db1 := Comments.DeleteCommentsOfManyPosts(db, ids).0;
    var kept := map p | p in db1.posts && db1.posts[p].author != a :: db1.posts[p];
    (db1.(posts := kept), exists p :: p in db.posts && db.posts[p].author == a)
  }

  /** The feed is the union of the per-author listings of `u` and of every
      id in its followings list. */
  lemma FeedIsUnionOfAuthorListings(db: Db, u: Id)
    requires u in db.users
    ensures var feed := GetPostFeed(db, u).value;
      forall p :: p in feed <==> exists a :: a in FeedAuthors(db.users[u], u) && p in GetPostsByAuthor(db, a)
    ensures var feed := GetPostFeed(db, u).value;
      forall p :: p in feed ==> feed[p] == GetPostsByAuthor(db, db.posts[p].author)[p]
  {
    var feed := GetPostFeed(db, u).value;
    forall p | p in feed
      ensures exists a :: a in FeedAuthors(db.users[u], u) && p in GetPostsByAuthor(db, a)
    {
      var a := db.posts[p].author;
      assert p in GetPostsByAuthor(db, a);
    }
  }

  /** In a consistent store the join drops nothing: the feed holds every post
      written by `u` or by someone `u` follows. */
  lemma FeedCompleteWhenConsistent(db: Db, u: Id)
    requires Consistent(db) && u in db.users
    ensures GetPostFeed(db, u).value.Keys ==
      set p | p in db.posts && (db.posts[p].author == u || db.posts[p].author in db.users[u].followings)
  {
  }

  /** In a consistent store every post is listed by `get_all_posts`. */
  lemma AllPostsCompleteWhenConsistent(db: Db)
    requires Consistent(db)
    ensures GetAllPosts(db).Keys == db.posts.Keys
  {
  }

  /** A post whose author document is gone is invisible to every read: the
      listings, the author listing and the lookup by id. */
  lemma DanglingPostHidden(db: Db, p: Id)
    requires p in db.posts && db.posts[p].author !in db.users
    ensures p !in GetAllPosts(db)
    ensures p !in GetPostsByAuthor(db, db.posts[p].author)
    ensures GetPostById(db, p) == Err(PostNotFound)
    ensures forall u :: u in db.users ==> p !in GetPostFeed(db, u).value
  {
  }

  /** After a successful `delete_post` the post has no comments left. */
  lemma DeletePostLeavesNoComments(db: Db, p: Id, author: Option<Id>)
    requires DeletePost(db, p, author).Ok?
    ensures Comments.GetCommentsOfPost(DeletePost(db, p, author).value, p) == map[]
  {
    var db' := DeletePost(db, p, author).value;
    assert forall c :: c in db'.comments ==> db'.comments[c].post != p;
  }

  /** Creating, updating and deleting posts keep a consistent store consistent. */
  lemma PostWritesPreserveConsistency(db: Db, p: Id, content: string, author: Id, filter: Option<Id>, now: Time, newId: Id)
    requires Consistent(db) && newId !in db.posts
    ensures CreatePost(db, content, author, now, newId).Ok? ==> Consistent(CreatePost(db, content, author, now, newId).value.0)
    ensures UpdatePost(db, p, content, filter, now).Ok? ==> Consistent(UpdatePost(db, p, content, filter, now).value)
    ensures DeletePost(db, p, filter).Ok? ==> Consistent(DeletePost(db, p, filter).value)
    ensures Consistent(DeletePostsByAuthor(db, author).0)
  {
    if DeletePost(db, p, filter).Ok? {
      var db' := DeletePost(db, p, filter).value;
      forall c | c in db'.comments
        ensures db'.comments[c].post in db'.posts
      {
        assert db.comments[c].post in db.posts;
      }
    }
    var db2 := DeletePostsByAuthor(db, author).0;
    forall c | c in db2.comments
      ensures db2.comments[c].post in db2.posts
    {
      assert db.comments[c].post in db.posts;
    }
  }

  /** A created post is found by id with the content and author given, and
      appears in its author's listing and feed. */
  lemma CreateThenGetPost(db: Db, content: string, author: Id, now: Time, newId: Id)
    requires newId !in db.posts
    requires CreatePost(db, content, author, now, newId).Ok?
    ensures var (db', view) := CreatePost(db, content, author, now, newId).value;
      && GetPostById(db', newId) == Ok(view)
      && newId in GetPostsByAuthor(db', author)
      && newId in GetPostFeed(db', author).value
  {
  }

  /** An update is visible to the lookup by id; a deleted post is no longer
      found. */
  lemma WritesThenGetPost(db: Db, p: Id, content: string, author: Option<Id>, now: Time)
    ensures UpdatePost(db, p, content, author, now).Ok? && db.posts[p].author in db.users ==>
      GetPostById(UpdatePost(db, p, content, author, now).value, p).Ok?
      && GetPostById(UpdatePost(db, p, content, author, now).value, p).value.post.content == content
    ensures DeletePost(db, p, author).Ok? ==> GetPostById(DeletePost(db, p, author).value, p) == Err(PostNotFound)
  {
  }

  /** After `delete_posts_by_author` the author's listing is empty, and a
      second call removes nothing and reports `false`. */
  lemma DeletePostsByAuthorClears(db: Db, a: Id)
    ensures GetPostsByAuthor(DeletePostsByAuthor(db, a).0, a) == map[]
    ensures DeletePostsByAuthor(DeletePostsByAuthor(db, a).0, a) == (DeletePostsByAuthor(db, a).0, false)
  {
    var db1 := DeletePostsByAuthor(db, a).0;
    var db2 := DeletePostsByAuthor(db1, a).0;
    assert Comments.DeleteCommentsOfManyPosts(db1, PostsOf(db1, a)).0 == db1;
    assert db2.posts == db1.posts;
    assert db2.comments == db1.comments;
  }

  /** The existence check agrees with the writes and the read: a created post
      passes it, a deleted one fails it, an updated one still passes, and any
      post the lookup finds passes it. */
  lemma ValidateAfterPostWrites(db: Db, p: Id, content: string, author: Id, filter: Option<Id>, now: Time, newId: Id)
    requires newId !in db.posts
    ensures CreatePost(db, content, author, now, newId).Ok? ==>
      ValidatePostId(CreatePost(db, content, author, now, newId).value.0, newId) == Ok(())
    ensures DeletePost(db, p, filter).Ok? ==> ValidatePostId(DeletePost(db, p, filter).value, p) == Err(PostNotFound)
    ensures UpdatePost(db, p, content, filter, now).Ok? ==> ValidatePostId(UpdatePost(db, p, content, filter, now).value, p) == Ok(())
    ensures GetPostById(db, p).Ok? ==> ValidatePostId(db, p) == Ok(())
  {
  }
}
