/**
 The comments controller: reads that join each comment with its author,
 creation after checking the author and then the post, updates and deletes
 scoped by an optional expected author, and the bulk deletes the cascades use.
 */
module Comments {
  import opened Store

  /** The comment `c` would be matched by a filter on its id and, when one is
      given, on its author. This is how "author or admin" reaches the store. */
  predicate Matches(db: Db, c: Id, author: Option<Id>) {
    c in db.comments && (author.None? || db.comments[c].author == author.value)
  }

  /** `get_comment_by_id`: the comment joined with its author. A comment whose
      author document is gone is dropped by the join, so it is reported as
      not found too. */
  function GetCommentById(db: Db, c: Id): (r: Result<CommentView>)
    ensures r.Err? <==> c !in db.comments || db.comments[c].author !in db.users
    ensures r.Err? ==> r.error == CommentNotFound
    ensures r.Ok? ==> r.value.comment == db.comments[c] && r.value.author == db.users[db.comments[c].author]
  {
    if c in db.comments && db.comments[c].author in db.users then
      Ok(CommentView(db.comments[c], db.users[db.comments[c].author]))
    else
      Err(CommentNotFound)
  }

  /** `get_comments_of_post`: the comments whose `post` is `p` and whose author
      still exists. The post itself is not looked up. */
  function GetCommentsOfPost(db: Db, p: Id): (r: map<Id, CommentView>)
    ensures forall c :: c in r <==> c in db.comments && db.comments[c].post == p && db.comments[c].author in db.users
    ensures forall c :: c in r ==> r[c] == CommentView(db.comments[c], db.users[db.comments[c].author])
  {
    map c | c in db.comments && db.comments[c].post == p && db.comments[c].author in db.users
      :: CommentView(db.comments[c], db.users[db.comments[c].author])
  }

  /** `get_comments_by_author`: the author must exist; every comment of that
      author is returned with the author document attached. */
  function GetCommentsByAuthor(db: Db, a: Id): (r: Result<map<Id, CommentView>>)
    ensures r.Err? <==> a !in db.users
    ensures r.Err? ==> r.error == UserNotFound
    ensures r.Ok? ==> forall c :: c in r.value <==> c in db.comments && db.comments[c].author == a
    ensures r.Ok? ==> forall c :: c in r.value ==> r.value[c] == CommentView(db.comments[c], db.users[a])
  {
    if a !in db.users then Err(UserNotFound)
    else Ok(map c | c in db.comments && db.comments[c].author == a :: CommentView(db.comments[c], db.users[a]))
  }

  /** `create_comment`: the author is checked first, then the post; either
      failure inserts nothing. `newId` is the id the database assigns. */
  function CreateComment(db: Db, content: string, author: Id, post: Id, now: Time, newId: Id): (r: Result<(Db, CommentView)>)
    requires newId !in db.comments
    ensures r.Err? <==> author !in db.users || post !in db.posts
    ensures author !in db.users ==> r == Err(UserNotFound)
    ensures author in db.users && post !in db.posts ==> r == Err(PostNotFound)
    ensures r.Ok? ==>
      var (db', view) := r.value;
      && db'.users == db.users && db'.posts == db.posts
      && db'.comments.Keys == db.comments.Keys + {newId}
      && (forall c :: c in db.comments ==> db'.comments[c] == db.comments[c])
      && db'.comments[newId] == view.comment
      && view.comment.author == author && view.comment.post == post && view.comment.content == content
      && view.comment.creationTime == view.comment.modificationTime == now
      && view.author == db.users[author]
  {
    var user :- GetUserById(db, author);
    var _ :- ValidatePostId(db, post);
    var comment := Comment(content, author, post, now, now);
    Ok((db.(comments := db.comments[newId := comment]), CommentView(comment, user)))
  }

  /** `update_comment`: sets the content and the modification time of the
      comment matched by id and optional author, or fails with
      `CommentNotFound` when nothing matches. */
  function UpdateComment(db: Db, c: Id, content: string, author: Option<Id>, now: Time): (r: Result<Db>)
    ensures r.Err? <==> !Matches(db, c, author)
    ensures r.Err? ==> r.error == CommentNotFound
    ensures r.Ok? ==>
      && r.value.users == db.users && r.value.posts == db.posts
      && r.value.comments.Keys == db.comments.Keys
      && (forall d :: d in db.comments && d != c ==> r.value.comments[d] == db.comments[d])
      && r.value.comments[c] == db.comments[c].(content := content, modificationTime := now)
  {
    if !Matches(db, c, author) then Err(CommentNotFound)
    else
      var prev := db.comments[c];
      Ok(db.(comments := db.comments[c := Comment(content, prev.author, prev.post, prev.creationTime, now)]))
  }

  /** `delete_comment`: removes the comment matched by id and optional author,
      or fails with `CommentNotFound` when nothing matches. */
  function DeleteComment(db: Db, c: Id, author: Option<Id>): (r: Result<Db>)
    ensures r.Err? <==> !Matches(db, c, author)
    ensures r.Err? ==> r.error == CommentNotFound
    ensures r.Ok? ==>
      && r.value.users == db.users && r.value.posts == db.posts
      && r.value.comments.Keys == db.comments.Keys - {c}
      && (forall d :: d in r.value.comments ==> r.value.comments[d] == db.comments[d])
  {
    if !Matches(db, c, author) then Err(CommentNotFound)
    else Ok(db.(comments := map d | d in db.comments && d != c :: db.comments[d]))
  }

  /** The filters the controller passes to `delete_many` on comments. */
  datatype CommentFilter = WrittenBy(author: Id) | OnPost(post: Id) | OnAnyOf(posts: set<Id>)

  predicate Selects(f: CommentFilter, c: Comment) {
    match f
    case WrittenBy(a) => c.author == a
    case OnPost(p) => c.post == p
    case OnAnyOf(ps) => c.post in ps
  }

  /** `delete_many` on comments: remove exactly the comments `f` selects and
      report whether anything was removed. */
  function DeleteCommentsWhere(db: Db, f: CommentFilter): (r: (Db, bool))
    ensures r.0.users == db.users && r.0.posts == db.posts
    ensures forall c :: c in r.0.comments <==> c in db.comments && !Selects(f, db.comments[c])
    ensures forall c :: c in r.0.comments ==> r.0.comments[c] == db.comments[c]
    ensures r.1 <==> exists c :: c in db.comments && Selects(f, db.comments[c])
  {
    var kept := map c | c in db.comments && !Selects(f, db.comments[c]) :: db.comments[c];
    (db.(comments := kept), exists c :: c in db.comments && Selects(f, db.comments[c]))
  }

  /** `delete_comments_by_author`. */
  function DeleteCommentsByAuthor(db: Db, a: Id): (r: (Db, bool))
    ensures r.0.users == db.users && r.0.posts == db.posts
    ensures forall c :: c in r.0.comments <==> c in db.comments && db.comments[c].author != a
    ensures forall c :: c in r.0.comments ==> r.0.comments[c] == db.comments[c]
    ensures r.1 <==> exists c :: c in db.comments && db.comments[c].author == a
  {
    DeleteCommentsWhere(db, WrittenBy(a))
  }

  /** `delete_comments_of_post`. */
  function DeleteCommentsOfPost(db: Db, p: Id): (r: (Db, bool))
    ensures r.0.users == db.users && r.0.posts == db.posts
    ensures forall c :: c in r.0.comments <==> c in db.comments && db.comments[c].post != p
    ensures forall c :: c in r.0.comments ==> r.0.comments[c] == db.comments[c]
    ensures r.1 <==> exists c :: c in db.comments && db.comments[c].post == p
  {
    DeleteCommentsWhere(db, OnPost(p))
  }

  /** `delete_comments_of_many_posts`: an empty id list returns `false` without
      touching the store; otherwise the comments of any listed post go. */
  function DeleteCommentsOfManyPosts(db: Db, ps: set<Id>): (r: (Db, bool))
    ensures ps == {} ==> r == (db, false)
    ensures r.0.users == db.users && r.0.posts == db.posts
    ensures forall c :: c in r.0.comments <==> c in db.comments && db.comments[c].post !in ps
    ensures forall c :: c in r.0.comments ==> r.0.comments[c] == db.comments[c]
    ensures r.1 <==> exists c :: c in db.comments && db.comments[c].post in ps
  {
    if ps == {} then
      (db, false)
    else
      DeleteCommentsWhere(db, OnAnyOf(ps))
  }

  /** In a consistent store a missing post has no comments, so the listing is
      empty rather than an error. */
  lemma CommentsOfMissingPost(db: Db, p: Id)
    requires Consistent(db) && p !in db.posts
    ensures GetCommentsOfPost(db, p) == map[]
  {
  }

  /** A comment whose author document is gone is invisible to the reads that
      join the author. */
  lemma DanglingCommentHidden(db: Db, c: Id)
    requires c in db.comments && db.comments[c].author !in db.users
    ensures GetCommentById(db, c) == Err(CommentNotFound)
    ensures c !in GetCommentsOfPost(db, db.comments[c].post)
  {
  }

  /** Creating, updating and deleting comments keep a consistent store
      consistent. */
  lemma CommentWritesPreserveConsistency(db: Db, c: Id, content: string, author: Id, post: Id, filter: Option<Id>, now: Time, newId: Id)
    requires Consistent(db) && newId !in db.comments
    ensures CreateComment(db, content, author, post, now, newId).Ok? ==>
      Consistent(CreateComment(db, content, author, post, now, newId).value.0)
    ensures UpdateComment(db, c, content, filter, now).Ok? ==> Consistent(UpdateComment(db, c, content, filter, now).value)
    ensures DeleteComment(db, c, filter).Ok? ==> Consistent(DeleteComment(db, c, filter).value)
  {
  }

  /** A created comment is found by id with the content and author given. */
  lemma CreateThenGetComment(db: Db, content: string, author: Id, post: Id, now: Time, newId: Id)
    requires newId !in db.comments
    requires CreateComment(db, content, author, post, now, newId).Ok?
    ensures var (db', view) := CreateComment(db, content, author, post, now, newId).value;
      GetCommentById(db', newId) == Ok(view)
  {
  }

  /** An update is visible to the lookup by id; a deleted comment is no
      longer found. */
  lemma WritesThenGetComment(db: Db, c: Id, content: string, author: Option<Id>, now: Time)
    ensures UpdateComment(db, c, content, author, now).Ok? && db.comments[c].author in db.users ==>
      GetCommentById(UpdateComment(db, c, content, author, now).value, c).Ok?
      && GetCommentById(UpdateComment(db, c, content, author, now).value, c).value.comment.content == content
    ensures DeleteComment(db, c, author).Ok? ==> GetCommentById(DeleteComment(db, c, author).value, c) == Err(CommentNotFound)
  {
  }

  /** After a bulk delete the matching listing is empty, and repeating the
      delete removes nothing and reports `false`. */
  lemma BulkDeletesClear(db: Db, a: Id, p: Id)
    ensures a in db.users ==> GetCommentsByAuthor(DeleteCommentsByAuthor(db, a).0, a) == Ok(map[])
    ensures GetCommentsOfPost(DeleteCommentsOfPost(db, p).0, p) == map[]
    ensures DeleteCommentsByAuthor(DeleteCommentsByAuthor(db, a).0, a) == (DeleteCommentsByAuthor(db, a).0, false)
    ensures DeleteCommentsOfPost(DeleteCommentsOfPost(db, p).0, p) == (DeleteCommentsOfPost(db, p).0, false)
  {
    var db1 := DeleteCommentsByAuthor(db, a).0;
    var db2 := DeleteCommentsByAuthor(db1, a).0;
    assert db2.comments == db1.comments;
    var db3 := DeleteCommentsOfPost(db, p).0;
    var db4 := DeleteCommentsOfPost(db3, p).0;
    assert db4.comments == db3.comments;
  }

  /** After deleting the comments of a set of posts, no listed post has a
      comment left, and repeating the delete removes nothing and reports
      `false`. */
  lemma ManyPostsDeleteClears(db: Db, ps: set<Id>)
    ensures forall p :: p in ps ==> GetCommentsOfPost(DeleteCommentsOfManyPosts(db, ps).0, p) == map[]
    ensures DeleteCommentsOfManyPosts(DeleteCommentsOfManyPosts(db, ps).0, ps) == (DeleteCommentsOfManyPosts(db, ps).0, false)
  {
    var db1 := DeleteCommentsOfManyPosts(db, ps).0;
    var db2 := DeleteCommentsOfManyPosts(db1, ps).0;
    assert db2.comments == db1.comments;
  }

  /** The existence check agrees with the writes and the read: a created
      comment passes it, a deleted one fails it, an updated one still passes,
      and any comment the lookup finds passes it. */
  lemma ValidateAfterCommentWrites(db: Db, c: Id, content: string, author: Id, post: Id, filter: Option<Id>, now: Time, newId: Id)
    requires newId !in db.comments
    ensures CreateComment(db, content, author, post, now, newId).Ok? ==>
      ValidateCommentId(CreateComment(db, content, author, post, now, newId).value.0, newId) == Ok(())
    ensures DeleteComment(db, c, filter).Ok? ==> ValidateCommentId(DeleteComment(db, c, filter).value, c) == Err(CommentNotFound)
    ensures UpdateComment(db, c, content, filter, now).Ok? ==> ValidateCommentId(UpdateComment(db, c, content, filter, now).value, c) == Ok(())
    ensures GetCommentById(db, c).Ok? ==> ValidateCommentId(db, c) == Ok(())
  {
  }
}
