/**
 The document store of the social-media backend, abstracted as three maps
 keyed by document id, together with the error kinds the controllers raise,
 the two single-document list operators they use (`$addToSet` and `$pull`),
 and the existence lookups every controller builds on.

 There are no foreign keys in the store: referential integrity is a property
 of the store (`Consistent`) that the controllers maintain by hand.
 */
module Store {

  /** A document id. It stands for a database-generated ObjectId: only
      equality between ids is ever used. */
  type Id = nat

  /** A UTC instant, taken as an input wherever the source reads the clock. */
  type Time = int

  /** A hashed credential, opaque to the model. */
  type Bytes = seq<bv8>

  datatype Option<+T> = None | Some(value: T)

  /** The errors the controllers raise. `InvalidEmail` is the validation
      error of the e-mail format check. */
  datatype Error = UserNotFound | PostNotFound | CommentNotFound | UserExists | InvalidEmail

  /** The outcome of a controller: a value or one of the errors above. */
  datatype Result<+T> = Ok(value: T) | Err(error: Error) {
    predicate IsFailure() {
      Err?
    }

    function PropagateFailure<U>(): Result<U>
      requires Err?
    {
      Err(error)
    }

    function Extract(): T
      requires Ok?
    {
      value
    }
  }

  datatype User = User(name: string, email: string, credential: Bytes, followings: seq<Id>)

  datatype Post = Post(content: string, creationTime: Time, modificationTime: Time, author: Id)

  datatype Comment = Comment(content: string, author: Id, post: Id, creationTime: Time, modificationTime: Time)

  datatype Db = Db(users: map<Id, User>, posts: map<Id, Post>, comments: map<Id, Comment>)

  /** A post with its author document joined in (`$lookup` + `$unwind`). */
  datatype PostView = PostView(post: Post, author: User)

  /** A comment with its author document joined in. */
  datatype CommentView = CommentView(comment: Comment, author: User)

  /** The unique index on `users.email`. */
  predicate UniqueEmails(db: Db) {
    forall u, v :: u in db.users && v in db.users && db.users[u].email == db.users[v].email ==> u == v
  }

  /** Referential integrity: every follow entry, author and post reference
      names an existing document. */
  predicate Consistent(db: Db) {
    && (forall u, f :: u in db.users && f in db.users[u].followings ==> f in db.users)
    && (forall p :: p in db.posts ==> db.posts[p].author in db.users)
    && (forall c :: c in db.comments ==> db.comments[c].author in db.users && db.comments[c].post in db.posts)
  }

  /** Some user other than `except` already has e-mail `email`. Passing an id
      no user has asks whether the e-mail is taken at all. */
  predicate EmailTakenByOther(db: Db, email: string, except: Id) {
    exists v :: v in db.users && v != except && db.users[v].email == email
  }

  /** `$addToSet`: append `x` only when it is absent. */
  function AddToSet(l: seq<Id>, x: Id): (r: seq<Id>)
    ensures x in r
    ensures forall y :: y in r <==> y in l || y == x
    ensures |l| <= |r| <= |l| + 1
    ensures r[..|l|] == l
    ensures r == l <==> x in l
  {
    if x in l then l else l + [x]
  }

  /** `$pull`: remove every occurrence of `x`, keeping the order of the rest. */
  function Pull(l: seq<Id>, x: Id): (r: seq<Id>)
    ensures x !in r
    ensures forall y :: y != x ==> multiset(r)[y] == multiset(l)[y]
    ensures |r| + multiset(l)[x] == |l|
    ensures x !in l ==> r == l
  {
    if |l| == 0 then []
    else
      assert l == [l[0]] + l[1..];
      if l[0] == x then Pull(l[1..], x) else [l[0]] + Pull(l[1..], x)
  }

  /** `$pull` changes the list exactly when the value occurs in it. */
  lemma PullChangesIff(l: seq<Id>, x: Id)
    ensures Pull(l, x) == l <==> x !in l
  {
  }

  /** Pulling a value appended by `$addToSet` undoes the append. */
  lemma {:induction false} PullAfterAppend(l: seq<Id>, x: Id)
    ensures Pull(l + [x], x) == Pull(l, x)
  {
    if |l| == 0 {
      assert l + [x] == [x];
      assert [x][1..] == [];
    } else {
      assert (l + [x])[0] == l[0];
      assert (l + [x])[1..] == l[1..] + [x];
      PullAfterAppend(l[1..], x);
    }
  }

  /** `$pull` of every id in `xs` at once: the entries of `l` outside `xs`,
      in their order. */
  function PullAll(l: seq<Id>, xs: set<Id>): (r: seq<Id>)
    ensures forall y :: y in r <==> y in l && y !in xs
    ensures |r| <= |l|
  {
    if |l| == 0 then []
    else (if l[0] in xs then [] else [l[0]]) + PullAll(l[1..], xs)
  }

  /** `$pull` works element by element: pulling from a concatenation is
      concatenating the pulls, so the entries that stay keep their order. */
  lemma {:induction false} PullAllConcat(a: seq<Id>, b: seq<Id>, xs: set<Id>)
    ensures PullAll(a + b, xs) == PullAll(a, xs) + PullAll(b, xs)
  {
    if |a| > 0 {
      PullAllConcat(a[1..], b, xs);
      assert (a + b)[0] == a[0];
      assert (a + b)[1..] == a[1..] + b;
    } else {
      assert a + b == b;
    }
  }

  /** A single entry stays exactly when it is not pulled. */
  lemma PullAllSingle(y: Id, xs: set<Id>)
    ensures PullAll([y], xs) == if y in xs then [] else [y]
  {
    assert [y][1..] == [];
  }

  /** The same two facts for pulling one id; with `PullAllConcat` they fix
      `Pull(l, x)` entry by entry, in the order of `l`. */
  lemma PullConcat(a: seq<Id>, b: seq<Id>, x: Id)
    ensures Pull(a + b, x) == Pull(a, x) + Pull(b, x)
    ensures Pull([x], x) == [] && forall y :: y != x ==> Pull([y], x) == [y]
  {
    PullIsPullAll(a + b, x);
    PullIsPullAll(a, x);
    PullIsPullAll(b, x);
    PullAllConcat(a, b, {x});
    PullIsPullAll([x], x);
    PullAllSingle(x, {x});
    forall y | y != x
      ensures Pull([y], x) == [y]
    {
      PullIsPullAll([y], x);
      PullAllSingle(y, {x});
    }
  }

  /** Pulling one id is pulling the singleton set. */
  lemma {:induction false} PullIsPullAll(l: seq<Id>, x: Id)
    ensures Pull(l, x) == PullAll(l, {x})
  {
    if |l| > 0 {
      PullIsPullAll(l[1..], x);
    }
  }

  /** Pulling one set and then another is pulling their union. */
  lemma {:induction false} PullAllTwice(l: seq<Id>, a: set<Id>, b: set<Id>)
    ensures PullAll(PullAll(l, a), b) == PullAll(l, a + b)
  {
    if |l| > 0 {
      PullAllTwice(l[1..], a, b);
      var head := if l[0] in a then [] else [l[0]];
      assert PullAll(l, a) == head + PullAll(l[1..], a);
      if l[0] !in a {
        assert (head + PullAll(l[1..], a))[1..] == PullAll(l[1..], a);
      } else {
        assert head + PullAll(l[1..], a) == PullAll(l[1..], a);
      }
    }
  }

  /** Pulling nothing leaves the list as it is. */
  lemma {:induction false} PullAllNothing(l: seq<Id>)
    ensures PullAll(l, {}) == l
  {
    if |l| > 0 {
      PullAllNothing(l[1..]);
      assert l == [l[0]] + l[1..];
    }
  }

  /** `get_user_by_id`: the user document, or `UserNotFound`. */
  function GetUserById(db: Db, u: Id): (r: Result<User>)
    ensures r.Err? <==> u !in db.users
    ensures r.Err? ==> r.error == UserNotFound
    ensures r.Ok? ==> r.value == db.users[u]
  {
    if u in db.users then Ok(db.users[u]) else Err(UserNotFound)
  }

  /** `validate_user_id`: existence check without reading the document. */
  function ValidateUserId(db: Db, u: Id): (r: Result<()>)
    ensures r.Ok? <==> u in db.users
    ensures r.Err? ==> r.error == UserNotFound
  {
    if u in db.users then Ok(()) else Err(UserNotFound)
  }

  /** `validate_post_id`: existence check for a post. */
  function ValidatePostId(db: Db, p: Id): (r: Result<()>)
    ensures r.Ok? <==> p in db.posts
    ensures r.Err? ==> r.error == PostNotFound
  {
    if p in db.posts then Ok(()) else Err(PostNotFound)
  }

  /** `validate_comment_id`: existence check for a comment. */
  function ValidateCommentId(db: Db, c: Id): (r: Result<()>)
    ensures r.Ok? <==> c in db.comments
    ensures r.Err? ==> r.error == CommentNotFound
  {
    if c in db.comments then Ok(()) else Err(CommentNotFound)
  }
}
