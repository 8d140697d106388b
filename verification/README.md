# Social graph integrity of the flask social-media backend

The backend keeps users, posts and comments in MongoDB, which has no
foreign keys. The controllers therefore enforce the rules themselves:

- a follow edge is an id in the follower's `followings` list;
- posts and comments name their author, and comments also name their post;
- deleting a user or a post cascades by hand;
- the reads join each post or comment with its author document, and silently
  drop it when that document is gone;
- the reserved admin account cannot be updated or deleted.

This project models those controllers as pure transitions over an abstract
store: three maps from document id to document (`Store.Db`). Every call
returns a new store and a result, or an error (`UserNotFound`,
`PostNotFound`, `CommentNotFound`, `UserExists`, `InvalidEmail`). It also
models the pure helpers of the database-seeding script:

- the index-to-grid-coordinate conversion;
- the grid-neighbour follow-graph generator;
- the follow loop over the generated edges;
- the selection of isolated users and the deletion of the excess ones.

Modules:

- `Store` (store.dfy): documents, errors, the two store invariants, `$addToSet`, `$pull` and the existence checks.
- `Followings` (followings.dfy): followers, followings, follow and unfollow.
- `Users` (users.dfy): create, partial update and the deletion cascade.
- `Posts` (posts.dfy): listings, the feed, create, update, delete and delete-by-author.
- `Comments` (comments.dfy): reads, create, update, delete and the bulk deletes.
- `Legacy` (legacy.dfy): the earlier `update_user`, which has no empty-patch guard.
- `Populate` (populate.dfy): the seeding helpers.
- `Scenarios` (scenarios.dfy): concrete runs through the controllers.

Some of the environment is passed in as parameters:

- the admin e-mail address, which the source reads from the environment: `admin`;
- the e-mail format check: `valid`;
- the id the database assigns to an insert: `newId`, required fresh;
- the clock: `now`;
- the seeding script's shuffles and random draws: explicit sequences.

The earlier controller generation under `backend/controllers` has the same
logic as `backend/server` for followings, comments, user creation and the
cascade. Those parts are modelled by the same members; some rows below cite
the earlier files for that reason. Only the earlier `update_user` differs,
and it has its own member. The earlier seeding script `backend/populate.py`
shares the grid, graph and isolation helpers with `backend/tasks/populate.py`,
but it follows and deletes through HTTP requests whose responses it ignores:
a failed follow is skipped and the loop goes on (`Populate.ApplyFollowsContinuing`),
where the current script stops at the first error (`Populate.ApplyFollows`).

The code is followed where it and a plain reading of its purpose disagree.
`_index_to_pos` divides by each dimension rather than by the product of the
later ones, yet it is still injective (`Populate.IndexToPosInjective`): the
chain of quotients and remainders loses nothing. What goes wrong is that
coordinates can leave the grid; see Findings.

## Model

| member | source | states |
|---|---|---|
| Store.AddToSet | backend/server/followings/controller.py:66-69 | `$addToSet`: the id is in the result, nothing else is added, the old list is a prefix, and the list is unchanged exactly when the id was already there |
| Store.Pull | backend/server/followings/controller.py:95-98 | `$pull`: the id no longer occurs, every other id keeps its multiplicity, the length drops by the number of occurrences, and a list without the id is unchanged; `Store.PullConcat` fixes the order of what stays |
| Store.PullChangesIff | backend/server/followings/controller.py:93-103 | `$pull` changes the list if and only if the id occurs in it, which is what `modified_count > 0` reports |
| Store.PullAfterAppend | backend/server/followings/controller.py:66-98 | pulling an id from a list with that id appended gives the same result as pulling it from the list alone |
| Store.PullAll | backend/server/users/controller.py:209 | `$pull` of a set of ids: an id stays if and only if it was there and is not in the set, and the list never grows; `Store.PullAllConcat` and `Store.PullAllSingle` fix the result entry by entry |
| Store.PullIsPullAll | backend/server/users/controller.py:209 | pulling one id is pulling the singleton set |
| Store.PullAllTwice | backend/tasks/populate.py:237-239 | pulling one set and then another is pulling their union, so repeated deletions compose |
| Store.PullAllNothing | backend/tasks/populate.py:237-239 | pulling the empty set leaves the list as it was |
| Store.PullAllConcat | backend/server/followings/controller.py:95-98 | pulling from a concatenation is concatenating the pulls, so the entries that stay keep their order |
| Store.PullAllSingle | backend/server/followings/controller.py:95-98 | a single entry stays if and only if it is not pulled |
| Store.PullConcat | backend/server/followings/controller.py:95-98 | the same for pulling one id: the pull distributes over concatenation, removes the id and keeps any other single entry, which fixes the result in the order of the list |
| Store.GetUserById | backend/server/users/controller.py:29-47 | fails with `UserNotFound` if and only if no user has the id; otherwise returns that user's document |
| Store.ValidateUserId | backend/server/users/controller.py:50-64 | succeeds if and only if the user exists; fails with `UserNotFound` otherwise |
| Store.ValidatePostId | backend/server/posts/controller.py:71-84 | succeeds if and only if the post exists; fails with `PostNotFound` otherwise |
| Store.ValidateCommentId | backend/server/comments/controller.py:52-65 | succeeds if and only if the comment exists; fails with `CommentNotFound` otherwise |
| Followings.GetUserFollowers | backend/server/followings/controller.py:9-23 | exactly the users whose followings contain the id, with their documents; the id itself is not looked up |
| Followings.GetUserFollowings | backend/server/followings/controller.py:26-45 | `UserNotFound` if and only if the follower is missing; otherwise exactly the existing users named in its list, so dangling ids are skipped |
| Followings.SetFollowings | backend/server/followings/controller.py:66-69 | replaces one user's list and changes nothing else in the store |
| Followings.FollowUser | backend/server/followings/controller.py:48-74 | `UserNotFound` if and only if the followed user or the follower is missing; on success only the follower's list changes, it becomes the `$addToSet` of the old list, so a present id leaves it unchanged and an absent one is appended, and the flag is true exactly when the id was absent, which is when the list changed |
| Followings.UnfollowUser | backend/server/followings/controller.py:77-103 | `UserNotFound` if and only if the followed user or the follower is missing; on success only the follower's list changes, it becomes the `$pull` of the old list, so every occurrence is removed and the other ids keep their order and multiplicity, and the flag is true exactly when the id was present |
| Followings.FollowIdempotent | backend/server/followings/controller.py:66-74 | a second identical follow succeeds, reports no change and leaves the store as the first one left it |
| Followings.FollowUnfollowRoundTrip | backend/server/followings/controller.py:66-98 | follow then unfollow succeeds for existing users and gives back the original store if and only if the id was not in the list before |
| Followings.AddThenPull | backend/controllers/following.py:25-54 | `$pull` undoes an `$addToSet` that appended |
| Followings.SetFollowingsBack | backend/controllers/following.py:30-33 | writing a user's old list back after another write restores the store |
| Followings.FollowersFollowingsDual | backend/controllers/following.py:7-22 | for existing users, a is a follower of b if and only if b is among the followings of a |
| Followings.FollowersOfMissingUser | backend/controllers/user.py:46-51 | in a consistent store the followers of a missing user are empty rather than an error |
| Followings.FollowingsComplete | backend/controllers/user.py:54-59 | in a consistent store the followings listing holds one user per distinct id in the list |
| Followings.SelfFollowAllowed | backend/controllers/user.py:142-153 | following oneself succeeds, and the user becomes its own follower |
| Followings.FollowingsChangeKeepsInvariants | backend/server/followings/controller.py:64-69 | changing one user's list to ids of existing users keeps the store consistent and e-mails unique |
| Followings.FollowPreservesInvariants | backend/server/followings/controller.py:48-74 | a successful follow keeps referential integrity and unique e-mails |
| Followings.UnfollowPreservesInvariants | backend/controllers/user.py:156-167 | a successful unfollow keeps referential integrity and unique e-mails |
| Users.ApplyPatch | backend/server/users/controller.py:154-175 | each supplied field replaces the old one, each absent field is kept, and the followings are never touched |
| Users.CreateUser | backend/server/users/controller.py:87-129 | an invalid e-mail gives `InvalidEmail`; a valid one fails with `UserExists` if and only if another user has it, and succeeds otherwise; on success exactly one new user is added, following nobody, and nothing else changes |
| Users.UpdateUser | backend/server/users/controller.py:132-186 | `InvalidEmail` if and only if a supplied e-mail is invalid; otherwise an empty patch returns false and leaves the store as it was; `UserNotFound` exactly for a missing user or the admin account; `UserExists` if and only if the new e-mail is held by another user; no other error occurs, so every other update succeeds; on success only that user changes, by the patch, and the flag is true exactly when the store changed |
| Users.RemoveUserAndEdges | backend/server/users/controller.py:202-209 | the user document goes, the id is pulled from every remaining list, and posts and comments are untouched |
| Users.DeleteUser | backend/server/users/controller.py:189-212 | `UserNotFound`, deleting nothing, if and only if the user is missing or is the admin account; on success no user has the id, no list contains it, no post has it as author, and no comment was written by it or sits on one of its posts; every other user, post and comment is kept unchanged except for the pull |
| Users.CascadeDelete | backend/server/users/controller.py:189-212 | the cascade for a set of users in one step: the other users with those ids pulled from their lists, the posts of the other authors, and the comments neither written by a removed user nor on a post of one, all unchanged |
| Users.DeleteUserIsCascade | backend/server/users/controller.py:189-212 | a successful delete is the cascade for that one id |
| Users.CascadeTwice | backend/server/users/controller.py:202-212 | the cascade for one set and then another is the cascade for their union |
| Users.CascadeNothing | backend/server/users/controller.py:202-212 | the cascade for no user leaves the store as it was |
| Users.CascadePreservesInvariants | backend/server/users/controller.py:202-212 | the cascade for any set of users keeps referential integrity and unique e-mails |
| Users.DeleteUserAsWritten | backend/server/users/controller.py:202-204 | the delete as its filter reads to the database: fails with `UserNotFound` if and only if the user is missing, the admin account included, and otherwise removes the user |
| Users.AdminDeletableAsWritten | backend/server/users/controller.py:202-204 | as written, the admin account is deleted while the guarded delete refuses it; for every other user the two agree |
| Users.CreateUserPreservesInvariants | backend/server/users/controller.py:110-125 | a successful create keeps referential integrity and unique e-mails |
| Users.UpdateUserPreservesInvariants | backend/server/users/controller.py:169-186 | a successful update keeps referential integrity and unique e-mails |
| Users.DeleteUserPreservesInvariants | backend/server/users/controller.py:202-212 | the cascade leaves no dangling follow entry, post author, comment author or comment post |
| Users.CreateThenGetUser | backend/controllers/user.py:62-86 | a created user is found by id and follows nobody |
| Users.CreateThenDeleteUser | backend/server/users/controller.py:87-212 | in a consistent store, deleting a user right after creating it gives back the original store |
| Users.DeleteFreshUser | backend/server/users/controller.py:202-212 | the cascade for a user nobody references undoes its insertion |
| Users.RemoveFreshUser | backend/server/users/controller.py:209 | pulling an id that no list contains, after removing its document, leaves the other users as they were |
| Users.NothingOwnedBy | backend/server/users/controller.py:211-212 | in a consistent store a missing user owns no posts or comments, so both bulk deletes change nothing |
| Users.UpdateThenGetUser | backend/server/users/controller.py:169-186 | after a non-empty update the lookup by id returns the old document with the patch applied |
| Users.DeleteThenGetUser | backend/controllers/user.py:125-139 | after a delete both existence checks fail with `UserNotFound` |
| Legacy.LegacyUpdateUser | backend/controllers/user.py:89-122 | the earlier update: `InvalidEmail` if and only if a supplied e-mail is invalid; otherwise `UserNotFound` if and only if the user is missing or is the admin account, even for an empty patch; `UserExists` if and only if the new e-mail is held by another user; no other error occurs, so every other update succeeds; on success the user is patched and nothing else changes |
| Legacy.LegacyUpdateAgreesOnNonEmptyPatch | backend/controllers/user.py:89-122 | on a non-empty patch both versions fail alike and leave the same store |
| Legacy.LegacyUpdateEmptyPatch | backend/server/users/controller.py:166-167 | on an empty patch the current version returns false for any id, while the earlier one rejects a missing user and otherwise leaves the store as it was |
| Posts.JoinAuthors | backend/server/posts/controller.py:18-30 | `$lookup` + `$unwind`: exactly the selected posts whose author exists, each with its author's document |
| Posts.GetAllPosts | backend/server/posts/controller.py:11-32 | exactly the posts whose author document exists |
| Posts.GetPostById | backend/server/posts/controller.py:35-68 | `PostNotFound` if and only if the post is missing or its author is gone; otherwise the post with its author |
| Posts.GetPostsByAuthor | backend/server/posts/controller.py:87-112 | exactly that author's posts when the author exists; empty, not an error, for a missing author |
| Posts.FeedAuthors | backend/server/posts/controller.py:132-135 | the feed's authors are the user and exactly the ids in its list |
| Posts.GetPostFeed | backend/server/posts/controller.py:115-147 | `UserNotFound` if and only if the user is missing; otherwise exactly the posts by the user or by an id in its list whose author still exists, each with its author's document |
| Posts.CreatePost | backend/server/posts/controller.py:150-184 | `UserNotFound` if and only if the author is missing, inserting nothing; on success exactly one post is added, stamped with equal creation and modification times |
| Posts.UpdatePost | backend/server/posts/controller.py:187-221 | `PostNotFound` if and only if no post matches the id and the optional author; on success only that post's content and modification time change |
| Posts.DeletePost | backend/server/posts/controller.py:224-248 | `PostNotFound` if and only if nothing matches, with no comment touched; on success the post and exactly its comments go and everything else is kept |
| Posts.PostsOf | backend/server/posts/controller.py:263 | exactly the ids of the author's posts |
| Posts.DeletePostsByAuthor | backend/server/posts/controller.py:251-269 | removes exactly the author's posts and the comments on them and keeps the rest; the flag is true if and only if a post was removed |
| Posts.FeedIsUnionOfAuthorListings | backend/server/posts/controller.py:115-147 | the feed is the union of the per-author listings of the user and of everyone it follows |
| Posts.FeedCompleteWhenConsistent | backend/server/posts/controller.py:132-147 | in a consistent store the join drops nothing, and the feed holds every post by the user or by someone it follows |
| Posts.AllPostsCompleteWhenConsistent | backend/server/posts/controller.py:18-30 | in a consistent store every post is listed |
| Posts.DanglingPostHidden | backend/server/posts/controller.py:97-110 | a post whose author is gone is missing from every listing, the feed and the lookup by id |
| Posts.DeletePostLeavesNoComments | backend/server/posts/controller.py:238-248 | after a successful delete the post has no comments left |
| Posts.PostWritesPreserveConsistency | backend/server/posts/controller.py:150-269 | creating, updating and deleting posts, and deleting by author, keep the store consistent |
| Posts.CreateThenGetPost | backend/server/posts/controller.py:169-184 | a created post is found by id and appears in its author's listing and feed |
| Posts.WritesThenGetPost | backend/server/posts/controller.py:204-248 | an update is visible to the lookup by id, and a deleted post is no longer found |
| Posts.DeletePostsByAuthorClears | backend/server/posts/controller.py:263-269 | afterwards the author's listing is empty, and a second call changes nothing and returns false |
| Posts.ValidateAfterPostWrites | backend/server/posts/controller.py:71-84 | a created post passes the existence check, a deleted one fails it with `PostNotFound`, an updated one still passes, and any post the lookup by id finds passes it |
| Comments.GetCommentById | backend/server/comments/controller.py:16-49 | `CommentNotFound` if and only if the comment is missing or its author is gone; otherwise the comment with its author |
| Comments.GetCommentsOfPost | backend/server/comments/controller.py:68-93 | exactly the post's comments whose author exists; the post itself is not looked up |
| Comments.GetCommentsByAuthor | backend/server/comments/controller.py:96-117 | `UserNotFound` if and only if the author is missing; otherwise exactly its comments |
| Comments.CreateComment | backend/server/comments/controller.py:120-156 | the author is checked first (`UserNotFound`), then the post (`PostNotFound`), and either failure inserts nothing; on success exactly one comment is added, with equal creation and modification times |
| Comments.UpdateComment | backend/server/comments/controller.py:159-191 | `CommentNotFound` if and only if nothing matches the id and the optional author; on success only that comment's content and modification time change |
| Comments.DeleteComment | backend/server/comments/controller.py:194-214 | `CommentNotFound` if and only if nothing matches; on success exactly that comment goes |
| Comments.DeleteCommentsWhere | backend/controllers/comment.py:117-135 | `delete_many`: removes exactly the selected comments, keeps every other document, and reports true if and only if something was selected |
| Comments.DeleteCommentsByAuthor | backend/server/comments/controller.py:217-229 | removes exactly the author's comments; true if and only if it had one |
| Comments.DeleteCommentsOfPost | backend/server/comments/controller.py:232-244 | removes exactly the post's comments; true if and only if it had one |
| Comments.DeleteCommentsOfManyPosts | backend/server/comments/controller.py:247-262 | an empty list returns false and leaves the store as it was; otherwise removes exactly the comments on a listed post |
| Comments.CommentsOfMissingPost | backend/server/comments/controller.py:78-93 | in a consistent store a missing post's comment listing is empty rather than an error |
| Comments.DanglingCommentHidden | backend/server/comments/controller.py:29-49 | a comment whose author is gone is hidden from the lookup by id and from its post's listing |
| Comments.CommentWritesPreserveConsistency | backend/server/comments/controller.py:120-214 | creating, updating and deleting comments keep the store consistent |
| Comments.CreateThenGetComment | backend/controllers/comment.py:61-79 | a created comment is found by id as returned |
| Comments.WritesThenGetComment | backend/controllers/comment.py:82-114 | an update is visible to the lookup by id, and a deleted comment is no longer found |
| Comments.BulkDeletesClear | backend/server/comments/controller.py:217-244 | after a bulk delete the matching listing is empty, and repeating it changes nothing and returns false |
| Comments.ManyPostsDeleteClears | backend/server/comments/controller.py:247-262 | after deleting the comments of a set of posts no listed post has a comment, and a second call changes nothing and returns false |
| Comments.ValidateAfterCommentWrites | backend/server/comments/controller.py:52-65 | a created comment passes the existence check, a deleted one fails it with `CommentNotFound`, an updated one still passes, and any comment the lookup by id finds passes it |
| Populate.IndexToPos | backend/tasks/populate.py:84-103 | the conversion as written: as many coordinates as dimensions (one for none), all non-negative, and with two or more dimensions the last coordinate is below the second-to-last dimension |
| Populate.IndexToPosSingle | backend/tasks/populate.py:95-103 | with a single dimension the position is the index itself |
| Populate.IndexToPosIgnoresLast | backend/populate.py:35-44 | the last dimension is never read: replacing it does not change the result |
| Populate.IndexToPosInjective | backend/tasks/populate.py:97-101 | distinct indices get distinct positions |
| Populate.IndexToPosLeavesGrid | backend/tasks/populate.py:84-93 | in a 2 x 2 x 2 grid, index 4 is one of the eight cells but gets position (2, 0, 0), outside the grid |
| Populate.GridPos | backend/tasks/populate.py:84-103 | the corrected row-major conversion: one coordinate per dimension |
| Populate.GridPosInBounds | backend/tasks/populate.py:95-103 | the corrected conversion puts every index of the grid inside the grid |
| Populate.GridPosRoundTrip | backend/tasks/populate.py:97-103 | converting an index to a cell and back recovers the index, so the corrected conversion is one-to-one |
| Populate.PosToIndexRoundTrip | backend/tasks/populate.py:84-103 | every cell of the grid has an index below the cell count that the corrected conversion maps to it; with `GridPosRoundTrip` the conversion is a bijection between those indices and the cells |
| Populate.StepDownAsymmetric | backend/tasks/populate.py:161-162 | a one-step-down neighbour is never also one step up, and never the same position |
| Populate.PosOf | backend/tasks/populate.py:154 | `pos_of_obj` maps each user to its position and has no other keys |
| Populate.LastAt | backend/tasks/populate.py:155 | inverting `pos_of_obj` finds the last user inserted with the looked-up position, so no later user has it, and nothing when no user has it |
| Populate.AddEdge | backend/tasks/populate.py:156 | adding to a `defaultdict(set)` creates the key if needed, adds the target, and changes no other key |
| Populate.GenerateSocialGraph | backend/tasks/populate.py:143-176 | every edge joins two distinct listed users one grid step apart; every stored set is non-empty; every upward edge comes with its downward partner; every draw below the odds produced its edges; and every edge comes from such a draw |
| Populate.FollowNeighbours | backend/tasks/populate.py:158-174 | one user's pass draws against each lower neighbour, keeps the graph's shape, only adds edges, produces the edges its draws call for, and adds no edge that none of its draws calls for |
| Populate.Neighbour | backend/tasks/populate.py:155-163 | `obj_of_pos.get(following_pos)`: when found, the user one step down along dimension k, the last such in insertion order; nothing when no user sits one step down |
| Populate.DrawStep | backend/tasks/populate.py:161-174 | one iteration of the inner loop; its own contract only exposes the two cases (no neighbour: unchanged; a neighbour: `ApplyDraw`), and its properties are the three lemmas below |
| Populate.DrawStepShape | backend/tasks/populate.py:161-174 | one iteration keeps the graph's shape |
| Populate.DrawStepProduces | backend/tasks/populate.py:161-174 | one iteration only adds edges and produces the edges its draw calls for, keeping those of the earlier draws |
| Populate.DrawStepFromDraws | backend/tasks/populate.py:161-174 | one iteration adds no edge its draw does not call for |
| Populate.FromDrawsMono | backend/tasks/populate.py:158-174 | an edge accounted for by a draw before one point of the loop is accounted for at every later point |
| Populate.DrawFromDraws | backend/tasks/populate.py:168-174 | the edges one draw adds are accounted for by that draw, so every edge still comes from a draw |
| Populate.ShapeIrreflexive | backend/populate.py:79-95 | a generated graph has no self-follow |
| Populate.ApplyDraw | backend/tasks/populate.py:168-174 | below the one-way odds the follower follows the neighbour, below the two-way odds the neighbour also follows back; the resulting edges are exactly the old ones plus those, and the keys gain exactly the followers that drew an edge |
| Populate.DrawKeepsShape | backend/tasks/populate.py:37-41 | because the two-way odds are below the one-way odds, a reverse edge is only added with its forward edge, so the graph keeps its shape |
| Populate.AddKeepsShape | backend/populate.py:89-95 | adding an edge between grid neighbours keeps the shape, provided an upward edge is only added with its downward partner |
| Populate.ApplyFollows | backend/tasks/populate.py:214-216 | the follow loop succeeds if and only if every edge's endpoints exist; otherwise `UserNotFound`; on success only followings lists change |
| Populate.EndpointsShift | backend/tasks/populate.py:214-216 | every edge has existing endpoints if and only if the first one does and the rest do |
| Populate.ApplyFollowsKeeps | backend/tasks/populate.py:214-216 | the follow loop never removes a follow entry |
| Populate.ApplyFollowsAdds | backend/tasks/populate.py:214-216 | after the follow loop every generated edge is in its follower's list |
| Populate.ApplyFollowsOnlyEdges | backend/tasks/populate.py:214-216 | the follow loop adds no entry except the generated edges |
| Populate.ApplyFollowsPreservesInvariants | backend/tasks/populate.py:216 | the follow loop keeps the store consistent and e-mails unique |
| Populate.ApplyFollowsContinuing | backend/populate.py:139-144 | the earlier follow loop, which skips failed follows: only followings lists change and no entry is removed |
| Populate.ContinuingAgreesWhenNoFailure | backend/populate.py:139-144 | when no follow fails, the earlier loop reaches the same store as the current one |
| Populate.ContinuingAddsValidEdges | backend/populate.py:139-144 | in the earlier loop every edge whose two users exist ends up in its follower's list, whatever failed before it |
| Populate.FindIsolated | backend/tasks/populate.py:220-228 | a user is isolated if and only if it is listed, has no key in the graph, and is in no listed user's set |
| Populate.IsolatedMeansNoEdges | backend/populate.py:147-155 | on a generated graph, isolated means it follows nobody and nobody follows it |
| Populate.ExcessIsolated | backend/populate.py:161-165 | everything past the first 100 entries of the shuffled list, in order; nothing for a list of 100 or fewer |
| Populate.DeleteUsersSuppressing | backend/tasks/populate.py:237-239 | deletes the listed users and ignores `UserNotFound`: no user is added, unlisted users stay, and a listed user survives only if it is the admin account |
| Populate.PruneIsolated | backend/tasks/populate.py:230-239 | the first 100 isolated users in shuffled order stay, later ones are deleted unless they are the admin account, users not in the list stay, and an empty list changes nothing |
| Populate.Doomed | backend/tasks/populate.py:237-239 | the users a deletion run removes: exactly the listed ids that exist and are not the admin account |
| Populate.DeleteUsersSuppressingIsCascade | backend/tasks/populate.py:237-239 | deleting users one by one with `UserNotFound` suppressed is the cascade for those users, so every survivor loses exactly the deleted ids from its list and only the posts and comments tied to a deleted user go |
| Populate.DeleteUsersSuppressingPreservesInvariants | backend/tasks/populate.py:237-239 | the deletion run keeps referential integrity and unique e-mails |
| Populate.PruneIsolatedIsCascade | backend/tasks/populate.py:230-239 | pruning is the cascade for the excess isolated users other than the admin account |
| Populate.PruneIsolatedPreservesInvariants | backend/tasks/populate.py:230-239 | pruning keeps referential integrity and unique e-mails |
| Scenarios.FeedScenario | backend/server/posts/controller.py:115-147 | Bob posts P1 and Alice follows Bob, so her feed is exactly P1; after she unfollows, her feed is empty |
| Scenarios.DeleteScenario | backend/server/users/controller.py:189-212 | deleting Bob in the same run removes P1, leaves Alice and Carol, and empties their lists |
| Scenarios.CommentOnMissingPost | backend/server/comments/controller.py:139-156 | a comment by an existing author on a missing post is refused with `PostNotFound` |

## Left out

- HTTP views, routes, JWT authentication and status codes: out of scope. The "author or admin" rule reaches the model only as the optional author argument of update and delete.
- Password hashing, login, signup and password change: they wrap bcrypt. The credential is opaque bytes.
- The database client, connection, configuration, index setup and the pydantic and bson model classes. Only the unique e-mail index is kept, as the `UniqueEmails` invariant.
- `get_all_users` and `get_user_by_email`: plain reads outside the integrity logic.
- The order of query results: listings are maps from id to view, because the store's natural order is not defined.
- Concurrent interleavings of the cascades, which are not transactional: every operation is atomic here.
- Users.UpdateUser: the admin filter `{"$ne": {"$literal": admin_email}}` is modelled as intended, so the admin account is never updated. As written, the filter probably matches the admin too; see Findings. Only the delete has an as-written member.
- A duplicate-key error raised by the database for any reason other than the e-mail index is not modelled.
- `backend/controllers/post.py` is not part of this model. The earlier `delete_user` calls its `delete_posts_by_author`. That function is assumed to behave like the current `Posts.DeletePostsByAuthor`.
- `_randint_norm`, `randint_norm`, `_get_user_dims` and `get_user_dims`: randomness and a floating-point cube root. The grid positions are an input to `Populate.GenerateSocialGraph`.
- Faker, `shuffle`, `random()` and tqdm. The shuffled orders and the draws are inputs. The generator reads the draw for user i and dimension k only when that neighbour exists. This gives the same outcomes as one fresh draw per existing neighbour.
- The order in which the follow loop walks the generated map: it is an input sequence of edges to `Populate.ApplyFollows`.
- Creating users, posts and comments in the seeding script: Faker data and HTTP calls. Only the graph, follow and pruning steps are modelled.
- The earlier seeding script deletes over HTTP without suppressing errors and ignores the response. A failed delete changes nothing there either, so `Populate.DeleteUsersSuppressing` covers both versions.
- Legacy.LegacyUpdateUser: an empty patch sends `{"$set": {}}`, which is taken to be accepted as a no-op. Database versions that reject an empty `$set` are not modelled.
- Populate.ApplyFollows: in `backend/tasks/populate.py` an error from `follow_user` ends the whole seeding run. Here it is an `Err` result, and the store reached before the failing edge is not returned. The earlier script's loop, which skips failures, is `Populate.ApplyFollowsContinuing`.

## Findings

| source | as written | input that shows it | evidently intended | confidence | as-written member | corrected member |
|---|---|---|---|---|---|---|
| backend/tasks/populate.py:97-101 | each coordinate but the last is the remaining index divided by that dimension itself, and the remainder modulo that dimension is carried on | dimensions (2, 2, 2), index 4: gives (2, 0, 0), whose first coordinate is outside a dimension of size 2 | row-major coordinates, each dividing by the product of the later dimensions, so that every index below the cell count lands inside the grid and the conversion is a bijection onto the cells | medium, not executed; `backend/populate.py:35-44` has the same code | Populate.IndexToPosLeavesGrid | Populate.GridPos |
| backend/server/users/controller.py:202-204 | the admin guard is `{"$ne": {"$literal": admin_email}}` inside a query filter, where `$literal` is no operator, so the e-mail string is compared with an embedded document that it never equals; `update_user` has the same filter at lines 170-174 | the admin account's id passed to `delete_user`: the filter matches it and the account is deleted | the admin account never matches, so it can be neither updated nor deleted | low, not executed; it depends on how the query engine reads the filter | Users.AdminDeletableAsWritten | Users.DeleteUser |
