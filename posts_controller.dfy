/**
 * The post endpoints (src/posts/posts.controller.ts): the existence and
 * ownership gates in front of the mutations, the handlers that call the
 * service, and the response messages.
 */
module PostsController {
  import opened Wrappers
  import opened Strings
  import opened Failures
  import opened Schema
  import opened UsersService
  import opened PostsService

  /** `req.user` as this controller reads it: `{ sub, role }`. */
  datatype Caller = Caller(sub: int, role: Role)

  datatype PostResponse = PostResponse(message: string, post: PostRow)

  const POST_NOT_FOUND := NotFoundException("Post not found")
  const USER_NOT_FOUND := NotFoundException("User not found")
  const UPDATE_FORBIDDEN := Custom("You are not allowed to update this post", FORBIDDEN, "PC-u-1")
  const PUBLISH_FORBIDDEN := Custom("You are not allowed to publish this post", FORBIDDEN, "PC-p-1")
  const DELETE_FORBIDDEN := Custom("You are not allowed to delete this post", FORBIDDEN, "PC-d-1")

  /** The failure `create` raises when the caller's user row is missing. */
  function AuthorNotFound(sub: int): Failure {
    Custom("Pas de users trouvé avec l'id: " + IntToString(sub), NOT_FOUND, "PC-c-1")
  }

  // ------------------------------------------------------------------ gate

  /** The caller is an admin or the post's author. */
  predicate MayMutate(caller: Caller, post: PostRow) {
    caller.role == Admin || post.userId == caller.sub
  }

  /**
   * The gate of `update`, `publish` and `delete`: a missing post is a 404 whoever asks; an
   * existing one is refused with `forbidden` unless the caller may mutate it.
   */
  function MutationGate(post: Option<PostRow>, caller: Caller, forbidden: Failure): (r: Result<PostRow, Failure>)
    requires forbidden.Custom?
    ensures r == Err(POST_NOT_FOUND) <==> post.None?
    ensures r == Err(forbidden) <==> post.Some? && caller.role != Admin && post.value.userId != caller.sub
    ensures r.Ok? <==> post.Some? && MayMutate(caller, post.value)
    ensures r.Ok? ==> r.value == post.value
  {
    if post.None? then Err(POST_NOT_FOUND)
    else if caller.role != Admin && post.value.userId != caller.sub then Err(forbidden)
    else Ok(post.value)
  }

  /** An admin passes the gate on every existing post, an author on each of their own. */
  lemma AdminOrAuthorPasses(post: PostRow, caller: Caller, forbidden: Failure)
    requires forbidden.Custom?
    ensures caller.role == Admin ==> MutationGate(Some(post), caller, forbidden) == Ok(post)
    ensures post.userId == caller.sub ==> MutationGate(Some(post), caller, forbidden) == Ok(post)
  {
  }

  // -------------------------------------------------------------- handlers

  /** `create(dto, req)`: the author is the authenticated caller, who must still exist. */
  method CreatePost(db: Database, dto: CreatePostDto, caller: Caller, now: int) returns (r: Result<PostResponse, Failure>)
    requires db.Valid()
    modifies db
    ensures db.Valid()
    ensures db.users == old(db.users) && db.likes == old(db.likes) && db.tokens == old(db.tokens)
    ensures db.nextUserId == old(db.nextUserId)
    ensures !HasUser(old(db.users), caller.sub) ==>
      r == Err(AuthorNotFound(caller.sub)) && db.posts == old(db.posts) && db.nextPostId == old(db.nextPostId)
    ensures HasUser(old(db.users), caller.sub) ==>
      && r == Ok(PostResponse("Post created successfully", NewPost(old(db.nextPostId), dto, caller.sub, now)))
      && r.value.post.userId == caller.sub
      && db.posts == old(db.posts) + [r.value.post]
  {
    var user := FindOneById(db.users, caller.sub);
    if user.None? {
      return Err(AuthorNotFound(caller.sub));
    }
    var created := PostsService.Create(db, dto, user.value.id, now);
    r := Ok(PostResponse("Post created successfully", created.value));
  }

  /** `update(id, dto, req)`. */
  method UpdatePost(db: Database, id: int, patch: PostPatch, caller: Caller) returns (r: Result<PostResponse, Failure>)
    requires db.Valid()
    modifies db
    ensures db.Valid()
    ensures db.users == old(db.users) && db.likes == old(db.likes) && db.tokens == old(db.tokens)
    ensures db.nextUserId == old(db.nextUserId) && db.nextPostId == old(db.nextPostId)
    ensures MutationGate(FindOne(old(db.posts), id), caller, UPDATE_FORBIDDEN).Err? ==>
      r == Err(MutationGate(FindOne(old(db.posts), id), caller, UPDATE_FORBIDDEN).error) && db.posts == old(db.posts)
    ensures MutationGate(FindOne(old(db.posts), id), caller, UPDATE_FORBIDDEN).Ok? ==>
      && db.posts == Rewritten(old(db.posts), id, ApplyPatch(patch))
      && r == Ok(PostResponse("Post updated successfully", Apply(FindOne(old(db.posts), id).value, patch)))
  {
    var gate := MutationGate(FindOne(db.posts, id), caller, UPDATE_FORBIDDEN);
    if gate.Err? {
      return Err(gate.error);
    }
    var updated := PostsService.Update(db, id, patch);
    r := Ok(PostResponse("Post updated successfully", updated.value));
  }

  /** The message of `publish`, read from the post before the toggle. */
  function PublishMessage(before: PostRow): (m: string)
    ensures m == "Post unpublished" <==> before.isPublished
    ensures m == "Post published" <==> !before.isPublished
  {
    "Post " + (if before.isPublished then "unpublished" else "published")
  }

  /** `publish(id, req)`. */
  method PublishPost(db: Database, id: int, caller: Caller) returns (r: Result<PostResponse, Failure>)
    requires db.Valid()
    modifies db
    ensures db.Valid()
    ensures db.users == old(db.users) && db.likes == old(db.likes) && db.tokens == old(db.tokens)
    ensures db.nextUserId == old(db.nextUserId) && db.nextPostId == old(db.nextPostId)
    ensures MutationGate(FindOne(old(db.posts), id), caller, PUBLISH_FORBIDDEN).Err? ==>
      r == Err(MutationGate(FindOne(old(db.posts), id), caller, PUBLISH_FORBIDDEN).error) && db.posts == old(db.posts)
    ensures MutationGate(FindOne(old(db.posts), id), caller, PUBLISH_FORBIDDEN).Ok? ==>
      var before := FindOne(old(db.posts), id).value;
      && db.posts == Rewritten(old(db.posts), id, FlipPublished())
      && r == Ok(PostResponse(PublishMessage(before), Flipped(before)))
  {
    var gate := MutationGate(FindOne(db.posts, id), caller, PUBLISH_FORBIDDEN);
    if gate.Err? {
      return Err(gate.error);
    }
    var message := PublishMessage(gate.value);
    var published := PostsService.Publish(db, id);
    r := Ok(PostResponse(message, published.value));
  }

  /** `like(id, req)`: only the post's existence is checked, then the toggle runs for the caller. */
  method LikePost(db: Database, id: int, caller: Caller) returns (r: Result<PostResponse, Failure>)
    requires db.Valid()
    modifies db
    ensures db.Valid()
    ensures db.users == old(db.users) && db.tokens == old(db.tokens)
    ensures db.nextUserId == old(db.nextUserId) && db.nextPostId == old(db.nextPostId)
    ensures !HasPost(old(db.posts), id) ==>
      r == Err(POST_NOT_FOUND) && db.posts == old(db.posts) && db.likes == old(db.likes)
    ensures HasPost(old(db.posts), id) && (Like(caller.sub, id) in old(db.likes) || HasUser(old(db.users), caller.sub)) ==>
      && db.likes == ToggledLikes(old(db.likes), caller.sub, id)
      && db.posts == ShiftLikeCount(old(db.posts), id, ToggleDelta(old(db.likes), caller.sub, id))
      && r.Ok? && r.value.message == "Post liked successfully" && r.value.post.id == id
    ensures HasPost(old(db.posts), id) && Like(caller.sub, id) !in old(db.likes) && !HasUser(old(db.users), caller.sub) ==>
      r == Err(PrismaError(FOREIGN_KEY_CONSTRAINT_FAILED)) && db.posts == old(db.posts) && db.likes == old(db.likes)
  {
    var post := FindOne(db.posts, id);
    if post.None? {
      return Err(POST_NOT_FOUND);
    }
    var toggled := ToggleLike(db, id, caller.sub);
    if toggled.Err? {
      return Err(toggled.error);
    }
    r := Ok(PostResponse("Post liked successfully", toggled.value));
  }

  /** `delete(id, req)`. */
  method DeletePost(db: Database, id: int, caller: Caller) returns (r: Result<PostResponse, Failure>)
    requires db.Valid()
    modifies db
    ensures db.Valid()
    ensures db.users == old(db.users) && db.tokens == old(db.tokens)
    ensures db.nextUserId == old(db.nextUserId) && db.nextPostId == old(db.nextPostId)
    ensures MutationGate(FindOne(old(db.posts), id), caller, DELETE_FORBIDDEN).Err? ==>
      && r == Err(MutationGate(FindOne(old(db.posts), id), caller, DELETE_FORBIDDEN).error)
      && db.posts == old(db.posts) && db.likes == old(db.likes)
    ensures MutationGate(FindOne(old(db.posts), id), caller, DELETE_FORBIDDEN).Ok? ==>
      && db.likes == WithoutLikesOfPost(old(db.likes), id)
      && db.posts == WithoutPost(old(db.posts), id)
      && r == Ok(PostResponse("Post deleted successfully", FindOne(old(db.posts), id).value))
  {
    var gate := MutationGate(FindOne(db.posts, id), caller, DELETE_FORBIDDEN);
    if gate.Err? {
      return Err(gate.error);
    }
    var deleted := PostsService.Delete(db, id);
    r := Ok(PostResponse("Post deleted successfully", deleted.value));
  }

  // --------------------------------------------------------------- queries

  datatype StatsResponse = StatsResponse(message: string, stats: Stats)

  /** `findStats(userId)`: the user must exist; the service then needs at least one post. */
  function FindStatsResponse(users: seq<UserRow>, posts: seq<PostRow>, userId: int): (r: Result<StatsResponse, Failure>)
    ensures !HasUser(users, userId) ==> r == Err(USER_NOT_FOUND)
    ensures HasUser(users, userId) ==> (r.Ok? <==> exists p :: p in posts && p.userId == userId)
    ensures r.Ok? ==> r.value.stats.totalPosts == |FindByUser(posts, userId)|
    ensures r.Ok? ==> r.value.stats.lastPostDate == FindByUser(posts, userId)[|FindByUser(posts, userId)| - 1].createdAt
    ensures r.Ok? ==> r.value.stats == FindStats(posts, userId).value
    ensures r.Ok? ==> r.value.message == "Posts stats for user with id: " + IntToString(userId)
    ensures HasUser(users, userId) && r.Err? ==>
              r.error == FindStats(posts, userId).error && r.error.Status() == INTERNAL_SERVER_ERROR
  {
    if FindOneById(users, userId).None? then Err(USER_NOT_FOUND)
    else
      match FindStats(posts, userId)
      case Err(e) => Err(e)
      case Ok(stats) => Ok(StatsResponse("Posts stats for user with id: " + IntToString(userId), stats))
  }

  /** `key: value` for one query entry. */
  function EntryText(entry: (string, string)): string {
    entry.0 + ": " + entry.1
  }

  function EntryTexts(query: Query): (r: seq<string>)
    ensures |r| == |query|
    ensures forall i :: 0 <= i < |query| ==> r[i] == EntryText(query[i])
  {
    seq(|query|, i requires 0 <= i < |query| => EntryText(query[i]))
  }

  /** The message of `findAll`, naming every key the query string carried. */
  function FindAllMessage(query: Query): (m: string)
    ensures m == "All posts fetched successfully" <==> |query| == 0
    ensures |query| > 0 ==> m == "Posts filtered by " + Join(EntryTexts(query), ", ")
  {
    if |query| == 0 then "All posts fetched successfully"
    else
      var m := "Posts filtered by " + Join(EntryTexts(query), ", ");
      assert m[0] == 'P';
      m
  }

  /** A single filter is named as `key: value`. */
  lemma OneFilterMessage(key: string, value: string)
    ensures FindAllMessage([(key, value)]) == "Posts filtered by " + key + ": " + value
  {
    assert EntryTexts([(key, value)]) == [key + ": " + value];
  }

  datatype PostsResponse = PostsResponse(message: string, posts: seq<PostRow>)

  /** `findAll(query)`: the message and the filtered rows. */
  function FindAllResponse(posts: seq<PostRow>, query: Query): (r: Result<PostsResponse, Failure>)
    ensures r.Err? <==> FindAll(posts, query).Err?
    ensures r.Ok? ==> r.value.message == FindAllMessage(query) && r.value.posts == FindAll(posts, query).value
  {
    match FindAll(posts, query)
    case Err(e) => Err(e)
    case Ok(found) => Ok(PostsResponse(FindAllMessage(query), found))
  }

  /** The message of `findByDate`. */
  function FindByDateMessage(date: string, found: seq<PostRow>): (m: string)
    ensures m == "No posts found for date: " + date <==> |found| == 0
    ensures |found| > 0 ==> m == "Posts fetched by date of " + date + " successfully"
  {
    if |found| == 0 then "No posts found for date: " + date
    else
      var m := "Posts fetched by date of " + date + " successfully";
      assert m[0] == 'P';
      m
  }

  /** `findByDate(date)`, the service's rows under the message that says whether any were found. */
  function FindByDateResponse(posts: seq<PostRow>, date: string, dayStart: Option<int>): (r: Result<PostsResponse, Failure>)
    ensures r.Err? <==> dayStart.None?
    ensures r.Ok? ==> forall p :: p in r.value.posts <==>
              p in posts && dayStart.value <= p.createdAt < dayStart.value + DAY_MS
    ensures r.Ok? ==> (r.value.message == "No posts found for date: " + date <==> |r.value.posts| == 0)
  {
    match FindByDate(posts, dayStart)
    case Err(e) => Err(e)
    case Ok(found) => Ok(PostsResponse(FindByDateMessage(date, found), found))
  }

  /** `findByUser(userId)` answers 404 for a missing user, even one whose posts remain. */
  function FindByUserResponse(users: seq<UserRow>, posts: seq<PostRow>, userId: int): (r: Result<PostsResponse, Failure>)
    ensures r == Err(USER_NOT_FOUND) <==> !HasUser(users, userId)
    ensures r.Ok? ==> forall p :: p in r.value.posts <==> p in posts && p.userId == userId
    ensures r.Ok? ==> r.value.message == "Posts fetched by user with id: " + IntToString(userId)
  {
    if FindOneById(users, userId).None? then Err(USER_NOT_FOUND)
    else Ok(PostsResponse("Posts fetched by user with id: " + IntToString(userId), FindByUser(posts, userId)))
  }

  /** `findOne(id)` answers 404 exactly when no post has the id. */
  function FindOneResponse(posts: seq<PostRow>, id: int): (r: Result<PostResponse, Failure>)
    ensures r == Err(POST_NOT_FOUND) <==> !HasPost(posts, id)
    ensures r.Ok? ==> r.value.post in posts && r.value.post.id == id && r.value.message == "Post fetched successfully"
  {
    match FindOne(posts, id)
    case None => Err(POST_NOT_FOUND)
    case Some(post) => Ok(PostResponse("Post fetched successfully", post))
  }
}
