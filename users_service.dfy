/**
 * The user table's service (src/users/users.service.ts): lookups by id and by
 * email, creation, the four-step delete cascade run as one transaction, and the
 * "created in the last week" listing.
 */
module UsersService {
  import opened Wrappers
  import opened Seqs
  import opened Failures
  import opened Schema

  const WEEK_MS := 7 * DAY_MS

  /** `findUnique({ where: { id } })`. */
  function FindOneById(users: seq<UserRow>, id: int): (r: Option<UserRow>)
    ensures r.Some? <==> HasUser(users, id)
    ensures r.Some? ==> r.value in users && r.value.id == id
    ensures UniqueUsers(users) ==> forall u :: u in users && u.id == id ==> r == Some(u)
    decreases |users|
  {
    if users == [] then None
    else if users[0].id == id then Some(users[0])
    else
      assert forall i :: 0 < i < |users| ==> users[i] == users[1..][i - 1];
      TailUnique(users);
      FindOneById(users[1..], id)
  }

  /** Some user row has this email. */
  predicate EmailTaken(users: seq<UserRow>, email: string) {
    exists i :: 0 <= i < |users| && users[i].email == email
  }

  /** `findUnique({ where: { email } })`. */
  function FindOneByEmail(users: seq<UserRow>, email: string): (r: Option<UserRow>)
    ensures r.Some? <==> EmailTaken(users, email)
    ensures r.Some? ==> r.value in users && r.value.email == email
    ensures UniqueUsers(users) ==> forall u :: u in users && u.email == email ==> r == Some(u)
    decreases |users|
  {
    if users == [] then None
    else if users[0].email == email then Some(users[0])
    else
      assert forall i :: 0 < i < |users| ==> users[i] == users[1..][i - 1];
      TailUnique(users);
      FindOneByEmail(users[1..], email)
  }

  /** A row appended under a fresh email is what the lookup by that email finds. */
  lemma FindAppendedEmail(users: seq<UserRow>, u: UserRow)
    requires !EmailTaken(users, u.email)
    ensures FindOneByEmail(users + [u], u.email) == Some(u)
  {
    var all := users + [u];
    assert all[|users|] == u;
    var r := FindOneByEmail(all, u.email);
    assert r.value in users ==> EmailTaken(users, u.email);
    assert r.value in users || r.value == u;
  }

  // ---------------------------------------------------------------- create

  /** The fields `create` writes (a `RegisterDto` after its password is hashed). */
  datatype UserData = UserData(firstname: string, lastname: string, email: string, password: string)

  /** The row the database writes for `data`: autoincrement id, default role, current time. */
  function NewRow(id: int, data: UserData, now: int): (u: UserRow)
    ensures u.id == id && u.email == data.email && u.password == data.password && u.role == Regular
  {
    UserRow(id, data.firstname, data.lastname, data.email, data.password, Regular, now)
  }

  /** `prisma.user.create({ data })`; a taken email violates the unique column. */
  method Create(db: Database, data: UserData, now: int) returns (r: Result<UserRow, Failure>)
    requires db.Valid()
    modifies db
    ensures db.Valid()
    ensures db.posts == old(db.posts) && db.likes == old(db.likes) && db.tokens == old(db.tokens)
    ensures db.nextPostId == old(db.nextPostId)
    ensures EmailTaken(old(db.users), data.email) ==>
      && r == Err(PrismaError(UNIQUE_CONSTRAINT_FAILED))
      && db.users == old(db.users) && db.nextUserId == old(db.nextUserId)
    ensures !EmailTaken(old(db.users), data.email) ==>
      && r == Ok(NewRow(old(db.nextUserId), data, now))
      && db.users == old(db.users) + [r.value]
      && db.nextUserId == old(db.nextUserId) + 1
  {
    if FindOneByEmail(db.users, data.email).Some? {
      return Err(PrismaError(UNIQUE_CONSTRAINT_FAILED));
    }
    var row := NewRow(db.nextUserId, data, now);
    SnocDistinct(db.users, row, UserId);
    SnocDistinct(db.users, row, UserEmail);
    AppendUserKeepsReferences(db.users, row, db.posts, db.likes);
    db.users := db.users + [row];
    db.nextUserId := db.nextUserId + 1;
    r := Ok(row);
  }

  // ---------------------------------------------------------------- delete

  /** The ids of the posts `userId` wrote. */
  function OwnedPostIds(posts: seq<PostRow>, userId: int): set<int> {
    set i | 0 <= i < |posts| && posts[i].userId == userId :: posts[i].id
  }

  function NotAuthoredBy(userId: int): PostRow -> bool {
    (p: PostRow) => p.userId != userId
  }

  function NotWithId(id: int): UserRow -> bool {
    (u: UserRow) => u.id != id
  }

  /** Step 1 of the cascade: the likes on the user's posts. */
  function WithoutLikesOnPostsOf(likes: set<Like>, posts: seq<PostRow>, userId: int): set<Like> {
    set l | l in likes && l.postId !in OwnedPostIds(posts, userId)
  }

  /** Step 2 of the cascade: the likes the user gave. */
  function WithoutLikesBy(likes: set<Like>, userId: int): set<Like> {
    set l | l in likes && l.userId != userId
  }

  /** Steps 1 and 2 together. */
  function LikesAfterUserDelete(likes: set<Like>, posts: seq<PostRow>, userId: int): set<Like> {
    WithoutLikesBy(WithoutLikesOnPostsOf(likes, posts, userId), userId)
  }

  /** Step 3: the user's posts. */
  function PostsAfterUserDelete(posts: seq<PostRow>, userId: int): seq<PostRow> {
    Filter(posts, NotAuthoredBy(userId))
  }

  /** Step 4: the user. */
  function UsersAfterDelete(users: seq<UserRow>, id: int): seq<UserRow> {
    Filter(users, NotWithId(id))
  }

  /**
   * `delete(id)`: one `$transaction` of four statements. When the user does not
   * exist the last statement throws and the transaction rolls the first three back.
   */
  method Delete(db: Database, id: int) returns (r: Result<UserRow, Failure>)
    requires db.Valid()
    modifies db
    ensures db.Valid()
    ensures db.tokens == old(db.tokens)
    ensures db.nextUserId == old(db.nextUserId) && db.nextPostId == old(db.nextPostId)
    ensures !HasUser(old(db.users), id) ==>
      && r == Err(PrismaError(RECORD_NOT_FOUND))
      && db.users == old(db.users) && db.posts == old(db.posts) && db.likes == old(db.likes)
    ensures HasUser(old(db.users), id) ==>
      && r.Ok? && r.value in old(db.users) && r.value.id == id
      && db.likes == LikesAfterUserDelete(old(db.likes), old(db.posts), id)
      && db.posts == PostsAfterUserDelete(old(db.posts), id)
      && db.users == UsersAfterDelete(old(db.users), id)
  {
    var found := FindOneById(db.users, id);
    if found.None? {
      return Err(PrismaError(RECORD_NOT_FOUND));
    }
    Cascade(db, id);
    r := Ok(found.value);
  }

  /** The four statements of the transaction, each applied to the previous one's tables. */
  method Cascade(db: Database, id: int)
    requires db.Valid()
    modifies db
    ensures db.Valid()
    ensures db.tokens == old(db.tokens)
    ensures db.nextUserId == old(db.nextUserId) && db.nextPostId == old(db.nextPostId)
    ensures db.likes == LikesAfterUserDelete(old(db.likes), old(db.posts), id)
    ensures db.posts == PostsAfterUserDelete(old(db.posts), id)
    ensures db.users == UsersAfterDelete(old(db.users), id)
  {
    CascadeKeepsValid(db.users, db.posts, db.likes, db.tokens, db.nextUserId, db.nextPostId, id);
    db.likes := WithoutLikesOnPostsOf(db.likes, db.posts, id);  // 1. likes on the user's posts
    db.likes := WithoutLikesBy(db.likes, id);                   // 2. likes by the user
    db.posts := PostsAfterUserDelete(db.posts, id);             // 3. posts by the user
    db.users := UsersAfterDelete(db.users, id);                 // 4. the user
  }

  /** The tables the cascade leaves satisfy the database invariant. */
  lemma CascadeKeepsValid(users: seq<UserRow>, posts: seq<PostRow>, likes: set<Like>,
                          tokens: map<TokenKey, TokenRecord>, nextUserId: int, nextPostId: int, id: int)
    requires TablesValid(users, posts, likes, tokens, nextUserId, nextPostId)
    ensures TablesValid(UsersAfterDelete(users, id), PostsAfterUserDelete(posts, id),
                        LikesAfterUserDelete(likes, posts, id), tokens, nextUserId, nextPostId)
  {
    CascadeKeepsReferences(users, posts, likes, id);
    FilterKeepsDistinctKeys(users, NotWithId(id), UserId);
    FilterKeepsDistinctKeys(users, NotWithId(id), UserEmail);
    FilterKeepsDistinctKeys(posts, NotAuthoredBy(id), PostId);
    var users', posts' := UsersAfterDelete(users, id), PostsAfterUserDelete(posts, id);
    assert forall i :: 0 <= i < |users'| ==> users'[i] in users;
    assert forall i :: 0 <= i < |posts'| ==> posts'[i] in posts;
  }

  /** The cascade leaves no like, post or user pointing at a removed row. */
  lemma CascadeKeepsReferences(users: seq<UserRow>, posts: seq<PostRow>, likes: set<Like>, id: int)
    requires ReferencesResolve(users, posts, likes)
    ensures ReferencesResolve(UsersAfterDelete(users, id), PostsAfterUserDelete(posts, id),
                              LikesAfterUserDelete(likes, posts, id))
  {
    var users', posts' := UsersAfterDelete(users, id), PostsAfterUserDelete(posts, id);
    var likes' := LikesAfterUserDelete(likes, posts, id);
    forall uid | uid != id && HasUser(users, uid) ensures HasUser(users', uid) {
      var i :| 0 <= i < |users| && users[i].id == uid;
      assert users[i] in users';
      var j :| 0 <= j < |users'| && users'[j] == users[i];
    }
    forall i | 0 <= i < |posts'| ensures HasUser(users', posts'[i].userId) {
      assert posts'[i] in posts;
    }
    forall l | l in likes' ensures HasUser(users', l.userId) && HasPost(posts', l.postId) {
      var i :| 0 <= i < |posts| && posts[i].id == l.postId;
      assert posts[i].userId == id ==> l.postId in OwnedPostIds(posts, id);
      assert posts[i] in posts';
      var j :| 0 <= j < |posts'| && posts'[j] == posts[i];
    }
  }

  /** After the cascade nothing refers to the user or to the posts the user wrote. */
  lemma CascadeRemovesEveryTrace(users: seq<UserRow>, posts: seq<PostRow>, likes: set<Like>, id: int)
    ensures !HasUser(UsersAfterDelete(users, id), id)
    ensures forall i :: 0 <= i < |PostsAfterUserDelete(posts, id)| ==> PostsAfterUserDelete(posts, id)[i].userId != id
    ensures forall l :: l in LikesAfterUserDelete(likes, posts, id) ==>
              l.userId != id && forall i :: 0 <= i < |posts| && posts[i].userId == id ==> l.postId != posts[i].id
  {
    var users' := UsersAfterDelete(users, id);
    forall i | 0 <= i < |users'| ensures users'[i].id != id {
      assert users'[i] in users';
    }
    forall i | 0 <= i < |PostsAfterUserDelete(posts, id)| ensures PostsAfterUserDelete(posts, id)[i].userId != id {
      assert PostsAfterUserDelete(posts, id)[i] in PostsAfterUserDelete(posts, id);
    }
  }

  /** The cascade keeps every row that neither is the user nor depends on the user. */
  lemma CascadeKeepsOthers(users: seq<UserRow>, posts: seq<PostRow>, likes: set<Like>, id: int)
    ensures forall u :: u in users && u.id != id ==> u in UsersAfterDelete(users, id)
    ensures forall p :: p in posts && p.userId != id ==> p in PostsAfterUserDelete(posts, id)
    ensures forall l :: l in likes && l.userId != id && (forall i :: 0 <= i < |posts| && posts[i].id == l.postId ==> posts[i].userId != id)
              ==> l in LikesAfterUserDelete(likes, posts, id)
  {
  }

  // ------------------------------------------------- like counters (finding)

  /**
   * Step 2 removes the user's likes on other users' posts without decrementing
   * those posts' `likeCount`: one like on someone else's post is enough.
   */
  lemma UserDeleteLeavesStaleLikeCount()
    ensures var users := [UserRow(1, "A", "A", "a@x.io", "", Regular, 0), UserRow(2, "B", "B", "b@x.io", "", Regular, 0)];
            var posts := [PostRow(10, "t", "d", true, 0, 1, 2, 0)];
            var likes := {Like(1, 10)};
            && TablesValid(users, posts, likes, map[], 3, 11)
            && LikeCountsMatch(posts, likes)
            && !LikeCountsMatch(PostsAfterUserDelete(posts, 1), LikesAfterUserDelete(likes, posts, 1))
  {
    var users := [UserRow(1, "A", "A", "a@x.io", "", Regular, 0), UserRow(2, "B", "B", "b@x.io", "", Regular, 0)];
    var posts := [PostRow(10, "t", "d", true, 0, 1, 2, 0)];
    var likes := {Like(1, 10)};
    assert users[0].id == 1 && users[1].id == 2 && posts[0].id == 10;
    assert HasUser(users, 1) && HasUser(users, 2) && HasPost(posts, 10);
    assert users[0].email != users[1].email;
    assert LikesOf(likes, 10) == {Like(1, 10)};
    var posts' := PostsAfterUserDelete(posts, 1);
    assert posts[0] in posts';
    assert posts' == posts by {
      assert |posts'| <= 1;
    }
    assert OwnedPostIds(posts, 1) == {};
    assert LikesAfterUserDelete(likes, posts, 1) == {};
    assert LikesOf({}, 10) == {};
  }

  /** The remaining posts with each counter lowered by the like the user had given it. */
  function CountedPostsAfterUserDelete(posts: seq<PostRow>, likes: set<Like>, userId: int): (r: seq<PostRow>)
    ensures |r| == |PostsAfterUserDelete(posts, userId)|
    ensures forall i :: 0 <= i < |r| ==>
              var p := PostsAfterUserDelete(posts, userId)[i];
              r[i].(likeCount := p.likeCount) == p && p.likeCount - 1 <= r[i].likeCount <= p.likeCount
  {
    var kept := PostsAfterUserDelete(posts, userId);
    seq(|kept|, i requires 0 <= i < |kept| =>
      if Like(userId, kept[i].id) in likes then kept[i].(likeCount := kept[i].likeCount - 1) else kept[i])
  }

  /** With the counters lowered, the cascade keeps every counter equal to its post's likes. */
  lemma CountedCascadeKeepsLikeCounts(posts: seq<PostRow>, likes: set<Like>, userId: int)
    requires UniquePosts(posts)
    requires LikeCountsMatch(posts, likes)
    ensures LikeCountsMatch(CountedPostsAfterUserDelete(posts, likes, userId), LikesAfterUserDelete(likes, posts, userId))
  {
    var kept := PostsAfterUserDelete(posts, userId);
    var r := CountedPostsAfterUserDelete(posts, likes, userId);
    var likes' := LikesAfterUserDelete(likes, posts, userId);
    forall i | 0 <= i < |r| ensures r[i].likeCount == |LikesOf(likes', r[i].id)| {
      var p := kept[i];
      assert p in kept;
      var k :| 0 <= k < |posts| && posts[k] == p;
      assert p.userId != userId;
      forall m | 0 <= m < |posts| && posts[m].userId == userId ensures posts[m].id != p.id {
        if m < k {
          assert PostId(posts[m]) != PostId(posts[k]);
        } else {
          assert PostId(posts[k]) != PostId(posts[m]);
        }
      }
      assert p.id !in OwnedPostIds(posts, userId);
      var before := LikesOf(likes, p.id);
      assert LikesOf(likes', p.id) == before - {Like(userId, p.id)};
      assert p.likeCount == |before|;
      if Like(userId, p.id) in likes {
        assert Like(userId, p.id) in before;
      } else {
        assert before - {Like(userId, p.id)} == before;
      }
    }
  }

  // ------------------------------------------------------------- listings

  /** The projection `select: { firstname, lastname, email }`. */
  datatype UserSummary = UserSummary(firstname: string, lastname: string, email: string)

  function Summary(u: UserRow): UserSummary {
    UserSummary(u.firstname, u.lastname, u.email)
  }

  function CreatedSince(threshold: int): UserRow -> bool {
    (u: UserRow) => u.createdAt >= threshold
  }

  /** `s` is the projection of a user created at or after `now - 7 days`. */
  ghost predicate SummaryOfRecent(users: seq<UserRow>, now: int, s: UserSummary) {
    exists u :: u in users && u.createdAt >= now - WEEK_MS && s == Summary(u)
  }

  /** `findActiveInLastWeek()` at the instant `now` (milliseconds). */
  function FindActiveInLastWeek(users: seq<UserRow>, now: int): (r: seq<UserSummary>)
    ensures forall u :: u in users && u.createdAt >= now - WEEK_MS ==> Summary(u) in r
    ensures forall i :: 0 <= i < |r| ==> SummaryOfRecent(users, now, r[i])
  {
    var recent := Filter(users, CreatedSince(now - WEEK_MS));
    var r := seq(|recent|, i requires 0 <= i < |recent| => Summary(recent[i]));
    assert forall u :: u in recent ==> Summary(u) in r by {
      forall u | u in recent ensures Summary(u) in r {
        var i :| 0 <= i < |recent| && recent[i] == u;
        assert r[i] == Summary(u);
      }
    }
    forall i | 0 <= i < |r| ensures SummaryOfRecent(users, now, r[i]) {
      var u := recent[i];
      assert u in recent;
      assert u in users && CreatedSince(now - WEEK_MS)(u);
      assert u.createdAt >= now - WEEK_MS && r[i] == Summary(u);
    }
    r
  }
}
