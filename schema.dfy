/**
 * The persisted tables the core reads and writes, as Prisma exposes them: users,
 * posts, the `(userId, postId)` like relation and the refresh-token table keyed by
 * `(userId, type)`. One `Database` object stands for the Prisma client; each
 * `$transaction` block is modelled as one method over it that applies all of its
 * statements or none of them.
 */
module Schema {
  import opened Wrappers
  import opened Seqs

  /** Dates are milliseconds since the epoch; one day of them. */
  const DAY_MS := 24 * 60 * 60 * 1000

  /** The `Role` enum; the source refers to `Role.admin`, the other value is the default role. */
  datatype Role = Regular | Admin

  /** The `TypeTokenEnum` enum; the core only ever uses `REFRESH`. */
  datatype TokenType = Refresh

  datatype UserRow = UserRow(
    id: int,
    firstname: string,
    lastname: string,
    email: string,
    password: string,   // a bcrypt hash, never the raw secret
    role: Role,
    createdAt: int      // milliseconds since the epoch
  )

  datatype PostRow = PostRow(
    id: int,
    title: string,
    description: string,
    isPublished: bool,
    viewCount: int,
    likeCount: int,     // denormalised number of likes
    userId: int,
    createdAt: int      // milliseconds since the epoch
  )

  /** A row of the like relation; the pair is the table's unique key. */
  datatype Like = Like(userId: int, postId: int)

  /** The compound unique key `type_userId` of the token table. */
  datatype TokenKey = TokenKey(userId: int, tokenType: TokenType)

  datatype TokenRecord = TokenRecord(
    userId: int,
    token: string,      // a bcrypt hash of a refresh token's signature segment
    tokenType: TokenType,
    expirationDate: Option<int>
  )

  /** Some user row has this id. */
  predicate HasUser(users: seq<UserRow>, id: int) {
    exists i :: 0 <= i < |users| && users[i].id == id
  }

  /** Some post row has this id. */
  predicate HasPost(posts: seq<PostRow>, id: int) {
    exists i :: 0 <= i < |posts| && posts[i].id == id
  }

  function UserId(u: UserRow): int { u.id }
  function UserEmail(u: UserRow): string { u.email }
  function PostId(p: PostRow): int { p.id }

  /** The `@id` and `@unique` columns of the user table. */
  ghost predicate UniqueUsers(users: seq<UserRow>) {
    DistinctKeys(users, UserId) && DistinctKeys(users, UserEmail)
  }

  /** A new user row keeps every existing reference resolvable. */
  lemma AppendUserKeepsReferences(users: seq<UserRow>, u: UserRow, posts: seq<PostRow>, likes: set<Like>)
    requires ReferencesResolve(users, posts, likes)
    ensures ReferencesResolve(users + [u], posts, likes)
  {
    forall id | HasUser(users, id) ensures HasUser(users + [u], id) {
      var i :| 0 <= i < |users| && users[i].id == id;
      assert (users + [u])[i] == users[i];
    }
  }

  /** A table without its first row keeps its unique columns unique. */
  lemma TailUnique(users: seq<UserRow>)
    requires users != []
    ensures UniqueUsers(users) ==> UniqueUsers(users[1..])
  {
    if UniqueUsers(users) {
      TailDistinct(users, UserId);
      TailDistinct(users, UserEmail);
    }
  }

  /** The `@id` column of the post table. */
  ghost predicate UniquePosts(posts: seq<PostRow>) {
    DistinctKeys(posts, PostId)
  }

  /** A table without its first row keeps its id column unique. */
  lemma TailUniquePosts(posts: seq<PostRow>)
    requires posts != []
    ensures UniquePosts(posts) ==> UniquePosts(posts[1..])
  {
    if UniquePosts(posts) {
      TailDistinct(posts, PostId);
    }
  }

  /** Every record of the token table sits under the key made of its own fields. */
  ghost predicate WellKeyed(tokens: map<TokenKey, TokenRecord>) {
    forall k :: k in tokens ==> tokens[k].userId == k.userId && tokens[k].tokenType == k.tokenType
  }

  /** Foreign keys: every post has an author, every like a user and a post. */
  ghost predicate ReferencesResolve(users: seq<UserRow>, posts: seq<PostRow>, likes: set<Like>) {
    && (forall i :: 0 <= i < |posts| ==> HasUser(users, posts[i].userId))
    && (forall l :: l in likes ==> HasUser(users, l.userId) && HasPost(posts, l.postId))
  }

  /** The likes of one post. */
  function LikesOf(likes: set<Like>, postId: int): set<Like> {
    set l | l in likes && l.postId == postId
  }

  /**
   * The denormalised counter agrees with the like relation. Seeding sets the
   * counters at random, so nothing establishes this; the ledger operations keep it.
   */
  ghost predicate LikeCountsMatch(posts: seq<PostRow>, likes: set<Like>) {
    forall i :: 0 <= i < |posts| ==> posts[i].likeCount == |LikesOf(likes, posts[i].id)|
  }

  /**
   * The database invariant over the tables themselves: unique keys, ids below the
   * autoincrement counters, resolvable foreign keys, a well-keyed token table.
   */
  ghost predicate TablesValid(users: seq<UserRow>, posts: seq<PostRow>, likes: set<Like>,
                              tokens: map<TokenKey, TokenRecord>, nextUserId: int, nextPostId: int) {
    && UniqueUsers(users)
    && UniquePosts(posts)
    && (forall i :: 0 <= i < |users| ==> users[i].id < nextUserId)
    && (forall i :: 0 <= i < |posts| ==> posts[i].id < nextPostId)
    && ReferencesResolve(users, posts, likes)
    && WellKeyed(tokens)
  }

  class Database {
    var users: seq<UserRow>
    var posts: seq<PostRow>
    var likes: set<Like>
    var tokens: map<TokenKey, TokenRecord>
    /** The next values of the autoincrement id columns. */
    var nextUserId: int
    var nextPostId: int

    ghost predicate Valid()
      reads this
    {
      TablesValid(users, posts, likes, tokens, nextUserId, nextPostId)
    }

    constructor ()
      ensures Valid()
      ensures users == [] && posts == [] && likes == {} && tokens == map[]
      ensures nextUserId == 1 && nextPostId == 1
    {
      users, posts, likes, tokens := [], [], {}, map[];
      nextUserId, nextPostId := 1, 1;
    }
  }
}
