/**
 * The post table's service (src/posts/posts.service.ts): the queries (filters,
 * orderings, the per-day window, the per-user statistics) and the mutations of
 * the engagement ledger (create, update, publish, the like toggle and the
 * delete that removes a post's likes first).
 */
module PostsService {
  import opened Wrappers
  import opened Seqs
  import opened Strings
  import opened Failures
  import opened Schema


  /** The column defaults of a new post row (`isPublished` when the body omits it). */
  const IS_PUBLISHED_DEFAULT := false

  /** `findUnique({ where: { id } })`. */
  function FindOne(posts: seq<PostRow>, id: int): (r: Option<PostRow>)
    ensures r.Some? <==> HasPost(posts, id)
    ensures r.Some? ==> r.value in posts && r.value.id == id
    ensures UniquePosts(posts) ==> forall p :: p in posts && p.id == id ==> r == Some(p)
    decreases |posts|
  {
    if posts == [] then None
    else if posts[0].id == id then Some(posts[0])
    else
      assert forall i :: 0 < i < |posts| ==> posts[i] == posts[1..][i - 1];
      TailUniquePosts(posts);
      FindOne(posts[1..], id)
  }

  // --------------------------------------------------------------- queries

  function CreatedAt(p: PostRow): int { p.createdAt }
  function ViewCount(p: PostRow): int { p.viewCount }

  function ByUser(userId: int): PostRow -> bool {
    (p: PostRow) => p.userId == userId
  }

  /** `findByUser(userId)`: the user's posts in table order. */
  function FindByUser(posts: seq<PostRow>, userId: int): (r: seq<PostRow>)
    ensures forall p :: p in r <==> p in posts && p.userId == userId
  {
    Filter(posts, ByUser(userId))
  }

  function UnpublishedBy(userId: int): PostRow -> bool {
    (p: PostRow) => p.userId == userId && !p.isPublished
  }

  /** `findUnpublishedByUser(userId)`. */
  function FindUnpublishedByUser(posts: seq<PostRow>, userId: int): (r: seq<PostRow>)
    ensures forall p :: p in r <==> p in posts && p.userId == userId && !p.isPublished
  {
    Filter(posts, UnpublishedBy(userId))
  }

  function WithinDay(dayStart: int): PostRow -> bool {
    (p: PostRow) => dayStart <= p.createdAt < dayStart + DAY_MS
  }

  /**
   * `findByDate(date)`, given `new Date(date)` as milliseconds; `None` stands for
   * an Invalid Date, which Prisma's query validation refuses.
   */
  function FindByDate(posts: seq<PostRow>, dayStart: Option<int>): (r: Result<seq<PostRow>, Failure>)
    ensures dayStart.None? <==> r.Err?
    ensures r.Ok? ==> forall p :: p in r.value <==>
              p in posts && dayStart.value <= p.createdAt < dayStart.value + 86_400_000
  {
    match dayStart
    case None => Err(RuntimeError("Invalid Date"))
    case Some(d) => Ok(Filter(posts, WithinDay(d)))
  }

  /** `findLatest(count)`: ordered by `createdAt` descending, then Prisma's `take`. */
  function FindLatest(posts: seq<PostRow>, count: int): (r: seq<PostRow>)
    ensures SortedDesc(r, CreatedAt)
    ensures multiset(r) <= multiset(posts)
    ensures count >= 0 ==> |r| == if count < |posts| then count else |posts|
    ensures count < 0 ==> |r| == if -count < |posts| then -count else |posts|
    ensures count >= 0 ==> forall p, q :: p in r && q in posts && q !in r ==> q.createdAt <= p.createdAt
    ensures count < 0 ==> forall p, q :: p in r && q in posts && q !in r ==> p.createdAt <= q.createdAt
  {
    var sorted := SortDesc(posts, CreatedAt);
    SortDescSorted(posts, CreatedAt);
    TakeOfSorted(sorted, CreatedAt, count);
    assert |sorted| == |multiset(sorted)| == |multiset(posts)| == |posts|;
    assert forall q :: q in posts ==> q in multiset(sorted);
    Take(sorted, count)
  }

  function ViewedAtLeast(viewCount: int): PostRow -> bool {
    (p: PostRow) => p.viewCount >= viewCount
  }

  /** `findMostPopular(viewCount)`: at least that many views, most viewed first. */
  function FindMostPopular(posts: seq<PostRow>, viewCount: int): (r: seq<PostRow>)
    ensures SortedDesc(r, ViewCount)
    ensures forall p :: p in r <==> p in posts && p.viewCount >= viewCount
    ensures forall p :: multiset(r)[p] == if p.viewCount >= viewCount then multiset(posts)[p] else 0
  {
    var popular := Filter(posts, ViewedAtLeast(viewCount));
    forall p ensures multiset(popular)[p] == if p.viewCount >= viewCount then multiset(posts)[p] else 0 {
      FilterMultiset(posts, ViewedAtLeast(viewCount), p);
    }
    var r := SortDesc(popular, ViewCount);
    SortDescSorted(popular, ViewCount);
    assert forall p :: p in r <==> p in multiset(popular);
    r
  }

  // -------------------------------------------------------------- findAll

  /** The raw query string as `Object.entries(query)` lists it. */
  type Query = seq<(string, string)>

  /** The first value given for `key`, as the parsed query object holds it. */
  function Lookup(query: Query, key: string): (r: Option<string>)
    ensures r.Some? ==> (key, r.value) in query
    ensures r.None? ==> forall i :: 0 <= i < |query| ==> query[i].0 != key
  {
    if query == [] then None
    else if query[0].0 == key then Some(query[0].1)
    else
      var r := Lookup(query[1..], key);
      assert forall i :: 0 < i < |query| ==> query[i] == query[1..][i - 1];
      r
  }

  /** A query value is truthy when present and not the empty string. */
  function Truthy(v: Option<string>): (r: Option<string>)
    ensures r.Some? <==> v.Some? && v.value != ""
  {
    if v.Some? && v.value != "" then v else None
  }

  /** `Number(s)` for decimal digit strings; anything else reads as `NaN`. */
  function DecimalValue(s: string): (r: Option<nat>)
    ensures r.Some? <==> s != [] && forall i :: 0 <= i < |s| ==> '0' <= s[i] <= '9'
    decreases |s|
  {
    if s == [] || !('0' <= s[|s| - 1] <= '9') then None
    else if |s| == 1 then Some((s[0] - '0') as nat)
    else
      match DecimalValue(s[..|s| - 1])
      case None => None
      case Some(v) => Some(v * 10 + (s[|s| - 1] - '0') as nat)
  }

  /** The `where` object `findAll` builds; an absent field filters nothing. */
  datatype WhereInput = WhereInput(
    id: Option<int>, title: Option<string>, description: Option<string>,
    userId: Option<int>, isPublished: Option<bool>)

  /** The largest value of Prisma's `Int`, a 32-bit signed integer. */
  const INT_MAX := 0x7FFF_FFFF

  /** The query value is given, but `Number()` of it is `NaN` or does not fit Prisma's `Int`. */
  predicate NumberRejected(v: Option<string>) {
    Truthy(v).Some? && (DecimalValue(Truthy(v).value).None? || DecimalValue(Truthy(v).value).value > INT_MAX)
  }

  /** A numeric filter value, or the validation error Prisma raises for it. */
  function NumberFilter(v: Option<string>): (r: Result<Option<int>, Failure>)
    ensures r.Err? <==> NumberRejected(v)
    ensures r.Ok? ==> (r.value.Some? <==> Truthy(v).Some?)
    ensures r.Ok? && r.value.Some? ==>
              DecimalValue(Truthy(v).value).Some? && r.value.value == DecimalValue(Truthy(v).value).value
  {
    match Truthy(v)
    case None => Ok(None)
    case Some(s) =>
      match DecimalValue(s)
      case None => Err(RuntimeError("Argument equals: Expected Int, provided NaN"))
      case Some(n) =>
        if n > INT_MAX then Err(RuntimeError("Argument equals: Unable to fit integer value into an INT4 (32-bit signed integer)"))
        else Ok(Some(n))
  }

  /** `Number()` reads back the decimal rendering of every natural number. */
  lemma {:induction false} DecimalOfRendering(n: nat)
    ensures DecimalValue(NatToString(n)) == Some(n)
    decreases n
  {
    var s := NatToString(n);
    DigitValue(n % 10);
    if n < 10 {
      assert s == [DigitChar(n)];
    } else {
      DecimalOfRendering(n / 10);
      RenderingNonEmpty(n / 10);
      assert s == NatToString(n / 10) + [DigitChar(n % 10)];
      assert s[..|s| - 1] == NatToString(n / 10);
    }
  }

  lemma DigitValue(d: nat)
    requires d < 10
    ensures '0' <= DigitChar(d) <= '9' && (DigitChar(d) - '0') as nat == d
  {
    assert "0123456789"[d] == ['0', '1', '2', '3', '4', '5', '6', '7', '8', '9'][d];
  }

  lemma {:induction false} RenderingNonEmpty(n: nat)
    ensures |NatToString(n)| >= 1
    decreases n
  {
    if n >= 10 {
      RenderingNonEmpty(n / 10);
    }
  }

  /** The `where` object of `findAll`: only truthy query values become conditions. */
  function BuildWhere(query: Query): (r: Result<WhereInput, Failure>)
    ensures r.Err? <==> NumberRejected(Lookup(query, "id")) || NumberRejected(Lookup(query, "userId"))
    ensures r.Ok? ==> r.value.title == Truthy(Lookup(query, "title"))
    ensures r.Ok? ==> r.value.description == Truthy(Lookup(query, "description"))
    ensures r.Ok? ==> (r.value.isPublished.Some? <==> Truthy(Lookup(query, "isPublished")).Some?)
    ensures r.Ok? && r.value.isPublished.Some? ==> (r.value.isPublished.value <==> Lookup(query, "isPublished") == Some("true"))
    ensures r.Ok? ==> (r.value.id.Some? <==> Truthy(Lookup(query, "id")).Some?)
    ensures r.Ok? && r.value.id.Some? ==>
              DecimalValue(Truthy(Lookup(query, "id")).value).Some? && r.value.id.value == DecimalValue(Truthy(Lookup(query, "id")).value).value
    ensures r.Ok? ==> (r.value.userId.Some? <==> Truthy(Lookup(query, "userId")).Some?)
    ensures r.Ok? && r.value.userId.Some? ==>
              DecimalValue(Truthy(Lookup(query, "userId")).value).Some? && r.value.userId.value == DecimalValue(Truthy(Lookup(query, "userId")).value).value
  {
    var id := NumberFilter(Lookup(query, "id"));
    var userId := NumberFilter(Lookup(query, "userId"));
    if id.Err? then Err(id.error)
    else if userId.Err? then Err(userId.error)
    else
      var published := Truthy(Lookup(query, "isPublished"));
      Ok(WhereInput(id.value, Truthy(Lookup(query, "title")), Truthy(Lookup(query, "description")), userId.value,
                    if published.Some? then Some(published.value == "true") else None))
  }

  /** A row satisfies every condition of the `where` object. */
  predicate Matches(w: WhereInput, p: PostRow) {
    && (w.id.Some? ==> p.id == w.id.value)
    && (w.title.Some? ==> HasSubstring(p.title, w.title.value))
    && (w.description.Some? ==> HasSubstring(p.description, w.description.value))
    && (w.userId.Some? ==> p.userId == w.userId.value)
    && (w.isPublished.Some? ==> p.isPublished == w.isPublished.value)
  }

  function MatchesWhere(w: WhereInput): PostRow -> bool {
    (p: PostRow) => Matches(w, p)
  }

  /** `findAll(query)`: the rows meeting every truthy condition, in table order. */
  function FindAll(posts: seq<PostRow>, query: Query): (r: Result<seq<PostRow>, Failure>)
    ensures r.Err? <==> BuildWhere(query).Err?
    ensures r.Ok? ==> |r.value| <= |posts|
    ensures r.Ok? ==> forall p :: p in r.value <==> p in posts && Matches(BuildWhere(query).value, p)
  {
    match BuildWhere(query)
    case Err(e) => Err(e)
    case Ok(w) => Ok(Filter(posts, MatchesWhere(w)))
  }

  /** `?id=n` finds exactly the rows with id `n` for every `n` that fits Prisma's `Int`. */
  lemma IdFilterFindsId(posts: seq<PostRow>, n: nat)
    requires n <= INT_MAX
    ensures FindAll(posts, [("id", NatToString(n))]).Ok?
    ensures forall p :: p in FindAll(posts, [("id", NatToString(n))]).value <==> p in posts && p.id == n
  {
    RenderingNonEmpty(n);
    DecimalOfRendering(n);
    var query := [("id", NatToString(n))];
    assert Lookup(query, "id") == Some(NatToString(n));
    assert Lookup(query, "userId") == None;
  }

  /** `?id=n` with an `n` beyond Prisma's `Int` is refused. */
  lemma OversizedIdRefused(posts: seq<PostRow>, n: nat)
    requires n > INT_MAX
    ensures FindAll(posts, [("id", NatToString(n))]).Err?
  {
    RenderingNonEmpty(n);
    DecimalOfRendering(n);
    assert Lookup([("id", NatToString(n))], "id") == Some(NatToString(n));
  }

  /** `?title=t` finds exactly the rows whose title contains `t`. */
  lemma TitleFilterFindsTitle(posts: seq<PostRow>, t: string)
    requires t != ""
    ensures FindAll(posts, [("title", t)]).Ok?
    ensures forall p :: p in FindAll(posts, [("title", t)]).value <==> p in posts && HasSubstring(p.title, t)
  {
    var query := [("title", t)];
    assert Lookup(query, "title") == Some(t);
    assert Lookup(query, "id") == None && Lookup(query, "userId") == None;
    assert Lookup(query, "description") == None && Lookup(query, "isPublished") == None;
  }

  /** A query without truthy conditions returns every row. */
  lemma {:induction false} EmptyWhereFindsAll(posts: seq<PostRow>, query: Query)
    requires forall i :: 0 <= i < |query| ==> query[i].1 == ""
    ensures FindAll(posts, query) == Ok(posts)
    decreases |posts|
  {
    var w := BuildWhere(query).value;
    assert w == WhereInput(None, None, None, None, None);
    FilterEverything(posts, MatchesWhere(w));
  }

  /** Filtering with a condition every element meets keeps every element. */
  lemma {:induction false} FilterEverything(posts: seq<PostRow>, f: PostRow -> bool)
    requires forall p :: f(p)
    ensures Filter(posts, f) == posts
    decreases |posts|
  {
    if posts != [] {
      FilterEverything(posts[1..], f);
      assert posts == [posts[0]] + posts[1..];
    }
  }

  // -------------------------------------------------------------- findStats

  datatype Stats = Stats(totalPosts: int, lastPostDate: int)

  /**
   * `findStats(userId)` as written: `posts[posts.length - 1].createdAt` reads a
   * property of `undefined` when the user has no posts.
   */
  function FindStats(posts: seq<PostRow>, userId: int): (r: Result<Stats, Failure>)
    ensures r.Ok? <==> exists p :: p in posts && p.userId == userId
    ensures r.Ok? ==> r.value.totalPosts == |FindByUser(posts, userId)| > 0
    ensures r.Ok? ==> r.value.lastPostDate == FindByUser(posts, userId)[|FindByUser(posts, userId)| - 1].createdAt
  {
    var mine := FindByUser(posts, userId);
    if |mine| == 0 then Err(RuntimeError("Cannot read properties of undefined (reading 'createdAt')"))
    else
      assert mine[|mine| - 1] in mine;
      Ok(Stats(|mine|, mine[|mine| - 1].createdAt))
  }

  /** The date `findStats` reports is that of the user's post standing last in the table. */
  lemma FindStatsLastInTable(posts: seq<PostRow>, userId: int)
    requires FindStats(posts, userId).Ok?
    ensures exists i :: 0 <= i < |posts| && posts[i].userId == userId
              && posts[i].createdAt == FindStats(posts, userId).value.lastPostDate
              && forall j :: i < j < |posts| ==> posts[j].userId != userId
  {
    var mine := FindByUser(posts, userId);
    var i := FilterLast(posts, ByUser(userId));
    assert mine[|mine| - 1] == posts[i] && ByUser(userId)(posts[i]);
    assert FindStats(posts, userId).value.lastPostDate == posts[i].createdAt;
    assert forall j :: i < j < |posts| ==> !ByUser(userId)(posts[j]);
  }

  /** A user without posts gets a 500 instead of statistics. */
  lemma FindStatsFailsWithoutPosts(posts: seq<PostRow>, userId: int)
    requires forall i :: 0 <= i < |posts| ==> posts[i].userId != userId
    ensures FindStats(posts, userId).Err?
    ensures FindStats(posts, userId).error.Status() == INTERNAL_SERVER_ERROR
  {
  }

  /** The statistics with an empty history allowed: no posts, no last date. */
  datatype UserStats = UserStats(totalPosts: int, lastPostDate: Option<int>)

  /** `findStats` as evidently intended: total defined for every user. */
  function FindStatsOrEmpty(posts: seq<PostRow>, userId: int): (r: UserStats)
    ensures r.totalPosts == |FindByUser(posts, userId)|
    ensures r.lastPostDate.None? <==> r.totalPosts == 0
    ensures r.lastPostDate.None? <==> forall p :: p in posts ==> p.userId != userId
    ensures r.lastPostDate.Some? ==> r.lastPostDate.value == FindByUser(posts, userId)[r.totalPosts - 1].createdAt
  {
    var mine := FindByUser(posts, userId);
    if |mine| == 0 then UserStats(0, None)
    else
      assert mine[0] in mine;
      UserStats(|mine|, Some(mine[|mine| - 1].createdAt))
  }

  /** Wherever the original succeeds, the corrected statistics agree with it. */
  lemma FindStatsOrEmptyAgrees(posts: seq<PostRow>, userId: int)
    ensures FindStats(posts, userId).Ok? ==>
      var s := FindStats(posts, userId).value;
      FindStatsOrEmpty(posts, userId) == UserStats(s.totalPosts, Some(s.lastPostDate))
  {
  }

  // ------------------------------------------------------------- ledger

  /** The like relation after the toggle: the pair leaves when present and enters when absent. */
  function ToggledLikes(likes: set<Like>, userId: int, postId: int): (r: set<Like>)
    ensures Like(userId, postId) in r <==> Like(userId, postId) !in likes
    ensures forall l :: l != Like(userId, postId) ==> (l in r <==> l in likes)
  {
    if Like(userId, postId) in likes then likes - {Like(userId, postId)} else likes + {Like(userId, postId)}
  }

  /** The post table after `likeCount: { increment / decrement }` on one id. */
  function ShiftLikeCount(posts: seq<PostRow>, postId: int, delta: int): (r: seq<PostRow>)
    ensures |r| == |posts|
    ensures forall i :: 0 <= i < |posts| && posts[i].id != postId ==> r[i] == posts[i]
    ensures forall i :: 0 <= i < |posts| && posts[i].id == postId ==>
              r[i].likeCount == posts[i].likeCount + delta && r[i].(likeCount := posts[i].likeCount) == posts[i]
  {
    seq(|posts|, i requires 0 <= i < |posts| =>
      if posts[i].id == postId then posts[i].(likeCount := posts[i].likeCount + delta) else posts[i])
  }

  /** The counter moves down when the toggle removed the like and up when it added one. */
  function ToggleDelta(likes: set<Like>, userId: int, postId: int): int {
    if Like(userId, postId) in likes then -1 else 1
  }

  /** Toggling twice gives back the like relation and every counter. */
  lemma ToggleTwiceRestores(posts: seq<PostRow>, likes: set<Like>, userId: int, postId: int)
    ensures ToggledLikes(ToggledLikes(likes, userId, postId), userId, postId) == likes
    ensures var once := ToggledLikes(likes, userId, postId);
      ShiftLikeCount(ShiftLikeCount(posts, postId, ToggleDelta(likes, userId, postId)), postId, ToggleDelta(once, userId, postId)) == posts
  {
    var once := ToggledLikes(likes, userId, postId);
    var back := ShiftLikeCount(ShiftLikeCount(posts, postId, ToggleDelta(likes, userId, postId)), postId, ToggleDelta(once, userId, postId));
    assert ToggleDelta(once, userId, postId) == -ToggleDelta(likes, userId, postId);
    assert |back| == |posts|;
    forall i | 0 <= i < |posts| ensures back[i] == posts[i] {
    }
  }

  /** The likes of one post after the toggle: one more or one fewer for the toggled post, the same elsewhere. */
  lemma ToggledLikesOf(likes: set<Like>, userId: int, postId: int, id: int)
    ensures |LikesOf(ToggledLikes(likes, userId, postId), id)|
            == |LikesOf(likes, id)| + if id == postId then ToggleDelta(likes, userId, postId) else 0
  {
    var l := Like(userId, postId);
    var after := ToggledLikes(likes, userId, postId);
    if id != postId {
      assert LikesOf(after, id) == LikesOf(likes, id);
    } else if l in likes {
      assert LikesOf(after, id) == LikesOf(likes, id) - {l};
    } else {
      assert LikesOf(after, id) == LikesOf(likes, id) + {l};
    }
  }

  /** The toggle keeps every counter equal to the number of its post's likes. */
  lemma ToggleKeepsLikeCounts(posts: seq<PostRow>, likes: set<Like>, userId: int, postId: int)
    requires LikeCountsMatch(posts, likes)
    ensures LikeCountsMatch(ShiftLikeCount(posts, postId, ToggleDelta(likes, userId, postId)), ToggledLikes(likes, userId, postId))
  {
    var likes' := ToggledLikes(likes, userId, postId);
    var posts' := ShiftLikeCount(posts, postId, ToggleDelta(likes, userId, postId));
    forall i | 0 <= i < |posts'| ensures posts'[i].likeCount == |LikesOf(likes', posts'[i].id)| {
      ToggledLikesOf(likes, userId, postId, posts[i].id);
    }
  }

  /** A table change that keeps every row's id and author keeps the database invariant. */
  lemma SameKeysKeepValid(users: seq<UserRow>, posts: seq<PostRow>, posts': seq<PostRow>, likes: set<Like>, likes': set<Like>,
                          tokens: map<TokenKey, TokenRecord>, nextUserId: int, nextPostId: int)
    requires TablesValid(users, posts, likes, tokens, nextUserId, nextPostId)
    requires |posts'| == |posts|
    requires forall i :: 0 <= i < |posts| ==> posts'[i].id == posts[i].id && posts'[i].userId == posts[i].userId
    requires forall l :: l in likes' ==> HasUser(users, l.userId) && HasPost(posts, l.postId)
    ensures TablesValid(users, posts', likes', tokens, nextUserId, nextPostId)
  {
    forall l | l in likes' ensures HasPost(posts', l.postId) {
      var i :| 0 <= i < |posts| && posts[i].id == l.postId;
      assert posts'[i].id == l.postId;
    }
    assert DistinctKeys(posts', PostId) by {
      forall i, j | 0 <= i < j < |posts'| ensures PostId(posts'[i]) != PostId(posts'[j]) {
        assert PostId(posts[i]) != PostId(posts[j]);
      }
    }
  }

  /** A toggle whose new pair, if any, resolves keeps the database invariant, and the post stays findable. */
  lemma ToggleKeepsValid(users: seq<UserRow>, posts: seq<PostRow>, likes: set<Like>,
                         tokens: map<TokenKey, TokenRecord>, nextUserId: int, nextPostId: int, userId: int, postId: int)
    requires TablesValid(users, posts, likes, tokens, nextUserId, nextPostId)
    requires Like(userId, postId) in likes || (HasUser(users, userId) && HasPost(posts, postId))
    ensures TablesValid(users, ShiftLikeCount(posts, postId, ToggleDelta(likes, userId, postId)),
                        ToggledLikes(likes, userId, postId), tokens, nextUserId, nextPostId)
    ensures FindOne(ShiftLikeCount(posts, postId, ToggleDelta(likes, userId, postId)), postId).Some?
  {
    var posts' := ShiftLikeCount(posts, postId, ToggleDelta(likes, userId, postId));
    SameKeysKeepValid(users, posts, posts', likes, ToggledLikes(likes, userId, postId), tokens, nextUserId, nextPostId);
    var i :| 0 <= i < |posts| && posts[i].id == postId;
    assert posts'[i].id == postId;
  }

  /**
   * `toggleLike(postId, userId)`: one transaction that deletes or creates the
   * pair and moves the post's counter. Creating a pair whose user or post does
   * not exist violates a foreign key and the transaction rolls back.
   */
  method ToggleLike(db: Database, postId: int, userId: int) returns (r: Result<PostRow, Failure>)
    requires db.Valid()
    modifies db
    ensures db.Valid()
    ensures db.users == old(db.users) && db.tokens == old(db.tokens)
    ensures db.nextUserId == old(db.nextUserId) && db.nextPostId == old(db.nextPostId)
    ensures Like(userId, postId) !in old(db.likes) && !(HasUser(old(db.users), userId) && HasPost(old(db.posts), postId)) ==>
      r == Err(PrismaError(FOREIGN_KEY_CONSTRAINT_FAILED)) && db.posts == old(db.posts) && db.likes == old(db.likes)
    ensures Like(userId, postId) in old(db.likes) || (HasUser(old(db.users), userId) && HasPost(old(db.posts), postId)) ==>
      && db.likes == ToggledLikes(old(db.likes), userId, postId)
      && db.posts == ShiftLikeCount(old(db.posts), postId, ToggleDelta(old(db.likes), userId, postId))
      && r.Ok? && r.value in db.posts && r.value.id == postId
  {
    var existingLike := Like(userId, postId) in db.likes;
    if !existingLike && !(FindOne(db.posts, postId).Some? && FindUser(db.users, userId)) {
      return Err(PrismaError(FOREIGN_KEY_CONSTRAINT_FAILED));
    }
    var updated := ApplyToggle(db, postId, userId);
    r := Ok(updated);
  }

  /** The two writes of the transaction once the pair's foreign keys are known to resolve. */
  method ApplyToggle(db: Database, postId: int, userId: int) returns (updated: PostRow)
    requires db.Valid()
    requires Like(userId, postId) in db.likes || (HasUser(db.users, userId) && HasPost(db.posts, postId))
    modifies db
    ensures db.Valid()
    ensures db.users == old(db.users) && db.tokens == old(db.tokens)
    ensures db.nextUserId == old(db.nextUserId) && db.nextPostId == old(db.nextPostId)
    ensures db.likes == ToggledLikes(old(db.likes), userId, postId)
    ensures db.posts == ShiftLikeCount(old(db.posts), postId, ToggleDelta(old(db.likes), userId, postId))
    ensures updated in db.posts && updated.id == postId
  {
    ToggleKeepsValid(db.users, db.posts, db.likes, db.tokens, db.nextUserId, db.nextPostId, userId, postId);
    var posts' := ShiftLikeCount(db.posts, postId, ToggleDelta(db.likes, userId, postId));
    updated := FindOne(posts', postId).value;
    db.posts := posts';
    db.likes := ToggledLikes(db.likes, userId, postId);
  }

  /** Whether a user row with this id exists (the foreign key `like.userId`). */
  function FindUser(users: seq<UserRow>, id: int): (r: bool)
    ensures r <==> HasUser(users, id)
    decreases |users|
  {
    if users == [] then false
    else if users[0].id == id then true
    else
      assert forall i :: 0 < i < |users| ==> users[i] == users[1..][i - 1];
      FindUser(users[1..], id)
  }

  // ---------------------------------------------------------------- create

  /** The body of `create` (src/posts/dto/create-post.dto.ts); `isPublished` may be omitted. */
  datatype CreatePostDto = CreatePostDto(title: string, description: string, isPublished: Option<bool>)

  /** The row Prisma writes: autoincrement id, zero counters, the current time. */
  function NewPost(id: int, dto: CreatePostDto, userId: int, now: int): (p: PostRow)
    ensures p.id == id && p.userId == userId && p.title == dto.title && p.description == dto.description
    ensures p.likeCount == 0 && p.viewCount == 0 && p.createdAt == now
    ensures p.isPublished == if dto.isPublished.Some? then dto.isPublished.value else IS_PUBLISHED_DEFAULT
  {
    PostRow(id, dto.title, dto.description,
            if dto.isPublished.Some? then dto.isPublished.value else IS_PUBLISHED_DEFAULT,
            0, 0, userId, now)
  }

  /** A new row under a fresh id keeps the invariant and, having no likes yet, the counters. */
  lemma CreateKeepsValid(users: seq<UserRow>, posts: seq<PostRow>, likes: set<Like>,
                         tokens: map<TokenKey, TokenRecord>, nextUserId: int, nextPostId: int, p: PostRow)
    requires TablesValid(users, posts, likes, tokens, nextUserId, nextPostId)
    requires p.id == nextPostId && p.likeCount == 0 && HasUser(users, p.userId)
    ensures TablesValid(users, posts + [p], likes, tokens, nextUserId, nextPostId + 1)
    ensures LikeCountsMatch(posts, likes) ==> LikeCountsMatch(posts + [p], likes)
  {
    var posts' := posts + [p];
    SnocDistinct(posts, p, PostId);
    forall id | HasPost(posts, id) ensures HasPost(posts', id) {
      var i :| 0 <= i < |posts| && posts[i].id == id;
      assert posts'[i] == posts[i];
    }
    forall i | 0 <= i < |posts'| ensures HasUser(users, posts'[i].userId) {
      if i < |posts| {
        assert posts'[i] == posts[i];
      }
    }
    assert LikesOf(likes, p.id) == {} by {
      forall l | l in likes ensures l.postId != p.id {
        var i :| 0 <= i < |posts| && posts[i].id == l.postId;
      }
    }
    if LikeCountsMatch(posts, likes) {
      forall i | 0 <= i < |posts'| ensures posts'[i].likeCount == |LikesOf(likes, posts'[i].id)| {
        if i < |posts| {
          assert posts'[i] == posts[i];
        }
      }
    }
  }

  /** `create({...dto, user_id})`: `connect` on a missing user fails and nothing is written. */
  method Create(db: Database, dto: CreatePostDto, userId: int, now: int) returns (r: Result<PostRow, Failure>)
    requires db.Valid()
    modifies db
    ensures db.Valid()
    ensures db.users == old(db.users) && db.likes == old(db.likes) && db.tokens == old(db.tokens)
    ensures db.nextUserId == old(db.nextUserId)
    ensures !HasUser(old(db.users), userId) ==>
      r == Err(PrismaError(RECORD_NOT_FOUND)) && db.posts == old(db.posts) && db.nextPostId == old(db.nextPostId)
    ensures HasUser(old(db.users), userId) ==>
      && r == Ok(NewPost(old(db.nextPostId), dto, userId, now))
      && db.posts == old(db.posts) + [r.value]
      && db.nextPostId == old(db.nextPostId) + 1
  {
    if !FindUser(db.users, userId) {
      return Err(PrismaError(RECORD_NOT_FOUND));
    }
    var p := NewPost(db.nextPostId, dto, userId, now);
    CreateKeepsValid(db.users, db.posts, db.likes, db.tokens, db.nextUserId, db.nextPostId, p);
    db.posts, db.nextPostId := db.posts + [p], db.nextPostId + 1;
    r := Ok(p);
  }

  // ---------------------------------------------------------------- update

  /** The fields an update body may carry; an absent field is left as it is. */
  datatype PostPatch = PostPatch(title: Option<string>, description: Option<string>, isPublished: Option<bool>)

  function Apply(p: PostRow, patch: PostPatch): (q: PostRow)
    ensures q.id == p.id && q.userId == p.userId && q.likeCount == p.likeCount
    ensures q.viewCount == p.viewCount && q.createdAt == p.createdAt
    ensures q.title == (if patch.title.Some? then patch.title.value else p.title)
    ensures q.description == (if patch.description.Some? then patch.description.value else p.description)
    ensures q.isPublished == (if patch.isPublished.Some? then patch.isPublished.value else p.isPublished)
  {
    p.(title := if patch.title.Some? then patch.title.value else p.title,
       description := if patch.description.Some? then patch.description.value else p.description,
       isPublished := if patch.isPublished.Some? then patch.isPublished.value else p.isPublished)
  }

  /** The post table with the row `id` rewritten by `row`, every other row kept. */
  function Rewritten(posts: seq<PostRow>, id: int, row: PostRow -> PostRow): (r: seq<PostRow>)
    ensures |r| == |posts|
    ensures forall i :: 0 <= i < |posts| ==> r[i] == if posts[i].id == id then row(posts[i]) else posts[i]
  {
    seq(|posts|, i requires 0 <= i < |posts| => if posts[i].id == id then row(posts[i]) else posts[i])
  }

  function ApplyPatch(patch: PostPatch): PostRow -> PostRow {
    (p: PostRow) => Apply(p, patch)
  }

  /** Rewriting rows without touching ids, authors or counters keeps the invariant and the counters. */
  lemma RewriteKeepsValid(users: seq<UserRow>, posts: seq<PostRow>, likes: set<Like>,
                          tokens: map<TokenKey, TokenRecord>, nextUserId: int, nextPostId: int,
                          id: int, row: PostRow -> PostRow)
    requires TablesValid(users, posts, likes, tokens, nextUserId, nextPostId)
    requires forall p :: row(p).id == p.id && row(p).userId == p.userId && row(p).likeCount == p.likeCount
    ensures TablesValid(users, Rewritten(posts, id, row), likes, tokens, nextUserId, nextPostId)
    ensures LikeCountsMatch(posts, likes) ==> LikeCountsMatch(Rewritten(posts, id, row), likes)
  {
    SameKeysKeepValid(users, posts, Rewritten(posts, id, row), likes, likes, tokens, nextUserId, nextPostId);
  }

  /** `update(id, dto)`: Prisma's `update`, which throws when the row is missing. */
  method Update(db: Database, id: int, patch: PostPatch) returns (r: Result<PostRow, Failure>)
    requires db.Valid()
    modifies db
    ensures db.Valid()
    ensures db.users == old(db.users) && db.likes == old(db.likes) && db.tokens == old(db.tokens)
    ensures db.nextUserId == old(db.nextUserId) && db.nextPostId == old(db.nextPostId)
    ensures !HasPost(old(db.posts), id) ==> r == Err(PrismaError(RECORD_NOT_FOUND)) && db.posts == old(db.posts)
    ensures HasPost(old(db.posts), id) ==>
      && db.posts == Rewritten(old(db.posts), id, ApplyPatch(patch))
      && r == Ok(Apply(FindOne(old(db.posts), id).value, patch))
  {
    var post := FindOne(db.posts, id);
    if post.None? {
      return Err(PrismaError(RECORD_NOT_FOUND));
    }
    RewriteKeepsValid(db.users, db.posts, db.likes, db.tokens, db.nextUserId, db.nextPostId, id, ApplyPatch(patch));
    db.posts := Rewritten(db.posts, id, ApplyPatch(patch));
    r := Ok(Apply(post.value, patch));
  }

  // --------------------------------------------------------------- publish

  function Flipped(p: PostRow): (q: PostRow)
    ensures q.isPublished == !p.isPublished && q.(isPublished := p.isPublished) == p
  {
    p.(isPublished := !p.isPublished)
  }

  function FlipPublished(): PostRow -> PostRow {
    (p: PostRow) => Flipped(p)
  }

  /** Publishing twice gives back the table. */
  lemma PublishTwiceRestores(posts: seq<PostRow>, id: int)
    ensures Rewritten(Rewritten(posts, id, FlipPublished()), id, FlipPublished()) == posts
  {
    var back := Rewritten(Rewritten(posts, id, FlipPublished()), id, FlipPublished());
    assert forall i :: 0 <= i < |posts| ==> back[i] == posts[i];
  }

  /**
   * `publish(id)`: reads the row, then writes the negated flag. A missing row
   * makes `post.isPublished` read a property of `null`.
   */
  method Publish(db: Database, id: int) returns (r: Result<PostRow, Failure>)
    requires db.Valid()
    modifies db
    ensures db.Valid()
    ensures db.users == old(db.users) && db.likes == old(db.likes) && db.tokens == old(db.tokens)
    ensures db.nextUserId == old(db.nextUserId) && db.nextPostId == old(db.nextPostId)
    ensures !HasPost(old(db.posts), id) ==>
      r == Err(RuntimeError("Cannot read properties of null (reading 'isPublished')")) && db.posts == old(db.posts)
    ensures HasPost(old(db.posts), id) ==>
      && db.posts == Rewritten(old(db.posts), id, FlipPublished())
      && r.Ok? && r.value.id == id && r.value.isPublished == !FindOne(old(db.posts), id).value.isPublished
      && r.value.(isPublished := !r.value.isPublished) == FindOne(old(db.posts), id).value
  {
    var post := FindOne(db.posts, id);
    if post.None? {
      return Err(RuntimeError("Cannot read properties of null (reading 'isPublished')"));
    }
    RewriteKeepsValid(db.users, db.posts, db.likes, db.tokens, db.nextUserId, db.nextPostId, id, FlipPublished());
    db.posts := Rewritten(db.posts, id, FlipPublished());
    r := Ok(Flipped(post.value));
  }

  // ---------------------------------------------------------------- delete

  /** Statement 1 of the transaction: `like.deleteMany({ where: { postId: id } })`. */
  function WithoutLikesOfPost(likes: set<Like>, id: int): (r: set<Like>)
    ensures forall l :: l in r <==> l in likes && l.postId != id
  {
    set l | l in likes && l.postId != id
  }

  function NotPostId(id: int): PostRow -> bool {
    (p: PostRow) => p.id != id
  }

  /** Statement 2: `post.delete({ where: { id } })`. */
  function WithoutPost(posts: seq<PostRow>, id: int): (r: seq<PostRow>)
    ensures forall p :: p in r <==> p in posts && p.id != id
  {
    Filter(posts, NotPostId(id))
  }

  /** Every like left after the delete still names an existing user and post. */
  lemma PostDeleteKeepsReferences(users: seq<UserRow>, posts: seq<PostRow>, likes: set<Like>, id: int)
    requires ReferencesResolve(users, posts, likes)
    ensures ReferencesResolve(users, WithoutPost(posts, id), WithoutLikesOfPost(likes, id))
  {
    var posts', likes' := WithoutPost(posts, id), WithoutLikesOfPost(likes, id);
    assert forall i :: 0 <= i < |posts'| ==> posts'[i] in posts;
    forall l | l in likes' ensures HasPost(posts', l.postId) {
      var i :| 0 <= i < |posts| && posts[i].id == l.postId;
      assert posts[i] in posts';
      var j :| 0 <= j < |posts'| && posts'[j] == posts[i];
    }
  }

  /** Removing a post and its likes keeps the invariant. */
  lemma PostDeleteKeepsValid(users: seq<UserRow>, posts: seq<PostRow>, likes: set<Like>,
                             tokens: map<TokenKey, TokenRecord>, nextUserId: int, nextPostId: int, id: int)
    requires TablesValid(users, posts, likes, tokens, nextUserId, nextPostId)
    ensures TablesValid(users, WithoutPost(posts, id), WithoutLikesOfPost(likes, id), tokens, nextUserId, nextPostId)
  {
    var posts' := WithoutPost(posts, id);
    FilterKeepsDistinctKeys(posts, NotPostId(id), PostId);
    assert forall i :: 0 <= i < |posts'| ==> posts'[i] in posts;
    PostDeleteKeepsReferences(users, posts, likes, id);
  }

  /** Removing a post and its likes leaves every remaining counter equal to its likes. */
  lemma PostDeleteKeepsLikeCounts(posts: seq<PostRow>, likes: set<Like>, id: int)
    requires LikeCountsMatch(posts, likes)
    ensures LikeCountsMatch(WithoutPost(posts, id), WithoutLikesOfPost(likes, id))
  {
    var posts', likes' := WithoutPost(posts, id), WithoutLikesOfPost(likes, id);
    forall i | 0 <= i < |posts'| ensures posts'[i].likeCount == |LikesOf(likes', posts'[i].id)| {
      assert posts'[i] in posts;
      var k :| 0 <= k < |posts| && posts[k] == posts'[i];
      assert LikesOf(likes', posts'[i].id) == LikesOf(likes, posts[k].id);
    }
  }

  /**
   * `delete(id)`: one transaction removing the post's likes, then the post. When
   * the post is missing the second statement throws and the first is rolled back.
   */
  method Delete(db: Database, id: int) returns (r: Result<PostRow, Failure>)
    requires db.Valid()
    modifies db
    ensures db.Valid()
    ensures db.users == old(db.users) && db.tokens == old(db.tokens)
    ensures db.nextUserId == old(db.nextUserId) && db.nextPostId == old(db.nextPostId)
    ensures !HasPost(old(db.posts), id) ==>
      r == Err(PrismaError(RECORD_NOT_FOUND)) && db.posts == old(db.posts) && db.likes == old(db.likes)
    ensures HasPost(old(db.posts), id) ==>
      && db.likes == WithoutLikesOfPost(old(db.likes), id)
      && db.posts == WithoutPost(old(db.posts), id)
      && r == Ok(FindOne(old(db.posts), id).value)
  {
    var post := FindOne(db.posts, id);
    if post.None? {
      return Err(PrismaError(RECORD_NOT_FOUND));
    }
    PostDeleteKeepsValid(db.users, db.posts, db.likes, db.tokens, db.nextUserId, db.nextPostId, id);
    db.likes := WithoutLikesOfPost(db.likes, id);   // 1. the post's likes
    db.posts := WithoutPost(db.posts, id);          // 2. the post
    r := Ok(post.value);
  }
}
