/**
 * The in-memory `Post` of src/post.class.ts: its id comes from its own
 * class-wide counter, it holds a reference to its author, and it starts
 * published.
 */
module PostClass {
  import opened Ids
  import opened UserClass

  class Post {
    var id: int
    var title: string
    var description: string
    var user: User
    var isPublished: bool
    var createdAt: int
    var updatedAt: int

    /** `new Post(title, description, user)`; the clock is the parameter `now`. */
    constructor(ids: Counter, now: int, title: string, description: string, user: User)
      modifies ids
      ensures id == old(ids.nextId) && ids.nextId == old(ids.nextId) + 1
      ensures this.title == title && this.description == description && this.user == user
      ensures isPublished
      ensures createdAt == now && updatedAt == now
    {
      var issued := ids.Take();
      id := issued;
      this.title := title;
      this.description := description;
      this.user := user;
      isPublished := true;
      createdAt := now;
      updatedAt := now;
    }
  }

  /**
   * Constructs one post per (title, description) for `author`. The post ids are
   * consecutive, distinct and increasing; every post is published and points to
   * `author`; the user counter and the author are left as they were.
   */
  method ConstructAll(postIds: Counter, userIds: Counter, now: int, author: User,
                      entries: seq<(string, string)>) returns (posts: seq<Post>)
    requires postIds != userIds
    modifies postIds
    ensures |posts| == |entries|
    ensures postIds.nextId == old(postIds.nextId) + |entries|
    ensures userIds.nextId == old(userIds.nextId)
    ensures unchanged(author)
    ensures forall i :: 0 <= i < |posts| ==> posts[i].id == old(postIds.nextId) + i
    ensures forall i, j :: 0 <= i < j < |posts| ==> posts[i].id < posts[j].id
    ensures forall i :: 0 <= i < |posts| ==>
      && posts[i].title == entries[i].0 && posts[i].description == entries[i].1
      && posts[i].user == author && posts[i].isPublished
  {
    posts := [];
    var k := 0;
    while k < |entries|
      invariant 0 <= k <= |entries| && |posts| == k
      invariant postIds.nextId == old(postIds.nextId) + k
      invariant userIds.nextId == old(userIds.nextId)
      invariant unchanged(author)
      invariant forall i :: 0 <= i < k ==> posts[i].id == old(postIds.nextId) + i
      invariant forall i :: 0 <= i < k ==>
        && posts[i].title == entries[i].0 && posts[i].description == entries[i].1
        && posts[i].user == author && posts[i].isPublished
      invariant forall i :: 0 <= i < k ==> fresh(posts[i])
    {
      var p := new Post(postIds, now, entries[k].0, entries[k].1, author);
      posts := posts + [p];
      k := k + 1;
    }
  }
}
