/** The result normaliser of the lateral-join strategy: the flat list of
    posts is grouped by `userId` into a map, in arrival order, and every
    fetched user is paired with its group, or with `[]` when it has none. */
module Normalizer {
  import opened Entities

  /** What the normaliser returns: every user in the given order, each with
      its own posts in the order the flat list delivered them. */
  function Normalized(users: seq<User>, posts: seq<Post>): seq<UserWithPosts>
  {
    seq(|users|, i requires 0 <= i < |users| => UserWithPosts(users[i].id, PostsOf(posts, users[i].id)))
  }

  /** The `posts.reduce` into a `Map`: a key is created the first time a post
      of that user is seen, then the post is appended to that key's list. */
  method GroupPosts(posts: seq<Post>) returns (groups: map<UserId, seq<Post>>)
    ensures groups.Keys == UserIdsOf(posts)
    ensures forall u | u in groups :: groups[u] == PostsOf(posts, u)
  {
    groups := map[];
    var i := 0;
    while i < |posts|
      invariant 0 <= i <= |posts|
      invariant groups.Keys == UserIdsOf(posts[..i])
      invariant forall u | u in groups :: groups[u] == PostsOf(posts[..i], u)
    {
      var post := posts[i];
      var userId := post.userId;
      assert posts[..i + 1] == posts[..i] + [post];
      assert posts[..i + 1][..i] == posts[..i];
      if userId !in groups {
        PostsOfEmpty(posts[..i], userId);
        groups := groups[userId := []];
      }
      groups := groups[userId := groups[userId] + [post]];
      i := i + 1;
    }
    assert posts[..i] == posts;
  }

  /** The `users.map`: each user's fields followed by its group, `[]` when the
      map has no key for it. */
  function MergeUsers(users: seq<User>, groups: map<UserId, seq<Post>>): (r: seq<UserWithPosts>)
    ensures |r| == |users|
    ensures forall i | 0 <= i < |users| :: r[i].id == users[i].id
    ensures forall i | 0 <= i < |users| :: users[i].id !in groups ==> r[i].posts == []
    ensures forall i | 0 <= i < |users| :: users[i].id in groups ==> r[i].posts == groups[users[i].id]
  {
    seq(|users|, i requires 0 <= i < |users| =>
      UserWithPosts(users[i].id, if users[i].id in groups then groups[users[i].id] else []))
  }

  /** Merging with a complete grouping of `posts` gives the specified result:
      a user missing from the map is exactly a user with no posts. */
  lemma MergeGrouped(users: seq<User>, groups: map<UserId, seq<Post>>, posts: seq<Post>)
    requires groups.Keys == UserIdsOf(posts)
    requires forall u | u in groups :: groups[u] == PostsOf(posts, u)
    ensures MergeUsers(users, groups) == Normalized(users, posts)
  {
    forall i | 0 <= i < |users|
      ensures MergeUsers(users, groups)[i] == Normalized(users, posts)[i]
    {
      PostsOfEmpty(posts, users[i].id);
    }
  }

  /** The normalising tail of `findByJoinLateral`, given the fetched users and
      the rows of the lateral query. */
  method FindByJoinLateral(users: seq<User>, posts: seq<Post>) returns (r: seq<UserWithPosts>)
    ensures r == Normalized(users, posts)
  {
    var groups := GroupPosts(posts);
    r := MergeUsers(users, groups);
    MergeGrouped(users, groups, posts);
  }

  // ---------------------------------------------------------------------------
  // What the normalised result is

  /** One entry per fetched user, in the same order. */
  lemma NormalizedKeepsUsers(users: seq<User>, posts: seq<Post>)
    ensures var r := Normalized(users, posts);
            |r| == |users| && forall i | 0 <= i < |r| :: r[i].id == users[i].id
  {
  }

  /** A post is in a user's list exactly when it is in the input and belongs
      to that user: nothing of another user, nothing of an unknown user. */
  lemma NormalizedOwnPosts(users: seq<User>, posts: seq<Post>)
    ensures var r := Normalized(users, posts);
            forall i, p | 0 <= i < |r| :: p in r[i].posts <==> p in posts && p.userId == users[i].id
  {
    forall i | 0 <= i < |users| {
      PostsOfMembers(posts, users[i].id);
    }
  }

  /** Each post occurs in its owner's list as often as in the input. */
  lemma NormalizedCounts(users: seq<User>, posts: seq<Post>, i: nat, p: Post)
    requires i < |users| && p.userId == users[i].id
    ensures multiset(Normalized(users, posts)[i].posts)[p] == multiset(posts)[p]
  {
    PostsOfCount(posts, users[i].id, p);
  }

  /** A user whose id owns no post gets an empty list, and only such a user. */
  lemma NormalizedEmptyDefault(users: seq<User>, posts: seq<Post>)
    ensures var r := Normalized(users, posts);
            forall i | 0 <= i < |r| :: r[i].posts == [] <==> users[i].id !in UserIdsOf(posts)
  {
    forall i | 0 <= i < |users| {
      PostsOfEmpty(posts, users[i].id);
    }
  }

  /** A post whose owner was not fetched appears nowhere in the result. */
  lemma NormalizedDropsOrphans(users: seq<User>, posts: seq<Post>, p: Post)
    requires p.userId !in IdsOf(users)
    ensures forall i | 0 <= i < |users| :: p !in Normalized(users, posts)[i].posts
  {
    NormalizedOwnPosts(users, posts);
    forall i | 0 <= i < |users|
      ensures p !in Normalized(users, posts)[i].posts
    {
      assert users[i] in users;
    }
  }

  /** Arrival order is kept and nothing is re-sorted: a list split in two
      gives each user its posts from the first part, then those from the second. */
  lemma NormalizedSplit(users: seq<User>, a: seq<Post>, b: seq<Post>, i: nat)
    requires i < |users|
    ensures Normalized(users, a + b)[i].posts == Normalized(users, a)[i].posts + Normalized(users, b)[i].posts
  {
    PostsOfAppend(a, b, users[i].id);
  }

  /** Interchanging two neighbouring posts of different users does not change
      the result: only each user's own order matters. */
  lemma NormalizedSwapOthers(users: seq<User>, posts: seq<Post>, j: nat)
    requires j + 1 < |posts| && posts[j].userId != posts[j + 1].userId
    ensures var swapped := posts[..j] + [posts[j + 1], posts[j]] + posts[j + 2..];
            Normalized(users, swapped) == Normalized(users, posts)
  {
    var front, back := posts[..j], posts[j + 2..];
    assert posts == front + [posts[j], posts[j + 1]] + back;
    forall i | 0 <= i < |users|
      ensures PostsOf(front + [posts[j + 1], posts[j]] + back, users[i].id) == PostsOf(posts, users[i].id)
    {
      PostsOfSwap(front, posts[j], posts[j + 1], back, users[i].id);
    }
  }

  lemma PostsOfSwap(front: seq<Post>, x: Post, y: Post, back: seq<Post>, u: UserId)
    requires x.userId != y.userId
    ensures PostsOf(front + [y, x] + back, u) == PostsOf(front + [x, y] + back, u)
  {
    PostsOfAppend(front + [y, x], back, u);
    PostsOfAppend(front, [y, x], u);
    PostsOfAppend(front + [x, y], back, u);
    PostsOfAppend(front, [x, y], u);
    PostsOfPair(x, y, u);
    PostsOfPair(y, x, u);
  }

  lemma PostsOfPair(x: Post, y: Post, u: UserId)
    ensures PostsOf([x, y], u) == (if x.userId == u then [x] else []) + (if y.userId == u then [y] else [])
  {
    assert [x, y][..1] == [x];
    assert [x][..0] == [];
    assert PostsOf([x], u) == if x.userId == u then [x] else [];
  }

  /** More generally, two inputs that give every user the same posts in the
      same order normalise to the same result. */
  lemma NormalizedDependsOnOwnOrder(users: seq<User>, s: seq<Post>, t: seq<Post>)
    requires forall u | u in IdsOf(users) :: PostsOf(s, u) == PostsOf(t, u)
    ensures Normalized(users, s) == Normalized(users, t)
  {
    forall i | 0 <= i < |users|
      ensures Normalized(users, s)[i] == Normalized(users, t)[i]
    {
      assert users[i] in users;
    }
  }
}
