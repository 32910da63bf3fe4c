/** The records the benchmark reads and writes: users, their posts, a user
    annotated with its posts (the shape both fetch strategies return), and the
    two tables of the store. Also the order `id: "asc"` sorts users by, and the
    per-user subsequence of a flat list of posts, which every other module
    states its contracts with. */
module Entities {

  /** User ids are the strings `uuid()` produces; the model takes them as given. */
  type UserId = string

  /** A post's own primary key, assigned by the store. */
  type PostId = nat

  datatype User = User(id: UserId)

  /** A row of the "Post" table: its key, the owning user's id and the
      creation time in milliseconds since the Unix epoch. */
  datatype Post = Post(id: PostId, userId: UserId, createdAt: int)

  /** `{ ...user, posts }`: a user's fields followed by a list of its posts. */
  datatype UserWithPosts = UserWithPosts(id: UserId, posts: seq<Post>)

  /** The contents of the two tables. A user id is a primary key, so the user
      table is a set of ids; the order of the rows of "Post" carries no meaning. */
  datatype Store = Store(userIds: set<UserId>, posts: seq<Post>)

  /** Every post refers to an existing user (the foreign key from "Post" to "User"). */
  predicate ReferentiallyIntact(store: Store)
  {
    forall p | p in store.posts :: p.userId in store.userIds
  }

  // ---------------------------------------------------------------------------
  // The order of user ids

  /** Strict lexicographic order on ids, character by character; a proper
      prefix comes first. */
  predicate IdLess(a: UserId, b: UserId)
  {
    if |a| == 0 then |b| > 0
    else if |b| == 0 then false
    else a[0] < b[0] || (a[0] == b[0] && IdLess(a[1..], b[1..]))
  }

  lemma {:induction false} IdLessIrreflexive(a: UserId)
    ensures !IdLess(a, a)
  {
    if |a| > 0 {
      IdLessIrreflexive(a[1..]);
    }
  }

  lemma {:induction false} IdLessTransitive(a: UserId, b: UserId, c: UserId)
    requires IdLess(a, b) && IdLess(b, c)
    ensures IdLess(a, c)
  {
    if |a| > 0 && a[0] == b[0] && b[0] == c[0] {
      IdLessTransitive(a[1..], b[1..], c[1..]);
    }
  }

  lemma {:induction false} IdLessTotal(a: UserId, b: UserId)
    requires a != b
    ensures IdLess(a, b) || IdLess(b, a)
  {
    if |a| > 0 && |b| > 0 && a[0] == b[0] {
      assert a == [a[0]] + a[1..] && b == [b[0]] + b[1..];
      IdLessTotal(a[1..], b[1..]);
    }
  }

  /** Users listed in strictly ascending id order (so no id twice). */
  predicate StrictlyAscending(users: seq<User>)
  {
    forall i, j | 0 <= i < j < |users| :: IdLess(users[i].id, users[j].id)
  }

  predicate NoDuplicates(ids: seq<UserId>)
  {
    forall i, j | 0 <= i < j < |ids| :: ids[i] != ids[j]
  }

  function IdsOf(users: seq<User>): set<UserId>
  {
    set u | u in users :: u.id
  }

  /** Every non-empty set of ids has a least element. */
  lemma {:induction false} LeastId(ids: set<UserId>) returns (m: UserId)
    requires ids != {}
    ensures m in ids && forall x | x in ids && x != m :: IdLess(m, x)
    decreases |ids|
  {
    var x :| x in ids;
    if ids == {x} {
      m := x;
    } else {
      var m' := LeastId(ids - {x});
      IdLessTotal(x, m');
      if IdLess(x, m') {
        m := x;
        forall y | y in ids && y != m
          ensures IdLess(m, y)
        {
          if y != m' {
            IdLessTransitive(x, m', y);
          }
        }
      } else {
        m := m';
      }
    }
  }

  /** Every finite set of ids can be listed as users in strictly ascending
      order, so the ascending fetch of all users always has an answer. */
  lemma {:induction false} AscendingListExists(ids: set<UserId>) returns (users: seq<User>)
    ensures StrictlyAscending(users) && IdsOf(users) == ids
    decreases |ids|
  {
    if ids == {} {
      users := [];
    } else {
      var m := LeastId(ids);
      var rest := AscendingListExists(ids - {m});
      users := [User(m)] + rest;
      forall i, j | 0 <= i < j < |users|
        ensures IdLess(users[i].id, users[j].id)
      {
        assert users[j] == rest[j - 1];
        assert rest[j - 1] in rest;
        if i == 0 {
          assert rest[j - 1].id in ids - {m};
        } else {
          assert users[i] == rest[i - 1];
        }
      }
      IdsOfCons(User(m), rest);
    }
  }

  lemma IdsOfCons(u: User, rest: seq<User>)
    ensures IdsOf([u] + rest) == {u.id} + IdsOf(rest)
  {
    forall x | x in IdsOf(rest)
      ensures x in IdsOf([u] + rest)
    {
      var v :| v in rest && v.id == x;
      assert v in [u] + rest;
    }
    assert u in [u] + rest;
  }

  // ---------------------------------------------------------------------------
  // A user's posts within a flat list

  /** The subsequence of `s` whose `userId` is `u`, in the order of `s`. */
  function PostsOf(s: seq<Post>, u: UserId): seq<Post>
  {
    if |s| == 0 then []
    else PostsOf(s[..|s| - 1], u) + (if s[|s| - 1].userId == u then [s[|s| - 1]] else [])
  }

  /** The ids of the users owning at least one post of `s`. */
  function UserIdsOf(s: seq<Post>): set<UserId>
  {
    set p | p in s :: p.userId
  }

  /** Filtering distributes over concatenation: what comes first in the input
      comes first in a user's list. */
  lemma {:induction false} PostsOfAppend(a: seq<Post>, b: seq<Post>, u: UserId)
    ensures PostsOf(a + b, u) == PostsOf(a, u) + PostsOf(b, u)
  {
    if |b| > 0 {
      var b' := b[..|b| - 1];
      assert (a + b)[..|a + b| - 1] == a + b';
      PostsOfAppend(a, b', u);
    } else {
      assert a + b == a;
    }
  }

  /** Each post occurs in a user's list as often as in the input when the
      user owns it, and not at all otherwise. */
  lemma {:induction false} PostsOfCount(s: seq<Post>, u: UserId, p: Post)
    ensures multiset(PostsOf(s, u))[p] == if p.userId == u then multiset(s)[p] else 0
  {
    if |s| > 0 {
      var s' := s[..|s| - 1];
      assert s == s' + [s[|s| - 1]];
      PostsOfCount(s', u, p);
    }
  }

  lemma PostsOfMembers(s: seq<Post>, u: UserId)
    ensures forall p :: p in PostsOf(s, u) <==> p in s && p.userId == u
  {
    forall p
      ensures p in PostsOf(s, u) <==> p in s && p.userId == u
    {
      PostsOfCount(s, u, p);
    }
  }

  /** A user's list is empty exactly when the user owns no post of the input. */
  lemma PostsOfEmpty(s: seq<Post>, u: UserId)
    ensures PostsOf(s, u) == [] <==> u !in UserIdsOf(s)
  {
    PostsOfMembers(s, u);
    if u in UserIdsOf(s) {
      var p :| p in s && p.userId == u;
      assert p in PostsOf(s, u);
    }
  }

  /** A list whose posts all belong to `u` is its own filter for `u`. */
  lemma {:induction false} PostsOfOwned(s: seq<Post>, u: UserId)
    requires forall p | p in s :: p.userId == u
    ensures PostsOf(s, u) == s
  {
    if |s| > 0 {
      var s' := s[..|s| - 1];
      assert s == s' + [s[|s| - 1]];
      PostsOfOwned(s', u);
    }
  }

  lemma {:induction false} PostsOfOwnedByOther(s: seq<Post>, u: UserId, v: UserId)
    requires forall p | p in s :: p.userId == v
    requires u != v
    ensures PostsOf(s, u) == []
  {
    if |s| > 0 {
      var s' := s[..|s| - 1];
      assert s == s' + [s[|s| - 1]];
      PostsOfOwnedByOther(s', u, v);
    }
  }
}
