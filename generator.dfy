/** `initData`: a fixed number of users with fresh ids, and for each user a
    fixed number of posts with random creation times. The ids `uuid()` draws,
    the keys the store gives the posts and the times
    `Math.floor(Math.random() * now)` yields are parameters. */
module DataGenerator {
  import opened Entities

  /** One user per drawn id, in the order the ids were drawn. */
  function NewUsers(ids: seq<UserId>): seq<User>
  {
    seq(|ids|, i requires 0 <= i < |ids| => User(ids[i]))
  }

  /** The `perUser` posts of the `i`-th user: the `j`-th is keyed
      `postId(i, j)` and created at `createdAt(i, j)`. */
  function PostsForUser(userId: UserId, i: nat, perUser: nat,
                        postId: (nat, nat) -> PostId, createdAt: (nat, nat) -> int): seq<Post>
  {
    seq(perUser, j requires 0 <= j < perUser => Post(postId(i, j), userId, createdAt(i, j)))
  }

  /** All users' posts, one `createMany` per user. */
  function NewPosts(users: seq<User>, perUser: nat,
                    postId: (nat, nat) -> PostId, createdAt: (nat, nat) -> int): seq<Post>
  {
    if |users| == 0 then []
    else NewPosts(users[..|users| - 1], perUser, postId, createdAt)
         + PostsForUser(users[|users| - 1].id, |users| - 1, perUser, postId, createdAt)
  }

  /** The store after `initData` on an empty store. */
  function InitData(ids: seq<UserId>, perUser: nat,
                    postId: (nat, nat) -> PostId, createdAt: (nat, nat) -> int): Store
  {
    Store(IdsOf(NewUsers(ids)), NewPosts(NewUsers(ids), perUser, postId, createdAt))
  }

  lemma NewUsersIds(ids: seq<UserId>)
    ensures |NewUsers(ids)| == |ids|
    ensures IdsOf(NewUsers(ids)) == set u | u in ids
  {
    var users := NewUsers(ids);
    forall u | u in ids
      ensures u in IdsOf(users)
    {
      var i :| 0 <= i < |ids| && ids[i] == u;
      assert users[i] in users;
    }
  }

  /** `POSTS_TO_CREATE_PER_USER` posts for each of the users. */
  lemma {:induction false} NewPostsCount(users: seq<User>, perUser: nat,
                                         postId: (nat, nat) -> PostId, createdAt: (nat, nat) -> int)
    ensures |NewPosts(users, perUser, postId, createdAt)| == |users| * perUser
  {
    if |users| > 0 {
      NewPostsCount(users[..|users| - 1], perUser, postId, createdAt);
      assert |users| * perUser == (|users| - 1) * perUser + perUser;
    }
  }

  /** Every generated post refers to a generated user. */
  lemma {:induction false} NewPostsOwners(users: seq<User>, perUser: nat,
                                          postId: (nat, nat) -> PostId, createdAt: (nat, nat) -> int)
    ensures forall p | p in NewPosts(users, perUser, postId, createdAt) :: p.userId in IdsOf(users)
  {
    if |users| > 0 {
      var front := users[..|users| - 1];
      NewPostsOwners(front, perUser, postId, createdAt);
      assert users == front + [users[|users| - 1]];
      assert IdsOf(front) <= IdsOf(users);
      assert users[|users| - 1] in users;
    }
  }

  lemma InitDataIntact(ids: seq<UserId>, perUser: nat,
                       postId: (nat, nat) -> PostId, createdAt: (nat, nat) -> int)
    ensures ReferentiallyIntact(InitData(ids, perUser, postId, createdAt))
  {
    NewPostsOwners(NewUsers(ids), perUser, postId, createdAt);
  }

  /** With distinct ids, the posts of the `i`-th user in the store are
      exactly the ones generated for it. */
  lemma {:induction false} NewPostsOfUser(ids: seq<UserId>, perUser: nat,
                                          postId: (nat, nat) -> PostId, createdAt: (nat, nat) -> int, i: nat)
    requires NoDuplicates(ids) && i < |ids|
    ensures PostsOf(NewPosts(NewUsers(ids), perUser, postId, createdAt), ids[i])
            == PostsForUser(ids[i], i, perUser, postId, createdAt)
    decreases |ids|
  {
    var n := |ids| - 1;
    var front := ids[..n];
    assert NewUsers(ids)[..n] == NewUsers(front);
    var mine := PostsForUser(ids[n], n, perUser, postId, createdAt);
    PostsOfAppend(NewPosts(NewUsers(front), perUser, postId, createdAt), mine, ids[i]);
    if i == n {
      PostsOfOwned(mine, ids[i]);
      NotGeneratedFor(front, perUser, postId, createdAt, ids[i]);
    } else {
      PostsOfOwnedByOther(mine, ids[i], ids[n]);
      NewPostsOfUser(front, perUser, postId, createdAt, i);
    }
  }

  /** A user id that was not drawn owns no generated post. */
  lemma NotGeneratedFor(ids: seq<UserId>, perUser: nat,
                        postId: (nat, nat) -> PostId, createdAt: (nat, nat) -> int, u: UserId)
    requires u !in ids
    ensures PostsOf(NewPosts(NewUsers(ids), perUser, postId, createdAt), u) == []
  {
    NewPostsOwners(NewUsers(ids), perUser, postId, createdAt);
    NewUsersIds(ids);
    PostsOfEmpty(NewPosts(NewUsers(ids), perUser, postId, createdAt), u);
  }

  /** Each generated user owns exactly `POSTS_TO_CREATE_PER_USER` posts. */
  lemma PostsPerUser(ids: seq<UserId>, perUser: nat,
                     postId: (nat, nat) -> PostId, createdAt: (nat, nat) -> int, i: nat)
    requires NoDuplicates(ids) && i < |ids|
    ensures |PostsOf(InitData(ids, perUser, postId, createdAt).posts, ids[i])| == perUser
  {
    NewPostsOfUser(ids, perUser, postId, createdAt, i);
  }
}
