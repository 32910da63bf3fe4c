/** Two small runs of the benchmark, worked out in full. */
module Scenarios {
  import opened Entities
  import opened Ranking
  import opened Normalizer
  import opened Strategies

  const A1 := Post(1, "a", 10)
  const A2 := Post(2, "a", 30)
  const A3 := Post(3, "a", 20)
  const B1 := Post(4, "b", 5)
  const B2 := Post(5, "b", 15)
  const B3 := Post(6, "b", 25)

  lemma SortedA()
    ensures SortDesc([A1, A2, A3]) == [A2, A3, A1]
  {
    assert [A1, A2, A3][1..] == [A2, A3] && [A2, A3][1..] == [A3];
    assert SortDesc([A3]) == [A3];
    assert Insert(A2, [A3]) == [A2, A3];
    assert SortDesc([A2, A3]) == [A2, A3];
    assert Insert(A1, [A2, A3]) == [A2] + Insert(A1, [A3]);
    assert Insert(A1, [A3]) == [A3, A1];
  }

  lemma SortedB()
    ensures SortDesc([B1, B2, B3]) == [B3, B2, B1]
  {
    assert [B1, B2, B3][1..] == [B2, B3] && [B2, B3][1..] == [B3];
    assert SortDesc([B3]) == [B3];
    assert Insert(B2, [B3]) == [B3, B2];
    assert SortDesc([B2, B3]) == [B3, B2];
    assert Insert(B1, [B3, B2]) == [B3] + Insert(B1, [B2]);
    assert Insert(B1, [B2]) == [B2, B1];
  }

  lemma OwnPostsOfTwoUsers()
    ensures PostsOf([A1, A2, A3, B1, B2, B3], "a") == [A1, A2, A3]
    ensures PostsOf([A1, A2, A3, B1, B2, B3], "b") == [B1, B2, B3]
  {
    assert [A1, A2, A3, B1, B2, B3] == [A1, A2, A3] + [B1, B2, B3];
    PostsOfAppend([A1, A2, A3], [B1, B2, B3], "a");
    PostsOfAppend([A1, A2, A3], [B1, B2, B3], "b");
    PostsOfOwned([A1, A2, A3], "a");
    PostsOfOwned([B1, B2, B3], "b");
    PostsOfOwnedByOther([A1, A2, A3], "b", "a");
    PostsOfOwnedByOther([B1, B2, B3], "a", "b");
  }

  lemma TopTwoOfA()
    ensures TopK([A1, A2, A3], 2) == [A2, A3]
  {
    SortedA();
    assert SortDesc([A1, A2, A3])[..2] == [A2, A3];
  }

  lemma TopTwoOfB()
    ensures TopK([B1, B2, B3], 2) == [B3, B2]
  {
    SortedB();
    assert SortDesc([B1, B2, B3])[..2] == [B3, B2];
  }

  /** Two users with three posts each and a limit of two: the include
      returns both users, ascending, each with its two newest posts. */
  lemma IncludeTwoUsers(store: Store, users: seq<User>)
    requires store == Store({"a", "b"}, [A1, A2, A3, B1, B2, B3])
    requires users == [User("a"), User("b")]
    ensures Include(users, store, 2) == [UserWithPosts("a", [A2, A3]), UserWithPosts("b", [B3, B2])]
  {
    var res := Include(users, store, 2);
    assert |res| == 2;
    assert res[0] == UserWithPosts("a", [A2, A3]) by {
      OwnPostsOfTwoUsers();
      TopTwoOfA();
    }
    assert res[1] == UserWithPosts("b", [B3, B2]) by {
      OwnPostsOfTwoUsers();
      TopTwoOfB();
    }
  }

  /** All six posts have different timestamps. */
  lemma TwoUsersDistinct(store: Store)
    requires store == Store({"a", "b"}, [A1, A2, A3, B1, B2, B3])
    ensures DistinctWithinUsers(store)
  {
    assert DistinctTimestamps(multiset(store.posts));
    DistinctIsDistinctWithinUsers(store);
  }

  /** ... and the normalised lateral rows equal it, whichever user the scan
      visits first. */
  lemma LateralTwoUsers(store: Store, users: seq<User>, order: seq<UserId>)
    requires store == Store({"a", "b"}, [A1, A2, A3, B1, B2, B3])
    requires users == [User("a"), User("b")]
    requires order == ["b", "a"] || order == ["a", "b"]
    ensures Normalized(users, LateralJoin(order, store.posts, 2)) == Include(users, store, 2)
  {
    assert IdsOf(users) == {"a", "b"} by {
      assert users[0] in users && users[1] in users;
    }
    assert IsUsersById(users, store);
    TwoUsersDistinct(store);
    LateralJoinMeetsSpec(store, order, 2);
    IncludeMeetsSpec(users, store, 2);
    LateralMatchesInclude(store, users, LateralJoin(order, store.posts, 2), Include(users, store, 2), 2);
  }

  /** One user without posts and a limit of three: both strategies return
      that user with an empty list. */
  lemma OneUserNoPosts()
    ensures var store := Store({"a"}, []);
            var users := [User("a")];
            && Include(users, store, 3) == [UserWithPosts("a", [])]
            && Normalized(users, LateralJoin(["a"], store.posts, 3)) == [UserWithPosts("a", [])]
  {
    assert ["a"][..0] == [];
  }
}
