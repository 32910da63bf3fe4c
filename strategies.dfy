/** The two read strategies the benchmark times, stated as what the store
    answers, and the comparison at the end of the run: normalising the rows of
    the lateral join gives exactly what the include returns. */
module Strategies {
  import opened Entities
  import opened Ranking
  import opened Normalizer

  // ---------------------------------------------------------------------------
  // Fetching every user, ascending by id

  /** `users` lists every user of the store, ascending by id. */
  predicate IsUsersById(users: seq<User>, store: Store)
  {
    StrictlyAscending(users) && IdsOf(users) == store.userIds
  }

  /** There is only one such list, so both strategies see the users in the
      same order. */
  lemma UsersByIdUnique(a: seq<User>, b: seq<User>, store: Store)
    requires IsUsersById(a, store) && IsUsersById(b, store)
    ensures a == b
  {
    AscendingAgreeFrom(a, b, 0);
  }

  lemma {:induction false} AscendingAgreeFrom(a: seq<User>, b: seq<User>, i: nat)
    requires StrictlyAscending(a) && StrictlyAscending(b) && IdsOf(a) == IdsOf(b)
    requires i <= |a| && i <= |b| && a[..i] == b[..i]
    ensures a == b
    decreases |a| - i
  {
    if i == |a| {
      if i < |b| {
        assert b[i] in b;
        var j := IndexOfId(a, b[i].id);
        assert b[j] == a[j];
        IdLessIrreflexive(b[i].id);
      }
      assert a == a[..i] && b == b[..i];
    } else {
      var ja := PositionAtOrAfter(a, b, i);
      if i == |b| {
        assert false;
      }
      var jb := PositionAtOrAfter(b, a, i);
      if ja != i || jb != i {
        // b[i].id == a[jb].id and a[i].id == b[ja].id, with ja, jb >= i
        if jb > i {
          assert IdLess(a[i].id, a[jb].id);
        }
        if ja > i {
          assert IdLess(b[i].id, b[ja].id);
        }
        if ja > i && jb > i {
          IdLessTransitive(a[i].id, a[jb].id, a[i].id);
        }
        IdLessIrreflexive(a[i].id);
      }
      assert a[i] == b[i];
      assert a[..i + 1] == a[..i] + [a[i]] && b[..i + 1] == b[..i] + [b[i]];
      AscendingAgreeFrom(a, b, i + 1);
    }
  }

  /** Where `a[i]`'s id sits in `b`, when both agree before `i`: not before `i`. */
  lemma PositionAtOrAfter(a: seq<User>, b: seq<User>, i: nat) returns (j: nat)
    requires StrictlyAscending(a) && StrictlyAscending(b) && IdsOf(a) == IdsOf(b)
    requires i < |a| && i <= |b| && a[..i] == b[..i]
    ensures i <= j < |b| && b[j].id == a[i].id
  {
    assert a[i] in a;
    var k := IndexOfId(b, a[i].id);
    if k < i {
      assert a[k] == b[k];
      assert IdLess(a[k].id, a[i].id);
      IdLessIrreflexive(a[i].id);
    }
    j := k;
  }

  lemma IndexOfId(users: seq<User>, id: UserId) returns (j: nat)
    requires id in IdsOf(users)
    ensures j < |users| && users[j].id == id
  {
    var x :| x in users && x.id == id;
    j :| 0 <= j < |users| && users[j] == x;
  }

  // ---------------------------------------------------------------------------
  // Strategy A: the raw `JOIN LATERAL` query

  /** What the lateral query may return: rows of existing users only (it joins
      "User"), and for every user its `k` newest posts, newest first. The order
      in which the outer scan visits the users is not fixed by the query. */
  predicate IsLateralOutput(rows: seq<Post>, store: Store, k: nat)
  {
    && (forall p | p in rows :: p.userId in store.userIds)
    && (forall u | u in store.userIds :: IsTopK(PostsOf(rows, u), multiset(PostsOf(store.posts, u)), k))
  }

  /** One evaluation of the lateral query: for each user in the scan order,
      that user's sub-query result. */
  function LateralJoin(order: seq<UserId>, posts: seq<Post>, k: nat): seq<Post>
  {
    if |order| == 0 then []
    else LateralJoin(order[..|order| - 1], posts, k) + TopK(PostsOf(posts, order[|order| - 1]), k)
  }

  /** Every row of a user's sub-query belongs to that user. */
  lemma TopKOwned(posts: seq<Post>, v: UserId, k: nat)
    ensures forall p | p in TopK(PostsOf(posts, v), k) :: p.userId == v
  {
    TopKShape(PostsOf(posts, v), k);
    PostsOfMembers(posts, v);
    forall p | p in TopK(PostsOf(posts, v), k)
      ensures p.userId == v
    {
      assert p in multiset(TopK(PostsOf(posts, v), k));
    }
  }

  lemma {:induction false} LateralJoinOwners(order: seq<UserId>, posts: seq<Post>, k: nat)
    ensures forall p | p in LateralJoin(order, posts, k) :: p.userId in order
  {
    if |order| > 0 {
      var front, v := order[..|order| - 1], order[|order| - 1];
      LateralJoinOwners(front, posts, k);
      TopKOwned(posts, v, k);
      assert order == front + [v];
    }
  }

  /** Filtering the rows for one user gives back that user's sub-query result. */
  lemma {:induction false} LateralJoinPostsOf(order: seq<UserId>, posts: seq<Post>, k: nat, u: UserId)
    requires NoDuplicates(order)
    ensures PostsOf(LateralJoin(order, posts, k), u) == if u in order then TopK(PostsOf(posts, u), k) else []
  {
    if |order| > 0 {
      var front, v := order[..|order| - 1], order[|order| - 1];
      assert order == front + [v];
      LateralJoinPostsOf(front, posts, k, u);
      PostsOfAppend(LateralJoin(front, posts, k), TopK(PostsOf(posts, v), k), u);
      TopKOwned(posts, v, k);
      if u == v {
        PostsOfOwned(TopK(PostsOf(posts, v), k), u);
        assert u !in front;
      } else {
        PostsOfOwnedByOther(TopK(PostsOf(posts, v), k), u, v);
      }
    }
  }

  /** Whatever order the scan visits the users in, the rows meet the query's
      specification; so lateral outputs exist. */
  lemma LateralJoinMeetsSpec(store: Store, order: seq<UserId>, k: nat)
    requires NoDuplicates(order)
    requires forall u :: u in order <==> u in store.userIds
    ensures IsLateralOutput(LateralJoin(order, store.posts, k), store, k)
  {
    LateralJoinOwners(order, store.posts, k);
    forall u | u in store.userIds
      ensures IsTopK(PostsOf(LateralJoin(order, store.posts, k), u), multiset(PostsOf(store.posts, u)), k)
    {
      LateralJoinPostsOf(order, store.posts, k, u);
      TopKIsTopK(PostsOf(store.posts, u), k);
    }
  }

  // ---------------------------------------------------------------------------
  // Strategy B: `findMany` with `include: { posts: { take, orderBy } }`

  function UsersOf(res: seq<UserWithPosts>): seq<User>
  {
    seq(|res|, i requires 0 <= i < |res| => User(res[i].id))
  }

  /** What the include may return: every user ascending by id, each with its
      `k` newest posts, newest first. */
  predicate IsIncludeResult(res: seq<UserWithPosts>, store: Store, k: nat)
  {
    && IsUsersById(UsersOf(res), store)
    && forall i | 0 <= i < |res| :: IsTopK(res[i].posts, multiset(PostsOf(store.posts, res[i].id)), k)
  }

  /** One evaluation of the include, given the users ascending by id. */
  function Include(users: seq<User>, store: Store, k: nat): seq<UserWithPosts>
  {
    seq(|users|, i requires 0 <= i < |users| => UserWithPosts(users[i].id, TopK(PostsOf(store.posts, users[i].id), k)))
  }

  lemma IncludeMeetsSpec(users: seq<User>, store: Store, k: nat)
    requires IsUsersById(users, store)
    ensures IsIncludeResult(Include(users, store, k), store, k)
  {
    var res := Include(users, store, k);
    assert UsersOf(res) == users;
    forall i | 0 <= i < |res|
      ensures IsTopK(res[i].posts, multiset(PostsOf(store.posts, res[i].id)), k)
    {
      TopKIsTopK(PostsOf(store.posts, users[i].id), k);
    }
  }

  // ---------------------------------------------------------------------------
  // "same result?"

  /** No two different posts of the same user share a timestamp; posts of
      different users may. */
  predicate DistinctWithinUsers(store: Store)
  {
    forall u | u in store.userIds :: DistinctTimestamps(multiset(PostsOf(store.posts, u)))
  }

  /** Timestamps distinct across the whole table are in particular distinct
      within each user. */
  lemma DistinctIsDistinctWithinUsers(store: Store)
    requires DistinctTimestamps(multiset(store.posts))
    ensures DistinctWithinUsers(store)
  {
    forall u | u in store.userIds
      ensures DistinctTimestamps(multiset(PostsOf(store.posts, u)))
    {
      PostsOfMembers(store.posts, u);
    }
  }

  /** When no two posts of one user share a timestamp, normalising any output
      of the lateral query yields exactly any result of the include. */
  lemma LateralMatchesInclude(store: Store, users: seq<User>, rows: seq<Post>, res: seq<UserWithPosts>, k: nat)
    requires DistinctWithinUsers(store)
    requires IsUsersById(users, store)
    requires IsLateralOutput(rows, store, k)
    requires IsIncludeResult(res, store, k)
    ensures Normalized(users, rows) == res
  {
    UsersByIdUnique(users, UsersOf(res), store);
    forall i | 0 <= i < |users|
      ensures Normalized(users, rows)[i] == res[i]
    {
      var u := users[i].id;
      assert UsersOf(res)[i] == User(res[i].id);
      assert users[i] in users;
      TopKUnique(PostsOf(rows, u), res[i].posts, multiset(PostsOf(store.posts, u)), k);
    }
  }

  /** A tie in `createdAt` between two posts of one user can make the
      comparison fail: the lateral sub-query may keep one of two equally new
      posts and the include the other. */
  lemma TiesBreakEquality()
    ensures var older, newer := Post(1, "u", 7), Post(2, "u", 7);
            var store := Store({"u"}, [older, newer]);
            var users := [User("u")];
            && IsUsersById(users, store)
            && IsLateralOutput([older], store, 1)
            && IsIncludeResult([UserWithPosts("u", [newer])], store, 1)
            && Normalized(users, [older]) != [UserWithPosts("u", [newer])]
  {
    var older, newer := Post(1, "u", 7), Post(2, "u", 7);
    var store := Store({"u"}, [older, newer]);
    var users := [User("u")];
    SingleUserById("u");
    PostsOfOwned([older, newer], "u");
    PostsOfOwned([older], "u");
    TiesAllowTwoAnswers();
    assert IsLateralOutput([older], store, 1);
    assert UsersOf([UserWithPosts("u", [newer])]) == users;
    assert IsIncludeResult([UserWithPosts("u", [newer])], store, 1);
    assert Normalized(users, [older])[0].posts == [older];
  }

  lemma SingleUserById(u: UserId)
    ensures forall posts :: IsUsersById([User(u)], Store({u}, posts))
  {
    assert IdsOf([User(u)]) == {u} by {
      assert User(u) in [User(u)];
    }
  }

  /** The run's final check, `JSON.stringify(include) === JSON.stringify(lateral)`,
      as structural equality: it prints `true` whenever no user has two posts
      with the same timestamp, whatever order the lateral scan visits the
      users in. */
  method SameResult(store: Store, users: seq<User>, order: seq<UserId>, k: nat) returns (same: bool)
    requires DistinctWithinUsers(store)
    requires IsUsersById(users, store)
    requires NoDuplicates(order) && forall u :: u in order <==> u in store.userIds
    ensures same
  {
    var lateral := FindByJoinLateral(users, LateralJoin(order, store.posts, k));
    var included := Include(users, store, k);
    LateralJoinMeetsSpec(store, order, k);
    IncludeMeetsSpec(users, store, k);
    LateralMatchesInclude(store, users, LateralJoin(order, store.posts, k), included, k);
    same := included == lateral;
  }
}
