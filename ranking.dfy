/** "The k most recent posts": `ORDER BY "createdAt" DESC LIMIT k` in the
    lateral sub-query and `take: k, orderBy: { createdAt: "desc" }` in the
    include. `IsTopK` says which answers the store may give (it leaves the
    order among equal timestamps open, as both queries do); `TopK` computes
    one such answer. */
module Ranking {
  import opened Entities

  function Min(a: nat, b: nat): nat
  {
    if a <= b then a else b
  }

  /** Newest first. */
  predicate SortedDesc(s: seq<Post>)
  {
    forall i, j | 0 <= i < j < |s| :: s[i].createdAt >= s[j].createdAt
  }

  /** `r` is a correct answer to "the `k` newest posts of `m`": as many as
      there are, up to `k`; newest first; drawn from `m`; and nothing left out
      is newer than anything taken. */
  predicate IsTopK(r: seq<Post>, m: multiset<Post>, k: nat)
  {
    && |r| == Min(k, |m|)
    && SortedDesc(r)
    && multiset(r) <= m
    && forall p, i | p in m - multiset(r) && 0 <= i < |r| :: p.createdAt <= r[i].createdAt
  }

  /** No two different posts share a timestamp (the aim of the random dates). */
  predicate DistinctTimestamps(m: multiset<Post>)
  {
    forall p, q | p in m && q in m :: p.createdAt == q.createdAt ==> p == q
  }

  /** Places `p` into a newest-first list, before every post no newer than it. */
  function Insert(p: Post, s: seq<Post>): (r: seq<Post>)
    ensures |r| == |s| + 1
    ensures multiset(r) == multiset(s) + multiset{p}
  {
    if s == [] || p.createdAt >= s[0].createdAt then [p] + s
    else
      assert s == [s[0]] + s[1..];
      [s[0]] + Insert(p, s[1..])
  }

  lemma {:induction false} InsertSorted(p: Post, s: seq<Post>)
    requires SortedDesc(s)
    ensures SortedDesc(Insert(p, s))
  {
    if s != [] && p.createdAt < s[0].createdAt {
      var rest := Insert(p, s[1..]);
      InsertSorted(p, s[1..]);
      assert s == [s[0]] + s[1..];
      forall j | 0 <= j < |rest|
        ensures rest[j].createdAt <= s[0].createdAt
      {
        assert rest[j] in multiset(rest);
        if rest[j] != p {
          assert rest[j] in multiset(s[1..]);
          var i :| 0 <= i < |s[1..]| && s[1..][i] == rest[j];
          assert s[i + 1] == rest[j];
        }
      }
      assert Insert(p, s) == [s[0]] + rest;
    }
  }

  /** Newest-first permutation of `s`. */
  function SortDesc(s: seq<Post>): (r: seq<Post>)
    ensures |r| == |s|
    ensures multiset(r) == multiset(s)
    ensures SortedDesc(r)
  {
    if s == [] then []
    else
      assert s == [s[0]] + s[1..];
      InsertSorted(s[0], SortDesc(s[1..]));
      Insert(s[0], SortDesc(s[1..]))
  }

  function TopK(s: seq<Post>, k: nat): seq<Post>
  {
    SortDesc(s)[..Min(k, |s|)]
  }

  /** `TopK` is a correct answer, so correct answers always exist. */
  lemma TopKIsTopK(s: seq<Post>, k: nat)
    ensures IsTopK(TopK(s, k), multiset(s), k)
  {
    TopKShape(s, k);
    TopKNewest(s, k);
  }

  lemma TopKShape(s: seq<Post>, k: nat)
    ensures var r := TopK(s, k);
            |r| == Min(k, |multiset(s)|) && SortedDesc(r) && multiset(r) <= multiset(s)
  {
    var t := SortDesc(s);
    var n := Min(k, |s|);
    assert t == t[..n] + t[n..];
    assert multiset(t) == multiset(t[..n]) + multiset(t[n..]);
  }

  lemma TopKNewest(s: seq<Post>, k: nat)
    ensures var r := TopK(s, k);
            forall p, i | p in multiset(s) - multiset(r) && 0 <= i < |r| :: p.createdAt <= r[i].createdAt
  {
    PrefixIsNewest(SortDesc(s), Min(k, |s|));
  }

  /** In a newest-first list, whatever lies beyond a prefix is no newer than
      anything in it. */
  lemma PrefixIsNewest(t: seq<Post>, n: nat)
    requires SortedDesc(t) && n <= |t|
    ensures forall p, i | p in multiset(t) - multiset(t[..n]) && 0 <= i < n :: p.createdAt <= t[i].createdAt
  {
    var r, rest := t[..n], t[n..];
    assert t == r + rest;
    assert multiset(t) - multiset(r) == multiset(rest);
    forall p, i | p in multiset(t) - multiset(r) && 0 <= i < n
      ensures p.createdAt <= t[i].createdAt
    {
      assert p in rest;
      var j :| 0 <= j < |rest| && rest[j] == p;
      assert t[n + j] == p;
    }
  }

  /** With distinct timestamps there is only one correct answer: the store
      cannot choose between two. */
  lemma TopKUnique(r1: seq<Post>, r2: seq<Post>, m: multiset<Post>, k: nat)
    requires DistinctTimestamps(m)
    requires IsTopK(r1, m, k) && IsTopK(r2, m, k)
    ensures r1 == r2
  {
    AgreeFrom(r1, r2, m, k, 0);
  }

  /** Two correct answers that agree on their first `i` posts agree everywhere. */
  lemma {:induction false} AgreeFrom(r1: seq<Post>, r2: seq<Post>, m: multiset<Post>, k: nat, i: nat)
    requires DistinctTimestamps(m)
    requires IsTopK(r1, m, k) && IsTopK(r2, m, k)
    requires i <= |r1| && r1[..i] == r2[..i]
    ensures r1 == r2
    decreases |r1| - i
  {
    if i == |r1| {
      assert r1 == r1[..i] && r2 == r2[..i];
    } else {
      NextIsInRest(r1, m, k, i);
      NextIsInRest(r2, m, k, i);
      NextIsNewest(r1, m, k, i, r2[i]);
      NextIsNewest(r2, m, k, i, r1[i]);
      assert r1[i] in m && r2[i] in m;
      assert r1[..i + 1] == r1[..i] + [r1[i]] && r2[..i + 1] == r2[..i] + [r2[i]];
      AgreeFrom(r1, r2, m, k, i + 1);
    }
  }

  /** The post at position `i` of a correct answer is among what the first `i` leave over. */
  lemma NextIsInRest(r: seq<Post>, m: multiset<Post>, k: nat, i: nat)
    requires IsTopK(r, m, k) && i < |r|
    ensures r[i] in m - multiset(r[..i])
  {
    assert r == r[..i] + [r[i]] + r[i + 1..];
    assert multiset(r) == multiset(r[..i]) + multiset{r[i]} + multiset(r[i + 1..]);
  }

  /** ... and it is at least as new as everything the first `i` leave over. */
  lemma NextIsNewest(r: seq<Post>, m: multiset<Post>, k: nat, i: nat, p: Post)
    requires IsTopK(r, m, k) && i < |r|
    requires p in m - multiset(r[..i])
    ensures p.createdAt <= r[i].createdAt
  {
    var front, back := r[..i], r[i..];
    assert r == front + back;
    assert multiset(r) == multiset(front) + multiset(back);
    if p in back {
      var j :| 0 <= j < |back| && back[j] == p;
      assert r[i + j] == p;
    } else {
      assert p in m - multiset(r);
    }
  }

  /** Without distinct timestamps the answer is not determined: two posts of
      one user with the same time each make a correct answer for k = 1. */
  lemma TiesAllowTwoAnswers()
    ensures var older := Post(1, "u", 7);
            var newer := Post(2, "u", 7);
            && IsTopK([older], multiset{older, newer}, 1)
            && IsTopK([newer], multiset{older, newer}, 1)
            && [older] != [newer]
  {
    var older := Post(1, "u", 7);
    var newer := Post(2, "u", 7);
    assert multiset{older, newer} - multiset([older]) == multiset{newer};
    assert multiset{older, newer} - multiset([newer]) == multiset{older};
  }
}
