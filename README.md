# Lateral join versus include: a Dafny model of the benchmark's logic

The benchmark `run.ts` fills a store with users and posts, then reads "the
three newest posts of every user" in two ways and checks that both give the
same result:

- **Strategy A**: fetch all users in ascending id order, run one raw SQL query
  with a `JOIN LATERAL` sub-query per user (`ORDER BY "createdAt" DESC LIMIT k`),
  then *normalise*. Normalising groups the flat rows by `userId` into a `Map`
  in arrival order, then pairs each user with its group, or with `[]`.
- **Strategy B**: one ORM `findMany` over users ordered by id, with
  `include: { posts: { take: k, orderBy: { createdAt: "desc" } } }`.

The model has these modules:

- `Entities` (`entities.dfy`) holds the records `User`, `Post`,
  `UserWithPosts` and `Store`. It also has the id order that `orderBy: { id: "asc" }`
  uses and `PostsOf`, the subsequence of a flat list that belongs to one user.
- `Ranking` (`ranking.dfy`) says what "the `k` newest posts" means. `IsTopK`
  accepts every answer the store may give; it leaves the order among equal
  timestamps open. `TopK`, an insertion sort followed by a cut, computes one
  such answer.
- `Normalizer` (`normalizer.dfy`) holds the imperative `reduce` (`GroupPosts`,
  a loop that updates a map of sequences), the `users.map` (`MergeUsers`), and
  `FindByJoinLateral`. `FindByJoinLateral` is proved equal to the specification
  `Normalized`, and `Normalized` has lemmas for order, contents, empty
  defaults, dropped orphans and insensitivity to interleaving.
- `Strategies` (`strategies.dfy`) states what each strategy's queries return.
  It includes a concrete evaluation of each, and the theorem that whenever no
  user has two posts with the same timestamp, normalising any lateral output
  gives exactly the include result, so the final `same result?` check prints
  `true`. Posts of different users may share a timestamp. It also proves that
  one tie between two posts of the same user can break that check.
- `DataGenerator` (`generator.dfy`) models `initData`. Ids, post keys and
  timestamps are parameters.
- `Scenarios` (`scenarios.dfy`) works out two small runs in full.

## Model

| member | source | states |
|---|---|---|
| `Entities.PostsOfAppend` | run.ts:63-70 | a user's group for a list split in two is its group from the first part followed by its group from the second: arrival order is kept |
| `Entities.PostsOfCount` | run.ts:63-70 | every post occurs in its owner's group exactly as often as in the input, and never in another user's group |
| `Entities.PostsOfMembers` | run.ts:63-70 | a post is in user `u`'s group if and only if it is in the input and its `userId` is `u` |
| `Entities.PostsOfEmpty` | run.ts:65-67 | a user's group is empty if and only if no input post has that `userId` |
| `Ranking.SortDesc` | run.ts:56-57 | the result is a permutation of the input, newest `createdAt` first |
| `Ranking.TopKIsTopK` | run.ts:49-59 | sorting newest first and keeping the first `min(k, n)` posts gives a correct top-k answer: the right length, newest first, drawn from the input, and no omitted post newer than a kept one |
| `Ranking.TopKUnique` | run.ts:29-30 | when no two posts share a timestamp, any two correct top-k answers for the same posts are equal |
| `Ranking.TiesAllowTwoAnswers` | run.ts:29-30 | two posts with the same `createdAt` give two different correct answers for `k = 1` |
| `Normalizer.GroupPosts` | run.ts:63-70 | the map's keys are exactly the `userId`s that occur in the posts, and each key maps to that user's posts in arrival order |
| `Normalizer.MergeGrouped` | run.ts:72-75 | merging the users with a complete grouping of the rows (keys are exactly the owners, each value that owner's posts in arrival order) gives `Normalized`: the `?? []` default is taken exactly for users that own no row |
| `Normalizer.FindByJoinLateral` | run.ts:63-75 | the combined normaliser's result is `Normalized`: every user in order, each with its own posts in arrival order |
| `Normalizer.NormalizedKeepsUsers` | run.ts:72-75 | exactly one entry per fetched user, in the same ascending order |
| `Normalizer.NormalizedOwnPosts` | run.ts:63-75 | a post is in a user's list if and only if it is in the input and belongs to that user |
| `Normalizer.NormalizedCounts` | run.ts:63-70 | each post occurs in its owner's list as often as in the input |
| `Normalizer.NormalizedEmptyDefault` | run.ts:74 | a user's list is empty if and only if no input post has its id |
| `Normalizer.NormalizedDropsOrphans` | run.ts:72-75 | a post whose owner is not among the fetched users appears in no list |
| `Normalizer.NormalizedSplit` | run.ts:63-70 | for an input split in two, each user's list is its posts from the first part followed by those from the second; nothing is re-sorted |
| `Normalizer.NormalizedSwapOthers` | run.ts:63-70 | swapping two neighbouring posts of different users leaves the result unchanged |
| `Normalizer.NormalizedDependsOnOwnOrder` | run.ts:63-75 | two inputs that give each fetched user the same posts in the same order normalise to the same result |
| `Entities.AscendingListExists` | run.ts:39-43 | every finite set of user ids can be listed in strictly ascending id order, so the ascending fetch of all users always has an answer |
| `Strategies.UsersByIdUnique` | run.ts:39-43 | a list of all users in strictly ascending id order is unique, so both strategies see the users in the same order |
| `Strategies.TopKOwned` | run.ts:53-55 | every row of a user's sub-query belongs to that user |
| `Strategies.LateralJoinOwners` | run.ts:47-59 | every row of the lateral join belongs to one of the scanned users |
| `Strategies.LateralJoinPostsOf` | run.ts:44-60 | filtering the lateral join's rows for one user gives that user's sub-query result, or nothing if the user was not scanned |
| `Strategies.LateralJoinMeetsSpec` | run.ts:44-60 | whatever order the outer scan takes, the join's rows meet the lateral specification: only existing users, and for every user its correct top-k |
| `Strategies.IncludeMeetsSpec` | run.ts:79-91 | users ascending by id, each with `TopK` of its posts, meet the include specification |
| `Strategies.DistinctIsDistinctWithinUsers` | run.ts:29-30 | timestamps distinct across the whole table are distinct within each user's posts |
| `Strategies.LateralMatchesInclude` | run.ts:106-109 | when no user has two posts with the same timestamp, normalising any lateral output (users from the ascending `findMany`) equals any include result |
| `Strategies.TiesBreakEquality` | run.ts:29-30 | for a store with one tie between two posts of the same user, there is a valid lateral output and a valid include result that normalise to different values |
| `Strategies.SameResult` | run.ts:94-110 | when no user has two posts with the same timestamp, the comparison of the two strategies' results is `true` for every scan order |
| `DataGenerator.NewUsersIds` | run.ts:17-19 | one user per drawn id, and the users' id set is the set of drawn ids |
| `DataGenerator.NewPostsCount` | run.ts:25-31 | users × `POSTS_TO_CREATE_PER_USER` posts are generated |
| `DataGenerator.NewPostsOwners` | run.ts:26-31 | every generated post's `userId` is a generated user's id |
| `DataGenerator.InitDataIntact` | run.ts:15-34 | the generated store satisfies the foreign key from posts to users |
| `DataGenerator.NewPostsOfUser` | run.ts:26-32 | with distinct ids, a user's posts in the store are exactly the posts generated for it |
| `DataGenerator.NotGeneratedFor` | run.ts:26-31 | an id that was not drawn owns no generated post |
| `DataGenerator.PostsPerUser` | run.ts:27-31 | with distinct ids, each generated user owns exactly `POSTS_TO_CREATE_PER_USER` posts |
| `Scenarios.IncludeTwoUsers` | run.ts:79-91 | two users with three posts each and `k = 2`: the include returns both users with their two newest posts |
| `Scenarios.LateralTwoUsers` | run.ts:37-76 | for the same data, the normalised lateral rows equal the include result for either scan order |
| `Scenarios.OneUserNoPosts` | run.ts:72-75 | one user without posts and `k = 3`: both strategies return that user with an empty list |

## Left out

- `clearData` (run.ts:10-13), `createMany`, `findMany` and `$queryRaw` are database I/O. Only their documented results are modelled, as the predicates `IsUsersById`, `IsLateralOutput` and `IsIncludeResult`, with `LateralJoin` and `Include` as witnesses. The idempotence of clearing the store is not modelled.
- `Promise.all` fan-out (run.ts:25-34, 38): the branches are independent and are modelled in sequence. The store's row order carries no meaning in the model.
- `uuid()`, `Math.random()` and `new Date().getTime()` (run.ts:18, 24, 30) are randomness and the clock. The model takes the ids and integer timestamps as parameters. That the drawn times lie in `[0, now)` is not stated.
- `console.time`, `console.timeEnd` and `console.log` (run.ts:98-110) are reporting only. The timing measurements are not modelled.
- `JSON.stringify` (run.ts:108-109) is modelled as structural equality of the records. This is an assumption. The source fixes only each user's key order (its fields, then `posts`). Each post is serialised from the raw `o.*` columns on one side and from the ORM's model on the other. Without the schema, the source does not show that both give the same keys in the same order, or the same encoding of `createdAt`.
- `IsLateralOutput` assumes that each user's rows reach the normaliser newest first. The order of the lateral sub-query's rows is fixed by its `ORDER BY` (run.ts:56-57). The outer query (run.ts:44-60) has no `ORDER BY`, so SQL does not promise that the joined rows keep that order. Only the order between users is left open in the model.
- The constants 100, 10,000 and 3 (run.ts:6-8) are parameters (`ids`, `perUser`, `k`).
- The posts table's schema (`schema.prisma`) is not part of this model. A post has a store-assigned key `id`, its `userId` and `createdAt` in milliseconds. Any other columns are omitted.
- The id order is code-point lexicographic on strings. The database collation's order is not modelled. The theorem only needs both strategies to use the same order.
- `GroupPosts` keeps the map's arrays as sequence values inside the map. The in-place `push` on an array is modelled as replacing the value. No other reference to those arrays exists, so no aliasing is lost.
