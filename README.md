# Dual-write leaderboard, modelled in Dafny

This project models the core of a Spring/Redis leaderboard service. It is
written in Dafny and proves properties of that model.

A score update (`RankService.addScore`) works in these steps:

1. It checks that the delta is a finite double.
2. It resolves the username to a user id.
3. It appends an immutable event to the `score_events` ledger.
4. It upsert-adds the delta into the user's row of the `user_scores`
   snapshot table.
5. It reads that row back.
6. It makes a best-effort `ZINCRBY` of the user's member in the ranking
   sorted set held by Redis. A failure there is logged and swallowed.
7. It returns the snapshot score.

The other two operations:

- `RankService.topN` copies the highest entries of the sorted set. It drops
  entries with a null member, a null score or a non-finite score.
- `RankReconcileService.diffTopN` puts the cache's top-N and the database's
  top-N into two insertion-ordered maps. It walks the union of their names:
  database names first, then cache-only names. Each side is 0 where it lacks
  a name. It reports every name whose two scores differ by more than
  `epsilon`, with `delta = redis - db`.

Files:

- `common.dfy` (module `Common`)
  - `Option` and `Result`.
  - `Double`: a Java double reduced to what `Double.isFinite` tells apart.
  - An index-witness definition of "subsequence", with its lemmas.
- `score_repository.dfy` (module `ScoreRepository`)
  - The `user_scores` table as a class over `map<UserId, real>`.
  - Its upsert as a method.
  - `findScore` as a function.
  - The joined, ordered, limited `topN` query as a ghost function.
- `rank_service.dfy` (module `Ranking`)
  - `RankService` as a class over the ledger, the snapshot repository and
    the cache map.
  - The invariant "every user's snapshot score is the sum of that user's
    ledger deltas".
  - `AddScore`, the `TopN` loop, and the start-up seeding.
- `rank_reconcile.dfy` (module `Reconcile`)
  - `LinkedHashMap` as keys in insertion order plus a map.
  - `LinkedHashSet.addAll`.
  - The comparison loop, and `DiffTopN` built from three loop methods.
  - Each loop method is proved equal to a specification function, and the
    properties are lemmas about those functions.
- `scenarios.dfy` (module `Scenarios`)
  - The seeding followed by a cache outage that reconciliation detects.
  - Two increments read back through `topN`.
  - A drifted cache entry reported by reconciliation.

Scores are `real`: a finite double is a real number and rounding is not
modelled. The tag `Double` appears only where the source checks finiteness:
the delta passed to `addScore`, and the scores in a `topN` reply.

Order of the cache write: the increment is issued inside the `@Transactional`
method (`RankService.java:37`, `:52`), that is, before the database commit.
The comment at `RankService.java:54` says that a Redis failure must not roll
back the database transaction; a failure of the commit itself can still
leave the increment in place. `AddScore` takes two flags:

- `cacheFails`: the increment throws without having been applied, and the
  exception is swallowed.
- `commitFails`: the transaction rolls back after the increment was sent.

When the commit fails, the ledger and the snapshot are restored but the cache
keeps the increment. `AddScoreDrift` states how the drift between cache
and snapshot changes in all four cases.

The Redis and database fetches of `diffTopN` are inputs to `DiffTopN`, which
reads no store itself. The parameter `n` only parameterises those fetches.
The outage scenario shows, for its state, that the fetches it passes are the
first ten entries of a listing of the sorted set and the repository's
top-10 query.

## Model

| member | source | states |
|---|---|---|
| Ranking.EnsureFinite | src/main/java/com/kevin/redis/service/RankService.java:33-35 | succeeds exactly for a finite double, passing its value through; otherwise fails with `NonFiniteDelta`; `AddScore` refuses its delta through it |
| Ranking.LedgerSumAppend | src/main/java/com/kevin/redis/service/RankService.java:45 | appending an event adds its delta to its own user's ledger total and leaves every other user's total unchanged |
| Ranking.ReplayAppend | src/main/java/com/kevin/redis/service/RankService.java:45-46 | appending an event and upsert-adding its delta keeps every user's snapshot score equal to that user's ledger total |
| Ranking.Incremented | src/main/java/com/kevin/redis/service/RankService.java:52 | `ZINCRBY`: the member set gains the member; an absent member gets score `delta`; a present one gains `delta`; every other member keeps its score |
| Ranking.AddScoreDrift | src/main/java/com/kevin/redis/service/RankService.java:45-56 | after `addScore` for a known user, the drift (cache minus snapshot) is unchanged when both stores or neither take the delta; it falls by the delta when only the snapshot takes it and rises by the delta when only the cache takes it; no other user's drift changes |
| Ranking.RankService.constructor | src/main/java/com/kevin/redis/service/RankService.java:23-31 | a fresh service has an empty ledger, empty snapshot and empty cache, and satisfies the ledger/snapshot invariant |
| Ranking.RankService.AddScore | src/main/java/com/kevin/redis/service/RankService.java:37-61 | keeps "snapshot = sum of ledger deltas"; a non-finite delta fails before any write; an unknown user fails with no write to any store; on commit, exactly one event is appended, the row is upsert-added and the new snapshot score is returned; a failed commit restores ledger and snapshot; the cache is incremented unless the increment fails, whatever the commit does |
| Ranking.AdmittedBounded | src/main/java/com/kevin/redis/service/RankService.java:69-75 | the filtered list is no longer than the reply |
| Ranking.AdmittedIsSubsequence | src/main/java/com/kevin/redis/service/RankService.java:70-75 | the ranks, read back as reply entries, are an order-preserving subsequence of the reply |
| Ranking.AdmittedExactly | src/main/java/com/kevin/redis/service/RankService.java:73-74 | a rank is kept if and only if the reply holds that member with that finite score; null members, null scores and non-finite scores are never kept |
| Ranking.AdmittedKeepsWellFormed | src/main/java/com/kevin/redis/service/RankService.java:73 | on a reply whose entries all have a member and a finite score, the filter drops nothing |
| Ranking.ListedMembersCount | src/main/java/com/kevin/redis/service/RankService.java:66 | a listing that names each member once names as many members as it has entries |
| Ranking.ListingCoversSortedSet | src/main/java/com/kevin/redis/service/RankService.java:66 | a listing of the sorted set names every member of the set |
| Ranking.HeadOutscoresRest | src/main/java/com/kevin/redis/service/RankService.java:66 | ranks copied from the head of a listing of the sorted set score at least as high as every member not among them |
| Ranking.TopOfSortedSet | src/main/java/com/kevin/redis/service/RankService.java:66-76 | over a listing of the sorted set, `topN(n)` keeps exactly the listing's first `min(n, size)` entries, each member once with its cache score, highest first, and no member left out scores above a kept one |
| Ranking.TopN | src/main/java/com/kevin/redis/service/RankService.java:64-77 | `n <= 0` or a null reply gives the empty list; otherwise the result is the filter applied to the first `n` entries, in order; it never has more than `n` entries |
| Ranking.SeedDataRun | src/main/java/com/kevin/redis/SeedDataRunner.java:44-46 | seeding kevin 100, alice 80 and bob 50 leaves those scores in both the cache and the snapshot, three ledger events, and the invariant |
| ScoreRepository.Upserted | src/main/java/com/kevin/redis/persistence/repository/UserScoreRepository.java:16-19 | the upsert-add inserts `delta` for a user without a row, adds `delta` to an existing row, and leaves every other row unchanged |
| ScoreRepository.UpsertedAllAccumulates | src/main/java/com/kevin/redis/persistence/repository/UserScoreRepository.java:17-18 | successive upsert-adds for one user leave its score at the starting score plus the sum of the deltas, create its row, and change no other row |
| ScoreRepository.UpsertTwiceOnFreshUser | src/main/java/com/kevin/redis/persistence/repository/UserScoreRepository.java:17-18 | two upsert-adds with d1 and d2 on a user without a row leave the score at d1 + d2 |
| ScoreRepository.Highest | src/main/java/com/kevin/redis/persistence/repository/UserScoreRepository.java:34 | a non-empty set of rows has a row whose score no other row exceeds |
| ScoreRepository.TopRows | src/main/java/com/kevin/redis/persistence/repository/UserScoreRepository.java:34-35 | `ORDER BY score DESC LIMIT n` takes exactly `min(n, size)` rows |
| ScoreRepository.TopRowsFromSet | src/main/java/com/kevin/redis/persistence/repository/UserScoreRepository.java:32-33 | every row taken is a row of the set |
| ScoreRepository.TopRowsSorted | src/main/java/com/kevin/redis/persistence/repository/UserScoreRepository.java:34 | the rows taken are distinct and non-increasing by score |
| ScoreRepository.TopRowsMaximal | src/main/java/com/kevin/redis/persistence/repository/UserScoreRepository.java:34-35 | no row left out scores above a row taken |
| ScoreRepository.TopRowsStrictHead | src/main/java/com/kevin/redis/persistence/repository/UserScoreRepository.java:34-35 | a row scoring strictly above every other row comes first, followed by the top rows of the rest |
| ScoreRepository.UserScoreRepository.constructor | src/main/java/com/kevin/redis/persistence/repository/UserScoreRepository.java:12 | a new repository has no rows |
| ScoreRepository.UserScoreRepository.UpsertAndAdd | src/main/java/com/kevin/redis/persistence/repository/UserScoreRepository.java:16-20 | the table becomes the upsert-add of `delta` for the user, and one row is reported affected |
| ScoreRepository.UserScoreRepository.FindScore | src/main/java/com/kevin/redis/persistence/repository/UserScoreRepository.java:23-24 | returns the stored score when the user has a row, and null otherwise |
| ScoreRepository.UserScoreRepository.TopN | src/main/java/com/kevin/redis/persistence/repository/UserScoreRepository.java:31-37 | at most `n` rows (`min(n, joined rows)`); each row belongs to a user with a snapshot row and carries that user's username and score; rows are distinct and non-increasing by score; no row left out scores above a returned one |
| Reconcile.FromPairs | src/main/java/com/kevin/redis/service/RankReconcileService.java:24-25 | a map filled by `put` lists each key once, and lists exactly its mapped keys |
| Reconcile.FromPairsKeys | src/main/java/com/kevin/redis/service/RankReconcileService.java:29-30 | the filled map holds exactly the names of the input pairs |
| Reconcile.FromPairsDistinct | src/main/java/com/kevin/redis/service/RankReconcileService.java:24-25 | for input without repeated names, the map lists the names in input order, each with its own score |
| Reconcile.LastPutWins | src/main/java/com/kevin/redis/service/RankReconcileService.java:25 | a name that occurs several times keeps the score of its last pair |
| Reconcile.FirstPutPlaces | src/main/java/com/kevin/redis/service/RankReconcileService.java:30 | a name that occurs several times keeps the place of its first pair: of two listed names, the earlier one occurs before any pair of the later one |
| Reconcile.AddAll | src/main/java/com/kevin/redis/service/RankReconcileService.java:34-36 | `addAll` keeps the names already there as a prefix, adds exactly the missing ones, and introduces no repetition |
| Reconcile.CandidatesLayout | src/main/java/com/kevin/redis/service/RankReconcileService.java:34-36 | the compared names are the database names in database order followed by the cache-only names in cache order; each appears once; they are exactly the names of the two maps |
| Reconcile.SameNamesCandidates | src/main/java/com/kevin/redis/service/RankReconcileService.java:34-36 | when both maps list the same names in the same order, exactly those names are compared, in that order |
| Reconcile.ReportEntries | src/main/java/com/kevin/redis/service/RankReconcileService.java:40-43 | every reported entry is a compared name carrying its database score and cache score (0 when absent) and `delta = redis - db`, and the gap exceeds `epsilon` |
| Reconcile.ReportKeepsOrder | src/main/java/com/kevin/redis/service/RankReconcileService.java:38-45 | the reported members are an order-preserving subsequence of the compared names |
| Reconcile.ReportedIff | src/main/java/com/kevin/redis/service/RankReconcileService.java:39-42 | a name is reported if and only if it is compared and `abs(db - cache) > epsilon`, with 0 for a missing side |
| Reconcile.ToleranceMonotone | src/main/java/com/kevin/redis/service/RankReconcileService.java:42 | the report for a larger `epsilon` is a subsequence of the report for a smaller one |
| Reconcile.DiffsReportExactly | src/main/java/com/kevin/redis/service/RankReconcileService.java:21-47 | a member is reported if and only if one of the two fetched lists names it and its two scores, each 0 when absent, differ by more than `epsilon` |
| Reconcile.DiffsEntries | src/main/java/com/kevin/redis/service/RankReconcileService.java:40-43 | every entry of `diffTopN` carries the looked-up database and cache scores, `delta = redis - db`, and a gap above `epsilon` |
| Reconcile.DiffsOrder | src/main/java/com/kevin/redis/service/RankReconcileService.java:34-45 | each member is reported at most once, in the order of database names followed by cache-only names |
| Reconcile.DiffsToleranceMonotone | src/main/java/com/kevin/redis/service/RankReconcileService.java:42 | raising `epsilon` only removes entries of `diffTopN`'s result |
| Reconcile.PutAll | src/main/java/com/kevin/redis/service/RankReconcileService.java:24-25 | the `put` loop builds exactly the map that `FromPairs` specifies |
| Reconcile.AddAllNames | src/main/java/com/kevin/redis/service/RankReconcileService.java:35-36 | the `addAll` loop builds exactly the name list that `AddAll` specifies |
| Reconcile.Compare | src/main/java/com/kevin/redis/service/RankReconcileService.java:38-45 | the comparison loop builds exactly the report that `Report` specifies |
| Reconcile.DiffTopN | src/main/java/com/kevin/redis/service/RankReconcileService.java:21-47 | `diffTopN` returns `Diffs` of its two fetches, so every `Diffs` lemma above applies to its result; the fetches are its inputs, so it reads no store and writes none |
| Scenarios.BobDriftCompare | src/main/java/com/kevin/redis/service/RankReconcileService.java:38-45 | comparing alice and bob, with snapshot alice 100 and bob 50 and cache alice 100 and bob 48, reports bob with delta -2 at tolerance 1 and nothing at tolerance 5 |
| Scenarios.BobDriftExample | src/main/java/com/kevin/redis/service/RankReconcileService.java:21-47 | the same result from the two fetched lists themselves |
| Scenarios.OutageSnapshotMap | src/main/java/com/kevin/redis/service/RankReconcileService.java:28-31 | the snapshot's top-10 after alice's +5 becomes the map kevin 100, alice 85, bob 50, in that order |
| Scenarios.OutageCacheMap | src/main/java/com/kevin/redis/service/RankReconcileService.java:23-25 | the cache's top-10, which missed the +5, becomes the map kevin 100, alice 80, bob 50, in that order |
| Scenarios.OutageCompare | src/main/java/com/kevin/redis/service/RankReconcileService.java:38-45 | comparing those scores at tolerance 1 reports alice alone, with delta -5 |
| Scenarios.OutageDiffs | src/main/java/com/kevin/redis/service/RankReconcileService.java:21-47 | the same result from the two fetched lists themselves |
| Scenarios.ReplyOf | src/main/java/com/kevin/redis/service/RankReconcileService.java:23-25 | the pairs read from the sorted set are the members and scores of the first `n` entries of its listing, in order |
| Scenarios.OutageCacheListing | src/main/java/com/kevin/redis/service/RankReconcileService.java:23 | the sorted set kevin 100, alice 80, bob 50 is listed in that order |
| Scenarios.OutageReply | src/main/java/com/kevin/redis/service/RankReconcileService.java:23-25 | the top-10 reply read from that listing is kevin 100, alice 80, bob 50 |
| Scenarios.OutageJoined | src/main/java/com/kevin/redis/persistence/repository/UserScoreRepository.java:32-33 | joining the snapshot rows 1: 100, 2: 85, 3: 50 with users kevin 1, alice 2, bob 3 gives the rows kevin 100, alice 85, bob 50 |
| Scenarios.TopOfThree | src/main/java/com/kevin/redis/persistence/repository/UserScoreRepository.java:34-35 | three rows with distinct scores come out of the top-N query highest first, whenever `n` is at least 3 |
| Scenarios.OutageSnapshotTop | src/main/java/com/kevin/redis/persistence/repository/UserScoreRepository.java:31-37 | the repository's top-10 query after alice's +5 returns kevin 100, alice 85, bob 50 |
| Scenarios.CacheOutageScenario | src/main/java/com/kevin/redis/service/RankService.java:51-56 | after the seeding, a +5 for alice whose increment fails still returns the snapshot score 85; `diffTopN(10, 1.0)`, fed the first ten entries of a listing of the sorted set and the repository's top-10 query, reports alice with delta -5 |
| Scenarios.AliceListing | src/main/java/com/kevin/redis/service/RankService.java:66 | a sorted set holding only alice with 7 is listed as that single entry |
| Scenarios.AliceTop | src/main/java/com/kevin/redis/service/RankService.java:69-76 | `topN(1)` over that listing keeps alice with 7 |
| Scenarios.IncrementTwiceScenario | src/main/java/com/kevin/redis/service/RankService.java:37-77 | +10 then -3 for alice returns 10 and then 7, and `topN(1)` over the sorted set lists alice with 7 |

## Left out

- IEEE-754 arithmetic is not modelled. Finite doubles are reals, so rounding, overflow to infinity and `-0.0` do not occur.
- `Ranking.EnsureFinite` and `Ranking.RankService.AddScore` do not model a finite delta whose sum with a stored score overflows. In PostgreSQL the float8 addition of the upsert raises an out-of-range error, so the transaction rolls back before the increment at `RankService.java:52` and the snapshot never holds a non-finite score. A cache entry that has drifted above its snapshot could still overflow to infinity; the filter of `topN` at `RankService.java:73` drops such an entry.
- Null pairs in `diffTopN`'s cache reply are not modelled. Redis never returns them. In the code, a pair with a null score throws a `NullPointerException` when unboxed at `RankReconcileService.java:41`, and a null member becomes a null key.
- `Reconcile.DiffTopN` takes finite scores in the cache reply. A NaN or infinite cache score, and a NaN `epsilon`, are not modelled.
- `Reconcile.DiffTopN` does not take `n`. With `n = 0`, Redis reads the range `0..-1` as the whole set while `LIMIT 0` returns no row. A negative `n` is a negative `LIMIT`, which PostgreSQL rejects. Both fetches are inputs, so these edge cases are not modelled. `ScoreRepository.UserScoreRepository.TopN` takes `n: nat` for the same reason.
- `Ranking.TopN` takes the sorted set's listing as an input; it is not read from `RankService.cache`. `TopOfSortedSet` ties a listing of the sorted set to the map it lists.
- Tie order among equal scores is not specified. Redis orders equal scores by member name and the SQL query leaves them unordered. `TopRows` only requires a non-increasing order.
- `Ranking.RankService.AddScore`: `cacheFails` stands for an increment that threw without being applied. A call that throws after Redis has applied `ZINCRBY` (a client time-out, say) is swallowed the same way, and leaves the state of a successful increment: it is the `cacheFails = false` run, and `AddScoreDrift`'s case "only the snapshot takes the delta" does not describe it. Which of the two a thrown call was is not observable in the model.
- `Ranking.RankService.AddScore` models only a failed commit as a database failure. A failure of the event insert, the upsert or the read-back throws before the cache increment and rolls back. That has the same effect as the unknown-user case, and it is not a separate branch.
- The read-back of the snapshot is modelled as `findScore`. A null result gives 0. This cannot happen after a successful upsert, and the model proves the row exists.
- Concurrency is not modelled: concurrent writers, the atomicity of `ZINCRBY` and `ON CONFLICT`, and isolation between transactions. Calls are sequential.
- The ranking key is a single constant sorted set (`app.rank.key`), modelled as one map.
- `ScoreEventRepository` is a plain append: the ledger is a `seq`. Generated ids, `createdAt` timestamps and the length limit on `reason` are not modelled.
- Logging and timing inside `addScore` are not modelled.
- Controllers, DTOs, authentication, the temporary cache endpoints and token generation are not part of this model.
- `SeedDataRun` skips the runner's configuration switch and its "users already exist" check. It starts from three fresh users with ids 1, 2 and 3.
