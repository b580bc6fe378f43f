/** Worked scenarios of the leaderboard: the start-up seeding followed by a
    cache outage that reconciliation then detects, repeated increments read
    back through `topN`, and the reconciliation of a drifted cache entry. */
module Scenarios {
  import opened Common
  import opened ScoreRepository
  import opened Ranking
  import opened Reconcile

  /** Snapshot alice 100 and bob 50 against cache alice 100 and bob 48. */
  lemma BobDriftCompare(db: LinkedMap, cache: LinkedMap)
    requires GetOrZero(db, "alice") == 100.0 && GetOrZero(db, "bob") == 50.0
    requires GetOrZero(cache, "alice") == 100.0 && GetOrZero(cache, "bob") == 48.0
    ensures Report(["alice", "bob"], db, cache, 1.0) == [Diff("bob", 50.0, 48.0, -2.0)]
    ensures Report(["alice", "bob"], db, cache, 5.0) == []
  {
    assert ["alice", "bob"][..1] == ["alice"];
    assert ["alice"][..0] == [];
  }

  /** The snapshot holds alice 100 and bob 50, the cache alice 100 and bob
      48: a tolerance of 1 reports bob with delta -2, a tolerance of 5
      reports nothing. */
  lemma BobDriftExample(cacheReply: Option<seq<(string, real)>>, dbRows: seq<UsernameScore>)
    requires cacheReply == Some([("alice", 100.0), ("bob", 48.0)])
    requires dbRows == [UsernameScore("alice", 100.0), UsernameScore("bob", 50.0)]
    ensures Diffs(cacheReply, dbRows, 1.0) == [Diff("bob", 50.0, 48.0, -2.0)]
    ensures Diffs(cacheReply, dbRows, 5.0) == []
  {
    var cachePairs, dbPairs := ReplyPairs(cacheReply), RowPairs(dbRows);
    assert dbPairs == [("alice", 100.0), ("bob", 50.0)];
    assert KeysOf(cachePairs) == KeysOf(dbPairs) == ["alice", "bob"];
    FromPairsDistinct(cachePairs);
    FromPairsDistinct(dbPairs);
    var cache, db := FromPairs(cachePairs), FromPairs(dbPairs);
    SameNamesCandidates(db, cache);
    BobDriftCompare(db, cache);
    DiffsByReport(cacheReply, dbRows, 1.0, db, cache, [Diff("bob", 50.0, 48.0, -2.0)]);
    DiffsByReport(cacheReply, dbRows, 5.0, db, cache, []);
  }

  /** Snapshot kevin 100, alice 85, bob 50 against cache kevin 100,
      alice 80, bob 50. */
  lemma OutageCompare(db: LinkedMap, cache: LinkedMap)
    requires GetOrZero(db, "kevin") == 100.0 && GetOrZero(db, "alice") == 85.0 && GetOrZero(db, "bob") == 50.0
    requires GetOrZero(cache, "kevin") == 100.0 && GetOrZero(cache, "alice") == 80.0
          && GetOrZero(cache, "bob") == 50.0
    ensures Report(["kevin", "alice", "bob"], db, cache, 1.0) == [Diff("alice", 85.0, 80.0, -5.0)]
  {
    var names := ["kevin", "alice", "bob"];
    assert names[..2] == ["kevin", "alice"];
    assert names[..2][..1] == ["kevin"];
    assert ["kevin"][..0] == [];
  }

  /** The snapshot's top-10 after alice's +5, as the reconciliation's map. */
  lemma OutageSnapshotMap(dbRows: seq<UsernameScore>)
    requires dbRows == [UsernameScore("kevin", 100.0), UsernameScore("alice", 85.0), UsernameScore("bob", 50.0)]
    ensures var db := FromPairs(RowPairs(dbRows));
      && db.keys == ["kevin", "alice", "bob"] && WellFormed(db)
      && GetOrZero(db, "kevin") == 100.0 && GetOrZero(db, "alice") == 85.0 && GetOrZero(db, "bob") == 50.0
  {
    var ps := RowPairs(dbRows);
    assert ps == [("kevin", 100.0), ("alice", 85.0), ("bob", 50.0)];
    assert KeysOf(ps) == ["kevin", "alice", "bob"];
    FromPairsDistinct(ps);
    assert ps[0].0 == "kevin" && ps[1].0 == "alice" && ps[2].0 == "bob";
  }

  /** The cache's top-10, which missed alice's +5, as the reconciliation's
      map. */
  lemma OutageCacheMap(cacheReply: Option<seq<(string, real)>>)
    requires cacheReply == Some([("kevin", 100.0), ("alice", 80.0), ("bob", 50.0)])
    ensures var cache := FromPairs(ReplyPairs(cacheReply));
      && cache.keys == ["kevin", "alice", "bob"] && WellFormed(cache)
      && GetOrZero(cache, "kevin") == 100.0 && GetOrZero(cache, "alice") == 80.0 && GetOrZero(cache, "bob") == 50.0
  {
    var ps := ReplyPairs(cacheReply);
    assert KeysOf(ps) == ["kevin", "alice", "bob"];
    FromPairsDistinct(ps);
    assert ps[0].0 == "kevin" && ps[1].0 == "alice" && ps[2].0 == "bob";
  }

  /** Reconciling the seeded cache with the snapshot after alice's +5
      reached only the snapshot reports alice alone, 5 behind. */
  lemma OutageDiffs(cacheReply: Option<seq<(string, real)>>, dbRows: seq<UsernameScore>)
    requires cacheReply == Some([("kevin", 100.0), ("alice", 80.0), ("bob", 50.0)])
    requires dbRows == [UsernameScore("kevin", 100.0), UsernameScore("alice", 85.0), UsernameScore("bob", 50.0)]
    ensures Diffs(cacheReply, dbRows, 1.0) == [Diff("alice", 85.0, 80.0, -5.0)]
  {
    OutageSnapshotMap(dbRows);
    OutageCacheMap(cacheReply);
    var cache, db := FromPairs(ReplyPairs(cacheReply)), FromPairs(RowPairs(dbRows));
    SameNamesCandidates(db, cache);
    OutageCompare(db, cache);
    DiffsByReport(cacheReply, dbRows, 1.0, db, cache, [Diff("alice", 85.0, 80.0, -5.0)]);
  }

  /** The pairs `diffTopN` reads from a listing of the sorted set: the
      members and scores of its first `n` entries, as
      `reverseRangeWithScores(key, 0, n - 1)` returns them. */
  function ReplyOf(listing: seq<TypedTuple>, n: nat): (ps: seq<(string, real)>)
    requires forall t :: t in listing ==> Admissible(t)
    ensures |ps| == Min(n, |listing|)
    ensures forall i :: 0 <= i < |ps| ==> AsTuple(Rank(ps[i].0, ps[i].1)) == listing[i]
  {
    if n == 0 || listing == [] then []
    else
      assert listing[0] in listing && Admissible(listing[0]);
      [(listing[0].member.value, listing[0].score.value.value)] + ReplyOf(listing[1..], n - 1)
  }

  /** The sorted set kevin 100, alice 80, bob 50 is listed in that order. */
  lemma OutageCacheListing(cache: map<string, real>)
    requires cache.Keys == {"kevin", "alice", "bob"}
    requires cache["kevin"] == 100.0 && cache["alice"] == 80.0 && cache["bob"] == 50.0
    ensures ListsSortedSet([TypedTuple(Some("kevin"), Some(Finite(100.0))), TypedTuple(Some("alice"), Some(Finite(80.0))),
                            TypedTuple(Some("bob"), Some(Finite(50.0)))], cache)
  {
    assert |cache.Keys| == 3;
  }

  /** The joined rows of snapshot rows kevin 100, alice 85 and bob 50. */
  lemma OutageJoined(rows: map<UserId, real>, users: map<string, UserId>)
    requires users == map["kevin" := 1, "alice" := 2, "bob" := 3]
    requires rows.Keys == {1, 2, 3} && rows[1] == 100.0 && rows[2] == 85.0 && rows[3] == 50.0
    ensures Joined(rows, users)
         == {UsernameScore("kevin", 100.0), UsernameScore("alice", 85.0), UsernameScore("bob", 50.0)}
  {
    var s := Joined(rows, users);
    assert users["kevin"] == 1 && users["alice"] == 2 && users["bob"] == 3;
    forall x | x in s
      ensures x in {UsernameScore("kevin", 100.0), UsernameScore("alice", 85.0), UsernameScore("bob", 50.0)}
    {
      var u :| u in users && users[u] in rows && x == UsernameScore(u, rows[users[u]]);
      assert u == "kevin" || u == "alice" || u == "bob";
    }
  }

  /** Three rows with distinct scores come out of the top-N query highest
      first. */
  lemma TopOfThree(s: set<UsernameScore>, k: UsernameScore, a: UsernameScore, b: UsernameScore, n: nat)
    requires s == {k, a, b} && k.score > a.score > b.score && n >= 3
    ensures TopRows(s, n) == [k, a, b]
  {
    TopRowsStrictHead(s, k, n);
    assert s - {k} == {a, b};
    TopRowsStrictHead({a, b}, a, n - 1);
    assert {a, b} - {a} == {b};
    TopRowsStrictHead({b}, b, n - 2);
    assert {b} - {b} == {};
  }

  /** The sorted set's top-10 reply, as `diffTopN` reads it, when it lists
      kevin 100, alice 80 and bob 50. */
  lemma OutageReply(listing: seq<TypedTuple>)
    requires listing == [TypedTuple(Some("kevin"), Some(Finite(100.0))), TypedTuple(Some("alice"), Some(Finite(80.0))),
                         TypedTuple(Some("bob"), Some(Finite(50.0)))]
    ensures ReplyOf(listing, 10) == [("kevin", 100.0), ("alice", 80.0), ("bob", 50.0)]
  {
    var ps := ReplyOf(listing, 10);
    assert AsTuple(Rank(ps[0].0, ps[0].1)) == listing[0];
    assert AsTuple(Rank(ps[1].0, ps[1].1)) == listing[1];
    assert AsTuple(Rank(ps[2].0, ps[2].1)) == listing[2];
  }

  /** With snapshot rows kevin 100, alice 85 and bob 50, the repository's
      top-10 query returns those three rows in that order. */
  lemma OutageSnapshotTop(rows: map<UserId, real>, users: map<string, UserId>)
    requires users == map["kevin" := 1, "alice" := 2, "bob" := 3]
    requires rows.Keys == {1, 2, 3} && rows[1] == 100.0 && rows[2] == 85.0 && rows[3] == 50.0
    ensures TopRows(Joined(rows, users), 10)
         == [UsernameScore("kevin", 100.0), UsernameScore("alice", 85.0), UsernameScore("bob", 50.0)]
  {
    OutageJoined(rows, users);
    TopOfThree(Joined(rows, users), UsernameScore("kevin", 100.0), UsernameScore("alice", 85.0),
               UsernameScore("bob", 50.0), 10);
  }

  /** The start-up seeding, then alice gains 5 while the cache is down: the
      call still returns the snapshot score, and reconciling the sorted
      set's top-10 with the repository's top-10 reports alice with the
      cache 5 behind. */
  method CacheOutageScenario() returns (r: Result<real, Error>, diffs: seq<Diff>)
    ensures r == Success(85.0)
    ensures diffs == [Diff("alice", 85.0, 80.0, -5.0)]
  {
    var service := SeedDataRun();
    r := service.AddScore("alice", Finite(5.0), Some("bonus"), true, false);
    assert service.userScores.rows.Keys == {1, 2, 3} && service.userScores.rows[2] == 85.0;

    // the two fetches of diffTopN(10, 1.0): the first 10 entries of the
    // sorted set's listing, and the repository's top-10 query
    var listing := [TypedTuple(Some("kevin"), Some(Finite(100.0))), TypedTuple(Some("alice"), Some(Finite(80.0))),
                    TypedTuple(Some("bob"), Some(Finite(50.0)))];
    OutageCacheListing(service.cache);
    assert ListsSortedSet(listing, service.cache);
    var cachePairs := ReplyOf(listing, 10);
    OutageReply(listing);
    var dbRows := [UsernameScore("kevin", 100.0), UsernameScore("alice", 85.0), UsernameScore("bob", 50.0)];
    OutageSnapshotTop(service.userScores.rows, service.users);
    assert dbRows == service.userScores.TopN(service.users, 10);
    OutageDiffs(Some(cachePairs), dbRows);
    diffs := DiffTopN(Some(cachePairs), dbRows, 1.0);
  }

  /** A sorted set holding only alice with 7 is listed as that one entry. */
  lemma AliceListing(cache: map<string, real>)
    requires cache.Keys == {"alice"} && cache["alice"] == 7.0
    ensures ListsSortedSet([TypedTuple(Some("alice"), Some(Finite(7.0)))], cache)
  {
    assert |cache.Keys| == 1;
  }

  /** `topN(1)` over that listing keeps alice with 7. */
  lemma AliceTop(listing: seq<TypedTuple>, top: seq<Rank>)
    requires listing == [TypedTuple(Some("alice"), Some(Finite(7.0)))]
    requires top == Admitted(listing[..Min(1, |listing|)])
    ensures top == [Rank("alice", 7.0)]
  {
    assert listing[..1] == listing;
    assert listing[..0] == [];
  }

  /** alice gains 10 and then loses 3: each call returns the snapshot score,
      and `topN(1)` over the sorted set lists alice with 7. */
  method IncrementTwiceScenario() returns (first: Result<real, Error>, second: Result<real, Error>, top: seq<Rank>)
    ensures first == Success(10.0) && second == Success(7.0)
    ensures top == [Rank("alice", 7.0)]
  {
    var service := new RankService(map["alice" := 1]);
    first := service.AddScore("alice", Finite(10.0), None, false, false);
    assert service.cache.Keys == {"alice"} && service.cache["alice"] == 10.0;
    second := service.AddScore("alice", Finite(-3.0), None, false, false);
    assert service.cache.Keys == {"alice"} && service.cache["alice"] == 7.0;

    // the sorted set's listing, as Redis returns it
    var listing := [TypedTuple(Some("alice"), Some(Finite(7.0)))];
    AliceListing(service.cache);
    top := TopN(1, Some(listing));
    AliceTop(listing, top);
  }
}
