/** The score update engine and the cache-backed top-N read: `addScore`
    writes a ledger event and the snapshot row, then makes a best-effort
    increment of the user's entry in the ranking sorted set; `topN` copies
    the highest entries of that sorted set, dropping malformed ones. */
module Ranking {
  import opened Common
  import opened ScoreRepository

  /** One row of the append-only `score_events` table; its generated id and
      creation time are not modelled. */
  datatype ScoreEvent = ScoreEvent(userId: UserId, delta: real, reason: Option<string>)

  /** Why `addScore` throws: an `IllegalArgumentException` for a non-finite
      delta or an unknown username, or a failed commit of its transaction. */
  datatype Error = NonFiniteDelta | UnknownUser(username: string) | CommitFailed

  /** One element of a Redis `reverseRangeWithScores` reply; the client API
      lets both the member and the score be null. */
  datatype TypedTuple = TypedTuple(member: Option<string>, score: Option<Double>)

  /** One entry of the top-N list returned to callers. */
  datatype Rank = Rank(member: string, score: real)

  /** `ensureFinite`: a finite delta passes through, any other is refused. */
  function EnsureFinite(v: Double): (r: Result<real, Error>)
    ensures r.Success? <==> v.Finite?
    ensures r.Success? ==> r.value == v.value
    ensures r.Failure? ==> r.error == NonFiniteDelta
  {
    if v.Finite? then Success(v.value) else Failure(NonFiniteDelta)
  }

  /** The total of the deltas the ledger records for one user. */
  function LedgerSum(ledger: seq<ScoreEvent>, userId: UserId): real
    decreases |ledger|
  {
    if ledger == [] then 0.0
    else
      var last := ledger[|ledger| - 1];
      LedgerSum(ledger[..|ledger| - 1], userId) + (if last.userId == userId then last.delta else 0.0)
  }

  lemma LedgerSumAppend(ledger: seq<ScoreEvent>, e: ScoreEvent, userId: UserId)
    ensures LedgerSum(ledger + [e], userId)
         == LedgerSum(ledger, userId) + (if e.userId == userId then e.delta else 0.0)
  {
    assert (ledger + [e])[..|ledger|] == ledger;
  }

  /** Appending an event to the ledger and upsert-adding its delta into the
      snapshot keep every user's snapshot score equal to the ledger total. */
  lemma ReplayAppend(ledger: seq<ScoreEvent>, rows: map<UserId, real>, e: ScoreEvent)
    requires forall id :: ScoreOrZero(rows, id) == LedgerSum(ledger, id)
    ensures forall id :: ScoreOrZero(Upserted(rows, e.userId, e.delta), id) == LedgerSum(ledger + [e], id)
  {
    forall id
      ensures ScoreOrZero(Upserted(rows, e.userId, e.delta), id) == LedgerSum(ledger + [e], id)
    {
      LedgerSumAppend(ledger, e, id);
    }
  }

  /** Every event belongs to a known user with a snapshot row, also after
      an event of a known user is appended and its delta upsert-added. */
  lemma OwnersAppend(ledger: seq<ScoreEvent>, rows: map<UserId, real>, users: map<string, UserId>, e: ScoreEvent)
    requires forall i :: 0 <= i < |ledger| ==> ledger[i].userId in rows && ledger[i].userId in users.Values
    requires e.userId in users.Values
    ensures forall i :: 0 <= i < |ledger + [e]| ==>
      (ledger + [e])[i].userId in Upserted(rows, e.userId, e.delta) && (ledger + [e])[i].userId in users.Values
  {
  }

  /** A user's entry in the ranking sorted set; an absent member scores 0. */
  function CacheScore(cache: map<string, real>, member: string): real
  {
    if member in cache then cache[member] else 0.0
  }

  /** The sorted set after `ZINCRBY key delta member`: an absent member is
      created with score `delta`, a present one gains `delta`. */
  function Incremented(cache: map<string, real>, member: string, delta: real): (r: map<string, real>)
    ensures r.Keys == cache.Keys + {member}
    ensures member !in cache ==> r[member] == delta
    ensures member in cache ==> r[member] == cache[member] + delta
    ensures forall m :: m in cache && m != member ==> r[m] == cache[m]
  {
    cache[member := CacheScore(cache, member) + delta]
  }

  /** Usernames are unique and `users.id` is the primary key, so the lookup
      from username to id is one-to-one. */
  ghost predicate UniqueIds(users: map<string, UserId>)
  {
    forall u, v :: u in users && v in users && u != v ==> users[u] != users[v]
  }

  /** How far the cache is ahead of the snapshot for one user: the `delta`
      that reconciliation reports for that user. */
  function Drift(cache: map<string, real>, rows: map<UserId, real>, users: map<string, UserId>, username: string): real
    requires username in users
  {
    CacheScore(cache, username) - ScoreOrZero(rows, users[username])
  }

  /** Drift after `addScore` of `d` for a known user: it appears only when
      exactly one of the two stores takes the delta (the increment is lost,
      or the commit fails after the increment), and only for that user. */
  lemma AddScoreDrift(cache: map<string, real>, rows: map<UserId, real>, users: map<string, UserId>,
                      username: string, d: real, cacheFails: bool, commitFails: bool)
    requires UniqueIds(users) && username in users
    ensures var cache' := if cacheFails then cache else Incremented(cache, username, d);
            var rows' := if commitFails then rows else Upserted(rows, users[username], d);
            && Drift(cache', rows', users, username)
               == Drift(cache, rows, users, username)
                  + (if cacheFails == commitFails then 0.0 else if cacheFails then -d else d)
            && forall u :: u in users && u != username ==>
                 Drift(cache', rows', users, u) == Drift(cache, rows, users, u)
  {
  }

  class RankService {
    /** `findByUsername`, from username to user id; accounts are managed
        elsewhere and never change here. */
    const users: map<string, UserId>
    /** The `score_events` table. */
    var ledger: seq<ScoreEvent>
    /** The `user_scores` table, behind its repository. */
    const userScores: UserScoreRepository
    /** The sorted set stored under the ranking key, member to score. */
    var cache: map<string, real>

    /** Every user's snapshot score is the sum of that user's ledger deltas,
        and every event belongs to a known user that has a snapshot row. */
    ghost predicate Valid()
      reads this, userScores
    {
      && UniqueIds(users)
      && (forall id :: ScoreOrZero(userScores.rows, id) == LedgerSum(ledger, id))
      && (forall i :: 0 <= i < |ledger| ==>
            ledger[i].userId in userScores.rows && ledger[i].userId in users.Values)
    }

    constructor (users: map<string, UserId>)
      requires UniqueIds(users)
      ensures Valid()
      ensures this.users == users && ledger == [] && cache == map[]
      ensures fresh(userScores) && userScores.rows == map[]
    {
      this.users := users;
      ledger := [];
      userScores := new UserScoreRepository();
      cache := map[];
    }

    /** `addScore`. The steps run in code order: validate the delta, resolve
        the user, append the event, upsert-add the snapshot, read it back,
        then increment the sorted set, all inside the transaction. An increment
        that throws without being applied (`cacheFails`) is swallowed. A failed commit (`commitFails`)
        rolls the ledger and the snapshot back but cannot undo the increment
        already sent to the cache. */
    method AddScore(username: string, delta: Double, reason: Option<string>,
                    cacheFails: bool, commitFails: bool)
      returns (r: Result<real, Error>)
      requires Valid()
      modifies this, userScores
      ensures Valid()
      // a non-finite delta is refused before anything is written
      ensures !delta.Finite? ==>
        && r == Failure(NonFiniteDelta)
        && ledger == old(ledger) && userScores.rows == old(userScores.rows) && cache == old(cache)
      // an unknown user is refused before anything is written
      ensures delta.Finite? && username !in users ==>
        && r == Failure(UnknownUser(username))
        && ledger == old(ledger) && userScores.rows == old(userScores.rows) && cache == old(cache)
      // the transaction commits: one event appended, the snapshot row
      // upsert-added, the new snapshot score returned
      ensures delta.Finite? && username in users && !commitFails ==>
        && ledger == old(ledger) + [ScoreEvent(users[username], delta.value, reason)]
        && userScores.rows == Upserted(old(userScores.rows), users[username], delta.value)
        && r == Success(userScores.rows[users[username]])
      // the transaction rolls back
      ensures delta.Finite? && username in users && commitFails ==>
        && ledger == old(ledger) && userScores.rows == old(userScores.rows)
        && r == Failure(CommitFailed)
      // the cache is incremented exactly when the user resolved and the
      // increment did not fail, whatever happens to the transaction
      ensures delta.Finite? && username in users ==>
        cache == if cacheFails then old(cache) else Incremented(old(cache), username, delta.value)
    {
      var checked := EnsureFinite(delta);
      if checked.Failure? {
        return Failure(checked.error);
      }
      var d := checked.value;
      if username !in users {
        return Failure(UnknownUser(username));
      }
      var userId := users[username];
      var ledgerBefore, snapshotBefore := ledger, userScores.rows;

      // 1) the database: event and snapshot
      ledger := ledger + [ScoreEvent(userId, d, reason)];
      var _ := userScores.UpsertAndAdd(userId, d);
      var dbScore := userScores.FindScore(userId);
      var latest := if dbScore.None? then 0.0 else dbScore.value;

      // 2) the sorted set, best effort
      if !cacheFails {
        cache := Incremented(cache, username, d);
      }

      ReplayAppend(ledgerBefore, snapshotBefore, ScoreEvent(userId, d, reason));
      OwnersAppend(ledgerBefore, snapshotBefore, users, ScoreEvent(userId, d, reason));

      if commitFails {
        ledger, userScores.rows := ledgerBefore, snapshotBefore;
        return Failure(CommitFailed);
      }
      return Success(latest);
    }
  }

  /** The entries `topN` keeps: a member, a score, and a finite score. */
  predicate Admissible(t: TypedTuple)
  {
    t.member.Some? && t.score.Some? && t.score.value.Finite?
  }

  /** The admissible entries of a reply, in reply order, as ranks. */
  function Admitted(reply: seq<TypedTuple>): seq<Rank>
    decreases |reply|
  {
    if reply == [] then []
    else
      var t := reply[|reply| - 1];
      Admitted(reply[..|reply| - 1])
        + (if Admissible(t) then [Rank(t.member.value, t.score.value.value)] else [])
  }

  /** A rank read back as the reply entry it was copied from. */
  function AsTuple(r: Rank): TypedTuple
  {
    TypedTuple(Some(r.member), Some(Finite(r.score)))
  }

  function AsTuples(rs: seq<Rank>): (ts: seq<TypedTuple>)
    ensures |ts| == |rs|
  {
    seq(|rs|, i requires 0 <= i < |rs| => AsTuple(rs[i]))
  }

  /** No more ranks than reply entries. */
  lemma {:induction false} AdmittedBounded(reply: seq<TypedTuple>)
    ensures |Admitted(reply)| <= |reply|
    decreases |reply|
  {
    if reply != [] {
      AdmittedBounded(reply[..|reply| - 1]);
    }
  }

  /** The ranks are an order-preserving selection of the reply's entries. */
  lemma {:induction false} AdmittedIsSubsequence(reply: seq<TypedTuple>)
    ensures IsSubsequence(AsTuples(Admitted(reply)), reply)
    decreases |reply|
  {
    if reply == [] {
      EmptyIsSubsequence(reply);
    } else {
      var init, t := reply[..|reply| - 1], reply[|reply| - 1];
      assert reply == init + [t];
      AdmittedIsSubsequence(init);
      if Admissible(t) {
        assert AsTuples(Admitted(reply)) == AsTuples(Admitted(init)) + [t];
        SubsequenceKeep(AsTuples(Admitted(init)), init, t);
      } else {
        assert Admitted(reply) == Admitted(init);
        SubsequenceSkip(AsTuples(Admitted(init)), init, t);
      }
    }
  }

  /** Every admissible entry of the reply is among the ranks, and every rank
      comes from an admissible entry. */
  lemma {:induction false} AdmittedExactly(reply: seq<TypedTuple>, rk: Rank)
    ensures rk in Admitted(reply) <==> AsTuple(rk) in reply
    decreases |reply|
  {
    if reply != [] {
      var init, t := reply[..|reply| - 1], reply[|reply| - 1];
      assert reply == init + [t];
      AdmittedExactly(init, rk);
    }
  }

  /** On a reply whose entries all have a member and a finite score, as
      Redis returns them, the filter drops nothing. */
  lemma {:induction false} AdmittedKeepsWellFormed(reply: seq<TypedTuple>)
    requires forall i :: 0 <= i < |reply| ==> Admissible(reply[i])
    ensures AsTuples(Admitted(reply)) == reply
    decreases |reply|
  {
    if reply != [] {
      var init, t := reply[..|reply| - 1], reply[|reply| - 1];
      assert reply == init + [t];
      AdmittedKeepsWellFormed(init);
      assert Admissible(t);
      assert AsTuples(Admitted(reply)) == AsTuples(Admitted(init)) + [t];
    }
  }

  /** `listing` is the sorted set `cache` as Redis lists it: each member
      once, with its score, highest score first. */
  ghost predicate ListsSortedSet(listing: seq<TypedTuple>, cache: map<string, real>)
  {
    && |listing| == |cache|
    && (forall i :: 0 <= i < |listing| ==>
          && Admissible(listing[i])
          && listing[i].member.value in cache
          && listing[i].score.value.value == cache[listing[i].member.value])
    && (forall i, j :: 0 <= i < j < |listing| ==>
          && listing[i].member != listing[j].member
          && listing[i].score.value.value >= listing[j].score.value.value)
  }

  /** The members a listing names. */
  ghost function ListedMembers(listing: seq<TypedTuple>): set<string>
  {
    set i | 0 <= i < |listing| && listing[i].member.Some? :: listing[i].member.value
  }

  /** A listing naming each member once names as many members as it has
      entries. */
  lemma {:induction false} ListedMembersCount(listing: seq<TypedTuple>)
    requires forall i :: 0 <= i < |listing| ==> listing[i].member.Some?
    requires forall i, j :: 0 <= i < j < |listing| ==> listing[i].member != listing[j].member
    ensures |ListedMembers(listing)| == |listing|
    decreases |listing|
  {
    if listing != [] {
      var init, t := listing[..|listing| - 1], listing[|listing| - 1];
      ListedMembersCount(init);
      assert ListedMembers(listing) == ListedMembers(init) + {t.member.value} by {
        forall m | m in ListedMembers(listing) ensures m in ListedMembers(init) + {t.member.value} {
          var i :| 0 <= i < |listing| && listing[i].member.Some? && listing[i].member.value == m;
          if i < |listing| - 1 { assert init[i] == listing[i]; }
        }
        forall m | m in ListedMembers(init) ensures m in ListedMembers(listing) {
          var i :| 0 <= i < |init| && init[i].member.Some? && init[i].member.value == m;
          assert listing[i] == init[i];
        }
      }
      assert t.member.value !in ListedMembers(init) by {
        forall i | 0 <= i < |init| && init[i].member.Some? ensures init[i].member.value != t.member.value {
          assert init[i] == listing[i];
        }
      }
    }
  }

  /** A listing of the sorted set names every member of it. */
  lemma ListingCoversSortedSet(listing: seq<TypedTuple>, cache: map<string, real>)
    requires ListsSortedSet(listing, cache)
    ensures forall m :: m in cache ==> exists k :: 0 <= k < |listing| && listing[k].member == Some(m)
  {
    ListedMembersCount(listing);
    var listed := ListedMembers(listing);
    assert listed <= cache.Keys;
    assert |cache.Keys - listed| == 0 by {
      assert cache.Keys == listed + (cache.Keys - listed);
    }
    forall m | m in cache ensures exists k :: 0 <= k < |listing| && listing[k].member == Some(m) {
      assert m in listed;
    }
  }

  /** Ranks copied from the head of a listing of the sorted set outscore
      every member the listing leaves to later entries. */
  lemma HeadOutscoresRest(listing: seq<TypedTuple>, cache: map<string, real>, top: seq<Rank>)
    requires ListsSortedSet(listing, cache)
    requires |top| <= |listing| && forall i :: 0 <= i < |top| ==> AsTuple(top[i]) == listing[i]
    ensures forall m, i :: m in cache && (forall j :: 0 <= j < |top| ==> top[j].member != m) && 0 <= i < |top| ==>
      cache[m] <= top[i].score
  {
    ListingCoversSortedSet(listing, cache);
    forall m, i | m in cache && (forall j :: 0 <= j < |top| ==> top[j].member != m) && 0 <= i < |top|
      ensures cache[m] <= top[i].score
    {
      var k :| 0 <= k < |listing| && listing[k].member == Some(m);
      if k < |top| {
        assert false;
      }
      assert AsTuple(top[i]) == listing[i];
    }
  }

  /** Over a listing of the sorted set, the ranks `topN(n)` keeps are the
      listing's first `n` entries (all of them when fewer), each member once
      with its cache score, highest first, and no member left out scores
      above one kept. */
  lemma TopOfSortedSet(listing: seq<TypedTuple>, cache: map<string, real>, n: int)
    requires ListsSortedSet(listing, cache) && n > 0
    ensures var top := Admitted(listing[..Min(n, |listing|)]);
      && AsTuples(top) == listing[..Min(n, |listing|)]
      && |top| == Min(n, |cache|)
      && (forall i :: 0 <= i < |top| ==> top[i].member in cache && top[i].score == cache[top[i].member])
      && (forall i, j :: 0 <= i < j < |top| ==> top[i].member != top[j].member && top[i].score >= top[j].score)
      && (forall m, i :: m in cache && (forall j :: 0 <= j < |top| ==> top[j].member != m) && 0 <= i < |top| ==>
            cache[m] <= top[i].score)
  {
    var prefix := listing[..Min(n, |listing|)];
    AdmittedKeepsWellFormed(prefix);
    var top := Admitted(prefix);
    assert |AsTuples(top)| == |top|;
    forall i | 0 <= i < |top|
      ensures AsTuple(top[i]) == prefix[i] == listing[i]
    {
      assert AsTuples(top)[i] == AsTuple(top[i]);
    }
    HeadOutscoresRest(listing, cache, top);
  }

  /** `topN(n)` over the ranking sorted set. `listing` is the whole sorted set
      from the highest score down, or `None` when the client returns null;
      the Redis reply to `reverseRangeWithScores(key, 0, n - 1)` is its first
      `n` entries. */
  method TopN(n: int, listing: Option<seq<TypedTuple>>) returns (list: seq<Rank>)
    ensures n <= 0 || listing.None? ==> list == []
    ensures n > 0 && listing.Some? ==> list == Admitted(listing.value[..Min(n, |listing.value|)])
    ensures |list| <= (if n <= 0 then 0 else n)
  {
    if n <= 0 {
      return [];
    }
    if listing.None? {
      return [];
    }
    var tuples := listing.value[..Min(n, |listing.value|)];
    if |tuples| == 0 {
      return [];
    }
    list := [];
    for i := 0 to |tuples|
      invariant list == Admitted(tuples[..i])
    {
      var t := tuples[i];
      assert tuples[..i + 1] == tuples[..i] + [t];
      if t.member.None? || t.score.None? || !t.score.value.Finite? {
        continue;
      }
      list := list + [Rank(t.member.value, t.score.value.value)];
    }
    assert tuples[..|tuples|] == tuples;
    AdmittedBounded(tuples);
  }

  /** The start-up seeding: three users and their initial scores, written
      through `addScore` with every store available. */
  method SeedDataRun() returns (service: RankService)
    ensures fresh(service) && fresh(service.userScores) && service.Valid()
    ensures service.users == map["kevin" := 1, "alice" := 2, "bob" := 3]
    ensures service.cache == map["kevin" := 100.0, "alice" := 80.0, "bob" := 50.0]
    ensures service.userScores.rows == map[1 := 100.0, 2 := 80.0, 3 := 50.0]
    ensures |service.ledger| == 3
  {
    service := new RankService(map["kevin" := 1, "alice" := 2, "bob" := 3]);
    var r := service.AddScore("kevin", Finite(100.0), Some("seed"), false, false);
    r := service.AddScore("alice", Finite(80.0), Some("seed"), false, false);
    r := service.AddScore("bob", Finite(50.0), Some("seed"), false, false);
  }
}
