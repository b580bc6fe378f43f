/** The `user_scores` snapshot table and the three statements the ranking
    service issues against it: the upsert-add, the score lookup and the
    top-N query joined to `users`. */
module ScoreRepository {
  import opened Common

  /** `users.id`, a Java `Long`. */
  type UserId = int

  /** One row of the top-N query: a username with its snapshot score. */
  datatype UsernameScore = UsernameScore(username: string, score: real)

  /** A user's snapshot score; a user without a row counts as 0, the
      column's default. */
  function ScoreOrZero(rows: map<UserId, real>, userId: UserId): real
  {
    if userId in rows then rows[userId] else 0.0
  }

  /** The table after `INSERT ... VALUES (userId, delta) ON CONFLICT (user_id)
      DO UPDATE SET score = score + delta`. */
  function Upserted(rows: map<UserId, real>, userId: UserId, delta: real): (r: map<UserId, real>)
    ensures r.Keys == rows.Keys + {userId}
    ensures userId !in rows ==> r[userId] == delta
    ensures userId in rows ==> r[userId] == rows[userId] + delta
    ensures forall id :: id in rows && id != userId ==> r[id] == rows[id]
  {
    rows[userId := ScoreOrZero(rows, userId) + delta]
  }

  function Sum(ds: seq<real>): real
    decreases |ds|
  {
    if ds == [] then 0.0 else Sum(ds[..|ds| - 1]) + ds[|ds| - 1]
  }

  /** The table after one upsert-add of each delta, in order, for one user. */
  function UpsertedAll(rows: map<UserId, real>, userId: UserId, ds: seq<real>): map<UserId, real>
    decreases |ds|
  {
    if ds == [] then rows
    else Upserted(UpsertedAll(rows, userId, ds[..|ds| - 1]), userId, ds[|ds| - 1])
  }

  /** Successive upsert-adds accumulate: the user's score grows by the sum
      of the deltas, and no other row changes. */
  lemma {:induction false} UpsertedAllAccumulates(rows: map<UserId, real>, userId: UserId, ds: seq<real>)
    ensures ScoreOrZero(UpsertedAll(rows, userId, ds), userId) == ScoreOrZero(rows, userId) + Sum(ds)
    ensures ds != [] ==> userId in UpsertedAll(rows, userId, ds)
    ensures forall id :: id != userId ==>
      (id in UpsertedAll(rows, userId, ds) <==> id in rows)
      && ScoreOrZero(UpsertedAll(rows, userId, ds), id) == ScoreOrZero(rows, id)
    decreases |ds|
  {
    if ds != [] {
      UpsertedAllAccumulates(rows, userId, ds[..|ds| - 1]);
    }
  }

  /** Two upsert-adds on a user without a row leave the score at d1 + d2. */
  lemma UpsertTwiceOnFreshUser(rows: map<UserId, real>, userId: UserId, d1: real, d2: real)
    requires userId !in rows
    ensures Upserted(Upserted(rows, userId, d1), userId, d2)[userId] == d1 + d2
  {
    UpsertedAllAccumulates(rows, userId, [d1, d2]);
    assert [d1, d2][..1] == [d1];
    assert [d1][..0] == [];
  }

  /** The rows of `user_scores s JOIN users u ON u.id = s.user_id`, projected
      to (username, score). */
  ghost function Joined(rows: map<UserId, real>, users: map<string, UserId>): set<UsernameScore>
  {
    set u | u in users && users[u] in rows :: UsernameScore(u, rows[users[u]])
  }

  ghost predicate IsHighest(m: UsernameScore, s: set<UsernameScore>)
  {
    m in s && forall x :: x in s ==> x.score <= m.score
  }

  lemma {:induction false} HighestExists(s: set<UsernameScore>)
    requires s != {}
    ensures exists m :: IsHighest(m, s)
    decreases |s|
  {
    var x :| x in s;
    if s == {x} {
      assert IsHighest(x, s);
    } else {
      HighestExists(s - {x});
      var m :| IsHighest(m, s - {x});
      if x.score <= m.score {
        assert IsHighest(m, s);
      } else {
        assert IsHighest(x, s);
      }
    }
  }

  /** A row with the highest score; which one among equal scores is left
      open. */
  ghost function Highest(s: set<UsernameScore>): (m: UsernameScore)
    requires s != {}
    ensures IsHighest(m, s)
  {
    HighestExists(s);
    var m :| IsHighest(m, s);
    m
  }

  /** `ORDER BY score DESC LIMIT n` over a set of rows. The order among equal
      scores is left to the database and is not specified here. */
  ghost function TopRows(s: set<UsernameScore>, n: nat): (r: seq<UsernameScore>)
    ensures |r| == Min(n, |s|)
    decreases n
  {
    if n == 0 || s == {} then []
    else [Highest(s)] + TopRows(s - {Highest(s)}, n - 1)
  }

  /** The rows taken are rows of the set. */
  lemma {:induction false} TopRowsFromSet(s: set<UsernameScore>, n: nat)
    ensures forall i :: 0 <= i < |TopRows(s, n)| ==> TopRows(s, n)[i] in s
    decreases n
  {
    if n != 0 && s != {} {
      var m := Highest(s);
      TopRowsFromSet(s - {m}, n - 1);
    }
  }

  /** The rows taken are distinct, highest score first. */
  lemma {:induction false} TopRowsSorted(s: set<UsernameScore>, n: nat)
    ensures forall i, j :: 0 <= i < j < |TopRows(s, n)| ==>
      TopRows(s, n)[i] != TopRows(s, n)[j] && TopRows(s, n)[i].score >= TopRows(s, n)[j].score
    decreases n
  {
    if n != 0 && s != {} {
      var m := Highest(s);
      var rest := TopRows(s - {m}, n - 1);
      TopRowsSorted(s - {m}, n - 1);
      TopRowsFromSet(s - {m}, n - 1);
      var r := [m] + rest;
      assert TopRows(s, n) == r;
      forall i, j | 0 <= i < j < |r| ensures r[i] != r[j] && r[i].score >= r[j].score {
        assert r[j] == rest[j - 1] && r[j] in s - {m};
        if i > 0 { assert r[i] == rest[i - 1]; }
      }
    }
  }

  /** No row left out scores above a row taken. */
  lemma {:induction false} TopRowsMaximal(s: set<UsernameScore>, n: nat)
    ensures forall x, i :: x in s && x !in TopRows(s, n) && 0 <= i < |TopRows(s, n)| ==>
      x.score <= TopRows(s, n)[i].score
    decreases n
  {
    if n != 0 && s != {} {
      var m := Highest(s);
      var rest := TopRows(s - {m}, n - 1);
      TopRowsMaximal(s - {m}, n - 1);
      var r := [m] + rest;
      assert TopRows(s, n) == r;
      forall x, i | x in s && x !in r && 0 <= i < |r| ensures x.score <= r[i].score {
        if i > 0 {
          assert r[i] == rest[i - 1];
          assert x in s - {m} && x !in rest;
        }
      }
    }
  }

  /** A row that scores strictly above every other row is listed first,
      ahead of the top rows of the rest. */
  lemma TopRowsStrictHead(s: set<UsernameScore>, x: UsernameScore, n: nat)
    requires x in s && n > 0
    requires forall y :: y in s && y != x ==> y.score < x.score
    ensures TopRows(s, n) == [x] + TopRows(s - {x}, n - 1)
  {
    assert IsHighest(Highest(s), s);
  }

  /** The repository over the `user_scores` table: at most one row per user
      id, holding that user's current score. */
  class UserScoreRepository {
    var rows: map<UserId, real>

    constructor ()
      ensures rows == map[]
    {
      rows := map[];
    }

    /** Adds `delta` to the user's row, creating the row with score `delta`
        when there is none; returns the affected-row count. */
    method UpsertAndAdd(userId: UserId, delta: real) returns (affected: int)
      modifies this
      ensures rows == Upserted(old(rows), userId, delta)
      ensures affected == 1
    {
      if userId in rows {
        rows := rows[userId := rows[userId] + delta];
      } else {
        rows := rows[userId := delta];
      }
      affected := 1;
    }

    /** `SELECT score FROM user_scores WHERE user_id = :userId`: null when
        the user has no row. */
    function FindScore(userId: UserId): (r: Option<real>)
      reads this
      ensures r.Some? <==> userId in rows
      ensures r.Some? ==> r.value == rows[userId]
    {
      if userId in rows then Some(rows[userId]) else None
    }

    /** The reconciliation query: at most `n` rows of users that have a
        snapshot row, each with its own username and score, highest first,
        and no row left out that scores above one returned. */
    ghost function TopN(users: map<string, UserId>, n: nat): (r: seq<UsernameScore>)
      reads this
      ensures |r| == Min(n, |Joined(rows, users)|)
      ensures forall i :: 0 <= i < |r| ==>
        r[i].username in users && users[r[i].username] in rows && r[i].score == rows[users[r[i].username]]
      ensures forall i, j :: 0 <= i < j < |r| ==> r[i] != r[j] && r[i].score >= r[j].score
      ensures forall u :: u in users && users[u] in rows && UsernameScore(u, rows[users[u]]) !in r ==>
        forall i :: 0 <= i < |r| ==> rows[users[u]] <= r[i].score
    {
      var s := Joined(rows, users);
      TopRowsFromSet(s, n);
      TopRowsSorted(s, n);
      TopRowsMaximal(s, n);
      TopRows(s, n)
    }
  }
}
