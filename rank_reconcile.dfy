/** Reconciliation: compare the cache's top-N with the snapshot table's
    top-N and report every member whose two scores differ by more than a
    tolerance. It only reads: neither store is changed. */
module Reconcile {
  import opened Common
  import opened ScoreRepository

  /** One reported discrepancy: the member, its snapshot score, its cache
      score, and `delta = redis - db`. */
  datatype Diff = Diff(member: string, db: real, redis: real, delta: real)

  /** A `LinkedHashMap<String, Double>`: its keys in insertion order and its
      key-to-value mapping. */
  datatype LinkedMap = LinkedMap(keys: seq<string>, values: map<string, real>)

  ghost predicate Distinct(s: seq<string>)
  {
    forall i, j :: 0 <= i < j < |s| ==> s[i] != s[j]
  }

  /** Each key listed once, and the listed keys are the mapped keys. */
  ghost predicate WellFormed(m: LinkedMap)
  {
    Distinct(m.keys) && forall k :: k in m.values <==> k in m.keys
  }

  /** `put`: a new key goes to the end, an existing key keeps its place and
      takes the new value. */
  function Put(m: LinkedMap, k: string, v: real): LinkedMap
  {
    LinkedMap(if k in m.values then m.keys else m.keys + [k], m.values[k := v])
  }

  /** `getOrDefault(k, 0d)`. */
  function GetOrZero(m: LinkedMap, k: string): real
  {
    if k in m.values then m.values[k] else 0.0
  }

  /** Some pair of `ps` has key `k`. */
  ghost predicate HasKey(ps: seq<(string, real)>, k: string)
  {
    exists i :: 0 <= i < |ps| && ps[i].0 == k
  }

  /** A map filled by `put`ting each pair in order. */
  function FromPairs(ps: seq<(string, real)>): (m: LinkedMap)
    ensures WellFormed(m)
    decreases |ps|
  {
    if ps == [] then LinkedMap([], map[])
    else Put(FromPairs(ps[..|ps| - 1]), ps[|ps| - 1].0, ps[|ps| - 1].1)
  }

  /** The map holds exactly the keys of the pairs. */
  lemma {:induction false} FromPairsKeys(ps: seq<(string, real)>)
    ensures forall k :: k in FromPairs(ps).values <==> HasKey(ps, k)
    decreases |ps|
  {
    if ps != [] {
      var init, p := ps[..|ps| - 1], ps[|ps| - 1];
      FromPairsKeys(init);
      forall k | HasKey(ps, k) && k != p.0 ensures HasKey(init, k) {
        var i :| 0 <= i < |ps| && ps[i].0 == k;
        assert init[i].0 == k;
      }
      forall k | HasKey(init, k) ensures HasKey(ps, k) {
        var i :| 0 <= i < |init| && init[i].0 == k;
        assert ps[i].0 == k;
      }
      assert ps[|ps| - 1].0 == p.0;
    }
  }

  /** The keys of the pairs, in input order. */
  function KeysOf(ps: seq<(string, real)>): (ks: seq<string>)
    ensures |ks| == |ps|
  {
    seq(|ps|, i requires 0 <= i < |ps| => ps[i].0)
  }

  /** Without repeated keys, as both fetched lists have them, the map lists
      the keys in input order with each pair's own value. */
  lemma {:induction false} FromPairsDistinct(ps: seq<(string, real)>)
    requires Distinct(KeysOf(ps))
    ensures FromPairs(ps).keys == KeysOf(ps)
    ensures forall i :: 0 <= i < |ps| ==>
      ps[i].0 in FromPairs(ps).values && FromPairs(ps).values[ps[i].0] == ps[i].1
    decreases |ps|
  {
    if ps != [] {
      var init := ps[..|ps| - 1];
      assert KeysOf(init) == KeysOf(ps)[..|ps| - 1];
      FromPairsDistinct(init);
      assert ps == init + [ps[|ps| - 1]];
      PutFreshKey(init, FromPairs(init), ps[|ps| - 1]);
    }
  }

  lemma PutFreshKey(init: seq<(string, real)>, m: LinkedMap, last: (string, real))
    requires WellFormed(m) && Distinct(KeysOf(init + [last]))
    requires m.keys == KeysOf(init)
    requires forall i :: 0 <= i < |init| ==> init[i].0 in m.values && m.values[init[i].0] == init[i].1
    ensures Put(m, last.0, last.1).keys == KeysOf(init + [last])
    ensures forall i :: 0 <= i < |init| + 1 ==>
      (init + [last])[i].0 in Put(m, last.0, last.1).values
      && Put(m, last.0, last.1).values[(init + [last])[i].0] == (init + [last])[i].1
  {
    var ps := init + [last];
    assert KeysOf(ps) == KeysOf(init) + [last.0];
    forall i | 0 <= i < |init|
      ensures ps[i].0 != last.0 && m.keys[i] != last.0
    {
      assert KeysOf(ps)[i] != KeysOf(ps)[|init|];
    }
    assert last.0 !in m.keys;
  }

  /** `v` is the value of the last pair for key `k`. */
  ghost predicate LastValue(ps: seq<(string, real)>, k: string, v: real)
  {
    exists i :: 0 <= i < |ps| && ps[i] == (k, v) && forall j :: i < j < |ps| ==> ps[j].0 != k
  }

  /** A key repeated in the input keeps the value of its last pair. */
  lemma {:induction false} LastPutWins(ps: seq<(string, real)>, k: string)
    requires k in FromPairs(ps).values
    ensures LastValue(ps, k, FromPairs(ps).values[k])
    decreases |ps|
  {
    assert ps != [];
    var init, p := ps[..|ps| - 1], ps[|ps| - 1];
    var m := FromPairs(init);
    assert FromPairs(ps) == Put(m, p.0, p.1);
    if p.0 != k {
      LastPutWins(init, k);
    }
    PutKeepsLastValue(init, m, p, k);
    assert ps == init + [p];
  }

  lemma PutKeepsLastValue(init: seq<(string, real)>, m: LinkedMap, last: (string, real), k: string)
    requires k in Put(m, last.0, last.1).values
    requires last.0 != k ==> k in m.values && LastValue(init, k, m.values[k])
    ensures LastValue(init + [last], k, Put(m, last.0, last.1).values[k])
  {
    var ps := init + [last];
    if last.0 == k {
      assert ps[|init|] == (k, Put(m, last.0, last.1).values[k]);
    } else {
      var i :| 0 <= i < |init| && init[i] == (k, m.values[k])
                && forall j :: i < j < |init| ==> init[j].0 != k;
      assert ps[i] == init[i];
    }
  }

  /** `k` occurs among the pairs before position `p`. */
  ghost predicate OccursBefore(ps: seq<(string, real)>, k: string, p: int)
  {
    exists q :: 0 <= q < p && q < |ps| && ps[q].0 == k
  }

  /** Of two keys, the one listed first occurs in the input before any pair
      of the other. */
  ghost predicate ListedInFirstOccurrenceOrder(ps: seq<(string, real)>, keys: seq<string>)
  {
    forall a, b, p :: 0 <= a < b < |keys| && 0 <= p < |ps| && ps[p].0 == keys[b] ==> OccursBefore(ps, keys[a], p)
  }

  /** A repeated key keeps the place of its first pair. */
  lemma {:induction false} FirstPutPlaces(ps: seq<(string, real)>)
    ensures ListedInFirstOccurrenceOrder(ps, FromPairs(ps).keys)
    decreases |ps|
  {
    if ps != [] {
      var init, last := ps[..|ps| - 1], ps[|ps| - 1];
      FirstPutPlaces(init);
      FromPairsKeys(init);
      PutKeepsFirstOccurrenceOrder(init, FromPairs(init), last);
      assert ps == init + [last];
    }
  }

  lemma PutKeepsFirstOccurrenceOrder(init: seq<(string, real)>, m: LinkedMap, last: (string, real))
    requires WellFormed(m) && forall k :: k in m.values <==> HasKey(init, k)
    requires ListedInFirstOccurrenceOrder(init, m.keys)
    ensures ListedInFirstOccurrenceOrder(init + [last], Put(m, last.0, last.1).keys)
  {
    var ps, keys := init + [last], Put(m, last.0, last.1).keys;
    forall a, b, p | 0 <= a < b < |keys| && 0 <= p < |ps| && ps[p].0 == keys[b]
      ensures OccursBefore(ps, keys[a], p)
    {
      if b < |m.keys| {
        // both keys were already listed: use a pair of keys[b] inside `init`
        var p' := p;
        if p == |init| {
          assert HasKey(init, m.keys[b]);
          var i :| 0 <= i < |init| && init[i].0 == m.keys[b];
          p' := i;
        }
        assert 0 <= p' < |init| && init[p'].0 == m.keys[b];
        assert OccursBefore(init, m.keys[a], p');
        var q :| 0 <= q < p' && q < |init| && init[q].0 == m.keys[a];
        assert ps[q].0 == keys[a];
      } else {
        // keys[b] is the key of the last pair, which `init` lacks
        assert keys[b] == last.0 && last.0 !in m.values;
        assert p == |init|;
        assert HasKey(init, m.keys[a]);
        var i :| 0 <= i < |init| && init[i].0 == m.keys[a];
        assert ps[i].0 == keys[a];
      }
    }
  }

  /** `LinkedHashSet.addAll`: appends each name not yet present, in order. */
  function AddAll(names: seq<string>, more: seq<string>): (r: seq<string>)
    ensures Distinct(names) ==> Distinct(r)
    ensures forall k :: k in r <==> k in names || k in more
    ensures names <= r
    decreases |more|
  {
    if more == [] then names
    else
      var r' := AddAll(names, more[..|more| - 1]);
      var k := more[|more| - 1];
      assert forall x :: x in more <==> x in more[..|more| - 1] || x == k;
      if k in r' then r' else r' + [k]
  }

  /** The keys of `ks` that `m` lacks, in the order of `ks`. */
  function Missing(ks: seq<string>, m: LinkedMap): seq<string>
    decreases |ks|
  {
    if ks == [] then []
    else
      var k := ks[|ks| - 1];
      Missing(ks[..|ks| - 1], m) + (if k in m.values then [] else [k])
  }

  /** The names compared: the snapshot's names in its order, then the
      cache's names in its order. */
  function Candidates(db: LinkedMap, cache: LinkedMap): seq<string>
  {
    AddAll(AddAll([], db.keys), cache.keys)
  }

  lemma {:induction false} AddAllFresh(names: seq<string>, more: seq<string>)
    requires Distinct(more) && forall k :: k in more ==> k !in names
    ensures AddAll(names, more) == names + more
    decreases |more|
  {
    if more != [] {
      var init, k := more[..|more| - 1], more[|more| - 1];
      AddAllFresh(names, init);
      assert k !in init by {
        forall i | 0 <= i < |init| ensures init[i] != k {
          assert init[i] == more[i];
        }
      }
      assert names + more == (names + init) + [k];
    }
  }

  lemma {:induction false} AddAllMissing(m: LinkedMap, more: seq<string>)
    requires WellFormed(m) && Distinct(more)
    ensures AddAll(m.keys, more) == m.keys + Missing(more, m)
    decreases |more|
  {
    if more != [] {
      var init, k := more[..|more| - 1], more[|more| - 1];
      AddAllMissing(m, init);
      assert k !in init;
      assert k in Missing(init, m) ==> k in init by {
        MissingIsSelection(init, m);
      }
    }
  }

  lemma {:induction false} MissingIsSelection(ks: seq<string>, m: LinkedMap)
    ensures forall k :: k in Missing(ks, m) <==> k in ks && k !in m.values
    decreases |ks|
  {
    if ks != [] {
      MissingIsSelection(ks[..|ks| - 1], m);
      assert forall x :: x in ks <==> x in ks[..|ks| - 1] || x == ks[|ks| - 1];
    }
  }

  /** The candidate names are the snapshot's names in snapshot order followed
      by the cache-only names in cache order, each name once. */
  lemma CandidatesLayout(db: LinkedMap, cache: LinkedMap)
    requires WellFormed(db) && WellFormed(cache)
    ensures Candidates(db, cache) == db.keys + Missing(cache.keys, db)
    ensures Distinct(Candidates(db, cache))
    ensures forall k :: k in Candidates(db, cache) <==> k in db.values || k in cache.values
  {
    AddAllFresh([], db.keys);
    assert [] + db.keys == db.keys;
    AddAllMissing(db, cache.keys);
  }

  /** When both maps list the same names in the same order, the compared
      names are exactly those. */
  lemma SameNamesCandidates(db: LinkedMap, cache: LinkedMap)
    requires WellFormed(db) && WellFormed(cache) && db.keys == cache.keys
    ensures Candidates(db, cache) == db.keys
  {
    CandidatesLayout(db, cache);
    MissingNone(cache.keys, db);
    assert db.keys + [] == db.keys;
  }

  lemma {:induction false} MissingNone(ks: seq<string>, m: LinkedMap)
    requires forall k :: k in ks ==> k in m.values
    ensures Missing(ks, m) == []
    decreases |ks|
  {
    if ks != [] {
      MissingNone(ks[..|ks| - 1], m);
      assert ks[|ks| - 1] in ks;
    }
  }

  /** The comparison loop: for each name, compare the two scores (0 when a
      side lacks the name) and keep the name when they differ by more than
      `epsilon`. */
  function Report(names: seq<string>, db: LinkedMap, cache: LinkedMap, epsilon: real): seq<Diff>
    decreases |names|
  {
    if names == [] then []
    else
      var rest := Report(names[..|names| - 1], db, cache, epsilon);
      var name := names[|names| - 1];
      var a := GetOrZero(db, name);
      var b := GetOrZero(cache, name);
      if Abs(a - b) > epsilon then rest + [Diff(name, a, b, b - a)] else rest
  }

  /** Every report is about a compared name, carries the two scores looked
      up for it (0 when absent) and `delta = redis - db`, and exceeds the
      tolerance. */
  lemma {:induction false} ReportEntries(names: seq<string>, db: LinkedMap, cache: LinkedMap, epsilon: real)
    ensures forall d :: d in Report(names, db, cache, epsilon) ==>
      && d.member in names
      && d.db == GetOrZero(db, d.member)
      && d.redis == GetOrZero(cache, d.member)
      && d.delta == d.redis - d.db
      && Abs(d.delta) > epsilon
    decreases |names|
  {
    if names != [] {
      var init := names[..|names| - 1];
      ReportEntries(init, db, cache, epsilon);
      assert forall x :: x in init ==> x in names;
    }
  }

  /** One more name compared: at most one more report, at the end. */
  lemma ReportStep(names: seq<string>, name: string, db: LinkedMap, cache: LinkedMap, epsilon: real)
    ensures Report(names + [name], db, cache, epsilon)
         == Report(names, db, cache, epsilon)
            + (var a, b := GetOrZero(db, name), GetOrZero(cache, name);
               if Abs(a - b) > epsilon then [Diff(name, a, b, b - a)] else [])
  {
    assert (names + [name])[..|names|] == names;
  }

  function Members(ds: seq<Diff>): (ms: seq<string>)
    ensures |ms| == |ds|
  {
    seq(|ds|, i requires 0 <= i < |ds| => ds[i].member)
  }

  /** The reported members keep the order of the names. */
  lemma {:induction false} ReportKeepsOrder(names: seq<string>, db: LinkedMap, cache: LinkedMap, epsilon: real)
    ensures IsSubsequence(Members(Report(names, db, cache, epsilon)), names)
    decreases |names|
  {
    if names == [] {
      EmptyIsSubsequence(names);
    } else {
      var init, name := names[..|names| - 1], names[|names| - 1];
      assert names == init + [name];
      ReportKeepsOrder(init, db, cache, epsilon);
      var rest := Report(init, db, cache, epsilon);
      if Abs(GetOrZero(db, name) - GetOrZero(cache, name)) > epsilon {
        var d := Diff(name, GetOrZero(db, name), GetOrZero(cache, name),
                      GetOrZero(cache, name) - GetOrZero(db, name));
        assert Members(rest + [d]) == Members(rest) + [name];
        SubsequenceKeep(Members(rest), init, name);
      } else {
        SubsequenceSkip(Members(rest), init, name);
      }
    }
  }

  /** A name is reported exactly when it is a candidate whose two scores
      differ by more than `epsilon`. */
  lemma {:induction false} ReportedIff(names: seq<string>, db: LinkedMap, cache: LinkedMap, epsilon: real, k: string)
    ensures k in Members(Report(names, db, cache, epsilon))
        <==> k in names && Abs(GetOrZero(db, k) - GetOrZero(cache, k)) > epsilon
    decreases |names|
  {
    if names != [] {
      var init, name := names[..|names| - 1], names[|names| - 1];
      assert names == init + [name];
      ReportedIff(init, db, cache, epsilon, k);
      var rest := Report(init, db, cache, epsilon);
      if Abs(GetOrZero(db, name) - GetOrZero(cache, name)) > epsilon {
        var d := Diff(name, GetOrZero(db, name), GetOrZero(cache, name),
                      GetOrZero(cache, name) - GetOrZero(db, name));
        assert Members(rest + [d]) == Members(rest) + [name];
      }
    }
  }

  /** Raising the tolerance only removes reports. */
  lemma {:induction false} ToleranceMonotone(names: seq<string>, db: LinkedMap, cache: LinkedMap, lo: real, hi: real)
    requires lo <= hi
    ensures IsSubsequence(Report(names, db, cache, hi), Report(names, db, cache, lo))
    decreases |names|
  {
    if names == [] {
      EmptyIsSubsequence(Report(names, db, cache, lo));
    } else {
      var init, name := names[..|names| - 1], names[|names| - 1];
      ToleranceMonotone(init, db, cache, lo, hi);
      var a, b := GetOrZero(db, name), GetOrZero(cache, name);
      var d := Diff(name, a, b, b - a);
      if Abs(a - b) > hi {
        SubsequenceKeep(Report(init, db, cache, hi), Report(init, db, cache, lo), d);
      } else if Abs(a - b) > lo {
        SubsequenceSkip(Report(init, db, cache, hi), Report(init, db, cache, lo), d);
      }
    }
  }

  /** The pairs a list of snapshot rows is turned into. */
  function RowPairs(rows: seq<UsernameScore>): (ps: seq<(string, real)>)
    ensures |ps| == |rows|
  {
    seq(|rows|, i requires 0 <= i < |rows| => (rows[i].username, rows[i].score))
  }

  /** The pairs of a cache reply; a null reply gives none. */
  function ReplyPairs(reply: Option<seq<(string, real)>>): seq<(string, real)>
  {
    if reply.Some? then reply.value else []
  }

  /** What `diffTopN` returns for the two fetched top-N lists. */
  function Diffs(cacheReply: Option<seq<(string, real)>>, dbRows: seq<UsernameScore>, epsilon: real): seq<Diff>
  {
    var cache := FromPairs(ReplyPairs(cacheReply));
    var db := FromPairs(RowPairs(dbRows));
    Report(Candidates(db, cache), db, cache, epsilon)
  }

  /** A member is reported exactly when one of the two lists names it and
      its snapshot and cache scores, each 0 when absent, differ by more than
      `epsilon`; `db` and `cache` are the two maps built from the lists. */
  lemma DiffsReportExactly(cacheReply: Option<seq<(string, real)>>, dbRows: seq<UsernameScore>, epsilon: real,
                           db: LinkedMap, cache: LinkedMap, k: string)
    requires db == FromPairs(RowPairs(dbRows)) && cache == FromPairs(ReplyPairs(cacheReply))
    ensures k in Members(Diffs(cacheReply, dbRows, epsilon))
        <==> && (HasKey(RowPairs(dbRows), k) || HasKey(ReplyPairs(cacheReply), k))
             && Abs(GetOrZero(db, k) - GetOrZero(cache, k)) > epsilon
  {
    CandidatesLayout(db, cache);
    FromPairsKeys(RowPairs(dbRows));
    FromPairsKeys(ReplyPairs(cacheReply));
    ReportedIff(Candidates(db, cache), db, cache, epsilon, k);
  }

  /** Every reported entry carries the member's snapshot score and cache
      score as the two maps hold them (0 when absent), `delta = redis - db`,
      and a gap above `epsilon`. */
  lemma DiffsEntries(cacheReply: Option<seq<(string, real)>>, dbRows: seq<UsernameScore>, epsilon: real,
                     db: LinkedMap, cache: LinkedMap)
    requires db == FromPairs(RowPairs(dbRows)) && cache == FromPairs(ReplyPairs(cacheReply))
    ensures forall d :: d in Diffs(cacheReply, dbRows, epsilon) ==>
      && d.db == GetOrZero(db, d.member)
      && d.redis == GetOrZero(cache, d.member)
      && d.delta == d.redis - d.db
      && Abs(d.delta) > epsilon
  {
    ReportEntries(Candidates(db, cache), db, cache, epsilon);
  }

  /** `diffTopN`'s result is the report over the candidates of the two maps
      built from its fetches. */
  lemma DiffsByReport(cacheReply: Option<seq<(string, real)>>, dbRows: seq<UsernameScore>, epsilon: real,
                      db: LinkedMap, cache: LinkedMap, expected: seq<Diff>)
    requires db == FromPairs(RowPairs(dbRows)) && cache == FromPairs(ReplyPairs(cacheReply))
    requires Report(Candidates(db, cache), db, cache, epsilon) == expected
    ensures Diffs(cacheReply, dbRows, epsilon) == expected
  {
  }

  /** Each member is reported at most once, in the order of the snapshot's
      names followed by the cache-only names. */
  lemma DiffsOrder(cacheReply: Option<seq<(string, real)>>, dbRows: seq<UsernameScore>, epsilon: real)
    ensures var cache, db := FromPairs(ReplyPairs(cacheReply)), FromPairs(RowPairs(dbRows));
      IsSubsequence(Members(Diffs(cacheReply, dbRows, epsilon)), db.keys + Missing(cache.keys, db))
    ensures Distinct(Members(Diffs(cacheReply, dbRows, epsilon)))
  {
    var cache, db := FromPairs(ReplyPairs(cacheReply)), FromPairs(RowPairs(dbRows));
    CandidatesLayout(db, cache);
    ReportKeepsOrder(Candidates(db, cache), db, cache, epsilon);
    SubsequenceDistinct(Members(Diffs(cacheReply, dbRows, epsilon)), Candidates(db, cache));
  }

  /** Raising the tolerance of a reconciliation can only remove reports. */
  lemma DiffsToleranceMonotone(cacheReply: Option<seq<(string, real)>>, dbRows: seq<UsernameScore>, lo: real, hi: real)
    requires lo <= hi
    ensures IsSubsequence(Diffs(cacheReply, dbRows, hi), Diffs(cacheReply, dbRows, lo))
  {
    var cache, db := FromPairs(ReplyPairs(cacheReply)), FromPairs(RowPairs(dbRows));
    ToleranceMonotone(Candidates(db, cache), db, cache, lo, hi);
  }

  /** The loop that `put`s each fetched pair into a `LinkedHashMap`. */
  method PutAll(ps: seq<(string, real)>) returns (m: LinkedMap)
    ensures m == FromPairs(ps)
  {
    m := LinkedMap([], map[]);
    for i := 0 to |ps|
      invariant m == FromPairs(ps[..i])
    {
      assert ps[..i + 1][..i] == ps[..i];
      m := Put(m, ps[i].0, ps[i].1);
    }
    assert ps[..|ps|] == ps;
  }

  /** `LinkedHashSet.addAll`, one name at a time. */
  method AddAllNames(names: seq<string>, more: seq<string>) returns (r: seq<string>)
    ensures r == AddAll(names, more)
  {
    r := names;
    for i := 0 to |more|
      invariant r == AddAll(names, more[..i])
    {
      assert more[..i + 1][..i] == more[..i];
      if more[i] !in r {
        r := r + [more[i]];
      }
    }
    assert more[..|more|] == more;
  }

  /** The comparison loop of `diffTopN` over the candidate names. */
  method Compare(names: seq<string>, dbMap: LinkedMap, redisMap: LinkedMap, epsilon: real)
    returns (diffs: seq<Diff>)
    ensures diffs == Report(names, dbMap, redisMap, epsilon)
  {
    diffs := [];
    for i := 0 to |names|
      invariant diffs == Report(names[..i], dbMap, redisMap, epsilon)
    {
      assert names[..i + 1] == names[..i] + [names[i]];
      ReportStep(names[..i], names[i], dbMap, redisMap, epsilon);
      var a := GetOrZero(dbMap, names[i]);
      var b := GetOrZero(redisMap, names[i]);
      if Abs(a - b) > epsilon {
        diffs := diffs + [Diff(names[i], a, b, b - a)];
      }
    }
    assert names[..|names|] == names;
  }

  /** `diffTopN`. The reply of `reverseRangeWithScores(key, 0, n - 1)`
      (null as `None`) and the rows of the repository's `topN(n)` are the
      two fetches, passed in. */
  method DiffTopN(cacheReply: Option<seq<(string, real)>>, dbRows: seq<UsernameScore>, epsilon: real)
    returns (diffs: seq<Diff>)
    ensures diffs == Diffs(cacheReply, dbRows, epsilon)
  {
    var redisMap := PutAll(ReplyPairs(cacheReply));
    var dbMap := PutAll(RowPairs(dbRows));

    var names := AddAllNames([], dbMap.keys);
    names := AddAllNames(names, redisMap.keys);

    diffs := Compare(names, dbMap, redisMap, epsilon);
  }
}
