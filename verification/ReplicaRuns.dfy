/** The replica object, driven through whole runs of batches. */
module ReplicaRuns {
  import opened Hlc
  import opened Model
  import opened Reporting
  import opened Selection
  import opened Deletes
  import opened RowMerge
  import opened Policy
  import opened Engine
  import opened Preflight
  import opened ApplyBatch
  import opened Replicas
  import opened RowInvariant
  import opened Convergence
  import opened Runs
  import opened Order
  import opened Replay
  import opened BatchReplay

  /** In a reachable state a committed accept-everything batch is exactly one step of a run. */
  lemma CommittedIsNext(
      env: Env, recv: set<Change>, rows: Rows, changes: seq<Change>, groups: seq<seq<Indexed>>, ids: set<string>,
      written: seq<Cand>, rows': Rows)
    requires Inv(env, recv, rows) && Coherent(env, recv + AsSet(changes))
    requires PlainEffect(env, changes, rows, groups, ids, written, rows')
    ensures WellDelivered(env, Delivery(changes, groups, ids)) && rows' == Next(env, rows, Delivery(changes, groups, ids))
  {
    hide Inv, IsGrouping, RowsAfter, AllWrites, NamesLogId, LogTargetsNoLog, LogCoherent, Unambiguous, Vetted, LogInv, Killed;
    CoherentSubset(env, recv, AsSet(changes));
    InvIsLogInv(env, recv, rows);
    LogTargetsStayOut(env, recv, rows);
    GroupingShape(changes, groups);
    LogAfterWrites(env, recv, rows, changes, groups);
    LogTargetsStayOut(env, recv + AsSet(changes), RowsAfter(env, rows, groups, |groups|));
  }

  function AllChanges(batches: seq<seq<Change>>): set<Change> {
    set b, c | b in batches && c in b :: c
  }

  /** The batches among the first `n` whose results say they were committed, in order. */
  function Landed(batches: seq<seq<Change>>, results: seq<ApplyResult>, n: nat): (r: seq<seq<Change>>)
    requires n <= |batches| && n <= |results|
    ensures |r| <= n
  {
    if n == 0 then []
    else Landed(batches, results, n - 1) + if results[n - 1].Lands() then [batches[n - 1]] else []
  }

  lemma {:induction false} LandedGrows(batches: seq<seq<Change>>, results: seq<ApplyResult>, next: ApplyResult, n: nat)
    requires n <= |results| < |batches|
    ensures Landed(batches, results + [next], n) == Landed(batches, results, n)
  {
    if n > 0 {
      LandedGrows(batches, results, next, n - 1);
    }
  }

  lemma {:induction false} LandedPrefix(batches: seq<seq<Change>>, results: seq<ApplyResult>, m: nat, n: nat)
    requires m <= n <= |batches| && n <= |results|
    ensures |Landed(batches, results, m)| <= |Landed(batches, results, n)|
  {
    if m < n {
      LandedPrefix(batches, results, m, n - 1);
    }
  }

  function ChangesOf(ds: seq<Delivery>): seq<seq<Change>> {
    seq(|ds|, i requires 0 <= i < |ds| => ds[i].changes)
  }

  /** Every change passes the preflight, no value is malformed and the stored delete log can be read. */
  ghost predicate Commits(env: Env, changes: seq<Change>, now: nat, rows: Rows) {
    (forall c | c in changes :: Acceptable(env, c, now)) && Decodable(env, changes) && LogReadable(rows)
  }

  /** The deliveries are those of the committed batches, and a batch commits exactly when it can. */
  ghost predicate Follows(env: Env, batches: seq<seq<Change>>, nows: seq<nat>, results: seq<ApplyResult>, ds: seq<Delivery>)
    requires |results| <= |batches| == |nows|
  {
    && WellRun(env, ds)
    && ChangesOf(ds) == Landed(batches, results, |results|)
    && forall k | 0 <= k < |results| :: LandsWhenItCan(env, batches, nows, results, ds, k)
  }

  ghost predicate LandsWhenItCan(
      env: Env, batches: seq<seq<Change>>, nows: seq<nat>, results: seq<ApplyResult>, ds: seq<Delivery>, k: nat)
    requires k < |results| <= |batches| == |nows| && WellRun(env, ds)
  {
    var before := |Landed(batches, results, k)|;
    before <= |ds| && (results[k].Lands() <==> Commits(env, batches[k], nows[k], StateAfter(env, ds[..before])))
  }

  lemma FollowsOn(
      env: Env, batches: seq<seq<Change>>, nows: seq<nat>, results: seq<ApplyResult>, ds: seq<Delivery>,
      next: ApplyResult, d: Delivery)
    requires |results| < |batches| == |nows| && Follows(env, batches, nows, results, ds)
    requires next.Lands() <==> Commits(env, batches[|results|], nows[|results|], StateAfter(env, ds))
    requires next.Lands() ==> WellDelivered(env, d) && d.changes == batches[|results|]
    ensures Follows(env, batches, nows, results + [next], if next.Lands() then ds + [d] else ds)
  {
    hide Commits, WellDelivered, StateAfter;
    var n := |results|;
    var results', ds' := results + [next], if next.Lands() then ds + [d] else ds;
    LandedGrows(batches, results, next, n);
    assert ds'[..|ds|] == ds;
    forall k | 0 <= k < |results'|
      ensures LandsWhenItCan(env, batches, nows, results', ds', k)
    {
      LandedGrows(batches, results, next, k);
      LandedPrefix(batches, results, k, n);
      var before := |Landed(batches, results, k)|;
      assert ds'[..before] == ds[..before];
      if k < n {
        assert LandsWhenItCan(env, batches, nows, results, ds, k);
      } else {
        assert |ChangesOf(ds)| == |ds|;
        assert ds[..|ds|] == ds;
      }
    }
    assert ChangesOf(ds + [d]) == ChangesOf(ds) + [d.changes];
  }

  /**
   * Hand a fresh replica any list of batches. It ends in the state of the run
   * of exactly the batches that committed, in their order; a batch commits
   * exactly when it is acceptable, decodable and finds a readable log; and
   * the rows obey the existence law.
   */
  method DeliverAll(r: Replica, env: Env, cb: Callbacks, batches: seq<seq<Change>>, nows: seq<nat>, laters: seq<nat>)
    returns (results: seq<ApplyResult>, ghost ds: seq<Delivery>)
    requires r.rows == map[] && Plain(env, cb) && |nows| == |laters| == |batches|
    requires Unambiguous(env, AllChanges(batches)) && LogCoherent(env, AllChanges(batches))
    modifies r, r.clock
    ensures |results| == |batches| && Follows(env, batches, nows, results, ds)
    ensures Received(ds) <= AllChanges(batches) && Coherent(env, Received(ds)) && r.rows == StateAfter(env, ds)
    ensures forall id :: id in r.rows <==>
              exists c :: c in Received(ds) && Hits(env, c, id) && OutlivesTombstones(env, Received(ds), id, c)
  {
    hide Inv, Coherent, Plain, PlainEffect, Account, Acceptable, WellDelivered, Next, OutlivesTombstones, Hits, Unambiguous,
         LogCoherent, Decodable, LogReadable, Follows;
    results, ds := [], [];
    EmptyInv(env);
    EmptyCoherent(env);
    NothingFollows(env, batches, nows);
    PlainPassesPreflight(env, cb);
    for k := 0 to |batches|
      invariant |results| == k && Follows(env, batches, nows, results, ds)
      invariant WellRun(env, ds) && Received(ds) <= AllChanges(batches) && r.rows == StateAfter(env, ds)
      invariant Coherent(env, Received(ds)) && Inv(env, Received(ds), r.rows)
    {
      ghost var rows := r.rows;
      var result;
      ghost var groups, ids, written;
      result, groups, ids, written := r.ApplyRemoteChanges(env, cb, batches[k], nows[k], laters[k]);
      ghost var recv, d := Received(ds), Delivery(batches[k], groups, ids);
      if result.Lands() {
        assert AsSet(batches[k]) <= AllChanges(batches);
        ReceivedStaysCoherent(env, AllChanges(batches), recv, batches[k], nows[k]);
        CommittedIsNext(env, recv, rows, batches[k], groups, ids, written, r.rows);
        StepKeepsInv(env, recv, rows, d);
        assert (ds + [d])[..|ds|] == ds;
      }
      assert result.Lands() <==> Commits(env, batches[k], nows[k], rows);
      FollowsOn(env, batches, nows, results, ds, result, d);
      results := results + [result];
      if result.Lands() {
        ds := ds + [d];
      }
    }
    forall id
      ensures id in r.rows <==>
              exists c :: c in Received(ds) && Hits(env, c, id) && OutlivesTombstones(env, Received(ds), id, c)
    {
      RowExistence(env, ds, id);
    }
  }

  lemma PlainPassesPreflight(env: Env, cb: Callbacks)
    requires Plain(env, cb)
    ensures cb.preflightOk
  {
  }

  lemma NothingFollows(env: Env, batches: seq<seq<Change>>, nows: seq<nat>)
    requires |nows| == |batches|
    ensures Follows(env, batches, nows, [], [])
  {
  }

  lemma EmptyCoherent(env: Env)
    ensures Coherent(env, {})
  {
  }

  lemma ReceivedStaysCoherent(env: Env, all: set<Change>, recv: set<Change>, changes: seq<Change>, now: nat)
    requires Unambiguous(env, all) && LogCoherent(env, all) && recv + AsSet(changes) <= all && Coherent(env, recv)
    requires forall c | c in changes :: Acceptable(env, c, now)
    ensures Coherent(env, recv + AsSet(changes))
  {
    hide Rank, Hits, Decoded, IsTimestamp, IsComplete, SafeIdentifier, Time;
  }

  /** Every delete-log row that is touched at all is sent with both of its target columns. */
  ghost predicate CompleteLog(env: Env, recv: set<Change>) {
    forall c, l | c in recv && LogHit(env, c, l) ::
      && (exists p :: p in recv && LogHit(env, p, l) && p.column == LOG_TARGET_PKS)
      && (exists t :: t in recv && LogHit(env, t, l) && t.column == LOG_TARGET_TABLE)
  }

  lemma CompleteLogIsReadable(env: Env, recv: set<Change>, rows: Rows)
    requires Inv(env, recv, rows) && Coherent(env, recv) && CompleteLog(env, recv)
    ensures LogReadable(rows)
  {
    hide Rank, Hits, Decoded, LogCoherent, Unambiguous, Vetted, LogInv, RowOk, HitsOf, TombsOf;
    InvIsLogInv(env, recv, rows);
    forall l | l in rows && l.table == LOG_TABLE
      ensures Readable(rows[l])
    {
      var c := StoredLogHit(env, recv, rows, l);
      var p :| p in recv && LogHit(env, p, l) && p.column == LOG_TARGET_PKS;
      var t :| t in recv && LogHit(env, t, l) && t.column == LOG_TARGET_TABLE;
      LogCell(env, recv, rows, l, p);
      LogCell(env, recv, rows, l, t);
      LogFieldsAreText(env, recv, p, l);
      LogFieldsAreText(env, recv, t, l);
    }
  }

  lemma StoredLogHit(env: Env, recv: set<Change>, rows: Rows, l: RowId) returns (c: Change)
    requires Inv(env, recv, rows) && l in rows && l.table == LOG_TABLE
    ensures c in recv && LogHit(env, c, l)
  {
    hide Rank, Hits, Provenance, RowHlcIsMax, Covers, TombsOf;
    assert RowOk(env, l, HitsOf(env, recv, l), TombsOf(env, recv, l), Lookup(rows, l));
    c :| c in HitsOf(env, recv, l) && AboveAll(c, TombsOf(env, recv, l));
  }

  lemma LogFieldsAreText(env: Env, recv: set<Change>, c: Change, l: RowId)
    requires LogCoherent(env, recv) && c in recv && LogHit(env, c, l)
    ensures Decoded(env, c).Text?
  {
    hide Hits, Decoded;
  }

  /** Batches every one of which commits when its turn comes. */
  lemma AllLand(
      env: Env, batches: seq<seq<Change>>, nows: seq<nat>, results: seq<ApplyResult>, ds: seq<Delivery>, k: nat)
    requires |results| == |batches| == |nows| && Follows(env, batches, nows, results, ds) && k <= |batches|
    requires forall j | 0 <= j < k :: results[j].Lands()
    ensures Landed(batches, results, k) == batches[..k] && k <= |ds|
    ensures forall j | 0 <= j < k :: ds[j].changes == batches[j]
  {
    hide LandsWhenItCan;
    FirstLand(batches, results, k);
    LandedPrefix(batches, results, k, |batches|);
    assert |ChangesOf(ds)| == |ds|;
    forall j | 0 <= j < k
      ensures ds[j].changes == batches[j]
    {
      LandedIsPrefix(batches, results, k, |batches|);
      assert ChangesOf(ds)[j] == Landed(batches, results, k)[j];
    }
  }

  lemma {:induction false} FirstLand(batches: seq<seq<Change>>, results: seq<ApplyResult>, k: nat)
    requires k <= |batches| && k <= |results| && forall j | 0 <= j < k :: results[j].Lands()
    ensures Landed(batches, results, k) == batches[..k]
  {
    if k > 0 {
      FirstLand(batches, results, k - 1);
      assert batches[..k] == batches[..k - 1] + [batches[k - 1]];
    }
  }

  lemma {:induction false} LandedIsPrefix(batches: seq<seq<Change>>, results: seq<ApplyResult>, m: nat, n: nat)
    requires m <= n <= |batches| && n <= |results|
    ensures Landed(batches, results, m) <= Landed(batches, results, n)
  {
    if m < n {
      LandedIsPrefix(batches, results, m, n - 1);
    }
  }

  lemma {:induction false} ReceivedIsAll(ds: seq<Delivery>, batches: seq<seq<Change>>)
    requires |ds| == |batches| && forall j | 0 <= j < |ds| :: ds[j].changes == batches[j]
    ensures Received(ds) == AllChanges(batches)
  {
    if ds != [] {
      var n := |ds| - 1;
      ReceivedIsAll(ds[..n], batches[..n]);
      assert batches == batches[..n] + [batches[n]];
    }
  }

  /** Acceptable, decodable batches whose delete-log rows arrive whole all commit. */
  lemma {:induction false} AllCommit(
      env: Env, batches: seq<seq<Change>>, nows: seq<nat>, results: seq<ApplyResult>, ds: seq<Delivery>, k: nat)
    requires |results| == |batches| == |nows| && Follows(env, batches, nows, results, ds) && k <= |batches|
    requires Coherent(env, AllChanges(batches))
    requires forall j | 0 <= j < |batches| ::
               (forall c | c in batches[j] :: Acceptable(env, c, nows[j])) && Decodable(env, batches[j])
               && CompleteLog(env, AllChanges(batches[..j]))
    ensures forall j | 0 <= j < k :: results[j].Lands()
  {
    hide Coherent, CompleteLog, Acceptable, Decodable, LogReadable, WellDelivered, StateAfter, Inv, Received, Landed, AllChanges;
    if k > 0 {
      var n := k - 1;
      AllCommit(env, batches, nows, results, ds, n);
      AllLand(env, batches, nows, results, ds, n);
      var before := ds[..n];
      ReceivedIsAll(before, batches[..n]);
      AllOfPrefix(batches, n);
      assert Coherent(env, AllChanges(batches[..n])) by {
        assert AllChanges(batches[..n]) + AllChanges(batches) == AllChanges(batches);
        CoherentSubset(env, AllChanges(batches[..n]), AllChanges(batches));
      }
      RunInvariant(env, before);
      CompleteLogIsReadable(env, AllChanges(batches[..n]), StateAfter(env, before));
      assert LandsWhenItCan(env, batches, nows, results, ds, n);
    }
  }

  lemma AllOfPrefix(batches: seq<seq<Change>>, n: nat)
    requires n <= |batches|
    ensures AllChanges(batches[..n]) <= AllChanges(batches)
  {
  }

  /** The run of a list of batches that all commit has exactly their deliveries. */
  lemma RunOfAll(env: Env, batches: seq<seq<Change>>, nows: seq<nat>, results: seq<ApplyResult>, ds: seq<Delivery>)
    requires |results| == |batches| == |nows| && Follows(env, batches, nows, results, ds)
    requires Coherent(env, AllChanges(batches))
    requires forall j | 0 <= j < |batches| ::
               (forall c | c in batches[j] :: Acceptable(env, c, nows[j])) && Decodable(env, batches[j])
               && CompleteLog(env, AllChanges(batches[..j]))
    ensures |ds| == |batches| && WellRun(env, ds) && forall j | 0 <= j < |ds| :: ds[j].changes == batches[j]
  {
    hide Coherent, CompleteLog, Acceptable, Decodable, WellDelivered, LandsWhenItCan;
    AllCommit(env, batches, nows, results, ds, |batches|);
    AllLand(env, batches, nows, results, ds, |batches|);
    assert |ChangesOf(ds)| == |ds|;
  }

  /** Batches that every replica commits: acceptable, decodable, and no delete-log row is ever there in part. */
  ghost predicate AlwaysCommit(env: Env, batches: seq<seq<Change>>, now: nat) {
    forall j | 0 <= j < |batches| ::
      (forall c | c in batches[j] :: Acceptable(env, c, now)) && Decodable(env, batches[j])
      && CompleteLog(env, AllChanges(batches[..j]))
  }

  /**
   * An unsettled column on two replica objects, each handed the received
   * changes in batches of any number and size: one gets all data before the
   * deletes, the other the column and the deletes before the rest. Both
   * commit every batch, and only the first has the column.
   */
  method OrderShows(
      r1: Replica, r2: Replica, env: Env, cb: Callbacks, ghost recv: set<Change>, ghost id: RowId, ghost column: string,
      data: seq<seq<Change>>, deletes: seq<seq<Change>>, early: seq<seq<Change>>, late: seq<seq<Change>>, now: nat)
    requires r1 != r2 && r1.rows == map[] && r2.rows == map[] && Plain(env, cb)
    requires Coherent(env, recv) && !Settled(env, recv, id, column)
    requires AllChanges(data) == recv - LogPart(recv) && AllChanges(deletes) == LogPart(recv)
    requires AllChanges(early) == ColumnPart(env, recv, id, column) + LogPart(recv)
    requires AllChanges(late) == recv - LogPart(recv) - ColumnPart(env, recv, id, column)
    requires AlwaysCommit(env, data + deletes, now) && AlwaysCommit(env, early + late, now)
    modifies r1, r1.clock, r2, r2.clock
    ensures CellAt(r1.rows, id, column).hlc.Some? && CellAt(r2.rows, id, column).hlc.None?
  {
    hide Coherent, AlwaysCommit, Follows, Settled, Plain, Unambiguous, LogCoherent, AllChanges, Received, StateAfter, CellAt,
         OutlivesTombstones, Hits, WellRun;
    AllOfBoth(data, deletes);
    AllOfBoth(early, late);
    UnsettledParts(env, recv, id, column);
    CoherenceOf(env, recv);
    var results1, results2;
    ghost var ds1, ds2;
    var nows1, nows2 := seq(|data + deletes|, _ => now), seq(|early + late|, _ => now);
    results1, ds1 := DeliverAll(r1, env, cb, data + deletes, nows1, nows1);
    results2, ds2 := DeliverAll(r2, env, cb, early + late, nows2, nows2);
    DataFirstKeeps(env, recv, id, column, data, deletes, now, results1, ds1);
    DeletesBetweenDrop(env, recv, id, column, early, late, now, results2, ds2);
  }

  lemma CoherenceOf(env: Env, recv: set<Change>)
    requires Coherent(env, recv)
    ensures Unambiguous(env, recv) && LogCoherent(env, recv)
  {
  }

  lemma AllOfBoth(a: seq<seq<Change>>, b: seq<seq<Change>>)
    ensures AllChanges(a + b) == AllChanges(a) + AllChanges(b)
  {
    forall c
      ensures c in AllChanges(a + b) <==> c in AllChanges(a) || c in AllChanges(b)
    {
      if x :| x in a + b && c in x {
        assert x in a || x in b;
      }
      if x :| x in a && c in x {
        assert x in a + b;
      }
      if x :| x in b && c in x {
        assert x in a + b;
      }
    }
  }

  lemma UnsettledParts(env: Env, recv: set<Change>, id: RowId, column: string)
    ensures recv - LogPart(recv) + LogPart(recv) == recv
    ensures ColumnPart(env, recv, id, column) + LogPart(recv) + (recv - LogPart(recv) - ColumnPart(env, recv, id, column)) == recv
  {
    hide Hits;
  }

  /** The run of two lists of batches that all commit is a run of the first list followed by one of the second. */
  lemma RunSplits(
      env: Env, a: seq<seq<Change>>, b: seq<seq<Change>>, now: nat, results: seq<ApplyResult>, ds: seq<Delivery>)
    requires |results| == |a + b| && Follows(env, a + b, seq(|a + b|, _ => now), results, ds)
    requires Coherent(env, AllChanges(a + b)) && AlwaysCommit(env, a + b, now)
    ensures |ds| == |a + b| && WellRun(env, ds) && WellRun(env, ds[..|a|]) && WellRun(env, ds[|a|..])
    ensures ds == ds[..|a|] + ds[|a|..]
    ensures Received(ds[..|a|]) == AllChanges(a) && Received(ds[|a|..]) == AllChanges(b)
  {
    hide Coherent, Follows, AllChanges, Received, WellDelivered, CompleteLog, Acceptable, Decodable;
    RunOfAll(env, a + b, seq(|a + b|, _ => now), results, ds);
    ReceivedIsAll(ds[..|a|], a);
    ReceivedIsAll(ds[|a|..], b);
  }

  /** The run ends in a state that has, or has not, a stored cell for the column. */
  ghost predicate EndsWithCell(env: Env, ds: seq<Delivery>, id: RowId, column: string, present: bool) {
    WellRun(env, ds) && CellAt(StateAfter(env, ds), id, column).hlc.Some? == present
  }

  lemma DataFirstKeeps(
      env: Env, recv: set<Change>, id: RowId, column: string, data: seq<seq<Change>>, deletes: seq<seq<Change>>, now: nat,
      results: seq<ApplyResult>, ds: seq<Delivery>)
    requires |results| == |data + deletes| && Follows(env, data + deletes, seq(|data + deletes|, _ => now), results, ds)
    requires AlwaysCommit(env, data + deletes, now)
    requires AllChanges(data) == recv - LogPart(recv) && AllChanges(deletes) == LogPart(recv)
    requires Coherent(env, recv) && !Settled(env, recv, id, column) && AllChanges(data + deletes) == recv
    ensures EndsWithCell(env, ds, id, column, true)
  {
    hide Coherent, Follows, AlwaysCommit, AllChanges, Received, StateAfter, CellAt, Hits, TombsOf, WellRun, AboveAll;
    RunSplits(env, data, deletes, now, results, ds);
    UnsettledIsNoLogRow(env, recv, id, column);
    var c :| c in HitsOf(env, recv, id) && c.column == column;
    DeletesLast(env, recv, id, c, ds[..|data|], ds[|data|..]);
  }

  lemma DeletesBetweenDrop(
      env: Env, recv: set<Change>, id: RowId, column: string, early: seq<seq<Change>>, late: seq<seq<Change>>, now: nat,
      results: seq<ApplyResult>, ds: seq<Delivery>)
    requires |results| == |early + late| && Follows(env, early + late, seq(|early + late|, _ => now), results, ds)
    requires AlwaysCommit(env, early + late, now)
    requires AllChanges(early) == ColumnPart(env, recv, id, column) + LogPart(recv)
    requires AllChanges(late) == recv - LogPart(recv) - ColumnPart(env, recv, id, column)
    requires Coherent(env, recv) && !Settled(env, recv, id, column) && AllChanges(early + late) == recv
    ensures EndsWithCell(env, ds, id, column, false)
  {
    hide Coherent, Follows, AlwaysCommit, AllChanges, Received, StateAfter, CellAt, Hits, TombsOf, WellRun, AboveAll;
    RunSplits(env, early, late, now, results, ds);
    UnsettledIsNoLogRow(env, recv, id, column);
    DeletesBetween(env, recv, id, column, ds[..|early|], ds[|early|..]);
  }

  /** In a reachable state a committed accept-everything batch reports as applied what the pure step writes. */
  lemma CommittedCounts(
      env: Env, recv: set<Change>, rows: Rows, changes: seq<Change>, groups: seq<seq<Indexed>>, ids: set<string>,
      written: seq<Cand>, rows': Rows, outcome: Outcome)
    requires Inv(env, recv, rows) && Coherent(env, recv + AsSet(changes))
    requires PlainEffect(env, changes, rows, groups, ids, written, rows')
    requires exists max :: Account(changes, outcome, max, written)
    ensures IsGrouping(changes, groups) && (forall i | 0 <= i < |groups| :: groups[i] != [])
    ensures outcome.report.applied == |AllWrites(env, rows, groups, |groups|)|
  {
    hide Inv, IsGrouping, RowsAfter, AllWrites, NamesLogId, LogTargetsNoLog, LogCoherent, Unambiguous, Vetted, LogInv, BatchStep,
         FoldMax, IsTimestamp;
    CoherentSubset(env, recv, AsSet(changes));
    InvIsLogInv(env, recv, rows);
    LogTargetsStayOut(env, recv, rows);
    GroupingShape(changes, groups);
    var max :| Account(changes, outcome, max, written);
    assert outcome.report.applied == |written|;
  }

  /**
   * The same batch twice on a replica object in a reachable state. When both
   * calls commit, the second reports nothing applied and leaves the rows
   * alone if and only if the first left nothing behind.
   */
  method ApplyTwice(
      r: Replica, env: Env, cb: Callbacks, ghost recv: set<Change>, changes: seq<Change>, now1: nat, later1: nat, now2: nat, later2: nat)
    returns (first: ApplyResult, again: ApplyResult, ghost between: Rows, ghost d: Delivery)
    requires Inv(env, recv, r.rows) && Coherent(env, recv + AsSet(changes)) && Plain(env, cb)
    modifies r, r.clock
    ensures first.Lands() <==> Commits(env, changes, now1, old(r.rows))
    ensures first.Lands() ==>
              && d.changes == changes && Meets(env, recv, old(r.rows), d) && WellDelivered(env, d)
              && between == Next(env, old(r.rows), d)
              && (again.Lands() <==> Commits(env, changes, now2, between))
    ensures first.Lands() && again.Lands() ==>
              ((r.rows == between && again.outcome.report.applied == 0) <==> NothingLeftBehind(env, recv, old(r.rows), d))
    ensures first.Lands() && again.Lands() && OneSpelling(env, AsSet(changes)) ==>
              r.rows == between && again.outcome.report.applied == 0
  {
    hide Inv, Coherent, Plain, PlainEffect, Account, Acceptable, Next, NothingLeftBehind, OneSpelling, Decodable, LogReadable,
         IsGrouping, NamesLogId, AllWrites;
    PlainPassesPreflight(env, cb);
    ghost var before := r.rows;
    ghost var groups, ids, written;
    first, groups, ids, written := r.ApplyRemoteChanges(env, cb, changes, now1, later1);
    again, between, d := first, r.rows, Delivery(changes, groups, ids);
    if !first.Lands() {
      return;
    }
    CommittedIsNext(env, recv, before, changes, groups, ids, written, r.rows);
    StepKeepsInv(env, recv, before, d);
    ghost var all := recv + AsSet(changes);
    ghost var groups2, ids2, written2;
    again, groups2, ids2, written2 := r.ApplyRemoteChanges(env, cb, changes, now2, later2);
    if again.Lands() {
      ghost var d2 := Delivery(changes, groups2, ids2);
      assert all + AsSet(changes) == all;
      CommittedIsNext(env, all, between, changes, groups2, ids2, written2, r.rows);
      CommittedCounts(env, all, between, changes, groups2, ids2, written2, r.rows, again.outcome);
      BatchReplayIff(env, recv, before, d, d2);
      assert NoOp(env, between, d2) <==> r.rows == between && again.outcome.report.applied == 0;
      if OneSpelling(env, AsSet(changes)) {
        ReplayIsNoOp(env, recv, before, d, d2);
      }
    }
  }
}
