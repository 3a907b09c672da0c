/** Concrete inputs on which the conditional laws fail, so that their conditions are not idle. */
module Witness {
  import opened Common
  import opened Hlc
  import opened Values
  import opened Model
  import opened RowMerge
  import opened Deletes
  import opened RowInvariant
  import opened Convergence
  import opened Runs
  import opened Order
  import opened Replay
  import opened TextOrder
  import opened Scanner
  import opened Pagination
  import opened CursorScan
  import opened RoundTrip
  import InsertRewrite
  import InsertMeaning

  const DATA_COLUMNS := [ColumnInfo("id", true), ColumnInfo("a", false), ColumnInfo("b", false),
                         ColumnInfo(HLC_COLUMN, false), ColumnInfo(COLUMN_HLCS_COLUMN, false)]
  const LOG_COLUMNS := [ColumnInfo("id", true), ColumnInfo(LOG_TARGET_TABLE, false), ColumnInfo(LOG_TARGET_PKS, false),
                        ColumnInfo(HLC_COLUMN, false), ColumnInfo(COLUMN_HLCS_COLUMN, false)]

  const DATA_KEY: Key := map["id" := JString("k")]
  const TOMB_KEY: Key := map["id" := JString("d")]

  /** "x", "y" and the printed form parse to the same key, as JSON texts that differ in white space do. */
  function ParsePks(s: string): Option<Key> {
    if s == "x" || s == "y" || s == "{:}" then Some(DATA_KEY) else if s == "z" then Some(TOMB_KEY) else None
  }

  const ENV := Env(
    map["t" := DATA_COLUMNS, LOG_TABLE := LOG_COLUMNS], ParsePks, (j: Json) => "", (c: char) => true,
    (id: RowId, row: Row, column: string, text: string) => false, (ticks: nat) => ticks <= 1, 16)

  const ROW := RowId("t", DATA_KEY)

  const OLD := Change("t", "x", "a", "1/1", JNumber(1), "", None)
  const NEW_ := Change("t", "x", "b", "3/1", JNumber(2), "", None)
  const NEW_RESPELT := Change("t", "y", "b", "3/1", JNumber(2), "", None)
  const TOMB_PKS := Change(LOG_TABLE, "z", LOG_TARGET_PKS, "2/1", JString("x"), "", None)
  const TOMB_TABLE := Change(LOG_TABLE, "z", LOG_TARGET_TABLE, "2/1", JString("t"), "", None)

  lemma OneDigit(c: char)
    requires '1' <= c <= '9'
    ensures IsTimestamp([c] + "/1") && Time([c] + "/1") == (c - '0') as nat && Node([c] + "/1") == 1
  {
    var s := [c] + "/1";
    assert s[1..] == "/1" && SlashAt("/1") == 0 && SlashAt(s) == 1;
    assert TimePart(s) == [c] && NodePart(s) == "1";
    assert [c][..0] == "" && "1"[..0] == "";
    assert ParseDigits([c], 10) == Some((c - '0') as nat);
    assert ParseDigits("1", 16) == Some(1);
    assert s[1] in s;
  }

  lemma Stamps()
    ensures IsTimestamp("1/1") && IsTimestamp("2/1") && IsTimestamp("3/1")
    ensures Rank("1/1") < Rank("2/1") < Rank("3/1")
  {
    hide IsTimestamp, Time, Node;
    OneDigit('1');
    OneDigit('2');
    OneDigit('3');
    assert ['1'] + "/1" == "1/1" && ['2'] + "/1" == "2/1" && ['3'] + "/1" == "3/1";
  }

  lemma SinglePk(columns: seq<ColumnInfo>)
    requires columns == DATA_COLUMNS || columns == LOG_COLUMNS
    ensures PkNames(columns) == {"id"} && CarriesCrdtMetadata(columns)
  {
    assert columns[0] in columns && columns[3] in columns && columns[4] in columns;
  }

  lemma Identities()
    ensures Identify(ENV, "t", "x") == Known(DATA_KEY) && Identify(ENV, "t", "y") == Known(DATA_KEY)
    ensures Identify(ENV, LOG_TABLE, "z") == Known(TOMB_KEY)
  {
    hide PkNames, CarriesCrdtMetadata;
    SinglePk(DATA_COLUMNS);
    SinglePk(LOG_COLUMNS);
  }

  lemma DataWritable()
    ensures Eligible(ENV, "t", "a") && Eligible(ENV, "t", "b")
  {
    hide PkNames;
    SinglePk(DATA_COLUMNS);
    assert DATA_COLUMNS[1] in DATA_COLUMNS && DATA_COLUMNS[2] in DATA_COLUMNS;
  }

  lemma LogWritable()
    ensures Eligible(ENV, LOG_TABLE, LOG_TARGET_TABLE) && Eligible(ENV, LOG_TABLE, LOG_TARGET_PKS)
  {
    hide PkNames;
    SinglePk(LOG_COLUMNS);
    assert LOG_COLUMNS[1] in LOG_COLUMNS && LOG_COLUMNS[2] in LOG_COLUMNS;
  }

  /** What each of the five changes addresses. */
  lemma WhatTheyHit()
    ensures Hits(ENV, OLD, ROW) && Hits(ENV, NEW_, ROW) && Hits(ENV, NEW_RESPELT, ROW)
    ensures LogHit(ENV, TOMB_PKS, LogRow("d")) && LogHit(ENV, TOMB_TABLE, LogRow("d"))
    ensures forall id :: Hits(ENV, TOMB_PKS, id) || Hits(ENV, TOMB_TABLE, id) ==> id == LogRow("d")
    ensures forall id :: Hits(ENV, OLD, id) || Hits(ENV, NEW_, id) || Hits(ENV, NEW_RESPELT, id) ==> id == ROW
  {
    hide Identify, Eligible, IsTimestamp;
    Stamps();
    Identities();
    DataWritable();
    LogWritable();
    CompleteStamps();
    assert TOMB_KEY == map[LOG_ID := JString("d")];
  }

  lemma CompleteStamps()
    ensures IsComplete("1/1") && IsComplete("2/1") && IsComplete("3/1")
  {
    assert "1/1"[1] == '/' && "2/1"[1] == '/' && "3/1"[1] == '/';
  }

  predicate Among(recv: set<Change>) {
    recv <= {OLD, NEW_, TOMB_PKS, TOMB_TABLE} || recv <= {OLD, NEW_RESPELT, TOMB_PKS, TOMB_TABLE}
  }

  lemma AllUnambiguous(recv: set<Change>)
    requires Among(recv)
    ensures Unambiguous(ENV, recv)
  {
    hide Hits, Rank;
    assert forall a, b | a in recv && b in recv && a.column == b.column :: a == b;
  }

  lemma OneDelete(recv: set<Change>)
    requires Among(recv)
    ensures LogCoherent(ENV, recv)
  {
    hide Hits, Rank;
    WhatTheyHit();
    forall c, l | c in recv && LogHit(ENV, c, l)
      ensures l == LogRow("d") && (c == TOMB_PKS || c == TOMB_TABLE)
    {
      assert ROW.table != LOG_TABLE;
    }
    assert Decoded(ENV, TOMB_PKS) == Text("x") && Decoded(ENV, TOMB_TABLE) == Text("t");
    assert |LOG_TABLE| > 1;
  }

  lemma AllVetted(recv: set<Change>)
    requires Among(recv)
    ensures Vetted(ENV, recv)
  {
    hide IsTimestamp, IsComplete, SafeIdentifier;
    forall c | c in recv
      ensures SafeIdentifier(ENV, c.table) && IsTimestamp(c.hlc)
    {
      EachIsVetted(c);
    }
  }

  lemma EachIsVetted(c: Change)
    requires c == OLD || c == NEW_ || c == NEW_RESPELT || c == TOMB_PKS || c == TOMB_TABLE
    ensures SafeIdentifier(ENV, c.table) && IsTimestamp(c.hlc)
  {
    hide IsTimestamp, SafeIdentifier;
    Stamps();
    SafeNames();
  }

  lemma SafeNames()
    ensures SafeIdentifier(ENV, "t") && SafeIdentifier(ENV, LOG_TABLE)
  {
  }

  lemma AllCoherent(recv: set<Change>)
    requires Among(recv)
    ensures Coherent(ENV, recv)
  {
    hide Unambiguous, LogCoherent, Vetted, Among;
    AllUnambiguous(recv);
    OneDelete(recv);
    AllVetted(recv);
  }

  lemma TombstoneOfRow(recv: set<Change>)
    requires Among(recv) && TOMB_PKS in recv && TOMB_TABLE in recv
    ensures TombsOf(ENV, recv, ROW) == {Rank("2/1")}
  {
    hide Hits, Rank, Identify;
    WhatTheyHit();
    Identities();
    assert LogRow("d") == RowId(LOG_TABLE, TOMB_KEY);
    assert Declares(ENV, TOMB_PKS, TOMB_TABLE, LogRow("d"), ROW);
    assert IsTombstone(ENV, recv, TOMB_PKS, ROW);
    forall p | p in recv && IsTombstone(ENV, recv, p, ROW)
      ensures p == TOMB_PKS
    {
      var t :| t in recv && Declares(ENV, p, t, RowId(p.table, Identify(ENV, p.table, p.pks).key), ROW);
    }
  }

  lemma HitsOfRow(recv: set<Change>)
    requires recv == {OLD, NEW_, TOMB_PKS, TOMB_TABLE}
    ensures HitsOf(ENV, recv, ROW) == {OLD, NEW_}
  {
    hide Hits, Rank;
    WhatTheyHit();
    assert ROW != LogRow("d");
  }

  lemma OldIsUnsettled(recv: set<Change>)
    requires recv == {OLD, NEW_, TOMB_PKS, TOMB_TABLE}
    ensures !Settled(ENV, recv, ROW, "a")
  {
    hide HitsOf, Rank, TombsOf, Among, Alive, AboveAll;
    FourAreAmong(recv);
    TombstoneOfRow(recv);
    HitsOfRow(recv);
    var hits := HitsOf(ENV, recv, ROW);
    assert OLD in hits && OLD.column == "a";
    OldBelowNewAbove(hits, TombsOf(ENV, recv, ROW));
  }

  lemma OldBelowNewAbove(hits: set<Change>, tombs: set<nat>)
    requires OLD in hits && NEW_ in hits && tombs == {Rank("2/1")}
    requires forall c | c in hits && c.column == "a" :: c == OLD
    ensures Alive(hits, tombs) && !exists c :: c in hits && c.column == "a" && AboveAll(c, tombs)
  {
    hide Rank;
    Stamps();
    assert AboveAll(NEW_, tombs) && !AboveAll(OLD, tombs);
  }

  lemma FourAreAmong(recv: set<Change>)
    requires recv == {OLD, NEW_, TOMB_PKS, TOMB_TABLE}
    ensures Among(recv)
  {
  }

  /**
   * Column a at 1, a tombstone at 2, column b at 3: the row lives, but whether
   * it has column a depends on the order of delivery.
   */
  lemma OrderMatters()
    ensures Coherent(ENV, {OLD, NEW_, TOMB_PKS, TOMB_TABLE})
    ensures !OrderIndependent(ENV, {OLD, NEW_, TOMB_PKS, TOMB_TABLE}, ROW, "a")
  {
    hide Settled, OrderIndependent, Coherent, Among;
    var recv := {OLD, NEW_, TOMB_PKS, TOMB_TABLE};
    FourAreAmong(recv);
    AllCoherent(recv);
    OldIsUnsettled(recv);
    OrderIndependenceIff(ENV, recv, ROW, "a");
  }

  const TOMB := {TOMB_PKS, TOMB_TABLE}

  lemma TombIsAmong()
    ensures Among(TOMB)
  {
  }

  lemma NoHitsYet()
    ensures !Alive(HitsOf(ENV, TOMB, ROW), {Rank("2/1")})
  {
    hide Hits, Rank;
    WhatTheyHit();
    assert ROW != LogRow("d");
  }

  /** The delete alone, delivered to an empty replica. */
  lemma DeleteFirst() returns (rows: Rows)
    ensures Inv(ENV, TOMB, rows) && TombsAre(ENV, rows, ROW, {Rank("2/1")}) && ROW !in rows
  {
    hide Inv, Coherent, Next, TombsAre, TombsOf, IsGrouping, NamesLogId, Among, HitsOf, LogInv, Rank;
    TombIsAmong();
    AllCoherent(TOMB);
    var d := OneBatch(ENV, TOMB);
    assert {} + AsSet(d.changes) == TOMB;
    EmptyInv(ENV);
    StepKeepsInv(ENV, {}, map[], d);
    rows := Next(ENV, map[], d);
    assert LogInv(ENV, TOMB, rows) by {
      assert LogCoherent(ENV, TOMB) by {
        OneDelete(TOMB);
      }
      InvIsLogInv(ENV, TOMB, rows);
    }
    LogMatchesCoherent(ENV, TOMB, rows, ROW);
    TombstoneOfRow(TOMB);
    InvRow(ENV, TOMB, rows, ROW);
    NoHitsYet();
  }

  function Alone(index: nat, c: Change): (group: seq<Indexed>)
    ensures |group| == 1
  {
    [Indexed(index, c)]
  }

  lemma AloneHits(index: nat, c: Change)
    requires c == OLD || c == NEW_RESPELT
    ensures Uniform(Alone(index, c)) && Names(ENV, Alone(index, c), ROW)
    ensures GroupHits(ENV, Alone(index, c), ROW) == {c} && HitsParsed(ENV, Alone(index, c), ROW)
  {
    hide Hits, Identify, IsTimestamp, Rank;
    WhatTheyHit();
    Identities();
    Stamps();
    TimestampsOutrankTheEmpty(c.hlc);
    assert Alone(index, c)[0] in Alone(index, c);
  }

  /** A group whose only hit is below the tombstone does not bring an absent row; one above it brings just its column. */
  lemma OneHit(rows0: Rows, rows: Rows, group: seq<Indexed>, c: Change, tomb: nat)
    requires Uniform(group) && Names(ENV, group, ROW) && GroupHits(ENV, group, ROW) == {c} && HitsParsed(ENV, group, ROW)
    requires TombsAre(ENV, rows0, ROW, {tomb}) && ROW !in rows
    ensures Rank(c.hlc) <= tomb ==> ROW !in GroupEffect(ENV, rows0, rows, group)
    ensures Rank(c.hlc) > tomb ==>
              ROW in GroupEffect(ENV, rows0, rows, group) &&
              forall column | column in GroupEffect(ENV, rows0, rows, group)[ROW].hlcs :: column == c.column
  {
    hide TombsAre, GroupEffect, Rank, Uniform, Names, HitsParsed, GroupHits;
    GroupKeepsRow(ENV, rows0, rows, group, ROW, {}, {tomb});
    assert {} + {c} == {c};
    assert AboveAll(c, {tomb}) <==> Rank(c.hlc) > tomb;
  }

  /** The two changes one by one: the first is shadowed, the second inserts the row without column a. */
  lemma RowWithoutOld(rows: Rows)
    requires TombsAre(ENV, rows, ROW, {Rank("2/1")}) && ROW !in rows
    ensures var rows1 := GroupEffect(ENV, rows, rows, Alone(0, OLD));
            var rows2 := GroupEffect(ENV, rows, rows1, Alone(1, NEW_RESPELT));
            ROW in rows2 && "a" !in rows2[ROW].hlcs
  {
    hide TombsAre, GroupEffect, Rank, Uniform, Names, HitsParsed, GroupHits, Alone;
    Stamps();
    var tomb := Rank("2/1");
    AloneHits(0, OLD);
    OneHit(rows, rows, Alone(0, OLD), OLD, tomb);
    AloneHits(1, NEW_RESPELT);
    OneHit(rows, GroupEffect(ENV, rows, rows, Alone(0, OLD)), Alone(1, NEW_RESPELT), NEW_RESPELT, tomb);
  }

  function RespeltDelivery(): Delivery {
    Delivery([OLD, NEW_RESPELT], [Alone(0, OLD), Alone(1, NEW_RESPELT)], {})
  }

  lemma RespeltIsWellDelivered()
    ensures WellDelivered(ENV, RespeltDelivery()) && AsSet(RespeltDelivery().changes) == {OLD, NEW_RESPELT}
  {
    hide Admitted, Identify;
    var d := RespeltDelivery();
    assert "t" != LOG_TABLE;
    assert Tagged(d.changes) == [Indexed(0, OLD), Indexed(1, NEW_RESPELT)];
    assert d.groups[0] in d.groups && d.groups[1] in d.groups;
  }

  /**
   * One row under two spellings of its key: behind a tombstone at 2, column a
   * at 1 is shadowed, column b at 3 inserts the row, and a second delivery of
   * the same batch then writes column a after all.
   */
  lemma RespellingBreaksReplay() returns (rows: Rows, d: Delivery)
    ensures Inv(ENV, TOMB, rows) && Coherent(ENV, TOMB + AsSet(d.changes)) && WellDelivered(ENV, d)
    ensures !NoOp(ENV, Next(ENV, rows, d), d)
  {
    hide Inv, Coherent, WellDelivered, NoOp, AsSet, Among, GroupEffect, TombsAre, Hits, Rank;
    rows := DeleteFirst();
    d := RespeltDelivery();
    RespeltIsWellDelivered();
    var all := TOMB + {OLD, NEW_RESPELT};
    assert Among(all) by {
      FiveAreAmong(all);
    }
    AllCoherent(all);
    StepKeepsInv(ENV, TOMB, rows, d);
    RowWithoutOld(rows);
    NextOfRespelt(rows);
    WhatTheyHit();
    var after := Next(ENV, rows, d);
    assert OLD in AsSet(d.changes) && !Covers(after[ROW], OLD);
    assert !AllCovered(ENV, after, AsSet(d.changes));
    ReplayIff(ENV, all, after, d);
  }

  lemma FiveAreAmong(recv: set<Change>)
    requires recv == TOMB + {OLD, NEW_RESPELT}
    ensures Among(recv)
  {
  }

  lemma NextOfRespelt(rows: Rows)
    ensures var rows1 := GroupEffect(ENV, rows, rows, Alone(0, OLD));
            var rows2 := GroupEffect(ENV, rows, rows1, Alone(1, NEW_RESPELT));
            WellDelivered(ENV, RespeltDelivery()) && Next(ENV, rows, RespeltDelivery()) == rows2
  {
    hide GroupEffect, WellDelivered;
    RespeltIsWellDelivered();
    var d := RespeltDelivery();
    assert RowsAfter(ENV, rows, d.groups, 0) == rows;
    assert RowsAfter(ENV, rows, d.groups, 1) == GroupEffect(ENV, rows, rows, d.groups[0]);
    assert d.groups[0] == Alone(0, OLD) && d.groups[1] == Alone(1, NEW_RESPELT) && |d.groups| == 2;
  }

  const TEN := Row(Some("10/1"), map["a" := Integer(1)], map["a" := "10/1"], map[])

  lemma TenIsNewerThanNine()
    ensures Newer("10/1", "9/1") && !TextLess("9/1", "10/1") && "10/1" != ""
  {
    assert SlashAt("10/1") == 2 && SlashAt("9/1") == 1;
    assert TimePart("10/1") == "10" && TimePart("9/1") == "9";
    assert "10"[..1] == "1" && "1"[..0] == "" && "9"[..0] == "";
    assert ParseDigits("1", 10) == Some(1) && ParseDigits("10", 10) == Some(10) && ParseDigits("9", 10) == Some(9);
    assert Time("10/1") == 10 && Time("9/1") == 9;
  }

  lemma ColumnAIsData()
    ensures DATA_COLUMNS[1] in DataColumns(DATA_COLUMNS) && DATA_COLUMNS[2] in DataColumns(DATA_COLUMNS)
  {
    hide EndsWith;
    DataColumnsMembers(DATA_COLUMNS);
    assert DATA_COLUMNS[1] in DATA_COLUMNS && DATA_COLUMNS[2] in DATA_COLUMNS;
    ShortNamesSync();
    assert DATA_COLUMNS[1] == ColumnInfo("a", false) && DATA_COLUMNS[2] == ColumnInfo("b", false);
    assert IsDataColumn(DATA_COLUMNS[1]) && IsDataColumn(DATA_COLUMNS[2]);
  }

  lemma ShortNamesSync()
    ensures !EndsWith("a", NO_SYNC_SUFFIX) && !EndsWith("b", NO_SYNC_SUFFIX)
  {
  }

  lemma TenIsHidden()
    ensures HidesNews(ENV, ROW, TEN, "9/1", NO_FILTERS)
  {
    hide Newer, TextLess, DataColumns;
    TenIsNewerThanNine();
    ColumnAIsData();
    assert EffectiveHlc(TEN, DATA_COLUMNS[1].name) == Some("10/1");
  }

  /** A row at ten, scanned since nine: as text "10/1" comes before "9/1", so the scan since the cursor loses the row's change. */
  lemma CursorLosesNews(device: string)
    ensures ScanOf(ENV, map[ROW := TEN], [ROW], Some("9/1"), NO_FILTERS, device) !=
            NewerThan(ScanOf(ENV, map[ROW := TEN], [ROW], None, NO_FILTERS, device), "9/1")
  {
    hide HidesNews, ScanOf, NewerThan;
    TenIsHidden();
    assert ROW in [ROW];
    CursorScanIff(ENV, map[ROW := TEN], [ROW], "9/1", NO_FILTERS, device);
  }

  const HALF := Row(None, map["a" := Integer(1)], map["a" := "1/1"], map[])

  /**
   * A row with a stamp for column a and none for column b, synced to an empty
   * peer: the peer's scan ships column b as well, under the row HLC.
   */
  lemma HalfStampedRescansDifferently(d: Delivery, order': seq<RowId>, again: string)
    requires FirstSync(ENV, map[ROW := HALF], "t", map[]) && WellDelivered(ENV, d) && Vetted(ENV, AsSet(d.changes))
    requires d.changes == ScanOf(ENV, map[ROW := HALF], [ROW], None, NO_FILTERS, "")
    requires Lists(TableRows(Next(ENV, map[], d), "t"), order')
    ensures multiset(ScanOf(ENV, Next(ENV, map[], d), order', None, NO_FILTERS, again)) !=
            multiset(ScanOf(ENV, map[ROW := HALF], [ROW], None, NO_FILTERS, again))
  {
    hide FirstSync, IsGrouping, NamesLogId, Vetted, Next, ScanOf, DataColumns;
    ColumnAIsData();
    assert Members([ROW]) == TableRows(map[ROW := HALF], "t");
    assert EffectiveHlc(HALF, "a") == Some("1/1") && EffectiveHlc(HALF, "b") == None;
    assert !Silent(ENV, ROW, HALF) by {
      assert EffectiveHlc(HALF, DATA_COLUMNS[1].name).Some?;
    }
    assert !FullyStamped(ENV, ROW, HALF) by {
      assert EffectiveHlc(HALF, DATA_COLUMNS[2].name).None?;
    }
    assert !AllOrNothing(ENV, map[ROW := HALF], "t") by {
      assert ROW in map[ROW := HALF];
    }
    TableRescanIff(ENV, map[ROW := HALF], "t", map[], [ROW], "", d, order', again);
  }

  /** `HalfStampedRescansDifferently` speaks of a sync that can happen. */
  lemma HalfCanSync()
    ensures FirstSync(ENV, map[ROW := HALF], "t", map[])
  {
    hide Travels, CarriesCrdtMetadata, PkText, KeyFits, PkNames;
    SinglePk(DATA_COLUMNS);
    HalfTravels();
    NamesDiffer();
    assert "t" != LOG_TABLE;
  }

  lemma NamesDiffer()
    ensures UniqueNames(DATA_COLUMNS)
  {
    assert |HLC_COLUMN| != |COLUMN_HLCS_COLUMN|;
  }

  lemma HalfTravels()
    ensures Travels(ENV, ROW, HALF)
  {
    hide IsTimestamp, PkText, KeyFits, ParsePks;
    Stamps();
    PrintedHalf();
    KeyOfRow();
  }

  lemma KeyOfRow()
    ensures KeyFits(ENV, DATA_COLUMNS, DATA_KEY) && ParsePks("{:}") == Some(DATA_KEY)
  {
    hide PkNames;
    SinglePk(DATA_COLUMNS);
  }

  lemma OnePkColumn()
    ensures PkColumns(DATA_COLUMNS) == [ColumnInfo("id", true)]
  {
    var id, a, b, h := DATA_COLUMNS[0], DATA_COLUMNS[1], DATA_COLUMNS[2], DATA_COLUMNS[3];
    assert DATA_COLUMNS[..4] == [id, a, b, h];
    assert [id, a, b, h][..3] == [id, a, b];
    assert [id, a, b][..2] == [id, a];
    assert [id, a][..1] == [id];
    assert [id][..0] == [];
    assert PkColumns([id]) == [id];
    assert PkColumns([id, a]) == [id];
    assert PkColumns([id, a, b]) == [id];
    assert PkColumns([id, a, b, h]) == [id];
  }

  lemma PrintedHalf()
    ensures PkText(ENV, "t", DATA_KEY) == "{:}"
  {
    OnePkColumn();
    var pks := [ColumnInfo("id", true)];
    assert pks[..0] == [];
    assert PkFields(ENV, pks, PrintedKey(ENV, DATA_KEY)) == ":";
  }

  /** The caller's "Haex_hlc_no_sync" is the HLC column to SQL, but not to the rewriter. */
  lemma MisspeltHlcColumnIsNamedTwice()
    ensures var columns: seq<InsertRewrite.Name> := [["a"], ["H" + HLC_COLUMN[1..]]];
            InsertMeaning.DistinctColumns(columns) &&
            !InsertMeaning.DistinctColumns(InsertRewrite.WithColumn(columns, HLC_COLUMN))
  {
    var columns: seq<InsertRewrite.Name> := [["a"], ["H" + HLC_COLUMN[1..]]];
    var spelt := "H" + HLC_COLUMN[1..];
    InsertMeaning.HlcColumnIsFolded();
    forall i | 0 <= i < |HLC_COLUMN|
      ensures InsertMeaning.Fold(spelt)[i] == HLC_COLUMN[i]
    {
      assert InsertMeaning.Fold(HLC_COLUMN)[i] == InsertMeaning.Lower(HLC_COLUMN[i]);
    }
    assert InsertMeaning.Fold(spelt) == HLC_COLUMN;
    assert |InsertMeaning.Fold("a")| == 1;
    assert InsertRewrite.Last(columns[1]) == spelt && spelt[0] != HLC_COLUMN[0];
    InsertMeaning.DistinctIff(columns);
  }

  /** A row with a value too many loses it and fits; a row one short, before a trailing HLC column, is filled up and fits. */
  lemma MisfittingRowsAreRepaired(x: InsertRewrite.Expr, y: InsertRewrite.Expr, stamp: InsertRewrite.Expr)
    ensures var columns: seq<InsertRewrite.Name> := [["a"]];
            InsertRewrite.SetOrPush([x, y], InsertRewrite.PositionOf(columns, HLC_COLUMN), stamp) == [x, stamp] &&
            |InsertRewrite.WithColumn(columns, HLC_COLUMN)| == 2
    ensures var columns: seq<InsertRewrite.Name> := [["a"], [HLC_COLUMN]];
            InsertRewrite.SetOrPush([x], InsertRewrite.PositionOf(columns, HLC_COLUMN), stamp) == [x, stamp] &&
            |InsertRewrite.WithColumn(columns, HLC_COLUMN)| == 2
  {
    var unnamed: seq<InsertRewrite.Name> := [["a"]];
    var named: seq<InsertRewrite.Name> := [["a"], [HLC_COLUMN]];
    assert InsertRewrite.Last(unnamed[0]) == "a" && InsertRewrite.Last(named[1]) == HLC_COLUMN && "a" != HLC_COLUMN;
    assert InsertRewrite.PositionOf(unnamed, HLC_COLUMN) == 1;
    assert InsertRewrite.PositionOf(named, HLC_COLUMN) == 1;
  }

  function SetOne(name: string, value: InsertRewrite.Expr): seq<InsertRewrite.Assignment> {
    [InsertRewrite.Assignment(InsertRewrite.ColumnName([name]), value)]
  }

  /** What one plain assignment assigns. */
  lemma SetOneAssigns(name: string, value: InsertRewrite.Expr, c: string)
    ensures InsertRewrite.AssignsMetadata(SetOne(name, value)) <==> InsertRewrite.Owned(name)
    ensures InsertMeaning.Assigns(SetOne(name, value), c) <==> c == name
    ensures InsertMeaning.SqlAssigns(SetOne(name, value), InsertMeaning.Fold(c)) <==>
            InsertMeaning.Fold(name) == InsertMeaning.Fold(c)
    ensures forall t | t in InsertRewrite.Touched(SetOne(name, value)) :: t == name
  {
    hide InsertRewrite.Owned, InsertMeaning.Fold, InsertRewrite.Touched;
    var one := SetOne(name, value);
    var names := InsertRewrite.AssignedNames(one[0].target);
    assert names == [name] && |one| == 1;
    assert one[0].target == InsertRewrite.ColumnName([name]);
    assert names[0] == name;
    assert InsertMeaning.FoldedIn(names, InsertMeaning.Fold(name));
    forall t | t in InsertRewrite.Touched(one)
      ensures t == name
    {
      InsertMeaning.TouchedMeans(one, t);
    }
    if InsertRewrite.Owned(name) {
      assert InsertRewrite.Owned(InsertRewrite.AssignedNames(one[0].target)[0]);
    }
  }

  /** `SET name = v` on a row whose column HLCs are NULL: the column is assigned and not stamped. */
  lemma NullStampsStayNull(value: InsertRewrite.Expr, ts: string)
    ensures var clause := SetOne("name", value); var after := InsertMeaning.StampsAfter(clause, ts, None);
            && !InsertRewrite.AssignsMetadata(clause) && after == Some(None)
            && !InsertMeaning.RestampsExactly(["name"], clause, ts, None, None)
  {
    hide InsertMeaning.Fold, InsertMeaning.SqlAssigns;
    SetOneAssigns("name", value, "name");
    assert |"name"| < |HLC_COLUMN| && |"name"| < |COLUMN_HLCS_COLUMN| && |"name"| < |COLUMN_SIGS_COLUMN|;
    assert ["name"][0] == "name";
    assert "name" in ["name"];
  }

  /** `SET Name = v` on column name at 1/1: the column is assigned, its stamp stays, and a stamp for "Name" appears. */
  lemma OtherCaseIsNotStamped(value: InsertRewrite.Expr)
    ensures var clause := SetOne("Name", value); var before := Some(map["name" := "1/1"]);
            var after := InsertMeaning.StampsAfter(clause, "2/1", before);
            && !InsertRewrite.AssignsMetadata(clause) && after.Some?
            && InsertMeaning.SqlAssigns(clause, InsertMeaning.Fold("name"))
            && InsertMeaning.StampOf(after.value, "name") == Some("1/1")
            && InsertMeaning.StampOf(after.value, "Name") == Some("2/1")
            && !InsertMeaning.RestampsExactly(["name"], clause, "2/1", before, after.value)
  {
    hide InsertMeaning.SqlAssigns, InsertMeaning.Assigns, InsertMeaning.StampsAfter, InsertRewrite.AssignsMetadata,
         InsertRewrite.Touched;
    var clause, before := SetOne("Name", value), Some(map["name" := "1/1"]);
    SetOneAssigns("Name", value, "name");
    SetOneAssigns("Name", value, "Name");
    assert "Name"[0] != "name"[0] && "1/1"[0] != "2/1"[0];
    assert |"Name"| < |HLC_COLUMN| && |"Name"| < |COLUMN_HLCS_COLUMN| && |"Name"| < |COLUMN_SIGS_COLUMN|;
    assert InsertMeaning.Fold("Name") == InsertMeaning.Fold("name");
    assert InsertMeaning.SimpleLabel("Name");
    InsertMeaning.StampsAfterMeans(clause, "2/1", before, "name");
    InsertMeaning.StampsAfterMeans(clause, "2/1", before, "Name");
    assert ["name"][0] in ["name"];
  }

  /** "Haex_column_sigs_no_sync" is the signature column to SQL, but not to the rewriter, which lets the assignment through. */
  lemma MisspeltSignaturesAreAssigned(value: InsertRewrite.Expr, ts: string)
    ensures var clause := SetOne("H" + COLUMN_SIGS_COLUMN[1..], value);
            && !InsertRewrite.AssignsMetadata(clause) && InsertMeaning.SqlAssignsMetadata(clause)
            && InsertMeaning.AssignedAt(InsertRewrite.Augmented(clause, ts), COLUMN_SIGS_COLUMN).Some?
  {
    hide InsertMeaning.SqlAssigns, InsertRewrite.AssignsMetadata, InsertRewrite.Augmented, InsertMeaning.AssignedAt;
    var spelt := "H" + COLUMN_SIGS_COLUMN[1..];
    SetOneAssigns(spelt, value, COLUMN_SIGS_COLUMN);
    InsertMeaning.MetadataIsFolded();
    forall i | 0 <= i < |COLUMN_SIGS_COLUMN|
      ensures InsertMeaning.Fold(spelt)[i] == COLUMN_SIGS_COLUMN[i]
    {
      assert InsertMeaning.Fold(COLUMN_SIGS_COLUMN)[i] == InsertMeaning.Lower(COLUMN_SIGS_COLUMN[i]);
    }
    assert InsertMeaning.Fold(spelt) == COLUMN_SIGS_COLUMN;
    assert spelt[0] != HLC_COLUMN[0] && spelt[0] != COLUMN_HLCS_COLUMN[0] && spelt[0] != COLUMN_SIGS_COLUMN[0];
    InsertMeaning.SignaturesStayIff(SetOne(spelt, value), ts);
  }

  /** "9/" is no timestamp, but its time counts: it compares newer than the timestamp "1/1". */
  lemma MalformedCanCompareNewer()
    ensures !IsTimestamp("9/") && IsTimestamp("1/1") && Newer("9/", "1/1")
  {
    hide IsTimestamp;
    Stamps();
    OneDigit('1');
    assert ['1'] + "/1" == "1/1";
    NineHasNoNode();
  }

  lemma NineHasNoNode()
    ensures Time("9/") == 9 && Node("9/") == 0 && !IsTimestamp("9/")
  {
    assert SlashAt("9/") == 1 && TimePart("9/") == "9" && NodePart("9/") == "";
    assert "9"[..0] == "" && ParseDigits("9", 10) == Some(9);
  }
}
