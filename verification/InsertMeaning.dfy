/** What the rewritten statement means, for any evaluation of expressions. */
module InsertMeaning {
  import opened Common
  import opened Model
  import opened InsertRewrite

  function Lower(c: char): char {
    if 'A' <= c <= 'Z' then c + ('a' - 'A') else c
  }

  /** SQL compares column names without regard to ASCII case. */
  function Fold(s: string): string {
    seq(|s|, i requires 0 <= i < |s| => Lower(s[i]))
  }

  predicate DistinctColumns(columns: seq<Name>) {
    forall i, k | 0 <= i < k < |columns| :: Fold(Last(columns[i])) != Fold(Last(columns[k]))
  }

  /** The position of the column SQL resolves `name` to. */
  function Resolve(columns: seq<Name>, name: string): (i: nat)
    ensures i <= |columns|
    ensures i < |columns| ==> Fold(Last(columns[i])) == name
    ensures forall k | 0 <= k < i :: Fold(Last(columns[k])) != name
  {
    if columns == [] || Fold(Last(columns[0])) == name then 0 else 1 + Resolve(columns[1..], name)
  }

  /** The value a row gives to a column, or nothing where the column is not named. */
  function ValueOf<T, V>(columns: seq<Name>, row: seq<T>, eval: T -> V, name: string): Option<V>
    requires |row| == |columns|
  {
    var i := Resolve(columns, name);
    if i < |columns| then Some(eval(row[i])) else None
  }

  lemma HlcColumnIsFolded()
    ensures Fold(HLC_COLUMN) == HLC_COLUMN
  {
    forall i | 0 <= i < |HLC_COLUMN|
      ensures Lower(HLC_COLUMN[i]) == HLC_COLUMN[i]
    {
      assert HLC_COLUMN[i] in HLC_COLUMN;
    }
  }

  lemma MetadataIsFolded()
    ensures Fold(HLC_COLUMN) == HLC_COLUMN && Fold(COLUMN_HLCS_COLUMN) == COLUMN_HLCS_COLUMN
    ensures Fold(COLUMN_SIGS_COLUMN) == COLUMN_SIGS_COLUMN
  {
    HlcColumnIsFolded();
    forall i | 0 <= i < |COLUMN_HLCS_COLUMN|
      ensures Lower(COLUMN_HLCS_COLUMN[i]) == COLUMN_HLCS_COLUMN[i]
    {
      assert COLUMN_HLCS_COLUMN[i] in COLUMN_HLCS_COLUMN;
    }
    forall i | 0 <= i < |COLUMN_SIGS_COLUMN|
      ensures Lower(COLUMN_SIGS_COLUMN[i]) == COLUMN_SIGS_COLUMN[i]
    {
      assert COLUMN_SIGS_COLUMN[i] in COLUMN_SIGS_COLUMN;
    }
  }

  /** The caller names the HLC column, but not in the crate's spelling. */
  predicate Misspelled(columns: seq<Name>) {
    exists i :: 0 <= i < |columns| && Fold(Last(columns[i])) == HLC_COLUMN && Last(columns[i]) != HLC_COLUMN
  }

  lemma StampPosition(columns: seq<Name>)
    requires DistinctColumns(columns)
    ensures var w := WithColumn(columns, HLC_COLUMN); var p := PositionOf(columns, HLC_COLUMN);
            p < |w| && Fold(Last(w[p])) == HLC_COLUMN && columns <= w && |w| == if p < |columns| then |columns| else |columns| + 1
  {
    HlcColumnIsFolded();
  }

  /** The rewritten column list names each column once unless the caller spelt the HLC column another way. */
  lemma DistinctIff(columns: seq<Name>)
    requires DistinctColumns(columns)
    ensures DistinctColumns(WithColumn(columns, HLC_COLUMN)) <==> !Misspelled(columns)
  {
    hide Fold;
    HlcColumnIsFolded();
    var w, p := WithColumn(columns, HLC_COLUMN), PositionOf(columns, HLC_COLUMN);
    assert p < |columns| ==> Fold(Last(columns[p])) == HLC_COLUMN;
    if Misspelled(columns) {
      var i :| 0 <= i < |columns| && Fold(Last(columns[i])) == HLC_COLUMN && Last(columns[i]) != HLC_COLUMN;
      assert Fold(Last(w[|columns|])) == Fold(Last(w[i]));
    } else {
      forall i | 0 <= i < |columns| && p == |columns|
        ensures Fold(Last(columns[i])) != HLC_COLUMN
      {
      }
    }
  }

  /**
   * A rewritten row fits its column list exactly when it did before, or in
   * two misfits: one value too many with the HLC column unnamed, or one too
   * few with it named last.
   */
  lemma ArityIff<T>(columns: seq<Name>, row: seq<T>, stamp: T)
    ensures var p := PositionOf(columns, HLC_COLUMN);
            |SetOrPush(row, p, stamp)| == |WithColumn(columns, HLC_COLUMN)| <==>
            |row| == |columns| || (p == |columns| && |row| == |columns| + 1) || (p == |row| && |row| + 1 == |columns|)
  {
  }

  /** Where SQL finds a column in the rewritten list. */
  lemma ResolveAfterStamp(columns: seq<Name>, name: string)
    requires DistinctColumns(columns) && !Misspelled(columns)
    ensures var w := WithColumn(columns, HLC_COLUMN);
            if name == HLC_COLUMN then Resolve(w, name) == PositionOf(columns, HLC_COLUMN) < |w|
            else if Resolve(columns, name) < |columns| then Resolve(w, name) == Resolve(columns, name) != PositionOf(columns, HLC_COLUMN)
            else Resolve(w, name) == |w|
  {
    hide Fold, Resolve, PositionOf;
    DistinctIff(columns);
    StampPosition(columns);
    var p, w := PositionOf(columns, HLC_COLUMN), WithColumn(columns, HLC_COLUMN);
    var r, q := Resolve(w, name), Resolve(columns, name);
    forall i | 0 <= i < |w|
      ensures Fold(Last(w[i])) == if i < |columns| then Fold(Last(columns[i])) else HLC_COLUMN
    {
    }
    if name == HLC_COLUMN {
      assert r <= p;
    } else if q < |columns| {
      assert Fold(Last(w[q])) == name;
      assert r <= q;
      assert w[r] == columns[r];
    }
  }

  /** Every column of a rewritten row keeps its value, and the HLC column holds the stamp, named or not. */
  lemma StampedRowMeans<T, V>(columns: seq<Name>, row: seq<T>, stamp: T, eval: T -> V, name: string)
    requires DistinctColumns(columns) && !Misspelled(columns) && |row| == |columns|
    ensures var p := PositionOf(columns, HLC_COLUMN);
            var (columns', row') := (WithColumn(columns, HLC_COLUMN), SetOrPush(row, p, stamp));
            && |row'| == |columns'| && DistinctColumns(columns')
            && ValueOf(columns', row', eval, name) ==
               if name == HLC_COLUMN then Some(eval(stamp)) else ValueOf(columns, row, eval, name)
  {
    hide Fold, Resolve, PositionOf, DistinctColumns, Misspelled;
    DistinctIff(columns);
    ResolveAfterStamp(columns, name);
  }

  /** A VALUES statement denotes the same rows, each with its HLC column set to the stamp. */
  lemma StampedValuesMean<V>(columns: seq<Name>, rows: seq<seq<Expr>>, ts: string, eval: Expr -> V, i: nat, name: string)
    requires DistinctColumns(columns) && !Misspelled(columns) && i < |rows| && |rows[i]| == |columns|
    ensures var source := StampedSource(Values(rows), PositionOf(columns, HLC_COLUMN), ts);
            var columns' := WithColumn(columns, HLC_COLUMN);
            && |source.rows| == |rows| && |source.rows[i]| == |columns'|
            && ValueOf(columns', source.rows[i], eval, name) ==
               if name == HLC_COLUMN then Some(eval(Quoted(ts))) else ValueOf(columns, rows[i], eval, name)
  {
    hide Fold, DistinctColumns, Misspelled, ValueOf, Resolve;
    StampedRowMeans(columns, rows[i], Quoted(ts), eval, name);
  }

  /** A SELECT source: `eval` is the value of an item on any one row of the query. */
  lemma StampedSelectMeans<V>(columns: seq<Name>, projection: seq<SelectItem>, rest: nat, ts: string, eval: SelectItem -> V, name: string)
    requires DistinctColumns(columns) && !Misspelled(columns) && |projection| == |columns|
    ensures var source := StampedSource(Select(projection, rest), PositionOf(columns, HLC_COLUMN), ts);
            var columns' := WithColumn(columns, HLC_COLUMN);
            && source.rest == rest && |source.projection| == |columns'|
            && ValueOf(columns', source.projection, eval, name) ==
               if name == HLC_COLUMN then Some(eval(Item(Quoted(ts), None))) else ValueOf(columns, projection, eval, name)
  {
    hide Fold, DistinctColumns, Misspelled, ValueOf, Resolve;
    StampedRowMeans(columns, projection, Item(Quoted(ts), None), eval, name);
  }

  /** A JSON path label that addresses one key of the top-level object. */
  predicate SimpleLabel(s: string) {
    s != "" && forall i | 0 <= i < |s| :: s[i] != '.' && s[i] != '[' && s[i] != '"'
  }

  /** Path and value pairs set one by one, where every path is one simple label. */
  function SetPairs(stored: map<string, string>, args: seq<Expr>): Option<map<string, string>> {
    if |args| < 2 then Some(stored)
    else
      match (SetPairs(stored, args[..|args| - 2]), args[|args| - 2], args[|args| - 1])
      case (Some(m), Quoted(path), Quoted(v)) =>
        if |path| > 2 && path[..2] == "$." && SimpleLabel(path[2..]) then Some(m[path[2..] := v]) else None
      case _ => None
  }

  /** A row's column HLCs as SQLite holds them; the column is nullable, and `None` is SQL NULL. */
  type Stamps = Option<map<string, string>>

  /** SQLite's `json_set`: NULL stays NULL whatever is set. The result is undefined for paths that are no simple label. */
  function JsonSet(stored: Stamps, args: seq<Expr>): Option<Stamps> {
    match stored
    case None => Some(None)
    case Some(m) =>
      match SetPairs(m, args)
      case Some(r) => Some(Some(r))
      case None => None
  }

  /** The stored column HLCs with every touched column at `ts`. */
  ghost predicate Restamped(stored: map<string, string>, touched: seq<string>, ts: string, r: map<string, string>) {
    forall k :: (k in r <==> k in stored || k in touched) && (k in r ==> r[k] == if k in touched then ts else stored[k])
  }

  lemma SetPairsStep(stored: map<string, string>, args: seq<Expr>, c: string, ts: string)
    ensures SetPairs(stored, args + [Quoted("$." + c), Quoted(ts)]) ==
            if SetPairs(stored, args).Some? && SimpleLabel(c) then Some(SetPairs(stored, args).value[c := ts]) else None
  {
    var more := args + [Quoted("$." + c), Quoted(ts)];
    assert more[..|more| - 2] == args;
    PathOf(c);
  }

  lemma {:induction false} StampArgsRestamp(stored: map<string, string>, touched: seq<string>, ts: string)
    ensures var r := SetPairs(stored, StampArgs(touched, ts));
            (r.Some? <==> forall c | c in touched :: SimpleLabel(c)) && (r.Some? ==> Restamped(stored, touched, ts, r.value))
  {
    hide SimpleLabel, SetPairs;
    if touched == [] {
      assert SetPairs(stored, []) == Some(stored) by {
        NothingSet(stored);
      }
    } else {
      var front, c := touched[..|touched| - 1], touched[|touched| - 1];
      StampArgsRestamp(stored, front, ts);
      assert touched == front + [c];
      SetPairsStep(stored, StampArgs(front, ts), c, ts);
    }
  }

  lemma NothingSet(stored: map<string, string>)
    ensures SetPairs(stored, []) == Some(stored)
  {
  }

  lemma PathOf(c: string)
    ensures ("$." + c)[..2] == "$." && ("$." + c)[2..] == c
    ensures SimpleLabel(c) ==> |"$." + c| > 2
  {
  }

  lemma {:induction false} NotOwnedMeans(names: seq<string>, c: string)
    ensures c in NotOwned(names) <==> c in names && !Owned(c)
  {
    if names != [] {
      NotOwnedMeans(names[..|names| - 1], c);
      assert names == names[..|names| - 1] + [names[|names| - 1]];
    }
  }

  lemma {:induction false} TouchedMeans(assignments: seq<Assignment>, c: string)
    ensures c in Touched(assignments) <==>
            !Owned(c) && exists i :: 0 <= i < |assignments| && c in AssignedNames(assignments[i].target)
  {
    hide AssignedNames, Owned;
    if assignments != [] {
      var front, a := assignments[..|assignments| - 1], assignments[|assignments| - 1];
      TouchedMeans(front, c);
      NotOwnedMeans(AssignedNames(a.target), c);
      if i :| 0 <= i < |assignments| && c in AssignedNames(assignments[i].target) {
        assert i < |front| ==> front[i] == assignments[i];
      }
    }
  }

  /** A plain target assigns its column, a tuple each of its columns, whatever table qualifies them. */
  lemma AssignedNamesMean(target: Target, c: string)
    ensures c in AssignedNames(target) <==>
            (target.ColumnName? && target.name[|target.name| - 1] == c)
            || (target.Tuple? && exists i :: 0 <= i < |target.names| && target.names[i][|target.names[i]| - 1] == c)
  {
    if target.Tuple? {
      var names := LastNames(target.names);
      if i :| 0 <= i < |target.names| && target.names[i][|target.names[i]| - 1] == c {
        assert names[i] == c;
      }
      if c in names {
        var i :| 0 <= i < |names| && names[i] == c;
        assert target.names[i][|target.names[i]| - 1] == c;
      }
    }
  }

  /** Exactly the three metadata columns are refused. */
  lemma AssignsMetadataMeans(assignments: seq<Assignment>)
    ensures AssignsMetadata(assignments) <==>
            Assigns(assignments, "haex_hlc_no_sync") || Assigns(assignments, "haex_column_hlcs_no_sync")
            || Assigns(assignments, "haex_column_sigs_no_sync")
  {
    hide AssignedNames;
    forall c | Owned(c) && Assigns(assignments, c)
      ensures AssignsMetadata(assignments)
    {
      var i :| 0 <= i < |assignments| && c in AssignedNames(assignments[i].target);
      var k :| 0 <= k < |AssignedNames(assignments[i].target)| && AssignedNames(assignments[i].target)[k] == c;
      assert Owned(AssignedNames(assignments[i].target)[k]);
    }
  }

  predicate FoldedIn(names: seq<string>, folded: string) {
    exists k :: 0 <= k < |names| && Fold(names[k]) == folded
  }

  /** The SET clause assigns the column SQL knows under this folded name. */
  predicate SqlAssigns(assignments: seq<Assignment>, folded: string) {
    exists i :: 0 <= i < |assignments| && FoldedIn(AssignedNames(assignments[i].target), folded)
  }

  /** The SET clause assigns the column in exactly this spelling. */
  predicate Assigns(assignments: seq<Assignment>, c: string) {
    exists i :: 0 <= i < |assignments| && c in AssignedNames(assignments[i].target)
  }

  lemma AssignsIsSqlAssigns(assignments: seq<Assignment>, c: string)
    requires Assigns(assignments, c)
    ensures SqlAssigns(assignments, Fold(c))
  {
    hide AssignedNames, Fold;
    var i :| 0 <= i < |assignments| && c in AssignedNames(assignments[i].target);
    var names := AssignedNames(assignments[i].target);
    var k :| 0 <= k < |names| && names[k] == c;
    assert FoldedIn(names, Fold(c));
  }

  lemma AssignedIsTouched(assignments: seq<Assignment>, c: string)
    requires !AssignsMetadata(assignments)
    ensures c in Touched(assignments) <==> Assigns(assignments, c)
  {
    hide AssignedNames, Owned;
    TouchedMeans(assignments, c);
    if i :| 0 <= i < |assignments| && c in AssignedNames(assignments[i].target) {
      var names := AssignedNames(assignments[i].target);
      var k :| 0 <= k < |names| && names[k] == c;
      assert !Owned(AssignedNames(assignments[i].target)[k]);
    }
  }

  /** Where a column is assigned more than once SQLite takes the rightmost assignment: its number and the position in its target. */
  function AssignedAt(assignments: seq<Assignment>, folded: string): Option<(nat, nat)> {
    if assignments == [] then None
    else
      var n := |assignments| - 1;
      var names := AssignedNames(assignments[n].target);
      if FoldedIn(names, folded) then Some((n, LastFolded(names, folded))) else AssignedAt(assignments[..n], folded)
  }

  function LastFolded(names: seq<string>, folded: string): (k: nat)
    requires FoldedIn(names, folded)
    ensures k < |names| && Fold(names[k]) == folded
    ensures forall j | k < j < |names| :: Fold(names[j]) != folded
  {
    var n := |names| - 1;
    if Fold(names[n]) == folded then n
    else
      assert exists k :: 0 <= k < n && Fold(names[..n][k]) == folded;
      LastFolded(names[..n], folded)
  }

  lemma {:induction false} AssignedAtIff(assignments: seq<Assignment>, folded: string)
    ensures AssignedAt(assignments, folded).Some? <==> SqlAssigns(assignments, folded)
  {
    hide AssignedNames, FoldedIn;
    if assignments != [] {
      var front := assignments[..|assignments| - 1];
      AssignedAtIff(front, folded);
      if i :| 0 <= i < |assignments| && FoldedIn(AssignedNames(assignments[i].target), folded) {
        assert i < |front| ==> front[i] == assignments[i];
      }
    }
  }

  /**
   * What each column is set from: the caller's own assignment, except that the
   * row HLC and the column HLCs are always the rewriter's, even where the
   * caller assigned them in another case.
   */
  lemma SetClauseMeans(assignments: seq<Assignment>, ts: string, folded: string)
    ensures var clause, n := Augmented(assignments, ts), |assignments|;
            && |clause| == n + 2 && clause[..n] == assignments
            && clause[n].value == Quoted(ts) && clause[n + 1].value == JsonSetCall(Touched(assignments), ts)
            && clause[n + 1].value.func == "json_set" && clause[n + 1].value.args != []
            && clause[n + 1].value.args[0] == Identifier("haex_column_hlcs_no_sync")
            && AssignedAt(clause, folded) ==
               if folded == COLUMN_HLCS_COLUMN then Some((n + 1, 0))
               else if folded == HLC_COLUMN then Some((n, 0))
               else AssignedAt(assignments, folded)
  {
    hide Fold, AssignedNames, Touched, StampArgs;
    MetadataIsFolded();
    var clause, n := Augmented(assignments, ts), |assignments|;
    assert clause[..n + 1][..n] == assignments && clause[..n + 1] == assignments + [clause[n]];
    OneName(clause[n].target, HLC_COLUMN, folded);
    OneName(clause[n + 1].target, COLUMN_HLCS_COLUMN, folded);
    assert HLC_COLUMN != COLUMN_HLCS_COLUMN by {
      assert |HLC_COLUMN| != |COLUMN_HLCS_COLUMN|;
    }
  }

  lemma OneName(target: Target, name: string, folded: string)
    requires target == ColumnName([name])
    ensures FoldedIn(AssignedNames(target), folded) <==> Fold(name) == folded
    ensures FoldedIn(AssignedNames(target), folded) ==> LastFolded(AssignedNames(target), folded) == 0
  {
    hide Fold;
    assert AssignedNames(target) == [name];
    assert [name][0] == name;
  }

  function StampOf(stored: Stamps, column: string): Option<string> {
    if stored.Some? && column in stored.value then Some(stored.value[column]) else None
  }

  /** Every one of these columns is at `ts` if SQL assigned it, and as before otherwise. */
  predicate RestampsExactly(columns: seq<string>, assignments: seq<Assignment>, ts: string, before: Stamps, after: Stamps) {
    forall c | c in columns ::
      StampOf(after, c) == if SqlAssigns(assignments, Fold(c)) then Some(ts) else StampOf(before, c)
  }

  /** What the rewriter's own assignment makes of a row's column HLCs. */
  function StampsAfter(assignments: seq<Assignment>, ts: string, stored: Stamps): Option<Stamps> {
    JsonSet(stored, Augmented(assignments, ts)[|assignments| + 1].value.args[1..])
  }

  lemma StampsAfterArgs(assignments: seq<Assignment>, ts: string)
    ensures Augmented(assignments, ts)[|assignments| + 1].value.args[1..] == StampArgs(Touched(assignments), ts)
  {
  }

  /** NULL stays NULL; a column keeps its stamp unless it is assigned in exactly its spelling. */
  lemma StampsAfterMeans(assignments: seq<Assignment>, ts: string, stored: Stamps, c: string)
    requires !AssignsMetadata(assignments)
    requires forall t | t in Touched(assignments) :: SimpleLabel(t)
    ensures var after := StampsAfter(assignments, ts, stored);
            && after.Some?
            && StampOf(after.value, c) == if stored.Some? && Assigns(assignments, c) then Some(ts) else StampOf(stored, c)
  {
    hide AssignedNames, Owned, SimpleLabel, Touched, SetPairs, AssignsMetadata, Assigns;
    StampsAfterArgs(assignments, ts);
    if stored.Some? {
      StampArgsRestamp(stored.value, Touched(assignments), ts);
      AssignedIsTouched(assignments, c);
    }
  }

  /**
   * The SET clause re-stamps exactly the columns of the table it assigns if
   * and only if each of them either is at that stamp already, or the row has
   * column HLCs at all and the column is assigned in its own spelling.
   */
  lemma RestampIff(columns: seq<string>, assignments: seq<Assignment>, ts: string, stored: Stamps)
    requires !AssignsMetadata(assignments)
    requires forall t | t in Touched(assignments) :: SimpleLabel(t)
    ensures StampsAfter(assignments, ts, stored).Some?
    ensures RestampsExactly(columns, assignments, ts, stored, StampsAfter(assignments, ts, stored).value) <==>
            forall c | c in columns && SqlAssigns(assignments, Fold(c)) ::
              StampOf(stored, c) == Some(ts) || (stored.Some? && Assigns(assignments, c))
  {
    hide Fold, SqlAssigns, Assigns, Touched, SimpleLabel, StampsAfter, StampOf, AssignsMetadata;
    StampsAfterMeans(assignments, ts, stored, "");
    forall c
      ensures StampOf(StampsAfter(assignments, ts, stored).value, c) ==
              if stored.Some? && Assigns(assignments, c) then Some(ts) else StampOf(stored, c)
      ensures Assigns(assignments, c) ==> SqlAssigns(assignments, Fold(c))
    {
      StampsAfterMeans(assignments, ts, stored, c);
      if Assigns(assignments, c) {
        AssignsIsSqlAssigns(assignments, c);
      }
    }
  }

  /** In SQL's eyes the SET clause assigns one of the three metadata columns. */
  predicate SqlAssignsMetadata(assignments: seq<Assignment>) {
    || SqlAssigns(assignments, HLC_COLUMN)
    || SqlAssigns(assignments, COLUMN_HLCS_COLUMN)
    || SqlAssigns(assignments, COLUMN_SIGS_COLUMN)
  }

  /** Some assigned name is a metadata column to SQL, but not in the crate's spelling. */
  predicate MisspellsMetadata(assignments: seq<Assignment>) {
    exists i, k :: 0 <= i < |assignments| && 0 <= k < |AssignedNames(assignments[i].target)| &&
                   var name := AssignedNames(assignments[i].target)[k]; Owned(Fold(name)) && !Owned(name)
  }

  /** The refusal of caller metadata is what SQL would call for unless the only metadata the caller assigns is misspelt. */
  lemma RefusalIff(assignments: seq<Assignment>)
    ensures AssignsMetadata(assignments) ==> SqlAssignsMetadata(assignments)
    ensures (AssignsMetadata(assignments) <==> SqlAssignsMetadata(assignments)) <==>
            (MisspellsMetadata(assignments) ==> AssignsMetadata(assignments))
  {
    hide Fold, AssignedNames;
    MetadataIsFolded();
    if AssignsMetadata(assignments) {
      var i, k :| 0 <= i < |assignments| && 0 <= k < |AssignedNames(assignments[i].target)| &&
                  Owned(AssignedNames(assignments[i].target)[k]);
      assert FoldedIn(AssignedNames(assignments[i].target), AssignedNames(assignments[i].target)[k]);
    } else if MisspellsMetadata(assignments) {
      var i, k :| 0 <= i < |assignments| && 0 <= k < |AssignedNames(assignments[i].target)| &&
                  Owned(Fold(AssignedNames(assignments[i].target)[k]));
      assert FoldedIn(AssignedNames(assignments[i].target), Fold(AssignedNames(assignments[i].target)[k]));
    }
  }

  /** The signatures stay untouched by the rewritten SET clause exactly when the caller does not assign them in any case. */
  lemma SignaturesStayIff(assignments: seq<Assignment>, ts: string)
    ensures AssignedAt(Augmented(assignments, ts), COLUMN_SIGS_COLUMN).None? <==> !SqlAssigns(assignments, COLUMN_SIGS_COLUMN)
  {
    hide AssignedAt, SqlAssigns, Augmented;
    SetClauseMeans(assignments, ts, COLUMN_SIGS_COLUMN);
    AssignedAtIff(assignments, COLUMN_SIGS_COLUMN);
    assert |COLUMN_SIGS_COLUMN| == |COLUMN_HLCS_COLUMN| && COLUMN_SIGS_COLUMN[12] != COLUMN_HLCS_COLUMN[12];
    assert |COLUMN_SIGS_COLUMN| != |HLC_COLUMN|;
  }
}
