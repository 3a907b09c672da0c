/**
 * The INSERT rewriter: it stamps the row HLC into every inserted row and
 * fresh HLC metadata into the DO UPDATE branch, editing the parsed statement
 * in place.
 */
module InsertRewrite {
  import opened Common
  import opened Model

  /** A possibly qualified name. */
  type Name = s: seq<string> | |s| > 0 witness [""]

  function Last(n: Name): string {
    n[|n| - 1]
  }

  datatype Expr =
    | Quoted(text: string)
    | Identifier(name: string)
    | Call(func: string, args: seq<Expr>)
    | Opaque(id: nat)

  datatype SelectItem = Item(expr: Expr, alias: Option<string>) | Wildcard

  datatype Source = Values(rows: seq<seq<Expr>>) | Select(projection: seq<SelectItem>, rest: nat) | OtherQuery | NoSource

  datatype Target = ColumnName(name: Name) | Tuple(names: seq<Name>)

  datatype Assignment = Assignment(target: Target, value: Expr)

  datatype OnInsert = NoClause | DoNothing | DoUpdate(assignments: seq<Assignment>) | OnDuplicateKey

  datatype Verdict = Ok | Unsupported

  /** The position of the first column called exactly `name`, or the length. */
  function PositionOf(columns: seq<Name>, name: string): (i: nat)
    ensures i <= |columns|
    ensures i < |columns| ==> Last(columns[i]) == name
    ensures forall k | 0 <= k < i :: Last(columns[k]) != name
  {
    if columns == [] || Last(columns[0]) == name then 0 else 1 + PositionOf(columns[1..], name)
  }

  function WithColumn(columns: seq<Name>, name: string): seq<Name> {
    if PositionOf(columns, name) < |columns| then columns else columns + [[name]]
  }

  function SetOrPush<T>(row: seq<T>, index: nat, value: T): seq<T> {
    if index < |row| then row[index := value] else row + [value]
  }

  function AssignedNames(target: Target): seq<string> {
    match target
    case ColumnName(n) => [Last(n)]
    case Tuple(names) => LastNames(names)
  }

  function LastNames(names: seq<Name>): seq<string> {
    seq(|names|, i requires 0 <= i < |names| => Last(names[i]))
  }

  predicate Owned(name: string) {
    name == HLC_COLUMN || name == COLUMN_HLCS_COLUMN || name == COLUMN_SIGS_COLUMN
  }

  /** The columns the caller's SET clause assigns, metadata aside, in order. */
  function Touched(assignments: seq<Assignment>): seq<string> {
    if assignments == [] then []
    else Touched(assignments[..|assignments| - 1]) + NotOwned(AssignedNames(assignments[|assignments| - 1].target))
  }

  function NotOwned(names: seq<string>): seq<string> {
    if names == [] then []
    else NotOwned(names[..|names| - 1]) + if Owned(names[|names| - 1]) then [] else [names[|names| - 1]]
  }

  function StampArgs(touched: seq<string>, ts: string): seq<Expr> {
    if touched == [] then []
    else StampArgs(touched[..|touched| - 1], ts) + [Quoted("$." + touched[|touched| - 1]), Quoted(ts)]
  }

  function JsonSetCall(touched: seq<string>, ts: string): Expr {
    Call("json_set", [Identifier(COLUMN_HLCS_COLUMN)] + StampArgs(touched, ts))
  }

  function Augmented(assignments: seq<Assignment>, ts: string): seq<Assignment> {
    assignments + [Assignment(ColumnName([HLC_COLUMN]), Quoted(ts)),
                   Assignment(ColumnName([COLUMN_HLCS_COLUMN]), JsonSetCall(Touched(assignments), ts))]
  }

  predicate AssignsMetadata(assignments: seq<Assignment>) {
    exists i, k :: 0 <= i < |assignments| && 0 <= k < |AssignedNames(assignments[i].target)| &&
                   Owned(AssignedNames(assignments[i].target)[k])
  }

  function StampedSource(source: Source, index: nat, ts: string): Source {
    match source
    case Values(rows) => Values(seq(|rows|, i requires 0 <= i < |rows| => SetOrPush(rows[i], index, Quoted(ts))))
    case Select(projection, rest) => Select(SetOrPush(projection, index, Item(Quoted(ts), None)), rest)
    case _ => source
  }

  predicate HasWildcard(source: Source) {
    source.Select? && Wildcard in source.projection
  }

  /** What the rewriter takes. */
  predicate Supported(columns: seq<Name>, source: Source, on: OnInsert) {
    && !on.OnDuplicateKey? && (on.DoUpdate? ==> !AssignsMetadata(on.assignments))
    && columns != [] && !HasWildcard(source) && (source.Values? || source.Select?)
  }

  class Insert {
    var columns: seq<Name>
    var source: Source
    var on: OnInsert

    constructor (columns: seq<Name>, source: Source, on: OnInsert)
      ensures this.columns == columns && this.source == source && this.on == on
    {
      this.columns, this.source, this.on := columns, source, on;
    }

    method FindOrAddColumn(name: string) returns (index: nat)
      modifies this`columns
      ensures index == PositionOf(old(columns), name) && columns == WithColumn(old(columns), name)
    {
      index := PositionOf(columns, name);
      if index == |columns| {
        columns := columns + [[name]];
      }
    }

    /** Refuse a SET clause that assigns a column the rewriter owns. */
    method RejectCallerMetadata(assignments: seq<Assignment>) returns (verdict: Verdict)
      ensures verdict == Ok <==> !AssignsMetadata(assignments)
    {
      hide AssignedNames, Owned;
      for i := 0 to |assignments|
        invariant forall a, k | 0 <= a < i && 0 <= k < |AssignedNames(assignments[a].target)| ::
                    !Owned(AssignedNames(assignments[a].target)[k])
      {
        var names := AssignedNames(assignments[i].target);
        for k := 0 to |names|
          invariant forall b | 0 <= b < k :: !Owned(names[b])
        {
          if Owned(names[k]) {
            assert Owned(AssignedNames(assignments[i].target)[k]);
            return Unsupported;
          }
        }
      }
      verdict := Ok;
    }

    method BuildColumnHlcsJsonSet(touched: seq<string>, ts: string) returns (e: Expr)
      ensures e == JsonSetCall(touched, ts)
    {
      var args := [Identifier(COLUMN_HLCS_COLUMN)];
      for i := 0 to |touched|
        invariant args == [Identifier(COLUMN_HLCS_COLUMN)] + StampArgs(touched[..i], ts)
      {
        assert touched[..i + 1][..i] == touched[..i];
        args := args + [Quoted("$." + touched[i])] + [Quoted(ts)];
      }
      assert touched[..|touched|] == touched;
      e := Call("json_set", args);
    }

    method AugmentDoUpdate(ts: string)
      requires on.DoUpdate?
      modifies this`on
      ensures on == DoUpdate(Augmented(old(on).assignments, ts))
    {
      hide Touched, JsonSetCall;
      var touched := Touched(on.assignments);
      on := DoUpdate(on.assignments + [Assignment(ColumnName([HLC_COLUMN]), Quoted(ts))]);
      var value := BuildColumnHlcsJsonSet(touched, ts);
      on := DoUpdate(on.assignments + [Assignment(ColumnName([COLUMN_HLCS_COLUMN]), value)]);
    }

    /** A refused statement is left alone, but for a column list extended before its source is looked at. */
    method TransformInsert(ts: string) returns (verdict: Verdict)
      modifies this
      ensures verdict == Ok <==> Supported(old(columns), old(source), old(on))
      ensures verdict == Ok ==>
                && columns == WithColumn(old(columns), HLC_COLUMN)
                && source == StampedSource(old(source), PositionOf(old(columns), HLC_COLUMN), ts)
                && on == if old(on).DoUpdate? then DoUpdate(Augmented(old(on).assignments, ts)) else old(on)
      ensures verdict != Ok ==> source == old(source) && on == old(on) &&
                                (columns == old(columns) || columns == WithColumn(old(columns), HLC_COLUMN))
    {
      if on.OnDuplicateKey? {
        return Unsupported;
      }
      if on.DoUpdate? {
        verdict := RejectCallerMetadata(on.assignments);
        if verdict != Ok {
          return;
        }
      }
      if columns == [] {
        return Unsupported;
      }
      if source.Select? && Wildcard in source.projection {
        return Unsupported;
      }
      var index := FindOrAddColumn(HLC_COLUMN);
      match source {
        case Values(rows) =>
          var stamped := [];
          for i := 0 to |rows|
            invariant |stamped| == i && forall k | 0 <= k < i :: stamped[k] == SetOrPush(rows[k], index, Quoted(ts))
          {
            stamped := stamped + [SetOrPush(rows[i], index, Quoted(ts))];
          }
          source := Values(stamped);
        case Select(projection, rest) =>
          source := Select(SetOrPush(projection, index, Item(Quoted(ts), None)), rest);
        case _ =>
          return Unsupported;
      }
      if on.DoUpdate? {
        AugmentDoUpdate(ts);
      }
      verdict := Ok;
    }
  }
}
