/** When resuming a scan at a cursor finds exactly what a full scan has after it. */
module CursorScan {
  import opened Common
  import opened Hlc
  import opened TextOrder
  import opened Values
  import opened Model
  import opened Scanner
  import opened Pagination

  predicate IsDecimal(c: char) {
    '0' <= c <= '9'
  }

  predicate IsLowerHex(c: char) {
    '0' <= c <= '9' || 'a' <= c <= 'f'
  }

  /** A timestamp with `w` decimal time digits and `v` lowercase hex node digits. */
  predicate FixedWidth(h: string, w: nat, v: nat) {
    && IsTimestamp(h)
    && w > 0 && v > 0
    && |h| == w + 1 + v
    && (forall i | 0 <= i < w :: IsDecimal(h[i]))
    && h[w] == '/'
    && (forall i | w < i < |h| :: IsLowerHex(h[i]))
  }

  /** Strings of one length compare by their fronts first, then by their last characters. */
  lemma {:induction false} TextLessByLast(x: string, a: char, y: string, b: char)
    requires |x| == |y|
    ensures TextLess(x + [a], y + [b]) <==> TextLess(x, y) || (x == y && a < b)
    ensures x + [a] == y + [b] <==> x == y && a == b
  {
    if x != "" {
      assert (x + [a])[1..] == x[1..] + [a];
      assert (y + [b])[1..] == y[1..] + [b];
      TextLessByLast(x[1..], a, y[1..], b);
      SameHeadSameTail(x, y);
      SameHeadSameTail(x + [a], y + [b]);
    } else {
      assert (x + [a])[1..] == "" && (y + [b])[1..] == "";
    }
  }

  lemma SameHeadSameTail(x: string, y: string)
    requires x != "" && y != ""
    ensures x == y <==> x[0] == y[0] && x[1..] == y[1..]
  {
    if x[0] == y[0] && x[1..] == y[1..] {
      assert x == [x[0]] + x[1..];
      assert y == [y[0]] + y[1..];
    }
  }

  /** After a fixed-width head the rest decides only between equal heads. */
  lemma {:induction false} TextLessByHead(x: string, u: string, y: string, v: string)
    requires |x| == |y|
    ensures TextLess(x + u, y + v) <==> TextLess(x, y) || (x == y && TextLess(u, v))
  {
    if x == "" {
      assert x + u == u && y + v == v;
    } else {
      assert (x + u)[1..] == x[1..] + u;
      assert (y + v)[1..] == y[1..] + v;
      TextLessByHead(x[1..], u, y[1..], v);
      SameHeadSameTail(x, y);
      SameHeadSameTail(x + u, y + v);
    }
  }

  /** Digit strings of one length: text order is numeric order. */
  lemma {:induction false} DigitsInTextOrder(x: string, y: string, radix: nat)
    requires |x| == |y| && (radix == 10 || radix == 16)
    requires forall c | c in x || c in y :: if radix == 10 then IsDecimal(c) else IsLowerHex(c)
    ensures ParseDigits(x, radix).Some? && ParseDigits(y, radix).Some?
    ensures TextLess(x, y) <==> ParseDigits(x, radix).value < ParseDigits(y, radix).value
    ensures x == y <==> ParseDigits(x, radix) == ParseDigits(y, radix)
  {
    hide TextLess, Digit, IsDecimal, IsLowerHex;
    if x == "" {
      assert y == "";
      NothingIsLess();
    } else {
      var n := |x| - 1;
      assert x[n] in x && y[n] in y;
      DigitsInTextOrder(x[..n], y[..n], radix);
      assert x == x[..n] + [x[n]] && y == y[..n] + [y[n]];
      TextLessByLast(x[..n], x[n], y[..n], y[n]);
      DigitOrder(x[n], y[n], radix);
      DigitOrder(y[n], x[n], radix);
      var p, q := ParseDigits(x[..n], radix).value, ParseDigits(y[..n], radix).value;
      var i, j := Digit(x[n], radix).value, Digit(y[n], radix).value;
      PairOrder(p, i, q, j, radix);
    }
  }

  lemma NothingIsLess()
    ensures !TextLess("", "")
  {
  }

  lemma DigitOrder(a: char, b: char, radix: nat)
    requires radix == 10 || radix == 16
    requires if radix == 10 then IsDecimal(a) && IsDecimal(b) else IsLowerHex(a) && IsLowerHex(b)
    ensures Digit(a, radix).Some? && Digit(b, radix).Some?
    ensures Digit(a, radix).value < radix && Digit(b, radix).value < radix
    ensures a < b <==> Digit(a, radix).value < Digit(b, radix).value
  {
  }

  lemma PairOrder(p: nat, i: nat, q: nat, j: nat, radix: nat)
    requires (radix == 10 || radix == 16) && i < radix && j < radix
    ensures p * radix + i < q * radix + j <==> p < q || (p == q && i < j)
    ensures p * radix + i == q * radix + j <==> p == q && i == j
  {
    if radix == 10 {
      assert p * 10 + i < q * 10 + j <==> p < q || (p == q && i < j);
    } else {
      assert p * 16 + i < q * 16 + j <==> p < q || (p == q && i < j);
    }
  }

  lemma FixedWidthParts(h: string, w: nat, v: nat)
    requires FixedWidth(h, w, v)
    ensures h == TimePart(h) + ("/" + NodePart(h)) && |TimePart(h)| == w && |NodePart(h)| == v
    ensures forall c | c in TimePart(h) :: IsDecimal(c)
    ensures forall c | c in NodePart(h) :: IsLowerHex(c)
    ensures ParseDigits(TimePart(h), 10) == Some(Time(h)) && ParseDigits(NodePart(h), 16) == Some(Node(h))
  {
    hide Digit, ParseDigits;
    assert SlashAt(h) == w;
    assert TimePart(h)[0] != '+' && NodePart(h)[0] != '+';
  }

  /** On fixed-width timestamps text order is the clock order. */
  lemma TextOrderIsClockOrder(a: string, b: string, w: nat, v: nat)
    requires FixedWidth(a, w, v) && FixedWidth(b, w, v)
    ensures TextLess(a, b) <==> Rank(a) < Rank(b)
  {
    hide FixedWidth, Time, Node, TimePart, NodePart, ParseDigits;
    FixedWidthParts(a, w, v);
    FixedWidthParts(b, w, v);
    TextLessByHead(TimePart(a), "/" + NodePart(a), TimePart(b), "/" + NodePart(b));
    TextLessByHead("/", NodePart(a), "/", NodePart(b));
    DigitsInTextOrder(TimePart(a), TimePart(b), 10);
    DigitsInTextOrder(NodePart(a), NodePart(b), 16);
    assert Node(a) < TWO_POW_128 && Node(b) < TWO_POW_128;
  }

  /** The per-column re-check is exact: emitting since a cursor is filtering what a full emission has. */
  lemma {:induction false} EmittedSince(
      env: Env, id: RowId, row: Row, data: seq<ColumnInfo>, cursor: string, filters: Filters, device: string, n: nat)
    requires n <= |data|
    ensures Emitted(env, id, row, data, Some(cursor), filters, device, n) ==
            NewerThan(Emitted(env, id, row, data, None, filters, device, n), cursor)
  {
    hide Rank, Newer, NewerThan, EffectiveHlc, Passes, ChangeFor;
    if n == 0 {
      NothingNewer([], cursor);
    } else {
      var column := data[n - 1].name;
      EmittedSince(env, id, row, data, cursor, filters, device, n - 1);
      ColumnSince(env, id, row, column, cursor, filters, device);
      NewerThanConcat(
        Emitted(env, id, row, data, None, filters, device, n - 1),
        EmittedColumn(env, id, row, column, None, filters, device), cursor);
    }
  }

  /** What one column contributes. */
  function EmittedColumn(
      env: Env, id: RowId, row: Row, column: string, after: Option<string>, filters: Filters, device: string): seq<Change>
  {
    var hlc := EffectiveHlc(row, column);
    if hlc.Some? && Passes(hlc.value, after, filters) then [ChangeFor(env, id, row, column, hlc.value, device)] else []
  }

  lemma ColumnSince(env: Env, id: RowId, row: Row, column: string, cursor: string, filters: Filters, device: string)
    ensures EmittedColumn(env, id, row, column, Some(cursor), filters, device) ==
            NewerThan(EmittedColumn(env, id, row, column, None, filters, device), cursor)
  {
    hide Rank, Newer, EffectiveHlc, FromNode, PkText, ToJson;
    assert NewerThan([], cursor) == [];
    var hlc := EffectiveHlc(row, column);
    if hlc.Some? {
      var c := ChangeFor(env, id, row, column, hlc.value, device);
      assert [c][..0] == [];
    }
  }

  /** The row HLC is at least every column HLC, and all usable HLCs have one fixed width. */
  predicate RegularRow(row: Row, w: nat, v: nat) {
    row.hlc.Some? && row.hlc.value != "" ==>
      && FixedWidth(row.hlc.value, w, v)
      && forall column | column in row.hlcs && row.hlcs[column] != "" ::
           FixedWidth(row.hlcs[column], w, v) && Rank(row.hlcs[column]) <= Rank(row.hlc.value)
  }

  lemma {:induction false} NothingNewer(changes: seq<Change>, cursor: string)
    requires forall c | c in changes :: Rank(c.hlc) <= Rank(cursor)
    ensures NewerThan(changes, cursor) == []
  {
    hide Rank;
    if changes != [] {
      NothingNewer(changes[..|changes| - 1], cursor);
    }
  }

  /** The text prefilter would drop a row that has a column newer than the cursor to ship. */
  predicate HidesNews(env: Env, id: RowId, row: Row, cursor: string, filters: Filters) {
    && !Prefiltered(row, Some(cursor)) && Matches(env, id, row, filters) && Wanted(env, id, filters)
    && exists c :: c in DataColumns(Columns(env, id.table)) && EffectiveHlc(row, c.name).Some? &&
                   Passes(EffectiveHlc(row, c.name).value, Some(cursor), filters)
  }

  lemma {:induction false} EmittedIsNewsIff(
      env: Env, id: RowId, row: Row, data: seq<ColumnInfo>, after: Option<string>, filters: Filters, device: string, n: nat)
    requires n <= |data|
    ensures Emitted(env, id, row, data, after, filters, device, n) != [] <==>
            exists i :: 0 <= i < n && EffectiveHlc(row, data[i].name).Some? &&
                        Passes(EffectiveHlc(row, data[i].name).value, after, filters)
  {
    hide EffectiveHlc, Passes, ChangeFor;
    if n > 0 {
      EmittedIsNewsIff(env, id, row, data, after, filters, device, n - 1);
    }
  }

  /** A row's part of the scan since a cursor is the filtered part of the full scan, unless the prefilter hides news. */
  lemma RowSinceCursor(env: Env, id: RowId, row: Row, cursor: string, filters: Filters, device: string)
    ensures var full := NewerThan(ScannedRow(env, id, row, None, filters, device), cursor);
            if HidesNews(env, id, row, cursor, filters)
            then full != [] && ScannedRow(env, id, row, Some(cursor), filters, device) == []
            else ScannedRow(env, id, row, Some(cursor), filters, device) == full
  {
    hide Rank, Emitted, NewerThan, TextLess, EffectiveHlc, Passes, Matches;
    var data := DataColumns(Columns(env, id.table));
    NothingNewer([], cursor);
    EmittedSince(env, id, row, data, cursor, filters, device, |data|);
    EmittedIsNewsIff(env, id, row, data, Some(cursor), filters, device, |data|);
    assert forall i | 0 <= i < |data| :: data[i] in data;
  }

  lemma {:induction false} CursorScanIsShorter(
      env: Env, rows: Rows, order: seq<RowId>, cursor: string, filters: Filters, device: string)
    ensures var (part, full) := (ScanOf(env, rows, order, Some(cursor), filters, device),
                                 NewerThan(ScanOf(env, rows, order, None, filters, device), cursor));
            if exists id :: id in order && id in rows && HidesNews(env, id, rows[id], cursor, filters)
            then |part| < |full| else part == full
  {
    hide Rank, HidesNews, ScannedRow, NewerThan;
    NothingNewer([], cursor);
    if order != [] {
      var front, id := order[..|order| - 1], order[|order| - 1];
      CursorScanIsShorter(env, rows, front, cursor, filters, device);
      var tail := if id in rows then ScannedRow(env, id, rows[id], None, filters, device) else [];
      NewerThanConcat(ScanOf(env, rows, front, None, filters, device), tail, cursor);
      assert forall x :: x in order <==> x in front || x == id;
      if id in rows {
        RowSinceCursor(env, id, rows[id], cursor, filters, device);
      }
    }
  }

  /**
   * A scan since a cursor returns exactly the changes of the full scan that
   * are numerically newer, in the same order, if and only if the prefilter
   * hides no news.
   */
  lemma CursorScanIff(env: Env, rows: Rows, order: seq<RowId>, cursor: string, filters: Filters, device: string)
    ensures ScanOf(env, rows, order, Some(cursor), filters, device) ==
            NewerThan(ScanOf(env, rows, order, None, filters, device), cursor)
            <==> forall id | id in order && id in rows :: !HidesNews(env, id, rows[id], cursor, filters)
  {
    hide HidesNews, ScanOf, NewerThan;
    CursorScanIsShorter(env, rows, order, cursor, filters, device);
  }

  lemma RegularRowHidesNothing(env: Env, id: RowId, row: Row, cursor: string, filters: Filters, w: nat, v: nat)
    requires RegularRow(row, w, v) && FixedWidth(cursor, w, v)
    ensures !HidesNews(env, id, row, cursor, filters)
  {
    hide Rank, FixedWidth, TextLess;
    if !Prefiltered(row, Some(cursor)) {
      TextOrderIsClockOrder(cursor, row.hlc.value, w, v);
      forall c | c in DataColumns(Columns(env, id.table)) && EffectiveHlc(row, c.name).Some?
        ensures !Newer(EffectiveHlc(row, c.name).value, cursor)
      {
      }
    }
  }

  /**
   * With fixed-width timestamps and row HLCs that dominate their columns the
   * prefilter hides nothing, so the cursor scan is exact.
   */
  lemma CursorScanRefinesFullScan(
      env: Env, rows: Rows, order: seq<RowId>, cursor: string, filters: Filters, device: string, w: nat, v: nat)
    requires FixedWidth(cursor, w, v)
    requires forall id | id in order && id in rows :: RegularRow(rows[id], w, v)
    ensures ScanOf(env, rows, order, Some(cursor), filters, device) ==
            NewerThan(ScanOf(env, rows, order, None, filters, device), cursor)
  {
    hide FixedWidth, RegularRow, HidesNews, ScanOf, NewerThan;
    forall id | id in order && id in rows
      ensures !HidesNews(env, id, rows[id], cursor, filters)
    {
      RegularRowHidesNothing(env, id, rows[id], cursor, filters, w, v);
    }
    CursorScanIff(env, rows, order, cursor, filters, device);
  }

  lemma {:induction false} NewerThanConcat(a: seq<Change>, b: seq<Change>, cursor: string)
    ensures NewerThan(a + b, cursor) == NewerThan(a, cursor) + NewerThan(b, cursor)
  {
    hide Rank, Newer;
    if b == [] {
      assert a + b == a;
      assert NewerThan(a, cursor) + [] == NewerThan(a, cursor);
    } else {
      var front, last := b[..|b| - 1], b[|b| - 1];
      NewerThanConcat(a, front, cursor);
      assert (a + b)[..|a + b| - 1] == a + front;
      var tail := if Newer(last.hlc, cursor) then [last] else [];
      assert NewerThan(a, cursor) + NewerThan(front, cursor) + tail == NewerThan(a, cursor) + (NewerThan(front, cursor) + tail);
    }
  }
}
