/**
 * The per-connection state behind `current_hlc()` and the change observer,
 * and the three SQLite hooks that drive it.
 */
module TxContext {
  import opened Common
  import opened Clock

  predicate StartsWith(s: string, prefix: string) {
    |prefix| <= |s| && s[..|prefix|] == prefix
  }

  /** The crate's own tables, which no observer is told about. */
  predicate Bookkeeping(table: string) {
    StartsWith(table, "haex_crdt_") || StartsWith(table, "haex_app_migrations_")
  }

  class ConnectionContext {
    var slot: Option<Timestamp>
    var writePending: bool
    var changed: set<string>
    var observing: bool
    /** What the observer has been handed, oldest first. */
    var delivered: seq<set<string>>

    constructor ()
      ensures slot == None && !writePending && changed == {} && !observing && delivered == []
    {
      slot, writePending, changed, observing, delivered := None, false, {}, false, [];
    }

    method SetObserver(on: bool)
      modifies this`observing
      ensures observing == on
    {
      observing := on;
    }

    method RecordChange(table: string)
      modifies this`changed
      ensures changed == old(changed) + (if Bookkeeping(table) then {} else {table})
    {
      if Bookkeeping(table) {
        return;
      }
      if table !in changed {
        changed := changed + {table};
      }
    }

    method PublishChanges()
      modifies this`changed, this`delivered
      ensures changed == {}
      ensures delivered == old(delivered) + (if old(changed) != {} && observing then [old(changed)] else [])
    {
      var taken := changed;
      changed := {};
      if taken == {} {
        return;
      }
      if observing {
        delivered := delivered + [taken];
      }
    }

    method DiscardChanges()
      modifies this`changed
      ensures changed == {}
    {
      changed := {};
    }

    /** A pinned timestamp is reused; otherwise a fresh one is drawn and remembered. */
    method CurrentOrNewTxHlc(clock: HlcService, reading: nat) returns (t: Timestamp)
      modifies this`slot, clock
      ensures slot == Some(t)
      ensures if writePending && old(slot).Some? then t == old(slot).value && clock.last == old(clock.last)
              else t == Timestamp(clock.last, clock.node) && clock.last > old(clock.last)
    {
      if writePending {
        if slot.Some? {
          return slot.value;
        }
      }
      t := clock.NewTimestamp(reading);
      slot := Some(t);
    }

    method MarkWritePending()
      modifies this`writePending
      ensures writePending
    {
      writePending := true;
    }

    method ResetTxSlot()
      modifies this`slot, this`writePending
      ensures slot == None && !writePending
    {
      slot := None;
      writePending := false;
    }

    method CommitHook()
      modifies this
      ensures slot == None && !writePending && changed == {} && observing == old(observing)
      ensures delivered == old(delivered) + (if old(changed) != {} && observing then [old(changed)] else [])
    {
      ResetTxSlot();
      PublishChanges();
    }

    method RollbackHook()
      modifies this
      ensures slot == None && !writePending && changed == {}
      ensures observing == old(observing) && delivered == old(delivered)
    {
      ResetTxSlot();
      DiscardChanges();
    }

    method PreupdateHook(table: string)
      modifies this`writePending, this`changed
      ensures writePending && changed == old(changed) + (if Bookkeeping(table) then {} else {table})
    {
      MarkWritePending();
      RecordChange(table);
    }
  }

  /** Whatever can happen on the connection, and the shared clock moving for other reasons. */
  datatype Event =
    | Call(reading: nat)
    | RowWrite(table: string)
    | Commit
    | Rollback
    | Observe(on: bool)
    | ClockMoves(time: nat)

  predicate Boundary(e: Event) {
    e.Commit? || e.Rollback?
  }

  /** No transaction ends between `i` and `k`. */
  predicate SameTransaction(events: seq<Event>, i: nat, k: nat)
    requires i <= k <= |events|
  {
    forall j | i <= j < k :: !Boundary(events[j])
  }

  /** Some row was written in the transaction open before event `k`. */
  predicate HasWritten(events: seq<Event>, k: nat)
    requires k <= |events|
  {
    k > 0 && !Boundary(events[k - 1]) && (events[k - 1].RowWrite? || HasWritten(events, k - 1))
  }

  /** The latest call in the transaction open before event `k`. */
  function LastCall(events: seq<Event>, k: nat): (r: Option<nat>)
    requires k <= |events|
    ensures r.Some? ==> r.value < k && events[r.value].Call? && SameTransaction(events, r.value, k)
    ensures r.Some? ==> forall j | r.value < j < k :: !events[j].Call?
  {
    if k == 0 || Boundary(events[k - 1]) then None
    else if events[k - 1].Call? then Some(k - 1)
    else LastCall(events, k - 1)
  }

  /** The tables recorded in the transaction open before event `k`. */
  function Recorded(events: seq<Event>, k: nat): set<string>
    requires k <= |events|
  {
    if k == 0 || Boundary(events[k - 1]) then {}
    else Recorded(events, k - 1) +
         (if events[k - 1].RowWrite? && !Bookkeeping(events[k - 1].table) then {events[k - 1].table} else {})
  }

  predicate Observing(events: seq<Event>, k: nat)
    requires k <= |events|
  {
    k > 0 && if events[k - 1].Observe? then events[k - 1].on else Observing(events, k - 1)
  }

  /** The answer to call `k` is newer than every answer before it. */
  predicate Fresh(answers: seq<Option<Timestamp>>, k: nat)
    requires k < |answers|
  {
    && answers[k].Some?
    && forall i | 0 <= i < k && answers[i].Some? :: StampRank(answers[i].value) < StampRank(answers[k].value)
  }

  /** Call `k` repeats the latest answer once a row is written, and is fresh otherwise. */
  predicate AnswerAt(events: seq<Event>, answers: seq<Option<Timestamp>>, k: nat)
    requires k < |events| && k < |answers|
  {
    && (answers[k].Some? <==> events[k].Call?)
    && (events[k].Call? ==>
          if HasWritten(events, k) && LastCall(events, k).Some? then answers[k] == answers[LastCall(events, k).value]
          else Fresh(answers, k))
  }

  predicate Answers(events: seq<Event>, answers: seq<Option<Timestamp>>) {
    |answers| == |events| && forall k | 0 <= k < |events| :: AnswerAt(events, answers, k)
  }

  function DeliveredAt(events: seq<Event>, k: nat): seq<set<string>>
    requires k < |events|
  {
    if events[k].Commit? && Recorded(events, k) != {} && Observing(events, k) then [Recorded(events, k)] else []
  }

  /** What the observer gets over the first `k` events. */
  function Deliveries(events: seq<Event>, k: nat): seq<set<string>>
    requires k <= |events|
  {
    if k == 0 then [] else Deliveries(events, k - 1) + DeliveredAt(events, k - 1)
  }

  /** The context and clock as they stand after `k` events. */
  ghost predicate Reflects(ctx: ConnectionContext, clock: HlcService, events: seq<Event>, answers: seq<Option<Timestamp>>, k: nat)
    requires k <= |events| && k <= |answers|
    reads ctx, clock
  {
    && ctx.writePending == HasWritten(events, k)
    && ctx.slot == (if LastCall(events, k).Some? then answers[LastCall(events, k).value] else None)
    && ctx.changed == Recorded(events, k)
    && ctx.observing == Observing(events, k)
    && ctx.delivered == Deliveries(events, k)
    && forall i | 0 <= i < k && answers[i].Some? :: answers[i].value.time <= clock.last && answers[i].value.node == clock.node
  }

  /** One event. */
  method Step(ctx: ConnectionContext, clock: HlcService, e: Event) returns (answer: Option<Timestamp>)
    modifies ctx, clock
    ensures clock.last >= old(clock.last)
    ensures ctx.writePending == (!Boundary(e) && (e.RowWrite? || old(ctx.writePending)))
    ensures ctx.slot == if Boundary(e) then None else if e.Call? then answer else old(ctx.slot)
    ensures ctx.changed == if Boundary(e) then {}
                           else old(ctx.changed) + if e.RowWrite? && !Bookkeeping(e.table) then {e.table} else {}
    ensures ctx.observing == if e.Observe? then e.on else old(ctx.observing)
    ensures ctx.delivered == old(ctx.delivered) +
                             if e.Commit? && old(ctx.changed) != {} && old(ctx.observing) then [old(ctx.changed)] else []
    ensures answer.Some? <==> e.Call?
    ensures e.Call? ==>
              if old(ctx.writePending) && old(ctx.slot).Some? then answer == old(ctx.slot)
              else answer == Some(Timestamp(clock.last, clock.node)) && clock.last > old(clock.last)
  {
    answer := None;
    match e {
      case Call(reading) =>
        var t := ctx.CurrentOrNewTxHlc(clock, reading);
        answer := Some(t);
      case RowWrite(table) => ctx.PreupdateHook(table);
      case Commit => ctx.CommitHook();
      case Rollback => ctx.RollbackHook();
      case Observe(on) => ctx.SetObserver(on);
      case ClockMoves(time) => clock.last := if time > clock.last then time else clock.last;
    }
  }

  lemma AnswerStays(events: seq<Event>, answers: seq<Option<Timestamp>>, next: Option<Timestamp>, i: nat)
    requires i < |events| && i < |answers|
    requires AnswerAt(events, answers, i)
    ensures AnswerAt(events, answers + [next], i)
  {
    hide HasWritten, SameTransaction, StampRank;
    var more := answers + [next];
    assert forall j | 0 <= j <= i :: more[j] == answers[j];
  }

  lemma NextAnswer(events: seq<Event>, answers: seq<Option<Timestamp>>, next: Option<Timestamp>, before: nat)
    requires |answers| < |events| && (next.Some? <==> events[|answers|].Call?)
    requires next.Some? ==> forall i | 0 <= i < |answers| && answers[i].Some? ::
                              answers[i].value.time <= before && answers[i].value.node == next.value.node
    requires next.Some? ==>
               if HasWritten(events, |answers|) && LastCall(events, |answers|).Some?
               then next == answers[LastCall(events, |answers|).value]
               else before < next.value.time
    ensures AnswerAt(events, answers + [next], |answers|)
  {
    hide HasWritten, SameTransaction;
  }

  /** Over any sequence of events from a new connection, the answers and deliveries follow the event history alone. */
  method Run(clock: HlcService, events: seq<Event>) returns (answers: seq<Option<Timestamp>>, delivered: seq<set<string>>)
    modifies clock
    ensures Answers(events, answers)
    ensures delivered == Deliveries(events, |events|)
  {
    hide SameTransaction, StampRank, Bookkeeping, Fresh, AnswerAt;
    var ctx := new ConnectionContext();
    answers := [];
    for k := 0 to |events|
      invariant |answers| == k
      invariant Reflects(ctx, clock, events, answers, k)
      invariant forall i | 0 <= i < k :: answers[i].Some? <==> events[i].Call?
      invariant forall i | 0 <= i < k :: AnswerAt(events, answers, i)
    {
      ghost var before := clock.last;
      assert ctx.slot == if LastCall(events, k).Some? then answers[LastCall(events, k).value] else None;
      assert forall i | 0 <= i < k && answers[i].Some? :: answers[i].value.time <= before && answers[i].value.node == clock.node;
      var answer := Step(ctx, clock, events[k]);
      forall i | 0 <= i < k
        ensures AnswerAt(events, answers + [answer], i)
      {
        AnswerStays(events, answers, answer, i);
      }
      NextAnswer(events, answers, answer, before);
      answers := answers + [answer];
    }
    delivered := ctx.delivered;
  }

  lemma {:induction false} WrittenMeans(events: seq<Event>, k: nat)
    requires k <= |events|
    ensures HasWritten(events, k) <==> exists w: nat :: w < k && events[w].RowWrite? && SameTransaction(events, w, k)
  {
    if k > 0 && !Boundary(events[k - 1]) {
      WrittenMeans(events, k - 1);
      if HasWritten(events, k) {
        if events[k - 1].RowWrite? {
          assert SameTransaction(events, k - 1, k);
        } else {
          var w: nat :| w < k - 1 && events[w].RowWrite? && SameTransaction(events, w, k - 1);
          assert SameTransaction(events, w, k);
        }
      }
      if w: nat :| w < k && events[w].RowWrite? && SameTransaction(events, w, k) {
        if w < k - 1 {
          assert SameTransaction(events, w, k - 1);
        }
      }
    } else {
      forall w: nat | w < k && events[w].RowWrite?
        ensures !SameTransaction(events, w, k)
      {
        assert Boundary(events[k - 1]);
      }
    }
  }

  lemma {:induction false} LastCallReaches(events: seq<Event>, i: nat, k: nat)
    requires i < k <= |events| && events[i].Call? && SameTransaction(events, i, k)
    ensures LastCall(events, k).Some? && i <= LastCall(events, k).value
    decreases k
  {
    assert !Boundary(events[k - 1]);
    if i < k - 1 {
      LastCallReaches(events, i, k - 1);
    }
  }

  /** All calls after a transaction's first row write answer alike, and like the last call before it. */
  lemma {:induction false} OneTimestampPerTransaction(events: seq<Event>, answers: seq<Option<Timestamp>>, i: nat, w: nat, k: nat)
    requires Answers(events, answers)
    requires i < k < |events| && events[i].Call? && events[k].Call?
    requires w < k && events[w].RowWrite? && SameTransaction(events, i, k) && SameTransaction(events, w, k)
    requires forall j | i < j < w :: !events[j].Call?
    ensures answers[k] == answers[i]
    decreases k
  {
    hide Fresh;
    WrittenMeans(events, k);
    LastCallReaches(events, i, k);
    var p := LastCall(events, k).value;
    assert AnswerAt(events, answers, k);
    if p != i {
      assert w < p;
      OneTimestampPerTransaction(events, answers, i, w, p);
    }
  }

  /** Every answer is some fresh draw of the same transaction. */
  lemma {:induction false} DrawnHere(events: seq<Event>, answers: seq<Option<Timestamp>>, k: nat) returns (d: nat)
    requires Answers(events, answers) && k < |events| && events[k].Call?
    ensures d <= k && events[d].Call? && SameTransaction(events, d, k)
    ensures answers[d] == answers[k] && Fresh(answers, d)
    decreases k
  {
    hide Fresh;
    assert AnswerAt(events, answers, k);
    if HasWritten(events, k) && LastCall(events, k).Some? {
      d := DrawnHere(events, answers, LastCall(events, k).value);
    } else {
      d := k;
    }
  }

  /** Timestamps of a later transaction are strictly newer than those of an earlier one. */
  lemma LaterTransactionsAreNewer(events: seq<Event>, answers: seq<Option<Timestamp>>, i: nat, b: nat, k: nat)
    requires Answers(events, answers)
    requires i < b < k < |events| && events[i].Call? && events[k].Call? && Boundary(events[b])
    ensures answers[i].Some? && answers[k].Some? && StampRank(answers[i].value) < StampRank(answers[k].value)
  {
    hide StampRank;
    var d := DrawnHere(events, answers, k);
    assert d > b;
    assert AnswerAt(events, answers, i);
  }

  /** A read-only call never pins: without a row write before it, it is newer than every earlier answer. */
  lemma ReadOnlyCallsAreFresh(events: seq<Event>, answers: seq<Option<Timestamp>>, i: nat, k: nat)
    requires Answers(events, answers) && i < k < |events| && events[i].Call? && events[k].Call?
    requires forall w: nat | w < k && events[w].RowWrite? :: !SameTransaction(events, w, k)
    ensures answers[i].Some? && answers[k].Some? && StampRank(answers[i].value) < StampRank(answers[k].value)
  {
    hide StampRank;
    WrittenMeans(events, k);
    assert AnswerAt(events, answers, k) && AnswerAt(events, answers, i);
  }

  lemma BookkeepingMeans(table: string)
    ensures Bookkeeping(table) <==> exists rest :: table == "haex_crdt_" + rest || table == "haex_app_migrations_" + rest
  {
    PrefixMeans(table, "haex_crdt_");
    PrefixMeans(table, "haex_app_migrations_");
  }

  lemma PrefixMeans(s: string, prefix: string)
    ensures StartsWith(s, prefix) <==> exists rest :: s == prefix + rest
  {
    if StartsWith(s, prefix) {
      assert s == prefix + s[|prefix|..];
    }
  }

  /** A commit publishes exactly the tables, bookkeeping aside, written since the last boundary. */
  lemma {:induction false} RecordedMeans(events: seq<Event>, k: nat, table: string)
    requires k <= |events|
    ensures table in Recorded(events, k) <==>
            !(exists rest :: table == "haex_crdt_" + rest || table == "haex_app_migrations_" + rest)
            && exists w: nat :: w < k && events[w] == RowWrite(table) && SameTransaction(events, w, k)
  {
    hide Bookkeeping;
    BookkeepingMeans(table);
    if k > 0 && !Boundary(events[k - 1]) {
      RecordedMeans(events, k - 1, table);
      if events[k - 1] == RowWrite(table) {
        assert SameTransaction(events, k - 1, k);
      }
      if w: nat :| w < k - 1 && events[w] == RowWrite(table) && SameTransaction(events, w, k - 1) {
        assert SameTransaction(events, w, k);
      }
      if w: nat :| w < k && events[w] == RowWrite(table) && SameTransaction(events, w, k) {
        if w < k - 1 {
          assert SameTransaction(events, w, k - 1);
        }
      }
    } else {
      forall w: nat | w < k && events[w] == RowWrite(table)
        ensures !SameTransaction(events, w, k)
      {
        assert Boundary(events[k - 1]);
      }
    }
  }

  /** What is delivered over a run is what each commit delivers, in commit order. */
  lemma {:induction false} EveryDeliveryIsACommit(events: seq<Event>, k: nat, tables: set<string>)
    requires k <= |events|
    ensures tables in Deliveries(events, k) <==>
            exists c: nat :: c < k && events[c].Commit? && Observing(events, c) && tables != {} && tables == Recorded(events, c)
  {
    hide Recorded, Observing;
    if k > 0 {
      EveryDeliveryIsACommit(events, k - 1, tables);
    }
  }

  /** The statement path: the literal stamped into the SQL is the timestamp every trigger call of the transaction will see. */
  method TxScopedHlc(ctx: ConnectionContext, clock: HlcService, reading: nat) returns (t: Timestamp)
    modifies ctx`slot, clock
    ensures ctx.slot == Some(t) && clock.last >= old(clock.last) && clock.last >= t.time
    ensures ctx.writePending && old(ctx.slot).Some? ==> t == old(ctx.slot).value
    ensures !(ctx.writePending && old(ctx.slot).Some?) ==> t.time > old(clock.last) && t.node == clock.node
  {
    t := ctx.CurrentOrNewTxHlc(clock, reading);
    clock.last := if t.time > clock.last then t.time else clock.last;
  }
}
