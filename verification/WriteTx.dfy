/** The write transaction handed to a caller: its byte budget and its abort flag. */
module WriteTx {
  import opened Common

  const USIZE_MAX: nat := 0xFFFF_FFFF_FFFF_FFFF

  datatype Param =
    | NullParam
    | Number
    | Bytes(len: nat)
    | Unsized
    | Unconvertible

  /** What one parameter weighs; a parameter of no known size outweighs every limit. */
  function ParamBytes(p: Param): nat {
    match p
    case NullParam => 0
    case Number => 8
    case Bytes(len) => len
    case Unsized => USIZE_MAX
    case Unconvertible => 0
  }

  function Saturate(n: nat): nat {
    if n > USIZE_MAX then USIZE_MAX else n
  }

  /** The saturating fold over the parameters. */
  function SerializedParameterBytes(params: seq<Param>): Option<nat> {
    if params == [] then Some(0)
    else
      match SerializedParameterBytes(params[..|params| - 1])
      case None => None
      case Some(total) =>
        if params[|params| - 1].Unconvertible? then None
        else Some(Saturate(total + Saturate(ParamBytes(params[|params| - 1]))))
  }

  /** The true total. */
  function TotalBytes(params: seq<Param>): nat {
    if params == [] then 0 else TotalBytes(params[..|params| - 1]) + ParamBytes(params[|params| - 1])
  }

  lemma {:induction false} FoldIsSaturatedTotal(params: seq<Param>)
    ensures SerializedParameterBytes(params) == if Unconvertible in params then None else Some(Saturate(TotalBytes(params)))
  {
    if params != [] {
      var front, last := params[..|params| - 1], params[|params| - 1];
      FoldIsSaturatedTotal(front);
      assert params == front + [last];
    }
  }

  lemma TotalOneMore(params: seq<Param>, p: Param)
    ensures TotalBytes(params + [p]) == TotalBytes(params) + ParamBytes(p)
  {
    assert (params + [p])[..|params|] == params;
  }

  /** The sizes SQLite stores, by an example with a parameter of each kind. */
  lemma StoredSizes()
    ensures SerializedParameterBytes([Bytes(4), Number, Number, Bytes(3), NullParam]) == Some(4 + 8 + 8 + 3)
  {
    var params := [Bytes(4), Number, Number, Bytes(3), NullParam];
    TotalOneMore([], Bytes(4));
    TotalOneMore([Bytes(4)], Number);
    TotalOneMore([Bytes(4), Number], Number);
    TotalOneMore([Bytes(4), Number, Number], Bytes(3));
    TotalOneMore([Bytes(4), Number, Number, Bytes(3)], NullParam);
    assert TotalBytes([]) == 0 && [] + [Bytes(4)] == [Bytes(4)];
    assert [Bytes(4)] + [Number] == [Bytes(4), Number];
    assert [Bytes(4), Number] + [Number] == [Bytes(4), Number, Number];
    assert [Bytes(4), Number, Number] + [Bytes(3)] == [Bytes(4), Number, Number, Bytes(3)];
    assert [Bytes(4), Number, Number, Bytes(3)] + [NullParam] == params;
    assert TotalBytes(params) == 23;
    assert forall i | 0 <= i < |params| :: params[i] != Unconvertible;
    FoldIsSaturatedTotal(params);
  }

  /** A parameter of no known size fits no transaction. */
  lemma {:induction false} UnsizedWeighsAll(params: seq<Param>)
    requires Unsized in params
    ensures TotalBytes(params) >= USIZE_MAX
  {
    var front, last := params[..|params| - 1], params[|params| - 1];
    assert params == front + [last];
    if Unsized in front {
      UnsizedWeighsAll(front);
    }
  }

  /** The saturating check enforces the limit on true totals unless the limit is the saturation value itself. */
  lemma LimitIsExactUnlessSaturated(written: nat, limit: nat, params: seq<Param>)
    requires written <= USIZE_MAX && limit <= USIZE_MAX && Unconvertible !in params
    ensures Saturate(written + SerializedParameterBytes(params).GetOr(0)) <= limit <==>
            written + TotalBytes(params) <= limit || limit == USIZE_MAX
  {
    FoldIsSaturatedTotal(params);
  }

  datatype Reason =
    | TransactionAborted
    | UnsupportedStatement
    | TransactionTooLarge
    | BadParameter
    | StatementFailed
    | Interrupted
    | GuardFailed
    | SchemaFailed

  datatype Reply = Done | Failed(reason: Reason)

  /** One statement call: through `run`, or as a verbatim copy. */
  datatype Call = Run(params: seq<Param>) | CopyRowsVerbatim(params: seq<Param>)

  datatype GuardRun = InstallFails | RestoreFails | Runs

  /** How the parser, the transformer, the schema machinery, the guard and SQLite respond to one call. */
  datatype World = World(
    parses: bool, isQuery: bool, renames: bool, skipsTransform: bool, stamps: bool, changesSchema: bool,
    rewrites: bool, begins: bool, guard: GuardRun, succeeds: bool, interrupted: bool, completes: bool,
    autocommit: bool, autocommitAfterRollback: bool)

  /** A caller's statement that was handed to SQLite. */
  datatype Entry = Entry(write: bool, bytes: nat)

  function WriteBytes(log: seq<Entry>): nat {
    if log == [] then 0
    else WriteBytes(log[..|log| - 1]) + if log[|log| - 1].write then log[|log| - 1].bytes else 0
  }

  lemma LogGrows(log: seq<Entry>, e: Entry)
    ensures WriteBytes(log + [e]) == WriteBytes(log) + if e.write then e.bytes else 0
  {
    assert (log + [e])[..|log|] == log;
  }

  datatype Prepared = Ready(schema: bool) | NotReady(reason: Reason)

  /** How a write was opened. */
  datatype Setup = Setup(maxBytes: nat, guarded: bool, schemaMode: bool, localMode: bool)

  /** The parameters convert and fit what is left of the limit. */
  predicate Fits(s: Setup, written: nat, params: seq<Param>) {
    Unconvertible !in params && written + TotalBytes(params) <= s.maxBytes
  }

  /** The transformer takes the write, or a guarded local write goes past it. */
  predicate Transforms(s: Setup, w: World) {
    if s.guarded then !w.renames && (w.stamps || (s.localMode && w.skipsTransform)) else w.stamps
  }

  predicate ChangesSchema(s: Setup, w: World) {
    s.guarded && !w.isQuery && w.changesSchema && !(s.localMode && w.skipsTransform)
  }

  /** A statement is ready to run: it parses, and it is a query or a write that fits and transforms. */
  predicate Prepares(s: Setup, written: nat, params: seq<Param>, w: World) {
    w.parses && (w.isQuery || (Fits(s, written, params) && Transforms(s, w)))
  }

  /** Whether the call's statement is handed to SQLite in an open transaction. */
  predicate Reaches(s: Setup, written: nat, c: Call, w: World) {
    && (s.guarded ==> !w.guard.InstallFails?)
    && match c
       case Run(params) => Prepares(s, written, params, w) && (ChangesSchema(s, w) ==> w.begins)
       case CopyRowsVerbatim(params) =>
         s.guarded && s.schemaMode && w.parses && w.rewrites && w.begins && Fits(s, written, params)
  }

  /** The call ends with a schema change that has to be completed. */
  predicate Completes(s: Setup, c: Call, w: World) {
    c.CopyRowsVerbatim? || ChangesSchema(s, w)
  }

  /** Whether the call succeeds. */
  predicate Succeeds(s: Setup, written: nat, c: Call, w: World) {
    && Reaches(s, written, c, w) && w.succeeds
    && (s.guarded ==> w.guard.Runs? && !w.interrupted)
    && (Completes(s, c, w) ==> w.completes)
  }

  /** Whether the call aborts the open transaction: an interrupt, or a failure that SQLite answered by rolling back. */
  predicate Aborts(s: Setup, written: nat, c: Call, w: World) {
    || (Reaches(s, written, c, w) && (s.guarded ==> w.guard.Runs?) &&
        ((s.guarded && w.interrupted) || (!w.succeeds && w.autocommit)))
    || (c.Run? && Prepares(s, written, c.params, w) && ChangesSchema(s, w) && w.begins &&
        !Succeeds(s, written, c, w) && w.autocommitAfterRollback)
  }

  /** What the call adds to the byte count. */
  function Charges(s: Setup, c: Call, w: World): nat {
    var charged :=
      if c.Run? then w.parses && !w.isQuery
      else s.guarded && s.schemaMode && w.parses && w.rewrites;
    if charged && Unconvertible !in c.params then TotalBytes(c.params) else 0
  }

  /** Why a call that does not succeed failed: the first thing that went wrong. */
  predicate FailsFor(s: Setup, written: nat, c: Call, w: World, reason: Reason) {
    var accepted := if c.Run? then w.parses else s.guarded && s.schemaMode && w.parses && w.rewrites;
    var sized := c.Run? && w.isQuery;
    match reason
    case TransactionAborted => false
    case UnsupportedStatement => !accepted || (c.Run? && !w.isQuery && Fits(s, written, c.params) && !Transforms(s, w))
    case BadParameter => accepted && !sized && Unconvertible in c.params
    case TransactionTooLarge => accepted && !sized && Unconvertible !in c.params && written + TotalBytes(c.params) > s.maxBytes
    case SchemaFailed =>
      && (if c.Run? then Prepares(s, written, c.params, w) && ChangesSchema(s, w) else accepted && Fits(s, written, c.params))
      && (!w.begins || (Reaches(s, written, c, w) && w.guard.Runs? && !w.interrupted && w.succeeds && !w.completes))
    case GuardFailed =>
      && s.guarded && !w.guard.Runs?
      && (if c.Run? then Prepares(s, written, c.params, w) && (ChangesSchema(s, w) ==> w.begins)
          else accepted && w.begins && Fits(s, written, c.params))
    case Interrupted => Reaches(s, written, c, w) && s.guarded && w.guard.Runs? && w.interrupted
    case StatementFailed =>
      Reaches(s, written, c, w) && !w.succeeds && (s.guarded ==> w.guard.Runs? && !w.interrupted)
  }

  /** The reply an open transaction gives. */
  predicate Replies(s: Setup, written: nat, c: Call, w: World, reply: Reply) {
    match reply
    case Done => Succeeds(s, written, c, w)
    case Failed(reason) => FailsFor(s, written, c, w, reason)
  }

  /** A success reached SQLite and aborts nothing; an interrupt aborts; a refusal for size overcharges. */
  lemma RepliesMean(s: Setup, written: nat, c: Call, w: World)
    requires written <= USIZE_MAX && s.maxBytes < USIZE_MAX
    ensures Succeeds(s, written, c, w) ==> Reaches(s, written, c, w) && !Aborts(s, written, c, w)
    ensures Replies(s, written, c, w, Failed(Interrupted)) ==> Aborts(s, written, c, w)
    ensures Replies(s, written, c, w, Failed(TransactionTooLarge)) ==> Saturate(written + Charges(s, c, w)) > s.maxBytes
    ensures Reaches(s, written, c, w) && CallEntry(c, w).write ==>
              Saturate(written + Charges(s, c, w)) == written + TotalBytes(c.params) <= s.maxBytes
  {
    hide TotalBytes;
  }

  lemma DoneIff(s: Setup, written: nat, c: Call, w: World, reply: Reply)
    requires Replies(s, written, c, w, reply)
    ensures reply.Done? <==> Succeeds(s, written, c, w)
  {
    hide Replies, Succeeds;
    SuccessIsDone(s, written, c, w);
    if Succeeds(s, written, c, w) {
      RepliesAreUnique(s, written, c, w, reply, Done);
    }
  }

  lemma SuccessIsDone(s: Setup, written: nat, c: Call, w: World)
    ensures Succeeds(s, written, c, w) <==> Replies(s, written, c, w, Done)
  {
  }

  lemma UnpreparedMeans(s: Setup, written: nat, params: seq<Param>, w: World)
    ensures !Prepares(s, written, params, w) ==>
              !Reaches(s, written, Run(params), w) && !Succeeds(s, written, Run(params), w) && !Aborts(s, written, Run(params), w)
  {
  }

  lemma UnfitCopy(s: Setup, written: nat, params: seq<Param>, w: World)
    requires written <= USIZE_MAX && s.maxBytes < USIZE_MAX
    ensures !(s.guarded && s.schemaMode && w.parses && w.rewrites && Fits(s, written, params)) ==>
              var c := CopyRowsVerbatim(params); !Reaches(s, written, c, w) && !Succeeds(s, written, c, w) && !Aborts(s, written, c, w)
    ensures Fits(s, written, params) <==>
            Unconvertible !in params && Saturate(written + Saturate(TotalBytes(params))) <= s.maxBytes
    ensures Saturate(written + Saturate(TotalBytes(params))) == Saturate(written + TotalBytes(params))
    ensures Saturate(written + TotalBytes(params)) <= s.maxBytes <==> written + TotalBytes(params) <= s.maxBytes
  {
    hide TotalBytes;
  }

  lemma UnguardedKeepsSchema(s: Setup, w: World)
    ensures !s.guarded ==> !ChangesSchema(s, w)
  {
  }

  /** Exactly one reply fits. */
  lemma RepliesAreUnique(s: Setup, written: nat, c: Call, w: World, a: Reply, b: Reply)
    requires Replies(s, written, c, w, a) && Replies(s, written, c, w, b)
    ensures a == b
  {
    hide TotalBytes;
  }

  class CrdtTransaction {
    var writtenBytes: nat
    var aborted: bool
    var log: seq<Entry>
    const maxBytes: nat
    const guarded: bool
    const schemaMode: bool
    const localMode: bool

    /** What reached SQLite fits the limit, whatever the caller did with the errors. */
    ghost predicate Valid()
      reads this
    {
      maxBytes < USIZE_MAX && WriteBytes(log) <= writtenBytes && WriteBytes(log) <= maxBytes
    }

    function Opened(): Setup {
      Setup(maxBytes, guarded, schemaMode, localMode)
    }

    constructor (maxBytes: nat, guarded: bool, schemaMode: bool, localMode: bool)
      ensures writtenBytes == 0 && !aborted && log == []
      ensures this.maxBytes == maxBytes && this.guarded == guarded && this.schemaMode == schemaMode && this.localMode == localMode
    {
      writtenBytes, aborted, log := 0, false, [];
      this.maxBytes, this.guarded, this.schemaMode, this.localMode := maxBytes, guarded, schemaMode, localMode;
    }

    method EnsureOpen() returns (ok: bool)
      ensures ok <==> !aborted
    {
      ok := !aborted;
    }

    method NoteRollback(autocommit: bool)
      modifies this`aborted
      ensures aborted == (old(aborted) || autocommit)
    {
      if !aborted && autocommit {
        aborted := true;
      }
    }

    /** Bytes stay charged when the limit is crossed. */
    method Charge(params: seq<Param>) returns (refusal: Option<Reason>)
      modifies this`writtenBytes
      ensures Unconvertible in params ==> refusal == Some(BadParameter) && writtenBytes == old(writtenBytes)
      ensures Unconvertible !in params ==> writtenBytes == Saturate(old(writtenBytes) + Saturate(TotalBytes(params)))
      ensures Unconvertible !in params ==> refusal == if writtenBytes > maxBytes then Some(TransactionTooLarge) else None
    {
      FoldIsSaturatedTotal(params);
      var bytes := SerializedParameterBytes(params);
      if bytes.None? {
        return Some(BadParameter);
      }
      writtenBytes := Saturate(writtenBytes + bytes.value);
      refusal := if writtenBytes > maxBytes then Some(TransactionTooLarge) else None;
    }

    method Prepare(params: seq<Param>, w: World) returns (p: Prepared)
      requires writtenBytes <= USIZE_MAX && maxBytes < USIZE_MAX
      modifies this`writtenBytes
      ensures old(writtenBytes) <= writtenBytes <= USIZE_MAX
      ensures p.Ready? ==> w.parses
      ensures p.NotReady? ==> p.reason in {UnsupportedStatement, TransactionTooLarge, BadParameter}
      ensures p.NotReady? && p.reason.TransactionTooLarge? ==> writtenBytes > maxBytes
      ensures writtenBytes == Saturate(old(writtenBytes) + Charges(Opened(), Run(params), w))
      ensures p.Ready? <==> Prepares(Opened(), old(writtenBytes), params, w)
      ensures p.Ready? ==> (p.schema <==> ChangesSchema(Opened(), w))
      ensures p.NotReady? ==> FailsFor(Opened(), old(writtenBytes), Run(params), w, p.reason)
      ensures p.Ready? && w.isQuery ==> writtenBytes == old(writtenBytes) && !p.schema
      ensures p.Ready? && !w.isQuery ==> writtenBytes == old(writtenBytes) + TotalBytes(params) <= maxBytes
      ensures p.Ready? && p.schema ==> guarded && w.changesSchema
    {
      if !w.parses {
        return NotReady(UnsupportedStatement);
      }
      if w.isQuery {
        return Ready(false);
      }
      var refusal := Charge(params);
      if refusal.Some? {
        return NotReady(refusal.value);
      }
      if !guarded {
        return if w.stamps then Ready(false) else NotReady(UnsupportedStatement);
      }
      if w.renames {
        return NotReady(UnsupportedStatement);
      }
      if localMode && w.skipsTransform {
        return Ready(false);
      }
      if !w.stamps {
        return NotReady(UnsupportedStatement);
      }
      p := Ready(w.changesSchema);
    }

    method Finish(succeeds: bool, interrupted: bool, autocommit: bool) returns (reply: Reply)
      modifies this`aborted
      ensures aborted == (old(aborted) || interrupted || (!succeeds && autocommit))
      ensures reply == if interrupted then Failed(Interrupted) else if succeeds then Done else Failed(StatementFailed)
    {
      if interrupted {
        aborted := true;
        return Failed(Interrupted);
      }
      if succeeds {
        return Done;
      }
      NoteRollback(autocommit);
      reply := Failed(StatementFailed);
    }

    /** Hand the caller's statement to SQLite. */
    method Exec(write: bool, bytes: nat)
      modifies this`log
      ensures log == old(log) + [Entry(write, bytes)]
      ensures WriteBytes(log) == WriteBytes(old(log)) + if write then bytes else 0
    {
      LogGrows(log, Entry(write, bytes));
      log := log + [Entry(write, bytes)];
    }

    method RunStatement(params: seq<Param>, w: World) returns (reply: Reply)
      requires Valid() && writtenBytes <= USIZE_MAX
      modifies this
      ensures Valid() && old(writtenBytes) <= writtenBytes <= USIZE_MAX
      ensures old(aborted) ==> reply == Failed(TransactionAborted) && log == old(log) && writtenBytes == old(writtenBytes)
      ensures log == old(log) || log == old(log) + [Entry(!w.isQuery, if w.isQuery then 0 else TotalBytes(params))]
      ensures log != old(log) && !w.isQuery ==> writtenBytes == old(writtenBytes) + TotalBytes(params) <= maxBytes
      ensures reply.Done? ==> log != old(log) && !aborted
      ensures old(aborted) ==> aborted
      ensures reply == Failed(Interrupted) ==> aborted
      ensures reply == Failed(TransactionTooLarge) ==> writtenBytes > maxBytes
      ensures log != old(log) <==> !old(aborted) && Reaches(Opened(), old(writtenBytes), Run(params), w)
      ensures reply.Done? <==> !old(aborted) && Succeeds(Opened(), old(writtenBytes), Run(params), w)
      ensures !old(aborted) ==> Replies(Opened(), old(writtenBytes), Run(params), w, reply)
      ensures aborted <==> old(aborted) || Aborts(Opened(), old(writtenBytes), Run(params), w)
      ensures !old(aborted) ==> writtenBytes == Saturate(old(writtenBytes) + Charges(Opened(), Run(params), w))
    {
      hide TotalBytes, Fits, Prepares, Transforms, ChangesSchema, WriteBytes, Reaches, Aborts, Charges, FailsFor, Succeeds;
      ghost var c := Run(params);
      RepliesMean(Opened(), writtenBytes, c, w);
      var open := EnsureOpen();
      if !open {
        return Failed(TransactionAborted);
      }
      var prepared := Prepare(params, w);
      if prepared.NotReady? {
        UnpreparedMeans(Opened(), old(writtenBytes), params, w);
        return Failed(prepared.reason);
      }
      reply := RunPrepared(params, w, prepared.schema, old(writtenBytes));
      DoneIff(Opened(), old(writtenBytes), c, w, reply);
      LogGrows(old(log), CallEntry(c, w));
    }

    /** From the prepared statement to the reply. */
    method RunPrepared(params: seq<Param>, w: World, schema: bool, ghost written: nat) returns (reply: Reply)
      requires !aborted && written <= USIZE_MAX && maxBytes < USIZE_MAX
      requires Prepares(Opened(), written, params, w) && (schema <==> ChangesSchema(Opened(), w))
      modifies this`log, this`aborted
      ensures log == old(log) || log == old(log) + [CallEntry(Run(params), w)]
      ensures log != old(log) <==> Reaches(Opened(), written, Run(params), w)
      ensures Replies(Opened(), written, Run(params), w, reply)
      ensures aborted <==> Aborts(Opened(), written, Run(params), w)
    {
      hide TotalBytes, Fits, Prepares, Transforms, ChangesSchema, WriteBytes;
      var bytes := if w.isQuery then 0 else TotalBytes(params);
      if !guarded {
        assert !schema by {
          UnguardedKeepsSchema(Opened(), w);
        }
        Exec(!w.isQuery, bytes);
        reply := Finish(w.succeeds, false, w.autocommit);
        return;
      }
      if schema && !w.begins {
        return Failed(SchemaFailed);
      }
      if w.guard.InstallFails? {
        reply := Failed(GuardFailed);
      } else {
        Exec(!w.isQuery, bytes);
        if w.guard.RestoreFails? {
          reply := Failed(GuardFailed);
        } else {
          reply := Finish(w.succeeds, w.interrupted, w.autocommit);
        }
      }
      if !schema {
        return;
      }
      if reply.Done? && !w.completes {
        reply := Failed(SchemaFailed);
      }
      if reply.Failed? {
        NoteRollback(w.autocommitAfterRollback);
      }
    }

    method CopyVerbatim(params: seq<Param>, w: World) returns (reply: Reply)
      requires Valid() && writtenBytes <= USIZE_MAX
      modifies this
      ensures Valid() && old(writtenBytes) <= writtenBytes <= USIZE_MAX
      ensures old(aborted) ==> reply == Failed(TransactionAborted) && log == old(log) && writtenBytes == old(writtenBytes)
      ensures log == old(log) || log == old(log) + [Entry(true, TotalBytes(params))]
      ensures log != old(log) ==> guarded && schemaMode && writtenBytes == old(writtenBytes) + TotalBytes(params) <= maxBytes
      ensures reply.Done? ==> log != old(log) && !aborted
      ensures old(aborted) ==> aborted
      ensures reply == Failed(Interrupted) ==> aborted
      ensures reply == Failed(TransactionTooLarge) ==> writtenBytes > maxBytes
      ensures log != old(log) <==> !old(aborted) && Reaches(Opened(), old(writtenBytes), CopyRowsVerbatim(params), w)
      ensures reply.Done? <==> !old(aborted) && Succeeds(Opened(), old(writtenBytes), CopyRowsVerbatim(params), w)
      ensures !old(aborted) ==> Replies(Opened(), old(writtenBytes), CopyRowsVerbatim(params), w, reply)
      ensures aborted <==> old(aborted) || Aborts(Opened(), old(writtenBytes), CopyRowsVerbatim(params), w)
      ensures !old(aborted) ==> writtenBytes == Saturate(old(writtenBytes) + Charges(Opened(), CopyRowsVerbatim(params), w))
    {
      hide TotalBytes, WriteBytes, Reaches, Aborts, Succeeds, Fits;
      ghost var c := CopyRowsVerbatim(params);
      RepliesMean(Opened(), writtenBytes, c, w);
      UnfitCopy(Opened(), writtenBytes, params, w);
      var open := EnsureOpen();
      if !open {
        return Failed(TransactionAborted);
      }
      if !guarded || !schemaMode || !w.parses || !w.rewrites {
        return Failed(UnsupportedStatement);
      }
      var refusal := Charge(params);
      if refusal.Some? {
        return Failed(refusal.value);
      }
      reply := CopyCharged(params, w, old(writtenBytes));
      DoneIff(Opened(), old(writtenBytes), c, w, reply);
      LogGrows(old(log), CallEntry(c, w));
    }

    /** From the charged copy to the reply. */
    method CopyCharged(params: seq<Param>, w: World, ghost written: nat) returns (reply: Reply)
      requires !aborted && guarded && schemaMode && w.parses && w.rewrites && Fits(Opened(), written, params)
      modifies this`log, this`aborted
      ensures log == old(log) || log == old(log) + [CallEntry(CopyRowsVerbatim(params), w)]
      ensures log != old(log) <==> Reaches(Opened(), written, CopyRowsVerbatim(params), w)
      ensures Replies(Opened(), written, CopyRowsVerbatim(params), w, reply)
      ensures aborted <==> Aborts(Opened(), written, CopyRowsVerbatim(params), w)
    {
      hide TotalBytes, WriteBytes;
      assert Unconvertible !in params && written + TotalBytes(params) <= maxBytes;
      if !w.begins {
        return Failed(SchemaFailed);
      }
      if w.guard.InstallFails? {
        return Failed(GuardFailed);
      }
      Exec(true, TotalBytes(params));
      if w.guard.RestoreFails? {
        return Failed(GuardFailed);
      }
      reply := Finish(w.succeeds, w.interrupted, w.autocommit);
      if reply.Done? && !w.completes {
        reply := Failed(SchemaFailed);
      }
    }

    method Dispatch(c: Call, w: World) returns (reply: Reply)
      requires Valid() && writtenBytes <= USIZE_MAX
      modifies this
      ensures Valid() && old(writtenBytes) <= writtenBytes <= USIZE_MAX
      ensures old(aborted) ==> aborted && reply == Failed(TransactionAborted) && log == old(log) && writtenBytes == old(writtenBytes)
      ensures log == old(log) || log == old(log) + [CallEntry(c, w)]
      ensures log != old(log) && CallEntry(c, w).write ==> writtenBytes <= maxBytes
      ensures reply.Done? ==> log != old(log) && !aborted
      ensures reply == Failed(Interrupted) ==> aborted
      ensures reply == Failed(TransactionTooLarge) ==> writtenBytes > maxBytes
      ensures log != old(log) <==> !old(aborted) && Reaches(Opened(), old(writtenBytes), c, w)
      ensures !old(aborted) ==> Replies(Opened(), old(writtenBytes), c, w, reply)
      ensures aborted <==> old(aborted) || Aborts(Opened(), old(writtenBytes), c, w)
      ensures !old(aborted) ==> writtenBytes == Saturate(old(writtenBytes) + Charges(Opened(), c, w))
    {
      match c {
        case Run(params) => reply := RunStatement(params, w);
        case CopyRowsVerbatim(params) => reply := CopyVerbatim(params, w);
      }
    }
  }

  /** What a call puts on the log if it reaches SQLite at all. */
  function CallEntry(c: Call, w: World): Entry {
    if c.Run? && w.isQuery then Entry(false, 0) else Entry(true, TotalBytes(c.params))
  }

  /** One finished write: per call, its reply, whether its statement reached SQLite, and the abort flag after it. */
  datatype Trace = Trace(replies: seq<Reply>, reached: seq<bool>, aborted: seq<bool>)

  predicate Shaped(t: Trace, n: nat) {
    |t.replies| == |t.reached| == |t.aborted| == n
  }

  function ReachedBytes(calls: seq<(Call, World)>, reached: seq<bool>): nat
    requires |calls| >= |reached|
  {
    if reached == [] then 0
    else
      var n := |reached| - 1;
      ReachedBytes(calls, reached[..n]) +
      var e := CallEntry(calls[n].0, calls[n].1); if reached[n] && e.write then e.bytes else 0
  }

  /** An earlier call aborted the transaction. */
  predicate Stopped(aborted: seq<bool>, i: nat)
    requires i <= |aborted|
  {
    i > 0 && aborted[i - 1]
  }

  /** The bytes the first `n` calls were charged for, none of them once the transaction was aborted. */
  function ChargedBytes(s: Setup, calls: seq<(Call, World)>, aborted: seq<bool>, n: nat): nat
    requires n <= |calls| && n <= |aborted|
  {
    if n == 0 then 0
    else
      ChargedBytes(s, calls, aborted, n - 1) +
      if Stopped(aborted, n - 1) then 0 else Charges(s, calls[n - 1].0, calls[n - 1].1)
  }

  /** Call `i` did what its inputs, the bytes charged before it and the abort flag before it call for. */
  predicate Follows(s: Setup, calls: seq<(Call, World)>, t: Trace, i: nat)
    requires Shaped(t, |t.replies|) && i < |t.replies| <= |calls|
  {
    var (c, w) := calls[i];
    var written := ChargedBytes(s, calls, t.aborted, i);
    if Stopped(t.aborted, i) then t.aborted[i] && !t.reached[i] && t.replies[i] == Failed(TransactionAborted)
    else
      && (t.reached[i] <==> Reaches(s, written, c, w))
      && (t.aborted[i] <==> Aborts(s, written, c, w))
      && Replies(s, written, c, w, t.replies[i])
  }

  lemma {:induction false} ChargesStay(s: Setup, calls: seq<(Call, World)>, aborted: seq<bool>, next: bool, n: nat)
    requires n <= |calls| && n <= |aborted|
    ensures ChargedBytes(s, calls, aborted + [next], n) == ChargedBytes(s, calls, aborted, n)
  {
    if n > 0 {
      ChargesStay(s, calls, aborted, next, n - 1);
    }
  }

  lemma FollowsStay(s: Setup, calls: seq<(Call, World)>, t: Trace, reply: Reply, reached: bool, aborted: bool, i: nat)
    requires Shaped(t, |t.replies|) && i < |t.replies| < |calls| && Follows(s, calls, t, i)
    ensures Follows(s, calls, Extended(t, reply, reached, aborted), i)
  {
    hide Reaches, Aborts, Replies, ChargedBytes;
    ChargesStay(s, calls, t.aborted, aborted, i);
  }

  /** A saturated count below the limit is the count itself, so it decides alike. */
  lemma SaturationDecidesAlike(s: Setup, total: nat, c: Call, w: World)
    requires s.maxBytes < USIZE_MAX
    ensures Reaches(s, Saturate(total), c, w) <==> Reaches(s, total, c, w)
    ensures Succeeds(s, Saturate(total), c, w) <==> Succeeds(s, total, c, w)
    ensures Aborts(s, Saturate(total), c, w) <==> Aborts(s, total, c, w)
    ensures forall reply :: Replies(s, Saturate(total), c, w, reply) <==> Replies(s, total, c, w, reply)
  {
    hide TotalBytes;
  }

  lemma NextFollows(s: Setup, calls: seq<(Call, World)>, t: Trace, reply: Reply, reached: bool, aborted: bool, written: nat)
    requires Shaped(t, |t.replies|) && |t.replies| < |calls| && s.maxBytes < USIZE_MAX
    requires written == Saturate(ChargedBytes(s, calls, t.aborted, |t.replies|))
    requires var (c, w) := calls[|t.replies|];
             if Stopped(t.aborted, |t.replies|) then aborted && !reached && reply == Failed(TransactionAborted)
             else
               && (reached <==> Reaches(s, written, c, w))
               && (aborted <==> Aborts(s, written, c, w))
               && Replies(s, written, c, w, reply)
    ensures Follows(s, calls, Extended(t, reply, reached, aborted), |t.replies|)
  {
    hide Reaches, Aborts, Replies, ChargedBytes, Succeeds;
    var n := |t.replies|;
    ChargesStay(s, calls, t.aborted, aborted, n);
    SaturationDecidesAlike(s, ChargedBytes(s, calls, t.aborted, n), calls[n].0, calls[n].1);
  }

  lemma ChargesGrow(s: Setup, calls: seq<(Call, World)>, aborted: seq<bool>, next: bool, before: nat, after: nat)
    requires |aborted| < |calls| && before == Saturate(ChargedBytes(s, calls, aborted, |aborted|))
    requires after == if Stopped(aborted, |aborted|) then before
                      else Saturate(before + Charges(s, calls[|aborted|].0, calls[|aborted|].1))
    ensures after == Saturate(ChargedBytes(s, calls, aborted + [next], |aborted| + 1))
  {
    hide Charges;
    ChargesStay(s, calls, aborted, next, |aborted|);
  }

  lemma TraceFollows(
      s: Setup, calls: seq<(Call, World)>, t: Trace, reply: Reply, reached: bool, aborted: bool, before: nat, after: nat)
    requires Shaped(t, |t.replies|) && |t.replies| < |calls| && s.maxBytes < USIZE_MAX
    requires forall i | 0 <= i < |t.replies| :: Follows(s, calls, t, i)
    requires before == Saturate(ChargedBytes(s, calls, t.aborted, |t.replies|))
    requires var (c, w) := calls[|t.replies|];
             if Stopped(t.aborted, |t.replies|)
             then aborted && !reached && reply == Failed(TransactionAborted) && after == before
             else
               && (reached <==> Reaches(s, before, c, w))
               && (aborted <==> Aborts(s, before, c, w))
               && Replies(s, before, c, w, reply)
               && after == Saturate(before + Charges(s, c, w))
    ensures var t' := Extended(t, reply, reached, aborted);
            (forall i | 0 <= i < |t'.replies| :: Follows(s, calls, t', i))
            && after == Saturate(ChargedBytes(s, calls, t'.aborted, |t'.replies|))
  {
    hide Reaches, Aborts, Replies, ChargedBytes, Charges, Follows, Saturate;
    NextFollows(s, calls, t, reply, reached, aborted, before);
    ChargesGrow(s, calls, t.aborted, aborted, before, after);
    var t' := Extended(t, reply, reached, aborted);
    forall i | 0 <= i < |t.replies|
      ensures Follows(s, calls, t', i)
    {
      FollowsStay(s, calls, t, reply, reached, aborted, i);
    }
  }

  /** Once aborted, nothing later reaches SQLite. */
  predicate AbortIsFinal(t: Trace)
    requires Shaped(t, |t.replies|)
  {
    forall i, j | 0 <= i < j < |t.replies| && t.aborted[i] ::
      t.aborted[j] && !t.reached[j] && t.replies[j] == Failed(TransactionAborted)
  }

  /** Once a write crossed the limit, no later write reaches SQLite. */
  predicate CrossingIsFinal(calls: seq<(Call, World)>, t: Trace)
    requires |calls| >= |t.replies| && Shaped(t, |t.replies|)
  {
    forall i, j | 0 <= i < j < |t.replies| && t.replies[i] == Failed(TransactionTooLarge) ::
      !(t.reached[j] && CallEntry(calls[j].0, calls[j].1).write)
  }

  predicate RepliesAreHonest(t: Trace)
    requires Shaped(t, |t.replies|)
  {
    forall i | 0 <= i < |t.replies| ::
      (t.replies[i] == Failed(Interrupted) ==> t.aborted[i]) && (t.replies[i].Done? ==> t.reached[i] && !t.aborted[i])
  }

  predicate Safe(calls: seq<(Call, World)>, t: Trace) {
    && Shaped(t, |t.replies|) && |calls| >= |t.replies|
    && AbortIsFinal(t) && CrossingIsFinal(calls, t) && RepliesAreHonest(t)
  }

  function Extended(t: Trace, reply: Reply, reached: bool, aborted: bool): Trace {
    Trace(t.replies + [reply], t.reached + [reached], t.aborted + [aborted])
  }

  lemma SafetyExtends(calls: seq<(Call, World)>, t: Trace, reply: Reply, reached: bool, aborted: bool)
    requires Safe(calls, t) && |t.replies| < |calls|
    requires (exists i :: 0 <= i < |t.aborted| && t.aborted[i]) ==> aborted && !reached && reply == Failed(TransactionAborted)
    requires Failed(TransactionTooLarge) in t.replies ==>
               !(reached && CallEntry(calls[|t.replies|].0, calls[|t.replies|].1).write)
    requires (reply == Failed(Interrupted) ==> aborted) && (reply.Done? ==> reached && !aborted)
    ensures Safe(calls, Extended(t, reply, reached, aborted))
  {
    hide CallEntry;
  }

  lemma BytesExtend(calls: seq<(Call, World)>, reached: seq<bool>, next: bool)
    requires |reached| < |calls|
    ensures ReachedBytes(calls, reached + [next]) ==
            ReachedBytes(calls, reached) +
            var e := CallEntry(calls[|reached|].0, calls[|reached|].1); if next && e.write then e.bytes else 0
  {
    assert (reached + [next])[..|reached|] == reached;
  }

  /**
   * A write closure issues any calls and may ignore every error; then it
   * returns, and an Ok is committed unless the transaction was aborted.
   */
  method RunWrite(maxBytes: nat, guarded: bool, schemaMode: bool, localMode: bool, calls: seq<(Call, World)>,
                  closureOk: bool, foreignKeysHold: bool, commits: bool)
    returns (committed: bool, t: Trace)
    requires maxBytes < USIZE_MAX
    ensures Safe(calls, t) && Shaped(t, |calls|)
    ensures ReachedBytes(calls, t.reached) <= maxBytes
    ensures forall i | 0 <= i < |calls| :: Follows(Setup(maxBytes, guarded, schemaMode, localMode), calls, t, i)
    ensures committed <==> closureOk && (forall i | 0 <= i < |calls| :: !t.aborted[i]) &&
                           (schemaMode ==> foreignKeysHold) && commits
  {
    hide Safe, CallEntry, WriteBytes, ReachedBytes, Reaches, Aborts, Replies, Charges, ChargedBytes, Follows, Saturate, Traced;
    ghost var s := Setup(maxBytes, guarded, schemaMode, localMode);
    var tx := new CrdtTransaction(maxBytes, guarded, schemaMode, localMode);
    t := Trace([], [], []);
    NothingTraced(s, calls);
    for n := 0 to |calls|
      invariant |t.replies| == n && tx.Valid() && tx.writtenBytes <= USIZE_MAX && tx.maxBytes == maxBytes && tx.Opened() == s
      invariant Traced(s, calls, t, tx.writtenBytes, tx.aborted, WriteBytes(tx.log))
    {
      var before := tx.log;
      ghost var written, stopped, bytes := tx.writtenBytes, tx.aborted, WriteBytes(tx.log);
      var (c, w) := calls[n];
      var reply := tx.Dispatch(c, w);
      LogGrows(before, CallEntry(c, w));
      TracedNext(s, calls, t, written, stopped, bytes, reply, tx.log != before, tx.aborted, tx.writtenBytes);
      t := Extended(t, reply, tx.log != before, tx.aborted);
    }
    assert Traced(s, calls, t, tx.writtenBytes, tx.aborted, WriteBytes(tx.log));
    TracedMeans(s, calls, t, tx.writtenBytes, tx.aborted, WriteBytes(tx.log));
    if !closureOk {
      return false, t;
    }
    var open := tx.EnsureOpen();
    committed := open && (schemaMode ==> foreignKeysHold) && commits;
  }

  /** The trace of the calls so far, and the transaction it left. */
  ghost predicate Traced(s: Setup, calls: seq<(Call, World)>, t: Trace, written: nat, aborted: bool, bytes: nat) {
    && Shaped(t, |t.replies|) && |t.replies| <= |calls|
    && Safe(calls, t) && ReachedBytes(calls, t.reached) == bytes
    && (forall i | 0 <= i < |t.replies| :: Follows(s, calls, t, i))
    && written == Saturate(ChargedBytes(s, calls, t.aborted, |t.replies|))
    && (Stopped(t.aborted, |t.replies|) <==> aborted)
    && (aborted <==> exists i :: 0 <= i < |t.replies| && t.aborted[i])
    && (Failed(TransactionTooLarge) in t.replies ==> written > s.maxBytes)
  }

  lemma NothingTraced(s: Setup, calls: seq<(Call, World)>)
    ensures Traced(s, calls, Trace([], [], []), 0, false, WriteBytes([])) && WriteBytes([]) == 0
  {
  }

  lemma TracedMeans(s: Setup, calls: seq<(Call, World)>, t: Trace, written: nat, aborted: bool, bytes: nat)
    requires Traced(s, calls, t, written, aborted, bytes)
    ensures Shaped(t, |t.replies|) && |t.replies| <= |calls| && Safe(calls, t) && ReachedBytes(calls, t.reached) == bytes
    ensures forall i | 0 <= i < |t.replies| :: Follows(s, calls, t, i)
    ensures aborted <==> exists i :: 0 <= i < |t.replies| && t.aborted[i]
  {
    hide Follows, Safe, ReachedBytes;
  }

  lemma TracedNext(
      s: Setup, calls: seq<(Call, World)>, t: Trace, written: nat, before: bool, bytes: nat, reply: Reply, reached: bool,
      aborted: bool, written': nat)
    requires |t.replies| < |calls| && s.maxBytes < USIZE_MAX && Traced(s, calls, t, written, before, bytes)
    requires var (c, w) := calls[|t.replies|];
             if before then aborted && !reached && reply == Failed(TransactionAborted) && written' == written
             else
               && (reached <==> Reaches(s, written, c, w))
               && (aborted <==> Aborts(s, written, c, w))
               && Replies(s, written, c, w, reply)
               && written' == Saturate(written + Charges(s, c, w))
    requires written' >= written && (reply == Failed(TransactionTooLarge) ==> written' > s.maxBytes)
    requires reached && CallEntry(calls[|t.replies|].0, calls[|t.replies|].1).write ==> written' <= s.maxBytes
    requires (reply == Failed(Interrupted) ==> aborted) && (reply.Done? ==> reached && !aborted)
    ensures var e := CallEntry(calls[|t.replies|].0, calls[|t.replies|].1);
            Traced(s, calls, Extended(t, reply, reached, aborted), written', aborted, bytes + if reached && e.write then e.bytes else 0)
  {
    hide Safe, CallEntry, ReachedBytes, Reaches, Aborts, Replies, Charges, ChargedBytes, Follows, Saturate;
    BytesExtend(calls, t.reached, reached);
    SafetyExtends(calls, t, reply, reached, aborted);
    TraceFollows(s, calls, t, reply, reached, aborted, written, written');
    var t' := Extended(t, reply, reached, aborted);
    assert t'.aborted[|t.replies|] == aborted;
    assert forall i | 0 <= i < |t.replies| :: t'.aborted[i] == t.aborted[i];
  }
}
