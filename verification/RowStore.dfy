/** The transactional store of snapshot row sets: the tables `source_snapshots`,
    `snapshot_rows` and `snapshot_row_sets`, and the one operation that writes rows. */
module RowStore {
  import opened Wrappers
  import opened Hashing
  import opened Integers
  import opened RowDigest
  import opened Utf8



  datatype RowSet = RowSet(
    snapshotId: string,
    expectedCount: u64,
    rowSetDigest: string,
    parserVersion: string,
    schemaVersion: u32)

  datatype StoreError =
    | Conflict(snapshotId: string)
    | UnknownSnapshot(snapshotId: string)  // the foreign key to source_snapshots

  type Outcome = Result<(), StoreError>

  /** The three tables as a value. A snapshot without rows has no entry in `rows`. */
  datatype Tables = Tables(snapshots: set<string>, rows: map<string, seq<SnapshotRow>>, sets: map<string, RowSet>) {
    function Rows(id: string): seq<SnapshotRow> {
      if id in rows then rows[id] else []
    }
  }

  const EMPTY := Tables({}, map[], map[])

  /** What the `INTEGER` column keeps of the metadata. */
  function Stored(meta: RowSet): RowSet {
    meta.(expectedCount := if meta.expectedCount <= I64_MAX then meta.expectedCount else I64_MAX)
  }

  predicate SameMeta(stored: RowSet, meta: RowSet) {
    && stored.expectedCount == meta.expectedCount
    && stored.rowSetDigest == meta.rowSetDigest
    && stored.parserVersion == meta.parserVersion
    && stored.schemaVersion == meta.schemaVersion
  }

  function Persist(sha256: seq<byte> -> string, t: Tables, meta: RowSet, rows: seq<SnapshotRow>): (Tables, Outcome) {
    var id := meta.snapshotId;
    if id in t.sets || t.Rows(id) != [] then
      var identical := sha256(Preimage(t.Rows(id))) == meta.rowSetDigest && id in t.sets && SameMeta(t.sets[id], meta);
      (t, if identical then Ok(()) else Err(Conflict(id)))
    else if id !in t.snapshots then
      (t, Err(UnknownSnapshot(id)))
    else
      (t.(rows := if rows == [] then t.rows else t.rows[id := rows], sets := t.sets[id := Stored(meta)]), Ok(()))
  }

  class Store {
    const sha256: seq<byte> -> string
    var snapshots: set<string>
    var rowTable: map<string, seq<SnapshotRow>>
    var setTable: map<string, RowSet>

    ghost function State(): Tables
      reads this
    {
      Tables(snapshots, rowTable, setTable)
    }

    constructor (sha256: seq<byte> -> string)
      ensures this.sha256 == sha256 && State() == EMPTY
    {
      this.sha256 := sha256;
      snapshots, rowTable, setTable := {}, map[], map[];
    }

    method InsertSourceSnapshot(id: string)
      modifies this`snapshots
      ensures snapshots == old(snapshots) + {id}
    {
      snapshots := snapshots + {id};
    }

    /** Rows first, the completion marker last; any failure rolls everything back. */
    method InsertSnapshotRowSetWithRows(meta: RowSet, rows: seq<SnapshotRow>) returns (result: Outcome)
      modifies this`rowTable, this`setTable
      ensures (State(), result) == Persist(sha256, old(State()), meta, rows)
    {
      var savedRows, savedSets := rowTable, setTable;
      var id := meta.snapshotId;
      var existing := if id in rowTable then rowTable[id] else [];
      if id in setTable || existing != [] {
        var digest := RowSetDigest(existing, sha256);
        var identicalMeta := id in setTable && SameMeta(setTable[id], meta);
        if digest == meta.rowSetDigest && identicalMeta {
          return Ok(());
        }
        return Err(Conflict(id));
      }
      for index := 0 to |rows|
        invariant rowTable == (if index == 0 then savedRows else savedRows[id := rows[..index]])
        invariant index > 0 ==> id in snapshots
        invariant setTable == savedSets
      {
        if id !in snapshots {
          rowTable, setTable := savedRows, savedSets;
          return Err(UnknownSnapshot(id));
        }
        var written := if index == 0 then [] else rowTable[id];
        assert written + [rows[index]] == rows[..index + 1];
        rowTable := rowTable[id := written + [rows[index]]];
      }
      assert rows[..|rows|] == rows;
      if id !in snapshots {
        rowTable, setTable := savedRows, savedSets;
        return Err(UnknownSnapshot(id));
      }
      setTable := setTable[id := Stored(meta)];
      return Ok(());
    }

    method SnapshotRows(id: string) returns (rows: seq<SnapshotRow>)
      ensures rows == State().Rows(id)
    {
      rows := if id in rowTable then rowTable[id] else [];
    }
  }

  // ---------------------------------------------------------------- runs

  datatype Submission = Submission(meta: RowSet, rows: seq<SnapshotRow>)

  datatype Op =
    | AddSnapshot(id: string)
    | Write(submission: Submission)

  predicate WritesTo(op: Op, id: string) {
    op.Write? && op.submission.meta.snapshotId == id
  }

  function Step(sha256: seq<byte> -> string, t: Tables, op: Op): Tables {
    match op
    case AddSnapshot(id) => t.(snapshots := t.snapshots + {id})
    case Write(s) => Persist(sha256, t, s.meta, s.rows).0
  }

  /** The tables after the operations `ops`, the last of which ran last. */
  function Run(sha256: seq<byte> -> string, ops: seq<Op>): Tables {
    if ops == [] then EMPTY else Step(sha256, Run(sha256, ops[..|ops| - 1]), ops[|ops| - 1])
  }

  /** The metadata describes the rows it comes with. */
  predicate Describes(sha256: seq<byte> -> string, s: Submission) {
    && s.meta.expectedCount == |s.rows|
    && |s.rows| <= I64_MAX
    && s.meta.rowSetDigest == sha256(Preimage(s.rows))
  }

  predicate AllDescribed(sha256: seq<byte> -> string, ops: seq<Op>) {
    forall i :: 0 <= i < |ops| && ops[i].Write? ==> Describes(sha256, ops[i].submission)
  }

  /** The first write for a snapshot that is already known when the write happens. */
  function FirstWrite(ops: seq<Op>, id: string): Option<Submission> {
    if ops == [] then None
    else
      var before, last := ops[..|ops| - 1], ops[|ops| - 1];
      var earlier := FirstWrite(before, id);
      if earlier.Some? then earlier
      else if WritesTo(last, id) && AddSnapshot(id) in before then Some(last.submission)
      else None
  }

  /** `ops[j]` is a write for a snapshot that some earlier operation made known. */
  predicate Lands(ops: seq<Op>, j: nat, id: string)
    requires j < |ops|
  {
    WritesTo(ops[j], id) && AddSnapshot(id) in ops[..j]
  }

  /** What `FirstWrite` names is the earliest write that lands, if any does. */
  lemma {:induction false} FirstWriteIsFirst(ops: seq<Op>, id: string)
    ensures FirstWrite(ops, id).None? ==> forall j :: 0 <= j < |ops| ==> !Lands(ops, j, id)
    ensures FirstWrite(ops, id).Some? ==>
        exists j :: 0 <= j < |ops| && Lands(ops, j, id) && ops[j].submission == FirstWrite(ops, id).value &&
          forall k :: 0 <= k < j ==> !Lands(ops, k, id)
  {
    if ops != [] {
      var before, n := ops[..|ops| - 1], |ops| - 1;
      FirstWriteIsFirst(before, id);
      forall k | 0 <= k < n
        ensures Lands(before, k, id) == Lands(ops, k, id)
      {
        assert before[k] == ops[k] && before[..k] == ops[..k];
      }
      if FirstWrite(before, id).Some? {
        var j :| 0 <= j < |before| && Lands(before, j, id) && before[j].submission == FirstWrite(ops, id).value &&
          forall k :: 0 <= k < j ==> !Lands(before, k, id);
        assert Lands(ops, j, id) && ops[j] == before[j];
      } else if FirstWrite(ops, id).Some? {
        assert Lands(ops, n, id);
      }
    }
  }

  /** Table `t` holds for `id` the submission `first` and nothing else. */
  predicate Holds(t: Tables, id: string, first: Option<Submission>) {
    match first
    case None => t.Rows(id) == [] && id !in t.sets
    case Some(s) => t.Rows(id) == s.rows && id in t.sets && t.sets[id] == s.meta
  }

  /** Over every run, a snapshot holds exactly the rows of its first write, in order, and
      the metadata of that write; nothing is stored for any other snapshot. */
  lemma {:induction false} RunKeepsFirstWrites(sha256: seq<byte> -> string, ops: seq<Op>, id: string)
    requires AllDescribed(sha256, ops)
    ensures id in Run(sha256, ops).snapshots <==> AddSnapshot(id) in ops
    ensures Holds(Run(sha256, ops), id, FirstWrite(ops, id))
  {
    if ops != [] {
      var before, last := ops[..|ops| - 1], ops[|ops| - 1];
      assert ops == before + [last];
      RunKeepsFirstWrites(sha256, before, id);
      StepKeepsFirstWrite(sha256, Run(sha256, before), last, id, FirstWrite(before, id));
    }
  }

  lemma StepKeepsFirstWrite(sha256: seq<byte> -> string, t: Tables, op: Op, id: string, first: Option<Submission>)
    requires Holds(t, id, first) && (op.Write? ==> Describes(sha256, op.submission))
    ensures Holds(Step(sha256, t, op), id,
      if first.None? && WritesTo(op, id) && id in t.snapshots then Some(op.submission) else first)
  {
    if WritesTo(op, id) {
      assert Stored(op.submission.meta) == op.submission.meta;
    }
  }

  /** Extending a run never changes what a written snapshot reads back. */
  lemma {:induction false} WrittenRowsAreForever(sha256: seq<byte> -> string, ops: seq<Op>, more: seq<Op>, id: string)
    requires id in Run(sha256, ops).sets
    ensures id in Run(sha256, ops + more).sets && Run(sha256, ops + more).sets[id] == Run(sha256, ops).sets[id]
    ensures Run(sha256, ops + more).Rows(id) == Run(sha256, ops).Rows(id)
  {
    if more == [] {
      assert ops + more == ops;
    } else {
      var all := ops + more;
      assert all[..|all| - 1] == ops + more[..|more| - 1];
      WrittenRowsAreForever(sha256, ops, more[..|more| - 1], id);
    }
  }

  /** The two submissions hold the same pairs in some order, under the same versions. */
  predicate SameLogicalRows(a: Submission, b: Submission) {
    && multiset(Pairs(a.rows)) == multiset(Pairs(b.rows))
    && a.meta.parserVersion == b.meta.parserVersion
    && a.meta.schemaVersion == b.meta.schemaVersion
  }

  lemma SameMetaExactly(sha256: seq<byte> -> string, first: Submission, retry: Submission)
    requires CollisionFree(sha256) && Describes(sha256, first) && Describes(sha256, retry)
    ensures SameMeta(first.meta, retry.meta) <==> SameLogicalRows(retry, first)
  {
    SamePreimageExactly(retry.rows, first.rows);
    if SameLogicalRows(retry, first) {
      assert |multiset(Pairs(retry.rows))| == |retry.rows|;
    }
  }

  /** The outcome of a described write after any run of described operations: the first
      write of a known snapshot is accepted; a later one is an accepted no-op exactly when it
      holds the same pairs in any order under the same versions, and a conflict otherwise. */
  lemma WriteOutcome(sha256: seq<byte> -> string, ops: seq<Op>, s: Submission)
    requires CollisionFree(sha256)
    requires AllDescribed(sha256, ops) && Describes(sha256, s)
    ensures var t, id := Run(sha256, ops), s.meta.snapshotId;
      var (t', outcome) := Persist(sha256, t, s.meta, s.rows);
      match FirstWrite(ops, id)
      case None =>
        if AddSnapshot(id) in ops
        then outcome == Ok(()) && Holds(t', id, Some(s))
        else outcome == Err(UnknownSnapshot(id)) && t' == t
      case Some(first) =>
        t' == t && outcome == if SameLogicalRows(s, first) then Ok(()) else Err(Conflict(id))
  {
    var id := s.meta.snapshotId;
    RunKeepsFirstWrites(sha256, ops, id);
    if FirstWrite(ops, id).Some? {
      FirstWriteIsDescribed(sha256, ops, id);
      SameMetaExactly(sha256, FirstWrite(ops, id).value, s);
    } else {
      assert Stored(s.meta) == s.meta;
    }
  }

  lemma FirstWriteIsDescribed(sha256: seq<byte> -> string, ops: seq<Op>, id: string)
    requires AllDescribed(sha256, ops) && FirstWrite(ops, id).Some?
    ensures Describes(sha256, FirstWrite(ops, id).value)
  {
    FirstWriteIsFirst(ops, id);
  }

  /** Sending the same submission twice is a no-op exactly when its digest is that of its rows
      and its count survives the column type; otherwise the retry is reported as a conflict. */
  lemma RetryAcceptedExactly(sha256: seq<byte> -> string, t: Tables, s: Submission)
    requires s.meta.snapshotId in t.snapshots && Holds(t, s.meta.snapshotId, None)
    ensures var t1 := Persist(sha256, t, s.meta, s.rows).0;
      Persist(sha256, t1, s.meta, s.rows) == (t1,
        if s.meta.rowSetDigest == sha256(Preimage(s.rows)) && s.meta.expectedCount <= I64_MAX
        then Ok(()) else Err(Conflict(s.meta.snapshotId)))
  {
  }

  /** Only key and canonical text are compared: the method comment promises a conflict for
      any different row set, but a retry that differs in raw values is accepted silently and
      the first raw values stay. */
  lemma RawValuesAreNotCompared(sha256: seq<byte> -> string) returns (t: Tables, first: Submission, retry: Submission)
    ensures first.meta.snapshotId == retry.meta.snapshotId && first.rows != retry.rows
    ensures Describes(sha256, first) && Describes(sha256, retry) && Holds(t, first.meta.snapshotId, Some(first))
    ensures Persist(sha256, t, retry.meta, retry.rows) == (t, Ok(()))
  {
    var rows := [SnapshotRow([1], [2], "", "old")];
    var other := [SnapshotRow([1], [2], "", "new")];
    assert rows[0] != other[0];
    assert Pairs(rows) == Pairs(other);
    SamePreimageExactly(rows, other);
    var meta := RowSet("s", 1, sha256(Preimage(rows)), "p", 1);
    first, retry := Submission(meta, rows), Submission(meta, other);
    t := Tables({"s"}, map["s" := rows], map["s" := meta]);
  }

  // ---------------------------------------------------------------- validated loading

  datatype LoadError = LegacyOrIncomplete | RowSetIntegrity

  predicate RowIntact(sha256: seq<byte> -> string, row: SnapshotRow) {
    row.rowDigest == sha256(row.canonical)
  }

  /** The integrity-checking loader. */
  function LoadRows(sha256: seq<byte> -> string, t: Tables, id: string): Result<seq<SnapshotRow>, LoadError> {
    if id !in t.sets then Err(LegacyOrIncomplete)
    else
      var raw, meta := t.Rows(id), t.sets[id];
      if exists i | 0 <= i < |raw| :: !RowIntact(sha256, raw[i]) then Err(RowSetIntegrity)
      else if meta.expectedCount == 0 then (if raw == [] then Ok([]) else Err(RowSetIntegrity))
      else if |raw| != meta.expectedCount then Err(RowSetIntegrity)
      else if sha256(Preimage(raw)) != meta.rowSetDigest then Err(RowSetIntegrity)
      else Ok(raw)
  }

  /** After any run of described writes of intact rows, loading never reports an integrity
      violation: it returns the first-written rows, or says that there were none. */
  lemma LoadReturnsFirstWrite(sha256: seq<byte> -> string, ops: seq<Op>, id: string)
    requires AllDescribed(sha256, ops)
    requires forall i, j :: 0 <= i < |ops| && ops[i].Write? && 0 <= j < |ops[i].submission.rows| ==>
        RowIntact(sha256, ops[i].submission.rows[j])
    ensures LoadRows(sha256, Run(sha256, ops), id) ==
      match FirstWrite(ops, id)
      case None => Err(LegacyOrIncomplete)
      case Some(first) => Ok(first.rows)
  {
    RunKeepsFirstWrites(sha256, ops, id);
    if FirstWrite(ops, id).Some? {
      FirstWriteIsDescribed(sha256, ops, id);
      FirstWriteIsFirst(ops, id);
    }
  }
}
