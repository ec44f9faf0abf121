/** Change alerts between two snapshots of award rows, and their storage. */
module ChangeAlert {
  import opened Wrappers
  import opened Text
  import opened Joining
  import opened Sorting
  import opened OrderedMap
  import opened Identifiers

  datatype AwardRow = AwardRow(
    solicitationId: string, projectName: string, contractor: string,
    rawAmount: string, startDate: string, notes: string)

  datatype ChangeKind = RecordAdded | RecordModified | RecordRemoved

  function Label(kind: ChangeKind): string {
    match kind
    case RecordAdded => "record_added"
    case RecordModified => "record_modified"
    case RecordRemoved => "record_removed"
  }

  /** The compared fields of an award row, in the order of comparison. */
  datatype Field = ProjectName | Contractor | RawAmount | StartDate | Notes

  datatype FieldDiff = FieldDiff(field: Field, oldRaw: string, newRaw: string)

  datatype RecordChange = RecordChange(kind: ChangeKind, rowIdentity: string, fieldDiffs: seq<FieldDiff>)

  /** What all alerts of one comparison have in common. */
  datatype Context = Context(
    sourceId: string, surface: string,
    oldSnapshotId: string, oldSnapshotDigest: string,
    newSnapshotId: string, newSnapshotDigest: string,
    retrievedAt: string, coverageState: string,
    matterIds: seq<string>, identifierIds: seq<string>)

  datatype Alert = Alert(id: string, context: Context, change: RecordChange)

  type Hash = string -> string

  // ---------------------------------------------------------------- row identity and fields

  function FieldAt(n: nat): Field
    requires n < 5
  {
    if n == 0 then ProjectName else if n == 1 then Contractor else if n == 2 then RawAmount
    else if n == 3 then StartDate else Notes
  }

  /** The raw texts of the five compared fields. */
  type FieldValues = s: seq<string> | |s| == 5 witness ["", "", "", "", ""]

  function Values(row: AwardRow): FieldValues {
    [row.projectName, row.contractor, row.rawAmount, row.startDate, row.notes]
  }

  function DigestIdentity(sha256: Hash, row: AwardRow): string {
    sha256(Joined(Values(row)))
  }

  function RowIdentity(sha256: Hash, row: AwardRow): string {
    if Trim(row.solicitationId) == "" then DigestIdentity(sha256, row)
    else
      var key := MatchKey(row.solicitationId);
      if key.Some? then key.value else DigestIdentity(sha256, row)
  }

  /** The diffs of the first `n` fields. */
  function Diffs(before: FieldValues, after: FieldValues, n: nat): seq<FieldDiff>
    requires n <= 5
  {
    if n == 0 then []
    else if before[n - 1] == after[n - 1] then Diffs(before, after, n - 1)
    else Diffs(before, after, n - 1) + [FieldDiff(FieldAt(n - 1), before[n - 1], after[n - 1])]
  }

  function AllDiffs(before: FieldValues, after: FieldValues): seq<FieldDiff> {
    Diffs(before, after, |before|)
  }

  method FieldDiffs(before: AwardRow, after: AwardRow) returns (diffs: seq<FieldDiff>)
    ensures diffs == AllDiffs(Values(before), Values(after))
    ensures diffs == [] <==> Values(before) == Values(after)
    ensures ApplyDiffs(Values(before), diffs) == Values(after)
  {
    diffs := [];
    for n := 0 to |Values(before)|
      invariant diffs == Diffs(Values(before), Values(after), n)
    {
      var oldRaw, newRaw := Values(before)[n], Values(after)[n];
      if oldRaw != newRaw {
        diffs := diffs + [FieldDiff(FieldAt(n), oldRaw, newRaw)];
      }
    }
    DiffsExactly(Values(before), Values(after));
  }

  function FieldIndex(field: Field): (n: nat)
    ensures n < 5 && FieldAt(n) == field
  {
    match field
    case ProjectName => 0
    case Contractor => 1
    case RawAmount => 2
    case StartDate => 3
    case Notes => 4
  }

  /** The field values after every diff has put its new raw value in place. */
  function ApplyDiffs(values: FieldValues, diffs: seq<FieldDiff>): FieldValues {
    if diffs == [] then values
    else
      var last := diffs[|diffs| - 1];
      ApplyDiffs(values, diffs[..|diffs| - 1])[FieldIndex(last.field) := last.newRaw]
  }

  lemma ApplyNext(values: FieldValues, diffs: seq<FieldDiff>, diff: FieldDiff)
    ensures ApplyDiffs(values, diffs + [diff]) == ApplyDiffs(values, diffs)[FieldIndex(diff.field) := diff.newRaw]
  {
    var all := diffs + [diff];
    assert all[..|all| - 1] == diffs;
  }

  lemma LastDiffApplies(before: FieldValues, after: FieldValues, n: nat)
    requires 0 < n <= 5 && before[n - 1] != after[n - 1]
    ensures ApplyDiffs(before, Diffs(before, after, n)) == ApplyDiffs(before, Diffs(before, after, n - 1))[n - 1 := after[n - 1]]
    ensures Diffs(before, after, n) != []
  {
    var diff := FieldDiff(FieldAt(n - 1), before[n - 1], after[n - 1]);
    assert FieldIndex(diff.field) == n - 1;
    ApplyNext(before, Diffs(before, after, n - 1), diff);
  }

  lemma {:induction false} DiffsApply(before: FieldValues, after: FieldValues, n: nat, k: nat)
    requires n <= 5 && k < 5
    ensures ApplyDiffs(before, Diffs(before, after, n))[k] == if k < n then after[k] else before[k]
    ensures Diffs(before, after, n) == [] && k < n ==> before[k] == after[k]
  {
    if n > 0 {
      DiffsApply(before, after, n - 1, k);
      if before[n - 1] != after[n - 1] {
        LastDiffApplies(before, after, n);
      }
    }
  }

  lemma {:induction false} NoDiffsOfEqual(values: FieldValues, n: nat)
    requires n <= 5
    ensures Diffs(values, values, n) == []
  {
    if n > 0 {
      NoDiffsOfEqual(values, n - 1);
    }
  }

  /** There are no diffs exactly between equal values, and applying the diffs gives the new values. */
  lemma DiffsExactly(before: FieldValues, after: FieldValues)
    ensures AllDiffs(before, after) == [] <==> before == after
    ensures ApplyDiffs(before, AllDiffs(before, after)) == after
  {
    forall k: nat | k < 5
      ensures ApplyDiffs(before, AllDiffs(before, after))[k] == after[k]
      ensures AllDiffs(before, after) == [] ==> before[k] == after[k]
    {
      DiffsApply(before, after, |before|, k);
    }
    if before == after {
      NoDiffsOfEqual(before, |before|);
    }
  }

  // ---------------------------------------------------------------- the maps and the alerts

  /** `collect` into an ordered map: the last row of an identity wins. */
  function MapOf(identityOf: AwardRow -> string, rows: seq<AwardRow>): Entries<AwardRow> {
    if rows == [] then []
    else
      var front, last := rows[..|rows| - 1], rows[|rows| - 1];
      Put(MapOf(identityOf, front), identityOf(last), last)
  }

  function AlertId(sha256: Hash, ctx: Context, identity: string, kind: ChangeKind): string {
    StableId(sha256, "proc-alert", [ctx.sourceId, ctx.surface, identity, Label(kind), ctx.oldSnapshotId, ctx.newSnapshotId])
  }

  function AlertFor(sha256: Hash, ctx: Context, change: RecordChange): Alert {
    Alert(AlertId(sha256, ctx, change.rowIdentity, change.kind), ctx, change)
  }

  /** The change of an identity, given the field values before and after. */
  function ChangeOf(identity: string, before: Option<FieldValues>, after: Option<FieldValues>): Option<RecordChange> {
    match (before, after)
    case (None, None) => None
    case (Some(_), None) => Some(RecordChange(RecordRemoved, identity, []))
    case (None, Some(_)) => Some(RecordChange(RecordAdded, identity, []))
    case (Some(o), Some(n)) =>
      if AllDiffs(o, n) == [] then None else Some(RecordChange(RecordModified, identity, AllDiffs(o, n)))
  }

  /** The field values that a map holds for an identity. */
  function ValuesAt(m: Entries<AwardRow>, identity: string): Option<FieldValues> {
    match Lookup(m, identity)
    case None => None
    case Some(row) => Some(Values(row))
  }

  function ChangeAt(before: Entries<AwardRow>, after: Entries<AwardRow>, identity: string): Option<RecordChange> {
    ChangeOf(identity, ValuesAt(before, identity), ValuesAt(after, identity))
  }

  /** What an entry of the old map gives: a removal, a modification, or nothing. */
  function CompareRows(identity: string, oldRow: AwardRow, newRow: Option<AwardRow>): Option<RecordChange> {
    ChangeOf(identity, Some(Values(oldRow)), if newRow.None? then None else Some(Values(newRow.value)))
  }

  type Comparison = (string, AwardRow, Option<AwardRow>) -> Option<RecordChange>

  function Push(changes: seq<RecordChange>, change: Option<RecordChange>): seq<RecordChange> {
    if change.None? then changes else changes + [change.value]
  }

  /** The changes found while walking the first `n` entries of the old map. */
  function OldChanges(compare: Comparison, before: Entries<AwardRow>, after: Entries<AwardRow>, n: nat): seq<RecordChange>
    requires n <= |before|
  {
    if n == 0 then []
    else
      var (identity, oldRow) := before[n - 1];
      Push(OldChanges(compare, before, after, n - 1), compare(identity, oldRow, Lookup(after, identity)))
  }

  /** The additions found while walking the first `n` entries of the new map. */
  function AddedChanges(before: Entries<AwardRow>, after: Entries<AwardRow>, n: nat): seq<RecordChange>
    requires n <= |after|
  {
    if n == 0 then []
    else Push(AddedChanges(before, after, n - 1), AdditionOf(before, after[n - 1].0))
  }

  function AdditionOf(before: Entries<AwardRow>, identity: string): Option<RecordChange> {
    if Lookup(before, identity).None? then Some(RecordChange(RecordAdded, identity, [])) else None
  }

  function AllChanges(compare: Comparison, before: Entries<AwardRow>, after: Entries<AwardRow>): seq<RecordChange> {
    OldChanges(compare, before, after, |before|) + AddedChanges(before, after, |after|)
  }

  /** One alert for each change, made by `alertFor`. */
  function AlertsFor(alertFor: RecordChange -> Alert, changes: seq<RecordChange>): seq<Alert> {
    if changes == [] then []
    else AlertsFor(alertFor, changes[..|changes| - 1]) + [alertFor(changes[|changes| - 1])]
  }

  predicate IdLe(a: Alert, b: Alert) {
    StrLe(a.id, b.id)
  }

  function ChangeAlerts(identityOf: AwardRow -> string, alertFor: RecordChange -> Alert,
                        oldRows: seq<AwardRow>, newRows: seq<AwardRow>): seq<Alert> {
    SortBy(AlertsFor(alertFor, AllChanges(CompareRows, MapOf(identityOf, oldRows), MapOf(identityOf, newRows))), IdLe)
  }

  function IdentityOf(sha256: Hash): AwardRow -> string {
    row => RowIdentity(sha256, row)
  }

  function Alerting(sha256: Hash, ctx: Context): RecordChange -> Alert {
    change => AlertFor(sha256, ctx, change)
  }

  lemma AlertsForNext(alertFor: RecordChange -> Alert, changes: seq<RecordChange>, change: RecordChange)
    ensures AlertsFor(alertFor, changes + [change]) == AlertsFor(alertFor, changes) + [alertFor(change)]
  {
    var all := changes + [change];
    assert all[..|all| - 1] == changes;
  }

  /** The loop over the old map: removals and modifications. */
  method CollectOld(alertFor: RecordChange -> Alert, compare: Comparison, before: Entries<AwardRow>, after: Entries<AwardRow>)
    returns (alerts: seq<Alert>)
    ensures alerts == AlertsFor(alertFor, OldChanges(compare, before, after, |before|))
  {
    alerts := [];
    for n := 0 to |before|
      invariant alerts == AlertsFor(alertFor, OldChanges(compare, before, after, n))
    {
      var change := compare(before[n].0, before[n].1, Lookup(after, before[n].0));
      if change.Some? {
        AlertsForNext(alertFor, OldChanges(compare, before, after, n), change.value);
        alerts := alerts + [alertFor(change.value)];
      }
    }
  }

  /** The loop over the new map: additions. */
  method CollectAdded(alertFor: RecordChange -> Alert, before: Entries<AwardRow>, after: Entries<AwardRow>)
    returns (alerts: seq<Alert>)
    ensures alerts == AlertsFor(alertFor, AddedChanges(before, after, |after|))
  {
    alerts := [];
    for n := 0 to |after|
      invariant alerts == AlertsFor(alertFor, AddedChanges(before, after, n))
    {
      var change := AdditionOf(before, after[n].0);
      if change.Some? {
        AlertsForNext(alertFor, AddedChanges(before, after, n), change.value);
        alerts := alerts + [alertFor(change.value)];
      }
    }
  }

  lemma {:induction false} AlertsForConcat(alertFor: RecordChange -> Alert, a: seq<RecordChange>, b: seq<RecordChange>)
    ensures AlertsFor(alertFor, a + b) == AlertsFor(alertFor, a) + AlertsFor(alertFor, b)
  {
    if b == [] {
      assert a + b == a;
    } else {
      var front, last := b[..|b| - 1], b[|b| - 1];
      AlertsForConcat(alertFor, a, front);
      assert (a + b)[..|a + b| - 1] == a + front && (a + b)[|a + b| - 1] == last;
    }
  }

  method BuildChangeAlerts(sha256: Hash, ctx: Context, oldRows: seq<AwardRow>, newRows: seq<AwardRow>) returns (alerts: seq<Alert>)
    ensures alerts == ChangeAlerts(IdentityOf(sha256), Alerting(sha256, ctx), oldRows, newRows)
  {
    var before, after := MapOf(IdentityOf(sha256), oldRows), MapOf(IdentityOf(sha256), newRows);
    var first := CollectOld(Alerting(sha256, ctx), CompareRows, before, after);
    var added := CollectAdded(Alerting(sha256, ctx), before, after);
    AlertsForConcat(Alerting(sha256, ctx), OldChanges(CompareRows, before, after, |before|), AddedChanges(before, after, |after|));
    alerts := SortBy(first + added, IdLe);
  }
}
