/** How change alerts react to the order of rows and of snapshots, and how they are stored. */
module ChangeOrder {
  import opened Wrappers
  import opened Text
  import opened Sorting
  import opened OrderedMap
  import opened Hashing
  import opened Identifiers
  import opened ChangeAlert
  import opened ChangeReplay

  // ---------------------------------------------------------------- order of rows

  lemma AgreeingPermutes(identityOf: AwardRow -> string, rows: seq<AwardRow>, permuted: seq<AwardRow>)
    requires multiset(rows) == multiset(permuted) && Agreeing(identityOf, rows)
    ensures Agreeing(identityOf, permuted)
  {
    SameMembers(rows, permuted);
    forall i, j | 0 <= i < |permuted| && 0 <= j < |permuted| && identityOf(permuted[i]) == identityOf(permuted[j])
      ensures Values(permuted[i]) == Values(permuted[j])
    {
      assert permuted[i] in rows && permuted[j] in rows;
      var k :| 0 <= k < |rows| && rows[k] == permuted[i];
      var l :| 0 <= l < |rows| && rows[l] == permuted[j];
    }
  }

  /** The map with only the field values that are compared. */
  function View(m: Entries<AwardRow>): (r: Entries<FieldValues>)
    ensures |r| == |m|
  {
    seq(|m|, i requires 0 <= i < |m| => (m[i].0, Values(m[i].1)))
  }

  lemma {:induction false} LookupView(m: Entries<AwardRow>, identity: string)
    ensures Lookup(View(m), identity) == ValuesAt(m, identity)
  {
    if m != [] {
      LookupView(m[1..], identity);
      assert View(m)[1..] == View(m[1..]);
    }
  }

  lemma SameView(identityOf: AwardRow -> string, rows: seq<AwardRow>, permuted: seq<AwardRow>)
    requires multiset(rows) == multiset(permuted) && Agreeing(identityOf, rows)
    ensures View(MapOf(identityOf, rows)) == View(MapOf(identityOf, permuted))
  {
    var m, m' := MapOf(identityOf, rows), MapOf(identityOf, permuted);
    AgreeingPermutes(identityOf, rows, permuted);
    SameMembers(rows, permuted);
    MapOfIsOrdered(identityOf, rows);
    MapOfIsOrdered(identityOf, permuted);
    forall k
      ensures Lookup(View(m), k) == Lookup(View(m'), k)
    {
      LookupView(m, k);
      LookupView(m', k);
      RowsAt(identityOf, rows, k);
      RowsAt(identityOf, permuted, k);
      assert forall v :: HasRow(identityOf, rows, k, v) <==> HasRow(identityOf, permuted, k, v);
    }
    Extensional(View(m), View(m'));
  }

  lemma {:induction false} OldChangesOfView(m: Entries<AwardRow>, m': Entries<AwardRow>, after: Entries<AwardRow>, after': Entries<AwardRow>, n: nat)
    requires View(m) == View(m') && View(after) == View(after') && n <= |m|
    ensures |m| == |m'| && OldChanges(CompareRows, m, after, n) == OldChanges(CompareRows, m', after', n)
  {
    assert |m| == |View(m)| == |m'|;
    if n > 0 {
      OldChangesOfView(m, m', after, after', n - 1);
      assert View(m)[n - 1] == View(m')[n - 1];
      LookupView(after, m[n - 1].0);
      LookupView(after', m[n - 1].0);
    }
  }

  lemma {:induction false} AddedChangesOfView(m: Entries<AwardRow>, m': Entries<AwardRow>, after: Entries<AwardRow>, after': Entries<AwardRow>, n: nat)
    requires View(m) == View(m') && View(after) == View(after') && n <= |after|
    ensures |after| == |after'| && AddedChanges(m, after, n) == AddedChanges(m', after', n)
  {
    assert |after| == |View(after)| == |after'|;
    if n > 0 {
      AddedChangesOfView(m, m', after, after', n - 1);
      assert View(after)[n - 1] == View(after')[n - 1];
      LookupView(m, after[n - 1].0);
      LookupView(m', after[n - 1].0);
    }
  }

  /** Among rows that agree per identity, the alert list does not depend on the row order. */
  lemma OrderIsIgnored(identityOf: AwardRow -> string, alertFor: RecordChange -> Alert,
                       oldRows: seq<AwardRow>, newRows: seq<AwardRow>, oldRows': seq<AwardRow>, newRows': seq<AwardRow>)
    requires Agreeing(identityOf, oldRows) && Agreeing(identityOf, newRows)
    requires multiset(oldRows) == multiset(oldRows') && multiset(newRows) == multiset(newRows')
    ensures ChangeAlerts(identityOf, alertFor, oldRows', newRows') == ChangeAlerts(identityOf, alertFor, oldRows, newRows)
  {
    SameView(identityOf, oldRows, oldRows');
    SameView(identityOf, newRows, newRows');
    var m, m', after, after' := MapOf(identityOf, oldRows), MapOf(identityOf, oldRows'), MapOf(identityOf, newRows), MapOf(identityOf, newRows');
    OldChangesOfView(m, m', after, after', |m|);
    AddedChangesOfView(m, m', after, after', |after|);
  }

  /** A row list and a reordering that keeps another row of some identity. */
  lemma OrderCanMatter(identityOf: AwardRow -> string, rows: seq<AwardRow>) returns (permuted: seq<AwardRow>, identity: string)
    requires !Agreeing(identityOf, rows)
    ensures multiset(permuted) == multiset(rows)
    ensures ValuesAt(MapOf(identityOf, rows), identity).Some? && ValuesAt(MapOf(identityOf, permuted), identity).Some?
    ensures ValuesAt(MapOf(identityOf, rows), identity) != ValuesAt(MapOf(identityOf, permuted), identity)
  {
    var i, j :| 0 <= i < |rows| && 0 <= j < |rows| && identityOf(rows[i]) == identityOf(rows[j]) && Values(rows[i]) != Values(rows[j]);
    identity := identityOf(rows[i]);
    LookupIsLast(identityOf, rows, identity);
    assert rows[i] in rows;
    var kept := Lookup(MapOf(identityOf, rows), identity).value;
    var m := if Values(rows[i]) != Values(kept) then i else j;
    permuted := MoveToEnd(rows, m);
    var rest := permuted[..|permuted| - 1];
    PutLookup(MapOf(identityOf, rest), identity, rows[m], identity);
  }

  lemma MoveToEnd(rows: seq<AwardRow>, m: nat) returns (permuted: seq<AwardRow>)
    requires m < |rows|
    ensures permuted != [] && permuted[|permuted| - 1] == rows[m] && multiset(permuted) == multiset(rows)
  {
    permuted := rows[..m] + rows[m + 1..] + [rows[m]];
    assert rows == rows[..m] + [rows[m]] + rows[m + 1..];
  }

  /** A snapshot compared with a reordering of itself never raises an alert if and only if rows
      that share an identity agree in their fields. */
  lemma ReorderingIsSilentExactly(identityOf: AwardRow -> string, alertFor: RecordChange -> Alert, rows: seq<AwardRow>)
    requires Records(alertFor)
    ensures Agreeing(identityOf, rows) <==>
      forall permuted :: multiset(permuted) == multiset(rows) ==> ChangeAlerts(identityOf, alertFor, rows, permuted) == []
  {
    if Agreeing(identityOf, rows) {
      forall permuted | multiset(permuted) == multiset(rows)
        ensures ChangeAlerts(identityOf, alertFor, rows, permuted) == []
      {
        OrderIsIgnored(identityOf, alertFor, rows, rows, rows, permuted);
        NoAlertsWithoutChange(identityOf, alertFor, rows);
      }
    } else {
      var permuted, identity := OrderCanMatter(identityOf, rows);
      var before, after := MapOf(identityOf, rows), MapOf(identityOf, permuted);
      MapOfIsOrdered(identityOf, rows);
      MapOfIsOrdered(identityOf, permuted);
      ChangeApplies(identity, ValuesAt(before, identity), ValuesAt(after, identity), ValuesAt(after, identity));
      var c := ChangeAt(before, after, identity).value;
      ChangesExactly(before, after, c);
      AlertsForMembers(alertFor, AllChanges(CompareRows, before, after), alertFor(c));
      SameMembers(AlertsFor(alertFor, AllChanges(CompareRows, before, after)), ChangeAlerts(identityOf, alertFor, rows, permuted));
      assert alertFor(c) in ChangeAlerts(identityOf, alertFor, rows, permuted);
    }
  }

  /** A byte-identical snapshot raises no alert, whatever its rows. */
  lemma NoAlertsWithoutChange(identityOf: AwardRow -> string, alertFor: RecordChange -> Alert, rows: seq<AwardRow>)
    ensures ChangeAlerts(identityOf, alertFor, rows, rows) == []
  {
    var m := MapOf(identityOf, rows);
    MapOfIsOrdered(identityOf, rows);
    var changes := AllChanges(CompareRows, m, m);
    if changes != [] {
      var c := changes[0];
      ChangesExactly(m, m, c);
      ChangeApplies(c.rowIdentity, ValuesAt(m, c.rowIdentity), ValuesAt(m, c.rowIdentity), ValuesAt(m, c.rowIdentity));
      if ValuesAt(m, c.rowIdentity).Some? {
        DiffsExactly(ValuesAt(m, c.rowIdentity).value, ValuesAt(m, c.rowIdentity).value);
      }
    }
  }

  lemma MapOfTwo(identityOf: AwardRow -> string, a: AwardRow, b: AwardRow)
    requires identityOf(a) == identityOf(b)
    ensures MapOf(identityOf, [a, b]) == [(identityOf(b), b)]
  {
    assert [a, b][..1] == [a] && [a][..0] == [];
    assert MapOf(identityOf, []) == [];
    assert MapOf(identityOf, [a]) == [(identityOf(a), a)];
  }

  /** Two rows of one solicitation with different contractors: swapping them raises an alert. */
  lemma JointAwardRaisesAnAlert(sha256: Hash, ctx: Context, a: AwardRow, b: AwardRow)
    requires MatchKey(a.solicitationId).Some? && a.solicitationId == b.solicitationId
    requires a.contractor != b.contractor
    ensures !Agreeing(IdentityOf(sha256), [a, b])
    ensures ChangeAlerts(IdentityOf(sha256), Alerting(sha256, ctx), [a, b], [b, a]) != []
  {
    var identityOf, alertFor := IdentityOf(sha256), Alerting(sha256, ctx);
    var id := identityOf(a);
    assert Filter("", IsAlphanumeric) == "";
    assert identityOf(b) == id;
    MapOfTwo(identityOf, a, b);
    MapOfTwo(identityOf, b, a);
    assert Values(a)[1] != Values(b)[1];
    assert [a, b][0] == a && [a, b][1] == b;
    DiffsExactly(Values(b), Values(a));
    var c := RecordChange(RecordModified, id, AllDiffs(Values(b), Values(a)));
    assert ChangeAt(MapOf(identityOf, [a, b]), MapOf(identityOf, [b, a]), id) == Some(c);
    AlertsAreChanges(identityOf, alertFor, [a, b], [b, a], alertFor(c));
  }

  // ---------------------------------------------------------------- swapping the snapshots

  function FlipDiff(d: FieldDiff): FieldDiff {
    FieldDiff(d.field, d.newRaw, d.oldRaw)
  }

  function FlipDiffs(diffs: seq<FieldDiff>): (flipped: seq<FieldDiff>)
    ensures |flipped| == |diffs|
  {
    seq(|diffs|, k requires 0 <= k < |diffs| => FlipDiff(diffs[k]))
  }

  function Flip(c: RecordChange): RecordChange {
    var kind := match c.kind
      case RecordAdded => RecordRemoved
      case RecordRemoved => RecordAdded
      case RecordModified => RecordModified;
    RecordChange(kind, c.rowIdentity, FlipDiffs(c.fieldDiffs))
  }

  lemma {:induction false} DiffsFlip(before: FieldValues, after: FieldValues, n: nat)
    requires n <= 5
    ensures Diffs(after, before, n) == FlipDiffs(Diffs(before, after, n))
  {
    if n > 0 {
      DiffsFlip(before, after, n - 1);
    }
  }

  /** Swapping the snapshots exchanges additions with removals, and the old with the new raw
      value of every difference. */
  lemma SwapFlips(before: Entries<AwardRow>, after: Entries<AwardRow>, identity: string)
    ensures ChangeAt(after, before, identity) ==
      match ChangeAt(before, after, identity)
      case None => None
      case Some(c) => Some(Flip(c))
  {
    var b, a := ValuesAt(before, identity), ValuesAt(after, identity);
    if b.Some? && a.Some? {
      DiffsFlip(b.value, a.value, |b.value|);
      DiffsExactly(b.value, a.value);
      DiffsExactly(a.value, b.value);
    }
  }

  lemma FlipDiffsTwice(diffs: seq<FieldDiff>)
    ensures FlipDiffs(FlipDiffs(diffs)) == diffs
  {
  }

  lemma FlipTwice(c: RecordChange)
    ensures Flip(Flip(c)) == c
  {
    FlipDiffsTwice(c.fieldDiffs);
  }

  /** The same exchange for the alert lists of the two directions, whatever the rows. */
  lemma SwapExchangesAlerts(identityOf: AwardRow -> string, alertFor: RecordChange -> Alert, backwardFor: RecordChange -> Alert,
                            oldRows: seq<AwardRow>, newRows: seq<AwardRow>, c: RecordChange)
    requires Records(alertFor) && Records(backwardFor)
    ensures alertFor(c) in ChangeAlerts(identityOf, alertFor, oldRows, newRows) <==>
      backwardFor(Flip(c)) in ChangeAlerts(identityOf, backwardFor, newRows, oldRows)
  {
    AlertsAreChanges(identityOf, alertFor, oldRows, newRows, alertFor(c));
    AlertsAreChanges(identityOf, backwardFor, newRows, oldRows, backwardFor(Flip(c)));
    SwapFlips(MapOf(identityOf, oldRows), MapOf(identityOf, newRows), c.rowIdentity);
    SwapFlips(MapOf(identityOf, newRows), MapOf(identityOf, oldRows), c.rowIdentity);
    FlipTwice(c);
  }

  // ---------------------------------------------------------------- storage

  type Table = map<string, Alert>

  /** `INSERT OR IGNORE` for each alert in turn. */
  function InsertAll(table: Table, alerts: seq<Alert>): Table {
    if alerts == [] then table
    else
      var front, last := InsertAll(table, alerts[..|alerts| - 1]), alerts[|alerts| - 1];
      if last.id in front then front else front[last.id := last]
  }

  class AlertStore {
    var table: Table

    constructor ()
      ensures table == map[]
    {
      table := map[];
    }

    method InsertProcurementAlert(alert: Alert) returns (inserted: bool)
      modifies this
      ensures inserted == (alert.id !in old(table))
      ensures table == if alert.id in old(table) then old(table) else old(table)[alert.id := alert]
    {
      inserted := alert.id !in table;
      if inserted {
        table := table[alert.id := alert];
      }
    }

    method PersistChangeAlerts(alerts: seq<Alert>) returns (inserted: nat)
      modifies this
      ensures table == InsertAll(old(table), alerts)
      ensures inserted == |table| - |old(table)|
      ensures forall id :: id in old(table) ==> id in table && table[id] == old(table)[id]
    {
      inserted := 0;
      for n := 0 to |alerts|
        invariant table == InsertAll(old(table), alerts[..n])
        invariant inserted == |table| - |old(table)|
        invariant forall id :: id in old(table) ==> id in table && table[id] == old(table)[id]
      {
        assert alerts[..n + 1][..n] == alerts[..n];
        var isNew := InsertProcurementAlert(alerts[n]);
        if isNew {
          inserted := inserted + 1;
        }
      }
      assert alerts[..|alerts|] == alerts;
    }
  }

  lemma {:induction false} InsertAllKeys(table: Table, alerts: seq<Alert>)
    ensures InsertAll(table, alerts).Keys == table.Keys + set a | a in alerts :: a.id
  {
    if alerts != [] {
      var front, last := alerts[..|alerts| - 1], alerts[|alerts| - 1];
      InsertAllKeys(table, front);
      assert alerts == front + [last];
      assert (set a | a in alerts :: a.id) == (set a | a in front :: a.id) + {last.id};
    }
  }

  lemma {:induction false} InsertPresent(table: Table, alerts: seq<Alert>)
    requires forall a :: a in alerts ==> a.id in table
    ensures InsertAll(table, alerts) == table
  {
    if alerts != [] {
      InsertPresent(table, alerts[..|alerts| - 1]);
    }
  }

  /** Persisting the same alerts a second time inserts nothing. */
  lemma PersistTwiceIsOnce(table: Table, alerts: seq<Alert>)
    ensures InsertAll(InsertAll(table, alerts), alerts) == InsertAll(table, alerts)
  {
    InsertAllKeys(table, alerts);
    forall a | a in alerts
      ensures a.id in InsertAll(table, alerts)
    {
      assert a.id in set b | b in alerts :: b.id;
    }
    InsertPresent(InsertAll(table, alerts), alerts);
  }

  ghost predicate DistinctIds(alerts: seq<Alert>) {
    forall i, j :: 0 <= i < j < |alerts| ==> alerts[i].id != alerts[j].id
  }

  ghost predicate NoneIn(table: Table, alerts: seq<Alert>) {
    forall i :: 0 <= i < |alerts| ==> alerts[i].id !in table
  }

  ghost predicate AllIn(table: Table, alerts: seq<Alert>) {
    forall i :: 0 <= i < |alerts| ==> alerts[i].id in table && table[alerts[i].id] == alerts[i]
  }

  lemma LastIsNew(table: Table, alerts: seq<Alert>)
    requires DistinctIds(alerts) && NoneIn(table, alerts) && alerts != []
    ensures alerts[|alerts| - 1].id !in InsertAll(table, alerts[..|alerts| - 1])
  {
    InsertAllKeys(table, alerts[..|alerts| - 1]);
  }

  lemma {:induction false} InsertDistinct(table: Table, alerts: seq<Alert>)
    requires DistinctIds(alerts) && NoneIn(table, alerts)
    ensures |InsertAll(table, alerts)| == |table| + |alerts|
    ensures AllIn(InsertAll(table, alerts), alerts)
  {
    if alerts != [] {
      var front, last := alerts[..|alerts| - 1], alerts[|alerts| - 1];
      InsertDistinct(table, front);
      LastIsNew(table, alerts);
      var stored := InsertAll(table, front);
      assert InsertAll(table, alerts) == stored[last.id := last];
      assert alerts == front + [last];
    }
  }

  lemma LabelsDiffer(a: ChangeKind, b: ChangeKind)
    ensures NulFree(Label(a))
    ensures Label(a) == Label(b) ==> a == b
  {
    assert |"record_added"| == 12 && |"record_modified"| == 15 && |"record_removed"| == 14;
  }

  lemma SixParts(namespace: string, a: string, b: string, c: string, d: string, e: string, f: string)
    ensures Preimage(namespace, [a, b, c, d, e, f]) ==
      Preimage(namespace, [a, b]) + "\0" + c + "\0" + d + "\0" + e + "\0" + f
  {
    PreimageNext(namespace, [a, b], c);
    PreimageNext(namespace, [a, b] + [c], d);
    PreimageNext(namespace, [a, b] + [c] + [d], e);
    PreimageNext(namespace, [a, b] + [c] + [d] + [e], f);
    assert [a, b] + [c] + [d] + [e] + [f] == [a, b, c, d, e, f];
  }

  /** Within one comparison, alert ids name the identity and the kind of change. */
  lemma AlertIdIsInjective(sha256: Hash, ctx: Context, identity: string, kind: ChangeKind, identity': string, kind': ChangeKind)
    requires CollisionFree(sha256) && NulFree(identity) && NulFree(identity')
    requires AlertId(sha256, ctx, identity, kind) == AlertId(sha256, ctx, identity', kind')
    ensures identity == identity' && kind == kind'
  {
    var parts := [ctx.sourceId, ctx.surface, identity, Label(kind), ctx.oldSnapshotId, ctx.newSnapshotId];
    var parts' := [ctx.sourceId, ctx.surface, identity', Label(kind'), ctx.oldSnapshotId, ctx.newSnapshotId];
    SameIdSamePreimage(sha256, "proc-alert", parts, parts');
    SixParts("proc-alert", ctx.sourceId, ctx.surface, identity, Label(kind), ctx.oldSnapshotId, ctx.newSnapshotId);
    SixParts("proc-alert", ctx.sourceId, ctx.surface, identity', Label(kind'), ctx.oldSnapshotId, ctx.newSnapshotId);
    var head := Preimage("proc-alert", [ctx.sourceId, ctx.surface]);
    Cancel(head + "\0" + identity + "\0" + Label(kind), head + "\0" + identity' + "\0" + Label(kind'), ctx.oldSnapshotId, ctx.newSnapshotId);
    LabelsDiffer(kind, kind');
    LabelsDiffer(kind', kind);
    SplitAtLast(head + "\0" + identity, '\0', Label(kind), head + "\0" + identity', Label(kind'));
    SplitAtLast(head, '\0', identity, head, identity');
  }

  lemma SameIdSamePreimage(sha256: Hash, namespace: string, a: seq<string>, b: seq<string>)
    requires CollisionFree(sha256) && StableId(sha256, namespace, a) == StableId(sha256, namespace, b)
    ensures Preimage(namespace, a) == Preimage(namespace, b)
  {
    var x, y := sha256(Preimage(namespace, a)), sha256(Preimage(namespace, b));
    assert StableId(sha256, namespace, a)[|namespace + ":"|..] == x;
    assert StableId(sha256, namespace, b)[|namespace + ":"|..] == y;
    assert sha256(Preimage(namespace, a)) == sha256(Preimage(namespace, b));
  }

  lemma Cancel(a: string, b: string, e: string, f: string)
    requires a + "\0" + e + "\0" + f == b + "\0" + e + "\0" + f
    ensures a == b
  {
    var s, t := a + "\0" + e + "\0" + f, b + "\0" + e + "\0" + f;
    assert |a| == |b|;
    assert s[..|a|] == a && t[..|b|] == b;
  }

  /** Stored for the first time, a comparison leaves one alert for each changed identity. */
  lemma EveryAlertIsStored(sha256: Hash, ctx: Context, oldRows: seq<AwardRow>, newRows: seq<AwardRow>, table: Table)
    requires CollisionFree(sha256)
    requires Agreeing(IdentityOf(sha256), oldRows) && Agreeing(IdentityOf(sha256), newRows)
    requires forall row :: row in oldRows + newRows ==> NulFree(RowIdentity(sha256, row))
    requires forall a :: a in ChangeAlerts(IdentityOf(sha256), Alerting(sha256, ctx), oldRows, newRows) ==> a.id !in table
    ensures var alerts := ChangeAlerts(IdentityOf(sha256), Alerting(sha256, ctx), oldRows, newRows);
      var stored := InsertAll(table, alerts);
      |stored| == |table| + |alerts| && forall a :: a in alerts ==> a.id in stored && stored[a.id] == a
  {
    var identityOf, alertFor := IdentityOf(sha256), Alerting(sha256, ctx);
    var alerts := ChangeAlerts(identityOf, alertFor, oldRows, newRows);
    assert Records(alertFor);
    forall i, j | 0 <= i < j < |alerts|
      ensures alerts[i].id != alerts[j].id
    {
      AlertIsNamed(sha256, ctx, oldRows, newRows, alerts[i]);
      AlertIsNamed(sha256, ctx, oldRows, newRows, alerts[j]);
      if alerts[i].id == alerts[j].id {
        AlertIdIsInjective(sha256, ctx, alerts[i].change.rowIdentity, alerts[i].change.kind, alerts[j].change.rowIdentity, alerts[j].change.kind);
        OneAlertPerIdentity(identityOf, alertFor, oldRows, newRows, alerts[i], alerts[j]);
        AlertsExactly(identityOf, alertFor, oldRows, newRows, alerts[i]);
        TwiceCountsTwice(alerts, i, j);
      }
    }
    InsertDistinct(table, alerts);
  }

  lemma AlertIsNamed(sha256: Hash, ctx: Context, oldRows: seq<AwardRow>, newRows: seq<AwardRow>, a: Alert)
    requires Agreeing(IdentityOf(sha256), oldRows) && Agreeing(IdentityOf(sha256), newRows)
    requires forall row :: row in oldRows + newRows ==> NulFree(RowIdentity(sha256, row))
    requires a in ChangeAlerts(IdentityOf(sha256), Alerting(sha256, ctx), oldRows, newRows)
    ensures a.id == AlertId(sha256, ctx, a.change.rowIdentity, a.change.kind) && NulFree(a.change.rowIdentity)
  {
    AlertsExactly(IdentityOf(sha256), Alerting(sha256, ctx), oldRows, newRows, a);
    var rows := if a.change.kind.RecordAdded? then newRows else oldRows;
    var v :| HasRow(IdentityOf(sha256), rows, a.change.rowIdentity, v);
    var row :| row in rows && IdentityOf(sha256)(row) == a.change.rowIdentity;
    assert row in oldRows + newRows;
  }

  lemma TwiceCountsTwice(alerts: seq<Alert>, i: nat, j: nat)
    requires i < j < |alerts| && alerts[i] == alerts[j]
    ensures multiset(alerts)[alerts[i]] >= 2
  {
    assert alerts == alerts[..j] + [alerts[j]] + alerts[j + 1..];
    assert alerts[..j][i] == alerts[i];
    assert alerts[i] in alerts[..j];
  }
}
