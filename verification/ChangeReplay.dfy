/** What change alerts say: exactly one alert per changed identity, whose replay turns the
    old rows into the new ones. */
module ChangeReplay {
  import opened Wrappers
  import opened Sorting
  import opened OrderedMap
  import opened ChangeAlert

  // ---------------------------------------------------------------- maps of rows

  lemma {:induction false} MapOfIsOrdered(identityOf: AwardRow -> string, rows: seq<AwardRow>)
    ensures Ordered(MapOf(identityOf, rows))
  {
    if rows != [] {
      var front, last := rows[..|rows| - 1], rows[|rows| - 1];
      MapOfIsOrdered(identityOf, front);
      PutOrdered(MapOf(identityOf, front), identityOf(last), last);
    }
  }

  /** Rows with one identity agree in the five compared fields. */
  predicate Agreeing(identityOf: AwardRow -> string, rows: seq<AwardRow>) {
    forall i, j :: 0 <= i < |rows| && 0 <= j < |rows| && identityOf(rows[i]) == identityOf(rows[j]) ==>
      Values(rows[i]) == Values(rows[j])
  }

  predicate DistinctIdentities(identityOf: AwardRow -> string, rows: seq<AwardRow>) {
    forall i, j :: 0 <= i < j < |rows| ==> identityOf(rows[i]) != identityOf(rows[j])
  }

  lemma DistinctRowsAgree(identityOf: AwardRow -> string, rows: seq<AwardRow>)
    requires DistinctIdentities(identityOf, rows)
    ensures Agreeing(identityOf, rows)
  {
  }

  ghost predicate HasRow(identityOf: AwardRow -> string, rows: seq<AwardRow>, identity: string, values: FieldValues) {
    exists row :: row in rows && identityOf(row) == identity && Values(row) == values
  }

  lemma {:induction false} LookupIsLast(identityOf: AwardRow -> string, rows: seq<AwardRow>, identity: string)
    ensures match Lookup(MapOf(identityOf, rows), identity)
      case None => forall row :: row in rows ==> identityOf(row) != identity
      case Some(row) => row in rows && identityOf(row) == identity
  {
    if rows != [] {
      var front, last := rows[..|rows| - 1], rows[|rows| - 1];
      LookupIsLast(identityOf, front, identity);
      PutLookup(MapOf(identityOf, front), identityOf(last), last, identity);
      assert rows == front + [last];
    }
  }

  /** Among agreeing rows it does not matter which one the map keeps. */
  lemma ValuesAtExactly(identityOf: AwardRow -> string, rows: seq<AwardRow>, identity: string, values: FieldValues)
    requires Agreeing(identityOf, rows)
    ensures ValuesAt(MapOf(identityOf, rows), identity) == Some(values) <==> HasRow(identityOf, rows, identity, values)
  {
    LookupIsLast(identityOf, rows, identity);
    if HasRow(identityOf, rows, identity, values) {
      var row :| row in rows && identityOf(row) == identity && Values(row) == values;
      var kept := Lookup(MapOf(identityOf, rows), identity).value;
      var i :| 0 <= i < |rows| && rows[i] == row;
      var j :| 0 <= j < |rows| && rows[j] == kept;
      assert Values(rows[i]) == Values(rows[j]);
    }
  }

  // ---------------------------------------------------------------- exactly one change per identity

  lemma {:induction false} InOldChanges(before: Entries<AwardRow>, after: Entries<AwardRow>, n: nat, c: RecordChange)
    requires Ordered(before) && n <= |before|
    ensures c in OldChanges(CompareRows, before, after, n) <==>
      exists i :: 0 <= i < n && before[i].0 == c.rowIdentity && ChangeAt(before, after, c.rowIdentity) == Some(c)
  {
    if n > 0 {
      InOldChanges(before, after, n - 1, c);
      LookupEntry(before, n - 1);
    }
  }

  lemma {:induction false} InAddedChanges(before: Entries<AwardRow>, after: Entries<AwardRow>, n: nat, c: RecordChange)
    requires Ordered(after) && n <= |after|
    ensures c in AddedChanges(before, after, n) <==>
      exists i :: 0 <= i < n && after[i].0 == c.rowIdentity && Lookup(before, c.rowIdentity).None? &&
        ChangeAt(before, after, c.rowIdentity) == Some(c)
  {
    if n > 0 {
      InAddedChanges(before, after, n - 1, c);
      LookupEntry(after, n - 1);
    }
  }

  lemma ChangesExactly(before: Entries<AwardRow>, after: Entries<AwardRow>, c: RecordChange)
    requires Ordered(before) && Ordered(after)
    ensures c in AllChanges(CompareRows, before, after) <==> ChangeAt(before, after, c.rowIdentity) == Some(c)
  {
    InOldChanges(before, after, |before|, c);
    InAddedChanges(before, after, |after|, c);
    LookupIsMember(before, c.rowIdentity);
    LookupIsMember(after, c.rowIdentity);
  }

  predicate DistinctChanges(changes: seq<RecordChange>) {
    forall i, j :: 0 <= i < j < |changes| ==> changes[i].rowIdentity != changes[j].rowIdentity
  }

  lemma {:induction false} OldChangesDistinct(before: Entries<AwardRow>, after: Entries<AwardRow>, n: nat)
    requires Ordered(before) && n <= |before|
    ensures DistinctChanges(OldChanges(CompareRows, before, after, n))
  {
    if n > 0 {
      OldChangesDistinct(before, after, n - 1);
      var changes := OldChanges(CompareRows, before, after, n - 1);
      forall i | 0 <= i < |changes|
        ensures changes[i].rowIdentity != before[n - 1].0
      {
        InOldChanges(before, after, n - 1, changes[i]);
        assert changes[i] in changes;
      }
    }
  }

  lemma {:induction false} AddedChangesDistinct(before: Entries<AwardRow>, after: Entries<AwardRow>, n: nat)
    requires Ordered(after) && n <= |after|
    ensures DistinctChanges(AddedChanges(before, after, n))
  {
    if n > 0 {
      AddedChangesDistinct(before, after, n - 1);
      var changes := AddedChanges(before, after, n - 1);
      forall i | 0 <= i < |changes|
        ensures changes[i].rowIdentity != after[n - 1].0
      {
        InAddedChanges(before, after, n - 1, changes[i]);
        assert changes[i] in changes;
      }
    }
  }

  lemma AllChangesDistinct(before: Entries<AwardRow>, after: Entries<AwardRow>)
    requires Ordered(before) && Ordered(after)
    ensures DistinctChanges(AllChanges(CompareRows, before, after))
  {
    var removed, added := OldChanges(CompareRows, before, after, |before|), AddedChanges(before, after, |after|);
    OldChangesDistinct(before, after, |before|);
    AddedChangesDistinct(before, after, |after|);
    forall i, j | 0 <= i < |removed| && 0 <= j < |added|
      ensures removed[i].rowIdentity != added[j].rowIdentity
    {
      assert removed[i] in removed && added[j] in added;
      InOldChanges(before, after, |before|, removed[i]);
      InAddedChanges(before, after, |after|, added[j]);
      LookupIsMember(before, removed[i].rowIdentity);
    }
  }

  // ---------------------------------------------------------------- alerts

  lemma {:induction false} AlertsForIndex(alertFor: RecordChange -> Alert, changes: seq<RecordChange>)
    ensures |AlertsFor(alertFor, changes)| == |changes|
    ensures forall i :: 0 <= i < |changes| ==> AlertsFor(alertFor, changes)[i] == alertFor(changes[i])
  {
    if changes != [] {
      AlertsForIndex(alertFor, changes[..|changes| - 1]);
    }
  }

  /** The change that the row lists call for, in terms of the rows alone. */
  ghost predicate IsChange(identityOf: AwardRow -> string, oldRows: seq<AwardRow>, newRows: seq<AwardRow>, c: RecordChange) {
    match c.kind
    case RecordRemoved =>
      c.fieldDiffs == [] && (exists v :: HasRow(identityOf, oldRows, c.rowIdentity, v)) && !(exists v :: HasRow(identityOf, newRows, c.rowIdentity, v))
    case RecordAdded =>
      c.fieldDiffs == [] && !(exists v :: HasRow(identityOf, oldRows, c.rowIdentity, v)) && (exists v :: HasRow(identityOf, newRows, c.rowIdentity, v))
    case RecordModified =>
      exists v, w :: HasRow(identityOf, oldRows, c.rowIdentity, v) && HasRow(identityOf, newRows, c.rowIdentity, w) && v != w &&
        c.fieldDiffs == AllDiffs(v, w)
  }

  lemma IsChangeExactly(identityOf: AwardRow -> string, oldRows: seq<AwardRow>, newRows: seq<AwardRow>, c: RecordChange)
    requires Agreeing(identityOf, oldRows) && Agreeing(identityOf, newRows)
    ensures IsChange(identityOf, oldRows, newRows, c) <==>
      ChangeAt(MapOf(identityOf, oldRows), MapOf(identityOf, newRows), c.rowIdentity) == Some(c)
  {
    var k := c.rowIdentity;
    var o, n := ValuesAt(MapOf(identityOf, oldRows), k), ValuesAt(MapOf(identityOf, newRows), k);
    RowsAt(identityOf, oldRows, k);
    RowsAt(identityOf, newRows, k);
    if o.Some? && n.Some? {
      DiffsExactly(o.value, n.value);
    }
  }

  lemma RowsAt(identityOf: AwardRow -> string, rows: seq<AwardRow>, identity: string)
    requires Agreeing(identityOf, rows)
    ensures forall v :: HasRow(identityOf, rows, identity, v) <==> ValuesAt(MapOf(identityOf, rows), identity) == Some(v)
    ensures ValuesAt(MapOf(identityOf, rows), identity).Some? ==>
      HasRow(identityOf, rows, identity, ValuesAt(MapOf(identityOf, rows), identity).value)
  {
    forall v
      ensures HasRow(identityOf, rows, identity, v) <==> ValuesAt(MapOf(identityOf, rows), identity) == Some(v)
    {
      ValuesAtExactly(identityOf, rows, identity, v);
    }
  }

  /** An alert records the change that it was made for. */
  ghost predicate Records(alertFor: RecordChange -> Alert) {
    forall c :: alertFor(c).change == c
  }

  /** The alerts of any two row lists are those for the changes between their identity maps, each once. */
  lemma AlertsAreChanges(identityOf: AwardRow -> string, alertFor: RecordChange -> Alert,
                         oldRows: seq<AwardRow>, newRows: seq<AwardRow>, a: Alert)
    requires Records(alertFor)
    ensures a in ChangeAlerts(identityOf, alertFor, oldRows, newRows) <==>
      ChangeAt(MapOf(identityOf, oldRows), MapOf(identityOf, newRows), a.change.rowIdentity) == Some(a.change) && a == alertFor(a.change)
    ensures multiset(ChangeAlerts(identityOf, alertFor, oldRows, newRows))[a] <= 1
  {
    var before, after := MapOf(identityOf, oldRows), MapOf(identityOf, newRows);
    MapOfIsOrdered(identityOf, oldRows);
    MapOfIsOrdered(identityOf, newRows);
    var changes := AllChanges(CompareRows, before, after);
    var unsorted := AlertsFor(alertFor, changes);
    SameMembers(unsorted, ChangeAlerts(identityOf, alertFor, oldRows, newRows));
    ChangesExactly(before, after, a.change);
    AlertsForMembers(alertFor, changes, a);
    AllChangesDistinct(before, after);
    AlertsForIndex(alertFor, changes);
    DistinctCountsOnce(unsorted, a);
  }

  /** For rows whose identities are distinct (or at least agree in their fields), the alerts
      are exactly one per identity that was removed, added or changed, and no others. */
  lemma AlertsExactly(identityOf: AwardRow -> string, alertFor: RecordChange -> Alert,
                      oldRows: seq<AwardRow>, newRows: seq<AwardRow>, a: Alert)
    requires Records(alertFor) && Agreeing(identityOf, oldRows) && Agreeing(identityOf, newRows)
    ensures a in ChangeAlerts(identityOf, alertFor, oldRows, newRows) <==>
      IsChange(identityOf, oldRows, newRows, a.change) && a == alertFor(a.change)
    ensures multiset(ChangeAlerts(identityOf, alertFor, oldRows, newRows))[a] <= 1
  {
    AlertsAreChanges(identityOf, alertFor, oldRows, newRows, a);
    IsChangeExactly(identityOf, oldRows, newRows, a.change);
  }

  lemma AlertsForMembers(alertFor: RecordChange -> Alert, changes: seq<RecordChange>, a: Alert)
    requires Records(alertFor)
    ensures a in AlertsFor(alertFor, changes) <==> a.change in changes && a == alertFor(a.change)
  {
    AlertsForIndex(alertFor, changes);
    if a in AlertsFor(alertFor, changes) {
      var i :| 0 <= i < |changes| && AlertsFor(alertFor, changes)[i] == a;
      assert changes[i] == a.change;
    }
    if a.change in changes && a == alertFor(a.change) {
      var i :| 0 <= i < |changes| && changes[i] == a.change;
      assert AlertsFor(alertFor, changes)[i] == a;
    }
  }

  /** No identity has two alerts. */
  lemma OneAlertPerIdentity(identityOf: AwardRow -> string, alertFor: RecordChange -> Alert,
                            oldRows: seq<AwardRow>, newRows: seq<AwardRow>, a: Alert, b: Alert)
    requires Records(alertFor)
    requires a in ChangeAlerts(identityOf, alertFor, oldRows, newRows) && b in ChangeAlerts(identityOf, alertFor, oldRows, newRows)
    requires a.change.rowIdentity == b.change.rowIdentity
    ensures a == b
  {
    AlertsAreChanges(identityOf, alertFor, oldRows, newRows, a);
    AlertsAreChanges(identityOf, alertFor, oldRows, newRows, b);
  }

  lemma {:induction false} DistinctCountsOnce(alerts: seq<Alert>, a: Alert)
    requires forall i, j :: 0 <= i < j < |alerts| ==> alerts[i].change.rowIdentity != alerts[j].change.rowIdentity
    ensures multiset(alerts)[a] <= 1
  {
    if alerts != [] {
      var front, last := alerts[..|alerts| - 1], alerts[|alerts| - 1];
      DistinctCountsOnce(front, a);
      assert alerts == front + [last];
      assert forall i :: 0 <= i < |front| ==> front[i].change.rowIdentity != last.change.rowIdentity;
    }
  }

  // ---------------------------------------------------------------- replay

  /** The effect of one change on the field values of its identity; an addition takes the
      values `latest`, as its alert carries none. */
  function Apply(c: RecordChange, current: Option<FieldValues>, latest: Option<FieldValues>): Option<FieldValues>
  {
    match c.kind
    case RecordRemoved => None
    case RecordAdded => latest
    case RecordModified => if current.None? then None else Some(ApplyDiffs(current.value, c.fieldDiffs))
  }

  /** The values of `identity` after all alerts have been applied, first to last. */
  function Replay(alerts: seq<Alert>, identity: string, start: Option<FieldValues>, latest: Option<FieldValues>): Option<FieldValues>
  {
    if alerts == [] then start
    else
      var last := alerts[|alerts| - 1];
      var current := Replay(alerts[..|alerts| - 1], identity, start, latest);
      if last.change.rowIdentity == identity then Apply(last.change, current, latest) else current
  }

  lemma {:induction false} ReplayOfOne(alerts: seq<Alert>, identity: string, start: Option<FieldValues>, latest: Option<FieldValues>, a: Alert)
    requires multiset(alerts)[a] == 1 && a.change.rowIdentity == identity
    requires forall b :: b in alerts && b.change.rowIdentity == identity ==> b == a
    ensures Replay(alerts, identity, start, latest) == Apply(a.change, start, latest)
  {
    var front, last := alerts[..|alerts| - 1], alerts[|alerts| - 1];
    assert alerts == front + [last];
    if last == a {
      assert multiset(front)[a] == 0;
      ReplayOfNone(front, identity, start, latest);
    } else {
      ReplayOfOne(front, identity, start, latest, a);
    }
  }

  lemma {:induction false} ReplayOfNone(alerts: seq<Alert>, identity: string, start: Option<FieldValues>, latest: Option<FieldValues>)
    requires forall b :: b in alerts ==> b.change.rowIdentity != identity
    ensures Replay(alerts, identity, start, latest) == start
  {
    if alerts != [] {
      ReplayOfNone(alerts[..|alerts| - 1], identity, start, latest);
    }
  }

  lemma ChangeApplies(identity: string, before: Option<FieldValues>, after: Option<FieldValues>, added: Option<FieldValues>)
    requires before.None? ==> added == after
    ensures match ChangeOf(identity, before, after)
      case None => before == after
      case Some(c) => c.rowIdentity == identity && Apply(c, before, added) == after
  {
    if before.Some? && after.Some? {
      DiffsExactly(before.value, after.value);
    }
  }

  /**
   * Replaying the alerts on the old field values of any identity gives its new field values. Only an
   * addition needs to be told what was added.
   */
  lemma AlertsReplay(identityOf: AwardRow -> string, alertFor: RecordChange -> Alert, oldRows: seq<AwardRow>, newRows: seq<AwardRow>,
                     identity: string, added: Option<FieldValues>)
    requires Records(alertFor)
    requires ValuesAt(MapOf(identityOf, oldRows), identity).None? ==> added == ValuesAt(MapOf(identityOf, newRows), identity)
    ensures Replay(ChangeAlerts(identityOf, alertFor, oldRows, newRows), identity, ValuesAt(MapOf(identityOf, oldRows), identity), added)
      == ValuesAt(MapOf(identityOf, newRows), identity)
  {
    var before, after := ValuesAt(MapOf(identityOf, oldRows), identity), ValuesAt(MapOf(identityOf, newRows), identity);
    var alerts := ChangeAlerts(identityOf, alertFor, oldRows, newRows);
    ChangeApplies(identity, before, after, added);
    var c := ChangeOf(identity, before, after);
    if c.None? {
      forall b | b in alerts
        ensures b.change.rowIdentity != identity
      {
        AlertsAreChanges(identityOf, alertFor, oldRows, newRows, b);
      }
      ReplayOfNone(alerts, identity, before, added);
    } else {
      var a := alertFor(c.value);
      AlertsAreChanges(identityOf, alertFor, oldRows, newRows, a);
      assert a in multiset(alerts);
      forall b | b in alerts && b.change.rowIdentity == identity
        ensures b == a
      {
        OneAlertPerIdentity(identityOf, alertFor, oldRows, newRows, a, b);
      }
      ReplayOfOne(alerts, identity, before, added, a);
    }
  }
}
