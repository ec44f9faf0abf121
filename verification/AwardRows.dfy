/** Award rows as rows of a snapshot: when the record-level diff and the change alerts say the same. */
module AwardRows {
  import opened Wrappers
  import opened Text
  import opened Joining
  import opened OrderedMap
  import opened Identifiers
  import opened ChangeAlert
  import opened ChangeReplay
  import opened ChangeOrder
  import Diff = SnapshotDiff
  import Laws = SnapshotDiffLaws

  // ---------------------------------------------------------------- the rows of a snapshot

  function Canonical(row: AwardRow): string {
    Joined(Values(row))
  }

  function RecordOf(identityOf: AwardRow -> string, json: AwardRow -> string, row: AwardRow): Diff.RecordRow {
    Diff.RecordRow(identityOf(row), Canonical(row), json(row))
  }

  /** The rows that are stored for a list of award rows; `json` keeps the raw values of each. */
  function RecordRows(identityOf: AwardRow -> string, json: AwardRow -> string, rows: seq<AwardRow>): (r: seq<Diff.RecordRow>)
    ensures |r| == |rows|
  {
    seq(|rows|, i requires 0 <= i < |rows| => RecordOf(identityOf, json, rows[i]))
  }

  predicate RowsSeparatorFree(rows: seq<AwardRow>) {
    forall i :: 0 <= i < |rows| ==> AllSeparatorFree(Values(rows[i]))
  }

  // ---------------------------------------------------------------- alerts are silent

  /** No alert is raised if and only if both maps hold the same field values for every identity. */
  lemma NoAlertsExactly(identityOf: AwardRow -> string, alertFor: RecordChange -> Alert, oldRows: seq<AwardRow>, newRows: seq<AwardRow>)
    requires Records(alertFor)
    ensures ChangeAlerts(identityOf, alertFor, oldRows, newRows) == [] <==>
      forall identity :: SameValues(identityOf, oldRows, newRows, identity)
  {
    var alerts := ChangeAlerts(identityOf, alertFor, oldRows, newRows);
    var before, after := MapOf(identityOf, oldRows), MapOf(identityOf, newRows);
    if alerts == [] {
      forall identity ensures SameValues(identityOf, oldRows, newRows, identity) {
        ChangeExactly(before, after, identity);
        if ChangeAt(before, after, identity).Some? {
          var c := ChangeAt(before, after, identity).value;
          AlertsAreChanges(identityOf, alertFor, oldRows, newRows, alertFor(c));
        }
      }
    } else {
      var a := alerts[0];
      AlertsAreChanges(identityOf, alertFor, oldRows, newRows, a);
      ChangeExactly(before, after, a.change.rowIdentity);
      assert !SameValues(identityOf, oldRows, newRows, a.change.rowIdentity);
    }
  }

  lemma ChangeExactly(before: Entries<AwardRow>, after: Entries<AwardRow>, identity: string)
    ensures ChangeAt(before, after, identity) == None <==> ValuesAt(before, identity) == ValuesAt(after, identity)
    ensures ChangeAt(before, after, identity).Some? ==> ChangeAt(before, after, identity).value.rowIdentity == identity
  {
    var o, n := ValuesAt(before, identity), ValuesAt(after, identity);
    if o.Some? && n.Some? {
      DiffsExactly(o.value, n.value);
    }
  }

  // ---------------------------------------------------------------- the diff is silent

  lemma SilentByKey(changes: seq<Diff.Change>, oldRows: seq<Diff.RecordRow>, newRows: seq<Diff.RecordRow>)
    requires Diff.IsDiff(changes, oldRows, newRows)
    ensures changes == [] <==> forall key :: Diff.At(oldRows, key) == Diff.At(newRows, key)
  {
    Laws.SilentExactly(changes, oldRows, newRows);
    if changes == [] {
      Laws.SamePairsAreSameByKey(oldRows, newRows);
    }
    if forall key :: Diff.At(oldRows, key) == Diff.At(newRows, key) {
      Laws.SameByKeyAreSamePairs(oldRows, newRows);
    }
  }

  /** How many rows have an identity. */
  function CountOf(identityOf: AwardRow -> string, rows: seq<AwardRow>, identity: string): nat {
    if rows == [] then 0
    else CountOf(identityOf, rows[..|rows| - 1], identity) + if identityOf(rows[|rows| - 1]) == identity then 1 else 0
  }

  lemma RecordRowsNext(identityOf: AwardRow -> string, json: AwardRow -> string, rows: seq<AwardRow>)
    requires rows != []
    ensures var all := RecordRows(identityOf, json, rows);
      && all[..|all| - 1] == RecordRows(identityOf, json, rows[..|rows| - 1])
      && all[|all| - 1] == RecordOf(identityOf, json, rows[|rows| - 1])
  {
  }

  /** Where all rows of an identity have one canonical text, it stands under the identity as often as there are rows. */
  lemma {:induction false} AtExactly(identityOf: AwardRow -> string, json: AwardRow -> string, rows: seq<AwardRow>, identity: string,
                                     canonical: string, c: string)
    requires forall i :: 0 <= i < |rows| && identityOf(rows[i]) == identity ==> Canonical(rows[i]) == canonical
    ensures Diff.At(RecordRows(identityOf, json, rows), identity)[c] ==
      if c == canonical then CountOf(identityOf, rows, identity) else 0
  {
    if rows != [] {
      var front := rows[..|rows| - 1];
      RecordRowsNext(identityOf, json, rows);
      forall i | 0 <= i < |front| && identityOf(front[i]) == identity ensures Canonical(front[i]) == canonical {
        assert front[i] == rows[i];
      }
      AtExactly(identityOf, json, front, identity, canonical, c);
    }
  }

  lemma {:induction false} CountedExactly(identityOf: AwardRow -> string, rows: seq<AwardRow>, identity: string)
    ensures CountOf(identityOf, rows, identity) > 0 <==> exists row :: row in rows && identityOf(row) == identity
  {
    if rows != [] {
      var front, last := rows[..|rows| - 1], rows[|rows| - 1];
      CountedExactly(identityOf, front, identity);
      assert rows == front + [last];
    }
  }

  /** What the map holds for an identity of agreeing rows, and what the stored rows hold under it. */
  lemma StoredExactly(identityOf: AwardRow -> string, json: AwardRow -> string, rows: seq<AwardRow>, identity: string, c: string)
    requires Agreeing(identityOf, rows)
    ensures var v := ValuesAt(MapOf(identityOf, rows), identity);
      && (v.Some? <==> CountOf(identityOf, rows, identity) > 0)
      && Diff.At(RecordRows(identityOf, json, rows), identity)[c] ==
        if v.Some? && c == Joined(v.value) then CountOf(identityOf, rows, identity) else 0
  {
    LookupIsLast(identityOf, rows, identity);
    CountedExactly(identityOf, rows, identity);
    match Lookup(MapOf(identityOf, rows), identity)
    case None =>
      AtExactly(identityOf, json, rows, identity, "", c);
    case Some(kept) =>
      var j :| 0 <= j < |rows| && rows[j] == kept;
      AtExactly(identityOf, json, rows, identity, Canonical(kept), c);
  }

  lemma KeptIsSeparatorFree(identityOf: AwardRow -> string, rows: seq<AwardRow>, identity: string)
    requires RowsSeparatorFree(rows) && ValuesAt(MapOf(identityOf, rows), identity).Some?
    ensures AllSeparatorFree(ValuesAt(MapOf(identityOf, rows), identity).value)
  {
    LookupIsLast(identityOf, rows, identity);
  }

  ghost predicate SameStored(identityOf: AwardRow -> string, json: AwardRow -> string, oldRows: seq<AwardRow>, newRows: seq<AwardRow>, identity: string) {
    Diff.At(RecordRows(identityOf, json, oldRows), identity) == Diff.At(RecordRows(identityOf, json, newRows), identity)
  }

  predicate SameValues(identityOf: AwardRow -> string, oldRows: seq<AwardRow>, newRows: seq<AwardRow>, identity: string) {
    ValuesAt(MapOf(identityOf, oldRows), identity) == ValuesAt(MapOf(identityOf, newRows), identity)
  }

  predicate SameCount(identityOf: AwardRow -> string, oldRows: seq<AwardRow>, newRows: seq<AwardRow>, identity: string) {
    CountOf(identityOf, oldRows, identity) == CountOf(identityOf, newRows, identity)
  }

  /** For one identity: the stored rows are the same exactly if the map values are, and the numbers of rows. */
  lemma SameStoredExactly(identityOf: AwardRow -> string, json: AwardRow -> string, oldRows: seq<AwardRow>, newRows: seq<AwardRow>, identity: string)
    requires Agreeing(identityOf, oldRows) && Agreeing(identityOf, newRows)
    requires RowsSeparatorFree(oldRows) && RowsSeparatorFree(newRows)
    ensures SameStored(identityOf, json, oldRows, newRows, identity) <==>
      SameValues(identityOf, oldRows, newRows, identity) && SameCount(identityOf, oldRows, newRows, identity)
  {
    var o, n := ValuesAt(MapOf(identityOf, oldRows), identity), ValuesAt(MapOf(identityOf, newRows), identity);
    var a, b := Diff.At(RecordRows(identityOf, json, oldRows), identity), Diff.At(RecordRows(identityOf, json, newRows), identity);
    forall c: string
      ensures a[c] == if o.Some? && c == Joined(o.value) then CountOf(identityOf, oldRows, identity) else 0
      ensures b[c] == if n.Some? && c == Joined(n.value) then CountOf(identityOf, newRows, identity) else 0
      ensures o.Some? <==> CountOf(identityOf, oldRows, identity) > 0
      ensures n.Some? <==> CountOf(identityOf, newRows, identity) > 0
    {
      StoredExactly(identityOf, json, oldRows, identity, c);
      StoredExactly(identityOf, json, newRows, identity, c);
    }
    StoredExactly(identityOf, json, oldRows, identity, "");
    StoredExactly(identityOf, json, newRows, identity, "");
    if o.Some? && n.Some? {
      KeptIsSeparatorFree(identityOf, oldRows, identity);
      KeptIsSeparatorFree(identityOf, newRows, identity);
      JoinIsDecodable(o.value, n.value);
    }
    CopiesAgreeExactly(a, b, o, n, CountOf(identityOf, oldRows, identity), CountOf(identityOf, newRows, identity));
  }

  lemma CopiesAgreeExactly(a: multiset<string>, b: multiset<string>, o: Option<FieldValues>, n: Option<FieldValues>, i: nat, j: nat)
    requires forall c :: a[c] == if o.Some? && c == Joined(o.value) then i else 0
    requires forall c :: b[c] == if n.Some? && c == Joined(n.value) then j else 0
    requires (o.Some? <==> i > 0) && (n.Some? <==> j > 0)
    requires o.Some? && n.Some? ==> (Joined(o.value) == Joined(n.value) <==> o == n)
    ensures a == b <==> o == n && i == j
  {
    if a == b {
      if o.Some? {
        assert a[Joined(o.value)] == i && b[Joined(o.value)] == i;
      }
      if n.Some? {
        assert b[Joined(n.value)] == j && a[Joined(n.value)] == j;
      }
    }
  }

  // ---------------------------------------------------------------- one notion of a row

  /**
   * For rows that agree per identity and have no separator in their fields: the diff is silent if and only
   * if no alert is raised and each identity has equally many rows on both sides.
   */
  lemma SilentTogetherExactly(identityOf: AwardRow -> string, json: AwardRow -> string, alertFor: RecordChange -> Alert,
                              oldRows: seq<AwardRow>, newRows: seq<AwardRow>, changes: seq<Diff.Change>)
    requires Records(alertFor) && Agreeing(identityOf, oldRows) && Agreeing(identityOf, newRows)
    requires RowsSeparatorFree(oldRows) && RowsSeparatorFree(newRows)
    requires Diff.IsDiff(changes, RecordRows(identityOf, json, oldRows), RecordRows(identityOf, json, newRows))
    ensures changes == [] <==>
      && ChangeAlerts(identityOf, alertFor, oldRows, newRows) == []
      && forall identity :: SameCount(identityOf, oldRows, newRows, identity)
  {
    SilentExactly(identityOf, json, oldRows, newRows, changes);
    NoAlertsExactly(identityOf, alertFor, oldRows, newRows);
    forall identity
      ensures SameStored(identityOf, json, oldRows, newRows, identity) <==>
        SameValues(identityOf, oldRows, newRows, identity) && SameCount(identityOf, oldRows, newRows, identity)
    {
      SameStoredExactly(identityOf, json, oldRows, newRows, identity);
    }
    assert (forall identity :: SameStored(identityOf, json, oldRows, newRows, identity)) ==>
      forall identity :: SameValues(identityOf, oldRows, newRows, identity) by {
      assert forall identity :: SameStored(identityOf, json, oldRows, newRows, identity) ==> SameValues(identityOf, oldRows, newRows, identity);
    }
  }

  lemma SilentExactly(identityOf: AwardRow -> string, json: AwardRow -> string, oldRows: seq<AwardRow>, newRows: seq<AwardRow>,
                      changes: seq<Diff.Change>)
    requires Diff.IsDiff(changes, RecordRows(identityOf, json, oldRows), RecordRows(identityOf, json, newRows))
    ensures changes == [] <==> forall identity :: SameStored(identityOf, json, oldRows, newRows, identity)
  {
    SilentByKey(changes, RecordRows(identityOf, json, oldRows), RecordRows(identityOf, json, newRows));
    forall identity
      ensures SameStored(identityOf, json, oldRows, newRows, identity) <==>
        Diff.At(RecordRows(identityOf, json, oldRows), identity) == Diff.At(RecordRows(identityOf, json, newRows), identity)
    {
    }
  }

  lemma {:induction false} DistinctCountOnce(identityOf: AwardRow -> string, rows: seq<AwardRow>, identity: string)
    requires DistinctIdentities(identityOf, rows)
    ensures CountOf(identityOf, rows, identity) <= 1
  {
    if rows != [] {
      var front, last := rows[..|rows| - 1], rows[|rows| - 1];
      DistinctCountOnce(identityOf, front, identity);
      CountedExactly(identityOf, front, identity);
      if identityOf(last) == identity {
        forall row | row in front ensures identityOf(row) != identity {
          var i :| 0 <= i < |front| && front[i] == row;
          assert rows[i] == row;
        }
      }
    }
  }

  /** For rows with distinct identities and no separator in their fields, the diff is silent if and only if the alerts are. */
  lemma DistinctRowsAreSilentTogether(identityOf: AwardRow -> string, json: AwardRow -> string, alertFor: RecordChange -> Alert,
                                      oldRows: seq<AwardRow>, newRows: seq<AwardRow>, changes: seq<Diff.Change>)
    requires Records(alertFor) && DistinctIdentities(identityOf, oldRows) && DistinctIdentities(identityOf, newRows)
    requires RowsSeparatorFree(oldRows) && RowsSeparatorFree(newRows)
    requires Diff.IsDiff(changes, RecordRows(identityOf, json, oldRows), RecordRows(identityOf, json, newRows))
    ensures changes == [] <==> ChangeAlerts(identityOf, alertFor, oldRows, newRows) == []
  {
    DistinctRowsAgree(identityOf, oldRows);
    DistinctRowsAgree(identityOf, newRows);
    SilentTogetherExactly(identityOf, json, alertFor, oldRows, newRows, changes);
    if ChangeAlerts(identityOf, alertFor, oldRows, newRows) == [] {
      NoAlertsExactly(identityOf, alertFor, oldRows, newRows);
      forall identity ensures SameCount(identityOf, oldRows, newRows, identity) {
        assert SameValues(identityOf, oldRows, newRows, identity);
        DistinctCountOnce(identityOf, oldRows, identity);
        DistinctCountOnce(identityOf, newRows, identity);
        StoredExactly(identityOf, json, oldRows, identity, "");
        StoredExactly(identityOf, json, newRows, identity, "");
      }
    }
  }

  // ---------------------------------------------------------------- where they differ

  /** A joint award listed the other way round: an alert, and nothing in the diff. */
  lemma JointAwardIsOnlyAnAlert(sha256: Hash, ctx: Context, json: AwardRow -> string, a: AwardRow, b: AwardRow, changes: seq<Diff.Change>)
    requires MatchKey(a.solicitationId).Some? && a.solicitationId == b.solicitationId && a.contractor != b.contractor
    requires Diff.IsDiff(changes, RecordRows(IdentityOf(sha256), json, [a, b]), RecordRows(IdentityOf(sha256), json, [b, a]))
    ensures changes == [] && ChangeAlerts(IdentityOf(sha256), Alerting(sha256, ctx), [a, b], [b, a]) != []
  {
    JointAwardRaisesAnAlert(sha256, ctx, a, b);
    var r, s := RecordOf(IdentityOf(sha256), json, a), RecordOf(IdentityOf(sha256), json, b);
    assert RecordRows(IdentityOf(sha256), json, [a, b]) == [r, s] && RecordRows(IdentityOf(sha256), json, [b, a]) == [s, r];
    SwappedIsSilent(r, s, changes);
  }

  lemma SwappedIsSilent(r: Diff.RecordRow, s: Diff.RecordRow, changes: seq<Diff.Change>)
    requires Diff.IsDiff(changes, [r, s], [s, r])
    ensures changes == []
  {
    PairsOfTwo(r, s);
    PairsOfTwo(s, r);
    Laws.SilentExactly(changes, [r, s], [s, r]);
  }

  lemma PairsOfOne(r: Diff.RecordRow)
    ensures Laws.PairsOf([r]) == [(r.key, r.canonical)]
  {
    assert [r][..0] == [];
    assert Laws.PairsOf([]) == [];
  }

  lemma PairsOfTwo(r: Diff.RecordRow, s: Diff.RecordRow)
    ensures Laws.PairsOf([r, s]) == [(r.key, r.canonical), (s.key, s.canonical)]
  {
    assert [r, s][..1] == [r];
    PairsOfOne(r);
  }

  lemma MapOfOne(identityOf: AwardRow -> string, a: AwardRow)
    ensures MapOf(identityOf, [a]) == [(identityOf(a), a)]
  {
    assert [a][..0] == [];
    assert MapOf(identityOf, []) == [];
  }

  /** A row that is listed twice: a change in the diff, and no alert. */
  lemma RepeatedRowIsOnlyAChange(identityOf: AwardRow -> string, alertFor: RecordChange -> Alert, json: AwardRow -> string, a: AwardRow,
                                 changes: seq<Diff.Change>)
    requires Records(alertFor)
    requires Diff.IsDiff(changes, RecordRows(identityOf, json, [a]), RecordRows(identityOf, json, [a, a]))
    ensures changes != [] && ChangeAlerts(identityOf, alertFor, [a], [a, a]) == []
  {
    var r := RecordOf(identityOf, json, a);
    assert RecordRows(identityOf, json, [a]) == [r] && RecordRows(identityOf, json, [a, a]) == [r, r];
    PairsOfOne(r);
    PairsOfTwo(r, r);
    assert |multiset(Laws.PairsOf([r]))| == 1 && |multiset(Laws.PairsOf([r, r]))| == 2;
    Laws.SilentExactly(changes, [r], [r, r]);
    MapOfTwo(identityOf, a, a);
    MapOfOne(identityOf, a);
    NoAlertsExactly(identityOf, alertFor, [a], [a, a]);
  }

  /** A separator that moves from one field to the next: an alert, and nothing in the diff. */
  lemma MovedSeparatorIsOnlyAnAlert(sha256: Hash, ctx: Context, json: AwardRow -> string, a: AwardRow, b: AwardRow, changes: seq<Diff.Change>)
    requires MatchKey(a.solicitationId).Some? && a.projectName == UNIT_SEPARATOR && a.contractor == ""
    requires b == a.(projectName := "", contractor := UNIT_SEPARATOR)
    requires Diff.IsDiff(changes, RecordRows(IdentityOf(sha256), json, [a]), RecordRows(IdentityOf(sha256), json, [b]))
    ensures changes == [] && ChangeAlerts(IdentityOf(sha256), Alerting(sha256, ctx), [a], [b]) != []
  {
    var identityOf, alertFor := IdentityOf(sha256), Alerting(sha256, ctx);
    var r, s := RecordOf(identityOf, json, a), RecordOf(identityOf, json, b);
    assert RecordRows(identityOf, json, [a]) == [r] && RecordRows(identityOf, json, [b]) == [s];
    assert Filter("", IsAlphanumeric) == "";
    assert r.key == s.key;
    SameCanonical(a, b);
    PairsOfOne(r);
    PairsOfOne(s);
    Laws.SilentExactly(changes, [r], [s]);
    MapOfOne(identityOf, a);
    MapOfOne(identityOf, b);
    assert Values(a)[0] != Values(b)[0];
    NoAlertsExactly(identityOf, alertFor, [a], [b]);
    assert !SameValues(identityOf, [a], [b], r.key);
  }

  lemma SameCanonical(a: AwardRow, b: AwardRow)
    requires a.projectName == UNIT_SEPARATOR && a.contractor == ""
    requires b == a.(projectName := "", contractor := UNIT_SEPARATOR)
    ensures Canonical(a) == Canonical(b)
  {
    var rest := [a.rawAmount, a.startDate, a.notes];
    assert Values(a) == [UNIT_SEPARATOR, ""] + rest && Values(b) == ["", UNIT_SEPARATOR] + rest;
    JoinedCons("", rest);
    JoinedCons(UNIT_SEPARATOR, rest);
    JoinedCons(UNIT_SEPARATOR, [""] + rest);
    JoinedCons("", [UNIT_SEPARATOR] + rest);
    assert [UNIT_SEPARATOR] + ([""] + rest) == Values(a) && [""] + ([UNIT_SEPARATOR] + rest) == Values(b);
  }
}
