/** What detection finds, exactly; what a pass leaves in the store; and what a second pass does. */
module RelationshipLaws {
  import opened Wrappers
  import opened Text
  import opened Hashing
  import opened OrderedMap
  import opened Identifiers
  import opened Relationships
  import opened Utf8

  // ---------------------------------------------------------------- the index

  /** `t` is stored, and `key` is its match key. */
  ghost predicate StoredUnder(archive: Archive, key: string, t: StoredIdentifier) {
    exists m, i :: m in archive.matters && i in m.identifiers && IsStoredAs(m, i, key, t)
  }

  predicate IsStoredAs(m: Matter, i: Identifier, key: string, t: StoredIdentifier) {
    KeyOf(i) == Some(key) && t == StoredIdentifier(i.raw, m.id, i.kind)
  }

  lemma {:induction false} InUnder(keyed: seq<(string, StoredIdentifier)>, key: string, t: StoredIdentifier)
    ensures t in Under(keyed, key) <==> (key, t) in keyed
  {
    if keyed != [] {
      var front, last := keyed[..|keyed| - 1], keyed[|keyed| - 1];
      InUnder(front, key, t);
      assert keyed == front + [last];
    }
  }

  lemma {:induction false} InKeyedIn(m: Matter, identifiers: seq<Identifier>, key: string, t: StoredIdentifier)
    ensures (key, t) in KeyedIn(m.id, identifiers) <==> exists i :: i in identifiers && IsStoredAs(m, i, key, t)
  {
    if identifiers != [] {
      var front, last := identifiers[..|identifiers| - 1], identifiers[|identifiers| - 1];
      InKeyedIn(m, front, key, t);
      assert identifiers == front + [last];
      assert (key, t) in KeyedIn(m.id, identifiers) <==> (key, t) in KeyedIn(m.id, front) || IsStoredAs(m, last, key, t);
    }
  }

  lemma {:induction false} InKeyed(matters: seq<Matter>, key: string, t: StoredIdentifier)
    ensures (key, t) in Keyed(matters) <==> exists m :: m in matters && (key, t) in KeyedIn(m.id, m.identifiers)
  {
    if matters != [] {
      var front, last := matters[..|matters| - 1], matters[|matters| - 1];
      InKeyed(front, key, t);
      assert matters == front + [last];
    }
  }

  lemma InTargets(archive: Archive, index: ByKey, key: string, t: StoredIdentifier)
    requires Indexes(index, Keyed(archive.matters))
    ensures t in Targets(index, key) <==> StoredUnder(archive, key, t)
  {
    assert Lookup(index, key) == NonEmpty(Under(Keyed(archive.matters), key));
    InUnder(Keyed(archive.matters), key, t);
    InKeyed(archive.matters, key, t);
    forall m | m in archive.matters
      ensures (key, t) in KeyedIn(m.id, m.identifiers) <==> exists i :: i in m.identifiers && IsStoredAs(m, i, key, t)
    {
      InKeyedIn(m, m.identifiers, key, t);
    }
  }

  // ---------------------------------------------------------------- findings

  lemma {:induction false} InMatches(archive: Archive, record: RecordReference, q: string, targets: seq<StoredIdentifier>, f: Finding)
    ensures f in Matches(archive, record, q, targets) <==>
      f.Match? && f.record == record && f.quote == q && f.target in targets && Linkable(archive, record, q, f.target)
  {
    if targets != [] {
      var front, last := targets[..|targets| - 1], targets[|targets| - 1];
      InMatches(archive, record, q, front, f);
      assert targets == front + [last];
    }
  }

  lemma {:induction false} InFindingsIn(archive: Archive, index: ByKey, record: RecordReference, candidates: seq<string>, f: Finding)
    ensures f in FindingsIn(archive, index, record, candidates) <==>
      exists q :: q in candidates && f in FindingsOf(archive, index, record, q)
  {
    if candidates != [] {
      var front, last := candidates[..|candidates| - 1], candidates[|candidates| - 1];
      InFindingsIn(archive, index, record, front, f);
      assert candidates == front + [last];
    }
  }

  ghost predicate IsFound(archive: Archive, index: ByKey, records: seq<RecordReference>, f: Finding) {
    exists r :: r in records && f in RecordFindings(archive, index, r)
  }

  lemma IsFoundNext(archive: Archive, index: ByKey, front: seq<RecordReference>, last: RecordReference, f: Finding)
    ensures IsFound(archive, index, front + [last], f) <==>
      IsFound(archive, index, front, f) || f in RecordFindings(archive, index, last)
  {
    assert last in front + [last];
  }

  lemma {:induction false} InAllFindings(archive: Archive, index: ByKey, records: seq<RecordReference>, f: Finding)
    ensures f in AllFindings(archive, index, records) <==> IsFound(archive, index, records, f)
  {
    if records != [] {
      var front, last := records[..|records| - 1], records[|records| - 1];
      InAllFindings(archive, index, front, f);
      IsFoundNext(archive, index, front, last, f);
      assert records == front + [last];
    }
  }

  lemma FindingNames(archive: Archive, index: ByKey, record: RecordReference, q: string, f: Finding)
    requires f in FindingsOf(archive, index, record, q)
    ensures f.record == record && f.quote == q
  {
    var key := MatchKey(q).value;
    InMatches(archive, record, q, Targets(index, key), f);
  }

  /** A finding is found exactly through its own record and its own quote. */
  lemma FoundExactly(archive: Archive, index: ByKey, records: seq<RecordReference>, f: Finding)
    ensures f in AllFindings(archive, index, records) <==>
      && f.record in records && Admitted(archive, f.record) && f.quote in Tokens(f.record.referenceText)
      && f in FindingsOf(archive, index, f.record, f.quote)
  {
    InAllFindings(archive, index, records, f);
    forall r: RecordReference ensures f in FindingsIn(archive, index, r, Tokens(r.referenceText)) <==>
      f.record == r && f.quote in Tokens(r.referenceText) && f in FindingsOf(archive, index, r, f.quote)
    {
      InFindingsIn(archive, index, r, Tokens(r.referenceText), f);
      forall q | f in FindingsOf(archive, index, r, q) ensures f.record == r && f.quote == q {
        FindingNames(archive, index, r, q, f);
      }
    }
  }

  /** Everything that makes an exact match: declared field, both endpoints, equal keys, another record. */
  ghost predicate IsExactMatch(archive: Archive, records: seq<RecordReference>, record: RecordReference, q: string, t: StoredIdentifier) {
    && record in records && Admitted(archive, record) && q in Tokens(record.referenceText)
    && MatchKey(q).Some? && StoredUnder(archive, MatchKey(q).value, t)
    && Linkable(archive, record, q, t)
  }

  lemma MatchesExactly(archive: Archive, index: ByKey, records: seq<RecordReference>, record: RecordReference, q: string, t: StoredIdentifier)
    requires Indexes(index, Keyed(archive.matters))
    ensures Match(record, q, t) in AllFindings(archive, index, records) <==> IsExactMatch(archive, records, record, q, t)
  {
    var f := Match(record, q, t);
    FoundExactly(archive, index, records, f);
    if MatchKey(q).Some? {
      var key := MatchKey(q).value;
      InTargets(archive, index, key, t);
      InMatches(archive, record, q, Targets(index, key), f);
    }
  }

  ghost predicate HasExactMatch(archive: Archive, record: RecordReference, q: string, key: string) {
    exists t :: StoredUnder(archive, key, t) && Linkable(archive, record, q, t)
  }

  lemma NoMatchesExactly(archive: Archive, index: ByKey, record: RecordReference, q: string, key: string)
    requires Indexes(index, Keyed(archive.matters))
    ensures Matches(archive, record, q, Targets(index, key)) == [] <==> !HasExactMatch(archive, record, q, key)
  {
    var matches := Matches(archive, record, q, Targets(index, key));
    if matches != [] {
      var f := matches[0];
      InMatches(archive, record, q, Targets(index, key), f);
      InTargets(archive, index, key, f.target);
    } else {
      forall t | StoredUnder(archive, key, t) ensures !Linkable(archive, record, q, t) {
        InTargets(archive, index, key, t);
        InMatches(archive, record, q, Targets(index, key), Match(record, q, t));
      }
    }
  }

  /** A candidate is a near miss only if it matches nothing, and then of one identifier. */
  lemma NearMissesExactly(archive: Archive, index: ByKey, records: seq<RecordReference>, record: RecordReference, q: string, t: StoredIdentifier)
    requires Indexes(index, Keyed(archive.matters))
    ensures NearMiss(record, q, t) in AllFindings(archive, index, records) <==>
      && record in records && Admitted(archive, record) && q in Tokens(record.referenceText)
      && MatchKey(q).Some? && !HasExactMatch(archive, record, q, MatchKey(q).value)
      && NearMissTarget(MatchKey(q).value, index) == Some(t)
  {
    var f := NearMiss(record, q, t);
    FoundExactly(archive, index, records, f);
    if MatchKey(q).Some? {
      var key := MatchKey(q).value;
      NoMatchesExactly(archive, index, record, q, key);
      InMatches(archive, record, q, Targets(index, key), f);
    }
  }

  // ---------------------------------------------------------------- near misses

  predicate DiffersInLast(key: string, other: string) {
    && |other| == |key| > 0
    && key[..|key| - 1] == other[..|key| - 1]
    && other[|key| - 1] != key[|key| - 1]
  }

  lemma ByteLengthOfLast(s: string)
    requires s != ""
    ensures ByteLength(s) == ByteLength(s[..|s| - 1]) + |EncodeChar(s[|s| - 1])|
  {
    var front, last := s[..|s| - 1], [s[|s| - 1]];
    assert s == front + last;
    EncodeConcat(front, last);
    assert Encode(last) == EncodeChar(last[0]) + Encode(last[1..]);
  }

  lemma NearDiffersInLast(key: string, other: string)
    requires All(key, IsAscii) && IsNear(key, other)
    ensures DiffersInLast(key, other) && IsAscii(other[|key| - 1])
  {
    var n := |key| - 1;
    ByteLengthBounds(key);
    ByteLengthBounds(key[..n]);
    OneByteMore(key[..n], other);
    assert key == key[..n] + [key[n]] && other == other[..n] + [other[n]];
  }

  /** A text that is one byte longer than a prefix of it has one more character, in ASCII. */
  lemma OneByteMore(prefix: string, s: string)
    requires prefix <= s && ByteLength(s) == ByteLength(prefix) + 1
    ensures |s| == |prefix| + 1 && IsAscii(s[|prefix|])
  {
    var rest := s[|prefix|..];
    assert s == prefix + rest;
    EncodeConcat(prefix, rest);
    ByteLengthBounds(rest);
    assert rest != "" by {
      assert Encode("") == [];
    }
    assert rest[0] == s[|prefix|];
  }

  lemma DifferingInLastIsNear(key: string, other: string)
    requires All(key, IsAscii) && DiffersInLast(key, other) && IsAscii(other[|key| - 1])
    ensures IsNear(key, other)
  {
    ByteLengthOfLast(key);
    ByteLengthOfLast(other);
  }

  /** The comparison by bytes finds exactly the keys that differ in the last character, by another ASCII one. */
  lemma IsNearExactly(key: string, other: string)
    requires key != "" && All(key, IsAscii)
    ensures IsNear(key, other) <==> DiffersInLast(key, other) && IsAscii(other[|key| - 1])
  {
    if IsNear(key, other) {
      NearDiffersInLast(key, other);
    } else if DiffersInLast(key, other) && IsAscii(other[|key| - 1]) {
      DifferingInLastIsNear(key, other);
    }
  }

  lemma MatchKeyIsAscii(raw: string)
    ensures MatchKey(raw).Some? ==> MatchKey(raw).value != "" && All(MatchKey(raw).value, IsAscii)
  {
  }

  ghost predicate IsLastWhere<T>(s: seq<T>, p: T -> bool, bound: nat, n: nat)
    requires bound <= |s|
  {
    n < bound && p(s[n]) && forall m :: n < m < bound ==> !p(s[m])
  }

  lemma {:induction false} LastWhereExactly<T>(s: seq<T>, p: T -> bool, bound: nat) returns (n: nat)
    requires bound <= |s|
    ensures LastWhere(s, p, bound).Some? ==> IsLastWhere(s, p, bound, n) && LastWhere(s, p, bound) == Some(s[n])
    ensures LastWhere(s, p, bound).None? ==> forall m :: 0 <= m < bound ==> !p(s[m])
  {
    n := 0;
    if bound > 0 {
      if p(s[bound - 1]) {
        n := bound - 1;
      } else {
        n := LastWhereExactly(s, p, bound - 1);
      }
    }
  }

  /** What a near miss names is stored, under a key that differs from the candidate's only in the last character. */
  lemma NearMissIsStored(archive: Archive, index: ByKey, q: string, t: StoredIdentifier)
    requires Indexes(index, Keyed(archive.matters))
    requires MatchKey(q).Some? && NearMissTarget(MatchKey(q).value, index) == Some(t)
    ensures exists other :: StoredUnder(archive, other, t) && DiffersInLast(MatchKey(q).value, other)
  {
    var key := MatchKey(q).value;
    var n := LastWhereExactly(index, entry => IsNearEntry(key, entry), |index|);
    var other := index[n].0;
    LookupEntry(index, n);
    InTargets(archive, index, other, t);
    MatchKeyIsAscii(q);
    IsNearExactly(key, other);
  }

  // ---------------------------------------------------------------- the rows

  const CANDIDATE_MATCH := "candidate_identifier_match"

  function LinkOf(sha256: string -> string, f: Finding): Link {
    var r := f.record;
    Link(StableId(sha256, "official-rel", [r.sourceRecordId, r.referenceField, f.target.raw, r.snapshotId]),
         r.sourceRecordId, r.snapshotId, r.snapshotDigest, f.target.raw, f.target.matterId, r.referenceField, f.quote)
  }

  function Summary(f: Finding): string {
    "candidate reference '" + f.quote + "' in " + f.record.referenceField + " (" + f.record.sourceRecordId
    + "): near-miss of '" + f.target.raw + "' in matter " + f.target.matterId
  }

  function ItemOf(sha256: string -> string, f: Finding): Item {
    Item(StableId(sha256, "reconcile", [f.record.matterId, CANDIDATE_MATCH, Summary(f)]),
         f.record.matterId, Summary(f), f.record.sourceRecordId)
  }

  function RowsOf(sha256: string -> string): Rows {
    Rows(f => LinkOf(sha256, f), f => ItemOf(sha256, f))
  }

  predicate IsLinkOf(rows: Rows, f: Finding, link: Link) {
    f.Match? && rows.linkOf(f) == link
  }

  predicate IsItemOf(rows: Rows, f: Finding, item: Item) {
    f.NearMiss? && rows.itemOf(f) == item
  }

  ghost predicate LinksExplained(rows: Rows, before: map<string, Link>, findings: seq<Finding>, after: map<string, Link>) {
    forall id :: id in after ==>
      (id in before && after[id] == before[id]) || exists f :: f in findings && IsLinkOf(rows, f, after[id])
  }

  ghost predicate ItemsExplained(rows: Rows, before: map<string, Item>, findings: seq<Finding>, after: map<string, Item>) {
    forall id :: id in after ==>
      (id in before && after[id] == before[id]) || exists f :: f in findings && IsItemOf(rows, f, after[id])
  }

  ghost predicate Grown(before: Tables, after: Tables) {
    && (forall id :: id in before.links ==> id in after.links && after.links[id] == before.links[id])
    && (forall id :: id in before.items ==> id in after.items && after.items[id] == before.items[id])
  }

  predicate IsRecorded(rows: Rows, t: Tables, f: Finding) {
    if f.Match? then rows.linkOf(f).id in t.links else rows.itemOf(f).id in t.items
  }

  predicate AllRecorded(rows: Rows, t: Tables, findings: seq<Finding>) {
    forall n :: 0 <= n < |findings| ==> IsRecorded(rows, t, findings[n])
  }

  /** No row is ever changed, and every finding is recorded under its id. */
  lemma {:induction false} ApplyRecords(rows: Rows, s: State, findings: seq<Finding>)
    ensures Grown(s.tables, ApplyAll(rows, s, findings).tables)
    ensures AllRecorded(rows, ApplyAll(rows, s, findings).tables, findings)
  {
    if findings != [] {
      ApplyRecords(rows, s, findings[..|findings| - 1]);
    }
  }

  /** Every row of the link table was there before or comes from a match; likewise the items and near misses. */
  lemma {:induction false} ApplyExplains(rows: Rows, s: State, findings: seq<Finding>)
    ensures LinksExplained(rows, s.tables.links, findings, ApplyAll(rows, s, findings).tables.links)
    ensures ItemsExplained(rows, s.tables.items, findings, ApplyAll(rows, s, findings).tables.items)
  {
    if findings != [] {
      var front, last := findings[..|findings| - 1], findings[|findings| - 1];
      ApplyExplains(rows, s, front);
      assert findings == front + [last];
      ExplainNext(rows, s, front, last);
    }
  }

  lemma ExplainNext(rows: Rows, s: State, front: seq<Finding>, last: Finding)
    requires LinksExplained(rows, s.tables.links, front, ApplyAll(rows, s, front).tables.links)
    requires ItemsExplained(rows, s.tables.items, front, ApplyAll(rows, s, front).tables.items)
    ensures LinksExplained(rows, s.tables.links, front + [last], Apply(rows, ApplyAll(rows, s, front), last).tables.links)
    ensures ItemsExplained(rows, s.tables.items, front + [last], Apply(rows, ApplyAll(rows, s, front), last).tables.items)
  {
    assert last in front + [last];
    assert forall f :: f in front ==> f in front + [last];
    if last.Match? {
      assert IsLinkOf(rows, last, rows.linkOf(last));
    } else {
      assert IsItemOf(rows, last, rows.itemOf(last));
    }
  }

  /** A finding that is recorded changes nothing. */
  lemma {:induction false} RecordedIsIgnored(rows: Rows, s: State, findings: seq<Finding>)
    requires AllRecorded(rows, s.tables, findings)
    ensures ApplyAll(rows, s, findings) == s
  {
    if findings != [] {
      RecordedIsIgnored(rows, s, findings[..|findings| - 1]);
    }
  }

  /** A second pass over the same records reports nothing and leaves the tables as they are. */
  lemma SecondPassIsSilent(rows: Rows, s: State, findings: seq<Finding>)
    ensures var t := ApplyAll(rows, s, findings).tables;
      ApplyAll(rows, State(t, Outcome([], [])), findings) == State(t, Outcome([], []))
  {
    ApplyRecords(rows, s, findings);
    RecordedIsIgnored(rows, State(ApplyAll(rows, s, findings).tables, Outcome([], [])), findings);
  }

  /** A link that names an exact match of a record that was scanned. */
  ghost predicate IsJustified(archive: Archive, records: seq<RecordReference>, link: Link) {
    exists record, t :: IsExactMatch(archive, records, record, link.quote, t) && LinkNames(link, record, t)
  }

  predicate LinkNames(link: Link, record: RecordReference, t: StoredIdentifier) {
    && link.sourceRecordId == record.sourceRecordId
    && link.sourceSnapshotId == record.snapshotId && link.sourceSnapshotDigest == record.snapshotDigest
    && link.referenceField == record.referenceField
    && link.targetIdentifier == t.raw && link.targetMatterId == t.matterId
  }

  /** A link is never invented: whatever a pass adds to the links of a store is an exact match. */
  lemma LinksAreJustified(sha256: string -> string, archive: Archive, index: ByKey, records: seq<RecordReference>, s: State, id: string)
    requires Indexes(index, Keyed(archive.matters))
    requires id in ApplyAll(RowsOf(sha256), s, AllFindings(archive, index, records)).tables.links
    ensures var link := ApplyAll(RowsOf(sha256), s, AllFindings(archive, index, records)).tables.links[id];
      (id in s.tables.links && s.tables.links[id] == link) || IsJustified(archive, records, link)
  {
    var rows, findings := RowsOf(sha256), AllFindings(archive, index, records);
    var links := ApplyAll(rows, s, findings).tables.links;
    ApplyExplains(rows, s, findings);
    if !(id in s.tables.links && s.tables.links[id] == links[id]) {
      var f :| f in findings && IsLinkOf(rows, f, links[id]);
      MatchesExactly(archive, index, records, f.record, f.quote, f.target);
      assert links[id] == LinkOf(sha256, f);
      assert LinkNames(links[id], f.record, f.target);
    }
  }

  /** Two links share an id exactly if they agree on record, field, raw identifier and snapshot: the matter has no part in it. */
  lemma LinkIdExactly(sha256: string -> string, f: Finding, g: Finding)
    requires CollisionFree(sha256) && LinkNulFree(f) && LinkNulFree(g)
    ensures LinkOf(sha256, f).id == LinkOf(sha256, g).id <==>
      && f.record.sourceRecordId == g.record.sourceRecordId && f.record.referenceField == g.record.referenceField
      && f.target.raw == g.target.raw && f.record.snapshotId == g.record.snapshotId
  {
    var a := [f.record.sourceRecordId, f.record.referenceField, f.target.raw, f.record.snapshotId];
    var b := [g.record.sourceRecordId, g.record.referenceField, g.target.raw, g.record.snapshotId];
    if LinkOf(sha256, f).id == LinkOf(sha256, g).id {
      StableIdIsInjective(sha256, "official-rel", a, b);
      assert a[0] == b[0] && a[1] == b[1] && a[2] == b[2] && a[3] == b[3];
    }
  }

  predicate LinkNulFree(f: Finding) {
    && NulFree(f.record.sourceRecordId) && NulFree(f.record.referenceField)
    && NulFree(f.target.raw) && NulFree(f.record.snapshotId)
  }

  /** Where two matters store the same identifier, only the first gets its link. */
  lemma SecondMatterIsShadowed(sha256: string -> string, s: State, f: Finding, g: Finding)
    requires f.Match? && g == Match(f.record, f.quote, StoredIdentifier(f.target.raw, g.target.matterId, g.target.kind))
    requires LinkOf(sha256, f).id !in s.tables.links
    ensures ApplyAll(RowsOf(sha256), s, [f, g]) == Apply(RowsOf(sha256), s, f)
  {
    assert [f, g][..1] == [f];
    ApplyOne(RowsOf(sha256), s, f);
  }

  /** What the documentation of `valid_digest` describes. */
  predicate IsDocumentedDigest(digest: string) {
    |digest| == 64 && forall i :: 0 <= i < 64 ==> IsDigit(digest[i]) || 'a' <= digest[i] <= 'f'
  }

  /** A digest that is accepted is as documented if and only if lowering its letters changes nothing. */
  lemma DigestIsAsDocumentedExactly(digest: string)
    ensures IsDocumentedDigest(digest) <==> IsValidSha256(digest) && Lower(digest) == digest
  {
    if IsValidSha256(digest) && Lower(digest) == digest {
      forall i | 0 <= i < 64 ensures IsDigit(digest[i]) || 'a' <= digest[i] <= 'f' {
        assert IsHexDigit(digest[i]) && Lower(digest)[i] == LowerChar(digest[i]);
      }
    }
    if IsDocumentedDigest(digest) {
      assert forall i :: 0 <= i < 64 ==> LowerChar(digest[i]) == digest[i];
    }
  }

  /** 64 capital letters are accepted. */
  lemma CapitalDigestIsAccepted(digest: string)
    requires digest == seq(64, i => 'A')
    ensures IsValidSha256(digest) && !IsDocumentedDigest(digest)
  {
    assert digest[0] == 'A';
  }
}
