/** Detecting references between official records: exact matches become links, near misses review items. */
module Relationships {
  import opened Wrappers
  import opened Text
  import opened Sorting
  import opened OrderedMap
  import opened Identifiers
  import opened Utf8

  // ---------------------------------------------------------------- what is stored

  datatype Identifier = Identifier(raw: string, normalized: Option<string>, kind: string)

  /** A matter, the identifiers stored for it, and for each of its events the evidence ids. */
  datatype Matter = Matter(id: string, identifiers: seq<Identifier>, events: seq<seq<string>>)

  /** The tables that detection only reads; `snapshots` gives the persisted digest of each snapshot. */
  datatype Archive = Archive(matters: seq<Matter>, snapshots: map<string, string>)

  datatype RecordReference = RecordReference(
    sourceId: string, sourceRecordId: string, matterId: string, snapshotId: string, snapshotDigest: string,
    referenceField: string, referenceText: string)

  datatype StoredIdentifier = StoredIdentifier(raw: string, matterId: string, kind: string)

  datatype Link = Link(
    id: string, sourceRecordId: string, sourceSnapshotId: string, sourceSnapshotDigest: string,
    targetIdentifier: string, targetMatterId: string, referenceField: string, quote: string)

  datatype Item = Item(id: string, matterId: string, summary: string, recordRef: string)

  // ---------------------------------------------------------------- declared fields, digests, keys

  function ReferenceFields(sourceId: string): seq<string> {
    if sourceId == "colorado-springs-contract-awards" then ["notes"]
    else if sourceId == "colorado-springs-solicitation-mirror" then ["linked_documents"]
    else []
  }

  predicate Declared(record: RecordReference) {
    record.referenceField in ReferenceFields(record.sourceId)
  }

  /** The record's own field is declared and its own snapshot is stored under the digest it names. */
  predicate Admitted(archive: Archive, record: RecordReference) {
    && Declared(record)
    && record.snapshotId in archive.snapshots
    && IsValidSha256(record.snapshotDigest)
    && archive.snapshots[record.snapshotId] == record.snapshotDigest
  }

  function KeyOf(identifier: Identifier): Option<string> {
    if identifier.normalized.Some? then identifier.normalized else MatchKey(identifier.raw)
  }

  predicate HasValidEvidence(archive: Archive, evidenceIds: seq<string>) {
    exists id :: id in evidenceIds && id in archive.snapshots && IsValidSha256(archive.snapshots[id])
  }

  /** Some event of the matter is bound to a snapshot with a valid digest. */
  predicate Resolves(archive: Archive, matter: Matter) {
    exists e :: e in matter.events && HasValidEvidence(archive, e)
  }

  predicate MatterResolves(archive: Archive, matterId: string) {
    exists m :: m in archive.matters && m.id == matterId && Resolves(archive, m)
  }

  /** The search through the events of a matter and their evidence. */
  method SearchEvents(archive: Archive, matter: Matter) returns (resolves: bool)
    ensures resolves <==> Resolves(archive, matter)
  {
    for i := 0 to |matter.events|
      invariant forall e :: e in matter.events[..i] ==> !HasValidEvidence(archive, e)
    {
      var evidenceIds := matter.events[i];
      assert evidenceIds in matter.events;
      for j := 0 to |evidenceIds|
        invariant !HasValidEvidence(archive, evidenceIds[..j])
      {
        var id := evidenceIds[j];
        if id in archive.snapshots && IsValidSha256(archive.snapshots[id]) {
          assert id in evidenceIds && HasValidEvidence(archive, evidenceIds);
          return true;
        }
      }
      assert evidenceIds[..|evidenceIds|] == evidenceIds;
    }
    assert matter.events[..|matter.events|] == matter.events;
    return false;
  }

  method MatterResolvesToValidSnapshot(archive: Archive, matterId: string) returns (resolves: bool)
    ensures resolves <==> MatterResolves(archive, matterId)
  {
    for n := 0 to |archive.matters|
      invariant forall m :: m in archive.matters[..n] && m.id == matterId ==> !Resolves(archive, m)
    {
      var matter := archive.matters[n];
      if matter.id == matterId {
        resolves := SearchEvents(archive, matter);
        if resolves {
          assert matter in archive.matters;
          return;
        }
      }
    }
    assert archive.matters[..|archive.matters|] == archive.matters;
    return false;
  }

  // ---------------------------------------------------------------- tokens

  function StripStart(s: string): string {
    if s != "" && !IsAlphanumeric(s[0]) then StripStart(s[1..]) else s
  }

  function StripEnd(s: string): string {
    if s != "" && !IsAlphanumeric(s[|s| - 1]) then StripEnd(s[..|s| - 1]) else s
  }

  /** A word without the punctuation around it. */
  function Strip(word: string): string {
    StripEnd(StripStart(word))
  }

  predicate IsCandidate(stripped: string) {
    |Filter(stripped, IsAlphanumeric)| >= 3
  }

  function TokensOf(words: seq<string>): seq<string> {
    if words == [] then []
    else
      var last := Strip(words[|words| - 1]);
      TokensOf(words[..|words| - 1]) + if IsCandidate(last) then [Upper(last)] else []
  }

  function Tokens(text: string): seq<string> {
    TokensOf(Words(text))
  }

  lemma TokensNext(words: seq<string>, k: nat)
    requires k < |words|
    ensures TokensOf(words[..k + 1]) ==
      TokensOf(words[..k]) + if IsCandidate(Strip(words[k])) then [Upper(Strip(words[k]))] else []
  {
    assert words[..k + 1][..k] == words[..k];
  }

  method TokenizeIdentifiers(text: string) returns (out: seq<string>)
    ensures out == Tokens(text)
  {
    out := [];
    var words := Words(text);
    for k := 0 to |words|
      invariant out == TokensOf(words[..k])
    {
      TokensNext(words, k);
      var trimmed := Strip(words[k]);
      if IsCandidate(trimmed) {
        out := out + [Upper(trimmed)];
      }
    }
    assert words[..|words|] == words;
  }

  // ---------------------------------------------------------------- the index of stored identifiers

  type ByKey = Entries<seq<StoredIdentifier>>

  /** The identifiers of one matter that have a match key, with it. */
  function KeyedIn(matterId: string, identifiers: seq<Identifier>): seq<(string, StoredIdentifier)> {
    if identifiers == [] then []
    else
      var last := identifiers[|identifiers| - 1];
      KeyedIn(matterId, identifiers[..|identifiers| - 1])
      + if KeyOf(last).Some? then [(KeyOf(last).value, StoredIdentifier(last.raw, matterId, last.kind))] else []
  }

  function Keyed(matters: seq<Matter>): seq<(string, StoredIdentifier)> {
    if matters == [] then []
    else Keyed(matters[..|matters| - 1]) + KeyedIn(matters[|matters| - 1].id, matters[|matters| - 1].identifiers)
  }

  function Under(keyed: seq<(string, StoredIdentifier)>, key: string): seq<StoredIdentifier> {
    if keyed == [] then []
    else
      var last := keyed[|keyed| - 1];
      Under(keyed[..|keyed| - 1], key) + if last.0 == key then [last.1] else []
  }

  ghost predicate Indexes(index: ByKey, keyed: seq<(string, StoredIdentifier)>) {
    Ordered(index) && forall key :: Lookup(index, key) == NonEmpty(Under(keyed, key))
  }

  lemma IndexesNext(index: ByKey, keyed: seq<(string, StoredIdentifier)>, key: string, t: StoredIdentifier)
    requires Indexes(index, keyed)
    ensures Indexes(Append(index, key, t), keyed + [(key, t)])
  {
    var all := keyed + [(key, t)];
    assert all[..|keyed|] == keyed;
    AppendLookup(index, key, t);
    forall k ensures Lookup(Append(index, key, t), k) == NonEmpty(Under(all, k)) {
      assert Lookup(index, k) == NonEmpty(Under(keyed, k));
      assert Under(all, k) == Under(keyed, k) + if key == k then [t] else [];
      assert k != key ==> Under(all, k) == Under(keyed, k);
    }
  }

  lemma KeyedInNext(matterId: string, identifiers: seq<Identifier>, k: nat)
    requires k < |identifiers|
    ensures KeyedIn(matterId, identifiers[..k + 1]) == KeyedIn(matterId, identifiers[..k])
      + if KeyOf(identifiers[k]).Some? then [(KeyOf(identifiers[k]).value, StoredIdentifier(identifiers[k].raw, matterId, identifiers[k].kind))] else []
  {
    assert identifiers[..k + 1][..k] == identifiers[..k];
  }

  method IndexMatter(matter: Matter, index: ByKey, ghost before: seq<(string, StoredIdentifier)>) returns (index': ByKey)
    requires Indexes(index, before)
    ensures Indexes(index', before + KeyedIn(matter.id, matter.identifiers))
  {
    index' := index;
    assert before + KeyedIn(matter.id, matter.identifiers[..0]) == before;
    for k := 0 to |matter.identifiers|
      invariant Indexes(index', before + KeyedIn(matter.id, matter.identifiers[..k]))
    {
      var identifier := matter.identifiers[k];
      ghost var sofar := before + KeyedIn(matter.id, matter.identifiers[..k]);
      KeyedInNext(matter.id, matter.identifiers, k);
      var key := KeyOf(identifier);
      if key.Some? {
        var t := StoredIdentifier(identifier.raw, matter.id, identifier.kind);
        IndexesNext(index', sofar, key.value, t);
        assert before + KeyedIn(matter.id, matter.identifiers[..k + 1]) == sofar + [(key.value, t)];
        index' := Append(index', key.value, t);
      } else {
        assert before + KeyedIn(matter.id, matter.identifiers[..k + 1]) == sofar;
      }
    }
    assert matter.identifiers[..|matter.identifiers|] == matter.identifiers;
  }

  method IndexIdentifiers(matters: seq<Matter>) returns (index: ByKey)
    ensures Indexes(index, Keyed(matters))
  {
    index := [];
    for n := 0 to |matters|
      invariant Indexes(index, Keyed(matters[..n]))
    {
      assert matters[..n + 1][..n] == matters[..n];
      index := IndexMatter(matters[n], index, Keyed(matters[..n]));
    }
    assert matters[..|matters|] == matters;
  }

  // ---------------------------------------------------------------- near misses

  /** The test of the code: the same number of bytes, and the same text before the last character of `key`. */
  predicate IsNear(key: string, other: string) {
    key != "" && ByteLength(other) == ByteLength(key) && key[..|key| - 1] <= other && other != key
  }

  predicate IsNearEntry(key: string, entry: (string, seq<StoredIdentifier>)) {
    IsNear(key, entry.0) && entry.1 != []
  }

  function LastWhere<T>(s: seq<T>, p: T -> bool, n: nat): (last: Option<T>)
    requires n <= |s|
    ensures last.Some? ==> p(last.value)
  {
    if n == 0 then None else if p(s[n - 1]) then Some(s[n - 1]) else LastWhere(s, p, n - 1)
  }

  function NearestBefore(key: string, index: ByKey, n: nat): Option<StoredIdentifier>
    requires n <= |index|
  {
    match LastWhere(index, entry => IsNearEntry(key, entry), n)
    case None => None
    case Some(entry) => Some(entry.1[0])
  }

  /** The first identifier under the last key that is near. */
  function NearMissTarget(key: string, index: ByKey): Option<StoredIdentifier> {
    if ByteLength(key) < 3 then None else NearestBefore(key, index, |index|)
  }

  method FindNearMiss(key: string, index: ByKey) returns (best: Option<StoredIdentifier>)
    ensures best == NearMissTarget(key, index)
  {
    if ByteLength(key) < 3 {
      return None;
    }
    best := None;
    for n := 0 to |index|
      invariant best == NearestBefore(key, index, n)
    {
      var (candidateKey, targets) := index[n];
      if IsNear(key, candidateKey) && targets != [] {
        best := Some(targets[0]);
      }
    }
  }

  // ---------------------------------------------------------------- findings

  /** What a candidate in a record's field turns out to be. */
  datatype Finding =
    | Match(record: RecordReference, quote: string, target: StoredIdentifier)
    | NearMiss(record: RecordReference, quote: string, target: StoredIdentifier)

  predicate Linkable(archive: Archive, record: RecordReference, candidate: string, t: StoredIdentifier) {
    && !(t.matterId == record.matterId && EqIgnoreCase(t.raw, candidate))
    && MatterResolves(archive, t.matterId)
  }

  function Matches(archive: Archive, record: RecordReference, candidate: string, targets: seq<StoredIdentifier>): seq<Finding> {
    if targets == [] then []
    else
      var last := targets[|targets| - 1];
      Matches(archive, record, candidate, targets[..|targets| - 1])
      + if Linkable(archive, record, candidate, last) then [Match(record, candidate, last)] else []
  }

  function Targets(index: ByKey, key: string): seq<StoredIdentifier> {
    if Lookup(index, key).None? then [] else Lookup(index, key).value
  }

  function NearMisses(index: ByKey, record: RecordReference, candidate: string, key: string): seq<Finding> {
    var near := NearMissTarget(key, index);
    if near.None? then [] else [NearMiss(record, candidate, near.value)]
  }

  function FindingsOf(archive: Archive, index: ByKey, record: RecordReference, candidate: string): seq<Finding> {
    var key := MatchKey(candidate);
    if key.None? then []
    else
      var matches := Matches(archive, record, candidate, Targets(index, key.value));
      if matches != [] then matches else NearMisses(index, record, candidate, key.value)
  }

  function FindingsIn(archive: Archive, index: ByKey, record: RecordReference, candidates: seq<string>): seq<Finding> {
    if candidates == [] then []
    else
      FindingsIn(archive, index, record, candidates[..|candidates| - 1])
      + FindingsOf(archive, index, record, candidates[|candidates| - 1])
  }

  function RecordFindings(archive: Archive, index: ByKey, record: RecordReference): seq<Finding> {
    if Admitted(archive, record) then FindingsIn(archive, index, record, Tokens(record.referenceText)) else []
  }

  function AllFindings(archive: Archive, index: ByKey, records: seq<RecordReference>): seq<Finding> {
    if records == [] then []
    else AllFindings(archive, index, records[..|records| - 1]) + RecordFindings(archive, index, records[|records| - 1])
  }

  // ---------------------------------------------------------------- what findings do to the store

  /** How findings become table rows. */
  datatype Rows = Rows(linkOf: Finding -> Link, itemOf: Finding -> Item)

  datatype Tables = Tables(links: map<string, Link>, items: map<string, Item>)

  datatype Outcome = Outcome(links: seq<Link>, candidates: seq<Item>)

  datatype State = State(tables: Tables, outcome: Outcome)

  function InsertLink(s: State, link: Link): State {
    if link.id in s.tables.links then s
    else State(s.tables.(links := s.tables.links[link.id := link]), s.outcome.(links := s.outcome.links + [link]))
  }

  function InsertItem(s: State, item: Item): State {
    if item.id in s.tables.items then s
    else State(s.tables.(items := s.tables.items[item.id := item]), s.outcome.(candidates := s.outcome.candidates + [item]))
  }

  function Apply(rows: Rows, s: State, f: Finding): State {
    if f.Match? then InsertLink(s, rows.linkOf(f)) else InsertItem(s, rows.itemOf(f))
  }

  function ApplyAll(rows: Rows, s: State, findings: seq<Finding>): State {
    if findings == [] then s
    else Apply(rows, ApplyAll(rows, s, findings[..|findings| - 1]), findings[|findings| - 1])
  }

  lemma {:induction false} ApplyConcat(rows: Rows, s: State, a: seq<Finding>, b: seq<Finding>)
    ensures ApplyAll(rows, s, a + b) == ApplyAll(rows, ApplyAll(rows, s, a), b)
  {
    if b == [] {
      assert a + b == a;
    } else {
      var front, last := b[..|b| - 1], b[|b| - 1];
      assert (a + b)[..|a + b| - 1] == a + front;
      assert (a + b)[|a + b| - 1] == last;
      ApplyConcat(rows, s, a, front);
    }
  }

  lemma ApplyOne(rows: Rows, s: State, f: Finding)
    ensures ApplyAll(rows, s, [f]) == Apply(rows, s, f)
  {
    assert [f][..0] == [];
  }

  class Store {
    var tables: Tables

    constructor ()
      ensures tables == Tables(map[], map[])
    {
      tables := Tables(map[], map[]);
    }

    method InsertOfficialRelationship(link: Link) returns (inserted: bool)
      modifies this
      ensures inserted <==> link.id !in old(tables).links
      ensures tables == if inserted then old(tables).(links := old(tables).links[link.id := link]) else old(tables)
    {
      inserted := link.id !in tables.links;
      if inserted {
        tables := tables.(links := tables.links[link.id := link]);
      }
    }

    method InsertReconciliationItem(item: Item) returns (inserted: bool)
      modifies this
      ensures inserted <==> item.id !in old(tables).items
      ensures tables == if inserted then old(tables).(items := old(tables).items[item.id := item]) else old(tables)
    {
      inserted := item.id !in tables.items;
      if inserted {
        tables := tables.(items := tables.items[item.id := item]);
      }
    }

    method StoreFinding(rows: Rows, f: Finding, outcome: Outcome) returns (outcome': Outcome)
      modifies this
      ensures State(tables, outcome') == Apply(rows, State(old(tables), outcome), f)
    {
      outcome' := outcome;
      if f.Match? {
        var link := rows.linkOf(f);
        var inserted := InsertOfficialRelationship(link);
        if inserted {
          outcome' := outcome.(links := outcome.links + [link]);
        }
      } else {
        var item := rows.itemOf(f);
        var inserted := InsertReconciliationItem(item);
        if inserted {
          outcome' := outcome.(candidates := outcome.candidates + [item]);
        }
      }
    }

    /** The loop over the stored identifiers with the candidate's key. */
    method LinkTargets(archive: Archive, rows: Rows, record: RecordReference, candidate: string, targets: seq<StoredIdentifier>, outcome: Outcome)
      returns (outcome': Outcome, matched: bool)
      modifies this
      ensures State(tables, outcome') == ApplyAll(rows, State(old(tables), outcome), Matches(archive, record, candidate, targets))
      ensures matched <==> Matches(archive, record, candidate, targets) != []
    {
      outcome', matched := outcome, false;
      for n := 0 to |targets|
        invariant State(tables, outcome') ==
          ApplyAll(rows, State(old(tables), outcome), Matches(archive, record, candidate, targets[..n]))
        invariant matched <==> Matches(archive, record, candidate, targets[..n]) != []
      {
        var target := targets[n];
        MatchesNext(archive, record, candidate, targets, n);
        if target.matterId == record.matterId && EqIgnoreCase(target.raw, candidate) {
          continue;
        }
        var resolves := MatterResolvesToValidSnapshot(archive, target.matterId);
        if !resolves {
          continue;
        }
        ApplyNext(rows, State(old(tables), outcome), Matches(archive, record, candidate, targets[..n]), Match(record, candidate, target));
        outcome' := StoreFinding(rows, Match(record, candidate, target), outcome');
        matched := true;
      }
      assert targets[..|targets|] == targets;
    }

    method ScanCandidate(archive: Archive, index: ByKey, rows: Rows, record: RecordReference, candidate: string, outcome: Outcome)
      returns (outcome': Outcome)
      modifies this
      ensures State(tables, outcome') == ApplyAll(rows, State(old(tables), outcome), FindingsOf(archive, index, record, candidate))
    {
      var key := MatchKey(candidate);
      if key.None? {
        return outcome;
      }
      var stored := Lookup(index, key.value);
      var matched := false;
      outcome' := outcome;
      if stored.Some? {
        outcome', matched := LinkTargets(archive, rows, record, candidate, stored.value, outcome);
      }
      if matched {
        return;
      }
      var near := FindNearMiss(key.value, index);
      if near.Some? {
        ApplyOne(rows, State(tables, outcome'), NearMiss(record, candidate, near.value));
        outcome' := StoreFinding(rows, NearMiss(record, candidate, near.value), outcome');
      }
    }

    method ScanRecord(archive: Archive, index: ByKey, rows: Rows, record: RecordReference, outcome: Outcome)
      returns (outcome': Outcome)
      modifies this
      ensures State(tables, outcome') == ApplyAll(rows, State(old(tables), outcome), RecordFindings(archive, index, record))
    {
      outcome' := outcome;
      if !Declared(record) {
        return;
      }
      if record.snapshotId !in archive.snapshots {
        return;
      }
      if !IsValidSha256(record.snapshotDigest) || archive.snapshots[record.snapshotId] != record.snapshotDigest {
        return;
      }
      var candidates := TokenizeIdentifiers(record.referenceText);
      for n := 0 to |candidates|
        invariant State(tables, outcome') ==
          ApplyAll(rows, State(old(tables), outcome), FindingsIn(archive, index, record, candidates[..n]))
      {
        FindingsInNext(archive, index, rows, State(old(tables), outcome), record, candidates, n);
        outcome' := ScanCandidate(archive, index, rows, record, candidates[n], outcome');
      }
      assert candidates[..|candidates|] == candidates;
    }

    method DetectOfficialRelationships(archive: Archive, rows: Rows, records: seq<RecordReference>)
      returns (outcome: Outcome, ghost index: ByKey)
      modifies this
      ensures Indexes(index, Keyed(archive.matters))
      ensures State(tables, outcome) ==
        ApplyAll(rows, State(old(tables), Outcome([], [])), AllFindings(archive, index, records))
    {
      var identifiersByKey := IndexIdentifiers(archive.matters);
      index := identifiersByKey;
      outcome := Outcome([], []);
      ghost var start := State(tables, outcome);
      for n := 0 to |records|
        invariant State(tables, outcome) == ApplyAll(rows, start, AllFindings(archive, index, records[..n]))
      {
        AllFindingsNext(archive, index, rows, start, records, n);
        outcome := ScanRecord(archive, identifiersByKey, rows, records[n], outcome);
      }
      assert records[..|records|] == records;
    }
  }

  lemma MatchesNext(archive: Archive, record: RecordReference, candidate: string, targets: seq<StoredIdentifier>, n: nat)
    requires n < |targets|
    ensures Linkable(archive, record, candidate, targets[n]) ==>
      Matches(archive, record, candidate, targets[..n + 1]) ==
      Matches(archive, record, candidate, targets[..n]) + [Match(record, candidate, targets[n])]
    ensures !Linkable(archive, record, candidate, targets[n]) ==>
      Matches(archive, record, candidate, targets[..n + 1]) == Matches(archive, record, candidate, targets[..n])
  {
    assert targets[..n + 1][..n] == targets[..n];
  }

  lemma ApplyNext(rows: Rows, s: State, findings: seq<Finding>, f: Finding)
    ensures ApplyAll(rows, s, findings + [f]) == Apply(rows, ApplyAll(rows, s, findings), f)
  {
    assert (findings + [f])[..|findings|] == findings;
  }

  lemma FindingsInNext(archive: Archive, index: ByKey, rows: Rows, s: State, record: RecordReference, candidates: seq<string>, n: nat)
    requires n < |candidates|
    ensures ApplyAll(rows, s, FindingsIn(archive, index, record, candidates[..n + 1])) ==
      ApplyAll(rows, ApplyAll(rows, s, FindingsIn(archive, index, record, candidates[..n])), FindingsOf(archive, index, record, candidates[n]))
  {
    assert candidates[..n + 1][..n] == candidates[..n];
    ApplyConcat(rows, s, FindingsIn(archive, index, record, candidates[..n]), FindingsOf(archive, index, record, candidates[n]));
  }

  lemma AllFindingsNext(archive: Archive, index: ByKey, rows: Rows, s: State, records: seq<RecordReference>, n: nat)
    requires n < |records|
    ensures ApplyAll(rows, s, AllFindings(archive, index, records[..n + 1])) ==
      ApplyAll(rows, ApplyAll(rows, s, AllFindings(archive, index, records[..n])), RecordFindings(archive, index, records[n]))
  {
    assert records[..n + 1][..n] == records[..n];
    ApplyConcat(rows, s, AllFindings(archive, index, records[..n]), RecordFindings(archive, index, records[n]));
  }
}
