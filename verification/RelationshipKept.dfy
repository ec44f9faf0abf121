/** Which link is kept under an id, references of a matter to itself, and what a second pass does. */
module RelationshipKept {
  import opened Wrappers
  import opened Text
  import opened Hashing
  import opened Sorting
  import opened OrderedMap
  import opened Identifiers
  import opened Relationships
  import opened RelationshipLaws

  // ---------------------------------------------------------------- the link that is kept

  /** The link of the first match with this id. */
  function FirstWith(rows: Rows, findings: seq<Finding>, id: string): Option<Link> {
    if findings == [] then None
    else
      var earlier, last := FirstWith(rows, findings[..|findings| - 1], id), findings[|findings| - 1];
      if earlier.None? && last.Match? && rows.linkOf(last).id == id then Some(rows.linkOf(last)) else earlier
  }

  function LinkUnder(t: Tables, id: string): Option<Link> {
    if id in t.links then Some(t.links[id]) else None
  }

  /** Under each id stands the link that was there, and otherwise that of the first match with the id. */
  lemma {:induction false} FirstIsKept(rows: Rows, s: State, findings: seq<Finding>, id: string)
    ensures LinkUnder(ApplyAll(rows, s, findings).tables, id) ==
      if id in s.tables.links then Some(s.tables.links[id]) else FirstWith(rows, findings, id)
  {
    if findings != [] {
      FirstIsKept(rows, s, findings[..|findings| - 1], id);
    }
  }

  /** Every exact match leaves a link under its id: the one that was there, and otherwise that of the first match with the id. */
  lemma MatchesAreLinked(sha256: string -> string, archive: Archive, index: ByKey, records: seq<RecordReference>, s: State,
                         record: RecordReference, q: string, t: StoredIdentifier)
    requires Indexes(index, Keyed(archive.matters)) && IsExactMatch(archive, records, record, q, t)
    ensures var findings, id := AllFindings(archive, index, records), LinkOf(sha256, Match(record, q, t)).id;
      var link := LinkUnder(ApplyAll(RowsOf(sha256), s, findings).tables, id);
      link.Some? && link == if id in s.tables.links then Some(s.tables.links[id]) else FirstWith(RowsOf(sha256), findings, id)
  {
    var rows, findings := RowsOf(sha256), AllFindings(archive, index, records);
    MatchesExactly(archive, index, records, record, q, t);
    FirstIsKept(rows, s, findings, LinkOf(sha256, Match(record, q, t)).id);
    MatchIsFirstOrLater(rows, findings, Match(record, q, t));
  }

  lemma {:induction false} MatchIsFirstOrLater(rows: Rows, findings: seq<Finding>, f: Finding)
    requires f.Match? && f in findings
    ensures FirstWith(rows, findings, rows.linkOf(f).id).Some?
  {
    var front, last := findings[..|findings| - 1], findings[|findings| - 1];
    if f != last {
      assert findings == front + [last];
      MatchIsFirstOrLater(rows, front, f);
    }
  }

  /** The two matches refer from the same field of the same record and snapshot to the same raw identifier. */
  predicate SameReference(f: Finding, g: Finding) {
    && f.record.sourceRecordId == g.record.sourceRecordId && f.record.referenceField == g.record.referenceField
    && f.target.raw == g.target.raw && f.record.snapshotId == g.record.snapshotId
  }

  function FirstReference(findings: seq<Finding>, f: Finding): Option<Finding> {
    if findings == [] then None
    else
      var earlier, last := FirstReference(findings[..|findings| - 1], f), findings[|findings| - 1];
      if earlier.None? && last.Match? && SameReference(last, f) then Some(last) else earlier
  }

  ghost predicate AllLinkNulFree(findings: seq<Finding>) {
    forall n :: 0 <= n < |findings| ==> LinkNulFree(findings[n])
  }

  lemma {:induction false} FirstWithIsFirstReference(sha256: string -> string, findings: seq<Finding>, f: Finding)
    requires CollisionFree(sha256) && AllLinkNulFree(findings) && LinkNulFree(f)
    ensures var first := FirstReference(findings, f);
      FirstWith(RowsOf(sha256), findings, LinkOf(sha256, f).id) == if first.None? then None else Some(LinkOf(sha256, first.value))
  {
    if findings != [] {
      FirstWithIsFirstReference(sha256, findings[..|findings| - 1], f);
      LinkIdExactly(sha256, findings[|findings| - 1], f);
    }
  }

  lemma {:induction false} FirstReferenceIsFound(findings: seq<Finding>, f: Finding)
    ensures FirstReference(findings, f).Some? ==>
      FirstReference(findings, f).value in findings && FirstReference(findings, f).value.Match?
      && SameReference(FirstReference(findings, f).value, f)
    ensures f.Match? && f in findings ==> FirstReference(findings, f).Some?
  {
    if findings != [] {
      var front, last := findings[..|findings| - 1], findings[|findings| - 1];
      FirstReferenceIsFound(front, f);
      assert findings == front + [last];
    }
  }

  /** A match keeps its own link if and only if the first match with its reference has the same quote and matter. */
  lemma LinkIsKeptExactly(sha256: string -> string, archive: Archive, index: ByKey, records: seq<RecordReference>, s: State, f: Finding)
    requires CollisionFree(sha256) && AllLinkNulFree(AllFindings(archive, index, records))
    requires f.Match? && f in AllFindings(archive, index, records)
    ensures var t := ApplyAll(RowsOf(sha256), s, AllFindings(archive, index, records)).tables;
      var link := LinkOf(sha256, f);
      && link.id in t.links
      && FirstReference(AllFindings(archive, index, records), f).Some?
      && (t.links[link.id] == link <==>
        if link.id in s.tables.links then s.tables.links[link.id] == link
        else
          var first := FirstReference(AllFindings(archive, index, records), f).value;
          first.quote == f.quote && first.target.matterId == f.target.matterId)
  {
    var findings := AllFindings(archive, index, records);
    assert LinkNulFree(f) by {
      var n :| 0 <= n < |findings| && findings[n] == f;
    }
    FirstIsKept(RowsOf(sha256), s, findings, LinkOf(sha256, f).id);
    FirstWithIsFirstReference(sha256, findings, f);
    FirstReferenceIsFound(findings, f);
    SameSnapshotSameDigest(archive, index, records, FirstReference(findings, f).value, f);
  }

  lemma SameSnapshotSameDigest(archive: Archive, index: ByKey, records: seq<RecordReference>, f: Finding, g: Finding)
    requires f in AllFindings(archive, index, records) && g in AllFindings(archive, index, records)
    requires f.record.snapshotId == g.record.snapshotId
    ensures f.record.snapshotDigest == g.record.snapshotDigest
  {
    FoundExactly(archive, index, records, f);
    FoundExactly(archive, index, records, g);
  }

  // ---------------------------------------------------------------- a reference of a matter to itself

  /** The stored identifier is one of the record's own matter, spelled differently from the quote. */
  ghost predicate OwnOtherSpelling(archive: Archive, record: RecordReference, q: string, key: string, t: StoredIdentifier) {
    StoredUnder(archive, key, t) && t.matterId == record.matterId && !EqIgnoreCase(t.raw, q)
  }

  /**
   * A record is linked to its own matter if and only if an identifier of that matter has the key of the
   * quote and differs from it in more than letter case.
   */
  lemma OwnMatterIsLinkedExactly(archive: Archive, records: seq<RecordReference>, record: RecordReference, q: string)
    requires record in records && Admitted(archive, record) && q in Tokens(record.referenceText)
    requires MatchKey(q).Some? && MatterResolves(archive, record.matterId)
    ensures (exists t: StoredIdentifier :: t.matterId == record.matterId && IsExactMatch(archive, records, record, q, t)) <==>
      exists t: StoredIdentifier :: OwnOtherSpelling(archive, record, q, MatchKey(q).value, t)
  {
    if exists t: StoredIdentifier :: OwnOtherSpelling(archive, record, q, MatchKey(q).value, t) {
      var t: StoredIdentifier :| OwnOtherSpelling(archive, record, q, MatchKey(q).value, t);
      assert IsExactMatch(archive, records, record, q, t);
    }
    if exists t: StoredIdentifier :: t.matterId == record.matterId && IsExactMatch(archive, records, record, q, t) {
      var t: StoredIdentifier :| t.matterId == record.matterId && IsExactMatch(archive, records, record, q, t);
      assert OwnOtherSpelling(archive, record, q, MatchKey(q).value, t);
    }
  }

  // ---------------------------------------------------------------- a second pass

  /** What the index is does not matter: the identifiers determine it. */
  lemma IndexIsDetermined(a: ByKey, b: ByKey, keyed: seq<(string, StoredIdentifier)>)
    requires Indexes(a, keyed) && Indexes(b, keyed)
    ensures a == b
  {
    forall key ensures Lookup(a, key) == Lookup(b, key) {
      assert Lookup(a, key) == NonEmpty(Under(keyed, key));
    }
    Extensional(a, b);
  }

  /** Detecting again, with an index built anew, reports nothing and leaves the tables as they are. */
  lemma SecondDetectionIsSilent(rows: Rows, archive: Archive, index: ByKey, index': ByKey, records: seq<RecordReference>, s: State)
    requires Indexes(index, Keyed(archive.matters)) && Indexes(index', Keyed(archive.matters))
    ensures var t := ApplyAll(rows, s, AllFindings(archive, index, records)).tables;
      ApplyAll(rows, State(t, Outcome([], [])), AllFindings(archive, index', records)) == State(t, Outcome([], []))
  {
    IndexIsDetermined(index, index', Keyed(archive.matters));
    SecondPassIsSilent(rows, s, AllFindings(archive, index, records));
  }

  // ---------------------------------------------------------------- two archives

  const AWARDS := "colorado-springs-contract-awards"

  function SomeDigest(): string {
    seq(64, i => '0')
  }

  function Reference(matterId: string, text: string): RecordReference {
    RecordReference(AWARDS, "r", matterId, "s", SomeDigest(), "notes", text)
  }

  function OneIdentifier(id: string): Matter {
    Matter(id, [Identifier("AB1", None, "k")], [["s"]])
  }

  lemma MattersResolve(archive: Archive, m: Matter)
    requires archive.snapshots == map["s" := SomeDigest()] && m in archive.matters && m.events == [["s"]]
    ensures MatterResolves(archive, m.id)
  {
    assert All(SomeDigest(), IsHexDigit);
    assert "s" in ["s"] && HasValidEvidence(archive, ["s"]);
    assert ["s"] in m.events;
    assert Resolves(archive, m);
  }

  lemma ReferenceIsAdmitted(archive: Archive, matterId: string, text: string)
    requires archive.snapshots == map["s" := SomeDigest()]
    ensures Admitted(archive, Reference(matterId, text))
  {
    assert All(SomeDigest(), IsHexDigit);
    assert "notes" in ["notes"];
  }

  /** A word that begins and ends with an ASCII letter or digit, and is in upper case, is its own only token. */
  lemma TokensOfWord(s: string)
    requires IsWord(s) && Strip(s) == s && Upper(s) == s && IsCandidate(s)
    ensures Tokens(s) == [s]
  {
    WordsOfWord(s);
    TokensNext([s], 0);
    assert [s][..0] == [] && [s][..1] == [s];
  }

  lemma KeyOfPlain()
    ensures MatchKey("AB1") == Some("AB1") && Tokens("AB1") == ["AB1"]
  {
    var s := "AB1";
    assert TrimEnd(TrimStart(s)) == s;
    FilterKeepsAll(s, IsAlphanumeric);
    assert Upper(s) == s;
    assert Strip(s) == s;
    TokensOfWord(s);
  }

  lemma KeyOfHyphened()
    ensures MatchKey("AB-1") == Some("AB1") && Tokens("AB-1") == ["AB-1"]
  {
    var s := "AB-1";
    assert TrimEnd(TrimStart(s)) == s;
    FilterHyphen();
    assert Upper("AB1") == "AB1" && Upper(s) == s;
    assert Strip(s) == s;
    TokensOfWord(s);
  }

  lemma FilterHyphen()
    ensures Filter("AB-1", IsAlphanumeric) == "AB1"
  {
    assert "AB-1"[1..] == "B-1" && "B-1"[1..] == "-1" && "-1"[1..] == "1" && "1"[1..] == "";
    assert Filter("1", IsAlphanumeric) == "1";
    assert Filter("-1", IsAlphanumeric) == "1";
    assert Filter("B-1", IsAlphanumeric) == "B1";
  }

  /** A record that cites "AB-1" is linked to its own matter, whose identifier is stored as "AB1". */
  lemma OwnMatterIsLinked(archive: Archive, record: RecordReference, t: StoredIdentifier)
    requires archive == Archive([OneIdentifier("m")], map["s" := SomeDigest()])
    requires record == Reference("m", "AB-1") && t == StoredIdentifier("AB1", "m", "k")
    ensures IsExactMatch(archive, [record], record, "AB-1", t) && t.matterId == record.matterId
  {
    KeyOfPlain();
    KeyOfHyphened();
    ReferenceIsAdmitted(archive, "m", "AB-1");
    MattersResolve(archive, OneIdentifier("m"));
    assert IsStoredAs(OneIdentifier("m"), Identifier("AB1", None, "k"), "AB1", t);
    assert |Lower("AB-1")| != |Lower("AB1")|;
  }

  lemma UnderTwo(key: string, a: StoredIdentifier, b: StoredIdentifier)
    ensures Under([(key, a), (key, b)], key) == [a, b]
  {
    var one, two := [(key, a)], [(key, a), (key, b)];
    assert two[..1] == one && one[..0] == [];
    assert Under(one, key) == [] + [a] == [a];
    assert [a] + [b] == [a, b];
  }

  lemma KeyedTwo(a: Matter, b: Matter)
    ensures Keyed([a, b]) == KeyedIn(a.id, a.identifiers) + KeyedIn(b.id, b.identifiers)
  {
    assert [a, b][..1] == [a] && [a][..0] == [];
    assert Keyed([]) == [];
    assert Keyed([a]) == KeyedIn(a.id, a.identifiers);
  }

  lemma BothAreStored(archive: Archive)
    requires archive == Archive([OneIdentifier("m1"), OneIdentifier("m2")], map["s" := SomeDigest()])
    ensures Under(Keyed(archive.matters), "AB1") == [StoredIdentifier("AB1", "m1", "k"), StoredIdentifier("AB1", "m2", "k")]
  {
    KeyOfPlain();
    var x, y := StoredIdentifier("AB1", "m1", "k"), StoredIdentifier("AB1", "m2", "k");
    KeyedInOne("m1");
    KeyedInOne("m2");
    KeyedTwo(OneIdentifier("m1"), OneIdentifier("m2"));
    assert Keyed(archive.matters) == [("AB1", x), ("AB1", y)];
    UnderTwo("AB1", x, y);
  }

  lemma KeyedInOne(id: string)
    requires MatchKey("AB1") == Some("AB1")
    ensures KeyedIn(id, OneIdentifier(id).identifiers) == [("AB1", StoredIdentifier("AB1", id, "k"))]
  {
    assert OneIdentifier(id).identifiers[..0] == [];
    assert KeyedIn(id, []) == [];
  }

  /** Two matters store "AB1"; a record of a third cites it. Both are matched, and only the first link is stored. */
  lemma SecondMatterIsDropped(sha256: string -> string, archive: Archive, index: ByKey, record: RecordReference, f: Finding, g: Finding)
    requires archive == Archive([OneIdentifier("m1"), OneIdentifier("m2")], map["s" := SomeDigest()])
    requires Indexes(index, Keyed(archive.matters)) && record == Reference("m0", "AB1")
    requires f == Match(record, "AB1", StoredIdentifier("AB1", "m1", "k")) && g == Match(record, "AB1", StoredIdentifier("AB1", "m2", "k"))
    ensures AllFindings(archive, index, [record]) == [f, g]
    ensures var t := ApplyAll(RowsOf(sha256), State(Tables(map[], map[]), Outcome([], [])), AllFindings(archive, index, [record])).tables;
      t.links == map[LinkOf(sha256, f).id := LinkOf(sha256, f)] && LinkOf(sha256, g) != LinkOf(sha256, f)
  {
    FindingsOfBoth(archive, index, record, f, g);
    var s := State(Tables(map[], map[]), Outcome([], []));
    SecondMatterIsShadowed(sha256, s, f, g);
  }

  lemma MatchesTwo(archive: Archive, record: RecordReference, q: string, a: StoredIdentifier, b: StoredIdentifier)
    requires Linkable(archive, record, q, a) && Linkable(archive, record, q, b)
    ensures Matches(archive, record, q, [a, b]) == [Match(record, q, a), Match(record, q, b)]
  {
    assert [a, b][..1] == [a] && [a][..0] == [];
    assert Matches(archive, record, q, []) == [];
    assert Matches(archive, record, q, [a]) == [Match(record, q, a)];
  }

  lemma OneRecordOneCandidate(archive: Archive, index: ByKey, record: RecordReference, q: string)
    requires Admitted(archive, record) && Tokens(record.referenceText) == [q]
    ensures AllFindings(archive, index, [record]) == FindingsOf(archive, index, record, q)
  {
    assert [q][..0] == [] && [record][..0] == [];
    assert FindingsIn(archive, index, record, []) == [];
    assert FindingsIn(archive, index, record, [q]) == FindingsOf(archive, index, record, q);
    assert AllFindings(archive, index, []) == [];
  }

  lemma FindingsOfBoth(archive: Archive, index: ByKey, record: RecordReference, f: Finding, g: Finding)
    requires archive == Archive([OneIdentifier("m1"), OneIdentifier("m2")], map["s" := SomeDigest()])
    requires Indexes(index, Keyed(archive.matters)) && record == Reference("m0", "AB1")
    requires f == Match(record, "AB1", StoredIdentifier("AB1", "m1", "k")) && g == Match(record, "AB1", StoredIdentifier("AB1", "m2", "k"))
    ensures AllFindings(archive, index, [record]) == [f, g]
  {
    KeyOfPlain();
    BothAreStored(archive);
    assert Lookup(index, "AB1") == NonEmpty(Under(Keyed(archive.matters), "AB1"));
    ReferenceIsAdmitted(archive, "m0", "AB1");
    MattersResolve(archive, OneIdentifier("m1"));
    MattersResolve(archive, OneIdentifier("m2"));
    assert "m0"[1] != "m1"[1] && "m0"[1] != "m2"[1];
    MatchesTwo(archive, record, "AB1", f.target, g.target);
    OneRecordOneCandidate(archive, index, record, "AB1");
  }
}
