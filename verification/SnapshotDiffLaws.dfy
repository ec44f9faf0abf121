/** What the record-level diff reports: silence, order, direction, conservation, and a least number of edits. */
module SnapshotDiffLaws {
  import opened Wrappers
  import opened Integers
  import opened Sorting
  import opened SnapshotDiff
  import opened Utf8
  import RowDigest

  // ---------------------------------------------------------------- multisets

  lemma SizeOfPart(a: multiset<string>, b: multiset<string>)
    requires a <= b
    ensures |a| <= |b|
    ensures |a| == |b| ==> a == b
  {
    assert b == a + (b - a);
  }

  lemma NothingLeft(a: multiset<string>, b: multiset<string>)
    ensures |a - b| == 0 && |b - a| == 0 <==> a == b
  {
    assert a == b ==> a - b == multiset{} && b - a == multiset{};
    if |a - b| == 0 && |b - a| == 0 {
      SizeOfPart(multiset{}, a - b);
      SizeOfPart(multiset{}, b - a);
      forall v ensures a[v] == b[v] {
        assert (a - b)[v] == 0 && (b - a)[v] == 0;
      }
    }
  }

  // ---------------------------------------------------------------- silence

  type RowPair = (string, string)

  function PairsOf(rows: seq<RecordRow>): seq<RowPair> {
    if rows == [] then [] else PairsOf(rows[..|rows| - 1]) + [(rows[|rows| - 1].key, rows[|rows| - 1].canonical)]
  }

  lemma {:induction false} CountAt(rows: seq<RecordRow>, key: string, value: string)
    ensures At(rows, key)[value] == multiset(PairsOf(rows))[(key, value)]
  {
    if rows != [] {
      CountAt(rows[..|rows| - 1], key, value);
    }
  }

  ghost predicate SameByKey(a: seq<RecordRow>, b: seq<RecordRow>) {
    forall key :: At(a, key) == At(b, key)
  }

  lemma SamePairsAreSameByKey(a: seq<RecordRow>, b: seq<RecordRow>)
    requires multiset(PairsOf(a)) == multiset(PairsOf(b))
    ensures SameByKey(a, b)
  {
    forall key ensures At(a, key) == At(b, key) {
      forall value: string ensures At(a, key)[value] == At(b, key)[value] {
        CountAt(a, key, value);
        CountAt(b, key, value);
      }
    }
  }

  lemma SameByKeyAreSamePairs(a: seq<RecordRow>, b: seq<RecordRow>)
    requires SameByKey(a, b)
    ensures multiset(PairsOf(a)) == multiset(PairsOf(b))
  {
    forall p: RowPair ensures multiset(PairsOf(a))[p] == multiset(PairsOf(b))[p] {
      CountAt(a, p.0, p.1);
      CountAt(b, p.0, p.1);
      assert At(a, p.0) == At(b, p.0) && p == (p.0, p.1);
    }
  }

  lemma NothingDueExactly(before: multiset<string>, after: multiset<string>)
    ensures (forall kind :: Expected(before, after, kind) == 0) <==> before == after
  {
    NothingLeft(before, after);
    if forall kind :: Expected(before, after, kind) == 0 {
      assert Expected(before, after, Changed) == 0 && Expected(before, after, Removed) == 0 && Expected(before, after, Added) == 0;
    }
  }

  /** Nothing is reported exactly where both sides hold the same rows, equally often, in whatever order. */
  lemma SilentExactly(changes: seq<Change>, oldRows: seq<RecordRow>, newRows: seq<RecordRow>)
    requires IsDiff(changes, oldRows, newRows)
    ensures changes == [] <==> multiset(PairsOf(oldRows)) == multiset(PairsOf(newRows))
  {
    if changes == [] {
      forall key ensures At(oldRows, key) == At(newRows, key) {
        forall kind ensures Expected(At(oldRows, key), At(newRows, key), kind) == 0 {
          assert multiset(changes)[Change(key, kind)] == 0;
        }
        NothingDueExactly(At(oldRows, key), At(newRows, key));
      }
      SameByKeyAreSamePairs(oldRows, newRows);
    } else {
      var c := changes[0];
      assert multiset(changes)[c] > 0;
      NothingDueExactly(At(oldRows, c.key), At(newRows, c.key));
      if multiset(PairsOf(oldRows)) == multiset(PairsOf(newRows)) {
        SamePairsAreSameByKey(oldRows, newRows);
      }
    }
  }

  // ---------------------------------------------------------------- order and direction

  /** Permuting the rows of either side leaves the diff as it is. */
  lemma RowOrderIsIgnored(a: seq<Change>, b: seq<Change>, oldRows: seq<RecordRow>, newRows: seq<RecordRow>,
                          oldRows': seq<RecordRow>, newRows': seq<RecordRow>)
    requires IsDiff(a, oldRows, newRows) && IsDiff(b, oldRows', newRows')
    requires multiset(PairsOf(oldRows)) == multiset(PairsOf(oldRows')) && multiset(PairsOf(newRows)) == multiset(PairsOf(newRows'))
    ensures a == b
  {
    SamePairsAreSameByKey(oldRows, oldRows');
    SamePairsAreSameByKey(newRows, newRows');
    SameCounts(a, b, oldRows, newRows, oldRows', newRows');
    ChangeLeIsTotal();
    SortedIsUnique(a, b, ChangeLe);
  }

  lemma SameCounts(a: seq<Change>, b: seq<Change>, oldRows: seq<RecordRow>, newRows: seq<RecordRow>,
                   oldRows': seq<RecordRow>, newRows': seq<RecordRow>)
    requires IsDiff(a, oldRows, newRows) && IsDiff(b, oldRows', newRows')
    requires SameByKey(oldRows, oldRows') && SameByKey(newRows, newRows')
    ensures multiset(a) == multiset(b)
  {
    forall c: Change ensures multiset(a)[c] == multiset(b)[c] {
      var before, after := At(oldRows, c.key), At(newRows, c.key);
      assert before == At(oldRows', c.key) && after == At(newRows', c.key);
      assert multiset(a)[c] == Expected(before, after, c.kind);
      assert multiset(b)[c] == Expected(before, after, c.kind);
    }
  }

  function Opposite(kind: Kind): Kind {
    match kind
    case Added => Removed
    case Changed => Changed
    case Removed => Added
  }

  lemma OppositeCounts(kind: Kind, removed: nat, added: nat)
    ensures CountOf(kind, removed, added) == CountOf(Opposite(kind), added, removed)
  {
  }

  /** Comparing in the other direction exchanges additions and removals, and keeps changes. */
  lemma SwapExchangesKinds(forward: seq<Change>, backward: seq<Change>, oldRows: seq<RecordRow>, newRows: seq<RecordRow>, c: Change)
    requires IsDiff(forward, oldRows, newRows) && IsDiff(backward, newRows, oldRows)
    ensures multiset(forward)[c] == multiset(backward)[Change(c.key, Opposite(c.kind))]
  {
    var before, after := At(oldRows, c.key), At(newRows, c.key);
    assert multiset(forward)[c] == Expected(before, after, c.kind);
    assert multiset(backward)[Change(c.key, Opposite(c.kind))] == Expected(after, before, Opposite(c.kind));
    OppositeCounts(c.kind, |before - after|, |after - before|);
  }

  lemma SizesBalance(before: multiset<string>, after: multiset<string>)
    ensures |before| + |after - before| == |after| + |before - after|
  {
    assert before == (before * after) + (before - after);
    assert after == (before * after) + (after - before);
  }

  /** For each key, old rows less removals plus additions are the new rows. */
  lemma RowsAreConserved(changes: seq<Change>, oldRows: seq<RecordRow>, newRows: seq<RecordRow>, key: string)
    requires IsDiff(changes, oldRows, newRows)
    ensures |Canonicals(oldRows, key)| + multiset(changes)[Change(key, Added)]
      == |Canonicals(newRows, key)| + multiset(changes)[Change(key, Removed)]
    ensures multiset(changes)[Change(key, Added)] == 0 || multiset(changes)[Change(key, Removed)] == 0
  {
    var before, after := At(oldRows, key), At(newRows, key);
    SizesBalance(before, after);
    assert |before| == |Canonicals(oldRows, key)| && |after| == |Canonicals(newRows, key)|;
    assert multiset(changes)[Change(key, Added)] == Expected(before, after, Added);
    assert multiset(changes)[Change(key, Removed)] == Expected(before, after, Removed);
  }

  // ---------------------------------------------------------------- the least number of edits

  datatype Edit = Insert(value: string) | Delete(value: string) | Replace(value: string, next: string)

  function Edited(rows: multiset<string>, e: Edit): multiset<string> {
    match e
    case Insert(y) => rows + multiset{y}
    case Delete(x) => rows - multiset{x}
    case Replace(x, y) => rows - multiset{x} + multiset{y}
  }

  function EditedBy(rows: multiset<string>, edits: seq<Edit>): multiset<string>
    decreases |edits|
  {
    if edits == [] then rows else EditedBy(Edited(rows, edits[0]), edits[1..])
  }

  function Reported(before: multiset<string>, after: multiset<string>): nat {
    Expected(before, after, Added) + Expected(before, after, Changed) + Expected(before, after, Removed)
  }

  lemma ReportedIsLarger(before: multiset<string>, after: multiset<string>)
    ensures Reported(before, after) == if |before - after| <= |after - before| then |after - before| else |before - after|
  {
  }

  lemma OneMore(a: multiset<string>, b: multiset<string>, x: string)
    requires forall v :: a[v] <= b[v] + multiset{x}[v]
    ensures |a| <= |b| + 1
  {
    assert a <= b + multiset{x};
    SizeOfPart(a, b + multiset{x});
  }

  /** Inserting a value leaves at most one fewer unmatched value on either side. */
  lemma InsertGains(rows: multiset<string>, after: multiset<string>, y: string)
    ensures |rows - after| <= |(rows + multiset{y}) - after|
    ensures |after - rows| <= |after - (rows + multiset{y})| + 1
  {
    SizeOfPart(rows - after, (rows + multiset{y}) - after);
    OneMore(after - rows, after - (rows + multiset{y}), y);
  }

  /** So does deleting one. */
  lemma DeleteGains(rows: multiset<string>, after: multiset<string>, x: string)
    ensures |rows - after| <= |(rows - multiset{x}) - after| + 1
    ensures |after - rows| <= |after - (rows - multiset{x})|
  {
    OneMore(rows - after, (rows - multiset{x}) - after, x);
    SizeOfPart(after - rows, after - (rows - multiset{x}));
  }

  /** One edit removes at most one unmatched value on either side. */
  lemma EditGains(rows: multiset<string>, after: multiset<string>, e: Edit)
    ensures |rows - after| <= |Edited(rows, e) - after| + 1
    ensures |after - rows| <= |after - Edited(rows, e)| + 1
  {
    match e {
      case Insert(y) => InsertGains(rows, after, y);
      case Delete(x) => DeleteGains(rows, after, x);
      case Replace(x, y) =>
        DeleteGains(rows, after, x);
        InsertGains(rows - multiset{x}, after, y);
    }
  }

  /** No way of inserting, deleting and replacing rows needs fewer edits than the diff reports for a key. */
  lemma {:induction false} NoFewerEdits(before: multiset<string>, edits: seq<Edit>)
    ensures Reported(before, EditedBy(before, edits)) <= |edits|
    decreases |edits|
  {
    var after := EditedBy(before, edits);
    ReportedIsLarger(before, after);
    if edits == [] {
      NothingLeft(before, after);
    } else {
      var next := Edited(before, edits[0]);
      NoFewerEdits(next, edits[1..]);
      ReportedIsLarger(next, after);
      EditGains(before, after, edits[0]);
    }
  }

  lemma DeletingUnmatched(before: multiset<string>, after: multiset<string>, x: string)
    requires x in before - after
    ensures |(before - multiset{x}) - after| == |before - after| - 1
    ensures after - (before - multiset{x}) == after - before
  {
    assert (before - multiset{x}) - after == (before - after) - multiset{x};
  }

  lemma InsertingUnmatched(before: multiset<string>, after: multiset<string>, y: string)
    requires y in after - before
    ensures |after - (before + multiset{y})| == |after - before| - 1
    ensures (before + multiset{y}) - after == before - after
  {
    assert after - (before + multiset{y}) == (after - before) - multiset{y};
  }

  lemma EditCloses(before: multiset<string>, after: multiset<string>) returns (e: Edit)
    requires before != after
    ensures Reported(Edited(before, e), after) == Reported(before, after) - 1
  {
    ReportedIsLarger(before, after);
    NothingLeft(before, after);
    if |before - after| == 0 {
      var y :| y in after - before;
      InsertingUnmatched(before, after, y);
      e := Insert(y);
    } else {
      var x :| x in before - after;
      DeletingUnmatched(before, after, x);
      if |after - before| == 0 {
        e := Delete(x);
      } else {
        var y :| y in after - before;
        InsertingUnmatched(before - multiset{x}, after, y);
        e := Replace(x, y);
      }
    }
    ReportedIsLarger(Edited(before, e), after);
  }

  /** And that many edits are enough. */
  lemma {:induction false} ReportedEditsSuffice(before: multiset<string>, after: multiset<string>) returns (edits: seq<Edit>)
    ensures EditedBy(before, edits) == after && |edits| == Reported(before, after)
    decreases Reported(before, after)
  {
    if before == after {
      NothingLeft(before, after);
      ReportedIsLarger(before, after);
      edits := [];
    } else {
      var e := EditCloses(before, after);
      var rest := ReportedEditsSuffice(Edited(before, e), after);
      edits := [e] + rest;
      assert edits[1..] == rest;
    }
  }

  // ---------------------------------------------------------------- the diff and the digest

  /** A text as the digest can take it: its length in bytes fits in 64 bits, as that of any stored text does. */
  predicate Fits(s: string) {
    ByteLength(s) <= U64_MAX
  }

  predicate RowFits(row: RecordRow) {
    Fits(row.key) && Fits(row.canonical)
  }

  predicate AllFit(rows: seq<RecordRow>) {
    forall i :: 0 <= i < |rows| ==> RowFits(rows[i])
  }

  /** No text of fewer than 2^62 characters is too long. */
  lemma ShortTextsFit(s: string)
    requires 4 * |s| <= U64_MAX
    ensures Fits(s)
  {
    ByteLengthBounds(s);
  }

  function Bytes(s: string): RowDigest.Bytes {
    if Fits(s) then Encode(s) else []
  }

  lemma BytesAreInjective(s: string, t: string)
    requires Fits(s) && Fits(t) && Bytes(s) == Bytes(t)
    ensures s == t
  {
    EncodeIsInjective(s, t);
  }

  /** `to_snapshot_row`: the row as it is stored, with its texts in UTF-8. */
  function ToSnapshotRow(sha256: seq<byte> -> string, row: RecordRow): RowDigest.SnapshotRow {
    RowDigest.SnapshotRow(Bytes(row.key), Bytes(row.canonical), sha256(Bytes(row.canonical)), row.rawJson)
  }

  function StoredRows(sha256: seq<byte> -> string, rows: seq<RecordRow>): seq<RowDigest.SnapshotRow> {
    if rows == [] then []
    else StoredRows(sha256, rows[..|rows| - 1]) + [ToSnapshotRow(sha256, rows[|rows| - 1])]
  }

  function BytesOfPair(p: RowPair): RowDigest.Pair {
    (Bytes(p.0), Bytes(p.1))
  }

  predicate PairFits(p: RowPair) {
    Fits(p.0) && Fits(p.1)
  }

  predicate PairsFit(pairs: seq<RowPair>) {
    forall i :: 0 <= i < |pairs| ==> PairFits(pairs[i])
  }

  function MapAll<A, B>(f: A -> B, s: seq<A>): seq<B> {
    if s == [] then [] else MapAll(f, s[..|s| - 1]) + [f(s[|s| - 1])]
  }

  function EncodedPairs(pairs: seq<RowPair>): seq<RowDigest.Pair> {
    MapAll(BytesOfPair, pairs)
  }

  lemma PairsNext(rows: seq<RowDigest.SnapshotRow>, row: RowDigest.SnapshotRow)
    ensures RowDigest.Pairs(rows + [row]) == RowDigest.Pairs(rows) + [(row.key, row.canonical)]
  {
  }

  lemma {:induction false} PairsOfStored(sha256: seq<byte> -> string, rows: seq<RecordRow>)
    ensures RowDigest.Pairs(StoredRows(sha256, rows)) == EncodedPairs(PairsOf(rows))
  {
    if rows != [] {
      var front, last := rows[..|rows| - 1], rows[|rows| - 1];
      PairsOfStored(sha256, front);
      PairsNext(StoredRows(sha256, front), ToSnapshotRow(sha256, last));
      assert PairsOf(rows)[..|PairsOf(front)|] == PairsOf(front);
    }
  }

  lemma {:induction false} PairsOfFitting(rows: seq<RecordRow>)
    requires AllFit(rows)
    ensures PairsFit(PairsOf(rows))
  {
    if rows != [] {
      PairsOfFitting(rows[..|rows| - 1]);
      assert RowFits(rows[|rows| - 1]);
    }
  }

  lemma PairBytesExactly(p: RowPair, q: RowPair)
    requires PairFits(p) && PairFits(q)
    ensures BytesOfPair(p) == BytesOfPair(q) <==> p == q
  {
    if BytesOfPair(p) == BytesOfPair(q) {
      BytesAreInjective(p.0, q.0);
      BytesAreInjective(p.1, q.1);
    }
  }

  lemma CountNext<T>(s: seq<T>, x: T, y: T)
    ensures multiset(s + [x])[y] == multiset(s)[y] + if x == y then 1 else 0
  {
  }

  /** A value that only `x` is mapped to occurs as often as `x`. */
  lemma {:induction false} MapCount<A, B>(f: A -> B, s: seq<A>, x: A)
    requires forall y :: y in s && f(y) == f(x) ==> y == x
    ensures multiset(MapAll(f, s))[f(x)] == multiset(s)[x]
  {
    if s != [] {
      var front, last := s[..|s| - 1], s[|s| - 1];
      MapCount(f, front, x);
      CountNext(front, last, x);
      CountNext(MapAll(f, front), f(last), f(x));
      assert s == front + [last];
    }
  }

  lemma {:induction false} MapOrigin<A, B>(f: A -> B, s: seq<A>, z: B)
    ensures z in MapAll(f, s) ==> exists x :: x in s && z == f(x)
  {
    if s != [] {
      MapOrigin(f, s[..|s| - 1], z);
    }
  }

  lemma EncodedCount(pairs: seq<RowPair>, p: RowPair)
    requires PairsFit(pairs) && PairFits(p)
    ensures multiset(EncodedPairs(pairs))[BytesOfPair(p)] == multiset(pairs)[p]
  {
    forall q | q in pairs && BytesOfPair(q) == BytesOfPair(p) ensures q == p {
      PairBytesExactly(q, p);
    }
    MapCount(BytesOfPair, pairs, p);
  }

  lemma SameEncodedCount(a: seq<RowPair>, b: seq<RowPair>, q: RowDigest.Pair)
    requires PairsFit(a) && PairsFit(b) && multiset(a) == multiset(b)
    ensures multiset(EncodedPairs(a))[q] == multiset(EncodedPairs(b))[q]
  {
    MapOrigin(BytesOfPair, a, q);
    MapOrigin(BytesOfPair, b, q);
    if q in EncodedPairs(a) || q in EncodedPairs(b) {
      var p :| (p in a || p in b) && q == BytesOfPair(p);
      EncodedCount(a, p);
      EncodedCount(b, p);
    }
  }

  lemma EncodedExactly(a: seq<RowPair>, b: seq<RowPair>)
    requires PairsFit(a) && PairsFit(b)
    ensures multiset(EncodedPairs(a)) == multiset(EncodedPairs(b)) <==> multiset(a) == multiset(b)
  {
    if multiset(a) == multiset(b) {
      forall q: RowDigest.Pair ensures multiset(EncodedPairs(a))[q] == multiset(EncodedPairs(b))[q] {
        SameEncodedCount(a, b, q);
      }
    } else {
      var p: RowPair :| multiset(a)[p] != multiset(b)[p];
      assert p in a || p in b;
      EncodedCount(a, p);
      EncodedCount(b, p);
    }
  }

  /** A diff reports nothing exactly where the two row sets, stored in UTF-8, are hashed as the same bytes. */
  lemma SilentExactlyWhenDigestsAgree(sha256: seq<byte> -> string, changes: seq<Change>, oldRows: seq<RecordRow>, newRows: seq<RecordRow>)
    requires AllFit(oldRows) && AllFit(newRows) && IsDiff(changes, oldRows, newRows)
    ensures changes == [] <==>
      RowDigest.Preimage(StoredRows(sha256, oldRows)) == RowDigest.Preimage(StoredRows(sha256, newRows))
  {
    SilentExactly(changes, oldRows, newRows);
    RowDigest.SamePreimageExactly(StoredRows(sha256, oldRows), StoredRows(sha256, newRows));
    PairsOfStored(sha256, oldRows);
    PairsOfStored(sha256, newRows);
    PairsOfFitting(oldRows);
    PairsOfFitting(newRows);
    EncodedExactly(PairsOf(oldRows), PairsOf(newRows));
  }
}
