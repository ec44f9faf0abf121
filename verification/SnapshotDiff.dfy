/** The record-level diff of two snapshots: rows compared by key, as multisets. */
module SnapshotDiff {
  import opened Wrappers
  import opened Sorting
  import opened OrderedMap

  datatype RecordRow = RecordRow(key: string, canonical: string, rawJson: string)

  datatype Kind = Added | Changed | Removed

  datatype Change = Change(key: string, kind: Kind)

  function Rank(kind: Kind): nat {
    match kind
    case Added => 0
    case Changed => 1
    case Removed => 2
  }

  predicate ChangeLe(a: Change, b: Change) {
    if a.key != b.key then StrLe(a.key, b.key) else Rank(a.kind) <= Rank(b.kind)
  }

  // ---------------------------------------------------------------- rows by key

  /** The canonical texts of the rows with `key`. */
  function Canonicals(rows: seq<RecordRow>, key: string): seq<string> {
    if rows == [] then []
    else
      var last := rows[|rows| - 1];
      Canonicals(rows[..|rows| - 1], key) + if last.key == key then [last.canonical] else []
  }

  type Groups = Entries<seq<string>>

  ghost predicate IsGrouped(m: Groups, rows: seq<RecordRow>) {
    Ordered(m) && forall key :: Lookup(m, key) == NonEmpty(Canonicals(rows, key))
  }

  lemma GroupNext(m: Groups, rows: seq<RecordRow>, row: RecordRow)
    requires IsGrouped(m, rows)
    ensures IsGrouped(Append(m, row.key, row.canonical), rows + [row])
  {
    var all := rows + [row];
    assert all[..|rows|] == rows;
    AppendLookup(m, row.key, row.canonical);
    forall k ensures Lookup(Append(m, row.key, row.canonical), k) == NonEmpty(Canonicals(all, k)) {
      assert Lookup(m, k) == NonEmpty(Canonicals(rows, k));
      assert k != row.key ==> Canonicals(all, k) == Canonicals(rows, k);
    }
  }

  /** The values of a key, in some order. */
  function ValuesAt(m: Groups, key: string): seq<string> {
    if Lookup(m, key).None? then [] else Lookup(m, key).value
  }

  /** The groups hold the rows: the right values under each key, and no empty group. */
  ghost predicate Holds(m: Groups, rows: seq<RecordRow>) {
    && Ordered(m)
    && (forall key :: multiset(ValuesAt(m, key)) == multiset(Canonicals(rows, key)))
  }

  method SortValues(m: Groups) returns (m': Groups)
    ensures |m'| == |m| && forall i :: 0 <= i < |m| ==> m'[i] == (m[i].0, SortBy(m[i].1, StrLe))
  {
    m' := m;
    for n := 0 to |m|
      invariant |m'| == |m|
      invariant forall i :: 0 <= i < n ==> m'[i] == (m[i].0, SortBy(m[i].1, StrLe))
      invariant forall i :: n <= i < |m| ==> m'[i] == m[i]
    {
      m' := m'[n := (m[n].0, SortBy(m[n].1, StrLe))];
    }
  }

  lemma SortedValuesHold(m: Groups, m': Groups, rows: seq<RecordRow>)
    requires IsGrouped(m, rows)
    requires |m'| == |m| && forall i :: 0 <= i < |m| ==> m'[i] == (m[i].0, SortBy(m[i].1, StrLe))
    ensures Holds(m', rows)
  {
    forall key ensures multiset(ValuesAt(m', key)) == multiset(Canonicals(rows, key)) {
      assert Lookup(m, key) == NonEmpty(Canonicals(rows, key));
      SortedLookup(m, m', key);
    }
  }

  lemma SortedLookup(m: Groups, m': Groups, key: string)
    requires Ordered(m)
    requires |m'| == |m| && forall i :: 0 <= i < |m| ==> m'[i] == (m[i].0, SortBy(m[i].1, StrLe))
    ensures Ordered(m') && multiset(ValuesAt(m', key)) == multiset(ValuesAt(m, key))
  {
    LookupIsMember(m, key);
    LookupIsMember(m', key);
    assert forall i :: 0 <= i < |m| ==> m'[i].0 == m[i].0;
    if Lookup(m, key).Some? {
      var i :| 0 <= i < |m| && m[i].0 == key;
      LookupEntry(m, i);
      LookupEntry(m', i);
      StrIsTotalOrder();
      SortBySorts(m[i].1, StrLe);
    }
  }

  method GroupByKey(rows: seq<RecordRow>) returns (m: Groups)
    ensures Holds(m, rows)
  {
    m := [];
    for n := 0 to |rows|
      invariant IsGrouped(m, rows[..n])
    {
      assert rows[..n + 1] == rows[..n] + [rows[n]];
      GroupNext(m, rows[..n], rows[n]);
      m := Append(m, rows[n].key, rows[n].canonical);
    }
    assert rows[..|rows|] == rows;
    var sorted := SortValues(m);
    SortedValuesHold(m, sorted, rows);
    m := sorted;
  }

  // ---------------------------------------------------------------- multiset difference

  function CountIn(counts: map<string, nat>, value: string): nat {
    if value in counts then counts[value] else 0
  }

  ghost predicate IsCount(counts: map<string, nat>, values: seq<string>) {
    forall v :: CountIn(counts, v) == multiset(values)[v]
  }

  method CountValues(values: seq<string>) returns (counts: map<string, nat>)
    ensures IsCount(counts, values)
  {
    counts := map[];
    for n := 0 to |values|
      invariant IsCount(counts, values[..n])
    {
      assert values[..n + 1] == values[..n] + [values[n]];
      counts := counts[values[n] := CountIn(counts, values[n]) + 1];
    }
    assert values[..|values|] == values;
  }

  function Least(a: nat, b: nat): nat {
    if a <= b then a else b
  }

  /** Of `prefix`, as many values are used as `b` has, and the others are the result. */
  ghost predicate Matched(used: map<string, nat>, result: seq<string>, prefix: seq<string>, b: seq<string>) {
    && (forall v :: CountIn(used, v) == Least(multiset(prefix)[v], multiset(b)[v]))
    && (forall v :: multiset(result)[v] + CountIn(used, v) == multiset(prefix)[v])
  }

  lemma MatchedNone(b: seq<string>)
    ensures Matched(map[], [], [], b)
  {
  }

  lemma MatchedNext(used: map<string, nat>, result: seq<string>, prefix: seq<string>, b: seq<string>, available: map<string, nat>, value: string)
    requires Matched(used, result, prefix, b) && IsCount(available, b)
    ensures if CountIn(used, value) < CountIn(available, value)
            then Matched(used[value := CountIn(used, value) + 1], result, prefix + [value], b)
            else Matched(used, result + [value], prefix + [value], b)
  {
  }

  lemma MatchedAll(used: map<string, nat>, result: seq<string>, a: seq<string>, b: seq<string>)
    requires Matched(used, result, a, b)
    ensures multiset(result) == multiset(a) - multiset(b)
  {
    assert forall v :: multiset(result)[v] == (multiset(a) - multiset(b))[v];
  }

  /** The values of `a` not matched by a value of `b`. */
  method MultisetDifference(a: seq<string>, b: seq<string>) returns (result: seq<string>)
    ensures multiset(result) == multiset(a) - multiset(b)
  {
    var available := CountValues(b);
    var used: map<string, nat> := map[];
    result := [];
    MatchedNone(b);
    assert a[..0] == [];
    for n := 0 to |a|
      invariant Matched(used, result, a[..n], b)
    {
      assert a[..n + 1] == a[..n] + [a[n]];
      MatchedNext(used, result, a[..n], b, available, a[n]);
      if CountIn(used, a[n]) < CountIn(available, a[n]) {
        used := used[a[n] := CountIn(used, a[n]) + 1];
      } else {
        result := result + [a[n]];
      }
    }
    assert a[..|a|] == a;
    MatchedAll(used, result, a, b);
  }

  // ---------------------------------------------------------------- the diff

  /** How many changes of a kind come from `removed` unmatched old values and `added` unmatched new ones. */
  function CountOf(kind: Kind, removed: nat, added: nat): nat {
    match kind
    case Changed => Least(removed, added)
    case Removed => removed - Least(removed, added)
    case Added => added - Least(removed, added)
  }

  function Expected(before: multiset<string>, after: multiset<string>, kind: Kind): nat {
    CountOf(kind, |before - after|, |after - before|)
  }

  ghost function At(rows: seq<RecordRow>, key: string): multiset<string> {
    multiset(Canonicals(rows, key))
  }

  method PushMany(changes: seq<Change>, change: Change, count: nat) returns (changes': seq<Change>)
    ensures multiset(changes') == multiset(changes)[change := multiset(changes)[change] + count]
  {
    changes' := changes;
    for n := 0 to count
      invariant multiset(changes') == multiset(changes)[change := multiset(changes)[change] + n]
    {
      changes' := changes' + [change];
    }
  }

  type Counter = Change -> nat

  /** The number of each change that is due between two lists of rows. */
  ghost function Due(oldRows: seq<RecordRow>, newRows: seq<RecordRow>): Counter {
    (c: Change) => Expected(At(oldRows, c.key), At(newRows, c.key), c.kind)
  }

  /** `changes'` has the changes due for one key in addition. */
  ghost predicate Adds(changes: seq<Change>, changes': seq<Change>, key: string, due: Counter) {
    forall c :: multiset(changes')[c] == multiset(changes)[c] + (if c.key == key then due(c) else 0)
  }

  /** The changes of one key that the old rows have. */
  method DiffKey(changes: seq<Change>, key: string, oldValues: seq<string>, newValues: seq<string>,
                 ghost due: Counter)
    returns (changes': seq<Change>)
    requires IsDueAt(due, key, oldValues, newValues)
    ensures Adds(changes, changes', key, due)
  {
    var removed := MultisetDifference(oldValues, newValues);
    var added := MultisetDifference(newValues, oldValues);
    assert |multiset(removed)| == |removed| && |multiset(added)| == |added|;
    var overlap := Least(|removed|, |added|);
    var a := PushMany(changes, Change(key, Changed), overlap);
    var b := PushMany(a, Change(key, Removed), |removed| - overlap);
    changes' := PushMany(b, Change(key, Added), |added| - overlap);
    forall c
      ensures multiset(changes')[c] == multiset(changes)[c] + (if c.key == key then due(c) else 0)
    {
      assert c == Change(c.key, c.kind);
    }
  }

  /** The changes of one key that only the new rows have. */
  method DiffNewKey(changes: seq<Change>, key: string, newValues: seq<string>, ghost due: Counter)
    returns (changes': seq<Change>)
    requires IsDueAt(due, key, [], newValues)
    ensures Adds(changes, changes', key, due)
  {
    AllAdded(newValues, multiset(newValues));
    changes' := PushMany(changes, Change(key, Added), |newValues|);
    forall c
      ensures multiset(changes')[c] == multiset(changes)[c] + (if c.key == key then due(c) else 0)
    {
      assert c == Change(c.key, c.kind);
    }
  }

  lemma AllAdded(values: seq<string>, m: multiset<string>)
    requires multiset(values) == m
    ensures |m - multiset{}| == |values| && |multiset{} - m| == 0
  {
    assert m - multiset{} == m;
    assert multiset{} - m == multiset{};
    assert |multiset(values)| == |values|;
  }

  ghost predicate Counts(changes: seq<Change>, keys: set<string>, due: Counter) {
    forall c :: multiset(changes)[c] == if c.key in keys then due(c) else 0
  }

  function KeysBefore(m: Groups, n: nat): set<string>
    requires n <= |m|
  {
    if n == 0 then {} else KeysBefore(m, n - 1) + {m[n - 1].0}
  }

  lemma {:induction false} InKeysBefore(m: Groups, n: nat, key: string)
    requires n <= |m|
    ensures key in KeysBefore(m, n) <==> exists i :: 0 <= i < n && m[i].0 == key
  {
    if n > 0 {
      InKeysBefore(m, n - 1, key);
    }
  }

  lemma NextKeyIsNew(m: Groups, n: nat)
    requires Ordered(m) && n < |m|
    ensures m[n].0 !in KeysBefore(m, n)
  {
    InKeysBefore(m, n, m[n].0);
    assert forall i :: 0 <= i < n ==> Before(m[i].0, m[n].0);
  }

  lemma CountsNext(changes: seq<Change>, changes': seq<Change>, keys: set<string>, key: string, due: Counter)
    requires Counts(changes, keys, due) && key !in keys && Adds(changes, changes', key, due)
    ensures Counts(changes', keys + {key}, due)
  {
  }

  ghost predicate IsDueAt(due: Counter, key: string, oldValues: seq<string>, newValues: seq<string>) {
    forall kind :: due(Change(key, kind)) == Expected(multiset(oldValues), multiset(newValues), kind)
  }

  ghost predicate IsDue(due: Counter, oldMap: Groups, newMap: Groups) {
    forall key :: IsDueAt(due, key, ValuesAt(oldMap, key), ValuesAt(newMap, key))
  }

  /** What is due can be counted from the values of the two groups. */
  lemma DueFromValues(oldMap: Groups, newMap: Groups, oldRows: seq<RecordRow>, newRows: seq<RecordRow>)
    requires Holds(oldMap, oldRows) && Holds(newMap, newRows)
    ensures IsDue(Due(oldRows, newRows), oldMap, newMap)
  {
    forall key ensures IsDueAt(Due(oldRows, newRows), key, ValuesAt(oldMap, key), ValuesAt(newMap, key)) {
      assert multiset(ValuesAt(oldMap, key)) == multiset(Canonicals(oldRows, key));
      assert multiset(ValuesAt(newMap, key)) == multiset(Canonicals(newRows, key));
    }
  }

  /** The keys of the old rows: their unmatched old and new values. */
  lemma DueAtEntry(oldMap: Groups, newMap: Groups, due: Counter, n: nat)
    requires Ordered(oldMap) && n < |oldMap| && IsDue(due, oldMap, newMap)
    ensures IsDueAt(due, oldMap[n].0, oldMap[n].1, ValuesAt(newMap, oldMap[n].0))
  {
    LookupEntry(oldMap, n);
    assert IsDueAt(due, oldMap[n].0, ValuesAt(oldMap, oldMap[n].0), ValuesAt(newMap, oldMap[n].0));
  }

  method DiffOldKeys(oldMap: Groups, newMap: Groups, ghost due: Counter) returns (changes: seq<Change>)
    requires Ordered(oldMap)
    requires IsDue(due, oldMap, newMap)
    ensures Counts(changes, KeysBefore(oldMap, |oldMap|), due)
  {
    changes := [];
    for n := 0 to |oldMap|
      invariant Counts(changes, KeysBefore(oldMap, n), due)
    {
      var (key, oldValues) := oldMap[n];
      NextKeyIsNew(oldMap, n);
      DueAtEntry(oldMap, newMap, due, n);
      var next := DiffKey(changes, key, oldValues, ValuesAt(newMap, key), due);
      CountsNext(changes, next, KeysBefore(oldMap, n), key, due);
      changes := next;
    }
  }

  ghost function KeysDone(oldMap: Groups, newMap: Groups, n: nat): set<string>
    requires n <= |newMap|
  {
    KeysBefore(oldMap, |oldMap|) + KeysBefore(newMap, n)
  }

  lemma InMap(m: Groups, key: string)
    ensures key in KeysBefore(m, |m|) <==> Lookup(m, key).Some?
  {
    LookupIsMember(m, key);
    InKeysBefore(m, |m|, key);
  }

  /** The keys of the new rows alone: all their values are additions. */
  method DiffNewKeys(oldMap: Groups, newMap: Groups, changes: seq<Change>, ghost due: Counter) returns (changes': seq<Change>)
    requires Ordered(newMap) && Counts(changes, KeysBefore(oldMap, |oldMap|), due)
    requires IsDue(due, oldMap, newMap)
    ensures Counts(changes', KeysDone(oldMap, newMap, |newMap|), due)
  {
    changes' := changes;
    assert KeysDone(oldMap, newMap, 0) == KeysBefore(oldMap, |oldMap|);
    for n := 0 to |newMap|
      invariant Counts(changes', KeysDone(oldMap, newMap, n), due)
    {
      var (key, newValues) := newMap[n];
      InMap(oldMap, key);
      LookupEntry(newMap, n);
      assert KeysDone(oldMap, newMap, n + 1) == KeysDone(oldMap, newMap, n) + {key};
      if Lookup(oldMap, key).None? {
        assert IsDueAt(due, key, ValuesAt(oldMap, key), ValuesAt(newMap, key));
        var next := DiffNewKey(changes', key, newValues, due);
        NewKeyIsNotDone(oldMap, newMap, n);
        CountsNext(changes', next, KeysDone(oldMap, newMap, n), key, due);
        changes' := next;
      } else {
        assert KeysDone(oldMap, newMap, n + 1) == KeysDone(oldMap, newMap, n);
      }
    }
  }

  lemma NewKeyIsNotDone(oldMap: Groups, newMap: Groups, n: nat)
    requires Ordered(newMap) && n < |newMap| && newMap[n].0 !in KeysBefore(oldMap, |oldMap|)
    ensures newMap[n].0 !in KeysDone(oldMap, newMap, n)
  {
    NextKeyIsNew(newMap, n);
  }

  ghost predicate IsDiff(changes: seq<Change>, oldRows: seq<RecordRow>, newRows: seq<RecordRow>) {
    && Sorted(changes, ChangeLe)
    && forall c :: multiset(changes)[c] == Expected(At(oldRows, c.key), At(newRows, c.key), c.kind)
  }

  /** The whole diff: for each key the unmatched values, sorted by key and kind. */
  method RecordDiff(oldRows: seq<RecordRow>, newRows: seq<RecordRow>) returns (changes: seq<Change>)
    ensures IsDiff(changes, oldRows, newRows)
  {
    var oldMap := GroupByKey(oldRows);
    var newMap := GroupByKey(newRows);
    ghost var due := Due(oldRows, newRows);
    DueFromValues(oldMap, newMap, oldRows, newRows);
    var byOld := DiffOldKeys(oldMap, newMap, due);
    var unsorted := DiffNewKeys(oldMap, newMap, byOld, due);
    ChangeLeIsTotal();
    SortBySorts(unsorted, ChangeLe);
    changes := SortBy(unsorted, ChangeLe);
    forall c ensures multiset(unsorted)[c] == due(c) {
      NothingElseIsDue(oldMap, newMap, due, c);
    }
  }

  lemma NothingElseIsDue(oldMap: Groups, newMap: Groups, due: Counter, c: Change)
    requires IsDue(due, oldMap, newMap)
    ensures c.key !in KeysDone(oldMap, newMap, |newMap|) ==> due(c) == 0
  {
    InMap(oldMap, c.key);
    InMap(newMap, c.key);
    NothingExpected(c.kind);
    assert IsDueAt(due, c.key, ValuesAt(oldMap, c.key), ValuesAt(newMap, c.key));
    assert c == Change(c.key, c.kind);
  }

  lemma NothingExpected(kind: Kind)
    ensures Expected(multiset{}, multiset{}, kind) == 0
  {
    var none: multiset<string> := multiset{};
    assert none - none == none;
  }

  lemma ChangeLeIsTotal()
    ensures TotalPreorder(ChangeLe) && Antisymmetric(ChangeLe)
  {
    StrIsTotalOrder();
  }
}
