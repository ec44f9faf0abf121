/** The order-independent, duplicate-preserving digest over a snapshot's rows. */
module RowDigest {
  import opened Wrappers
  import opened Integers
  import opened Sorting
  import opened Utf8

  /** The UTF-8 bytes of a Rust string; its length fits in 64 bits. */
  type Bytes = s: seq<byte> | |s| <= U64_MAX

  datatype SnapshotRow = SnapshotRow(key: Bytes, canonical: Bytes, rowDigest: string, rawJson: string)

  /** The part of a row that the digest covers. */
  type Pair = (Bytes, Bytes)

  function PairOf(row: SnapshotRow): Pair {
    (row.key, row.canonical)
  }

  function Pairs(rows: seq<SnapshotRow>): (r: seq<Pair>)
    ensures |r| == |rows|
  {
    seq(|rows|, i requires 0 <= i < |rows| => PairOf(rows[i]))
  }

  predicate PairLe(a: Pair, b: Pair) {
    if a.0 == b.0 then LexLe(a.1, b.1) else LexLe(a.0, b.0)
  }

  predicate RowLe(a: SnapshotRow, b: SnapshotRow) {
    PairLe(PairOf(a), PairOf(b))
  }

  function LeBytes(n: nat, width: nat): (r: seq<byte>)
    ensures |r| == width
  {
    if width == 0 then [] else [n % 256] + LeBytes(n / 256, width - 1)
  }

  /** A length-prefixed field: eight little-endian bytes, then the field itself. */
  function Field(b: Bytes): seq<byte> {
    LeBytes(|b|, 8) + b
  }

  function Stream(pairs: seq<Pair>): seq<byte> {
    if pairs == [] then [] else Field(pairs[0].0) + Field(pairs[0].1) + Stream(pairs[1..])
  }

  /** The bytes that are hashed. */
  function Preimage(rows: seq<SnapshotRow>): seq<byte> {
    Stream(Pairs(SortBy(rows, RowLe)))
  }

  lemma PairsCons(row: SnapshotRow, rows: seq<SnapshotRow>)
    ensures Pairs([row] + rows) == [PairOf(row)] + Pairs(rows)
  {
  }

  lemma StreamNext(stream: seq<byte>, rows: seq<SnapshotRow>)
    requires rows != []
    ensures var row := rows[0];
      stream + Stream(Pairs(rows)) ==
      stream + LeBytes(|row.key|, 8) + row.key + LeBytes(|row.canonical|, 8) + row.canonical + Stream(Pairs(rows[1..]))
  {
    PairsCons(rows[0], rows[1..]);
    assert rows == [rows[0]] + rows[1..];
    var pairs := Pairs(rows);
    assert pairs[1..] == Pairs(rows[1..]);
    var a, b, c, d, rest := LeBytes(|pairs[0].0|, 8), pairs[0].0, LeBytes(|pairs[0].1|, 8), pairs[0].1, Stream(pairs[1..]);
    assert stream + ((a + b) + (c + d) + rest) == stream + a + b + c + d + rest;
  }

  method RowSetDigest(rows: seq<SnapshotRow>, sha256: seq<byte> -> string) returns (digest: string)
    ensures digest == sha256(Preimage(rows))
  {
    var sorted := SortBy(rows, RowLe);
    var stream: seq<byte> := [];
    ghost var whole := Stream(Pairs(sorted));
    for k := 0 to |sorted|
      invariant stream + Stream(Pairs(sorted[k..])) == whole
    {
      var row := sorted[k];
      StreamNext(stream, sorted[k..]);
      stream := stream + LeBytes(|row.key|, 8) + row.key + LeBytes(|row.canonical|, 8) + row.canonical;
      assert sorted[k..][1..] == sorted[k + 1..];
    }
    assert stream == whole;
    digest := sha256(stream);
  }

  // ---------------------------------------------------------------- decoding

  function FromLe(s: seq<byte>): nat {
    if s == [] then 0 else s[0] + 256 * FromLe(s[1..])
  }

  function Power256(k: nat): nat {
    if k == 0 then 1 else 256 * Power256(k - 1)
  }

  lemma {:induction false} FromLeBound(s: seq<byte>)
    ensures FromLe(s) < Power256(|s|)
  {
    if s != [] {
      FromLeBound(s[1..]);
    }
  }

  lemma {:induction false} FromLeOfLeBytes(n: nat, width: nat)
    requires n < Power256(width)
    ensures FromLe(LeBytes(n, width)) == n
  {
    if width > 0 {
      FromLeOfLeBytes(n / 256, width - 1);
      assert LeBytes(n, width)[1..] == LeBytes(n / 256, width - 1);
    }
  }

  lemma Power256Of8()
    ensures Power256(8) == U64_MAX + 1
  {
    assert Power256(4) == 0x1_0000_0000;
  }

  function TakeField(s: seq<byte>): (r: Option<(Bytes, seq<byte>)>)
    ensures r.Some? ==> |r.value.1| < |s|
  {
    if |s| < 8 then None
    else
      var n := FromLe(s[..8]);
      FromLeBound(s[..8]);
      Power256Of8();
      if |s| - 8 < n then None else Some((s[8..8 + n], s[8 + n..]))
  }

  function DecodeStream(s: seq<byte>): Option<seq<Pair>>
    decreases |s|
  {
    if s == [] then Some([])
    else
      var key := TakeField(s);
      if key.None? then None
      else
        var canonical := TakeField(key.value.1);
        if canonical.None? then None
        else
          var rest := DecodeStream(canonical.value.1);
          if rest.None? then None else Some([(key.value.0, canonical.value.0)] + rest.value)
  }

  lemma TakeFieldOfField(b: Bytes, rest: seq<byte>)
    ensures TakeField(Field(b) + rest) == Some((b, rest))
  {
    var s := Field(b) + rest;
    Power256Of8();
    FromLeOfLeBytes(|b|, 8);
    assert s[..8] == LeBytes(|b|, 8);
    assert s[8..8 + |b|] == b && s[8 + |b|..] == rest;
  }

  lemma TakePair(pair: Pair, rest: seq<byte>)
    ensures var s := Field(pair.0) + Field(pair.1) + rest;
      var key := TakeField(s);
      key.Some? && key.value.0 == pair.0 && TakeField(key.value.1) == Some((pair.1, rest))
  {
    TakeFieldOfField(pair.0, Field(pair.1) + rest);
    TakeFieldOfField(pair.1, rest);
    assert Field(pair.0) + Field(pair.1) + rest == Field(pair.0) + (Field(pair.1) + rest);
  }

  /** The length prefixes make the stream uniquely decodable. */
  lemma {:induction false} DecodeUndoesStream(pairs: seq<Pair>)
    ensures DecodeStream(Stream(pairs)) == Some(pairs)
  {
    if pairs != [] {
      TakePair(pairs[0], Stream(pairs[1..]));
      DecodeUndoesStream(pairs[1..]);
      assert pairs == [(pairs[0].0, pairs[0].1)] + pairs[1..];
    }
  }

  // ---------------------------------------------------------------- order independence

  lemma PairLeIsTotalOrder()
    ensures TotalPreorder(PairLe) && Antisymmetric(PairLe)
  {
    LexIsTotalOrder();
  }

  lemma {:induction false} PairsOfInsert(row: SnapshotRow, rows: seq<SnapshotRow>)
    ensures Pairs(Insert(row, rows, RowLe)) == Insert(PairOf(row), Pairs(rows), PairLe)
  {
    if rows != [] {
      PairsCons(rows[0], rows[1..]);
      assert rows == [rows[0]] + rows[1..];
      assert Pairs(rows)[1..] == Pairs(rows[1..]);
      if RowLe(row, rows[0]) {
        PairsCons(row, rows);
      } else {
        PairsOfInsert(row, rows[1..]);
        PairsCons(rows[0], Insert(row, rows[1..], RowLe));
      }
    }
  }

  lemma {:induction false} PairsOfSort(rows: seq<SnapshotRow>)
    ensures Pairs(SortBy(rows, RowLe)) == SortBy(Pairs(rows), PairLe)
  {
    if rows != [] {
      PairsOfSort(rows[1..]);
      PairsOfInsert(rows[0], SortBy(rows[1..], RowLe));
      PairsCons(rows[0], rows[1..]);
      assert rows == [rows[0]] + rows[1..];
      assert Pairs(rows)[1..] == Pairs(rows[1..]);
    }
  }

  /** Two row lists hash the same bytes if and only if they hold the same pairs, counted
      with multiplicity and in any order. */
  lemma SamePreimageExactly(a: seq<SnapshotRow>, b: seq<SnapshotRow>)
    ensures Preimage(a) == Preimage(b) <==> multiset(Pairs(a)) == multiset(Pairs(b))
  {
    PairsOfSort(a);
    PairsOfSort(b);
    DecodeUndoesStream(SortBy(Pairs(a), PairLe));
    DecodeUndoesStream(SortBy(Pairs(b), PairLe));
    if multiset(Pairs(a)) == multiset(Pairs(b)) {
      PairLeIsTotalOrder();
      SortBySorts(Pairs(a), PairLe);
      SortBySorts(Pairs(b), PairLe);
      SortedIsUnique(SortBy(Pairs(a), PairLe), SortBy(Pairs(b), PairLe), PairLe);
    }
  }
}
