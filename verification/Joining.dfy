/** Parts joined by the unit separator: which lists of parts give the same text. */
module Joining {
  import opened Text

  const UNIT_SEPARATOR := "\U{1F}"

  function Joined(parts: seq<string>): string {
    Join(parts, UNIT_SEPARATOR)
  }

  lemma JoinedCons(first: string, rest: seq<string>)
    requires rest != []
    ensures Joined([first] + rest) == first + UNIT_SEPARATOR + Joined(rest)
  {
    assert ([first] + rest)[1..] == rest;
  }

  /** The text between its separators. */
  function Pieces(s: string): (pieces: seq<string>)
    ensures pieces != []
  {
    if s == "" then [""]
    else
      var rest := Pieces(s[1..]);
      if s[0] == '\U{1F}' then [""] + rest else [[s[0]] + rest[0]] + rest[1..]
  }

  /** The pieces of all parts, in order. */
  function AllPieces(parts: seq<string>): seq<string> {
    if parts == [] then [] else Pieces(parts[0]) + AllPieces(parts[1..])
  }

  lemma {:induction false} PiecesJoin(s: string)
    ensures Joined(Pieces(s)) == s
  {
    if s != "" {
      var rest := Pieces(s[1..]);
      PiecesJoin(s[1..]);
      if s[0] == '\U{1F}' {
        assert ([""] + rest)[1..] == rest;
        assert "" + UNIT_SEPARATOR + s[1..] == s;
      } else {
        JoinWithFirst(s[0], rest);
        assert [s[0]] + s[1..] == s;
      }
    }
  }

  lemma JoinWithFirst(c: char, rest: seq<string>)
    requires rest != []
    ensures Joined([[c] + rest[0]] + rest[1..]) == [c] + Joined(rest)
  {
    var parts := [[c] + rest[0]] + rest[1..];
    assert parts[1..] == rest[1..];
    if |rest| > 1 {
      assert [c] + (rest[0] + UNIT_SEPARATOR + Joined(rest[1..])) == ([c] + rest[0]) + UNIT_SEPARATOR + Joined(rest[1..]);
    }
  }

  lemma {:induction false} PiecesOfJoin(a: string, b: string)
    ensures Pieces(a + UNIT_SEPARATOR + b) == Pieces(a) + Pieces(b)
  {
    var s := a + UNIT_SEPARATOR + b;
    if a == "" {
      assert s[1..] == b && s[0] == '\U{1F}';
    } else {
      PiecesOfJoin(a[1..], b);
      assert s[1..] == a[1..] + UNIT_SEPARATOR + b;
    }
  }

  lemma {:induction false} PiecesOfAll(parts: seq<string>)
    requires parts != []
    ensures Pieces(Joined(parts)) == AllPieces(parts)
  {
    if |parts| == 1 {
      assert parts[1..] == [];
      assert Pieces(parts[0]) + [] == Pieces(parts[0]);
    } else {
      PiecesOfAll(parts[1..]);
      PiecesOfJoin(parts[0], Joined(parts[1..]));
    }
  }

  /** Two lists of parts give one text if and only if all their parts together have the same pieces. */
  lemma JoinedExactly(a: seq<string>, b: seq<string>)
    requires a != [] && b != []
    ensures Joined(a) == Joined(b) <==> AllPieces(a) == AllPieces(b)
  {
    PiecesOfAll(a);
    PiecesOfAll(b);
    PiecesJoin(Joined(a));
    PiecesJoin(Joined(b));
  }

  predicate SeparatorFree(s: string) {
    Lacks(s, '\U{1F}')
  }

  predicate AllSeparatorFree(parts: seq<string>) {
    forall i :: 0 <= i < |parts| ==> SeparatorFree(parts[i])
  }

  lemma {:induction false} OnePiece(s: string)
    requires SeparatorFree(s)
    ensures Pieces(s) == [s]
  {
    if s != "" {
      OnePiece(s[1..]);
      assert [s[0]] + s[1..] == s;
    }
  }

  lemma {:induction false} PartsAreTheirPieces(parts: seq<string>)
    requires AllSeparatorFree(parts)
    ensures AllPieces(parts) == parts
  {
    if parts != [] {
      OnePiece(parts[0]);
      PartsAreTheirPieces(parts[1..]);
      assert [parts[0]] + parts[1..] == parts;
    }
  }

  /** Parts without the separator can be read back. */
  lemma JoinIsDecodable(a: seq<string>, b: seq<string>)
    requires a != [] && b != [] && AllSeparatorFree(a) && AllSeparatorFree(b)
    ensures Joined(a) == Joined(b) <==> a == b
  {
    JoinedExactly(a, b);
    PartsAreTheirPieces(a);
    PartsAreTheirPieces(b);
  }
}
