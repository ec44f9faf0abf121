/** Match keys of raw identifiers, and stable record ids. */
module Identifiers {
  import opened Wrappers
  import opened Text
  import opened Hashing

  /** `normalize_identifier`: the ASCII letters and digits of the trimmed text, upper-cased. */
  function MatchKey(raw: string): Option<string> {
    var compact := Upper(Filter(Trim(raw), IsAlphanumeric));
    if compact == "" then None else Some(compact)
  }

  predicate NulFree(s: string) {
    Lacks(s, '\0')
  }

  function Preimage(namespace: string, parts: seq<string>): string {
    if parts == [] then namespace
    else Preimage(namespace, parts[..|parts| - 1]) + "\0" + parts[|parts| - 1]
  }

  /** `stable_id` over the hex SHA-256 `sha256` of a text. */
  function StableId(sha256: string -> string, namespace: string, parts: seq<string>): string {
    namespace + ":" + sha256(Preimage(namespace, parts))
  }

  lemma PreimageNext(namespace: string, parts: seq<string>, last: string)
    ensures Preimage(namespace, parts + [last]) == Preimage(namespace, parts) + "\0" + last
  {
    var all := parts + [last];
    assert all[..|all| - 1] == parts;
  }

  predicate AllNulFree(parts: seq<string>) {
    forall i :: 0 <= i < |parts| ==> NulFree(parts[i])
  }

  lemma {:induction false} NoNulInside(namespace: string, parts: seq<string>)
    requires NulFree(namespace) && NulFree(Preimage(namespace, parts))
    ensures parts == []
  {
    if parts != [] {
      var front := Preimage(namespace, parts[..|parts| - 1]);
      assert Preimage(namespace, parts)[|front|] == '\0';
    }
  }

  /** The hashed text of NUL-free parts gives back every part, and how many there are. */
  lemma {:induction false} PreimageIsDecodable(namespace: string, a: seq<string>, b: seq<string>)
    requires NulFree(namespace) && AllNulFree(a) && AllNulFree(b)
    requires Preimage(namespace, a) == Preimage(namespace, b)
    ensures a == b
  {
    if a == [] {
      NoNulInside(namespace, b);
    } else if b == [] {
      NoNulInside(namespace, a);
    } else {
      var a', b' := a[..|a| - 1], b[..|b| - 1];
      SplitAtLast(Preimage(namespace, a'), '\0', a[|a| - 1], Preimage(namespace, b'), b[|b| - 1]);
      PreimageIsDecodable(namespace, a', b');
      assert a == a' + [a[|a| - 1]] && b == b' + [b[|b| - 1]];
    }
  }

  /** Stable ids tell NUL-free part lists apart, unless SHA-256 collides. */
  lemma StableIdIsInjective(sha256: string -> string, namespace: string, a: seq<string>, b: seq<string>)
    requires CollisionFree(sha256) && NulFree(namespace) && AllNulFree(a) && AllNulFree(b)
    requires StableId(sha256, namespace, a) == StableId(sha256, namespace, b)
    ensures a == b
  {
    var x, y := sha256(Preimage(namespace, a)), sha256(Preimage(namespace, b));
    assert StableId(sha256, namespace, a)[|namespace + ":"|..] == x;
    assert StableId(sha256, namespace, b)[|namespace + ":"|..] == y;
    PreimageIsDecodable(namespace, a, b);
  }

  /** With a NUL inside a part, two different part lists share an id under every hash. */
  lemma NulPartsCollide(sha256: string -> string)
    ensures ["a\0b"] != ["a", "b"] && StableId(sha256, "n", ["a\0b"]) == StableId(sha256, "n", ["a", "b"])
  {
    assert ["a\0b"][..0] == [] && ["a", "b"][..1] == ["a"] && ["a"][..0] == [];
    assert Preimage("n", ["a\0b"]) == "n\0a\0b";
    assert Preimage("n", ["a", "b"]) == "n\0a\0b";
  }
}
