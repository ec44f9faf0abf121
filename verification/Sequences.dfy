/** Cutting sequences, and putting them together again. */
module Sequences {
  lemma AppendLast<T>(a: seq<T>, b: seq<T>)
    requires b != []
    ensures a + b == (a + b[..|b| - 1]) + [b[|b| - 1]]
  {
  }

  lemma CutAt<T>(s: seq<T>, n: nat)
    requires n <= |s|
    ensures s == s[..n] + s[n..]
    ensures n == |s| ==> s[..n] == s && s[n..] == []
    ensures 0 < n ==> s[..n][n - 1] == s[n - 1]
  {
  }

  lemma CutTwice<T>(s: seq<T>, start: nat, size: nat)
    requires start + size <= |s|
    ensures s == s[..start] + s[start..start + size] + s[start + size..]
    ensures s[..start + size] == s[..start] + s[start..start + size]
  {
  }

  lemma ThreeParts<T>(s: seq<T>, x: seq<T>, y: seq<T>, z: seq<T>)
    requires s == x + y + z
    ensures x == s[..|x|] && y == s[|x|..|x| + |y|] && z == s[|x| + |y|..]
    ensures x + y == s[..|x| + |y|]
  {
  }

  lemma ShorterPrefix<T>(a: seq<T>, b: seq<T>, c: seq<T>)
    requires a <= c && b <= c && |a| < |b|
    ensures a <= b[..|b| - 1]
  {
  }

  lemma SameFrontAndLast<T>(a: seq<T>, b: seq<T>)
    requires a != [] && |a| == |b| && a[..|a| - 1] <= b[..|b| - 1] && a[|a| - 1] == b[|b| - 1]
    ensures a == b
  {
    assert a == a[..|a| - 1] + [a[|a| - 1]] && b == b[..|b| - 1] + [b[|b| - 1]];
  }
}
