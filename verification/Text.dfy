/** The text primitives of the Rust standard library that the modelled code relies on:
    Unicode white space, trimming, word splitting, joining, and ASCII case. */
module Text {
  /** The Unicode White_Space property. */
  predicate IsWhitespace(c: char) {
    || '\t' <= c <= '\r'
    || c == ' '
    || c == '\U{85}'
    || c == '\U{A0}'
    || c == '\U{1680}'
    || '\U{2000}' <= c <= '\U{200A}'
    || c == '\U{2028}'
    || c == '\U{2029}'
    || c == '\U{202F}'
    || c == '\U{205F}'
    || c == '\U{3000}'
  }

  predicate IsDigit(c: char) {
    '0' <= c <= '9'
  }

  predicate IsAlphanumeric(c: char) {
    IsDigit(c) || 'a' <= c <= 'z' || 'A' <= c <= 'Z'
  }

  predicate IsHexDigit(c: char) {
    IsDigit(c) || 'a' <= c <= 'f' || 'A' <= c <= 'F'
  }

  function UpperChar(c: char): char {
    if 'a' <= c <= 'z' then (c as int - 32) as char else c
  }

  function LowerChar(c: char): char {
    if 'A' <= c <= 'Z' then (c as int + 32) as char else c
  }

  function Upper(s: string): (r: string)
    ensures |r| == |s|
  {
    seq(|s|, i requires 0 <= i < |s| => UpperChar(s[i]))
  }

  function Lower(s: string): (r: string)
    ensures |r| == |s|
  {
    seq(|s|, i requires 0 <= i < |s| => LowerChar(s[i]))
  }

  predicate EqIgnoreCase(a: string, b: string) {
    Lower(a) == Lower(b)
  }

  predicate All(s: string, p: char -> bool) {
    forall i :: 0 <= i < |s| ==> p(s[i])
  }

  /** 64 hexadecimal digits of either case. */
  predicate IsValidSha256(digest: string) {
    |digest| == 64 && All(digest, IsHexDigit)
  }

  function Filter(s: string, p: char -> bool): (r: string)
    ensures All(r, p)
  {
    if s == "" then "" else (if p(s[0]) then [s[0]] else "") + Filter(s[1..], p)
  }

  lemma {:induction false} FilterKeepsAll(s: string, p: char -> bool)
    requires All(s, p)
    ensures Filter(s, p) == s
  {
    if s != "" {
      FilterKeepsAll(s[1..], p);
    }
  }

  lemma FilterDropsFirst(c: char, s: string, p: char -> bool)
    requires !p(c)
    ensures Filter([c] + s, p) == Filter(s, p)
  {
    assert ([c] + s)[1..] == s;
  }

  function TrimStart(s: string): (r: string)
  {
    if s != "" && IsWhitespace(s[0]) then TrimStart(s[1..]) else s
  }

  function TrimEnd(s: string): (r: string)
  {
    if s != "" && IsWhitespace(s[|s| - 1]) then TrimEnd(s[..|s| - 1]) else s
  }

  function Trim(s: string): string {
    TrimEnd(TrimStart(s))
  }

  predicate OccursAt(s: string, part: string, i: nat) {
    i + |part| <= |s| && s[i..i + |part|] == part
  }

  predicate Contains(s: string, part: string) {
    exists i | 0 <= i <= |s| :: OccursAt(s, part, i)
  }

  predicate Lacks(s: string, c: char) {
    forall i :: 0 <= i < |s| ==> s[i] != c
  }

  lemma FirstIsLeft(a: string, c: char, x: string, b: string, y: string)
    requires Lacks(b, c) && a + [c] + x == b + [c] + y
    ensures |b| <= |a|
  {
    var s := a + [c] + x;
    assert s == b + [c] + y;
    assert forall k :: 0 <= k < |b| ==> s[k] == b[k];
    assert s[|a|] == c;
  }

  /** What stands before and after the first separator is determined. */
  lemma SplitAtFirst(a: string, c: char, x: string, b: string, y: string)
    requires Lacks(a, c) && Lacks(b, c) && a + [c] + x == b + [c] + y
    ensures a == b && x == y
  {
    FirstIsLeft(a, c, x, b, y);
    FirstIsLeft(b, c, y, a, x);
    var s := a + [c] + x;
    assert s == b + [c] + y;
    assert s[..|a|] == a && s[..|b|] == b;
    assert s[|a| + 1..] == x && s[|b| + 1..] == y;
  }

  lemma LastIsRight(a: string, c: char, x: string, b: string, y: string)
    requires Lacks(y, c) && a + [c] + x == b + [c] + y
    ensures |a| <= |b|
  {
    var s := a + [c] + x;
    assert s == b + [c] + y;
    assert forall k :: |b| < k < |s| ==> s[k] == y[k - |b| - 1];
    assert s[|a|] == c;
  }

  /** What stands before and after the last separator is determined. */
  lemma SplitAtLast(a: string, c: char, x: string, b: string, y: string)
    requires Lacks(x, c) && Lacks(y, c) && a + [c] + x == b + [c] + y
    ensures a == b && x == y
  {
    LastIsRight(a, c, x, b, y);
    LastIsRight(b, c, y, a, x);
    var s := a + [c] + x;
    assert s == b + [c] + y;
    assert s[..|a|] == a && s[..|b|] == b;
    assert s[|a| + 1..] == x && s[|b| + 1..] == y;
  }

  /** `split_whitespace`: the maximal runs of characters that are not white space. */
  function Words(s: string): (words: seq<string>)
    ensures IsWordList(words)
    ensures s != "" && !IsWhitespace(s[0]) ==> words != []
  {
    if s == "" then []
    else if IsWhitespace(s[0]) then Words(s[1..])
    else if |s| == 1 || IsWhitespace(s[1]) then [[s[0]]] + Words(s[1..])
    else
      var rest := Words(s[1..]);
      [[s[0]] + rest[0]] + rest[1..]
  }

  predicate IsWord(w: string) {
    w != "" && forall i :: 0 <= i < |w| ==> !IsWhitespace(w[i])
  }

  predicate IsWordList(words: seq<string>) {
    forall i :: 0 <= i < |words| ==> IsWord(words[i])
  }

  function Join(parts: seq<string>, separator: string): string {
    if parts == [] then ""
    else if |parts| == 1 then parts[0]
    else parts[0] + separator + Join(parts[1..], separator)
  }

  /** A white-space character separates the words before it from the words after it. */
  lemma {:induction false} WordsSplit(a: string, c: char, b: string)
    requires IsWhitespace(c)
    ensures Words(a + [c] + b) == Words(a) + Words(b)
  {
    var s := a + [c] + b;
    if a == "" {
      assert s[1..] == b;
    } else {
      assert s[1..] == a[1..] + [c] + b;
      WordsSplit(a[1..], c, b);
    }
  }

  lemma {:induction false} WordsOfWord(w: string)
    requires IsWord(w)
    ensures Words(w) == [w]
  {
    if |w| > 1 {
      assert !IsWhitespace(w[0]) && !IsWhitespace(w[1]);
      WordsOfWord(w[1..]);
      assert w == [w[0]] + w[1..];
    } else {
      assert w == [w[0]] && w[1..] == "";
    }
  }

  lemma {:induction false} WordsOfBlank(s: string)
    requires All(s, IsWhitespace)
    ensures Words(s) == []
  {
    if s != "" {
      WordsOfBlank(s[1..]);
    }
  }

  /** Splitting undoes joining with a single space. */
  lemma {:induction false} WordsOfJoin(words: seq<string>)
    requires IsWordList(words)
    ensures Words(Join(words, " ")) == words
  {
    if |words| == 1 {
      WordsOfWord(words[0]);
    } else if |words| > 1 {
      WordsOfWord(words[0]);
      WordsOfJoin(words[1..]);
      WordsSplit(words[0], ' ', Join(words[1..], " "));
    }
  }

  /** Leading and trailing white space never changes the words of a text. */
  lemma {:induction false} WordsOfTrimStart(s: string)
    ensures Words(TrimStart(s)) == Words(s)
  {
    if s != "" && IsWhitespace(s[0]) {
      WordsOfTrimStart(s[1..]);
    }
  }
}
