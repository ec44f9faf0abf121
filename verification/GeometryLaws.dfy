/** What joining and matching promise: every word accounted for, every match found, and what is lost at hyphens. */
module GeometryLaws {
  import opened Wrappers
  import opened Text
  import opened Sequences
  import opened Geometry

  // ---------------------------------------------------------------- every match, in order

  /** The positions before `bound` where the target matches. */
  function Starts(joined: seq<JoinedWord>, target: seq<string>, bound: nat): seq<nat> {
    if bound == 0 then []
    else Starts(joined, target, bound - 1) + if MatchesAt(joined, target, bound - 1) then [bound - 1] else []
  }

  lemma {:induction false} StartsExactly(joined: seq<JoinedWord>, target: seq<string>, bound: nat)
    ensures forall s :: s in Starts(joined, target, bound) <==> 0 <= s < bound && MatchesAt(joined, target, s)
    ensures forall i, j :: 0 <= i < j < |Starts(joined, target, bound)| ==>
      Starts(joined, target, bound)[i] < Starts(joined, target, bound)[j]
  {
    if bound > 0 {
      StartsExactly(joined, target, bound - 1);
      var before, last := Starts(joined, target, bound - 1), bound - 1;
      forall i | 0 <= i < |before| ensures before[i] < last {
        assert before[i] in before;
      }
      if MatchesAt(joined, target, last) {
        assert Starts(joined, target, bound) == before + [last];
      } else {
        assert Starts(joined, target, bound) == before;
      }
    }
  }

  lemma {:induction false} WindowsAtStarts(joined: seq<JoinedWord>, target: seq<string>, bound: nat, k: nat)
    requires k < |Starts(joined, target, bound)|
    ensures |Windows(joined, target, bound)| == |Starts(joined, target, bound)|
    ensures Starts(joined, target, bound)[k] + |target| <= |joined|
    ensures Windows(joined, target, bound)[k] == Window(joined, Starts(joined, target, bound)[k], |target|)
  {
    if k < |Starts(joined, target, bound - 1)| {
      WindowsAtStarts(joined, target, bound - 1, k);
    } else {
      WindowsCount(joined, target, bound - 1);
    }
  }

  lemma {:induction false} WindowsCount(joined: seq<JoinedWord>, target: seq<string>, bound: nat)
    ensures |Windows(joined, target, bound)| == |Starts(joined, target, bound)|
  {
    if bound > 0 {
      WindowsCount(joined, target, bound - 1);
    }
  }

  /** The occurrences are the windows at every matching position, from left to right. */
  lemma OccurrencesExactly(textMap: TextMap, quote: string) returns (starts: seq<nat>)
    ensures |Occurrences(textMap, quote)| == |starts|
    ensures forall s :: s in starts <==>
      0 <= s < |JoinedWords(textMap.words)| && Words(quote) != [] && MatchesAt(JoinedWords(textMap.words), Words(quote), s)
    ensures forall i, j :: 0 <= i < j < |starts| ==> starts[i] < starts[j]
    ensures forall k :: 0 <= k < |starts| ==>
      && starts[k] + |Words(quote)| <= |JoinedWords(textMap.words)|
      && Occurrences(textMap, quote)[k] == Window(JoinedWords(textMap.words), starts[k], |Words(quote)|)
  {
    var joined, target := JoinedWords(textMap.words), Words(quote);
    if target == [] {
      return [];
    }
    starts := Starts(joined, target, |joined|);
    StartsExactly(joined, target, |joined|);
    WindowsCount(joined, target, |joined|);
    forall k | 0 <= k < |starts|
      ensures starts[k] + |target| <= |joined|
      ensures Windows(joined, target, |joined|)[k] == Window(joined, starts[k], |target|)
    {
      WindowsAtStarts(joined, target, |joined|, k);
    }
  }

  // ---------------------------------------------------------------- every word accounted for

  function Members(g: Group): seq<JoinedWord> {
    if g.One? then [g.last] else Members(g.group) + [g.last]
  }

  function AllMembers(groups: seq<Group>): seq<JoinedWord> {
    if groups == [] then [] else AllMembers(groups[..|groups| - 1]) + Members(groups[|groups| - 1])
  }

  lemma AllMembersNext(groups: seq<Group>, g: Group)
    ensures AllMembers(groups + [g]) == AllMembers(groups) + Members(g)
  {
    assert (groups + [g])[..|groups|] == groups;
  }

  lemma AddedMember(groups: seq<Group>, w: JoinedWord)
    ensures AllMembers(AddFragment(groups, w)) == AllMembers(groups) + [w]
  {
    if groups != [] && EndsInHyphen(groups[|groups| - 1].last.text) {
      var front, g := groups[..|groups| - 1], groups[|groups| - 1];
      assert AddFragment(groups, w) == front + [More(g, w)];
      AllMembersNext(front, More(g, w));
      assert groups == front + [g];
    } else {
      AllMembersNext(groups, One(w));
    }
  }

  /** The joined words share out the words of the page: each is in one of them, in order. */
  lemma {:induction false} GroupsShareOut(fragments: seq<JoinedWord>)
    ensures AllMembers(Groups(fragments)) == fragments
  {
    if fragments != [] {
      GroupsShareOut(fragments[..|fragments| - 1]);
      AddedMember(Groups(fragments[..|fragments| - 1]), fragments[|fragments| - 1]);
    }
  }

  /** Right, upper and lower edge of `part` are within `whole`. */
  predicate CoversButLeft(whole: Rect, part: Rect) {
    AtMost(part.xMax, whole.xMax) && AtMost(part.yMax, whole.yMax) && AtMost(whole.yMin, part.yMin)
  }

  predicate AllNumbers(r: Rect) {
    !r.xMin.NaN? && !r.yMin.NaN? && !r.xMax.NaN? && !r.yMax.NaN?
  }

  predicate NumbersIn(g: Group) {
    AllNumbers(g.last.rect) && (g.More? ==> NumbersIn(g.group))
  }

  /** The rectangle of a joined word covers its fragments on three sides; its left edge is that of the first. */
  lemma {:induction false} MergedCovers(g: Group)
    requires NumbersIn(g)
    ensures AllNumbers(Merged(g).rect)
    ensures forall k :: 0 <= k < |Members(g)| ==> CoversButLeft(Merged(g).rect, Members(g)[k].rect)
    ensures Merged(g).rect.xMin == Members(g)[0].rect.xMin
  {
    if g.More? {
      MergedCovers(g.group);
      forall k | 0 <= k < |Members(g)| ensures CoversButLeft(Merged(g).rect, Members(g)[k].rect) {
        MergeCovers(Merged(g.group).rect, g.last.rect, Members(g)[k].rect);
      }
    }
  }

  lemma MergeCovers(a: Rect, b: Rect, part: Rect)
    requires AllNumbers(a) && AllNumbers(b)
    requires CoversButLeft(a, part) || part == b
    ensures CoversButLeft(MergeRect(a, b), part)
  {
  }

  predicate StartsLeftOfAll(fragments: seq<JoinedWord>) {
    fragments != [] && forall k :: 0 <= k < |fragments| ==> AtMost(fragments[0].rect.xMin, fragments[k].rect.xMin)
  }

  predicate CoversLeft(whole: Rect, fragments: seq<JoinedWord>) {
    forall k :: 0 <= k < |fragments| ==> AtMost(whole.xMin, fragments[k].rect.xMin)
  }

  /** A continuation is covered on the left exactly if it does not start further left than the first fragment. */
  lemma LeftEdgeExactly(g: Group)
    requires NumbersIn(g)
    ensures CoversLeft(Merged(g).rect, Members(g)) <==> StartsLeftOfAll(Members(g))
  {
    MergedCovers(g);
  }

  /** A line break: the continuation on the next line starts at the left margin and sticks out. */
  lemma ContinuationSticksOut(first: JoinedWord, next: JoinedWord)
    requires first == JoinedWord("inspec-", Rect(Finite(80.0), Finite(20.0), Finite(95.0), Finite(30.0)))
    requires next == JoinedWord("tion", Rect(Finite(10.0), Finite(5.0), Finite(30.0), Finite(15.0)))
    ensures Groups([first, next]) == [More(One(first), next)]
    ensures Less(next.rect.xMin, Merged(More(One(first), next)).rect.xMin)
  {
    assert [first, next][..1] == [first] && [first][..0] == [];
    assert Groups([first]) == AddFragment([], first);
    assert Groups([first, next]) == AddFragment([One(first)], next);
  }

  // ---------------------------------------------------------------- hyphens

  predicate NoInnerHyphen(texts: seq<JoinedWord>) {
    forall k :: 0 <= k < |texts| - 1 ==> !EndsInHyphen(texts[k].text)
  }

  predicate ClosedGroups(groups: seq<Group>) {
    forall k :: 0 <= k < |groups| - 1 ==> !EndsInHyphen(groups[k].last.text)
  }

  lemma AddedIsClosed(groups: seq<Group>, w: JoinedWord)
    requires ClosedGroups(groups)
    ensures ClosedGroups(AddFragment(groups, w))
  {
  }

  lemma {:induction false} GroupsAreClosed(fragments: seq<JoinedWord>)
    ensures ClosedGroups(Groups(fragments))
  {
    if fragments != [] {
      GroupsAreClosed(fragments[..|fragments| - 1]);
      AddedIsClosed(Groups(fragments[..|fragments| - 1]), fragments[|fragments| - 1]);
    }
  }

  /** Only the last joined word of a page can end in a hyphen. */
  lemma JoinedHasNoInnerHyphen(words: seq<MapWord>)
    ensures NoInnerHyphen(JoinedWords(words))
  {
    var fragments := Fragments(words);
    var groups := Groups(fragments);
    GroupsAreGroups(fragments);
    GroupsAreClosed(fragments);
    forall k | 0 <= k < |groups| - 1 ensures !EndsInHyphen(Joined(groups)[k].text) {
      MergedEnds(groups[k]);
    }
  }

  lemma HyphensMatch(a: string, b: string)
    requires EqIgnoreCase(a, b)
    ensures EndsInHyphen(a) <==> EndsInHyphen(b)
  {
    if a != "" {
      var i := |a| - 1;
      assert |Lower(a)| == |Lower(b)|;
      assert LowerChar(a[i]) == Lower(a)[i] == Lower(b)[i] == LowerChar(b[i]);
    }
  }

  /** A quotation with a word that ends in a hyphen, and is not its last, is never found. */
  lemma InnerHyphenIsNeverFound(textMap: TextMap, quote: string, i: nat)
    requires i < |Words(quote)| - 1 && EndsInHyphen(Words(quote)[i])
    ensures Occurrences(textMap, quote) == []
  {
    var joined := JoinedWords(textMap.words);
    JoinedHasNoInnerHyphen(textMap.words);
    var starts := OccurrencesExactly(textMap, quote);
    if starts != [] {
      var s := starts[0];
      assert MatchesAt(joined, Words(quote), s);
      HyphensMatch(joined[s + i].text, Words(quote)[i]);
      assert false;
    }
  }

  function Texts(words: seq<JoinedWord>): (texts: seq<string>)
    ensures |texts| == |words|
  {
    seq(|words|, k requires 0 <= k < |words| => words[k].text)
  }

  /** Each fragment as a joined word of its own. */
  function Singles(fragments: seq<JoinedWord>): (groups: seq<Group>)
    ensures |groups| == |fragments|
  {
    seq(|fragments|, k requires 0 <= k < |fragments| => One(fragments[k]))
  }

  lemma {:induction false} NothingIsJoined(fragments: seq<JoinedWord>)
    requires NoInnerHyphen(fragments)
    ensures Groups(fragments) == Singles(fragments)
  {
    if fragments != [] {
      NothingIsJoined(fragments[..|fragments| - 1]);
    }
  }

  // ---------------------------------------------------------------- quoting a run of words

  lemma {:induction false} LastOfGroups(fragments: seq<JoinedWord>)
    requires fragments != []
    ensures Groups(fragments) != []
    ensures Groups(fragments)[|Groups(fragments)| - 1].last == fragments[|fragments| - 1]
  {
  }

  lemma GroupsNext(fragments: seq<JoinedWord>, w: JoinedWord)
    ensures Groups(fragments + [w]) == AddFragment(Groups(fragments), w)
  {
    assert (fragments + [w])[..|fragments + [w]| - 1] == fragments;
  }

  lemma AddedApart(a: seq<Group>, b: seq<Group>, w: JoinedWord)
    requires b == [] && a != [] ==> !EndsInHyphen(a[|a| - 1].last.text)
    ensures AddFragment(a + b, w) == a + AddFragment(b, w)
  {
  }

  lemma NextApart(x: seq<JoinedWord>, front: seq<JoinedWord>, w: JoinedWord)
    requires x != [] ==> !EndsInHyphen(x[|x| - 1].text)
    requires Groups(x + front) == Groups(x) + Groups(front)
    ensures Groups((x + front) + [w]) == Groups(x) + Groups(front + [w])
  {
    GroupsNext(x + front, w);
    GroupsNext(front, w);
    if x != [] {
      LastOfGroups(x);
    }
    AddedApart(Groups(x), Groups(front), w);
  }

  /** Where no hyphen joins them, two runs of fragments are grouped apart. */
  lemma {:induction false} GroupsSplit(x: seq<JoinedWord>, y: seq<JoinedWord>)
    requires x != [] ==> !EndsInHyphen(x[|x| - 1].text)
    ensures Groups(x + y) == Groups(x) + Groups(y)
  {
    if y == [] {
      assert x + y == x;
    } else {
      var front, w := y[..|y| - 1], y[|y| - 1];
      assert front + [w] == y;
      GroupsSplit(x, front);
      NextApart(x, front, w);
      AppendLast(x, y);
    }
  }

  lemma MembersConcatNext(a: seq<Group>, front: seq<Group>, g: Group)
    requires AllMembers(a + front) == AllMembers(a) + AllMembers(front)
    ensures AllMembers((a + front) + [g]) == AllMembers(a) + AllMembers(front + [g])
  {
    AllMembersNext(a + front, g);
    AllMembersNext(front, g);
  }

  lemma {:induction false} AllMembersConcat(a: seq<Group>, b: seq<Group>)
    ensures AllMembers(a + b) == AllMembers(a) + AllMembers(b)
  {
    if b == [] {
      assert a + b == a;
    } else {
      var front, g := b[..|b| - 1], b[|b| - 1];
      assert front + [g] == b;
      AllMembersConcat(a, front);
      MembersConcatNext(a, front, g);
      AppendLast(a, b);
    }
  }

  lemma {:induction false} MembersEnd(g: Group)
    ensures |Members(g)| >= 1 && Members(g)[|Members(g)| - 1] == g.last
    ensures |Members(g)| == 1 <==> g.One?
  {
    if g.More? {
      MembersEnd(g.group);
    }
  }

  lemma {:induction false} AllMembersEnd(groups: seq<Group>)
    requires groups != []
    ensures AllMembers(groups) != []
    ensures AllMembers(groups)[|AllMembers(groups)| - 1] == groups[|groups| - 1].last
  {
    MembersEnd(groups[|groups| - 1]);
  }

  /** As many groups as members: each group is one fragment. */
  lemma {:induction false} AllSingle(groups: seq<Group>)
    ensures |AllMembers(groups)| >= |groups|
    ensures |AllMembers(groups)| == |groups| ==> groups == Singles(AllMembers(groups))
  {
    if groups != [] {
      var front, last := groups[..|groups| - 1], groups[|groups| - 1];
      AllSingle(front);
      MembersEnd(last);
      if |AllMembers(groups)| == |groups| {
        assert Members(last) == [last.last];
        assert groups == front + [last];
      }
    }
  }

  /** The joined words from `start` on, `size` of them, are made of exactly the fragments from `a` to `b`. */
  ghost predicate Spans(fragments: seq<JoinedWord>, start: nat, size: nat, a: nat, b: nat) {
    var groups := Groups(fragments);
    && start + size <= |groups|
    && |AllMembers(groups[..start])| == a
    && |AllMembers(groups[..start + size])| == b
  }

  /** No hyphen joins the fragments from `a` to `b` to each other or to what stands around them. */
  predicate StandsFree(fragments: seq<JoinedWord>, a: nat, b: nat)
    requires a < b <= |fragments|
  {
    && (a > 0 ==> !EndsInHyphen(fragments[a - 1].text))
    && (forall k :: a <= k < b - 1 ==> !EndsInHyphen(fragments[k].text))
    && (b < |fragments| ==> !EndsInHyphen(fragments[b - 1].text))
  }

  lemma FreeRunSplits(fragments: seq<JoinedWord>, a: nat, b: nat)
    requires a < b <= |fragments| && StandsFree(fragments, a, b)
    ensures Groups(fragments) == Groups(fragments[..a]) + Groups(fragments[a..b]) + Groups(fragments[b..])
  {
    SplitsAt(fragments, b);
    SplitsAt(fragments[..b], a);
    assert fragments[..b][..a] == fragments[..a] && fragments[..b][a..] == fragments[a..b];
  }

  lemma SplitsAt(fragments: seq<JoinedWord>, n: nat)
    requires n <= |fragments|
    requires 0 < n < |fragments| ==> !EndsInHyphen(fragments[n - 1].text)
    ensures Groups(fragments) == Groups(fragments[..n]) + Groups(fragments[n..])
  {
    CutAt(fragments, n);
    if n == |fragments| {
      GroupsOfWhole(fragments, fragments[..n], fragments[n..]);
    } else {
      GroupsSplit(fragments[..n], fragments[n..]);
    }
  }

  lemma GroupsOfWhole(fragments: seq<JoinedWord>, x: seq<JoinedWord>, y: seq<JoinedWord>)
    requires x == fragments && y == []
    ensures Groups(fragments) == Groups(x) + Groups(y)
  {
  }

  lemma FreeRunSpans(fragments: seq<JoinedWord>, a: nat, b: nat) returns (start: nat)
    requires a < b <= |fragments| && StandsFree(fragments, a, b)
    ensures Spans(fragments, start, b - a, a, b)
    ensures Groups(fragments)[start..start + (b - a)] == Singles(fragments[a..b])
  {
    FreeRunSplits(fragments, a, b);
    assert NoInnerHyphen(fragments[a..b]);
    NothingIsJoined(fragments[a..b]);
    GroupsShareOut(fragments[..a]);
    GroupsShareOut(fragments[a..b]);
    start := |Groups(fragments[..a])|;
    SpansMiddle(fragments, Groups(fragments[..a]), Groups(fragments[a..b]), Groups(fragments[b..]));
  }

  lemma SpansMiddle(fragments: seq<JoinedWord>, first: seq<Group>, middle: seq<Group>, rest: seq<Group>)
    requires Groups(fragments) == first + middle + rest
    ensures Spans(fragments, |first|, |middle|, |AllMembers(first)|, |AllMembers(first)| + |AllMembers(middle)|)
    ensures Groups(fragments)[|first|..|first| + |middle|] == middle
  {
    AllMembersConcat(first, middle);
    ThreeParts(Groups(fragments), first, middle, rest);
  }

  /** The groups of a span, and the fragments they share out. */
  lemma SpanShares(fragments: seq<JoinedWord>, start: nat, size: nat, a: nat, b: nat)
    requires Spans(fragments, start, size, a, b) && a <= b
    ensures b <= |fragments|
    ensures AllMembers(Groups(fragments)[..start]) == fragments[..a]
    ensures AllMembers(Groups(fragments)[start..start + size]) == fragments[a..b]
    ensures AllMembers(Groups(fragments)[start + size..]) == fragments[b..]
  {
    var groups := Groups(fragments);
    GroupsShareOut(fragments);
    CutTwice(groups, start, size);
    PartsShare(fragments, groups, groups[..start], groups[start..start + size], groups[start + size..]);
  }

  lemma PartsShare(fragments: seq<JoinedWord>, groups: seq<Group>, first: seq<Group>, middle: seq<Group>, rest: seq<Group>)
    requires AllMembers(groups) == fragments && groups == first + middle + rest
    ensures var a, b := |AllMembers(first)|, |AllMembers(first + middle)|;
      && a <= b <= |fragments|
      && AllMembers(first) == fragments[..a] && AllMembers(middle) == fragments[a..b] && AllMembers(rest) == fragments[b..]
  {
    MembersOfParts(groups, first, middle, rest);
    AllMembersConcat(first, middle);
    ThreeParts(fragments, AllMembers(first), AllMembers(middle), AllMembers(rest));
  }

  lemma MembersOfParts(groups: seq<Group>, first: seq<Group>, middle: seq<Group>, rest: seq<Group>)
    requires groups == first + middle + rest
    ensures AllMembers(groups) == AllMembers(first) + AllMembers(middle) + AllMembers(rest)
  {
    AllMembersConcat(first, middle);
    AllMembersConcat(first + middle, rest);
  }

  lemma SpanStandsFree(fragments: seq<JoinedWord>, start: nat, a: nat, b: nat)
    requires a < b <= |fragments| && Spans(fragments, start, b - a, a, b)
    ensures StandsFree(fragments, a, b)
  {
    var groups, size := Groups(fragments), b - a;
    var first, middle, rest := groups[..start], groups[start..start + size], groups[start + size..];
    SpanShares(fragments, start, size, a, b);
    GroupsAreClosed(fragments);
    AllSingle(middle);
    if a > 0 {
      AllMembersEnd(first);
      assert fragments[..a][a - 1] == groups[start - 1].last;
    }
    SinglesAreClosed(groups, start, fragments[a..b]);
    assert b < |fragments| ==> rest != [];
    forall k | a <= k < b - 1 ensures !EndsInHyphen(fragments[k].text) {
      assert fragments[a..b][k - a] == fragments[k];
    }
    assert fragments[a..b][size - 1] == fragments[b - 1];
  }

  lemma SinglesAreClosed(groups: seq<Group>, start: nat, run: seq<JoinedWord>)
    requires ClosedGroups(groups) && start + |run| <= |groups|
    requires groups[start..start + |run|] == Singles(run)
    ensures forall i :: 0 <= i < |run| && start + i < |groups| - 1 ==> !EndsInHyphen(run[i].text)
  {
    forall i | 0 <= i < |run| && start + i < |groups| - 1 ensures !EndsInHyphen(run[i].text) {
      assert groups[start + i] == groups[start..start + |run|][i] == One(run[i]);
    }
  }

  lemma SinglesMatch(groups: seq<Group>, start: nat, run: seq<JoinedWord>)
    requires start + |run| <= |groups| && groups[start..start + |run|] == Singles(run)
    ensures MatchesAt(Joined(groups), Texts(run), start)
    ensures Window(Joined(groups), start, |run|) == Rects(run)
  {
    forall i | 0 <= i < |run| ensures Joined(groups)[start + i] == run[i] {
      assert groups[start + i] == groups[start..start + |run|][i] == One(run[i]);
    }
    assert Joined(groups)[start..start + |run|] == run;
  }

  /** A match whose joined words are made of exactly the fragments from `a` to `b`. */
  ghost predicate MatchesInPlace(fragments: seq<JoinedWord>, target: seq<string>, start: nat, a: nat, b: nat)
    requires a < b
  {
    Spans(fragments, start, b - a, a, b) && MatchesAt(Joined(Groups(fragments)), target, start)
  }

  lemma FreeRunMatches(fragments: seq<JoinedWord>, target: seq<string>, a: nat, b: nat) returns (start: nat)
    requires a < b <= |fragments| && StandsFree(fragments, a, b) && target == Texts(fragments[a..b])
    ensures MatchesInPlace(fragments, target, start, a, b)
    ensures Window(Joined(Groups(fragments)), start, |target|) == Rects(fragments[a..b])
  {
    start := FreeRunSpans(fragments, a, b);
    SinglesMatch(Groups(fragments), start, fragments[a..b]);
  }

  /**
   * A run of words of the page, quoted word for word, matches at its own place if and only if no hyphen
   * joins its words to each other or to the words around them.
   */
  lemma RunMatchesInPlaceExactly(textMap: TextMap, quote: string, a: nat, b: nat)
    requires a < b <= |Fragments(textMap.words)|
    requires Words(quote) == Texts(Fragments(textMap.words)[a..b])
    ensures StandsFree(Fragments(textMap.words), a, b) <==>
      exists start: nat :: MatchesInPlace(Fragments(textMap.words), Words(quote), start, a, b)
  {
    var fragments := Fragments(textMap.words);
    if StandsFree(fragments, a, b) {
      var start := FreeRunMatches(fragments, Words(quote), a, b);
    }
    if exists start: nat :: MatchesInPlace(fragments, Words(quote), start, a, b) {
      var start: nat :| MatchesInPlace(fragments, Words(quote), start, a, b);
      SpanStandsFree(fragments, start, a, b);
    }
  }

  /** Such a run is among the occurrences, with the rectangles of its own words. */
  lemma FreeRunIsFound(textMap: TextMap, quote: string, a: nat, b: nat) returns (k: nat)
    requires a < b <= |Fragments(textMap.words)| && StandsFree(Fragments(textMap.words), a, b)
    requires Words(quote) == Texts(Fragments(textMap.words)[a..b])
    ensures k < |Occurrences(textMap, quote)| && Occurrences(textMap, quote)[k] == Rects(Fragments(textMap.words)[a..b])
  {
    var start := FreeRunMatches(Fragments(textMap.words), Words(quote), a, b);
    var starts := OccurrencesExactly(textMap, quote);
    assert start in starts;
    k :| 0 <= k < |starts| && starts[k] == start;
  }

  /**
   * A page quoted word for word is found on that page exactly if none of its words, except perhaps
   * the last, ends in a hyphen.
   */
  lemma VerbatimIsFoundExactly(textMap: TextMap, quote: string)
    requires Fragments(textMap.words) != []
    requires Words(quote) == Texts(Fragments(textMap.words))
    ensures Occurrences(textMap, quote) != [] <==> NoInnerHyphen(Fragments(textMap.words))
  {
    var fragments := Fragments(textMap.words);
    if NoInnerHyphen(fragments) {
      assert fragments[0..|fragments|] == fragments;
      var k := FreeRunIsFound(textMap, quote, 0, |fragments|);
    } else {
      var k :| 0 <= k < |fragments| - 1 && EndsInHyphen(fragments[k].text);
      InnerHyphenIsNeverFound(textMap, quote, k);
    }
  }
}
