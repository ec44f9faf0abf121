/** Locating a quotation in the words of a page: joining, matching, validation, citation. */
module Geometry {
  import opened Wrappers
  import opened Text

  // ---------------------------------------------------------------- coordinates

  /** A 64-bit float as far as comparisons tell; none of the modelled code does arithmetic on one. */
  datatype F64 = NaN | Infinite(positive: bool) | Finite(value: real)

  predicate Less(a: F64, b: F64) {
    if a.NaN? || b.NaN? then false
    else if a.Finite? && b.Finite? then a.value < b.value
    else if a.Infinite? then !a.positive && b != a
    else b.positive
  }

  predicate AtMost(a: F64, b: F64) {
    !a.NaN? && !b.NaN? && !Less(b, a)
  }

  /** `f64::max` and `f64::min` prefer the operand that is a number. */
  function Max(a: F64, b: F64): F64 {
    if a.NaN? || Less(a, b) then b else a
  }

  function Min(a: F64, b: F64): F64 {
    if a.NaN? || Less(b, a) then b else a
  }

  const Zero := Finite(0.0)

  datatype Rect = Rect(xMin: F64, yMin: F64, xMax: F64, yMax: F64)

  datatype MapWord = MapWord(text: string, rect: Rect)

  datatype TextMap = TextMap(pageNumber: nat, pageWidth: F64, pageHeight: F64, words: seq<MapWord>, digest: string)

  datatype GeometryError = NotFinite | Negative | InvertedOrEmpty | OutsidePage | QuoteNotFound | QuoteMismatch

  // ---------------------------------------------------------------- validation

  function ValidateRect(rect: Rect, pageWidth: F64, pageHeight: F64): Option<GeometryError> {
    if !rect.xMin.Finite? || !rect.yMin.Finite? || !rect.xMax.Finite? || !rect.yMax.Finite? then Some(NotFinite)
    else if Less(rect.xMin, Zero) || Less(rect.yMin, Zero) || Less(rect.xMax, Zero) || Less(rect.yMax, Zero) then Some(Negative)
    else if AtMost(rect.xMax, rect.xMin) || AtMost(rect.yMax, rect.yMin) then Some(InvertedOrEmpty)
    else if Less(pageWidth, rect.xMax) || Less(pageHeight, rect.yMax) then Some(OutsidePage)
    else None
  }

  predicate ValidRect(rect: Rect, pageWidth: F64, pageHeight: F64) {
    && rect.xMin.Finite? && rect.yMin.Finite? && rect.xMax.Finite? && rect.yMax.Finite?
    && 0.0 <= rect.xMin.value < rect.xMax.value
    && 0.0 <= rect.yMin.value < rect.yMax.value
    && !Less(pageWidth, rect.xMax) && !Less(pageHeight, rect.yMax)
  }

  lemma ValidateRectExactly(rect: Rect, pageWidth: F64, pageHeight: F64)
    ensures ValidateRect(rect, pageWidth, pageHeight) == None <==> ValidRect(rect, pageWidth, pageHeight)
    ensures ValidateRect(rect, pageWidth, pageHeight) !in {Some(QuoteNotFound), Some(QuoteMismatch)}
  {
  }

  predicate ValidRects(rects: seq<Rect>, pageWidth: F64, pageHeight: F64) {
    forall i :: 0 <= i < |rects| ==> ValidRect(rects[i], pageWidth, pageHeight)
  }

  predicate ValidWords(words: seq<MapWord>, pageWidth: F64, pageHeight: F64) {
    forall i :: 0 <= i < |words| ==> ValidRect(words[i].rect, pageWidth, pageHeight)
  }

  predicate ValidMap(textMap: TextMap) {
    ValidWords(textMap.words, textMap.pageWidth, textMap.pageHeight)
  }

  /** The error of the first word that has one. */
  ghost predicate FirstError(textMap: TextMap, error: GeometryError) {
    exists k :: 0 <= k < |textMap.words|
      && ValidWords(textMap.words[..k], textMap.pageWidth, textMap.pageHeight)
      && ValidateRect(textMap.words[k].rect, textMap.pageWidth, textMap.pageHeight) == Some(error)
  }

  method ValidateTextMap(textMap: TextMap) returns (error: Option<GeometryError>)
    ensures error == None <==> ValidMap(textMap)
    ensures error.Some? ==> FirstError(textMap, error.value)
  {
    for k := 0 to |textMap.words|
      invariant ValidWords(textMap.words[..k], textMap.pageWidth, textMap.pageHeight)
    {
      error := ValidateRect(textMap.words[k].rect, textMap.pageWidth, textMap.pageHeight);
      ValidateRectExactly(textMap.words[k].rect, textMap.pageWidth, textMap.pageHeight);
      if error.Some? {
        return;
      }
    }
    assert textMap.words[..|textMap.words|] == textMap.words;
    error := None;
  }

  // ---------------------------------------------------------------- joining hyphenated words

  datatype JoinedWord = JoinedWord(text: string, rect: Rect)

  /** The fragments of one joined word, in order: each but the last ends in a hyphen. */
  datatype Group = One(last: JoinedWord) | More(group: Group, last: JoinedWord)

  predicate EndsInHyphen(text: string) {
    text != "" && text[|text| - 1] == '-'
  }

  predicate IsGroup(g: Group) {
    && g.last.text != ""
    && (g.More? ==> EndsInHyphen(g.group.last.text) && IsGroup(g.group))
  }

  predicate AreGroups(groups: seq<Group>) {
    forall k :: 0 <= k < |groups| ==> IsGroup(groups[k])
  }

  function DropLast(text: string): string {
    if text == "" then "" else text[..|text| - 1]
  }

  function MergeRect(rect: Rect, next: Rect): Rect {
    Rect(rect.xMin, Min(rect.yMin, next.yMin), Max(rect.xMax, next.xMax), Max(rect.yMax, next.yMax))
  }

  function Merge(word: JoinedWord, next: JoinedWord): JoinedWord {
    JoinedWord(DropLast(word.text) + next.text, MergeRect(word.rect, next.rect))
  }

  /** The fragments without the hyphens that join them, and the rectangle of the whole. */
  function Merged(g: Group): JoinedWord {
    if g.One? then g.last else Merge(Merged(g.group), g.last)
  }

  /** A fragment goes with the one before it if that ends in a hyphen. */
  function AddFragment(groups: seq<Group>, w: JoinedWord): seq<Group> {
    if groups != [] && EndsInHyphen(groups[|groups| - 1].last.text)
    then groups[|groups| - 1 := More(groups[|groups| - 1], w)]
    else groups + [One(w)]
  }

  function Groups(fragments: seq<JoinedWord>): seq<Group> {
    if fragments == [] then [] else AddFragment(Groups(fragments[..|fragments| - 1]), fragments[|fragments| - 1])
  }

  predicate NoneEmpty(fragments: seq<JoinedWord>) {
    forall k :: 0 <= k < |fragments| ==> fragments[k].text != ""
  }

  lemma AddedIsGroup(groups: seq<Group>, w: JoinedWord)
    requires AreGroups(groups) && w.text != ""
    ensures AreGroups(AddFragment(groups, w))
  {
  }

  lemma {:induction false} GroupsAreGroups(fragments: seq<JoinedWord>)
    requires NoneEmpty(fragments)
    ensures AreGroups(Groups(fragments))
  {
    if fragments != [] {
      GroupsAreGroups(fragments[..|fragments| - 1]);
      AddedIsGroup(Groups(fragments[..|fragments| - 1]), fragments[|fragments| - 1]);
    }
  }

  /** The words of a page that are not blank, trimmed. */
  function Fragments(words: seq<MapWord>): (fragments: seq<JoinedWord>)
    ensures NoneEmpty(fragments)
  {
    if words == [] then []
    else
      var before, text := Fragments(words[..|words| - 1]), Trim(words[|words| - 1].text);
      if text == "" then before else before + [JoinedWord(text, words[|words| - 1].rect)]
  }

  lemma FragmentsNext(words: seq<MapWord>, k: nat, text: string)
    requires k < |words| && text == Trim(words[k].text)
    ensures Fragments(words[..k + 1]) == Fragments(words[..k]) + if text == "" then [] else [JoinedWord(text, words[k].rect)]
  {
    assert words[..k + 1][..k] == words[..k];
  }

  function Joined(groups: seq<Group>): (words: seq<JoinedWord>)
    ensures |words| == |groups|
  {
    seq(|groups|, k requires 0 <= k < |groups| => Merged(groups[k]))
  }

  /** Whether the next fragment is joined can be read off the text joined so far. */
  lemma MergedEnds(g: Group)
    requires IsGroup(g)
    ensures EndsInHyphen(Merged(g).text) <==> EndsInHyphen(g.last.text)
  {
  }

  /** What a fragment does to the joined words: it extends the last or becomes a word of its own. */
  function JoinNext(joined: seq<JoinedWord>, w: JoinedWord): seq<JoinedWord> {
    if joined != [] && EndsInHyphen(joined[|joined| - 1].text)
    then joined[|joined| - 1 := Merge(joined[|joined| - 1], w)]
    else joined + [w]
  }

  lemma JoinedNext(groups: seq<Group>, w: JoinedWord)
    requires AreGroups(groups)
    ensures Joined(AddFragment(groups, w)) == JoinNext(Joined(groups), w)
  {
    if groups != [] {
      MergedEnds(groups[|groups| - 1]);
    }
  }

  lemma JoinedGroupsNext(fragments: seq<JoinedWord>, w: JoinedWord)
    requires NoneEmpty(fragments)
    ensures Joined(Groups(fragments + [w])) == JoinNext(Joined(Groups(fragments)), w)
  {
    assert (fragments + [w])[..|fragments|] == fragments;
    GroupsAreGroups(fragments);
    JoinedNext(Groups(fragments), w);
  }

  /** The joined words of a page. */
  function JoinedWords(words: seq<MapWord>): seq<JoinedWord> {
    Joined(Groups(Fragments(words)))
  }

  lemma JoinedWordsNext(words: seq<MapWord>, k: nat, text: string)
    requires k < |words| && text == Trim(words[k].text)
    ensures JoinedWords(words[..k + 1]) ==
      if text == "" then JoinedWords(words[..k]) else JoinNext(JoinedWords(words[..k]), JoinedWord(text, words[k].rect))
  {
    FragmentsNext(words, k, text);
    if text == "" {
      assert Fragments(words[..k]) + [] == Fragments(words[..k]);
    } else {
      JoinedGroupsNext(Fragments(words[..k]), JoinedWord(text, words[k].rect));
    }
  }

  /** The loop that builds the stream of joined words, editing its last element in place. */
  method JoinWords(words: seq<MapWord>) returns (joined: seq<JoinedWord>)
    ensures joined == JoinedWords(words)
  {
    joined := [];
    for k := 0 to |words|
      invariant joined == JoinedWords(words[..k])
    {
      var text := Trim(words[k].text);
      JoinedWordsNext(words, k, text);
      if text == "" {
        continue;
      }
      if joined != [] && EndsInHyphen(joined[|joined| - 1].text) {
        var last := joined[|joined| - 1];
        last := JoinedWord(DropLast(last.text) + text, MergeRect(last.rect, words[k].rect));
        joined := joined[|joined| - 1 := last];
      } else {
        joined := joined + [JoinedWord(text, words[k].rect)];
      }
    }
    assert words[..|words|] == words;
  }

  // ---------------------------------------------------------------- matching

  /** The target's words, ignoring case, stand at `start`. */
  predicate MatchesAt(joined: seq<JoinedWord>, target: seq<string>, start: nat) {
    && start + |target| <= |joined|
    && forall i :: 0 <= i < |target| ==> EqIgnoreCase(joined[start + i].text, target[i])
  }

  function Rects(joined: seq<JoinedWord>): (rects: seq<Rect>)
    ensures |rects| == |joined|
  {
    seq(|joined|, i requires 0 <= i < |joined| => joined[i].rect)
  }

  function Window(joined: seq<JoinedWord>, start: nat, size: nat): (rects: seq<Rect>)
    requires start + size <= |joined|
    ensures |rects| == size
  {
    Rects(joined[start..start + size])
  }

  /** The matching windows that start before `bound`, in order. */
  function Windows(joined: seq<JoinedWord>, target: seq<string>, bound: nat): seq<seq<Rect>> {
    if bound == 0 then []
    else
      var before := Windows(joined, target, bound - 1);
      if MatchesAt(joined, target, bound - 1) then before + [Window(joined, bound - 1, |target|)] else before
  }

  function Occurrences(textMap: TextMap, quote: string): seq<seq<Rect>> {
    var joined := JoinedWords(textMap.words);
    if Words(quote) == [] then [] else Windows(joined, Words(quote), |joined|)
  }

  function Normalized(text: string): string {
    Join(Words(text), " ")
  }

  lemma NormalizedWords(quote: string)
    ensures Words(Normalized(quote)) == Words(quote)
    ensures Normalized(quote) == "" <==> Words(quote) == []
  {
    WordsOfJoin(Words(quote));
    if Words(quote) != [] {
      assert IsWord(Words(quote)[0]);
    }
  }

  lemma {:induction false} NoLaterWindows(joined: seq<JoinedWord>, target: seq<string>, from: nat, bound: nat)
    requires from <= bound && from + |target| > |joined|
    ensures Windows(joined, target, bound) == Windows(joined, target, from)
  {
    if from < bound {
      NoLaterWindows(joined, target, from, bound - 1);
    }
  }

  /** The comparison of one window, word by word. */
  method Matches(joined: seq<JoinedWord>, target: seq<string>, start: nat) returns (matches: bool)
    requires start + |target| <= |joined|
    ensures matches <==> MatchesAt(joined, target, start)
  {
    for i := 0 to |target|
      invariant forall j :: 0 <= j < i ==> EqIgnoreCase(joined[start + j].text, target[j])
    {
      if !EqIgnoreCase(joined[start + i].text, target[i]) {
        return false;
      }
    }
    return true;
  }

  method FindOccurrences(textMap: TextMap, quote: string) returns (occurrences: seq<seq<Rect>>)
    ensures occurrences == Occurrences(textMap, quote)
  {
    var target := Normalized(quote);
    NormalizedWords(quote);
    if target == "" {
      return [];
    }
    var joined := JoinWords(textMap.words);
    var targetWords := Words(target);
    occurrences := [];
    var start := 0;
    while start + |targetWords| <= |joined|
      invariant start <= |joined|
      invariant occurrences == Windows(joined, targetWords, start)
    {
      var matches := Matches(joined, targetWords, start);
      if matches {
        occurrences := occurrences + [Window(joined, start, |targetWords|)];
      }
      start := start + 1;
    }
    NoLaterWindows(joined, targetWords, start, |joined|);
  }

  // ---------------------------------------------------------------- citing

  datatype PageCitation = PageCitation(quote: string, pageNumber: nat, rects: seq<Rect>, range: (nat, nat), textMapDigest: string)

  method BuildPageCitation(textMap: TextMap, quote: string, occurrenceIndex: nat, range: (nat, nat))
    returns (r: Result<PageCitation, GeometryError>)
    ensures ValidMap(textMap) && occurrenceIndex >= |Occurrences(textMap, quote)| ==> r == Err(QuoteNotFound)
    ensures !ValidMap(textMap) ==> r.Err? && FirstError(textMap, r.error)
    ensures ValidMap(textMap) && occurrenceIndex < |Occurrences(textMap, quote)| ==>
      r.Ok? && Cites(textMap, quote, occurrenceIndex, r.value) && r.value.range == range
  {
    var error := ValidateTextMap(textMap);
    if error.Some? {
      return Err(error.value);
    }
    var occurrences := FindOccurrences(textMap, quote);
    if occurrenceIndex >= |occurrences| {
      return Err(QuoteNotFound);
    }
    var rects := occurrences[occurrenceIndex];
    OccurrencesAreValid(textMap, quote, occurrenceIndex);
    if rects == [] {
      // an occurrence has a rectangle for each word of the quote
      assert false;
    }
    for i := 0 to |rects| {
      ValidateRectExactly(rects[i], textMap.pageWidth, textMap.pageHeight);
      var wrong := ValidateRect(rects[i], textMap.pageWidth, textMap.pageHeight);
      if wrong.Some? {
        // joining valid rectangles makes valid ones
        assert false;
      }
    }
    return Ok(PageCitation(quote, textMap.pageNumber, rects, range, textMap.digest));
  }

  lemma MergedIsValid(a: Rect, b: Rect, w: F64, h: F64)
    requires ValidRect(a, w, h) && ValidRect(b, w, h)
    ensures ValidRect(MergeRect(a, b), w, h)
  {
  }

  predicate ValidGroup(g: Group, w: F64, h: F64) {
    ValidRect(g.last.rect, w, h) && (g.More? ==> ValidGroup(g.group, w, h))
  }

  lemma {:induction false} GroupIsValid(g: Group, w: F64, h: F64)
    requires ValidGroup(g, w, h)
    ensures ValidRect(Merged(g).rect, w, h)
  {
    if g.More? {
      GroupIsValid(g.group, w, h);
      MergedIsValid(Merged(g.group).rect, g.last.rect, w, h);
    }
  }

  predicate ValidGroups(groups: seq<Group>, w: F64, h: F64) {
    forall k :: 0 <= k < |groups| ==> ValidGroup(groups[k], w, h)
  }

  predicate ValidFragments(fragments: seq<JoinedWord>, w: F64, h: F64) {
    forall k :: 0 <= k < |fragments| ==> ValidRect(fragments[k].rect, w, h)
  }

  lemma {:induction false} FragmentsAreValid(words: seq<MapWord>, w: F64, h: F64)
    requires ValidWords(words, w, h)
    ensures ValidFragments(Fragments(words), w, h)
  {
    if words != [] {
      FragmentsAreValid(words[..|words| - 1], w, h);
    }
  }

  lemma AddedIsValid(groups: seq<Group>, next: JoinedWord, w: F64, h: F64)
    requires ValidGroups(groups, w, h) && ValidRect(next.rect, w, h)
    ensures ValidGroups(AddFragment(groups, next), w, h)
  {
  }

  lemma {:induction false} GroupsAreValid(fragments: seq<JoinedWord>, w: F64, h: F64)
    requires ValidFragments(fragments, w, h)
    ensures ValidGroups(Groups(fragments), w, h)
  {
    if fragments != [] {
      GroupsAreValid(fragments[..|fragments| - 1], w, h);
      AddedIsValid(Groups(fragments[..|fragments| - 1]), fragments[|fragments| - 1], w, h);
    }
  }

  lemma JoinedIsValid(words: seq<MapWord>, w: F64, h: F64)
    requires ValidWords(words, w, h)
    ensures ValidFragments(JoinedWords(words), w, h)
  {
    var groups := Groups(Fragments(words));
    FragmentsAreValid(words, w, h);
    GroupsAreValid(Fragments(words), w, h);
    forall k | 0 <= k < |groups| ensures ValidRect(Joined(groups)[k].rect, w, h) {
      GroupIsValid(groups[k], w, h);
    }
  }

  lemma {:induction false} WindowsAreRects(joined: seq<JoinedWord>, target: seq<string>, bound: nat, k: nat)
    requires k < |Windows(joined, target, bound)|
    ensures |Windows(joined, target, bound)[k]| == |target|
    ensures forall i :: 0 <= i < |target| ==> Windows(joined, target, bound)[k][i] in Rects(joined)
  {
    if k < |Windows(joined, target, bound - 1)| {
      WindowsAreRects(joined, target, bound - 1, k);
    } else {
      var start := bound - 1;
      forall i | 0 <= i < |target| ensures Window(joined, start, |target|)[i] in Rects(joined) {
        assert Window(joined, start, |target|)[i] == Rects(joined)[start + i];
      }
    }
  }

  /** Where the words of a page are valid, so is every rectangle of an occurrence, and there is at least one. */
  lemma OccurrencesAreValid(textMap: TextMap, quote: string, k: nat)
    requires ValidMap(textMap) && k < |Occurrences(textMap, quote)|
    ensures |Occurrences(textMap, quote)[k]| == |Words(quote)| > 0
    ensures ValidRects(Occurrences(textMap, quote)[k], textMap.pageWidth, textMap.pageHeight)
  {
    var joined := JoinedWords(textMap.words);
    WindowsAreRects(joined, Words(quote), |joined|, k);
    JoinedIsValid(textMap.words, textMap.pageWidth, textMap.pageHeight);
  }

  datatype CiteError = Geometry(error: GeometryError) | NotInMaps

  /** Nothing is cited from these pages, and none stops the search. */
  ghost predicate Passed(maps: seq<TextMap>, quote: string, occurrenceIndex: nat) {
    forall i :: 0 <= i < |maps| ==> ValidMap(maps[i]) && occurrenceIndex >= |Occurrences(maps[i], quote)|
  }

  predicate Cites(textMap: TextMap, quote: string, occurrenceIndex: nat, c: PageCitation) {
    && ValidMap(textMap) && occurrenceIndex < |Occurrences(textMap, quote)|
    && c.rects == Occurrences(textMap, quote)[occurrenceIndex]
    && c.quote == quote && c.pageNumber == textMap.pageNumber && c.textMapDigest == textMap.digest
  }

  /**
   * The first page that is invalid or has the occurrence decides. Beyond the validation of the pages
   * that are searched, no check can fail.
   */
  method CiteQuote(maps: seq<TextMap>, quote: string, occurrenceIndex: nat, rangeOf: (TextMap, string) -> Option<(nat, nat)>)
    returns (r: Result<PageCitation, CiteError>, page: nat)
    ensures page <= |maps| && Passed(maps[..page], quote, occurrenceIndex)
    ensures r == Err(NotInMaps) <==> page == |maps|
    ensures r.Ok? ==> page < |maps| && Cites(maps[page], quote, occurrenceIndex, r.value)
    ensures r.Err? && r.error.Geometry? ==> page < |maps| && FirstError(maps[page], r.error.error)
  {
    page := 0;
    for k := 0 to |maps|
      invariant page == k && Passed(maps[..k], quote, occurrenceIndex)
    {
      var error := ValidateTextMap(maps[k]);
      if error.Some? {
        return Err(Geometry(error.value)), page;
      }
      var occurrences := FindOccurrences(maps[k], quote);
      if occurrenceIndex < |occurrences| {
        var range := rangeOf(maps[k], quote);
        var citation := BuildPageCitation(maps[k], quote, occurrenceIndex, if range.Some? then range.value else (0, 0));
        if citation.Err? {
          // every check of the builder has already been made
          assert false;
        }
        return Ok(citation.value), page;
      }
      PassedNext(maps, k, quote, occurrenceIndex);
      page := k + 1;
    }
    r := Err(NotInMaps);
  }

  lemma PassedNext(maps: seq<TextMap>, k: nat, quote: string, occurrenceIndex: nat)
    requires k < |maps| && Passed(maps[..k], quote, occurrenceIndex)
    requires ValidMap(maps[k]) && occurrenceIndex >= |Occurrences(maps[k], quote)|
    ensures Passed(maps[..k + 1], quote, occurrenceIndex)
  {
    forall i | 0 <= i < k + 1 ensures ValidMap(maps[i]) && occurrenceIndex >= |Occurrences(maps[i], quote)| {
      if i < k {
        assert maps[..k][i] == maps[i];
      }
    }
  }
}
