/** What the chain loops compute: an exact partition of the related event pairs into links
    and evidence gaps, each under the least identifier that the two events share. */
module ChainPartition {
  import opened Wrappers
  import opened Text
  import opened Sorting
  import opened OrderedMap
  import opened Chain
  import opened Identifiers

  // ---------------------------------------------------------------- the specification

  predicate Staged(event: Event) {
    StageOf(event.kind).Some?
  }

  function OccurrenceOf(event: Event): Occurrence
    requires Staged(event)
  {
    Occurrence(StageOf(event.kind).value, event)
  }

  predicate Maps(normalized: Normalized, id: string, key: string) {
    id in normalized && normalized[id] == key
  }

  predicate HasKey(normalized: Normalized, event: Event, key: string) {
    exists i :: 0 <= i < |event.identifierIds| && Maps(normalized, event.identifierIds[i], key)
  }

  /** The two events stand in different chain stages and share the identifier `key`. */
  predicate Shares(normalized: Normalized, a: Event, b: Event, key: string) {
    && Staged(a) && Staged(b) && StageOf(a.kind) != StageOf(b.kind)
    && HasKey(normalized, a, key) && HasKey(normalized, b, key)
  }

  ghost predicate LeastShared(normalized: Normalized, a: Event, b: Event, key: string) {
    Shares(normalized, a, b, key) && forall k :: Shares(normalized, a, b, k) ==> StrLe(key, k)
  }

  /** Event ids are distinct, as primary keys are, and hold no NUL, as stable ids do not. */
  predicate ProperIds(events: seq<Event>) {
    && (forall p :: 0 <= p < |events| ==> NulFree(events[p].id))
    && (forall p, q :: 0 <= p < q < |events| ==> events[p].id != events[q].id)
  }

  /** `c` is the candidate for the events at two positions, under their least shared identifier. */
  ghost predicate Related(normalized: Normalized, events: seq<Event>, c: Candidate) {
    exists p, q :: RelatedAt(normalized, events, c, p, q)
  }

  ghost predicate RelatedAt(normalized: Normalized, events: seq<Event>, c: Candidate, p: int, q: int) {
    && 0 <= p < q < |events|
    && LeastShared(normalized, events[p], events[q], c.normalized)
    && c == Candidate(c.normalized, OccurrenceOf(events[p]), OccurrenceOf(events[q]))
  }

  /** Every related pair is exactly one link or exactly one gap, and there is nothing else. */
  ghost predicate Partition(snapshots: Snapshots, normalized: Normalized, events: seq<Event>, links: seq<Link>, gaps: seq<Gap>) {
    && (forall l :: l in links <==> exists c :: Related(normalized, events, c) && Linkable(snapshots, c) && l == LinkOf(snapshots, c))
    && (forall g :: g in gaps <==> exists c :: Related(normalized, events, c) && !Linkable(snapshots, c) && g == GapOf(snapshots, c))
    && (forall l :: multiset(links)[l] <= 1)
    && (forall g :: multiset(gaps)[g] <= 1)
  }

  method BuildChain(snapshots: Snapshots, normalized: Normalized, events: seq<Event>) returns (links: seq<Link>, gaps: seq<Gap>)
    requires ProperIds(events)
    ensures Partition(snapshots, normalized, events, links, gaps)
    ensures Sorted(links, LinkLe) && Sorted(gaps, GapLe)
  {
    var index := BuildIndex(normalized, events);
    links, gaps := BuildLinksAndGaps(snapshots, index);
    IsPartition(snapshots, normalized, events, index);
    OrdersAreTotal();
    SortBySorts(LinksOf(snapshots, Kept(AllPairs(index))), LinkLe);
    SortBySorts(GapsOf(snapshots, Kept(AllPairs(index))), GapLe);
  }

  // ---------------------------------------------------------------- positions of occurrences

  lemma {:induction false} OccurrencesInAre(normalized: Normalized, occ: Occurrence, ids: seq<string>, key: string)
    ensures forall i :: 0 <= i < |OccurrencesIn(normalized, occ, ids, key)| ==> OccurrencesIn(normalized, occ, ids, key)[i] == occ
    ensures OccurrencesIn(normalized, occ, ids, key) != [] <==> exists i :: 0 <= i < |ids| && Maps(normalized, ids[i], key)
  {
    if ids != [] {
      var n := |ids| - 1;
      OccurrencesInAre(normalized, occ, ids[..n], key);
      if Maps(normalized, ids[n], key) {
      } else if exists i :: 0 <= i < |ids| && Maps(normalized, ids[i], key) {
        var i :| 0 <= i < |ids| && Maps(normalized, ids[i], key);
        assert ids[..n][i] == ids[i];
      }
      if OccurrencesIn(normalized, occ, ids[..n], key) != [] {
        var i :| 0 <= i < n && Maps(normalized, ids[..n][i], key);
        assert ids[i] == ids[..n][i];
      }
    }
  }

  /** What the last event adds to the occurrences of `key`. */
  lemma LastOccurrences(normalized: Normalized, events: seq<Event>, key: string) returns (added: seq<Occurrence>)
    requires events != []
    ensures OccurrencesOf(normalized, events, key) == OccurrencesOf(normalized, events[..|events| - 1], key) + added
    ensures var last := events[|events| - 1];
      && (added != [] <==> Staged(last) && HasKey(normalized, last, key))
      && (Staged(last) ==> forall i :: 0 <= i < |added| ==> added[i] == OccurrenceOf(last))
  {
    var last := events[|events| - 1];
    if Staged(last) {
      added := OccurrencesIn(normalized, OccurrenceOf(last), last.identifierIds, key);
      OccurrencesInAre(normalized, OccurrenceOf(last), last.identifierIds, key);
    } else {
      added := [];
    }
  }

  ghost predicate IsOccurrence(normalized: Normalized, events: seq<Event>, key: string, i: nat, p: nat) {
    && i < |OccurrencesOf(normalized, events, key)| && p < |events|
    && Staged(events[p]) && HasKey(normalized, events[p], key)
    && OccurrencesOf(normalized, events, key)[i] == OccurrenceOf(events[p])
  }

  lemma {:induction false} EventAt(normalized: Normalized, events: seq<Event>, key: string, i: nat) returns (p: nat)
    requires i < |OccurrencesOf(normalized, events, key)|
    ensures IsOccurrence(normalized, events, key, i, p)
  {
    var front := events[..|events| - 1];
    var added := LastOccurrences(normalized, events, key);
    if i < |OccurrencesOf(normalized, front, key)| {
      p := EventAt(normalized, front, key, i);
      assert front[p] == events[p];
    } else {
      p := |events| - 1;
      assert OccurrencesOf(normalized, events, key)[i] == added[i - |OccurrencesOf(normalized, front, key)|];
    }
  }

  /** Occurrences appear in the order of their events. */
  lemma {:induction false} EventsAt(normalized: Normalized, events: seq<Event>, key: string, i: nat, j: nat) returns (p: nat, q: nat)
    requires i < j < |OccurrencesOf(normalized, events, key)|
    ensures p <= q && IsOccurrence(normalized, events, key, i, p) && IsOccurrence(normalized, events, key, j, q)
  {
    var front := events[..|events| - 1];
    var added := LastOccurrences(normalized, events, key);
    var n := |OccurrencesOf(normalized, front, key)|;
    if j < n {
      p, q := EventsAt(normalized, front, key, i, j);
      assert front[p] == events[p] && front[q] == events[q];
    } else {
      p := EventAt(normalized, events, key, i);
      q := |events| - 1;
      assert OccurrencesOf(normalized, events, key)[j] == added[j - n];
    }
  }

  lemma {:induction false} OccurrenceAt(normalized: Normalized, events: seq<Event>, key: string, p: nat) returns (i: nat)
    requires p < |events| && Staged(events[p]) && HasKey(normalized, events[p], key)
    ensures IsOccurrence(normalized, events, key, i, p)
  {
    var front := events[..|events| - 1];
    var added := LastOccurrences(normalized, events, key);
    var n := |OccurrencesOf(normalized, front, key)|;
    if p < |events| - 1 {
      assert front[p] == events[p];
      i := OccurrenceAt(normalized, front, key, p);
    } else {
      i := n;
      assert OccurrencesOf(normalized, events, key)[n] == added[0];
    }
  }

  lemma {:induction false} OccurrencesAt(normalized: Normalized, events: seq<Event>, key: string, p: nat, q: nat) returns (i: nat, j: nat)
    requires p < q < |events| && Staged(events[p]) && Staged(events[q])
    requires HasKey(normalized, events[p], key) && HasKey(normalized, events[q], key)
    ensures i < j && IsOccurrence(normalized, events, key, i, p) && IsOccurrence(normalized, events, key, j, q)
  {
    var front := events[..|events| - 1];
    var added := LastOccurrences(normalized, events, key);
    var n := |OccurrencesOf(normalized, front, key)|;
    assert front[p] == events[p];
    if q < |events| - 1 {
      assert front[q] == events[q];
      i, j := OccurrencesAt(normalized, front, key, p, q);
    } else {
      i := OccurrenceAt(normalized, front, key, p);
      j := n;
      assert OccurrencesOf(normalized, events, key)[n] == added[0];
    }
  }

  // ---------------------------------------------------------------- membership of candidates

  ghost predicate PairAt(key: string, occ: seq<Occurrence>, c: Candidate, i: int, j: int) {
    0 <= i < j < |occ| && occ[i].stage != occ[j].stage && c == Candidate(key, occ[i], occ[j])
  }

  lemma {:induction false} InPairsWith(key: string, from: Occurrence, rest: seq<Occurrence>, c: Candidate)
    ensures c in PairsWith(key, from, rest) <==>
      exists j :: 0 <= j < |rest| && from.stage != rest[j].stage && c == Candidate(key, from, rest[j])
  {
    if rest != [] {
      InPairsWith(key, from, rest[1..], c);
      assert forall j :: 0 <= j < |rest[1..]| ==> rest[1..][j] == rest[j + 1];
      assert forall j :: 1 <= j < |rest| ==> rest[j] == rest[1..][j - 1];
    }
  }

  lemma {:induction false} InPairsIn(key: string, occ: seq<Occurrence>, c: Candidate)
    ensures c in PairsIn(key, occ) <==> exists i, j :: PairAt(key, occ, c, i, j)
  {
    if occ != [] {
      var rest := occ[1..];
      InPairsWith(key, occ[0], rest, c);
      InPairsIn(key, rest, c);
      if c in PairsWith(key, occ[0], rest) {
        var j :| 0 <= j < |rest| && occ[0].stage != rest[j].stage && c == Candidate(key, occ[0], rest[j]);
        assert PairAt(key, occ, c, 0, j + 1);
      } else if c in PairsIn(key, rest) {
        var i, j :| PairAt(key, rest, c, i, j);
        assert PairAt(key, occ, c, i + 1, j + 1);
      }
      if exists i, j :: PairAt(key, occ, c, i, j) {
        var i, j :| PairAt(key, occ, c, i, j);
        assert rest[j - 1] == occ[j];
        if i > 0 {
          assert PairAt(key, rest, c, i - 1, j - 1);
        }
      }
    }
  }

  lemma {:induction false} InAllPairs(index: ByIdentifier, c: Candidate)
    requires Ordered(index)
    ensures c in AllPairs(index) <==>
      Lookup(index, c.normalized).Some? && c in PairsIn(c.normalized, Lookup(index, c.normalized).value)
  {
    if index != [] {
      var (key, occ) := index[0];
      InPairsIn(key, occ, c);
      InAllPairs(index[1..], c);
      LookupIsMember(index[1..], key);
    }
  }

  lemma LaterKeys(index: ByIdentifier, c: Candidate)
    requires Ordered(index) && index != [] && c in AllPairs(index[1..])
    ensures StrLe(index[0].0, c.normalized)
  {
    InAllPairs(index[1..], c);
    LookupIsMember(index[1..], c.normalized);
    var n :| 0 <= n < |index[1..]| && index[1..][n].0 == c.normalized;
    assert Before(index[0].0, index[n + 1].0);
  }

  /** The candidates are produced in the order of their identifiers. */
  lemma {:induction false} AllPairsInKeyOrder(index: ByIdentifier, i: nat, j: nat)
    requires Ordered(index) && i < j < |AllPairs(index)|
    ensures StrLe(AllPairs(index)[i].normalized, AllPairs(index)[j].normalized)
  {
    var (key, occ) := index[0];
    var first, rest := PairsIn(key, occ), AllPairs(index[1..]);
    assert AllPairs(index) == first + rest;
    if i >= |first| {
      AllPairsInKeyOrder(index[1..], i - |first|, j - |first|);
    } else {
      InPairsIn(key, occ, first[i]);
      if j < |first| {
        InPairsIn(key, occ, first[j]);
        StrIsTotalOrder();
      } else {
        LaterKeys(index, rest[j - |first|]);
      }
    }
  }

  ghost predicate SharedAt(normalized: Normalized, events: seq<Event>, c: Candidate, p: int, q: int) {
    && 0 <= p < q < |events|
    && Shares(normalized, events[p], events[q], c.normalized)
    && c == Candidate(c.normalized, OccurrenceOf(events[p]), OccurrenceOf(events[q]))
  }

  /** The candidates are exactly the ordered event pairs, once per shared identifier. */
  lemma CandidatesExactly(normalized: Normalized, events: seq<Event>, index: ByIdentifier, c: Candidate)
    requires Indexes(index, normalized, events)
    ensures c in AllPairs(index) <==> exists p, q :: SharedAt(normalized, events, c, p, q)
  {
    var key := c.normalized;
    var occ := OccurrencesOf(normalized, events, key);
    assert Lookup(index, key) == NonEmpty(occ);
    InAllPairs(index, c);
    InPairsIn(key, occ, c);
    if c in AllPairs(index) {
      var i, j :| PairAt(key, occ, c, i, j);
      var p, q := EventsAt(normalized, events, key, i, j);
      assert p != q;
      assert SharedAt(normalized, events, c, p, q);
    }
    if exists p, q :: SharedAt(normalized, events, c, p, q) {
      var p, q :| SharedAt(normalized, events, c, p, q);
      var i, j := OccurrencesAt(normalized, events, key, p, q);
      assert PairAt(key, occ, c, i, j);
    }
  }

  // ---------------------------------------------------------------- the first candidate of each pair

  ghost predicate FirstAt(cands: seq<Candidate>, c: Candidate, i: int) {
    0 <= i < |cands| && cands[i] == c && forall j :: 0 <= j < i ==> PairKey(cands[j]) != PairKey(c)
  }

  lemma FirstAtNext(front: seq<Candidate>, last: Candidate, c: Candidate)
    ensures (exists i :: FirstAt(front + [last], c, i)) <==>
      (exists i :: FirstAt(front, c, i)) || (c == last && PairKey(last) !in Keys(front))
  {
    var cands, n := front + [last], |front|;
    assert forall j :: 0 <= j < n ==> cands[j] == front[j];
    if exists i :: FirstAt(front, c, i) {
      var i :| FirstAt(front, c, i);
      assert FirstAt(cands, c, i);
    }
    if c == last && PairKey(last) !in Keys(front) {
      assert forall j :: 0 <= j < n ==> cands[j] in front;
      assert FirstAt(cands, c, n);
    }
    if exists i :: FirstAt(cands, c, i) {
      var i :| FirstAt(cands, c, i);
      if i < n {
        assert FirstAt(front, c, i);
      } else {
        forall d | d in front
          ensures PairKey(d) != PairKey(c)
        {
          var j :| 0 <= j < n && front[j] == d;
          assert cands[j] == d;
        }
      }
    }
  }

  lemma {:induction false} KeptExactly(cands: seq<Candidate>, c: Candidate)
    ensures c in Kept(cands) <==> exists i :: FirstAt(cands, c, i)
  {
    if cands != [] {
      var front, last := cands[..|cands| - 1], cands[|cands| - 1];
      KeptExactly(front, c);
      assert cands == front + [last];
      FirstAtNext(front, last, c);
    }
  }

  lemma {:induction false} KeptAreCandidates(cands: seq<Candidate>)
    ensures Keys(Kept(cands)) == Keys(cands)
    ensures forall i, j :: 0 <= i < j < |Kept(cands)| ==> PairKey(Kept(cands)[i]) != PairKey(Kept(cands)[j])
  {
    if cands != [] {
      var front, last := cands[..|cands| - 1], cands[|cands| - 1];
      KeptAreCandidates(front);
      assert cands == front + [last];
      KeptNext(front, last);
      if PairKey(last) !in Keys(front) {
        KeptNext(Kept(front), last);
        DistinctNext(Kept(front), last);
      }
    }
  }

  lemma DistinctNext(kept: seq<Candidate>, last: Candidate)
    requires forall i, j :: 0 <= i < j < |kept| ==> PairKey(kept[i]) != PairKey(kept[j])
    requires PairKey(last) !in Keys(kept)
    ensures forall i, j :: 0 <= i < j < |kept + [last]| ==> PairKey((kept + [last])[i]) != PairKey((kept + [last])[j])
  {
    forall i | 0 <= i < |kept| ensures PairKey(kept[i]) != PairKey(last) {
      assert kept[i] in kept;
    }
  }

  lemma PairKeyNamesPositions(normalized: Normalized, events: seq<Event>, c: Candidate, p: int, q: int, d: Candidate, p': int, q': int)
    requires ProperIds(events)
    requires SharedAt(normalized, events, c, p, q) && SharedAt(normalized, events, d, p', q')
    requires PairKey(c) == PairKey(d)
    ensures p == p' && q == q'
  {
    SplitAtFirst(events[p].id, '\0', events[q].id, events[p'].id, events[q'].id);
  }

  /** Kept are exactly the related pairs, each under its least shared identifier. */
  lemma KeptAreRelated(normalized: Normalized, events: seq<Event>, index: ByIdentifier, c: Candidate)
    requires ProperIds(events) && Indexes(index, normalized, events)
    ensures c in Kept(AllPairs(index)) <==> Related(normalized, events, c)
  {
    var cands := AllPairs(index);
    KeptExactly(cands, c);
    if c in Kept(cands) {
      var i :| FirstAt(cands, c, i);
      CandidatesExactly(normalized, events, index, c);
      var p, q :| SharedAt(normalized, events, c, p, q);
      forall k | Shares(normalized, events[p], events[q], k)
        ensures StrLe(c.normalized, k)
      {
        FirstIsLeast(normalized, events, index, c, i, p, q, k);
      }
      assert RelatedAt(normalized, events, c, p, q);
    }
    if Related(normalized, events, c) {
      var p, q :| RelatedAt(normalized, events, c, p, q);
      assert SharedAt(normalized, events, c, p, q);
      CandidatesExactly(normalized, events, index, c);
      assert PairKey(c) in Keys(cands);
      KeptAreCandidates(cands);
      var d :| d in Kept(cands) && PairKey(d) == PairKey(c);
      KeptExactly(cands, d);
      var i :| FirstAt(cands, d, i);
      CandidatesExactly(normalized, events, index, d);
      var p', q' :| SharedAt(normalized, events, d, p', q');
      PairKeyNamesPositions(normalized, events, c, p, q, d, p', q');
      FirstIsLeast(normalized, events, index, d, i, p, q, c.normalized);
      StrIsTotalOrder();
      assert c.normalized == d.normalized;
    }
  }

  lemma FirstIsLeast(normalized: Normalized, events: seq<Event>, index: ByIdentifier, c: Candidate, i: int, p: int, q: int, k: string)
    requires ProperIds(events) && Indexes(index, normalized, events)
    requires FirstAt(AllPairs(index), c, i) && SharedAt(normalized, events, c, p, q)
    requires Shares(normalized, events[p], events[q], k)
    ensures StrLe(c.normalized, k)
  {
    var cands := AllPairs(index);
    var other := Candidate(k, c.from, c.to);
    assert SharedAt(normalized, events, other, p, q);
    CandidatesExactly(normalized, events, index, other);
    var j :| 0 <= j < |cands| && cands[j] == other;
    assert PairKey(other) == PairKey(c);
    if i < j {
      AllPairsInKeyOrder(index, i, j);
    } else {
      StrIsTotalOrder();
    }
  }

  // ---------------------------------------------------------------- from candidates to output

  predicate DistinctPairs(cands: seq<Candidate>) {
    forall i, j :: 0 <= i < j < |cands| ==> PairKey(cands[i]) != PairKey(cands[j])
  }

  lemma {:induction false} ResolvedNames(snapshots: Snapshots, eventId: string, evidenceIds: seq<string>)
    ensures ResolveIn(snapshots, eventId, evidenceIds).Some? ==> ResolveIn(snapshots, eventId, evidenceIds).value.eventId == eventId
  {
    if evidenceIds != [] {
      ResolvedNames(snapshots, eventId, evidenceIds[1..]);
    }
  }

  function LinkPair(l: Link): string {
    l.fromEvidence.eventId + "\0" + l.toEvidence.eventId
  }

  function GapPair(g: Gap): string {
    g.fromEventId + "\0" + g.toEventId
  }

  lemma LinkNames(snapshots: Snapshots, c: Candidate)
    requires Linkable(snapshots, c)
    ensures LinkOf(snapshots, c).fromEvidence.eventId == c.from.event.id
    ensures LinkOf(snapshots, c).toEvidence.eventId == c.to.event.id
  {
    ResolvedNames(snapshots, c.from.event.id, c.from.event.evidenceIds);
    ResolvedNames(snapshots, c.to.event.id, c.to.event.evidenceIds);
  }

  lemma LinkPairOf(snapshots: Snapshots, c: Candidate)
    requires Linkable(snapshots, c)
    ensures LinkPair(LinkOf(snapshots, c)) == PairKey(c)
  {
    LinkNames(snapshots, c);
  }

  lemma FrontHasOtherPairs(cands: seq<Candidate>)
    requires DistinctPairs(cands) && cands != []
    ensures forall c :: c in cands[..|cands| - 1] ==> PairKey(c) != PairKey(cands[|cands| - 1])
  {
    forall c | c in cands[..|cands| - 1] ensures PairKey(c) != PairKey(cands[|cands| - 1]) {
      var i :| 0 <= i < |cands| - 1 && cands[i] == c;
    }
  }

  lemma LinkIsNew(snapshots: Snapshots, cands: seq<Candidate>)
    requires cands != [] && DistinctPairs(cands) && Linkable(snapshots, cands[|cands| - 1])
    ensures forall c :: c in cands[..|cands| - 1] && Linkable(snapshots, c) ==>
      LinkOf(snapshots, c) != LinkOf(snapshots, cands[|cands| - 1])
  {
    FrontHasOtherPairs(cands);
    LinkPairOf(snapshots, cands[|cands| - 1]);
    forall c | c in cands[..|cands| - 1] && Linkable(snapshots, c)
      ensures LinkOf(snapshots, c) != LinkOf(snapshots, cands[|cands| - 1])
    {
      LinkPairOf(snapshots, c);
    }
  }

  lemma {:induction false} LinksExactly(snapshots: Snapshots, cands: seq<Candidate>, l: Link)
    requires DistinctPairs(cands)
    ensures l in LinksOf(snapshots, cands) <==> exists c :: c in cands && Linkable(snapshots, c) && l == LinkOf(snapshots, c)
    ensures multiset(LinksOf(snapshots, cands))[l] <= 1
  {
    if cands != [] {
      var n := |cands| - 1;
      var front, last := cands[..n], cands[n];
      assert cands == front + [last];
      LinksExactly(snapshots, front, l);
      if Linkable(snapshots, last) {
        LinkIsNew(snapshots, cands);
      }
    }
  }

  lemma {:induction false} GapsExactly(snapshots: Snapshots, cands: seq<Candidate>, g: Gap)
    requires DistinctPairs(cands)
    ensures g in GapsOf(snapshots, cands) <==> exists c :: c in cands && !Linkable(snapshots, c) && g == GapOf(snapshots, c)
    ensures multiset(GapsOf(snapshots, cands))[g] <= 1
  {
    if cands != [] {
      var n := |cands| - 1;
      var front, last := cands[..n], cands[n];
      assert cands == front + [last];
      GapsExactly(snapshots, front, g);
      FrontHasOtherPairs(cands);
      if !Linkable(snapshots, last) {
        forall c | c in front && !Linkable(snapshots, c) ensures GapOf(snapshots, c) != GapOf(snapshots, last) {
          assert GapPair(GapOf(snapshots, c)) == PairKey(c);
          assert GapPair(GapOf(snapshots, last)) == PairKey(last);
        }
      }
    }
  }

  lemma IsPartition(snapshots: Snapshots, normalized: Normalized, events: seq<Event>, index: ByIdentifier)
    requires ProperIds(events) && Indexes(index, normalized, events)
    ensures var kept := Kept(AllPairs(index));
      Partition(snapshots, normalized, events,
                SortBy(LinksOf(snapshots, kept), LinkLe), SortBy(GapsOf(snapshots, kept), GapLe))
  {
    var kept := Kept(AllPairs(index));
    KeptAreCandidates(AllPairs(index));
    forall c
      ensures c in kept <==> Related(normalized, events, c)
    {
      KeptAreRelated(normalized, events, index, c);
    }
    LinksArePartitioned(snapshots, normalized, events, kept);
    GapsArePartitioned(snapshots, normalized, events, kept);
  }

  lemma LinksArePartitioned(snapshots: Snapshots, normalized: Normalized, events: seq<Event>, kept: seq<Candidate>)
    requires DistinctPairs(kept) && forall c :: c in kept <==> Related(normalized, events, c)
    ensures var links := SortBy(LinksOf(snapshots, kept), LinkLe);
      forall l :: multiset(links)[l] <= 1 &&
        (l in links <==> exists c :: Related(normalized, events, c) && Linkable(snapshots, c) && l == LinkOf(snapshots, c))
  {
    SameMembers(LinksOf(snapshots, kept), SortBy(LinksOf(snapshots, kept), LinkLe));
    forall l {
      LinksExactly(snapshots, kept, l);
    }
  }

  lemma GapsArePartitioned(snapshots: Snapshots, normalized: Normalized, events: seq<Event>, kept: seq<Candidate>)
    requires DistinctPairs(kept) && forall c :: c in kept <==> Related(normalized, events, c)
    ensures var gaps := SortBy(GapsOf(snapshots, kept), GapLe);
      forall g :: multiset(gaps)[g] <= 1 &&
        (g in gaps <==> exists c :: Related(normalized, events, c) && !Linkable(snapshots, c) && g == GapOf(snapshots, c))
  {
    SameMembers(GapsOf(snapshots, kept), SortBy(GapsOf(snapshots, kept), GapLe));
    forall g {
      GapsExactly(snapshots, kept, g);
    }
  }

  lemma OrdersAreTotal()
    ensures TotalPreorder(LinkLe) && TotalPreorder(GapLe)
  {
    StrIsTotalOrder();
  }
}
