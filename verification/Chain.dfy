/** The procurement chain: cross-stage links between events that share a normalized
    identifier, accepted only with digest-bound evidence on both sides. */
module Chain {
  import opened Wrappers
  import opened Text
  import opened Sorting
  import opened OrderedMap

  datatype EventKind =
    | SolicitationPublished | AmendmentPublished | QuestionsAndAnswersPublished | SubmissionDeadlineChanged
    | AwardAnnounced | ContractExecuted | ContractAmended | ExpenditureReported
    | RecordCorrected | RecordRemoved | UnknownKind

  datatype Stage = Solicitation | Amendment | Award | Contract | Expenditure

  function Index(s: Stage): nat {
    match s
    case Solicitation => 0
    case Amendment => 1
    case Award => 2
    case Contract => 3
    case Expenditure => 4
  }

  function StageOf(kind: EventKind): Option<Stage> {
    match kind
    case SolicitationPublished | QuestionsAndAnswersPublished | SubmissionDeadlineChanged => Some(Solicitation)
    case AmendmentPublished => Some(Amendment)
    case AwardAnnounced => Some(Award)
    case ContractExecuted | ContractAmended => Some(Contract)
    case ExpenditureReported => Some(Expenditure)
    case RecordCorrected | RecordRemoved | UnknownKind => None
  }

  datatype Event = Event(
    id: string, kind: EventKind, summary: string, sourceId: string,
    identifierIds: seq<string>, evidenceIds: seq<string>)

  datatype Snapshot = Snapshot(id: string, sourceId: string, persistedDigest: string)

  /** The table of source snapshots, which only ever grows. */
  type Snapshots = map<string, Snapshot>

  /** From identifier id to its normalized form, for the identifiers that have one. */
  type Normalized = map<string, string>

  datatype Evidence = Evidence(eventId: string, sourceId: string, snapshotId: string, digest: string)

  datatype Link = Link(from: Stage, to: Stage, normalized: string, citation: string, fromEvidence: Evidence, toEvidence: Evidence)

  datatype Gap = Gap(normalized: string, fromEventId: string, toEventId: string, fromHasEvidence: bool, toHasEvidence: bool)

  datatype Occurrence = Occurrence(stage: Stage, event: Event)

  /** Two occurrences, in order, under the same normalized identifier. */
  datatype Candidate = Candidate(normalized: string, from: Occurrence, to: Occurrence)

  type ByIdentifier = Entries<seq<Occurrence>>

  // ---------------------------------------------------------------- evidence

  function ResolveIn(snapshots: Snapshots, eventId: string, evidenceIds: seq<string>): Option<Evidence> {
    if evidenceIds == [] then None
    else
      var id := evidenceIds[0];
      if id in snapshots && IsValidSha256(snapshots[id].persistedDigest) then
        var s := snapshots[id];
        Some(Evidence(eventId, s.sourceId, s.id, s.persistedDigest))
      else
        ResolveIn(snapshots, eventId, evidenceIds[1..])
  }

  function Resolve(snapshots: Snapshots, event: Event): Option<Evidence> {
    ResolveIn(snapshots, event.id, event.evidenceIds)
  }

  // ---------------------------------------------------------------- links and gaps

  function OrderedStages(a: Stage, b: Stage): (Stage, Stage) {
    if Index(a) <= Index(b) then (a, b) else (b, a)
  }

  function Citation(from: Event, to: Event, normalized: string): string {
    "events '" + from.summary + "' (source " + from.sourceId + ") and '" + to.summary + "' (source " + to.sourceId
    + ") reference the same normalized identifier " + normalized
  }

  predicate Linkable(snapshots: Snapshots, c: Candidate) {
    Resolve(snapshots, c.from.event).Some? && Resolve(snapshots, c.to.event).Some?
  }

  function LinkOf(snapshots: Snapshots, c: Candidate): Link
    requires Linkable(snapshots, c)
  {
    var (from, to) := OrderedStages(c.from.stage, c.to.stage);
    Link(from, to, c.normalized, Citation(c.from.event, c.to.event, c.normalized),
         Resolve(snapshots, c.from.event).value, Resolve(snapshots, c.to.event).value)
  }

  function GapOf(snapshots: Snapshots, c: Candidate): Gap {
    Gap(c.normalized, c.from.event.id, c.to.event.id,
        Resolve(snapshots, c.from.event).Some?, Resolve(snapshots, c.to.event).Some?)
  }

  predicate LinkLe(a: Link, b: Link) {
    if Index(a.from) != Index(b.from) then Index(a.from) < Index(b.from)
    else if Index(a.to) != Index(b.to) then Index(a.to) < Index(b.to)
    else StrLe(a.normalized, b.normalized)
  }

  predicate GapLe(a: Gap, b: Gap) {
    if a.normalized != b.normalized then StrLe(a.normalized, b.normalized)
    else if a.fromEventId != b.fromEventId then StrLe(a.fromEventId, b.fromEventId)
    else StrLe(a.toEventId, b.toEventId)
  }

  // ---------------------------------------------------------------- the identifier index

  /** The occurrences that one event adds under `key`: one for each of its identifiers. */
  function OccurrencesIn(normalized: Normalized, occ: Occurrence, ids: seq<string>, key: string): seq<Occurrence> {
    if ids == [] then []
    else
      var front, last := ids[..|ids| - 1], ids[|ids| - 1];
      OccurrencesIn(normalized, occ, front, key) + (if last in normalized && normalized[last] == key then [occ] else [])
  }

  function OccurrencesOf(normalized: Normalized, events: seq<Event>, key: string): seq<Occurrence> {
    if events == [] then []
    else
      var front, last := events[..|events| - 1], events[|events| - 1];
      match StageOf(last.kind)
      case None => OccurrencesOf(normalized, front, key)
      case Some(stage) =>
        OccurrencesOf(normalized, front, key)
        + OccurrencesIn(normalized, Occurrence(stage, last), last.identifierIds, key)
  }

  ghost predicate Indexes(index: ByIdentifier, normalized: Normalized, events: seq<Event>) {
    Ordered(index) && forall key :: Lookup(index, key) == NonEmpty(OccurrencesOf(normalized, events, key))
  }

  /** The loop over the identifiers of one event. */
  method IndexEvent(normalized: Normalized, occ: Occurrence, index: ByIdentifier, ghost before: seq<Event>) returns (index': ByIdentifier)
    requires Indexes(index, normalized, before)
    ensures IndexesSome(index', normalized, before, occ, occ.event.identifierIds)
  {
    var ids := occ.event.identifierIds;
    index' := index;
    IndexesNoneOf(index, normalized, before, occ);
    for m := 0 to |ids|
      invariant IndexesSome(index', normalized, before, occ, ids[..m])
    {
      assert ids[..m + 1] == ids[..m] + [ids[m]];
      IndexesNext(index', normalized, before, occ, ids[..m], ids[m]);
      if ids[m] in normalized {
        index' := Append(index', normalized[ids[m]], occ);
      }
    }
    assert ids[..|ids|] == ids;
  }

  method BuildIndex(normalized: Normalized, events: seq<Event>) returns (index: ByIdentifier)
    ensures Indexes(index, normalized, events)
  {
    index := [];
    for n := 0 to |events|
      invariant Indexes(index, normalized, events[..n])
    {
      var event := events[n];
      assert events[..n + 1][..n] == events[..n];
      var stage := StageOf(event.kind);
      if stage.None? {
        continue;
      }
      index := IndexEvent(normalized, Occurrence(stage.value, event), index, events[..n]);
    }
    assert events[..|events|] == events;
  }

  function SoFar(normalized: Normalized, before: seq<Event>, occ: Occurrence, ids: seq<string>, key: string): seq<Occurrence> {
    OccurrencesOf(normalized, before, key) + OccurrencesIn(normalized, occ, ids, key)
  }

  /** `index` covers the events `before`, and of the next one the identifiers `ids`. */
  ghost predicate IndexesSome(index: ByIdentifier, normalized: Normalized, before: seq<Event>, occ: Occurrence, ids: seq<string>) {
    Ordered(index) && forall key :: Lookup(index, key) == NonEmpty(SoFar(normalized, before, occ, ids, key))
  }

  lemma IndexesNoneOf(index: ByIdentifier, normalized: Normalized, before: seq<Event>, occ: Occurrence)
    requires Indexes(index, normalized, before)
    ensures IndexesSome(index, normalized, before, occ, [])
  {
    forall key
      ensures Lookup(index, key) == NonEmpty(SoFar(normalized, before, occ, [], key))
    {
      assert SoFar(normalized, before, occ, [], key) == OccurrencesOf(normalized, before, key);
    }
  }

  lemma IndexesNext(index: ByIdentifier, normalized: Normalized, before: seq<Event>, occ: Occurrence, ids: seq<string>, id: string)
    requires IndexesSome(index, normalized, before, occ, ids)
    ensures IndexesSome(if id in normalized then Append(index, normalized[id], occ) else index,
                        normalized, before, occ, ids + [id])
  {
    var all := ids + [id];
    assert all[..|all| - 1] == ids;
    var next := if id in normalized then Append(index, normalized[id], occ) else index;
    if id in normalized {
      AppendLookup(index, normalized[id], occ);
    }
    forall key
      ensures Lookup(next, key) == NonEmpty(SoFar(normalized, before, occ, all, key))
    {
      assert Lookup(index, key) == NonEmpty(SoFar(normalized, before, occ, ids, key));
      var added := if id in normalized && normalized[id] == key then [occ] else [];
      var earlier := SoFar(normalized, before, occ, ids, key);
      assert SoFar(normalized, before, occ, all, key) == earlier + added;
      if added == [] {
        assert earlier + added == earlier;
        assert Lookup(next, key) == Lookup(index, key);
      } else {
        assert Lookup(next, key) == Some(earlier + [occ]);
      }
    }
  }

  // ---------------------------------------------------------------- the candidates, in loop order

  function PairsWith(normalized: string, from: Occurrence, rest: seq<Occurrence>): seq<Candidate> {
    if rest == [] then []
    else
      var first := if from.stage == rest[0].stage then [] else [Candidate(normalized, from, rest[0])];
      first + PairsWith(normalized, from, rest[1..])
  }

  function PairsIn(normalized: string, occurrences: seq<Occurrence>): seq<Candidate> {
    if occurrences == [] then []
    else PairsWith(normalized, occurrences[0], occurrences[1..]) + PairsIn(normalized, occurrences[1..])
  }

  function AllPairs(index: ByIdentifier): seq<Candidate> {
    if index == [] then [] else PairsIn(index[0].0, index[0].1) + AllPairs(index[1..])
  }

  function PairKey(c: Candidate): string {
    c.from.event.id + "\0" + c.to.event.id
  }

  function Keys(cands: seq<Candidate>): set<string> {
    set c | c in cands :: PairKey(c)
  }

  /** The candidates that are the first with their pair of events. */
  function Kept(cands: seq<Candidate>): seq<Candidate> {
    if cands == [] then []
    else
      var front, last := cands[..|cands| - 1], cands[|cands| - 1];
      if PairKey(last) in Keys(front) then Kept(front) else Kept(front) + [last]
  }

  function LinksOf(snapshots: Snapshots, cands: seq<Candidate>): seq<Link> {
    if cands == [] then []
    else
      var front, last := cands[..|cands| - 1], cands[|cands| - 1];
      if Linkable(snapshots, last) then LinksOf(snapshots, front) + [LinkOf(snapshots, last)]
      else LinksOf(snapshots, front)
  }

  function GapsOf(snapshots: Snapshots, cands: seq<Candidate>): seq<Gap> {
    if cands == [] then []
    else
      var front, last := cands[..|cands| - 1], cands[|cands| - 1];
      if Linkable(snapshots, last) then GapsOf(snapshots, front)
      else GapsOf(snapshots, front) + [GapOf(snapshots, last)]
  }

  lemma KeptNext(cands: seq<Candidate>, c: Candidate)
    ensures Kept(cands + [c]) == if PairKey(c) in Keys(cands) then Kept(cands) else Kept(cands) + [c]
    ensures Keys(cands + [c]) == Keys(cands) + {PairKey(c)}
  {
    var all := cands + [c];
    assert all[..|all| - 1] == cands;
  }

  lemma OutputNext(snapshots: Snapshots, kept: seq<Candidate>, c: Candidate)
    ensures LinksOf(snapshots, kept + [c]) ==
      LinksOf(snapshots, kept) + if Linkable(snapshots, c) then [LinkOf(snapshots, c)] else []
    ensures GapsOf(snapshots, kept + [c]) ==
      GapsOf(snapshots, kept) + if Linkable(snapshots, c) then [] else [GapOf(snapshots, c)]
  {
    var all := kept + [c];
    assert all[..|all| - 1] == kept;
  }

  /** What the three loops have done once the candidates `done` are behind them. */
  ghost predicate Progress(snapshots: Snapshots, done: seq<Candidate>, seen: set<string>, links: seq<Link>, gaps: seq<Gap>) {
    && seen == Keys(done)
    && links == LinksOf(snapshots, Kept(done))
    && gaps == GapsOf(snapshots, Kept(done))
  }

  /** The body of the innermost loop, for two occurrences in different stages. */
  method RecordPair(snapshots: Snapshots, normalized: string, from: Occurrence, to: Occurrence,
                    seen: set<string>, links: seq<Link>, gaps: seq<Gap>, ghost done: seq<Candidate>)
    returns (seen': set<string>, links': seq<Link>, gaps': seq<Gap>)
    requires Progress(snapshots, done, seen, links, gaps)
    ensures Progress(snapshots, done + [Candidate(normalized, from, to)], seen', links', gaps')
  {
    seen', links', gaps' := seen, links, gaps;
    var pairKey := from.event.id + "\0" + to.event.id;
    ghost var c := Candidate(normalized, from, to);
    KeptNext(done, c);
    if pairKey in seen {
      assert seen == seen + {pairKey};
      return;
    }
    seen' := seen + {pairKey};
    OutputNext(snapshots, Kept(done), c);
    var fromEvidence := Resolve(snapshots, from.event);
    var toEvidence := Resolve(snapshots, to.event);
    if fromEvidence.Some? && toEvidence.Some? {
      var (first, second) := OrderedStages(from.stage, to.stage);
      links' := links + [Link(first, second, normalized, Citation(from.event, to.event, normalized),
                              fromEvidence.value, toEvidence.value)];
    } else {
      gaps' := gaps + [Gap(normalized, from.event.id, to.event.id, fromEvidence.Some?, toEvidence.Some?)];
    }
  }

  /** The innermost loop: one occurrence against those after it. */
  method RecordPairsWith(snapshots: Snapshots, normalized: string, from: Occurrence, rest: seq<Occurrence>,
                         seen: set<string>, links: seq<Link>, gaps: seq<Gap>, ghost done: seq<Candidate>)
    returns (seen': set<string>, links': seq<Link>, gaps': seq<Gap>)
    requires Progress(snapshots, done, seen, links, gaps)
    ensures Progress(snapshots, done + PairsWith(normalized, from, rest), seen', links', gaps')
  {
    seen', links', gaps' := seen, links, gaps;
    ghost var now := done;
    assert rest[0..] == rest;
    for j := 0 to |rest|
      invariant Progress(snapshots, now, seen', links', gaps')
      invariant now + PairsWith(normalized, from, rest[j..]) == done + PairsWith(normalized, from, rest)
    {
      PairsWithNext(now, normalized, from, rest, j);
      if from.stage == rest[j].stage {
        continue;
      }
      seen', links', gaps' := RecordPair(snapshots, normalized, from, rest[j], seen', links', gaps', now);
      now := now + [Candidate(normalized, from, rest[j])];
    }
    assert rest[|rest|..] == [] && now == done + PairsWith(normalized, from, rest);
  }

  /** The loop over the occurrences of one identifier. */
  method RecordPairsIn(snapshots: Snapshots, normalized: string, occ: seq<Occurrence>,
                       seen: set<string>, links: seq<Link>, gaps: seq<Gap>, ghost done: seq<Candidate>)
    returns (seen': set<string>, links': seq<Link>, gaps': seq<Gap>)
    requires Progress(snapshots, done, seen, links, gaps)
    ensures Progress(snapshots, done + PairsIn(normalized, occ), seen', links', gaps')
  {
    seen', links', gaps' := seen, links, gaps;
    ghost var now := done;
    assert occ[0..] == occ;
    for i := 0 to |occ|
      invariant Progress(snapshots, now, seen', links', gaps')
      invariant now + PairsIn(normalized, occ[i..]) == done + PairsIn(normalized, occ)
    {
      assert occ[i..][1..] == occ[i + 1..];
      ghost var pairs := PairsWith(normalized, occ[i], occ[i + 1..]);
      seen', links', gaps' := RecordPairsWith(snapshots, normalized, occ[i], occ[i + 1..], seen', links', gaps', now);
      Regroup(now + pairs, now, pairs, PairsIn(normalized, occ[i + 1..]));
      now := now + pairs;
    }
    assert occ[|occ|..] == [] && now == done + PairsIn(normalized, occ);
  }

  method BuildLinksAndGaps(snapshots: Snapshots, index: ByIdentifier) returns (links: seq<Link>, gaps: seq<Gap>)
    ensures links == SortBy(LinksOf(snapshots, Kept(AllPairs(index))), LinkLe)
    ensures gaps == SortBy(GapsOf(snapshots, Kept(AllPairs(index))), GapLe)
  {
    links, gaps := [], [];
    var seen: set<string> := {};
    ghost var done: seq<Candidate> := [];
    assert index[0..] == index;
    for n := 0 to |index|
      invariant Progress(snapshots, done, seen, links, gaps)
      invariant done + AllPairs(index[n..]) == AllPairs(index)
    {
      assert index[n..][1..] == index[n + 1..];
      ghost var pairs := PairsIn(index[n].0, index[n].1);
      seen, links, gaps := RecordPairsIn(snapshots, index[n].0, index[n].1, seen, links, gaps, done);
      Regroup(done + pairs, done, pairs, AllPairs(index[n + 1..]));
      done := done + pairs;
    }
    assert index[|index|..] == [] && done == AllPairs(index);
    links := SortBy(links, LinkLe);
    gaps := SortBy(gaps, GapLe);
  }

  lemma PairsWithNext(done: seq<Candidate>, normalized: string, from: Occurrence, occ: seq<Occurrence>, j: nat)
    requires j < |occ|
    ensures done + PairsWith(normalized, from, occ[j..]) ==
      (if from.stage == occ[j].stage then done else done + [Candidate(normalized, from, occ[j])])
      + PairsWith(normalized, from, occ[j + 1..])
  {
    assert occ[j..][1..] == occ[j + 1..];
  }

  lemma Regroup(done: seq<Candidate>, start: seq<Candidate>, part: seq<Candidate>, rest: seq<Candidate>)
    requires done == start + part
    ensures done + rest == start + (part + rest)
  {
  }
}
