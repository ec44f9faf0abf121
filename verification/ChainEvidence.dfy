/** How the evidence of a chain behaves: which links later snapshots can change, and which
    stage each side of a link belongs to. */
module ChainEvidence {
  import opened Wrappers
  import opened Text
  import opened Sorting
  import opened OrderedMap
  import opened Chain
  import opened Identifiers
  import opened ChainPartition

  // ---------------------------------------------------------------- snapshots only grow

  /** Insert-or-ignore: what is stored stays as it is. */
  ghost predicate Grows(before: Snapshots, after: Snapshots) {
    forall id :: id in before ==> id in after && after[id] == before[id]
  }

  ghost predicate KeyedById(snapshots: Snapshots) {
    forall id :: id in snapshots ==> snapshots[id].id == id
  }

  predicate Valid(snapshots: Snapshots, id: string) {
    id in snapshots && IsValidSha256(snapshots[id].persistedDigest)
  }

  /** The first evidence id with a valid snapshot comes only after ids that are stored too. */
  predicate Pinned(snapshots: Snapshots, evidenceIds: seq<string>) {
    evidenceIds != [] &&
    (Valid(snapshots, evidenceIds[0]) || (evidenceIds[0] in snapshots && Pinned(snapshots, evidenceIds[1..])))
  }

  lemma {:induction false} PinnedStays(before: Snapshots, after: Snapshots, eventId: string, ids: seq<string>)
    requires Grows(before, after) && Pinned(before, ids)
    ensures ResolveIn(after, eventId, ids) == ResolveIn(before, eventId, ids)
  {
    if !Valid(before, ids[0]) {
      PinnedStays(before, after, eventId, ids[1..]);
    }
  }

  /** A missing id ahead of the resolving one can later take its place. */
  lemma {:induction false} UnpinnedCanChange(before: Snapshots, eventId: string, ids: seq<string>) returns (after: Snapshots)
    requires KeyedById(before) && ResolveIn(before, eventId, ids).Some? && !Pinned(before, ids)
    ensures Grows(before, after) && KeyedById(after)
    ensures ResolveIn(after, eventId, ids).Some? && ResolveIn(after, eventId, ids).value.snapshotId !in before
  {
    if ids[0] in before {
      after := UnpinnedCanChange(before, eventId, ids[1..]);
    } else {
      var digest := seq(64, i => '0');
      after := before[ids[0] := Snapshot(ids[0], "", digest)];
    }
  }

  lemma {:induction false} ResolvedIsStored(snapshots: Snapshots, eventId: string, ids: seq<string>)
    requires KeyedById(snapshots) && ResolveIn(snapshots, eventId, ids).Some?
    ensures ResolveIn(snapshots, eventId, ids).value.snapshotId in snapshots
  {
    if !Valid(snapshots, ids[0]) {
      ResolvedIsStored(snapshots, eventId, ids[1..]);
    }
  }

  /** No further snapshot can change the evidence of an event if and only if every evidence id
      ahead of the one that resolves is stored already (with an invalid digest). */
  lemma EvidenceIsFinalExactly(snapshots: Snapshots, event: Event)
    requires KeyedById(snapshots) && Resolve(snapshots, event).Some?
    ensures Pinned(snapshots, event.evidenceIds) <==>
      forall after :: Grows(snapshots, after) && KeyedById(after) ==> Resolve(after, event) == Resolve(snapshots, event)
  {
    if Pinned(snapshots, event.evidenceIds) {
      forall after | Grows(snapshots, after) {
        PinnedStays(snapshots, after, event.id, event.evidenceIds);
      }
    } else {
      var after := UnpinnedCanChange(snapshots, event.id, event.evidenceIds);
      ResolvedIsStored(snapshots, event.id, event.evidenceIds);
      assert Resolve(after, event) != Resolve(snapshots, event);
    }
  }

  // ---------------------------------------------------------------- links are final

  predicate Settled(snapshots: Snapshots, events: seq<Event>) {
    forall p :: 0 <= p < |events| && Resolve(snapshots, events[p]).Some? ==> Pinned(snapshots, events[p].evidenceIds)
  }

  /** Events bound to one evidence id each are always settled. */
  lemma SingleEvidenceIsSettled(snapshots: Snapshots, events: seq<Event>)
    requires forall p :: 0 <= p < |events| ==> |events[p].evidenceIds| == 1
    ensures Settled(snapshots, events)
  {
    forall p | 0 <= p < |events| && Resolve(snapshots, events[p]).Some?
      ensures Pinned(snapshots, events[p].evidenceIds)
    {
      assert events[p].evidenceIds[1..] == [];
      assert ResolveIn(snapshots, events[p].id, events[p].evidenceIds[1..]).None?;
    }
  }

  lemma LinkableStays(before: Snapshots, after: Snapshots, normalized: Normalized, events: seq<Event>, c: Candidate)
    requires Grows(before, after) && Settled(before, events)
    requires Related(normalized, events, c) && Linkable(before, c)
    ensures Linkable(after, c) && LinkOf(after, c) == LinkOf(before, c)
  {
    var p, q :| RelatedAt(normalized, events, c, p, q);
    PinnedStays(before, after, events[p].id, events[p].evidenceIds);
    PinnedStays(before, after, events[q].id, events[q].evidenceIds);
  }

  /** Inserting snapshots keeps every link of settled events as it is, and a pair that is a
      gap afterwards was a gap before: gaps can only turn into links. */
  lemma LinksAreFinal(before: Snapshots, after: Snapshots, normalized: Normalized, events: seq<Event>,
                      links: seq<Link>, gaps: seq<Gap>, links': seq<Link>, gaps': seq<Gap>)
    requires Grows(before, after) && Settled(before, events)
    requires Partition(before, normalized, events, links, gaps)
    requires Partition(after, normalized, events, links', gaps')
    ensures forall l :: l in links ==> l in links'
    ensures forall g' :: g' in gaps' ==> exists g :: g in gaps && GapPair(g) == GapPair(g') && g.normalized == g'.normalized
    ensures forall g :: g in gaps ==>
      || (exists g' :: g' in gaps' && GapPair(g') == GapPair(g) && g'.normalized == g.normalized)
      || (exists l' :: l' in links' && LinkPair(l') == GapPair(g) && l'.normalized == g.normalized)
  {
    forall l | l in links
      ensures l in links'
    {
      var c :| Related(normalized, events, c) && Linkable(before, c) && l == LinkOf(before, c);
      LinkableStays(before, after, normalized, events, c);
    }
    forall g' | g' in gaps'
      ensures exists g :: g in gaps && GapPair(g) == GapPair(g') && g.normalized == g'.normalized
    {
      var c :| Related(normalized, events, c) && !Linkable(after, c) && g' == GapOf(after, c);
      if Linkable(before, c) {
        LinkableStays(before, after, normalized, events, c);
        assert false;
      }
      assert GapOf(before, c) in gaps;
    }
    forall g | g in gaps {
      GapStaysOrLinks(before, after, normalized, events, gaps, links', gaps', g);
    }
  }

  lemma GapStaysOrLinks(before: Snapshots, after: Snapshots, normalized: Normalized, events: seq<Event>,
                        gaps: seq<Gap>, links': seq<Link>, gaps': seq<Gap>, g: Gap)
    requires exists c :: Related(normalized, events, c) && !Linkable(before, c) && g == GapOf(before, c)
    requires Partition(after, normalized, events, links', gaps')
    ensures || (exists g' :: g' in gaps' && GapPair(g') == GapPair(g) && g'.normalized == g.normalized)
            || (exists l' :: l' in links' && LinkPair(l') == GapPair(g) && l'.normalized == g.normalized)
  {
    var c :| Related(normalized, events, c) && !Linkable(before, c) && g == GapOf(before, c);
    if Linkable(after, c) {
      assert LinkOf(after, c) in links';
      LinkPairOf(after, c);
    } else {
      assert GapOf(after, c) in gaps';
    }
  }

  // ---------------------------------------------------------------- stages and endpoints

  /** The stages of a link strictly advance, and they are the stages of its two events, whose
      ids its evidence carries. */
  lemma LinkStages(snapshots: Snapshots, normalized: Normalized, events: seq<Event>, links: seq<Link>, gaps: seq<Gap>, l: Link)
    requires Partition(snapshots, normalized, events, links, gaps) && l in links
    ensures Index(l.from) < Index(l.to)
    ensures exists p, q ::
      && 0 <= p < q < |events| && Shares(normalized, events[p], events[q], l.normalized)
      && l.fromEvidence.eventId == events[p].id && l.toEvidence.eventId == events[q].id
      && {StageOf(events[p].kind), StageOf(events[q].kind)} == {Some(l.from), Some(l.to)}
  {
    var c :| Related(normalized, events, c) && Linkable(snapshots, c) && l == LinkOf(snapshots, c);
    var p, q :| RelatedAt(normalized, events, c, p, q);
    LinkNames(snapshots, c);
    assert Shares(normalized, events[p], events[q], l.normalized);
  }

  /** The events at two positions, in list order, are linked under `key`: it is the least they share, and both resolve. */
  ghost predicate LinkedAt(snapshots: Snapshots, normalized: Normalized, events: seq<Event>, p: int, q: int, key: string) {
    && 0 <= p < q < |events| && LeastShared(normalized, events[p], events[q], key)
    && Resolve(snapshots, events[p]).Some? && Resolve(snapshots, events[q]).Some?
  }

  function StageIndex(event: Event): nat
    requires Staged(event)
  {
    Index(StageOf(event.kind).value)
  }

  function CandidateAt(events: seq<Event>, p: int, q: int, key: string): Candidate
    requires 0 <= p < |events| && 0 <= q < |events| && Staged(events[p]) && Staged(events[q])
  {
    Candidate(key, OccurrenceOf(events[p]), OccurrenceOf(events[q]))
  }

  /**
   * The field comments call `fromEvidence` the evidence of the earlier stage. The stages of a link are
   * reordered but its evidence is not: the evidence is that of its two events in list order, so it is on
   * the documented side exactly if the event that is listed first has the earlier stage.
   */
  lemma FromEvidenceIsEarlierExactly(snapshots: Snapshots, normalized: Normalized, events: seq<Event>, links: seq<Link>, gaps: seq<Gap>, l: Link)
    returns (p: int, q: int)
    requires Partition(snapshots, normalized, events, links, gaps) && l in links
    ensures LinkedAt(snapshots, normalized, events, p, q, l.normalized)
    ensures l.fromEvidence == Resolve(snapshots, events[p]).value && l.toEvidence == Resolve(snapshots, events[q]).value
    ensures l.fromEvidence.eventId == events[p].id && l.toEvidence.eventId == events[q].id
    ensures StageOf(events[p].kind) == Some(l.from) <==> StageIndex(events[p]) < StageIndex(events[q])
    ensures StageOf(events[q].kind) == Some(l.to) <==> StageIndex(events[p]) < StageIndex(events[q])
  {
    var c :| Related(normalized, events, c) && Linkable(snapshots, c) && l == LinkOf(snapshots, c);
    p, q :| RelatedAt(normalized, events, c, p, q);
    LinkNames(snapshots, c);
  }

  lemma LinkOfPair(snapshots: Snapshots, normalized: Normalized, events: seq<Event>, links: seq<Link>, gaps: seq<Gap>, p: int, q: int, key: string)
    returns (l: Link)
    requires Partition(snapshots, normalized, events, links, gaps) && LinkedAt(snapshots, normalized, events, p, q, key)
    ensures l in links && l.fromEvidence.eventId == events[p].id && l.toEvidence.eventId == events[q].id
    ensures StageOf(events[p].kind) == Some(l.from) ==> StageIndex(events[p]) < StageIndex(events[q])
  {
    var c := CandidateAt(events, p, q, key);
    assert RelatedAt(normalized, events, c, p, q);
    l := LinkOf(snapshots, c);
    LinkNames(snapshots, c);
  }

  /** The evidence of each side of the link is that of an event of its stage. */
  predicate OnDocumentedSides(events: seq<Event>, l: Link) {
    && (exists p :: 0 <= p < |events| && events[p].id == l.fromEvidence.eventId && StageOf(events[p].kind) == Some(l.from))
    && (exists q :: 0 <= q < |events| && events[q].id == l.toEvidence.eventId && StageOf(events[q].kind) == Some(l.to))
  }

  ghost predicate LinkedInStageOrder(snapshots: Snapshots, normalized: Normalized, events: seq<Event>) {
    forall p, q, key :: LinkedAt(snapshots, normalized, events, p, q, key) ==> StageIndex(events[p]) < StageIndex(events[q])
  }

  /** All links have their evidence on the documented sides if and only if no linked pair is listed with its later stage first. */
  lemma DocumentedSidesExactly(snapshots: Snapshots, normalized: Normalized, events: seq<Event>, links: seq<Link>, gaps: seq<Gap>)
    requires ProperIds(events) && Partition(snapshots, normalized, events, links, gaps)
    ensures AllOnDocumentedSides(events, links) <==> LinkedInStageOrder(snapshots, normalized, events)
  {
    if LinkedInStageOrder(snapshots, normalized, events) {
      forall l | l in links ensures OnDocumentedSides(events, l) {
        InOrderIsDocumented(snapshots, normalized, events, links, gaps, l);
      }
    }
    if AllOnDocumentedSides(events, links) {
      forall p, q, key | LinkedAt(snapshots, normalized, events, p, q, key)
        ensures StageIndex(events[p]) < StageIndex(events[q])
      {
        DocumentedIsInOrder(snapshots, normalized, events, links, gaps, p, q, key);
      }
    }
  }

  predicate AllOnDocumentedSides(events: seq<Event>, links: seq<Link>) {
    forall l :: l in links ==> OnDocumentedSides(events, l)
  }

  lemma InOrderIsDocumented(snapshots: Snapshots, normalized: Normalized, events: seq<Event>, links: seq<Link>, gaps: seq<Gap>, l: Link)
    requires Partition(snapshots, normalized, events, links, gaps) && l in links
    requires LinkedInStageOrder(snapshots, normalized, events)
    ensures OnDocumentedSides(events, l)
  {
    var p, q := FromEvidenceIsEarlierExactly(snapshots, normalized, events, links, gaps, l);
    assert events[p].id == l.fromEvidence.eventId && events[q].id == l.toEvidence.eventId;
  }

  lemma DocumentedIsInOrder(snapshots: Snapshots, normalized: Normalized, events: seq<Event>, links: seq<Link>, gaps: seq<Gap>,
                            p: int, q: int, key: string)
    requires ProperIds(events) && Partition(snapshots, normalized, events, links, gaps)
    requires AllOnDocumentedSides(events, links) && LinkedAt(snapshots, normalized, events, p, q, key)
    ensures StageIndex(events[p]) < StageIndex(events[q])
  {
    var l := LinkOfPair(snapshots, normalized, events, links, gaps, p, q, key);
    var n :| 0 <= n < |events| && events[n].id == l.fromEvidence.eventId && StageOf(events[n].kind) == Some(l.from);
    assert n == p;
  }

  /** An award listed before its solicitation: the link runs from solicitation to award, and
      its `from` evidence is that of the award. */
  lemma EvidenceCanBeReversed() returns (snapshots: Snapshots, normalized: Normalized, events: seq<Event>, c: Candidate)
    ensures ProperIds(events) && Related(normalized, events, c) && Linkable(snapshots, c)
    ensures var l := LinkOf(snapshots, c);
      l.from == Solicitation && l.fromEvidence.eventId == c.from.event.id && c.from.stage == Award
  {
    var award := Event("a", AwardAnnounced, "", "", ["i"], ["s"]);
    var solicitation := Event("b", SolicitationPublished, "", "", ["i"], ["s"]);
    events := [award, solicitation];
    normalized := map["i" := "K"];
    var digest := seq(64, i => '0');
    snapshots := map["s" := Snapshot("s", "", digest)];
    c := Candidate("K", OccurrenceOf(award), OccurrenceOf(solicitation));
    ShareOnlyK(normalized, award, solicitation);
    assert RelatedAt(normalized, events, c, 0, 1);
    assert IsValidSha256(digest);
  }

  /** Two candidates with one pair key are never both kept. */
  lemma OnlyOneIsKept(cands: seq<Candidate>, c: Candidate, d: Candidate)
    requires c != d && PairKey(c) == PairKey(d)
    ensures !(c in Kept(cands) && d in Kept(cands))
  {
    KeptAreCandidates(cands);
  }

  /** Ids with NUL characters would let two pairs of distinct events collide, so that one of
      them is lost. */
  lemma NulIdsCollide() returns (normalized: Normalized, events: seq<Event>, c: Candidate, d: Candidate)
    ensures forall p, q :: 0 <= p < q < |events| ==> events[p].id != events[q].id
    ensures Related(normalized, events, c) && Related(normalized, events, d)
    ensures c != d && PairKey(c) == PairKey(d)
  {
    var e0 := Event("a", SolicitationPublished, "", "", ["i"], []);
    var e1 := Event("b\0c", AwardAnnounced, "", "", ["i"], []);
    var e2 := Event("a\0b", SolicitationPublished, "", "", ["i"], []);
    var e3 := Event("c", AwardAnnounced, "", "", ["i"], []);
    events := [e0, e1, e2, e3];
    normalized := map["i" := "K"];
    ShareOnlyK(normalized, e0, e1);
    ShareOnlyK(normalized, e2, e3);
    c := Candidate("K", OccurrenceOf(e0), OccurrenceOf(e1));
    d := Candidate("K", OccurrenceOf(e2), OccurrenceOf(e3));
    assert RelatedAt(normalized, events, c, 0, 1) && RelatedAt(normalized, events, d, 2, 3);
    assert PairKey(c) == "a\0b\0c" && PairKey(d) == "a\0b\0c";
    assert |e0.id| == 1 && |e1.id| == 3 && |e2.id| == 3 && |e3.id| == 1;
    assert e1.id[0] != e2.id[0] && e0.id[0] != e3.id[0];
  }

  lemma ShareOnlyK(normalized: Normalized, a: Event, b: Event)
    requires normalized == map["i" := "K"] && a.identifierIds == ["i"] && b.identifierIds == ["i"]
    requires Staged(a) && Staged(b) && StageOf(a.kind) != StageOf(b.kind)
    ensures LeastShared(normalized, a, b, "K")
  {
    assert Maps(normalized, a.identifierIds[0], "K") && Maps(normalized, b.identifierIds[0], "K");
    StrIsTotalOrder();
    forall k | Shares(normalized, a, b, k)
      ensures StrLe("K", k)
    {
      assert k == "K";
    }
  }
}
