/** Runs of ledger operations: what is kept, what is reported, and which requests are told apart. */
module CoraLedgerLaws {
  import opened Wrappers
  import opened Text
  import opened Joining
  import opened Hashing
  import opened Identifiers
  import opened CoraLedger

  // ---------------------------------------------------------------- invariants of a run

  ghost predicate WellKept(id: string, r: Request) {
    && r.id == id
    && r.events != []
    && r.state == r.events[|r.events| - 1].state
    && r.events[0].state == Drafted
    && (forall i :: 0 < i < |r.events| ==> r.events[i].state != Drafted)
    && (forall i :: 0 < i < |r.events| ==> r.events[i].state != r.events[i - 1].state)
    && (forall i :: 0 <= i < |r.events| ==> r.events[i].requestId == id)
  }

  ghost predicate AllWellKept(t: Tables) {
    forall id :: id in t.requests ==> WellKept(id, t.requests[id])
  }

  lemma MovedIsWellKept(sha256: string -> string, r: Request, m: Move)
    requires WellKept(m.requestId, r) && m.state != r.state && m.state != Drafted
    ensures WellKept(m.requestId, Moved(sha256, r, m))
  {
    var events := Moved(sha256, r, m).events;
    assert forall i :: 0 <= i < |r.events| ==> events[i] == r.events[i];
  }

  lemma StepKeeps(sha256: string -> string, t: Tables, op: Op)
    requires AllWellKept(t)
    ensures AllWellKept(Step(sha256, t, op))
  {
    if Accepted(t, op) && !op.Import? && !op.Register? {
      MovedIsWellKept(sha256, t.requests[op.requestId], MoveOf(op));
    }
  }

  /**
   * After any run: the state of a request is that of its last event, adjacent events differ in state,
   * and only the first event is the draft.
   */
  lemma {:induction false} RunKeeps(sha256: string -> string, t: Tables, ops: seq<Op>)
    requires AllWellKept(t)
    ensures AllWellKept(Run(sha256, t, ops))
  {
    if ops != [] {
      RunKeeps(sha256, t, ops[..|ops| - 1]);
      StepKeeps(sha256, Run(sha256, t, ops[..|ops| - 1]), ops[|ops| - 1]);
    }
  }

  /** The later request is the earlier one with more events. */
  ghost predicate Extends(earlier: Request, later: Request) {
    && earlier.events <= later.events
    && later == earlier.(state := later.state, events := later.events)
  }

  ghost predicate OnlyAppended(before: Tables, after: Tables) {
    && (forall id :: id in before.requests ==> id in after.requests && Extends(before.requests[id], after.requests[id]))
    && (forall id :: id in before.supplied ==> id in after.supplied && after.supplied[id] == before.supplied[id])
  }

  lemma StepAppends(sha256: string -> string, t: Tables, op: Op)
    ensures OnlyAppended(t, Step(sha256, t, op))
  {
  }

  lemma ExtendsIsTransitive(a: Request, b: Request, c: Request)
    requires Extends(a, b) && Extends(b, c)
    ensures Extends(a, c)
  {
  }

  lemma AppendedIsTransitive(a: Tables, b: Tables, c: Tables)
    requires OnlyAppended(a, b) && OnlyAppended(b, c)
    ensures OnlyAppended(a, c)
  {
    forall id | id in a.requests ensures id in c.requests && Extends(a.requests[id], c.requests[id]) {
      ExtendsIsTransitive(a.requests[id], b.requests[id], c.requests[id]);
    }
  }

  /** The ledger is append-only: a run only ever adds requests, records and events at the end. */
  lemma {:induction false} RunAppends(sha256: string -> string, t: Tables, ops: seq<Op>)
    ensures OnlyAppended(t, Run(sha256, t, ops))
  {
    if ops != [] {
      var before := Run(sha256, t, ops[..|ops| - 1]);
      RunAppends(sha256, t, ops[..|ops| - 1]);
      StepAppends(sha256, before, ops[|ops| - 1]);
      AppendedIsTransitive(t, before, Run(sha256, t, ops));
    }
  }

  // ---------------------------------------------------------------- the response evidence

  lemma NoteSplits(evidenceId: string, note: Option<string>) returns (rest: string)
    ensures ResponseNote(evidenceId, note) == RESPONSE + [' '] + (EVIDENCE + [' '] + (evidenceId + [' '] + rest))
    ensures rest != "" && rest[0] == 'l'
  {
    rest := LINKED + if note.None? then "" else "; note: " + note.value;
    assert " " == [' '];
  }

  lemma TwoWords(a: string, b: string, c: string)
    requires IsWord(a) && IsWord(b)
    ensures Words(a + [' '] + (b + [' '] + c)) == [a, b] + Words(c)
  {
    WordsSplit(a, ' ', b + [' '] + c);
    WordsSplit(b, ' ', c);
    WordsOfWord(a);
    WordsOfWord(b);
  }

  /** The words of a response note: two fixed ones, those of the id, and more. */
  lemma WordsOfNote(evidenceId: string, note: Option<string>) returns (rest: seq<string>)
    ensures Words(ResponseNote(evidenceId, note)) == [RESPONSE, EVIDENCE] + Words(evidenceId) + rest
    ensures rest != []
  {
    var tail := NoteSplits(evidenceId, note);
    rest := Words(tail);
    TwoWords(RESPONSE, EVIDENCE, evidenceId + [' '] + tail);
    WordsSplit(evidenceId, ' ', tail);
  }

  /** The id can be read back from the note exactly if it is not empty and has no white space. */
  lemma NoteNamesIdExactly(evidenceId: string, note: Option<string>)
    ensures |Words(ResponseNote(evidenceId, note))| > 2
    ensures Words(ResponseNote(evidenceId, note))[2] == evidenceId <==> IsWord(evidenceId)
  {
    var rest := WordsOfNote(evidenceId, note);
    if IsWord(evidenceId) {
      WordsOfWord(evidenceId);
    }
    assert IsWord(Words(ResponseNote(evidenceId, note))[2]);
  }

  /** The evidence id and note of the last response that the run linked to a request. */
  function LastLinked(sha256: string -> string, t: Tables, ops: seq<Op>, id: string): Option<Op> {
    if ops == [] then None
    else
      var front, last := ops[..|ops| - 1], ops[|ops| - 1];
      if last.Respond? && last.requestId == id && Accepted(Run(sha256, t, front), last) then Some(last)
      else LastLinked(sha256, t, front, id)
  }

  ghost predicate Reports(t: Tables, id: string, linked: Option<Op>) {
    && (linked.Some? ==> linked.value.Respond? && linked.value.evidenceId in t.supplied)
    && id in t.requests
    && ReportedId(t.requests[id].events) ==
      if linked.None? then None else Some(ThirdWord(linked.value))
  }

  function ThirdWord(op: Op): string
    requires op.Respond?
  {
    NoteNamesIdExactly(op.evidenceId, op.responseNote);
    Words(ResponseNote(op.evidenceId, op.responseNote))[2]
  }

  lemma ReportNext(sha256: string -> string, t: Tables, op: Op, id: string, linked: Option<Op>)
    requires Reports(t, id, linked)
    ensures Reports(Step(sha256, t, op), id, if op.Respond? && op.requestId == id && Accepted(t, op) then Some(op) else linked)
  {
    if Accepted(t, op) && !op.Import? && !op.Register? && op.requestId == id {
      var events, event := t.requests[id].events, EventOf(sha256, MoveOf(op));
      assert (events + [event])[..|events|] == events;
      if op.Respond? {
        NoteNamesIdExactly(op.evidenceId, op.responseNote);
      }
    }
  }

  lemma NewDraftReportsNothing(sha256: string -> string, t: Tables, op: Op, id: string)
    requires id !in t.requests && id in Step(sha256, t, op).requests
    ensures Reports(Step(sha256, t, op), id, None)
  {
    var events := Step(sha256, t, op).requests[id].events;
    assert |events| == 1 && events[0].state == Drafted && events[..0] == [];
    assert ReportedId(events[..0]) == None;
  }

  lemma {:induction false} NeverLinkedWhileMissing(sha256: string -> string, ops: seq<Op>, id: string)
    requires id !in Run(sha256, Tables(map[], map[]), ops).requests
    ensures LastLinked(sha256, Tables(map[], map[]), ops, id) == None
  {
    if ops != [] {
      StepAppends(sha256, Run(sha256, Tables(map[], map[]), ops[..|ops| - 1]), ops[|ops| - 1]);
      NeverLinkedWhileMissing(sha256, ops[..|ops| - 1], id);
    }
  }

  lemma {:induction false} RunReports(sha256: string -> string, ops: seq<Op>, id: string)
    requires id in Run(sha256, Tables(map[], map[]), ops).requests
    ensures Reports(Run(sha256, Tables(map[], map[]), ops), id, LastLinked(sha256, Tables(map[], map[]), ops, id))
  {
    var start := Tables(map[], map[]);
    if ops != [] {
      var front, last := ops[..|ops| - 1], ops[|ops| - 1];
      var before := Run(sha256, start, front);
      if id in before.requests {
        RunReports(sha256, front, id);
        ReportNext(sha256, before, last, id, LastLinked(sha256, start, front, id));
      } else {
        NeverLinkedWhileMissing(sha256, front, id);
        NewDraftReportsNothing(sha256, before, last, id);
      }
    }
  }

  /**
   * The digest reported for a request is that of the evidence linked last, if its id is a word;
   * with no evidence linked, none is reported.
   */
  lemma ReportsLastLinked(sha256: string -> string, ops: seq<Op>, id: string)
    requires id in Run(sha256, Tables(map[], map[]), ops).requests
    ensures var t := Run(sha256, Tables(map[], map[]), ops);
      var linked := LastLinked(sha256, Tables(map[], map[]), ops, id);
      && (linked.None? ==> ReportedDigest(t.supplied, t.requests[id].events) == None)
      && (linked.Some? ==> linked.value.Respond? && linked.value.evidenceId in t.supplied)
      && (linked.Some? && IsWord(linked.value.evidenceId) ==>
        ReportedDigest(t.supplied, t.requests[id].events) == Some(t.supplied[linked.value.evidenceId].observedDigest))
      && (linked.Some? && !IsWord(linked.value.evidenceId) ==>
        ReportedId(t.requests[id].events) != Some(linked.value.evidenceId))
  {
    RunReports(sha256, ops, id);
    var linked := LastLinked(sha256, Tables(map[], map[]), ops, id);
    if linked.Some? {
      NoteNamesIdExactly(linked.value.evidenceId, linked.value.responseNote);
    }
  }

  // ---------------------------------------------------------------- telling requests and events apart

  /** Gap sets share a digest if and only if their parts, cut at any separators inside them, are the same list. */
  lemma GapDigestExactly(sha256: string -> string, a: GapSet, b: GapSet)
    requires CollisionFree(sha256)
    ensures GapSetDigest(sha256, a) == GapSetDigest(sha256, b) <==> AllPieces(GapParts(a)) == AllPieces(GapParts(b))
    ensures AllSeparatorFree(GapParts(a)) && AllSeparatorFree(GapParts(b)) ==>
      (GapSetDigest(sha256, a) == GapSetDigest(sha256, b) <==> GapParts(a) == GapParts(b))
  {
    JoinedExactly(GapParts(a), GapParts(b));
    if AllSeparatorFree(GapParts(a)) && AllSeparatorFree(GapParts(b)) {
      JoinIsDecodable(GapParts(a), GapParts(b));
    }
  }

  /** The two gaps have lists of equal lengths, and the same of the optional values. */
  predicate SameShape(a: GapSet, b: GapSet) {
    && |a.identifiers| == |b.identifiers| && |a.missingRecordTypes| == |b.missingRecordTypes|
    && a.vendorOrProject.Some? == b.vendorOrProject.Some?
    && a.dateRange.Some? == b.dateRange.Some?
    && (a.dateRange.Some? ==>
      && a.dateRange.value.start.Some? == b.dateRange.value.start.Some?
      && a.dateRange.value.end.Some? == b.dateRange.value.end.Some?)
  }

  /** The parts determine a gap up to its shape. */
  lemma SameGapExactly(a: GapSet, b: GapSet)
    ensures a == b <==> SameShape(a, b) && GapParts(a) == GapParts(b)
  {
    if SameShape(a, b) && GapParts(a) == GapParts(b) {
      SameRestAfter([a.institution], RestOfGap(a), [b.institution], RestOfGap(b));
      SameRestAfter(a.identifiers, AfterIdentifiers(a), b.identifiers, AfterIdentifiers(b));
      SameRestAfter(a.missingRecordTypes, AfterTypes(a), b.missingRecordTypes, AfterTypes(b));
      SameRestAfter(RangeParts(a.dateRange), AfterRange(a), RangeParts(b.dateRange), AfterRange(b));
      SameRestAfter([Vendor(a)], a.sourcesChecked, [Vendor(b)], b.sourcesChecked);
      SameRange(a.dateRange, b.dateRange);
    }
  }

  function Vendor(gap: GapSet): string {
    if gap.vendorOrProject.Some? then gap.vendorOrProject.value else ""
  }

  function AfterRange(gap: GapSet): seq<string> {
    [Vendor(gap)] + gap.sourcesChecked
  }

  function AfterTypes(gap: GapSet): seq<string> {
    RangeParts(gap.dateRange) + AfterRange(gap)
  }

  function AfterIdentifiers(gap: GapSet): seq<string> {
    gap.missingRecordTypes + AfterTypes(gap)
  }

  function RestOfGap(gap: GapSet): (rest: seq<string>)
    ensures GapParts(gap) == [gap.institution] + rest
  {
    gap.identifiers + AfterIdentifiers(gap)
  }

  lemma SameRestAfter(a: seq<string>, x: seq<string>, b: seq<string>, y: seq<string>)
    requires a + x == b + y && |a| == |b|
    ensures a == b && x == y
  {
    assert a == (a + x)[..|a|] && b == (b + y)[..|b|];
    assert x == (a + x)[|a|..] && y == (b + y)[|b|..];
  }

  lemma SameRange(a: Option<Range>, b: Option<Range>)
    requires a.Some? == b.Some?
    requires a.Some? ==> a.value.start.Some? == b.value.start.Some? && a.value.end.Some? == b.value.end.Some?
    requires RangeParts(a) == RangeParts(b)
    ensures a == b
  {
    if a.Some? {
      var p, q := RangeParts(a), RangeParts(b);
      assert |p| > 0 && p[0] == q[0] && p[|p| - 1] == q[|q| - 1];
    }
  }

  /** Which list a part is in is lost, and so is which end of a range is open, and whether there is a vendor. */
  lemma DifferentGapsShareADigest(sha256: string -> string, x: string, y: string, day: string)
    ensures GapSetDigest(sha256, GapSet(x, [y], [], None, None, [])) == GapSetDigest(sha256, GapSet(x, [], [y], None, None, []))
    ensures GapSetDigest(sha256, GapSet(x, [], [], Some(Range(Some(day), None)), None, []))
      == GapSetDigest(sha256, GapSet(x, [], [], Some(Range(None, Some(day))), None, []))
    ensures GapSetDigest(sha256, GapSet(x, [], [], None, None, [])) == GapSetDigest(sha256, GapSet(x, [], [], None, Some(""), []))
  {
    assert GapParts(GapSet(x, [y], [], None, None, [])) == GapParts(GapSet(x, [], [y], None, None, []));
    assert GapParts(GapSet(x, [], [], Some(Range(Some(day), None)), None, []))
      == GapParts(GapSet(x, [], [], Some(Range(None, Some(day))), None, []));
  }

  /** A separator inside a part makes it two: other parts, and still one digest. */
  lemma SeparatorPartsCollide(sha256: string -> string, x: string)
    ensures var a, b := GapSet(x, ["a\U{1F}b"], [], None, None, []), GapSet(x, ["a", "b"], [], None, None, []);
      GapParts(a) != GapParts(b) && GapSetDigest(sha256, a) == GapSetDigest(sha256, b)
  {
    var rest := ["<no-range>", ""];
    var a, b := GapSet(x, ["a\U{1F}b"], [], None, None, []), GapSet(x, ["a", "b"], [], None, None, []);
    assert GapParts(a) == [x, "a\U{1F}b"] + rest && GapParts(b) == [x, "a", "b"] + rest;
    JoinedCons("a\U{1F}b", rest);
    JoinedCons("b", rest);
    JoinedCons("a", ["b"] + rest);
    JoinedCons(x, ["a\U{1F}b"] + rest);
    JoinedCons(x, ["a"] + (["b"] + rest));
    assert [x] + (["a\U{1F}b"] + rest) == GapParts(a) && [x] + (["a"] + (["b"] + rest)) == GapParts(b);
    assert "a\U{1F}b" + UNIT_SEPARATOR + Joined(rest) == "a" + UNIT_SEPARATOR + ("b" + UNIT_SEPARATOR + Joined(rest));
  }

  /** The second of two drafts with different gaps but the same parts, matter and time is not registered. */
  lemma SecondDraftIsLost(sha256: string -> string, t: Tables, matterId: string, a: GapSet, b: GapSet, text: string, text': string, at: string)
    requires GapParts(a) == GapParts(b)
    ensures var first := Step(sha256, t, Register(matterId, a, text, at));
      Step(sha256, first, Register(matterId, b, text', at)) == first
  {
  }

  lemma RunNext(sha256: string -> string, t: Tables, ops: seq<Op>, op: Op)
    ensures Run(sha256, t, ops + [op]) == Step(sha256, Run(sha256, t, ops), op)
  {
    assert (ops + [op])[..|ops|] == ops;
  }

  /** An event has the id of its request, state and time, and the moves after a submission have one fixed time. */
  ghost predicate IsStamped(sha256: string -> string, id: string, e: Event) {
    && e.requestId == id && e.id == EventId(sha256, id, e.state, e.timestamp)
    && (e.state != Drafted && e.state != Submitted ==> e.timestamp == OFFLINE_CREATED_AT)
  }

  ghost predicate AllStamped(sha256: string -> string, t: Tables) {
    forall id :: id in t.requests ==>
      forall i :: 0 <= i < |t.requests[id].events| ==> IsStamped(sha256, id, t.requests[id].events[i])
  }

  lemma StepStamps(sha256: string -> string, t: Tables, op: Op)
    requires AllStamped(sha256, t)
    ensures AllStamped(sha256, Step(sha256, t, op))
  {
  }

  lemma {:induction false} RunStamps(sha256: string -> string, ops: seq<Op>)
    ensures AllStamped(sha256, Run(sha256, Tables(map[], map[]), ops))
  {
    if ops != [] {
      RunStamps(sha256, ops[..|ops| - 1]);
      StepStamps(sha256, Run(sha256, Tables(map[], map[]), ops[..|ops| - 1]), ops[|ops| - 1]);
    }
  }

  lemma LabelIsInjective(s: RequestState, t: RequestState)
    ensures NulFree(Label(s))
    ensures Label(s) == Label(t) ==> s == t
  {
    assert |Label(s)| == |Label(t)| ==> s == t;
  }

  /** Two events of a request share an id if and only if they agree in state and time. */
  lemma EventIdsExactly(sha256: string -> string, ops: seq<Op>, id: string, i: nat, j: nat)
    requires CollisionFree(sha256) && NulFree(id)
    requires id in Run(sha256, Tables(map[], map[]), ops).requests
    requires var events := Run(sha256, Tables(map[], map[]), ops).requests[id].events;
      i < |events| && j < |events| && NulFree(events[i].timestamp) && NulFree(events[j].timestamp)
    ensures var events := Run(sha256, Tables(map[], map[]), ops).requests[id].events;
      && (events[i].id == events[j].id <==> events[i].state == events[j].state && events[i].timestamp == events[j].timestamp)
      && (events[i].state !in {Drafted, Submitted} && events[j].state !in {Drafted, Submitted} ==>
        (events[i].id == events[j].id <==> events[i].state == events[j].state))
  {
    var events := Run(sha256, Tables(map[], map[]), ops).requests[id].events;
    RunStamps(sha256, ops);
    assert IsStamped(sha256, id, events[i]) && IsStamped(sha256, id, events[j]);
    SameIdExactly(sha256, id, events[i], events[j]);
  }

  lemma SameIdExactly(sha256: string -> string, id: string, e: Event, f: Event)
    requires CollisionFree(sha256) && NulFree(id) && NulFree(e.timestamp) && NulFree(f.timestamp)
    requires IsStamped(sha256, id, e) && IsStamped(sha256, id, f)
    ensures e.id == f.id <==> e.state == f.state && e.timestamp == f.timestamp
  {
    if e.id == f.id {
      LabelIsInjective(e.state, f.state);
      LabelIsInjective(f.state, e.state);
      var a, b := [id, Label(e.state), e.timestamp], [id, Label(f.state), f.timestamp];
      StableIdIsInjective(sha256, "cora-event", a, b);
      assert a[1] == b[1] && a[2] == b[2];
    }
  }

  /** Two responses to a request, with the gap kept open in between. */
  function TwoResponses(id: string, evidenceId: string, operator: string): seq<Op> {
    [Respond(id, evidenceId, None), Reopen(id, operator, ""), Respond(id, evidenceId, None)]
  }

  lemma RunOfThree(sha256: string -> string, t: Tables, a: Op, b: Op, c: Op)
    ensures Run(sha256, t, [a, b, c]) == Step(sha256, Step(sha256, Step(sha256, t, a), b), c)
  {
    RunNext(sha256, t, [], a);
    RunNext(sha256, t, [a], b);
    RunNext(sha256, t, [a, b], c);
    assert [] + [a] == [a] && [a] + [b] == [a, b] && [a, b] + [c] == [a, b, c];
  }

  /** In any ledger, a request that is responded to twice holds two events with one id. */
  lemma ResponseEventsShareAnId(sha256: string -> string, t: Tables, id: string, evidenceId: string, operator: string)
    requires id in t.requests && evidenceId in t.supplied && t.requests[id].state != ResponseReceived
    ensures var after := Run(sha256, t, TwoResponses(id, evidenceId, operator)).requests;
      var n := |t.requests[id].events|;
      id in after && |after[id].events| == n + 3 && after[id].events[n].id == after[id].events[n + 2].id
  {
    var a, b := Respond(id, evidenceId, None), Reopen(id, operator, "");
    RunOfThree(sha256, t, a, b, a);
    var first := Step(sha256, t, a);
    var second := Step(sha256, first, b);
    assert first.requests[id].events == t.requests[id].events + [EventOf(sha256, MoveOf(a))];
    assert second.requests[id].events == first.requests[id].events + [EventOf(sha256, MoveOf(b))];
    assert Step(sha256, second, a).requests[id].events == second.requests[id].events + [EventOf(sha256, MoveOf(a))];
  }

  lemma RunOfTwo(sha256: string -> string, t: Tables, a: Op, b: Op)
    ensures Run(sha256, t, [a, b]) == Step(sha256, Step(sha256, t, a), b)
  {
    RunNext(sha256, t, [], a);
    RunNext(sha256, t, [a], b);
    assert [] + [a] == [a] && [a] + [b] == [a, b];
  }

  lemma DraftIsInserted(sha256: string -> string, t: Tables, matterId: string, gap: GapSet, text: string, at: string)
    requires t.requests == map[]
    ensures var id := RequestId(sha256, matterId, GapSetDigest(sha256, gap), at);
      var after := Step(sha256, t, Register(matterId, gap, text, at));
      id in after.requests && after.requests[id].state == Drafted && after.supplied == t.supplied
  {
  }

  /** Such a ledger is reached by one import and one draft. */
  lemma SuchALedgerIsReached(sha256: string -> string, record: SuppliedRecord, matterId: string, gap: GapSet, text: string, at: string)
    ensures var t := Run(sha256, Tables(map[], map[]), [Import("e", record), Register(matterId, gap, text, at)]);
      var id := RequestId(sha256, matterId, GapSetDigest(sha256, gap), at);
      id in t.requests && "e" in t.supplied && t.requests[id].state == Drafted
  {
    RunOfTwo(sha256, Tables(map[], map[]), Import("e", record), Register(matterId, gap, text, at));
    DraftIsInserted(sha256, Step(sha256, Tables(map[], map[]), Import("e", record)), matterId, gap, text, at);
  }
}
