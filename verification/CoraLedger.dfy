/** The ledger of records requests: an append-only list of events for each request. */
module CoraLedger {
  import opened Wrappers
  import opened Text
  import opened Joining
  import opened Identifiers

  // ---------------------------------------------------------------- requests

  datatype RequestState = Drafted | Submitted | ResponseReceived | GapResolved | StillUnresolved

  function Label(s: RequestState): string {
    match s
    case Drafted => "drafted"
    case Submitted => "submitted"
    case ResponseReceived => "response_received"
    case GapResolved => "gap_resolved"
    case StillUnresolved => "still_unresolved"
  }

  datatype Event = Event(id: string, requestId: string, state: RequestState, operator: string, timestamp: string, note: string)

  datatype Range = Range(start: Option<string>, end: Option<string>)

  datatype GapSet = GapSet(
    institution: string, identifiers: seq<string>, missingRecordTypes: seq<string>,
    dateRange: Option<Range>, vendorOrProject: Option<string>, sourcesChecked: seq<string>)

  datatype Request = Request(
    id: string, matterId: string, state: RequestState, gapSetDigest: string, createdAt: string,
    gap: GapSet, draftText: string, draftDigest: string, events: seq<Event>)

  datatype SuppliedRecord = SuppliedRecord(observedDigest: string, json: string)

  datatype LedgerError = RequestNotFound | AlreadyInState | EvidenceNotFound

  const OFFLINE_CREATED_AT := "2026-08-17T00:00:00Z"

  // ---------------------------------------------------------------- ids

  function RangeParts(range: Option<Range>): seq<string> {
    if range.None? || (range.value.start.None? && range.value.end.None?) then ["<no-range>"]
    else
      (if range.value.start.Some? then [range.value.start.value] else [])
      + (if range.value.end.Some? then [range.value.end.value] else [])
  }

  function GapParts(gap: GapSet): seq<string> {
    [gap.institution] + gap.identifiers + gap.missingRecordTypes + RangeParts(gap.dateRange)
    + [if gap.vendorOrProject.Some? then gap.vendorOrProject.value else ""] + gap.sourcesChecked
  }

  function GapSetDigest(sha256: string -> string, gap: GapSet): string {
    sha256(Joined(GapParts(gap)))
  }

  function RequestId(sha256: string -> string, matterId: string, gapSetDigest: string, createdAt: string): string {
    StableId(sha256, "cora-req", [matterId, gapSetDigest, createdAt])
  }

  function EventId(sha256: string -> string, requestId: string, state: RequestState, timestamp: string): string {
    StableId(sha256, "cora-event", [requestId, Label(state), timestamp])
  }

  // ---------------------------------------------------------------- notes

  const RESPONSE := "response"
  const EVIDENCE := "evidence"
  const LINKED := "linked"

  function ResponseNote(evidenceId: string, note: Option<string>): string {
    RESPONSE + " " + EVIDENCE + " " + evidenceId + " " + LINKED + if note.None? then "" else "; note: " + note.value
  }

  function SubmitNote(operator: string, date: string, tracking: string, recipientNote: Option<string>): string {
    "submitted on " + date + " by operator " + operator + "; tracking ref '" + tracking + "'"
    + if recipientNote.None? then "" else "; recipient note: " + recipientNote.value
  }

  // ---------------------------------------------------------------- steps

  datatype Tables = Tables(requests: map<string, Request>, supplied: map<string, SuppliedRecord>)

  datatype Op =
    | Import(recordId: string, record: SuppliedRecord)
    | Register(matterId: string, gap: GapSet, draftText: string, createdAt: string)
    | Submit(requestId: string, operator: string, date: string, tracking: string, recipientNote: Option<string>)
    | Respond(requestId: string, evidenceId: string, responseNote: Option<string>)
    | Resolve(requestId: string, operator: string, note: string)
    | Reopen(requestId: string, operator: string, note: string)

  function Draft(sha256: string -> string, matterId: string, gap: GapSet, draftText: string, createdAt: string): Request {
    var digest := GapSetDigest(sha256, gap);
    var id := RequestId(sha256, matterId, digest, createdAt);
    Request(id, matterId, Drafted, digest, createdAt, gap, draftText, sha256(draftText),
            [Event(EventId(sha256, id, Drafted, createdAt), id, Drafted, "draft", createdAt, "draft generated")])
  }

  /** The state that an operation moves its request to, with operator, time and note. */
  datatype Move = Move(requestId: string, state: RequestState, operator: string, timestamp: string, note: string)

  function MoveOf(op: Op): Move
    requires !op.Import? && !op.Register?
  {
    match op
    case Submit(id, operator, date, tracking, recipient) =>
      Move(id, Submitted, operator, date, SubmitNote(operator, date, tracking, recipient))
    case Respond(id, evidenceId, note) =>
      Move(id, ResponseReceived, "response-import", OFFLINE_CREATED_AT, ResponseNote(evidenceId, note))
    case Resolve(id, operator, note) => Move(id, GapResolved, operator, OFFLINE_CREATED_AT, note)
    case Reopen(id, operator, note) => Move(id, StillUnresolved, operator, OFFLINE_CREATED_AT, note)
  }

  function EventOf(sha256: string -> string, m: Move): Event {
    Event(EventId(sha256, m.requestId, m.state, m.timestamp), m.requestId, m.state, m.operator, m.timestamp, m.note)
  }

  predicate Moves(t: Tables, m: Move) {
    m.requestId in t.requests && t.requests[m.requestId].state != m.state
  }

  function Moved(sha256: string -> string, r: Request, m: Move): Request {
    r.(state := m.state, events := r.events + [EventOf(sha256, m)])
  }

  function Transition(sha256: string -> string, t: Tables, m: Move): Tables {
    if Moves(t, m) then t.(requests := t.requests[m.requestId := Moved(sha256, t.requests[m.requestId], m)]) else t
  }

  predicate Accepted(t: Tables, op: Op) {
    match op
    case Import(id, _) => id !in t.supplied
    case Register(_, _, _, _) => true
    case Respond(_, evidenceId, _) => evidenceId in t.supplied && Moves(t, MoveOf(op))
    case _ => Moves(t, MoveOf(op))
  }

  function InsertRequest(t: Tables, r: Request): Tables {
    if r.id in t.requests then t else t.(requests := t.requests[r.id := r])
  }

  function Step(sha256: string -> string, t: Tables, op: Op): Tables {
    if !Accepted(t, op) then t
    else if op.Import? then t.(supplied := t.supplied[op.recordId := op.record])
    else if op.Register? then InsertRequest(t, Draft(sha256, op.matterId, op.gap, op.draftText, op.createdAt))
    else Transition(sha256, t, MoveOf(op))
  }

  function Run(sha256: string -> string, t: Tables, ops: seq<Op>): Tables {
    if ops == [] then t else Step(sha256, Run(sha256, t, ops[..|ops| - 1]), ops[|ops| - 1])
  }

  // ---------------------------------------------------------------- the store and its operations

  class Ledger {
    var tables: Tables

    constructor ()
      ensures tables == Tables(map[], map[])
    {
      tables := Tables(map[], map[]);
    }

    method InsertSuppliedRecord(id: string, record: SuppliedRecord, ghost sha256: string -> string) returns (inserted: bool)
      modifies this
      ensures tables == Step(sha256, old(tables), Import(id, record))
      ensures inserted <==> id !in old(tables).supplied
    {
      inserted := id !in tables.supplied;
      if inserted {
        tables := tables.(supplied := tables.supplied[id := record]);
      }
    }

    method RegisterDraft(sha256: string -> string, matterId: string, gap: GapSet, draftText: string, createdAt: string)
      returns (inserted: bool)
      modifies this
      ensures tables == Step(sha256, old(tables), Register(matterId, gap, draftText, createdAt))
      ensures inserted <==> RequestId(sha256, matterId, GapSetDigest(sha256, gap), createdAt) !in old(tables).requests
    {
      var digest := GapSetDigest(sha256, gap);
      var id := RequestId(sha256, matterId, digest, createdAt);
      var event := Event(EventId(sha256, id, Drafted, createdAt), id, Drafted, "draft", createdAt, "draft generated");
      var request := Request(id, matterId, Drafted, digest, createdAt, gap, draftText, sha256(draftText), [event]);
      inserted := id !in tables.requests;
      if inserted {
        tables := tables.(requests := tables.requests[id := request]);
      }
    }

    method ApplyTransition(sha256: string -> string, m: Move) returns (r: Result<Request, LedgerError>)
      modifies this
      ensures tables == Transition(sha256, old(tables), m)
      ensures r.Ok? <==> Moves(old(tables), m)
      ensures r.Ok? ==> m.requestId in tables.requests && r.value == tables.requests[m.requestId]
      ensures r == Err(RequestNotFound) <==> m.requestId !in old(tables).requests
      ensures r.Err? ==> r.error != EvidenceNotFound
    {
      if m.requestId !in tables.requests {
        return Err(RequestNotFound);
      }
      var request := tables.requests[m.requestId];
      if request.state == m.state {
        return Err(AlreadyInState);
      }
      var event := Event(EventId(sha256, m.requestId, m.state, m.timestamp), m.requestId, m.state, m.operator, m.timestamp, m.note);
      request := request.(state := m.state, events := request.events + [event]);
      tables := tables.(requests := tables.requests[m.requestId := request]);
      return Ok(request);
    }

    method SubmitRequest(sha256: string -> string, id: string, operator: string, date: string, tracking: string, recipientNote: Option<string>)
      returns (r: Result<Request, LedgerError>)
      modifies this
      ensures tables == Step(sha256, old(tables), Submit(id, operator, date, tracking, recipientNote))
      ensures r.Ok? <==> Accepted(old(tables), Submit(id, operator, date, tracking, recipientNote))
    {
      r := ApplyTransition(sha256, Move(id, Submitted, operator, date, SubmitNote(operator, date, tracking, recipientNote)));
    }

    method LinkResponse(sha256: string -> string, id: string, evidenceId: string, note: Option<string>)
      returns (r: Result<Request, LedgerError>)
      modifies this
      ensures tables == Step(sha256, old(tables), Respond(id, evidenceId, note))
      ensures r.Ok? <==> Accepted(old(tables), Respond(id, evidenceId, note))
      ensures r == Err(EvidenceNotFound) <==> evidenceId !in old(tables).supplied
    {
      if evidenceId !in tables.supplied {
        return Err(EvidenceNotFound);
      }
      r := ApplyTransition(sha256, Move(id, ResponseReceived, "response-import", OFFLINE_CREATED_AT, ResponseNote(evidenceId, note)));
    }

    method ResolveGap(sha256: string -> string, id: string, operator: string, note: string) returns (r: Result<Request, LedgerError>)
      modifies this
      ensures tables == Step(sha256, old(tables), Resolve(id, operator, note))
      ensures r.Ok? <==> Accepted(old(tables), Resolve(id, operator, note))
    {
      r := ApplyTransition(sha256, Move(id, GapResolved, operator, OFFLINE_CREATED_AT, note));
    }

    method KeepUnresolved(sha256: string -> string, id: string, operator: string, note: string) returns (r: Result<Request, LedgerError>)
      modifies this
      ensures tables == Step(sha256, old(tables), Reopen(id, operator, note))
      ensures r.Ok? <==> Accepted(old(tables), Reopen(id, operator, note))
    {
      r := ApplyTransition(sha256, Move(id, StillUnresolved, operator, OFFLINE_CREATED_AT, note));
    }

    /** The search, from the newest event back, for the response evidence of a request. */
    method RequestResponseDigest(request: Request) returns (digest: Option<string>)
      ensures digest == ReportedDigest(tables.supplied, request.events)
    {
      assert request.events[..|request.events|] == request.events;
      for i := |request.events| downto 0
        invariant ReportedId(request.events) == ReportedId(request.events[..i])
      {
        var event := request.events[i];
        assert request.events[..i + 1][..i] == request.events[..i];
        if event.state != ResponseReceived {
          continue;
        }
        var words := Words(event.note);
        if |words| > 2 {
          return DigestOf(tables.supplied, words[2]);
        }
      }
      return None;
    }
  }

  function DigestOf(supplied: map<string, SuppliedRecord>, id: string): Option<string> {
    if id in supplied then Some(supplied[id].observedDigest) else None
  }

  /** The third word of the newest response note. */
  function ReportedId(events: seq<Event>): Option<string> {
    if events == [] then None
    else
      var last := events[|events| - 1];
      if last.state == ResponseReceived && |Words(last.note)| > 2 then Some(Words(last.note)[2])
      else ReportedId(events[..|events| - 1])
  }

  function ReportedDigest(supplied: map<string, SuppliedRecord>, events: seq<Event>): Option<string> {
    if ReportedId(events).None? then None else DigestOf(supplied, ReportedId(events).value)
  }
}
