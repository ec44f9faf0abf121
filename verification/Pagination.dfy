/** Bounded pagination over an adversarial source of pages, under an aggregate byte budget. */
module Pagination {
  import opened Wrappers
  import opened Text
  import opened Integers

  function SaturatingAdd(a: nat, b: nat, max: nat): nat {
    if a + b <= max then a + b else max
  }

  // ---------------------------------------------------------------- the budget tracker

  class JobBudgetTracker {
    const maxTotalDownloadedBytes: u64
    var downloadedBytes: u64

    constructor (max: u64)
      ensures maxTotalDownloadedBytes == max && downloadedBytes == 0
    {
      maxTotalDownloadedBytes := max;
      downloadedBytes := 0;
    }

    method AddDownloadedBytes(bytes: u64) returns (ok: bool)
      modifies this
      ensures downloadedBytes == SaturatingAdd(old(downloadedBytes), bytes, U64_MAX)
      ensures ok <==> downloadedBytes <= maxTotalDownloadedBytes
    {
      downloadedBytes := SaturatingAdd(downloadedBytes, bytes, U64_MAX);
      ok := downloadedBytes <= maxTotalDownloadedBytes;
    }
  }

  // ---------------------------------------------------------------- pages

  datatype File = File(officialId: string, name: string, httpsUrl: Option<string>)

  datatype Item = Item(matterFile: string, title: string, status: string, files: seq<File>)

  /** An event as far as it is read: its id, from a JSON number or a JSON string, and its items. */
  datatype Event = Event(id: Option<string>, items: seq<Item>, rest: string)

  datatype Body = NotJson | NotArray | Array(events: seq<Event>)

  datatype Fetch = Failed | Page(size: u64, body: Body)

  datatype Matter = Matter(officialMatterId: string, title: string, status: string)

  datatype Attachment = Attachment(matterFile: string, officialId: string, name: string, url: string)

  datatype StopReason = MaxPages | MaxEvents | MaxMatters | NonProgressingPage | RepeatedPage

  datatype Failure = BadConfiguration | FetchFailed | BudgetExceeded | MalformedPage | MissingEventId

  datatype Outcome = Outcome(events: seq<Event>, matters: seq<Matter>, attachments: seq<Attachment>, pagesFetched: nat, reason: StopReason)

  /** The matters and attachments that an event's items mention. */
  type Discovery = seq<Item> -> (seq<Matter>, seq<Attachment>)

  datatype Limits = Limits(
    pageSize: u32, maxPages: u32, maxEvents: u32, maxMatters: u32, maxAttachmentsPerMatter: u32,
    discover: Discovery)

  // ---------------------------------------------------------------- discovery

  function AttachmentsIn(matterFile: string, files: seq<File>): seq<Attachment> {
    if files == [] then []
    else
      var front, last := AttachmentsIn(matterFile, files[..|files| - 1]), files[|files| - 1];
      if last.httpsUrl.None? then front
      else front + [Attachment(matterFile, last.officialId, last.name, last.httpsUrl.value)]
  }

  /** The matters and attachments of an event; items without a matter file are skipped. */
  function Discover(items: seq<Item>): (seq<Matter>, seq<Attachment>) {
    if items == [] then ([], [])
    else
      var (matters, attachments) := Discover(items[..|items| - 1]);
      var item := items[|items| - 1];
      if All(item.matterFile, IsWhitespace) then (matters, attachments)
      else (matters + [Matter(item.matterFile, item.title, item.status)],
            attachments + AttachmentsIn(item.matterFile, item.files))
  }

  // ---------------------------------------------------------------- the page source

  type Fetcher = (nat, u32) -> Fetch

  /** The offset of call number `k`. */
  function Offset(limits: Limits, k: nat): u32 {
    if k == 0 then 0 else SaturatingAdd(Offset(limits, k - 1), limits.pageSize, U32_MAX)
  }

  /** The offsets of the first `n` calls. */
  function Offsets(limits: Limits, n: nat): (offsets: seq<u32>)
    ensures |offsets| == n
  {
    if n == 0 then [] else Offsets(limits, n - 1) + [Offset(limits, n - 1)]
  }

  /** What the page source answers to its call number `k`, for a given offset. */
  function Call(fetch: Fetcher, k: nat, offset: u32): Fetch {
    fetch(k, offset)
  }

  /** The answer to call number `k`, which is made with its own offset. */
  function Answer(limits: Limits, fetch: Fetcher, k: nat): Fetch {
    Call(fetch, k, Offset(limits, k))
  }

  function PageEvents(f: Fetch): seq<Event> {
    if f.Page? && f.body.Array? then f.body.events else []
  }

  /** All events of the first `n` answers, in order. */
  function Received(limits: Limits, fetch: Fetcher, n: nat): seq<Event> {
    if n == 0 then [] else Received(limits, fetch, n - 1) + PageEvents(Answer(limits, fetch, n - 1))
  }

  function BytesOf(f: Fetch): nat {
    if f.Page? then f.size else 0
  }

  function Bytes(limits: Limits, fetch: Fetcher, n: nat): nat {
    if n == 0 then 0 else Bytes(limits, fetch, n - 1) + BytesOf(Answer(limits, fetch, n - 1))
  }

  lemma BytesNext(limits: Limits, fetch: Fetcher, page: nat, start: nat)
    ensures SaturatingAdd(SaturatingAdd(start, Bytes(limits, fetch, page), U64_MAX), BytesOf(Answer(limits, fetch, page)), U64_MAX)
      == SaturatingAdd(start, Bytes(limits, fetch, page + 1), U64_MAX)
  {
  }

  // ---------------------------------------------------------------- one event at a time

  /** The collections that the pass builds up. */
  datatype Collection = Collection(
    events: seq<Event>, matters: seq<Matter>, attachments: seq<Attachment>,
    seenEvents: set<string>, seenMatters: set<string>)

  function Take<T>(s: seq<T>, n: nat): seq<T> {
    if |s| <= n then s else s[..n]
  }

  function AddMatter(matters: seq<Matter>, seen: set<string>, m: Matter): (seq<Matter>, set<string>) {
    (if m.officialMatterId in seen then matters else matters + [m], seen + {m.officialMatterId})
  }

  function AddMatters(matters: seq<Matter>, seen: set<string>, found: seq<Matter>): (seq<Matter>, set<string>) {
    if found == [] then (matters, seen)
    else
      var front := AddMatters(matters, seen, found[..|found| - 1]);
      AddMatter(front.0, front.1, found[|found| - 1])
  }

  function AddEvent(limits: Limits, c: Collection, id: string, e: Event): Collection {
    var (found, files) := limits.discover(e.items);
    var (matters, seenMatters) := AddMatters(c.matters, c.seenMatters, found);
    Collection(c.events + [e], matters, c.attachments + Take(files, limits.maxAttachmentsPerMatter),
               c.seenEvents + {id}, seenMatters)
  }

  function TakeUp(limits: Limits, c: Collection, e: Event): Collection {
    if e.id.None? || e.id.value in c.seenEvents then c else AddEvent(limits, c, e.id.value, e)
  }

  const Nothing := Collection([], [], [], {}, {})

  /** Everything that is collected from the events `read`. */
  function Collect(limits: Limits, read: seq<Event>): Collection {
    if read == [] then Nothing else TakeUp(limits, Collect(limits, read[..|read| - 1]), read[|read| - 1])
  }

  lemma CollectNext(limits: Limits, read: seq<Event>, e: Event)
    ensures Collect(limits, read + [e]) == TakeUp(limits, Collect(limits, read), e)
  {
    assert (read + [e])[..|read|] == read;
  }

  /** The loop over the matters discovered in one event. */
  method CollectMatters(matters: seq<Matter>, seen: set<string>, found: seq<Matter>)
    returns (matters': seq<Matter>, seen': set<string>)
    ensures (matters', seen') == AddMatters(matters, seen, found)
  {
    matters', seen' := matters, seen;
    for k := 0 to |found|
      invariant (matters', seen') == AddMatters(matters, seen, found[..k])
    {
      AddMattersNext(matters, seen, found, k);
      var id := found[k].officialMatterId;
      if id !in seen' {
        matters' := matters' + [found[k]];
      }
      seen' := seen' + {id};
    }
    assert found[..|found|] == found;
  }

  lemma AddMattersNext(matters: seq<Matter>, seen: set<string>, found: seq<Matter>, k: nat)
    requires k < |found|
    ensures var front := AddMatters(matters, seen, found[..k]);
      AddMatters(matters, seen, found[..k + 1]) == AddMatter(front.0, front.1, found[k])
  {
    assert found[..k + 1][..k] == found[..k];
  }

  /** One event of a page: only the first with its id is taken up. */
  method CollectEvent(limits: Limits, event: Event, c: Collection) returns (c': Collection, isNew: bool)
    requires event.id.Some?
    ensures c' == TakeUp(limits, c, event)
    ensures isNew <==> event.id.value !in c.seenEvents
    ensures |c'.events| == |c.events| + if isNew then 1 else 0
    ensures c'.seenEvents == c.seenEvents + {event.id.value}
    ensures !isNew ==> c' == c
  {
    var eventId := event.id.value;
    if eventId in c.seenEvents {
      return c, false;
    }
    var (found, files) := limits.discover(event.items);
    var matters, seenMatters := CollectMatters(c.matters, c.seenMatters, found);
    c' := Collection(c.events + [event], matters, c.attachments + Take(files, limits.maxAttachmentsPerMatter),
                     c.seenEvents + {eventId}, seenMatters);
    isNew := true;
  }

  // ---------------------------------------------------------------- one page at a time

  /** No cap is reached; a pass starts without looking at its caps. */
  predicate BelowCaps(limits: Limits, c: Collection) {
    c.events == [] || (|c.events| < limits.maxEvents && |c.matters| < limits.maxMatters)
  }

  predicate CapReached(limits: Limits, c: Collection, reason: StopReason) {
    && c.events != []
    && reason == (if |c.events| >= limits.maxEvents then MaxEvents else MaxMatters)
    && (|c.events| >= limits.maxEvents || |c.matters| >= limits.maxMatters)
  }

  predicate AllSeen(ids: seq<string>, seen: set<string>) {
    forall id :: id in ids ==> id in seen
  }

  lemma SeenNext(ids: seq<string>, seen: set<string>, id: string)
    requires AllSeen(ids, seen)
    ensures AllSeen(ids + [id], seen + {id})
  {
  }

  predicate LacksEventId(events: seq<Event>) {
    exists i :: 0 <= i < |events| && events[i].id.None?
  }

  datatype PageEnd = Exhausted | Capped(reason: StopReason) | BadEvent

  lemma ReadNext(before: seq<Event>, pageEvents: seq<Event>, i: nat)
    requires i < |pageEvents|
    ensures before + pageEvents[..i + 1] == before + pageEvents[..i] + [pageEvents[i]]
  {
  }

  /** The events that are read once a page has been read as far as `taken`. */
  function Reading(before: seq<Event>, pageEvents: seq<Event>, taken: nat): seq<Event>
    requires taken <= |pageEvents|
  {
    before + pageEvents[..taken]
  }

  /** The loop over the events of one page; `taken` of them are read. */
  method ReadPage(limits: Limits, pageEvents: seq<Event>, c: Collection, ghost before: seq<Event>)
    returns (c': Collection, pageIds: seq<string>, newOnPage: nat, end: PageEnd, ghost taken: nat, ghost newId: string)
    requires c == Collect(limits, before) && BelowCaps(limits, c)
    ensures taken <= |pageEvents| && c' == Collect(limits, Reading(before, pageEvents, taken))
    ensures newOnPage == |c'.events| - |c.events|
    ensures newOnPage > 0 ==> newId in pageIds && newId !in c.seenEvents
    ensures end == Exhausted ==> taken == |pageEvents| && BelowCaps(limits, c') && AllSeen(pageIds, c'.seenEvents)
    ensures end.Capped? ==> newOnPage > 0 && taken > 0 && CapReached(limits, c', end.reason)
    ensures end.Capped? ==> BelowCaps(limits, Collect(limits, Reading(before, pageEvents, taken - 1)))
    ensures end == BadEvent ==> LacksEventId(pageEvents)
  {
    c', pageIds, newOnPage, end, taken, newId := c, [], 0, Exhausted, 0, "";
    assert Reading(before, pageEvents, 0) == before;
    for i := 0 to |pageEvents|
      invariant taken == i && c' == Collect(limits, Reading(before, pageEvents, taken))
      invariant BelowCaps(limits, c')
      invariant newOnPage == |c'.events| - |c.events|
      invariant c.seenEvents <= c'.seenEvents && AllSeen(pageIds, c'.seenEvents)
      invariant newOnPage > 0 ==> newId in pageIds && newId !in c.seenEvents
      invariant end == Exhausted
    {
      var event := pageEvents[i];
      if event.id.None? {
        end := BadEvent;
        return;
      }
      ReadNext(before, pageEvents, i);
      CollectNext(limits, Reading(before, pageEvents, i), event);
      SeenNext(pageIds, c'.seenEvents, event.id.value);
      pageIds := pageIds + [event.id.value];
      var isNew;
      c', isNew := CollectEvent(limits, event, c');
      taken := i + 1;
      if isNew {
        newOnPage := newOnPage + 1;
        newId := event.id.value;
        if |c'.events| >= limits.maxEvents || |c'.matters| >= limits.maxMatters {
          end := Capped(if |c'.events| >= limits.maxEvents then MaxEvents else MaxMatters);
          return;
        }
      }
    }
  }

  // ---------------------------------------------------------------- the pass

  /** The last answer, with the budget it left, is the reason for `failure`. */
  predicate Explains(f: Fetch, failure: Failure, overBudget: bool) {
    match failure
    case BadConfiguration => false
    case FetchFailed => f.Failed?
    case BudgetExceeded => f.Page? && overBudget
    case MalformedPage => f.Page? && !f.body.Array?
    case MissingEventId => LacksEventId(PageEvents(f))
  }

  /** One call, charged to the budget, and its JSON array. */
  method FetchPage(answer: Fetch, budgets: JobBudgetTracker) returns (r: Result<seq<Event>, Failure>)
    modifies budgets
    ensures budgets.downloadedBytes == SaturatingAdd(old(budgets.downloadedBytes), BytesOf(answer), U64_MAX)
    ensures r.Ok? ==> answer.Page? && answer.body == Array(r.value) && budgets.downloadedBytes <= budgets.maxTotalDownloadedBytes
    ensures r.Err? ==> Explains(answer, r.error, budgets.downloadedBytes > budgets.maxTotalDownloadedBytes)
  {
    if answer.Failed? {
      return Err(FetchFailed);
    }
    var ok := budgets.AddDownloadedBytes(answer.size);
    if !ok {
      return Err(BudgetExceeded);
    }
    if !answer.body.Array? {
      return Err(MalformedPage);
    }
    return Ok(answer.body.events);
  }

  /** Page number `j` has an event that no page before it has. */
  predicate BringsNew(limits: Limits, fetch: Fetcher, j: nat) {
    |Collect(limits, Received(limits, fetch, j)).events| < |Collect(limits, Received(limits, fetch, j + 1)).events|
  }

  predicate AllBringNew(limits: Limits, fetch: Fetcher, n: int) {
    forall j :: 0 <= j < n ==> BringsNew(limits, fetch, j)
  }

  /** The state between two pages, after `page` of them. */
  ghost predicate Between(limits: Limits, fetch: Fetcher, page: nat, c: Collection, previousIds: seq<string>) {
    && c == Collect(limits, Received(limits, fetch, page))
    && BelowCaps(limits, c)
    && AllBringNew(limits, fetch, page)
    && page <= |c.events|
    && AllSeen(previousIds, c.seenEvents)
  }

  /** A pass stopped by a cap: it had read all of `read`, and the last event reached the cap. */
  ghost predicate StoppedByCap(limits: Limits, read: seq<Event>, c: Collection, reason: StopReason) {
    read != [] && CapReached(limits, c, reason) && BelowCaps(limits, Collect(limits, read[..|read| - 1]))
  }

  /** The cap was reached in the last of its pages. */
  ghost predicate ReachedCap(limits: Limits, fetch: Fetcher, read: seq<Event>, c: Collection, pages: nat, reason: StopReason) {
    StoppedByCap(limits, read, c, reason) && pages > 0 && |Received(limits, fetch, pages - 1)| < |read|
  }

  /** A pass that ended below its caps: it had read every event of its `pages`. */
  ghost predicate RanOut(limits: Limits, fetch: Fetcher, read: seq<Event>, c: Collection, pages: nat, reason: StopReason) {
    && read == Received(limits, fetch, pages) && BelowCaps(limits, c)
    && ((reason == MaxPages && pages == limits.maxPages && AllBringNew(limits, fetch, pages))
        || (reason == NonProgressingPage && pages > 0 && c == Collect(limits, Received(limits, fetch, pages - 1))))
  }

  /** What a pass that ends without an error has done; `read` are the events it has looked at. */
  ghost predicate Delivered(limits: Limits, fetch: Fetcher, read: seq<Event>, c: Collection, pages: nat, reason: StopReason) {
    && c == Collect(limits, read)
    && read <= Received(limits, fetch, pages)
    && pages <= limits.maxPages && pages <= |c.events| + 1
    && AllBringNew(limits, fetch, pages - 1)
    && (ReachedCap(limits, fetch, read, c, pages, reason) || RanOut(limits, fetch, read, c, pages, reason))
  }

  datatype Step = Continue | Stop(reason: StopReason) | Fail(failure: Failure)

  lemma ReadingIsPrefix(before: seq<Event>, pageEvents: seq<Event>, taken: nat)
    requires 0 < taken <= |pageEvents|
    ensures Reading(before, pageEvents, taken) <= before + pageEvents
    ensures Reading(before, pageEvents, taken) != []
    ensures Reading(before, pageEvents, taken)[..|before| + taken - 1] == Reading(before, pageEvents, taken - 1)
    ensures |Reading(before, pageEvents, taken)| == |before| + taken
  {
    var read := Reading(before, pageEvents, taken);
    assert read[..|before| + taken - 1] == before + pageEvents[..taken - 1];
  }

  lemma CappedIsDelivered(limits: Limits, fetch: Fetcher, page: nat, pageEvents: seq<Event>, taken: nat, c: Collection, reason: StopReason)
    requires page < limits.maxPages && page < |c.events| && PageEvents(Answer(limits, fetch, page)) == pageEvents
    requires 0 < taken <= |pageEvents| && AllBringNew(limits, fetch, page)
    requires c == Collect(limits, Reading(Received(limits, fetch, page), pageEvents, taken))
    requires CapReached(limits, c, reason)
    requires BelowCaps(limits, Collect(limits, Reading(Received(limits, fetch, page), pageEvents, taken - 1)))
    ensures Delivered(limits, fetch, Reading(Received(limits, fetch, page), pageEvents, taken), c, page + 1, reason)
  {
    var before := Received(limits, fetch, page);
    var read := Reading(before, pageEvents, taken);
    ReadingIsPrefix(before, pageEvents, taken);
    assert read[..|read| - 1] == Reading(before, pageEvents, taken - 1);
    assert StoppedByCap(limits, read, c, reason);
    assert Received(limits, fetch, page + 1) == before + pageEvents;
  }

  /** A page without a new event leaves everything as it was. */
  lemma {:induction false} NothingNew(limits: Limits, before: seq<Event>, pageEvents: seq<Event>, taken: nat)
    requires taken <= |pageEvents|
    ensures |Collect(limits, Reading(before, pageEvents, taken)).events| >= |Collect(limits, before).events|
    ensures |Collect(limits, Reading(before, pageEvents, taken)).events| == |Collect(limits, before).events| ==>
      Collect(limits, Reading(before, pageEvents, taken)) == Collect(limits, before)
  {
    if taken == 0 {
      assert Reading(before, pageEvents, 0) == before;
    } else {
      NothingNew(limits, before, pageEvents, taken - 1);
      ReadNext(before, pageEvents, taken - 1);
      CollectNext(limits, Reading(before, pageEvents, taken - 1), pageEvents[taken - 1]);
    }
  }

  lemma WholePage(limits: Limits, fetch: Fetcher, page: nat, pageEvents: seq<Event>)
    requires PageEvents(Answer(limits, fetch, page)) == pageEvents
    ensures Reading(Received(limits, fetch, page), pageEvents, |pageEvents|) == Received(limits, fetch, page + 1)
  {
    assert pageEvents[..|pageEvents|] == pageEvents;
  }

  /** One page: its events, and then the checks for pages that bring nothing new. */
  method NextPage(limits: Limits, ghost fetch: Fetcher, page: nat, pageEvents: seq<Event>, c: Collection, previousIds: seq<string>)
    returns (c': Collection, pageIds: seq<string>, step: Step, ghost read: seq<Event>)
    requires Between(limits, fetch, page, c, previousIds) && page < limits.maxPages
    requires PageEvents(Answer(limits, fetch, page)) == pageEvents
    ensures step == Continue ==> Between(limits, fetch, page + 1, c', pageIds)
    ensures step.Stop? ==> Delivered(limits, fetch, read, c', page + 1, step.reason)
    ensures step.Fail? ==> step.failure == MissingEventId && LacksEventId(pageEvents)
  {
    ghost var before := Received(limits, fetch, page);
    var newOnPage, end;
    ghost var taken, newId;
    c', pageIds, newOnPage, end, taken, newId := ReadPage(limits, pageEvents, c, before);
    read := Reading(before, pageEvents, taken);
    match end {
      case BadEvent =>
        return c', pageIds, Fail(MissingEventId), read;
      case Capped(reason) =>
        CappedIsDelivered(limits, fetch, page, pageEvents, taken, c', reason);
        return c', pageIds, Stop(reason), read;
      case Exhausted =>
    }
    WholePage(limits, fetch, page, pageEvents);
    if newOnPage == 0 {
      NothingNew(limits, before, pageEvents, taken);
      return c', pageIds, Stop(NonProgressingPage), read;
    }
    assert newId in pageIds && newId !in previousIds;
    if pageIds == previousIds {
      // a repeated page would have brought nothing new
      assert false;
    }
    step := Continue;
  }

  /** One round of the loop over the pages: the call, the budget, the page. */
  method CallAndRead(limits: Limits, budgets: JobBudgetTracker, fetch: Fetcher, page: nat, offset: u32, c: Collection, previousIds: seq<string>,
                     ghost start: nat)
    returns (c': Collection, pageIds: seq<string>, step: Step, ghost read: seq<Event>)
    requires Between(limits, fetch, page, c, previousIds) && page < limits.maxPages
    requires offset == Offset(limits, page)
    requires budgets.downloadedBytes == SaturatingAdd(start, Bytes(limits, fetch, page), U64_MAX)
    modifies budgets
    ensures budgets.downloadedBytes == SaturatingAdd(start, Bytes(limits, fetch, page + 1), U64_MAX)
    ensures !step.Fail? ==> budgets.downloadedBytes <= budgets.maxTotalDownloadedBytes
    ensures step == Continue ==> Between(limits, fetch, page + 1, c', pageIds)
    ensures step.Stop? ==> Delivered(limits, fetch, read, c', page + 1, step.reason)
    ensures step.Fail? ==>
      Explains(Answer(limits, fetch, page), step.failure, budgets.downloadedBytes > budgets.maxTotalDownloadedBytes)
  {
    BytesNext(limits, fetch, page, start);
    var answer := Call(fetch, page, offset);
    var pageEvents := FetchPage(answer, budgets);
    if pageEvents.Err? {
      return c, previousIds, Fail(pageEvents.error), [];
    }
    c', pageIds, step, read := NextPage(limits, fetch, page, pageEvents.value, c, previousIds);
  }

  function OutcomeOf(c: Collection, pagesFetched: nat, reason: StopReason): Outcome {
    Outcome(c.events, c.matters, c.attachments, pagesFetched, reason)
  }

  ghost predicate Returned(limits: Limits, fetch: Fetcher, read: seq<Event>, o: Outcome) {
    var c := Collect(limits, read);
    o == OutcomeOf(c, o.pagesFetched, o.reason) && Delivered(limits, fetch, read, c, o.pagesFetched, o.reason)
  }

  /** The loop over the pages. */
  method PaginatePages(limits: Limits, budgets: JobBudgetTracker, fetch: Fetcher)
    returns (result: Result<Outcome, Failure>, offsets: seq<u32>, ghost read: seq<Event>)
    requires limits.pageSize > 0 && limits.maxPages > 0
    modifies budgets
    ensures 0 < |offsets| <= limits.maxPages && offsets == Offsets(limits, |offsets|)
    ensures result.Ok? ==> |offsets| == result.value.pagesFetched && Returned(limits, fetch, read, result.value)
    ensures budgets.downloadedBytes == SaturatingAdd(old(budgets.downloadedBytes), Bytes(limits, fetch, |offsets|), U64_MAX)
    ensures result.Ok? ==> budgets.downloadedBytes <= budgets.maxTotalDownloadedBytes
    ensures result.Err? ==>
      Explains(Answer(limits, fetch, |offsets| - 1), result.error, budgets.downloadedBytes > budgets.maxTotalDownloadedBytes)
  {
    var c, previousIds, offset := Nothing, [], 0;
    offsets, read := [], [];
    NothingRead(limits, fetch);
    for page := 0 to limits.maxPages
      invariant offset == Offset(limits, page)
      invariant offsets == Offsets(limits, page)
      invariant budgets.downloadedBytes == SaturatingAdd(old(budgets.downloadedBytes), Bytes(limits, fetch, page), U64_MAX)
      invariant page > 0 ==> budgets.downloadedBytes <= budgets.maxTotalDownloadedBytes
      invariant Between(limits, fetch, page, c, previousIds)
    {
      var step;
      c, previousIds, step, read := CallAndRead(limits, budgets, fetch, page, offset, c, previousIds, old(budgets.downloadedBytes));
      offsets := offsets + [offset];
      if step.Fail? {
        return Err(step.failure), offsets, read;
      }
      if step.Stop? {
        return Ok(OutcomeOf(c, page + 1, step.reason)), offsets, read;
      }
      offset := SaturatingAdd(offset, limits.pageSize, U32_MAX);
    }
    read := Received(limits, fetch, limits.maxPages);
    AllPagesAreDelivered(limits, fetch, c, previousIds);
    return Ok(OutcomeOf(c, limits.maxPages, MaxPages)), offsets, read;
  }

  method PaginateEvents(limits: Limits, budgets: JobBudgetTracker, fetch: Fetcher)
    returns (result: Result<Outcome, Failure>, offsets: seq<u32>, ghost read: seq<Event>)
    modifies budgets
    ensures |offsets| <= limits.maxPages && offsets == Offsets(limits, |offsets|)
    ensures result.Ok? ==> |offsets| == result.value.pagesFetched && Returned(limits, fetch, read, result.value)
    ensures budgets.downloadedBytes == SaturatingAdd(old(budgets.downloadedBytes), Bytes(limits, fetch, |offsets|), U64_MAX)
    ensures result.Ok? ==> budgets.downloadedBytes <= budgets.maxTotalDownloadedBytes
    ensures result.Ok? && budgets.maxTotalDownloadedBytes < U64_MAX ==>
      budgets.downloadedBytes == old(budgets.downloadedBytes) + Bytes(limits, fetch, result.value.pagesFetched)
    ensures result == Err(BadConfiguration) <==> limits.pageSize == 0 || limits.maxPages == 0
    ensures offsets == [] <==> result == Err(BadConfiguration)
    ensures result.Err? && offsets != [] ==>
      Explains(Answer(limits, fetch, |offsets| - 1), result.error, budgets.downloadedBytes > budgets.maxTotalDownloadedBytes)
  {
    if limits.pageSize == 0 || limits.maxPages == 0 {
      return Err(BadConfiguration), [], [];
    }
    result, offsets, read := PaginatePages(limits, budgets, fetch);
  }

  lemma NothingRead(limits: Limits, fetch: Fetcher)
    ensures Between(limits, fetch, 0, Nothing, [])
  {
  }

  lemma AllPagesAreDelivered(limits: Limits, fetch: Fetcher, c: Collection, previousIds: seq<string>)
    requires Between(limits, fetch, limits.maxPages, c, previousIds)
    ensures Delivered(limits, fetch, Received(limits, fetch, limits.maxPages), c, limits.maxPages, MaxPages)
  {
  }
}
