/** What a pass over pages returns, told without the pass: first occurrences, caps and bounds. */
module PaginationLaws {
  import opened Wrappers
  import opened Text
  import opened Integers
  import opened Sequences
  import opened Pagination

  // ---------------------------------------------------------------- first occurrences

  function Ids(events: seq<Event>): set<string> {
    if events == [] then {}
    else
      var front, last := Ids(events[..|events| - 1]), events[|events| - 1];
      if last.id.None? then front else front + {last.id.value}
  }

  /** The events that have an id and are the first with it. */
  function FirstEvents(events: seq<Event>): seq<Event> {
    if events == [] then []
    else
      var front, last := events[..|events| - 1], events[|events| - 1];
      if last.id.None? || last.id.value in Ids(front) then FirstEvents(front) else FirstEvents(front) + [last]
  }

  function MatterIds(matters: seq<Matter>): set<string> {
    if matters == [] then {}
    else MatterIds(matters[..|matters| - 1]) + {matters[|matters| - 1].officialMatterId}
  }

  /** The matters that are the first with their official id. */
  function FirstMatters(matters: seq<Matter>): seq<Matter> {
    if matters == [] then []
    else
      var front, last := matters[..|matters| - 1], matters[|matters| - 1];
      if last.officialMatterId in MatterIds(front) then FirstMatters(front) else FirstMatters(front) + [last]
  }

  /** The matters of all events, with repetitions. */
  function AllMatters(discover: Discovery, events: seq<Event>): seq<Matter> {
    if events == [] then []
    else AllMatters(discover, events[..|events| - 1]) + discover(events[|events| - 1].items).0
  }

  /** Of each event, as many attachments as the cap allows. */
  function CappedAttachments(discover: Discovery, events: seq<Event>, cap: nat): seq<Attachment> {
    if events == [] then []
    else CappedAttachments(discover, events[..|events| - 1], cap) + Take(discover(events[|events| - 1].items).1, cap)
  }

  ghost predicate DistinctEvents(events: seq<Event>) {
    && (forall i :: 0 <= i < |events| ==> events[i].id.Some?)
    && (forall i, j :: 0 <= i < j < |events| ==> events[i].id != events[j].id)
  }

  ghost predicate DistinctMatters(matters: seq<Matter>) {
    forall i, j :: 0 <= i < j < |matters| ==> matters[i].officialMatterId != matters[j].officialMatterId
  }

  lemma FirstEventsNext(read: seq<Event>, e: Event)
    ensures FirstEvents(read + [e]) ==
      if e.id.None? || e.id.value in Ids(read) then FirstEvents(read) else FirstEvents(read) + [e]
    ensures Ids(read + [e]) == if e.id.None? then Ids(read) else Ids(read) + {e.id.value}
  {
    var all := read + [e];
    assert all[..|all| - 1] == read;
  }

  lemma FirstMattersNext(matters: seq<Matter>, m: Matter)
    ensures FirstMatters(matters + [m]) ==
      if m.officialMatterId in MatterIds(matters) then FirstMatters(matters) else FirstMatters(matters) + [m]
    ensures MatterIds(matters + [m]) == MatterIds(matters) + {m.officialMatterId}
  {
    var all := matters + [m];
    assert all[..|all| - 1] == matters;
  }

  lemma AllMattersNext(discover: Discovery, events: seq<Event>, e: Event)
    ensures AllMatters(discover, events + [e]) == AllMatters(discover, events) + discover(e.items).0
  {
    assert (events + [e])[..|events|] == events;
  }

  lemma CappedAttachmentsNext(discover: Discovery, events: seq<Event>, e: Event, cap: nat)
    ensures CappedAttachments(discover, events + [e], cap) ==
      CappedAttachments(discover, events, cap) + Take(discover(e.items).1, cap)
  {
    assert (events + [e])[..|events|] == events;
  }

  /** The ids of the first occurrences are all ids, each once. */
  lemma {:induction false} FirstEventsExactly(read: seq<Event>)
    ensures DistinctEvents(FirstEvents(read))
    ensures forall id :: id in Ids(read) <==> exists i :: 0 <= i < |FirstEvents(read)| && FirstEvents(read)[i].id == Some(id)
  {
    if read != [] {
      var front, last := read[..|read| - 1], read[|read| - 1];
      FirstEventsExactly(front);
      if last.id.Some? && last.id.value !in Ids(front) {
        var first, all := FirstEvents(front), FirstEvents(read);
        assert all == first + [last];
        assert all[|first|].id == last.id;
        forall i | 0 <= i < |first| ensures all[i].id != last.id {
          assert first[i].id == Some(first[i].id.value);
        }
        forall id | id in Ids(front) ensures exists i :: 0 <= i < |all| && all[i].id == Some(id) {
          var i :| 0 <= i < |first| && first[i].id == Some(id);
          assert all[i].id == Some(id);
        }
      }
    }
  }

  lemma {:induction false} FirstMattersExactly(matters: seq<Matter>)
    ensures DistinctMatters(FirstMatters(matters))
    ensures forall i :: 0 <= i < |FirstMatters(matters)| ==> FirstMatters(matters)[i].officialMatterId in MatterIds(matters)
    ensures |FirstMatters(matters)| == |MatterIds(matters)|
  {
    if matters != [] {
      var front, last := matters[..|matters| - 1], matters[|matters| - 1];
      FirstMattersExactly(front);
      if last.officialMatterId !in MatterIds(front) {
        var first := FirstMatters(front);
        assert FirstMatters(matters) == first + [last];
        assert MatterIds(matters) == MatterIds(front) + {last.officialMatterId};
      } else {
        assert MatterIds(matters) == MatterIds(front);
      }
    }
  }

  lemma {:induction false} FirstEventsPrefix(a: seq<Event>, b: seq<Event>)
    ensures FirstEvents(a) <= FirstEvents(a + b)
  {
    if b == [] {
      assert a + b == a;
    } else {
      var front := b[..|b| - 1];
      FirstEventsPrefix(a, front);
      FirstEventsNext(a + front, b[|b| - 1]);
      assert a + b == a + front + [b[|b| - 1]];
    }
  }

  // ---------------------------------------------------------------- the collections

  lemma AddMatterExactly(known: seq<Matter>, m: Matter)
    ensures AddMatter(FirstMatters(known), MatterIds(known), m) == (FirstMatters(known + [m]), MatterIds(known + [m]))
  {
    FirstMattersNext(known, m);
  }

  lemma {:induction false} AddMattersExactly(known: seq<Matter>, found: seq<Matter>)
    ensures AddMatters(FirstMatters(known), MatterIds(known), found) == (FirstMatters(known + found), MatterIds(known + found))
  {
    if found == [] {
      assert known + found == known;
    } else {
      AddMattersExactly(known, found[..|found| - 1]);
      AddMatterExactly(known + found[..|found| - 1], found[|found| - 1]);
      AppendLast(known, found);
    }
  }

  /** The matters of the events collected so far are those of the events' first occurrences. */
  ghost predicate MattersOf(limits: Limits, events: seq<Event>, c: Collection) {
    && c.matters == FirstMatters(AllMatters(limits.discover, events))
    && c.seenMatters == MatterIds(AllMatters(limits.discover, events))
  }

  lemma MattersNext(limits: Limits, events: seq<Event>, c: Collection, id: string, e: Event)
    requires MattersOf(limits, events, c)
    ensures MattersOf(limits, events + [e], AddEvent(limits, c, id, e))
  {
    AllMattersNext(limits.discover, events, e);
    AddMattersExactly(AllMatters(limits.discover, events), limits.discover(e.items).0);
  }

  /**
   * The collections are what the first occurrences of the events read determine: the events
   * themselves, their matters without repetition, and their capped attachments.
   */
  lemma {:induction false} CollectExactly(limits: Limits, read: seq<Event>)
    ensures Collect(limits, read).events == FirstEvents(read)
    ensures Collect(limits, read).seenEvents == Ids(read)
    ensures MattersOf(limits, FirstEvents(read), Collect(limits, read))
    ensures Collect(limits, read).attachments ==
      CappedAttachments(limits.discover, FirstEvents(read), limits.maxAttachmentsPerMatter)
  {
    if read != [] {
      var front, last := read[..|read| - 1], read[|read| - 1];
      CollectExactly(limits, front);
      if last.id.Some? && last.id.value !in Ids(front) {
        MattersNext(limits, FirstEvents(front), Collect(limits, front), last.id.value, last);
        CappedAttachmentsNext(limits.discover, FirstEvents(front), last, limits.maxAttachmentsPerMatter);
      }
    }
  }

  // ---------------------------------------------------------------- what a pass returns

  lemma FirstEventsOfPrefix(read: seq<Event>, received: seq<Event>)
    requires read <= received
    ensures FirstEvents(read) <= FirstEvents(received) && DistinctEvents(FirstEvents(read))
  {
    FirstEventsExactly(read);
    FirstEventsPrefix(read, received[|read|..]);
    assert received == read + received[|read|..];
  }

  /** Events, matters and attachments of a successful pass. */
  lemma ReturnsFirstOccurrences(limits: Limits, fetch: Fetcher, read: seq<Event>, o: Outcome)
    requires Returned(limits, fetch, read, o)
    ensures o.events <= FirstEvents(Received(limits, fetch, o.pagesFetched))
    ensures DistinctEvents(o.events)
    ensures o.matters == FirstMatters(AllMatters(limits.discover, o.events)) && DistinctMatters(o.matters)
    ensures o.attachments == CappedAttachments(limits.discover, o.events, limits.maxAttachmentsPerMatter)
  {
    CollectExactly(limits, read);
    FirstMattersExactly(AllMatters(limits.discover, o.events));
    FirstEventsOfPrefix(read, Received(limits, fetch, o.pagesFetched));
  }

  function AtLeastOne(n: nat): nat {
    if n == 0 then 1 else n
  }

  function Sum(n: nat, k: nat): nat {
    if k == 0 then 0 else Sum(n, k - 1) + n
  }

  lemma {:induction false} SumIsProduct(n: nat, k: nat)
    ensures Sum(n, k) == n * k
  {
    if k > 0 {
      SumIsProduct(n, k - 1);
      assert n * k == n * (k - 1) + n;
    }
  }

  lemma {:induction false} AttachmentsAreCapped(discover: Discovery, events: seq<Event>, cap: nat)
    ensures |CappedAttachments(discover, events, cap)| <= Sum(cap, |events|)
  {
    if events != [] {
      AttachmentsAreCapped(discover, events[..|events| - 1], cap);
    }
  }

  /** The number of pages, events, attachments and matters that any source of pages can cause. */
  lemma ReturnsWithinBounds(limits: Limits, fetch: Fetcher, read: seq<Event>, o: Outcome)
    requires Returned(limits, fetch, read, o)
    ensures o.pagesFetched <= limits.maxPages && o.pagesFetched <= |o.events| + 1
    ensures |o.events| <= AtLeastOne(limits.maxEvents)
    ensures |o.attachments| <= limits.maxAttachmentsPerMatter * |o.events|
    ensures o.events == [] ==> o.matters == []
    ensures o.events != [] ==>
      |FirstMatters(AllMatters(limits.discover, o.events[..|o.events| - 1]))| < limits.maxMatters || |o.events| == 1
  {
    ReturnsFirstOccurrences(limits, fetch, read, o);
    AttachmentsAreCapped(limits.discover, o.events, limits.maxAttachmentsPerMatter);
    SumIsProduct(limits.maxAttachmentsPerMatter, |o.events|);
    BeforeTheLast(limits, fetch, read, o);
  }

  lemma {:induction false} MattersGrow(discover: Discovery, events: seq<Event>)
    requires events != []
    ensures |FirstMatters(AllMatters(discover, events[..|events| - 1]))| <= |FirstMatters(AllMatters(discover, events))|
  {
    FirstMattersGrow(AllMatters(discover, events[..|events| - 1]), discover(events[|events| - 1].items).0);
  }

  lemma {:induction false} FirstMattersGrow(a: seq<Matter>, b: seq<Matter>)
    ensures |FirstMatters(a)| <= |FirstMatters(a + b)|
  {
    if b == [] {
      assert a + b == a;
    } else {
      FirstMattersGrow(a, b[..|b| - 1]);
      FirstMattersNext(a + b[..|b| - 1], b[|b| - 1]);
      assert a + b == a + b[..|b| - 1] + [b[|b| - 1]];
    }
  }

  /** The caps were not reached before the last event that is returned. */
  lemma BeforeTheLast(limits: Limits, fetch: Fetcher, read: seq<Event>, o: Outcome)
    requires Returned(limits, fetch, read, o)
    ensures |o.events| <= AtLeastOne(limits.maxEvents)
    ensures |o.events| > 1 ==> |FirstMatters(AllMatters(limits.discover, o.events[..|o.events| - 1]))| < limits.maxMatters
  {
    CollectExactly(limits, read);
    if StoppedByCap(limits, read, Collect(limits, read), o.reason) {
      CollectExactly(limits, read[..|read| - 1]);
    } else if o.events != [] {
      MattersGrow(limits.discover, o.events);
    }
  }

  lemma ReasonOfCaps(limits: Limits, fetch: Fetcher, read: seq<Event>, c: Collection, pages: nat, reason: StopReason)
    requires Delivered(limits, fetch, read, c, pages, reason)
    ensures reason != RepeatedPage
    ensures reason == MaxEvents <==> c.events != [] && |c.events| >= limits.maxEvents
    ensures reason == MaxMatters <==> c.events != [] && |c.events| < limits.maxEvents && |c.matters| >= limits.maxMatters
  {
  }

  /** Each reason for stopping is reported exactly when it holds, and no page is ever a repeated one. */
  lemma ReasonExactly(limits: Limits, fetch: Fetcher, read: seq<Event>, o: Outcome)
    requires Returned(limits, fetch, read, o)
    ensures o.reason != RepeatedPage
    ensures o.reason == MaxEvents <==> o.events != [] && |o.events| >= limits.maxEvents
    ensures o.reason == MaxMatters <==>
      o.events != [] && |o.events| < limits.maxEvents && |o.matters| >= limits.maxMatters
  {
    ReasonOfCaps(limits, fetch, read, Collect(limits, read), o.pagesFetched, o.reason);
  }

  lemma EventsExactly(limits: Limits, read: seq<Event>, c: Collection)
    requires c == Collect(limits, read)
    ensures c.events == FirstEvents(read)
  {
    CollectExactly(limits, read);
  }

  lemma RanOutIsComplete(limits: Limits, fetch: Fetcher, read: seq<Event>, c: Collection, pages: nat, reason: StopReason)
    requires c == Collect(limits, read) && RanOut(limits, fetch, read, c, pages, reason)
    ensures c.events == FirstEvents(Received(limits, fetch, pages))
    ensures reason == MaxPages ==> pages == limits.maxPages
    ensures reason == NonProgressingPage ==> pages > 0 && c.events == FirstEvents(Received(limits, fetch, pages - 1))
  {
    EventsExactly(limits, read, c);
    if reason == NonProgressingPage {
      EventsExactly(limits, Received(limits, fetch, pages - 1), c);
    }
  }

  /** A pass that no cap stops has returned all there is in its pages. */
  lemma UncappedIsComplete(limits: Limits, fetch: Fetcher, read: seq<Event>, o: Outcome)
    requires Returned(limits, fetch, read, o)
    requires o.reason == MaxPages || o.reason == NonProgressingPage
    ensures o.events == FirstEvents(Received(limits, fetch, o.pagesFetched))
    ensures o.reason == MaxPages ==> o.pagesFetched == limits.maxPages
    ensures o.reason == NonProgressingPage ==>
      o.pagesFetched > 0 && o.events == FirstEvents(Received(limits, fetch, o.pagesFetched - 1))
  {
    RanOutIsComplete(limits, fetch, read, Collect(limits, read), o.pagesFetched, o.reason);
  }

  /** Call `k` asks for the `k`-th page, until the 32-bit offset saturates. */
  lemma {:induction false} OffsetExactly(limits: Limits, k: nat)
    ensures Offset(limits, k) == if k * limits.pageSize <= U32_MAX then k * limits.pageSize else U32_MAX
  {
    if k > 0 {
      OffsetExactly(limits, k - 1);
      assert k * limits.pageSize == (k - 1) * limits.pageSize + limits.pageSize;
    }
  }

  lemma {:induction false} OffsetsExactly(limits: Limits, n: nat, k: nat)
    requires k < n
    ensures Offsets(limits, n)[k] == if k * limits.pageSize <= U32_MAX then k * limits.pageSize else U32_MAX
  {
    if k == n - 1 {
      OffsetExactly(limits, k);
    } else {
      OffsetsExactly(limits, n - 1, k);
    }
  }

  // ---------------------------------------------------------------- discovery

  predicate IsMatterOf(item: Item, m: Matter) {
    !All(item.matterFile, IsWhitespace) && m == Matter(item.matterFile, item.title, item.status)
  }

  predicate IsAttachmentOf(matterFile: string, file: File, a: Attachment) {
    file.httpsUrl.Some? && a == Attachment(matterFile, file.officialId, file.name, file.httpsUrl.value)
  }

  ghost predicate HasAttachment(item: Item, a: Attachment) {
    !All(item.matterFile, IsWhitespace) && exists file :: file in item.files && IsAttachmentOf(item.matterFile, file, a)
  }

  lemma {:induction false} InAttachments(matterFile: string, files: seq<File>, a: Attachment)
    ensures a in AttachmentsIn(matterFile, files) <==> exists file :: file in files && IsAttachmentOf(matterFile, file, a)
  {
    if files != [] {
      var front, last := files[..|files| - 1], files[|files| - 1];
      InAttachments(matterFile, front, a);
      assert forall file :: file in files <==> file in front || file == last by {
        assert files == front + [last];
      }
      assert a in AttachmentsIn(matterFile, files) <==>
        a in AttachmentsIn(matterFile, front) || IsAttachmentOf(matterFile, last, a);
    }
  }

  /** Discovery finds the matters of the items that name one, and the attachments of those with an https link. */
  lemma {:induction false} DiscoverExactly(items: seq<Item>, m: Matter, a: Attachment)
    ensures m in Discover(items).0 <==> exists item :: item in items && IsMatterOf(item, m)
    ensures a in Discover(items).1 <==> exists item :: item in items && HasAttachment(item, a)
  {
    if items != [] {
      var front, last := items[..|items| - 1], items[|items| - 1];
      DiscoverExactly(front, m, a);
      InAttachments(last.matterFile, last.files, a);
      assert forall item :: item in items <==> item in front || item == last by {
        assert items == front + [last];
      }
      assert m in Discover(items).0 <==> m in Discover(front).0 || IsMatterOf(last, m);
      assert a in Discover(items).1 <==> a in Discover(front).1 || HasAttachment(last, a);
    }
  }
}
