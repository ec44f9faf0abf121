/** Which events a pass takes up, that its outcome is determined, and exactly when its caps hold. */
module PaginationCaps {
  import opened Wrappers
  import opened Text
  import opened Integers
  import opened Sequences
  import opened Pagination
  import opened PaginationLaws

  // ---------------------------------------------------------------- the events that are taken up

  /** How many distinct matters the events name. */
  function MatterCount(discover: Discovery, events: seq<Event>): nat {
    |FirstMatters(AllMatters(discover, events))|
  }

  lemma {:induction false} MatterCountGrows(discover: Discovery, events: seq<Event>, n: nat)
    requires n <= |events|
    ensures MatterCount(discover, events[..n]) <= MatterCount(discover, events)
  {
    if n == |events| {
      assert events[..n] == events;
    } else {
      var front := events[..|events| - 1];
      MattersGrow(discover, events);
      MatterCountGrows(discover, front, n);
      assert front[..n] == events[..n];
    }
  }

  /** After these events a pass reads on: it has none yet, or neither cap is reached. */
  predicate IsOpen(limits: Limits, events: seq<Event>) {
    events == [] || (|events| < limits.maxEvents && MatterCount(limits.discover, events) < limits.maxMatters)
  }

  lemma OpenBefore(limits: Limits, events: seq<Event>, i: nat, j: nat)
    requires i <= j <= |events| && IsOpen(limits, events[..j])
    ensures IsOpen(limits, events[..i])
  {
    MatterCountGrows(limits.discover, events[..j], i);
    assert events[..j][..i] == events[..i];
  }

  /** All there is to take up in the pages of a pass: the first event with each id. */
  function Available(limits: Limits, fetch: Fetcher, pages: nat): seq<Event> {
    FirstEvents(Received(limits, fetch, pages))
  }

  /** The `k`-th of the events available is taken up: the caps are not reached by those before it. */
  predicate TakesUp(limits: Limits, available: seq<Event>, k: int) {
    0 < k <= |available| && IsOpen(limits, available[..k - 1])
  }

  lemma StopsWhereCapped(limits: Limits, fetch: Fetcher, read: seq<Event>, o: Outcome)
    requires Returned(limits, fetch, read, o)
    ensures o.events <= Available(limits, fetch, o.pagesFetched)
    ensures o.events != [] ==> IsOpen(limits, o.events[..|o.events| - 1])
    ensures o.events != Available(limits, fetch, o.pagesFetched) ==> !IsOpen(limits, o.events)
  {
    ReturnsFirstOccurrences(limits, fetch, read, o);
    BeforeTheLast(limits, fetch, read, o);
    ReasonExactly(limits, fetch, read, o);
    if o.reason == MaxPages || o.reason == NonProgressingPage {
      UncappedIsComplete(limits, fetch, read, o);
    }
  }

  lemma TakenUpIsPrefix(limits: Limits, available: seq<Event>, n: nat, k: int)
    requires n <= |available|
    requires n > 0 ==> IsOpen(limits, available[..n - 1])
    requires n < |available| ==> !IsOpen(limits, available[..n])
    ensures TakesUp(limits, available, k) <==> 0 < k <= n
  {
    if 0 < k <= n {
      OpenBefore(limits, available, k - 1, n - 1);
    } else if TakesUp(limits, available, k) {
      OpenBefore(limits, available, n, k - 1);
    }
  }

  lemma PrefixTaken(limits: Limits, available: seq<Event>, events: seq<Event>, k: int)
    requires events <= available
    requires events != [] ==> IsOpen(limits, events[..|events| - 1])
    requires events != available ==> !IsOpen(limits, events)
    ensures TakesUp(limits, available, k) <==> 0 < k <= |events|
  {
    var n := |events|;
    assert available[..n] == events;
    assert n > 0 ==> available[..n - 1] == events[..n - 1];
    TakenUpIsPrefix(limits, available, n, k);
  }

  /** A pass returns the events available that are taken up, and these alone. */
  lemma TakenUpExactly(limits: Limits, fetch: Fetcher, read: seq<Event>, o: Outcome)
    requires Returned(limits, fetch, read, o)
    ensures o.events <= Available(limits, fetch, o.pagesFetched)
    ensures forall k :: TakesUp(limits, Available(limits, fetch, o.pagesFetched), k) <==> 0 < k <= |o.events|
  {
    StopsWhereCapped(limits, fetch, read, o);
    forall k ensures TakesUp(limits, Available(limits, fetch, o.pagesFetched), k) <==> 0 < k <= |o.events| {
      PrefixTaken(limits, Available(limits, fetch, o.pagesFetched), o.events, k);
    }
  }

  // ---------------------------------------------------------------- one outcome

  lemma {:induction false} ReceivedGrows(limits: Limits, fetch: Fetcher, m: nat, n: nat)
    requires m <= n
    ensures Received(limits, fetch, m) <= Received(limits, fetch, n)
  {
    if m < n {
      ReceivedGrows(limits, fetch, m, n - 1);
    }
  }

  lemma PagesNest(limits: Limits, fetch: Fetcher, n: nat, pages: nat)
    requires n < pages
    ensures Received(limits, fetch, n) <= Received(limits, fetch, pages)
    ensures |Received(limits, fetch, n)| <= |Received(limits, fetch, pages - 1)|
  {
    ReceivedGrows(limits, fetch, n, pages - 1);
    ReceivedGrows(limits, fetch, n, pages);
  }

  lemma OpenIsBelowCaps(limits: Limits, read: seq<Event>)
    ensures BelowCaps(limits, Collect(limits, read)) <==> IsOpen(limits, FirstEvents(read))
  {
    CollectExactly(limits, read);
  }

  lemma OpenOfPrefix(limits: Limits, a: seq<Event>, b: seq<Event>)
    requires a <= b && BelowCaps(limits, Collect(limits, b))
    ensures IsOpen(limits, FirstEvents(a))
  {
    OpenIsBelowCaps(limits, b);
    FirstEventsOfPrefix(a, b);
    var n := |FirstEvents(a)|;
    assert FirstEvents(b)[..n] == FirstEvents(a) && FirstEvents(b)[..|FirstEvents(b)|] == FirstEvents(b);
    OpenBefore(limits, FirstEvents(b), n, |FirstEvents(b)|);
  }

  lemma OpenBelowRead(limits: Limits, read: seq<Event>, all: seq<Event>, earlier: seq<Event>)
    requires earlier <= all && read <= all && |earlier| < |read|
    requires BelowCaps(limits, Collect(limits, read[..|read| - 1]))
    ensures IsOpen(limits, FirstEvents(earlier))
  {
    ShorterPrefix(earlier, read, all);
    OpenOfPrefix(limits, earlier, read[..|read| - 1]);
  }

  lemma StepOfDelivered(limits: Limits, fetch: Fetcher, read: seq<Event>, o: Outcome)
    requires Returned(limits, fetch, read, o) && o.pagesFetched > 0
    ensures read <= Received(limits, fetch, o.pagesFetched)
    ensures (read == Received(limits, fetch, o.pagesFetched) && BelowCaps(limits, Collect(limits, read)))
      || (|Received(limits, fetch, o.pagesFetched - 1)| < |read| && BelowCaps(limits, Collect(limits, read[..|read| - 1])))
  {
  }

  lemma OpenEarlier(limits: Limits, read: seq<Event>, all: seq<Event>, before: seq<Event>, earlier: seq<Event>)
    requires earlier <= all && |earlier| <= |before| && read <= all
    requires (read == all && BelowCaps(limits, Collect(limits, read)))
      || (|before| < |read| && BelowCaps(limits, Collect(limits, read[..|read| - 1])))
    ensures IsOpen(limits, FirstEvents(earlier))
  {
    if |before| < |read| && BelowCaps(limits, Collect(limits, read[..|read| - 1])) {
      OpenBelowRead(limits, read, all, earlier);
    } else {
      OpenOfPrefix(limits, earlier, read);
    }
  }

  /** No cap is reached in the pages before the last. */
  lemma OpenUntilTheLastPage(limits: Limits, fetch: Fetcher, read: seq<Event>, o: Outcome, n: nat)
    requires Returned(limits, fetch, read, o) && n < o.pagesFetched
    ensures IsOpen(limits, Available(limits, fetch, n))
  {
    PagesNest(limits, fetch, n, o.pagesFetched);
    StepOfDelivered(limits, fetch, read, o);
    OpenEarlier(limits, read, Received(limits, fetch, o.pagesFetched), Received(limits, fetch, o.pagesFetched - 1), Received(limits, fetch, n));
  }

  lemma ReachedIsNotOpen(limits: Limits, fetch: Fetcher, read: seq<Event>, c: Collection, pages: nat, reason: StopReason)
    requires c == Collect(limits, read) && read <= Received(limits, fetch, pages)
    requires ReachedCap(limits, fetch, read, c, pages, reason)
    ensures !IsOpen(limits, Available(limits, fetch, pages))
  {
    var all := Available(limits, fetch, pages);
    OpenIsBelowCaps(limits, read);
    FirstEventsOfPrefix(read, Received(limits, fetch, pages));
    var n := |FirstEvents(read)|;
    assert all[..n] == FirstEvents(read) && all[..|all|] == all;
    if IsOpen(limits, all) {
      OpenBefore(limits, all, n, |all|);
    }
  }

  /** A pass does not stop before a page that another pass over the same source goes on to. */
  lemma NoneStopsEarlier(limits: Limits, fetch: Fetcher, read: seq<Event>, o: Outcome, read': seq<Event>, o': Outcome)
    requires Returned(limits, fetch, read, o) && Returned(limits, fetch, read', o')
    ensures o.pagesFetched >= o'.pagesFetched
  {
    var p := o.pagesFetched;
    if p < o'.pagesFetched {
      OpenUntilTheLastPage(limits, fetch, read', o', p);
      if ReachedCap(limits, fetch, read, Collect(limits, read), p, o.reason) {
        ReachedIsNotOpen(limits, fetch, read, Collect(limits, read), p, o.reason);
      } else {
        LastPageDecides(limits, fetch, read, o);
      }
    }
  }

  lemma SameReason(limits: Limits, fetch: Fetcher, read: seq<Event>, o: Outcome, read': seq<Event>, o': Outcome)
    requires Returned(limits, fetch, read, o) && Returned(limits, fetch, read', o')
    requires o.pagesFetched == o'.pagesFetched && o.events == o'.events && o.matters == o'.matters
    ensures o.reason == o'.reason
  {
    ReasonExactly(limits, fetch, read, o);
    ReasonExactly(limits, fetch, read', o');
    LastPageDecides(limits, fetch, read, o);
    LastPageDecides(limits, fetch, read', o');
  }

  lemma LastPageDecides(limits: Limits, fetch: Fetcher, read: seq<Event>, o: Outcome)
    requires Returned(limits, fetch, read, o)
    ensures o.reason == NonProgressingPage ==> o.pagesFetched > 0 && !BringsNew(limits, fetch, o.pagesFetched - 1)
    ensures o.reason == MaxPages && o.pagesFetched > 0 ==> BringsNew(limits, fetch, o.pagesFetched - 1)
  {
  }

  /** Limits and page source determine what a pass returns: the events, the pages fetched and the reason. */
  lemma OutcomeIsDetermined(limits: Limits, fetch: Fetcher, read: seq<Event>, o: Outcome, read': seq<Event>, o': Outcome)
    requires Returned(limits, fetch, read, o) && Returned(limits, fetch, read', o')
    ensures o == o'
  {
    NoneStopsEarlier(limits, fetch, read, o, read', o');
    NoneStopsEarlier(limits, fetch, read', o', read, o);
    TakenUpExactly(limits, fetch, read, o);
    TakenUpExactly(limits, fetch, read', o');
    SameLength(limits, Available(limits, fetch, o.pagesFetched), o.events, o'.events);
    ReturnsFirstOccurrences(limits, fetch, read, o);
    ReturnsFirstOccurrences(limits, fetch, read', o');
    SameReason(limits, fetch, read, o, read', o');
  }

  lemma SameLength(limits: Limits, available: seq<Event>, a: seq<Event>, b: seq<Event>)
    requires a <= available && forall k :: TakesUp(limits, available, k) <==> 0 < k <= |a|
    requires b <= available && forall k :: TakesUp(limits, available, k) <==> 0 < k <= |b|
    ensures a == b
  {
    assert TakesUp(limits, available, |a|) <==> 0 < |a|;
    assert TakesUp(limits, available, |b|) <==> 0 < |b|;
  }

  // ---------------------------------------------------------------- matters

  lemma MatterIdsConcatNext(a: seq<Matter>, front: seq<Matter>, m: Matter)
    requires MatterIds(a + front) == MatterIds(a) + MatterIds(front)
    ensures MatterIds(a + front + [m]) == MatterIds(a) + MatterIds(front + [m])
  {
    FirstMattersNext(a + front, m);
    FirstMattersNext(front, m);
  }

  lemma {:induction false} MatterIdsConcat(a: seq<Matter>, b: seq<Matter>)
    ensures MatterIds(a + b) == MatterIds(a) + MatterIds(b)
  {
    if b == [] {
      assert a + b == a;
    } else {
      var front, m := b[..|b| - 1], b[|b| - 1];
      assert front + [m] == b;
      MatterIdsConcat(a, front);
      MatterIdsConcatNext(a, front, m);
      AppendLast(a, b);
    }
  }

  /** The matters of the events before the last. */
  function MattersBefore(discover: Discovery, events: seq<Event>): seq<Matter>
    requires events != []
  {
    AllMatters(discover, events[..|events| - 1])
  }

  /** The official ids that the last event names and none before it does. */
  function NewIds(discover: Discovery, events: seq<Event>): set<string>
    requires events != []
  {
    MatterIds(discover(events[|events| - 1].items).0) - MatterIds(MattersBefore(discover, events))
  }

  lemma MattersGrowByNewIds(discover: Discovery, events: seq<Event>)
    requires events != []
    ensures |FirstMatters(AllMatters(discover, events))| ==
      |FirstMatters(MattersBefore(discover, events))| + |NewIds(discover, events)|
  {
    var before, found := MattersBefore(discover, events), discover(events[|events| - 1].items).0;
    FirstMattersExactly(before);
    FirstMattersExactly(before + found);
    MatterIdsConcat(before, found);
    assert MatterIds(before) + MatterIds(found) == MatterIds(before) + NewIds(discover, events);
  }

  /**
   * The cap on matters is passed if and only if some event is taken up with which the events available
   * name more matters than the cap.
   */
  lemma MatterCapExactly(limits: Limits, fetch: Fetcher, read: seq<Event>, o: Outcome)
    requires Returned(limits, fetch, read, o)
    ensures |o.matters| > limits.maxMatters <==>
      var available := Available(limits, fetch, o.pagesFetched);
      exists k :: TakesUp(limits, available, k) && MatterCount(limits.discover, available[..k]) > limits.maxMatters
  {
    var available := Available(limits, fetch, o.pagesFetched);
    ReturnsFirstOccurrences(limits, fetch, read, o);
    TakenUpExactly(limits, fetch, read, o);
    NamesMoreSomewhere(limits, available, o.events);
  }

  lemma NamesMoreSomewhere(limits: Limits, available: seq<Event>, events: seq<Event>)
    requires events <= available && forall k :: TakesUp(limits, available, k) <==> 0 < k <= |events|
    ensures MatterCount(limits.discover, events) > limits.maxMatters <==>
      exists k :: TakesUp(limits, available, k) && MatterCount(limits.discover, available[..k]) > limits.maxMatters
  {
    var n := |events|;
    assert available[..n] == events;
    if MatterCount(limits.discover, events) > limits.maxMatters {
      assert TakesUp(limits, available, n);
    }
    if k :| TakesUp(limits, available, k) && MatterCount(limits.discover, available[..k]) > limits.maxMatters {
      assert events[..k] == available[..k];
      MatterCountGrows(limits.discover, events, k);
    }
  }

  lemma {:induction false} FewMatterIds(matters: seq<Matter>)
    ensures |MatterIds(matters)| <= |matters|
  {
    if matters != [] {
      FewMatterIds(matters[..|matters| - 1]);
    }
  }

  lemma FewNewIds(discover: Discovery, events: seq<Event>)
    requires events != []
    ensures |NewIds(discover, events)| <= |discover(events[|events| - 1].items).0|
  {
    var found, known := MatterIds(discover(events[|events| - 1].items).0), MatterIds(MattersBefore(discover, events));
    FewMatterIds(discover(events[|events| - 1].items).0);
    assert found == (found - known) + (found * known);
  }

  /** Events of at most one matter each never bring more than the cap. */
  lemma SingleMattersKeepTheCap(limits: Limits, fetch: Fetcher, read: seq<Event>, o: Outcome)
    requires Returned(limits, fetch, read, o) && limits.maxMatters > 0
    requires forall e :: e in o.events ==> |limits.discover(e.items).0| <= 1
    ensures |o.matters| <= limits.maxMatters
  {
    ReturnsFirstOccurrences(limits, fetch, read, o);
    if o.events != [] {
      MattersGrowByNewIds(limits.discover, o.events);
      FewNewIds(limits.discover, o.events);
      ReturnsWithinBounds(limits, fetch, read, o);
      if |o.events| == 1 {
        assert o.events[..0] == [];
        assert MattersBefore(limits.discover, o.events) == [];
      }
    }
  }

  // ---------------------------------------------------------------- attachments

  function AllAttachments(discover: Discovery, events: seq<Event>): seq<Attachment> {
    if events == [] then []
    else AllAttachments(discover, events[..|events| - 1]) + discover(events[|events| - 1].items).1
  }

  predicate NoEventLoses(discover: Discovery, events: seq<Event>, cap: nat) {
    forall e :: e in events ==> |discover(e.items).1| <= cap
  }

  lemma {:induction false} NoneLostExactly(discover: Discovery, events: seq<Event>, cap: nat)
    ensures |CappedAttachments(discover, events, cap)| <= |AllAttachments(discover, events)|
    ensures CappedAttachments(discover, events, cap) == AllAttachments(discover, events) <==> NoEventLoses(discover, events, cap)
    ensures |CappedAttachments(discover, events, cap)| == |AllAttachments(discover, events)| <==> NoEventLoses(discover, events, cap)
  {
    if events != [] {
      var front, last := events[..|events| - 1], events[|events| - 1];
      NoneLostExactly(discover, front, cap);
      assert forall e :: e in events <==> e in front || e == last by {
        assert events == front + [last];
      }
    }
  }

  /** A pass loses an attachment if and only if it takes up an event with more than the cap. */
  lemma AttachmentsAreCompleteExactly(limits: Limits, fetch: Fetcher, read: seq<Event>, o: Outcome)
    requires Returned(limits, fetch, read, o)
    ensures o.attachments != AllAttachments(limits.discover, o.events) <==>
      var available := Available(limits, fetch, o.pagesFetched);
      exists k :: TakesUp(limits, available, k) && |limits.discover(available[k - 1].items).1| > limits.maxAttachmentsPerMatter
  {
    var available, cap := Available(limits, fetch, o.pagesFetched), limits.maxAttachmentsPerMatter;
    ReturnsFirstOccurrences(limits, fetch, read, o);
    NoneLostExactly(limits.discover, o.events, cap);
    TakenUpExactly(limits, fetch, read, o);
    LosesSomewhere(limits, available, o.events);
  }

  lemma LosesSomewhere(limits: Limits, available: seq<Event>, events: seq<Event>)
    requires events <= available && forall k :: TakesUp(limits, available, k) <==> 0 < k <= |events|
    ensures !NoEventLoses(limits.discover, events, limits.maxAttachmentsPerMatter) <==>
      exists k :: TakesUp(limits, available, k) && |limits.discover(available[k - 1].items).1| > limits.maxAttachmentsPerMatter
  {
    var cap := limits.maxAttachmentsPerMatter;
    if !NoEventLoses(limits.discover, events, cap) {
      var i :| 0 <= i < |events| && |limits.discover(events[i].items).1| > cap;
      assert TakesUp(limits, available, i + 1);
    }
    if k :| TakesUp(limits, available, k) && |limits.discover(available[k - 1].items).1| > cap {
      assert events[k - 1] in events;
    }
  }

  /** How many of the attachments belong to a matter. */
  function CountFor(matterFile: string, attachments: seq<Attachment>): nat {
    if attachments == [] then 0
    else
      CountFor(matterFile, attachments[..|attachments| - 1])
      + if attachments[|attachments| - 1].matterFile == matterFile then 1 else 0
  }

  lemma {:induction false} CountForConcat(matterFile: string, a: seq<Attachment>, b: seq<Attachment>)
    ensures CountFor(matterFile, a + b) == CountFor(matterFile, a) + CountFor(matterFile, b)
    ensures CountFor(matterFile, b) <= |b|
  {
    if b == [] {
      assert a + b == a;
    } else {
      CountForConcat(matterFile, a, b[..|b| - 1]);
      assert (a + b)[..|a + b| - 1] == a + b[..|b| - 1];
    }
  }

  /** The attachments of a matter among those that an event may keep. */
  function Share(discover: Discovery, cap: nat, matterFile: string, e: Event): nat {
    CountFor(matterFile, Take(discover(e.items).1, cap))
  }

  function Shares(discover: Discovery, cap: nat, matterFile: string, events: seq<Event>): nat {
    if events == [] then 0
    else Shares(discover, cap, matterFile, events[..|events| - 1]) + Share(discover, cap, matterFile, events[|events| - 1])
  }

  lemma ShareIsCapped(discover: Discovery, cap: nat, matterFile: string, e: Event)
    ensures Share(discover, cap, matterFile, e) <= cap
  {
    CountForConcat(matterFile, [], Take(discover(e.items).1, cap));
  }

  lemma {:induction false} CountIsShares(discover: Discovery, cap: nat, matterFile: string, events: seq<Event>)
    ensures CountFor(matterFile, CappedAttachments(discover, events, cap)) == Shares(discover, cap, matterFile, events)
  {
    if events != [] {
      var front, last := events[..|events| - 1], events[|events| - 1];
      CountIsShares(discover, cap, matterFile, front);
      CountForConcat(matterFile, CappedAttachments(discover, front, cap), Take(discover(last.items).1, cap));
    }
  }

  lemma {:induction false} SharesGrow(discover: Discovery, cap: nat, matterFile: string, events: seq<Event>, n: nat)
    requires n <= |events|
    ensures Shares(discover, cap, matterFile, events[..n]) <= Shares(discover, cap, matterFile, events)
  {
    if n == |events| {
      assert events[..n] == events;
    } else {
      var front := events[..|events| - 1];
      SharesGrow(discover, cap, matterFile, front, n);
      assert front[..n] == events[..n];
    }
  }

  /** With the first `k` events, each of which is taken up, a matter has got more attachments than the cap. */
  predicate PassesAt(limits: Limits, available: seq<Event>, matterFile: string, k: int) {
    && TakesUp(limits, available, k)
    && Shares(limits.discover, limits.maxAttachmentsPerMatter, matterFile, available[..k]) > limits.maxAttachmentsPerMatter
  }

  /**
   * A matter gets more attachments than the cap if and only if its attachments, as many of each event
   * as the cap allows, add up to more with some event that is taken up.
   */
  lemma AttachmentCapExactly(limits: Limits, fetch: Fetcher, read: seq<Event>, o: Outcome, matterFile: string)
    requires Returned(limits, fetch, read, o)
    ensures CountFor(matterFile, o.attachments) > limits.maxAttachmentsPerMatter <==>
      exists k :: PassesAt(limits, Available(limits, fetch, o.pagesFetched), matterFile, k)
  {
    var available := Available(limits, fetch, o.pagesFetched);
    ReturnsFirstOccurrences(limits, fetch, read, o);
    CountIsShares(limits.discover, limits.maxAttachmentsPerMatter, matterFile, o.events);
    TakenUpExactly(limits, fetch, read, o);
    PassesSomewhere(limits, available, o.events, matterFile);
  }

  lemma PassesSomewhere(limits: Limits, available: seq<Event>, events: seq<Event>, matterFile: string)
    requires events <= available && forall k :: TakesUp(limits, available, k) <==> 0 < k <= |events|
    ensures Shares(limits.discover, limits.maxAttachmentsPerMatter, matterFile, events) > limits.maxAttachmentsPerMatter <==>
      exists k :: PassesAt(limits, available, matterFile, k)
  {
    var n := |events|;
    assert available[..n] == events;
    if Shares(limits.discover, limits.maxAttachmentsPerMatter, matterFile, events) > limits.maxAttachmentsPerMatter {
      assert PassesAt(limits, available, matterFile, n);
    }
    if k :| PassesAt(limits, available, matterFile, k) {
      assert events[..k] == available[..k];
      SharesGrow(limits.discover, limits.maxAttachmentsPerMatter, matterFile, events, k);
    }
  }

  predicate BothShare(discover: Discovery, cap: nat, matterFile: string, e: Event, f: Event) {
    Share(discover, cap, matterFile, e) > 0 && Share(discover, cap, matterFile, f) > 0
  }

  /** A matter that passes its cap has attachments in two events. */
  lemma {:induction false} PassingTakesTwoEvents(discover: Discovery, cap: nat, matterFile: string, events: seq<Event>)
    requires Shares(discover, cap, matterFile, events) > cap
    ensures exists i, j :: 0 <= i < j < |events| && BothShare(discover, cap, matterFile, events[i], events[j])
  {
    var front, last := events[..|events| - 1], events[|events| - 1];
    ShareIsCapped(discover, cap, matterFile, last);
    if Share(discover, cap, matterFile, last) == 0 {
      PassingTakesTwoEvents(discover, cap, matterFile, front);
      var i, j :| 0 <= i < j < |front| && BothShare(discover, cap, matterFile, front[i], front[j]);
      assert BothShare(discover, cap, matterFile, events[i], events[j]);
    } else {
      var i := SharingEvent(discover, cap, matterFile, front);
      assert BothShare(discover, cap, matterFile, events[i], last);
    }
  }

  lemma {:induction false} SharingEvent(discover: Discovery, cap: nat, matterFile: string, events: seq<Event>) returns (i: nat)
    requires Shares(discover, cap, matterFile, events) > 0
    ensures i < |events| && Share(discover, cap, matterFile, events[i]) > 0
  {
    if Share(discover, cap, matterFile, events[|events| - 1]) > 0 {
      i := |events| - 1;
    } else {
      i := SharingEvent(discover, cap, matterFile, events[..|events| - 1]);
    }
  }

  // ---------------------------------------------------------------- what the caps do not promise

  function OneFile(matterFile: string): Item {
    Item(matterFile, "", "", [File("f", "", Some("u"))])
  }

  function MatterOf(matterFile: string): Matter {
    Matter(matterFile, "", "")
  }

  function FileOf(matterFile: string): Attachment {
    Attachment(matterFile, "f", "", "u")
  }

  lemma DiscoverOne(a: string)
    requires !All(a, IsWhitespace)
    ensures Discover([OneFile(a)]) == ([MatterOf(a)], [FileOf(a)])
  {
    var item := OneFile(a);
    assert [item][..0] == [];
    assert Discover([]) == ([], []);
    FilesOfOne(a);
    assert item.files == OneFile(a).files && [] + [MatterOf(a)] == [MatterOf(a)] && [] + [FileOf(a)] == [FileOf(a)];
  }

  lemma FilesOfOne(a: string)
    ensures AttachmentsIn(a, OneFile(a).files) == [FileOf(a)]
  {
    var files := OneFile(a).files;
    assert files[..0] == [];
    assert AttachmentsIn(a, []) == [];
  }

  lemma DiscoverTwo(a: string, b: string)
    requires !All(a, IsWhitespace) && !All(b, IsWhitespace)
    ensures Discover([OneFile(a), OneFile(b)]) == ([MatterOf(a), MatterOf(b)], [FileOf(a), FileOf(b)])
  {
    var items := [OneFile(a), OneFile(b)];
    assert items[..1] == [OneFile(a)];
    DiscoverOne(a);
    FilesOfOne(b);
    assert [MatterOf(a)] + [MatterOf(b)] == [MatterOf(a), MatterOf(b)];
    assert [FileOf(a)] + [FileOf(b)] == [FileOf(a), FileOf(b)];
  }

  lemma AddOneMatter(matters: seq<Matter>, seen: set<string>, m: Matter)
    ensures AddMatters(matters, seen, [m]) == AddMatter(matters, seen, m)
  {
    assert [m][..0] == [];
    assert AddMatters(matters, seen, []) == (matters, seen);
  }

  lemma AddTwoMatters(matters: seq<Matter>, seen: set<string>, m: Matter, n: Matter)
    ensures var first := AddMatter(matters, seen, m);
      AddMatters(matters, seen, [m, n]) == AddMatter(first.0, first.1, n)
  {
    assert [m, n][..1] == [m];
    AddOneMatter(matters, seen, m);
  }

  /** One event that names two matters, with a file each: against caps of one, both matters and one file come back. */
  lemma OneEventOvershoots(limits: Limits, fetch: Fetcher, event: Event, o: Outcome)
    requires limits == Limits(1, 1, 10, 1, 1, Discover)
    requires event == Event(Some("1"), [OneFile("A"), OneFile("B")], "")
    requires fetch(0, 0) == Page(2, Array([event]))
    requires o == Outcome([event], [MatterOf("A"), MatterOf("B")], [FileOf("A")], 1, MaxMatters)
    ensures Returned(limits, fetch, [event], o)
    ensures |o.matters| > limits.maxMatters
    ensures o.attachments != AllAttachments(limits.discover, o.events)
    ensures forall m :: CountFor(m, AllAttachments(limits.discover, o.events)) <= limits.maxAttachmentsPerMatter
  {
    assert !IsWhitespace("A"[0]) && !IsWhitespace("B"[0]);
    DiscoverTwo("A", "B");
    CollectedFromOne(limits, event);
    OnePageReceived(limits, fetch, [event]);
    assert [event][..0] == [];
    assert StoppedByCap(limits, [event], Collect(limits, [event]), MaxMatters);
    TwoFilesOfTwo(limits, event);
  }

  lemma TwoFilesOfTwo(limits: Limits, event: Event)
    requires limits.discover(event.items).1 == [FileOf("A"), FileOf("B")]
    ensures AllAttachments(limits.discover, [event]) == [FileOf("A"), FileOf("B")]
    ensures forall m :: CountFor(m, AllAttachments(limits.discover, [event])) <= 1
  {
    assert [event][..0] == [];
    assert AllAttachments(limits.discover, []) == [];
    var both := [FileOf("A"), FileOf("B")];
    assert both[..1] == [FileOf("A")] && [FileOf("A")][..0] == [];
    assert "A"[0] != "B"[0];
    forall m ensures CountFor(m, both) <= 1 {
      assert CountFor(m, [FileOf("A")]) == if m == "A" then 1 else 0;
    }
  }

  lemma CollectedFromOne(limits: Limits, event: Event)
    requires limits == Limits(1, 1, 10, 1, 1, Discover)
    requires event == Event(Some("1"), [OneFile("A"), OneFile("B")], "")
    requires Discover(event.items) == ([MatterOf("A"), MatterOf("B")], [FileOf("A"), FileOf("B")])
    ensures Collect(limits, [event]) ==
      Collection([event], [MatterOf("A"), MatterOf("B")], [FileOf("A")], {"1"}, {"A", "B"})
  {
    TwoMattersAdded();
    CollectNext(limits, [], event);
    assert [] + [event] == [event];
    assert Take([FileOf("A"), FileOf("B")], 1) == [FileOf("A")];
    assert [] + [FileOf("A")] == [FileOf("A")] && {} + {"1"} == {"1"};
  }

  lemma TwoMattersAdded()
    ensures AddMatters([], {}, [MatterOf("A"), MatterOf("B")]) == ([MatterOf("A"), MatterOf("B")], {"A", "B"})
  {
    var none: seq<Matter>, noIds: set<string> := [], {};
    assert "A"[0] != "B"[0];
    AddTwoMatters(none, noIds, MatterOf("A"), MatterOf("B"));
    assert none + [MatterOf("A")] == [MatterOf("A")] && noIds + {"A"} == {"A"};
    assert [MatterOf("A")] + [MatterOf("B")] == [MatterOf("A"), MatterOf("B")] && {"A"} + {"B"} == {"A", "B"};
  }

  lemma OnePageReceived(limits: Limits, fetch: Fetcher, events: seq<Event>)
    requires fetch(0, 0) == Page(2, Array(events))
    ensures Received(limits, fetch, 1) == events
  {
    assert Received(limits, fetch, 0) == [];
    assert Answer(limits, fetch, 0) == fetch(0, 0);
  }

  /** One matter in two events: with a cap of one attachment for a matter, two come back. */
  lemma TwoEventsDoubleTheCap(limits: Limits, fetch: Fetcher, first: Event, second: Event, o: Outcome)
    requires limits == Limits(1, 1, 10, 10, 1, Discover)
    requires first == Event(Some("1"), [OneFile("A")], "") && second == Event(Some("2"), [OneFile("A")], "")
    requires fetch(0, 0) == Page(2, Array([first, second]))
    requires o == Outcome([first, second], [MatterOf("A")], [FileOf("A"), FileOf("A")], 1, MaxPages)
    ensures Returned(limits, fetch, [first, second], o)
    ensures CountFor("A", o.attachments) == 2 * limits.maxAttachmentsPerMatter
  {
    assert !IsWhitespace("A"[0]);
    DiscoverOne("A");
    CollectedFromTwo(limits, first, second);
    OnePageReceived(limits, fetch, [first, second]);
    assert RanOut(limits, fetch, [first, second], Collect(limits, [first, second]), 1, MaxPages);
    var both := [FileOf("A"), FileOf("A")];
    assert both[..1] == [FileOf("A")] && [FileOf("A")][..0] == [];
    assert CountFor("A", [FileOf("A")]) == 1;
  }

  lemma TakeUpOne(limits: Limits, c: Collection, id: string, e: Event, matter: Matter, file: Attachment)
    requires e.id == Some(id) && id !in c.seenEvents && limits.maxAttachmentsPerMatter == 1
    requires limits.discover(e.items) == ([matter], [file])
    ensures var (matters, seen) := AddMatter(c.matters, c.seenMatters, matter);
      TakeUp(limits, c, e) == Collection(c.events + [e], matters, c.attachments + [file], c.seenEvents + {id}, seen)
  {
    AddOneMatter(c.matters, c.seenMatters, matter);
  }

  lemma FirstOfTwo(limits: Limits, first: Event)
    requires limits == Limits(1, 1, 10, 10, 1, Discover) && first == Event(Some("1"), [OneFile("A")], "")
    requires Discover([OneFile("A")]) == ([MatterOf("A")], [FileOf("A")])
    ensures Collect(limits, [first]) == Collection([first], [MatterOf("A")], [FileOf("A")], {"1"}, {"A"})
  {
    CollectNext(limits, [], first);
    TakeUpOne(limits, Nothing, "1", first, MatterOf("A"), FileOf("A"));
    assert [] + [first] == [first] && [] + [MatterOf("A")] == [MatterOf("A")] && [] + [FileOf("A")] == [FileOf("A")];
    assert {} + {"1"} == {"1"} && {} + {"A"} == {"A"};
  }

  lemma SecondOfTwo(limits: Limits, c: Collection, first: Event, second: Event)
    requires limits == Limits(1, 1, 10, 10, 1, Discover) && second == Event(Some("2"), [OneFile("A")], "")
    requires Discover([OneFile("A")]) == ([MatterOf("A")], [FileOf("A")])
    requires c == Collection([first], [MatterOf("A")], [FileOf("A")], {"1"}, {"A"})
    ensures TakeUp(limits, c, second) ==
      Collection([first, second], [MatterOf("A")], [FileOf("A"), FileOf("A")], {"1", "2"}, {"A"})
  {
    assert "1"[0] != "2"[0];
    TakeUpOne(limits, c, "2", second, MatterOf("A"), FileOf("A"));
    assert [first] + [second] == [first, second] && [FileOf("A")] + [FileOf("A")] == [FileOf("A"), FileOf("A")];
    assert {"1"} + {"2"} == {"1", "2"} && {"A"} + {"A"} == {"A"};
  }

  lemma CollectedFromTwo(limits: Limits, first: Event, second: Event)
    requires limits == Limits(1, 1, 10, 10, 1, Discover)
    requires first == Event(Some("1"), [OneFile("A")], "") && second == Event(Some("2"), [OneFile("A")], "")
    requires Discover([OneFile("A")]) == ([MatterOf("A")], [FileOf("A")])
    ensures Collect(limits, [first, second]) ==
      Collection([first, second], [MatterOf("A")], [FileOf("A"), FileOf("A")], {"1", "2"}, {"A"})
  {
    FirstOfTwo(limits, first);
    CollectNext(limits, [first], second);
    assert [first] + [second] == [first, second];
    SecondOfTwo(limits, Collect(limits, [first]), first, second);
  }
}
