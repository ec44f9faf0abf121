/** What every run of a fetch keeps, however the resolver and the transport behave. */
module HttpFetchLaws {
  import opened Wrappers
  import opened Text
  import opened Sequences
  import opened HttpFetch

  // ---------------------------------------------------------------- safety of every request

  /** The target of request `k` is https, of a reviewed host, and its addresses are those resolved for it, all public. */
  predicate IsSafe(world: World, config: Config, k: nat, sent: Sent) {
    && sent.request.url.scheme == Https
    && sent.request.url.host.Some?
    && AllowsHost(config, sent.request.url.host.value)
    && world.resolve(k, sent.request.url.host.value) == Ok(sent.addresses)
    && sent.addresses != [] && AllPublic(world.isPublic, sent.addresses)
  }

  /** Only the first request carries the conditions of earlier evidence. */
  predicate HasConditions(request: FetchRequest, k: nat, sent: Sent) {
    if k > 0 || request.prior.None? then sent.request.conditionalEtag == None && sent.request.conditionalModified == None
    else
      && sent.request.conditionalEtag == request.prior.value.etag
      && sent.request.conditionalModified == request.prior.value.lastModified
  }

  predicate RedirectsTo(world: World, allowed: seq<string>, sent: Sent, next: Sent) {
    && sent.answer.Ok? && IsRedirect(sent.answer.value.status)
    && Location(allowed, sent.answer.value).Some?
    && world.join(sent.request.url, Location(allowed, sent.answer.value).value) == Some(next.request.url)
    && next.request.url != sent.request.url
  }

  ghost predicate IsSafeLog(world: World, config: Config, request: FetchRequest, log: seq<Sent>) {
    && (forall k :: 0 <= k < |log| ==> IsSafe(world, config, k, log[k]))
    && (forall k :: 0 <= k < |log| ==> HasConditions(request, k, log[k]))
    && (forall k :: 0 <= k < |log| ==> log[k].answer == world.transport(k, log[k].request))
    && (forall k :: 0 < k < |log| ==> RedirectsTo(world, config.allowlisted, log[k - 1], log[k]))
  }

  lemma SendIsReviewed(world: World, config: Config, request: FetchRequest, log: seq<Sent>)
    requires NextOf(world, config, request, log).Send?
    ensures var url := NextOf(world, config, request, log).url;
      url.scheme == Https && url.host.Some? && AllowsHost(config, url.host.value)
    ensures |log| <= MAX_REDIRECTS
  {
  }

  lemma StepIsSafe(world: World, config: Config, request: FetchRequest, log: seq<Sent>, sent: Sent)
    requires IsStep(world, config, request, log, sent)
    ensures IsSafe(world, config, |log|, sent) && HasConditions(request, |log|, sent)
    ensures log != [] ==> RedirectsTo(world, config.allowlisted, log[|log| - 1], sent)
  {
    SendIsReviewed(world, config, request, log);
    ValidateResolvedExactly(world.isPublic, sent.request.url.host.value, sent.addresses);
  }

  /** Against any resolver and transport, each request of a run is safe, and there are at most six. */
  lemma {:induction false} RunIsSafe(world: World, config: Config, request: FetchRequest, log: seq<Sent>)
    requires IsRun(world, config, request, log)
    ensures IsSafeLog(world, config, request, log)
    ensures |log| <= MAX_REDIRECTS + 1
    ensures log != [] ==> world.parse(request.requestedUrl) == Some(log[0].request.url)
  {
    if log != [] {
      var front, last := log[..|log| - 1], log[|log| - 1];
      RunIsSafe(world, config, request, front);
      StepIsSafe(world, config, request, front, last);
      SendIsReviewed(world, config, request, front);
      SafeNext(world, config, request, front, last);
      assert log == front + [last];
    }
  }

  lemma SafeNext(world: World, config: Config, request: FetchRequest, front: seq<Sent>, last: Sent)
    requires IsSafeLog(world, config, request, front)
    requires IsSafe(world, config, |front|, last) && HasConditions(request, |front|, last)
    requires last.answer == world.transport(|front|, last.request)
    requires front != [] ==> RedirectsTo(world, config.allowlisted, front[|front| - 1], last)
    ensures IsSafeLog(world, config, request, front + [last])
  {
    var log := front + [last];
    forall k | 0 < k < |log| ensures RedirectsTo(world, config.allowlisted, log[k - 1], log[k]) {
      if k < |front| {
        assert log[k - 1] == front[k - 1] && log[k] == front[k];
      }
    }
  }

  /** The host of a target is checked once more before each request; that check never fails. */
  lemma SecondHostCheckIsRedundant(world: World, config: Config, request: FetchRequest, log: seq<Sent>)
    requires NextOf(world, config, request, log).Send?
    ensures Resolved(world, config, |log|, NextOf(world, config, request, log).url).Err? ==>
      var host := NextOf(world, config, request, log).url.host.value;
      world.resolve(|log|, host).Err?
      || ValidateResolved(world.isPublic, host, world.resolve(|log|, host).value).Some?
  {
    SendIsReviewed(world, config, request, log);
  }

  // ---------------------------------------------------------------- one run, one result

  lemma StepIsUnique(world: World, config: Config, request: FetchRequest, log: seq<Sent>, s: Sent, t: Sent)
    requires IsStep(world, config, request, log, s) && IsStep(world, config, request, log, t)
    ensures s == t
  {
  }

  lemma LastIsStep(world: World, config: Config, request: FetchRequest, log: seq<Sent>)
    requires IsRun(world, config, request, log) && log != []
    ensures IsRun(world, config, request, log[..|log| - 1])
    ensures IsStep(world, config, request, log[..|log| - 1], log[|log| - 1])
  {
  }

  lemma {:induction false} RunsAgree(world: World, config: Config, request: FetchRequest, a: seq<Sent>, b: seq<Sent>)
    requires IsRun(world, config, request, a) && IsRun(world, config, request, b) && |a| <= |b|
    ensures a <= b
  {
    if |a| < |b| {
      LastIsStep(world, config, request, b);
      RunsAgree(world, config, request, a, b[..|b| - 1]);
    } else if a != [] {
      LastIsStep(world, config, request, a);
      LastIsStep(world, config, request, b);
      RunsAgree(world, config, request, a[..|a| - 1], b[..|b| - 1]);
      assert a[..|a| - 1] == b[..|b| - 1];
      StepIsUnique(world, config, request, a[..|a| - 1], a[|a| - 1], b[|b| - 1]);
      SameFrontAndLast(a, b);
    }
  }

  lemma RunGoesOn(world: World, config: Config, request: FetchRequest, log: seq<Sent>, n: nat)
    requires IsRun(world, config, request, log) && n < |log|
    ensures IsStep(world, config, request, log[..n], log[n])
  {
    PrefixIsRun(world, config, request, log, n + 1);
    assert log[..n + 1][..n] == log[..n];
  }

  lemma EndedStops(world: World, config: Config, request: FetchRequest, a: seq<Sent>, b: seq<Sent>, result: Result<FetchResult, HttpError>)
    requires Ends(world, config, request, a, result)
    requires a <= b && IsRun(world, config, request, b)
    ensures a == b
  {
    assert b[..|a|] == a;
    if |a| < |b| {
      RunGoesOn(world, config, request, b, |a|);
    }
  }

  lemma {:induction false} PrefixIsRun(world: World, config: Config, request: FetchRequest, log: seq<Sent>, n: nat)
    requires IsRun(world, config, request, log) && n <= |log|
    ensures IsRun(world, config, request, log[..n])
  {
    if n == |log| {
      assert log[..n] == log;
    } else {
      PrefixIsRun(world, config, request, log[..|log| - 1], n);
      assert log[..|log| - 1][..n] == log[..n];
    }
  }

  /** The world determines the requests and the result: the run is no looser than the code. */
  lemma ResultIsDetermined(world: World, config: Config, request: FetchRequest,
                           a: seq<Sent>, r: Result<FetchResult, HttpError>, b: seq<Sent>, s: Result<FetchResult, HttpError>)
    requires IsRun(world, config, request, a) && Ends(world, config, request, a, r)
    requires IsRun(world, config, request, b) && Ends(world, config, request, b, s)
    ensures a == b && r == s
  {
    if |a| <= |b| {
      RunsAgree(world, config, request, a, b);
      EndedStops(world, config, request, a, b, r);
    } else {
      RunsAgree(world, config, request, b, a);
      EndedStops(world, config, request, b, a, s);
    }
  }

  // ---------------------------------------------------------------- what is delivered

  /** On success there is one observation for each request, in order, and either a body or none not modified. */
  lemma DeliveryExactly(world: World, config: Config, request: FetchRequest, log: seq<Sent>, result: Result<FetchResult, HttpError>)
    requires IsRun(world, config, request, log) && Ends(world, config, request, log, result) && result.Ok?
    ensures log != [] && |result.value.observations| == |log|
    ensures forall k :: 0 <= k < |log| ==>
      && result.value.observations[k].requestedUrl == log[k].request.url
      && result.value.observations[k].resolvedIps == log[k].addresses
      && log[k].answer.Ok? && result.value.observations[k].status == log[k].answer.value.status
    ensures result.value.finalUrl == log[|log| - 1].request.url
    ensures result.value.body.Some? <==> !result.value.notModified
    ensures result.value.notModified <==> log[|log| - 1].answer.value.status == 304
    ensures result.value.body.Some? ==>
      && result.value.body == Some(log[|log| - 1].answer.value.body) && |result.value.body.value| <= config.maxBytes
      && result.value.observations[|log| - 1].bodyDigest == Some(world.sha256(result.value.body.value))
    ensures forall k :: 0 <= k < |log| - 1 ==> result.value.observations[k].bodyDigest == None
  {
  }

  predicate IsAllowlistedLower(allowed: seq<string>, name: string) {
    exists i :: 0 <= i < |allowed| && Lower(allowed[i]) == name
  }

  lemma {:induction false} AllowlistExactly(allowed: seq<string>, headers: Headers, name: string, value: string)
    ensures (name, value) in AllowlistHeaders(allowed, headers) <==>
      IsAllowlistedLower(allowed, name) && exists original :: (original, value) in headers && Lower(original) == name
  {
    if headers != [] {
      var front, last := headers[..|headers| - 1], headers[|headers| - 1];
      AllowlistExactly(allowed, front, name, value);
      assert headers == front + [last];
      assert MayPersist(allowed, last.0) <==> IsAllowlistedLower(allowed, Lower(last.0));
    }
  }

  /** A header that is not on the list is in no observation, whatever the case of its name. */
  lemma OnlyAllowlistedIsObserved(world: World, config: Config, request: FetchRequest, log: seq<Sent>,
                                  result: Result<FetchResult, HttpError>, k: nat, name: string, value: string)
    requires IsRun(world, config, request, log) && Ends(world, config, request, log, result) && result.Ok?
    requires k < |log| && (name, value) in Delivery(world, config, request, log).observations[k].headers
    ensures IsAllowlistedLower(config.allowlisted, name)
  {
    AllowlistExactly(config.allowlisted, log[k].answer.value.headers, name, value);
  }

  /** No cookie and no authorization is on the list: other lengths, or other first letters. */
  lemma SensitiveHeadersAreNotListed(name: string)
    requires name == "cookie" || name == "set-cookie" || name == "authorization"
    ensures !IsAllowlistedLower(ALLOWLISTED, name)
  {
    forall i | 0 <= i < |ALLOWLISTED| ensures Lower(ALLOWLISTED[i]) != name {
      assert |ALLOWLISTED[i]| == |name| ==> ALLOWLISTED[i][0] != name[0];
      assert Lower(ALLOWLISTED[i])[0] == ALLOWLISTED[i][0];
    }
  }

  // ---------------------------------------------------------------- what the checks let pass

  /** A server that redirects `a` to `b` and `b` to `a`, both reviewed. */
  ghost predicate IsLoop(world: World, config: Config, a: Url, b: Url, log: seq<Sent>) {
    && a != b && b.scheme == Https && b.host.Some?
    && AllowsHost(config, b.host.value)
    && world.join(a, "b") == Some(b) && world.join(b, "a") == Some(a)
    && forall k :: 0 <= k < |log| ==>
      && log[k].answer.Ok? && log[k].answer.value.status == 302
      && Location(config.allowlisted, log[k].answer.value) == Some(if log[k].request.url == a then "b" else "a")
  }

  lemma {:induction false} LoopAlternates(world: World, config: Config, request: FetchRequest, a: Url, b: Url, log: seq<Sent>, k: nat)
    requires IsLoop(world, config, a, b, log) && IsSafeLog(world, config, request, log)
    requires k < |log| && log[0].request.url == a
    ensures log[k].request.url == if k % 2 == 0 then a else b
  {
    if k > 0 {
      LoopAlternates(world, config, request, a, b, log, k - 1);
      assert RedirectsTo(world, config.allowlisted, log[k - 1], log[k]);
    }
  }

  /** A loop over two URLs is not noticed as one: no end but too many redirects, after six requests. */
  lemma TwoUrlLoopRunsOut(world: World, config: Config, request: FetchRequest, a: Url, b: Url, log: seq<Sent>)
    requires IsRun(world, config, request, log) && log != [] && log[0].request.url == a
    requires IsLoop(world, config, a, b, log)
    requires !NextOf(world, config, request, log).Send?
    ensures |log| == MAX_REDIRECTS + 1 && NextOf(world, config, request, log) == Fail(TooManyRedirects)
  {
    RunIsSafe(world, config, request, log);
    LoopAlternates(world, config, request, a, b, log, |log| - 1);
    assert IsSafe(world, config, 0, log[0]);
    LoopMayEnd(world, config, a, b, log, |log| - 1);
  }

  /** The only end that an answer of the loop can lead to. */
  lemma LoopMayEnd(world: World, config: Config, a: Url, b: Url, log: seq<Sent>, k: nat)
    requires IsLoop(world, config, a, b, log) && k < |log|
    requires log[k].request.url == a || log[k].request.url == b
    requires a.scheme == Https && a.host.Some? && AllowsHost(config, a.host.value)
    requires !After(world, config, k, log[k]).Send?
    ensures k >= MAX_REDIRECTS && After(world, config, k, log[k]) == Fail(TooManyRedirects)
  {
  }
}
