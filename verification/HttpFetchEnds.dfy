/** How runs of a fetch end: that they do, when a loop is reported, and when the observations are lost. */
module HttpFetchEnds {
  import opened Wrappers
  import opened Text
  import opened HttpFetch
  import opened HttpFetchLaws

  // ---------------------------------------------------------------- every world has a run

  lemma DeliveredIsAnswered(world: World, config: Config, request: FetchRequest, log: seq<Sent>)
    requires IsRun(world, config, request, log) && NextOf(world, config, request, log) == Deliver
    ensures log != [] && AllAnswered(log)
  {
    RunIsSafe(world, config, request, log);
    forall k | 0 <= k < |log| ensures log[k].answer.Ok? {
      if k < |log| - 1 {
        assert RedirectsTo(world, config.allowlisted, log[k], log[k + 1]);
      }
    }
  }

  /** Any run so far can be carried on to an end. */
  lemma {:induction false} CarryOn(world: World, config: Config, request: FetchRequest, log: seq<Sent>)
    returns (whole: seq<Sent>, result: Result<FetchResult, HttpError>)
    requires IsRun(world, config, request, log)
    ensures log <= whole && IsRun(world, config, request, whole) && Ends(world, config, request, whole, result)
    decreases MAX_REDIRECTS + 1 - |log|
  {
    var next := NextOf(world, config, request, log);
    whole := log;
    if next.Fail? {
      result := Err(next.error);
    } else if next.Deliver? {
      DeliveredIsAnswered(world, config, request, log);
      result := Ok(Delivery(world, config, request, log));
    } else {
      var addresses := Resolved(world, config, |log|, next.url);
      if addresses.Err? {
        result := Err(addresses.error);
      } else {
        var outgoing := Conditional(request, |log|, next.url);
        var sent := Sent(outgoing, addresses.value, world.transport(|log|, outgoing));
        RunNext(world, config, request, log, sent);
        SendIsReviewed(world, config, request, log);
        whole, result := CarryOn(world, config, request, log + [sent]);
      }
    }
  }

  // ---------------------------------------------------------------- redirect loops

  /** The answer redirects to the very URL that was requested. */
  predicate RedirectsToItself(world: World, config: Config, sent: Sent) {
    && sent.answer.Ok? && IsRedirect(sent.answer.value.status)
    && Location(config.allowlisted, sent.answer.value).Some?
    && world.join(sent.request.url, Location(config.allowlisted, sent.answer.value).value) == Some(sent.request.url)
  }

  /** Neither resolver nor transport reports a redirect loop of its own. */
  ghost predicate NoForeignLoop(world: World) {
    && (forall k, host :: world.resolve(k, host) != Err(RedirectLoop))
    && (forall k, r :: world.transport(k, r) != Err(RedirectLoop))
  }

  lemma AfterReportsLoopExactly(world: World, config: Config, k: nat, sent: Sent)
    requires IsSafe(world, config, k, sent) && sent.answer != Err(RedirectLoop)
    ensures After(world, config, k, sent) == Fail(RedirectLoop) <==> RedirectsToItself(world, config, sent)
  {
  }

  lemma ResolvedReportsNoLoop(world: World, config: Config, k: nat, url: Url)
    requires NoForeignLoop(world)
    ensures Resolved(world, config, k, url) != Err(RedirectLoop)
  {
  }

  /** A redirect loop is reported if and only if the last answer redirects to the URL just requested. */
  lemma RedirectLoopExactly(world: World, config: Config, request: FetchRequest, log: seq<Sent>, result: Result<FetchResult, HttpError>)
    requires NoForeignLoop(world)
    requires IsRun(world, config, request, log) && Ends(world, config, request, log, result)
    ensures result == Err(RedirectLoop) <==> log != [] && RedirectsToItself(world, config, log[|log| - 1])
  {
    var next := NextOf(world, config, request, log);
    RunIsSafe(world, config, request, log);
    if next.Send? {
      ResolvedReportsNoLoop(world, config, |log|, next.url);
    }
    if log != [] {
      var last := log[|log| - 1];
      assert IsSafe(world, config, |log| - 1, last);
      assert last.answer == world.transport(|log| - 1, last.request);
      AfterReportsLoopExactly(world, config, |log| - 1, last);
    }
  }

  /** A URL that is requested again was left in between, and the run went on as if it were new. */
  lemma RevisitIsNotReported(world: World, config: Config, request: FetchRequest, log: seq<Sent>, i: nat, j: nat)
    requires IsRun(world, config, request, log) && i < j < |log|
    requires log[i].request.url == log[j].request.url
    ensures j > i + 1
    ensures NextOf(world, config, request, log[..j]) == Send(log[i].request.url)
    ensures !RedirectsToItself(world, config, log[j - 1])
  {
    RunIsSafe(world, config, request, log);
    RunGoesOn(world, config, request, log, j);
    assert RedirectsTo(world, config.allowlisted, log[j - 1], log[j]);
    if j == i + 1 {
      assert false;
    }
  }

  function LoopUrl(rest: string): Url {
    Url(Https, Some("h"), rest)
  }

  /** A server with two pages that redirect to each other. */
  function LoopWorld(): World {
    World(
      text => Some(LoopUrl("a")),
      (url, target) => Some(LoopUrl(target)),
      address => true,
      text => text,
      (k, host) => Ok(["1"]),
      (k, r: TransportRequest) => Ok(Response(302, [("location", if r.url == LoopUrl("a") then "b" else "a")], "")))
  }

  lemma LocationIsKept(target: string)
    ensures Location(ALLOWLISTED, Response(302, [("location", target)], "")) == Some(target)
  {
    var headers := [("location", target)];
    assert ALLOWLISTED[4] == "location";
    assert MayPersist(ALLOWLISTED, "location");
    assert headers[..0] == [];
    assert AllowlistHeaders(ALLOWLISTED, []) == [];
    assert Lower("location") == "location";
    assert AllowlistHeaders(ALLOWLISTED, headers) == headers;
  }

  lemma HostIsReviewed(config: Config)
    requires config.reviewedHosts == ["h"]
    ensures AllowsHost(config, "h")
  {
    assert config.reviewedHosts[0] == "h";
  }

  /** There the fetch makes six requests, comes back to its first URL twice, and reports too many redirects. */
  lemma LoopRunsOut(config: Config, request: FetchRequest) returns (log: seq<Sent>, result: Result<FetchResult, HttpError>)
    requires config == Config(["h"], 0, ALLOWLISTED)
    ensures NoForeignLoop(LoopWorld())
    ensures IsRun(LoopWorld(), config, request, log) && Ends(LoopWorld(), config, request, log, result)
    ensures |log| == 6 && log[0].request.url == log[2].request.url == log[4].request.url
    ensures result == Err(TooManyRedirects)
  {
    var world := LoopWorld();
    HostIsReviewed(config);
    assert IsRun(world, config, request, []);
    log, result := CarryOn(world, config, request, []);
    LoopNeverStops(config, request, log, result);
    RunIsSafe(world, config, request, log);
    LoopAnswers(config, request, log);
    TwoUrlLoopRunsOut(world, config, request, LoopUrl("a"), LoopUrl("b"), log);
    LoopAlternates(world, config, request, LoopUrl("a"), LoopUrl("b"), log, 4);
    LoopAlternates(world, config, request, LoopUrl("a"), LoopUrl("b"), log, 2);
  }

  /** No target of the loop is refused. */
  lemma LoopNeverStops(config: Config, request: FetchRequest, log: seq<Sent>, result: Result<FetchResult, HttpError>)
    requires config == Config(["h"], 0, ALLOWLISTED)
    requires IsRun(LoopWorld(), config, request, log) && Ends(LoopWorld(), config, request, log, result)
    ensures log != [] && !NextOf(LoopWorld(), config, request, log).Send?
  {
    HostIsReviewed(config);
    var next := NextOf(LoopWorld(), config, request, log);
    if next.Send? {
      SendIsReviewed(LoopWorld(), config, request, log);
      LoopResolves(config, |log|, next.url);
    }
  }

  lemma LoopResolves(config: Config, k: nat, url: Url)
    requires url.host.Some? && AllowsHost(config, url.host.value)
    ensures Resolved(LoopWorld(), config, k, url) == Ok(["1"])
  {
    ValidateResolvedExactly(LoopWorld().isPublic, url.host.value, ["1"]);
  }

  lemma LoopAnswers(config: Config, request: FetchRequest, log: seq<Sent>)
    requires config == Config(["h"], 0, ALLOWLISTED)
    requires log != [] && IsSafeLog(LoopWorld(), config, request, log)
    ensures IsLoop(LoopWorld(), config, LoopUrl("a"), LoopUrl("b"), log)
  {
    HostIsReviewed(config);
    assert "a"[0] != "b"[0];
    forall k | 0 <= k < |log|
      ensures log[k].answer.Ok? && log[k].answer.value.status == 302
      ensures Location(config.allowlisted, log[k].answer.value) == Some(if log[k].request.url == LoopUrl("a") then "b" else "a")
    {
      assert log[k].answer == LoopWorld().transport(k, log[k].request);
      LocationIsKept(if log[k].request.url == LoopUrl("a") then "b" else "a");
    }
  }

  // ---------------------------------------------------------------- lost observations

  /** The result records every request of the run, in order. */
  predicate RecordsAll(log: seq<Sent>, result: Result<FetchResult, HttpError>) {
    && result.Ok? && |result.value.observations| == |log|
    && forall k :: 0 <= k < |log| ==> result.value.observations[k].requestedUrl == log[k].request.url
  }

  /** The requests of a run are recorded in its result if and only if the run ends in a delivery. */
  lemma RecordedExactly(world: World, config: Config, request: FetchRequest, log: seq<Sent>, result: Result<FetchResult, HttpError>)
    requires IsRun(world, config, request, log) && Ends(world, config, request, log, result)
    ensures RecordsAll(log, result) <==> NextOf(world, config, request, log) == Deliver
  {
    if NextOf(world, config, request, log) == Deliver {
      DeliveryExactly(world, config, request, log, result);
    }
  }

  /** A server that answers every request with status 500. */
  function FailingWorld(): World {
    LoopWorld().(transport := (k, r) => Ok(Response(500, [], "")))
  }

  /** Its one request is answered, and the result says nothing about it. */
  lemma FailureIsNotRecorded(config: Config, request: FetchRequest) returns (log: seq<Sent>, result: Result<FetchResult, HttpError>)
    requires config == Config(["h"], 0, ALLOWLISTED)
    ensures IsRun(FailingWorld(), config, request, log) && Ends(FailingWorld(), config, request, log, result)
    ensures |log| == 1 && log[0].answer.Ok? && result == Err(TransportFailed)
  {
    var world := FailingWorld();
    HostIsReviewed(config);
    var outgoing := Conditional(request, 0, LoopUrl("a"));
    var sent := Sent(outgoing, ["1"], world.transport(0, outgoing));
    ValidateResolvedExactly(world.isPublic, "h", ["1"]);
    assert IsStep(world, config, request, [], sent);
    log, result := [sent], Err(TransportFailed);
    assert [sent][..0] == [];
  }

  // ---------------------------------------------------------------- not modified, unasked

  /** The request carries no condition that a 304 could answer. */
  predicate Unasked(sent: Sent) {
    sent.request.conditionalEtag == None && sent.request.conditionalModified == None
  }

  predicate IsNotModified(result: Result<FetchResult, HttpError>) {
    result.Ok? && result.value.notModified
  }

  predicate AnsweredNotModified(sent: Sent) {
    sent.answer.Ok? && sent.answer.value.status == 304
  }

  /** The earlier evidence that a result refers to instead of a new body. */
  function PriorEvidenceId(result: FetchResult, prior: Option<Prior>): Option<string> {
    if result.notModified && prior.Some? then Some(prior.value.evidenceId) else None
  }

  /** Request number `k` has no condition to carry: it is not the first, or there is no earlier evidence, or no tag or date of it. */
  predicate NothingToAsk(request: FetchRequest, k: nat) {
    k > 0 || request.prior == None || (request.prior.value.etag == None && request.prior.value.lastModified == None)
  }

  /**
   * A fetch returns "not modified" with no condition on the request that was answered so, if and only if the
   * last answer is a 304 and there was a redirect, or no earlier evidence, or neither tag nor date of it.
   */
  lemma NotModifiedUnaskedExactly(world: World, config: Config, request: FetchRequest, log: seq<Sent>, result: Result<FetchResult, HttpError>)
    requires IsRun(world, config, request, log) && Ends(world, config, request, log, result)
    ensures forall k :: 0 <= k < |log| ==> (Unasked(log[k]) <==> NothingToAsk(request, k))
    ensures IsNotModified(result) <==> log != [] && AnsweredNotModified(log[|log| - 1])
    ensures IsNotModified(result) && Unasked(log[|log| - 1]) <==>
      log != [] && AnsweredNotModified(log[|log| - 1]) && NothingToAsk(request, |log| - 1)
    ensures IsNotModified(result) ==> (PriorEvidenceId(result.value, request.prior) == None <==> request.prior == None)
  {
    RunIsSafe(world, config, request, log);
    forall k | 0 <= k < |log| ensures Unasked(log[k]) <==> NothingToAsk(request, k) {
      assert HasConditions(request, k, log[k]);
    }
    if result.Ok? {
      DeliveryExactly(world, config, request, log, result);
    }
  }

  /** A server that answers every request with status 304. */
  function UnchangedWorld(): World {
    LoopWorld().(transport := (k, r) => Ok(Response(304, [], "")))
  }

  /** Without earlier evidence, its first answer is returned as "not modified", and refers to nothing. */
  lemma FirstIsNotModified(config: Config, request: FetchRequest) returns (log: seq<Sent>, result: FetchResult)
    requires config == Config(["h"], 0, ALLOWLISTED) && request.prior == None
    ensures IsRun(UnchangedWorld(), config, request, log) && Ends(UnchangedWorld(), config, request, log, Ok(result))
    ensures |log| == 1 && Unasked(log[0])
    ensures result.notModified && PriorEvidenceId(result, request.prior) == None
  {
    var world := UnchangedWorld();
    HostIsReviewed(config);
    var outgoing := Conditional(request, 0, LoopUrl("a"));
    var sent := Sent(outgoing, ["1"], world.transport(0, outgoing));
    ValidateResolvedExactly(world.isPublic, "h", ["1"]);
    RunNext(world, config, request, [], sent);
    log := [sent];
    assert [] + [sent] == log;
    result := Delivery(world, config, request, log);
  }

  /** A server that redirects the first request and answers the next with status 304. */
  function MovedWorld(): World {
    LoopWorld().(transport := (k, r) => Ok(if k == 0 then Response(302, [("location", "b")], "") else Response(304, [], "")))
  }

  /** Earlier evidence with a tag: the condition goes to the first URL only, and the 304 of the second is taken for an answer to it. */
  lemma MovedIsNotModified(config: Config, request: FetchRequest) returns (log: seq<Sent>, result: FetchResult)
    requires config == Config(["h"], 0, ALLOWLISTED) && request.prior == Some(Prior("e", Some("t"), None))
    ensures IsRun(MovedWorld(), config, request, log) && Ends(MovedWorld(), config, request, log, Ok(result))
    ensures |log| == 2 && log[0].request.conditionalEtag == Some("t") && Unasked(log[1])
    ensures log[0].request.url != log[1].request.url
    ensures result.notModified && PriorEvidenceId(result, request.prior) == Some("e")
  {
    var world := MovedWorld();
    HostIsReviewed(config);
    assert "a"[0] != "b"[0];
    var first := Conditional(request, 0, LoopUrl("a"));
    var sent := Sent(first, ["1"], world.transport(0, first));
    ValidateResolvedExactly(world.isPublic, "h", ["1"]);
    RunNext(world, config, request, [], sent);
    assert [] + [sent] == [sent];
    LocationIsKept("b");
    var second := Conditional(request, 1, LoopUrl("b"));
    var moved := Sent(second, ["1"], world.transport(1, second));
    RunNext(world, config, request, [sent], moved);
    log := [sent] + [moved];
    result := Delivery(world, config, request, log);
  }
}
