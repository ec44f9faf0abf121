/** Following redirects, one recorded request at a time, against any resolver and any transport. */
module HttpFetch {
  import opened Wrappers
  import opened Text

  const MAX_REDIRECTS: nat := 5

  datatype Scheme = Https | OtherScheme(name: string)

  datatype Url = Url(scheme: Scheme, host: Option<string>, rest: string)

  datatype HttpError =
    | InvalidUrl
    | InsecureUrl
    | Resolution(host: string)
    | NonPublicAddress(host: string)
    | MixedAnswers(host: string)
    | UnreviewedRedirect(host: string)
    | RedirectLoop
    | TooManyRedirects
    | TransportFailed
    | Oversized(limit: nat)

  type Address = string

  type Headers = seq<(string, string)>

  datatype TransportRequest = TransportRequest(url: Url, conditionalEtag: Option<string>, conditionalModified: Option<string>)

  /** A body is a sequence of bytes, one in each character. */
  datatype Response = Response(status: nat, headers: Headers, body: string)

  /** The reviewed hosts, the limit for a body, and the headers that may be persisted (`ALLOWLISTED`). */
  datatype Config = Config(reviewedHosts: seq<string>, maxBytes: nat, allowlisted: seq<string>)

  datatype Prior = Prior(evidenceId: string, etag: Option<string>, lastModified: Option<string>)

  datatype FetchRequest = FetchRequest(sourceId: Option<string>, requestedUrl: string, retrievedAt: string, prior: Option<Prior>)

  /**
   * What the outside answers: how texts parse as URLs, which addresses are public, the SHA-256 of a body,
   * and, for each call by its number, what the resolver and the transport return.
   */
  datatype World = World(
    parse: string -> Option<Url>,
    join: (Url, string) -> Option<Url>,
    isPublic: Address -> bool,
    sha256: string -> string,
    resolve: (nat, string) -> Result<seq<Address>, HttpError>,
    transport: (nat, TransportRequest) -> Result<Response, HttpError>)

  // ---------------------------------------------------------------- checks

  predicate HostIn(hosts: seq<string>, host: string) {
    exists i :: 0 <= i < |hosts| && EqIgnoreCase(hosts[i], host)
  }

  predicate AllowsHost(config: Config, host: string) {
    HostIn(config.reviewedHosts, host)
  }

  function PublicCount(isPublic: Address -> bool, addresses: seq<Address>): nat {
    if addresses == [] then 0
    else PublicCount(isPublic, addresses[..|addresses| - 1]) + if isPublic(addresses[|addresses| - 1]) then 1 else 0
  }

  function ValidateResolved(isPublic: Address -> bool, host: string, addresses: seq<Address>): Option<HttpError> {
    if addresses == [] then Some(Resolution(host))
    else
      var public := PublicCount(isPublic, addresses);
      if public == 0 then Some(NonPublicAddress(host))
      else if public != |addresses| then Some(MixedAnswers(host))
      else None
  }

  predicate AllPublic(isPublic: Address -> bool, addresses: seq<Address>) {
    forall i :: 0 <= i < |addresses| ==> isPublic(addresses[i])
  }

  predicate NonePublic(isPublic: Address -> bool, addresses: seq<Address>) {
    forall i :: 0 <= i < |addresses| ==> !isPublic(addresses[i])
  }

  lemma {:induction false} PublicCountExactly(isPublic: Address -> bool, addresses: seq<Address>)
    ensures PublicCount(isPublic, addresses) <= |addresses|
    ensures PublicCount(isPublic, addresses) == |addresses| <==> AllPublic(isPublic, addresses)
    ensures PublicCount(isPublic, addresses) == 0 <==> NonePublic(isPublic, addresses)
  {
    if addresses != [] {
      var front, last := addresses[..|addresses| - 1], addresses[|addresses| - 1];
      PublicCountExactly(isPublic, front);
      assert forall i :: 0 <= i < |front| ==> addresses[i] == front[i];
      assert addresses[|front|] == last;
    }
  }

  /** Resolved addresses pass only if there is one and all are public; a mixed answer fails. */
  lemma ValidateResolvedExactly(isPublic: Address -> bool, host: string, addresses: seq<Address>)
    ensures ValidateResolved(isPublic, host, addresses) == None <==> addresses != [] && AllPublic(isPublic, addresses)
    ensures ValidateResolved(isPublic, host, addresses) == Some(MixedAnswers(host)) <==>
      !AllPublic(isPublic, addresses) && !NonePublic(isPublic, addresses)
  {
    PublicCountExactly(isPublic, addresses);
  }

  // ---------------------------------------------------------------- headers and observations

  const ALLOWLISTED: seq<string> := [
    "content-type", "content-length", "etag", "last-modified", "location", "date", "server", "cache-control",
    "expires", "retry-after", "content-encoding", "content-language", "x-content-type-options"]

  predicate MayPersist(allowed: seq<string>, name: string) {
    HostIn(allowed, name)
  }

  function AllowlistHeaders(allowed: seq<string>, headers: Headers): Headers {
    if headers == [] then []
    else
      var (name, value) := headers[|headers| - 1];
      AllowlistHeaders(allowed, headers[..|headers| - 1]) + if MayPersist(allowed, name) then [(Lower(name), value)] else []
  }

  function HeaderValue(headers: Headers, name: string): Option<string> {
    if headers == [] then None
    else if EqIgnoreCase(headers[0].0, name) then Some(headers[0].1)
    else HeaderValue(headers[1..], name)
  }

  datatype Observation = Observation(
    sourceId: Option<string>, requestedUrl: Url, resolvedIps: seq<Address>, retrievedAt: string, status: nat,
    redirectTarget: Option<string>, headers: Headers, bodyDigest: Option<string>)

  function BuildObservation(allowed: seq<string>, request: FetchRequest, url: Url, addresses: seq<Address>, response: Response): Observation {
    var allowlisted := AllowlistHeaders(allowed, response.headers);
    Observation(request.sourceId, url, addresses, request.retrievedAt, response.status,
                HeaderValue(allowlisted, "location"), allowlisted, None)
  }

  function FollowRedirect(world: World, config: Config, url: Url, target: Option<string>, redirects: nat): Result<(Url, nat), HttpError> {
    if target.None? then Err(TransportFailed)
    else
      var next := world.join(url, target.value);
      if next.None? then Err(InvalidUrl)
      else if next.value.scheme != Https || next.value.host.None? then Err(InsecureUrl)
      else if !AllowsHost(config, next.value.host.value) then Err(UnreviewedRedirect(next.value.host.value))
      else if next.value == url then Err(RedirectLoop)
      else if redirects + 1 > MAX_REDIRECTS then Err(TooManyRedirects)
      else Ok((next.value, redirects + 1))
  }

  // ---------------------------------------------------------------- the protocol

  /** One request as it was made, with the addresses it was allowed to go to and the answer. */
  datatype Sent = Sent(request: TransportRequest, addresses: seq<Address>, answer: Result<Response, HttpError>)

  /** What is to be done after the requests so far. */
  datatype Next = Send(url: Url) | Deliver | Fail(error: HttpError)

  function Start(world: World, config: Config, request: FetchRequest): Next {
    var url := world.parse(request.requestedUrl);
    if url.None? then Fail(InvalidUrl)
    else if url.value.scheme != Https || url.value.host.None? then Fail(InsecureUrl)
    else if !AllowsHost(config, url.value.host.value) then Fail(UnreviewedRedirect(url.value.host.value))
    else Send(url.value)
  }

  predicate IsRedirect(status: nat) {
    301 <= status <= 303 || 307 <= status <= 308
  }

  function Location(allowed: seq<string>, r: Response): Option<string> {
    HeaderValue(AllowlistHeaders(allowed, r.headers), "location")
  }

  /** What an answer to request number `k` leads to. */
  function After(world: World, config: Config, k: nat, sent: Sent): Next {
    if sent.answer.Err? then Fail(sent.answer.error)
    else
      var r := sent.answer.value;
      if 200 <= r.status <= 204 then (if |r.body| > config.maxBytes then Fail(Oversized(config.maxBytes)) else Deliver)
      else if r.status == 304 then Deliver
      else if IsRedirect(r.status) then
        var next := FollowRedirect(world, config, sent.request.url, Location(config.allowlisted, r), k);
        if next.Ok? then Send(next.value.0) else Fail(next.error)
      else Fail(TransportFailed)
  }

  function NextOf(world: World, config: Config, request: FetchRequest, log: seq<Sent>): Next {
    if log == [] then Start(world, config, request) else After(world, config, |log| - 1, log[|log| - 1])
  }

  /** The addresses that request number `k` may go to. */
  function Resolved(world: World, config: Config, k: nat, url: Url): Result<seq<Address>, HttpError> {
    if url.host.None? then Err(InsecureUrl)
    else if !AllowsHost(config, url.host.value) then Err(UnreviewedRedirect(url.host.value))
    else
      var addresses := world.resolve(k, url.host.value);
      if addresses.Err? then Err(addresses.error)
      else
        var wrong := ValidateResolved(world.isPublic, url.host.value, addresses.value);
        if wrong.Some? then Err(wrong.value) else Ok(addresses.value)
  }

  function Conditional(request: FetchRequest, k: nat, url: Url): TransportRequest {
    if k > 0 || request.prior.None? then TransportRequest(url, None, None)
    else TransportRequest(url, request.prior.value.etag, request.prior.value.lastModified)
  }

  predicate IsStep(world: World, config: Config, request: FetchRequest, log: seq<Sent>, sent: Sent) {
    && NextOf(world, config, request, log) == Send(sent.request.url)
    && Resolved(world, config, |log|, sent.request.url) == Ok(sent.addresses)
    && sent.request == Conditional(request, |log|, sent.request.url)
    && sent.answer == world.transport(|log|, sent.request)
  }

  predicate IsRun(world: World, config: Config, request: FetchRequest, log: seq<Sent>) {
    log != [] ==>
      && IsRun(world, config, request, log[..|log| - 1])
      && IsStep(world, config, request, log[..|log| - 1], log[|log| - 1])
  }

  datatype FetchResult = FetchResult(observations: seq<Observation>, body: Option<string>, finalUrl: Url, notModified: bool)

  function ObservationOf(allowed: seq<string>, request: FetchRequest, sent: Sent): Observation
    requires sent.answer.Ok?
  {
    BuildObservation(allowed, request, sent.request.url, sent.addresses, sent.answer.value)
  }

  predicate AllAnswered(log: seq<Sent>) {
    forall k :: 0 <= k < |log| ==> log[k].answer.Ok?
  }

  function Observations(allowed: seq<string>, request: FetchRequest, log: seq<Sent>): (observations: seq<Observation>)
    requires AllAnswered(log)
    ensures |observations| == |log|
  {
    seq(|log|, k requires 0 <= k < |log| => ObservationOf(allowed, request, log[k]))
  }

  /** What is returned for a last answer: the last observation gets the digest of the body, if there is one. */
  function Delivered(world: World, observations: seq<Observation>, r: Response, url: Url): FetchResult
    requires observations != []
  {
    var last := |observations| - 1;
    if r.status == 304 then FetchResult(observations, None, url, true)
    else
      var digested := observations[last].(bodyDigest := Some(world.sha256(r.body)));
      FetchResult(observations[last := digested], Some(r.body), url, false)
  }

  function Delivery(world: World, config: Config, request: FetchRequest, log: seq<Sent>): FetchResult
    requires log != [] && AllAnswered(log)
  {
    var last := log[|log| - 1];
    Delivered(world, Observations(config.allowlisted, request, log), last.answer.value, last.request.url)
  }

  /** How a run ends: in a delivery, or in the error of its last answer or of the next target. */
  predicate Ends(world: World, config: Config, request: FetchRequest, log: seq<Sent>, result: Result<FetchResult, HttpError>) {
    var next := NextOf(world, config, request, log);
    && (next.Deliver? ==> log != [] && AllAnswered(log) && result == Ok(Delivery(world, config, request, log)))
    && (next.Fail? ==> result == Err(next.error))
    && (next.Send? ==>
      var addresses := Resolved(world, config, |log|, next.url);
      addresses.Err? && result == Err(addresses.error))
  }

  lemma RunNext(world: World, config: Config, request: FetchRequest, log: seq<Sent>, sent: Sent)
    requires IsRun(world, config, request, log) && IsStep(world, config, request, log, sent)
    ensures IsRun(world, config, request, log + [sent])
    ensures NextOf(world, config, request, log + [sent]) == After(world, config, |log|, sent)
  {
    assert (log + [sent])[..|log|] == log;
  }

  lemma ObservationsNext(allowed: seq<string>, request: FetchRequest, log: seq<Sent>, sent: Sent)
    requires AllAnswered(log) && sent.answer.Ok?
    ensures AllAnswered(log + [sent])
    ensures Observations(allowed, request, log + [sent]) == Observations(allowed, request, log) + [ObservationOf(allowed, request, sent)]
  {
  }

  /** The check of one target: its host again, its addresses, and whether all are public. */
  method ResolveTarget(world: World, config: Config, k: nat, url: Url) returns (r: Result<seq<Address>, HttpError>)
    ensures r == Resolved(world, config, k, url)
  {
    if url.host.None? {
      return Err(InsecureUrl);
    }
    var host := url.host.value;
    if !AllowsHost(config, host) {
      return Err(UnreviewedRedirect(host));
    }
    var addresses := world.resolve(k, host);
    if addresses.Err? {
      return Err(addresses.error);
    }
    var wrong := ValidateResolved(world.isPublic, host, addresses.value);
    if wrong.Some? {
      return Err(wrong.value);
    }
    return Ok(addresses.value);
  }

  /** One request, with the conditions of earlier evidence only if it is the first. */
  method SendRequest(world: World, request: FetchRequest, redirects: nat, url: Url, addresses: seq<Address>) returns (sent: Sent)
    ensures sent.request == Conditional(request, redirects, url) && sent.request.url == url
    ensures sent.addresses == addresses && sent.answer == world.transport(redirects, sent.request)
  {
    var prior := if redirects == 0 then request.prior else None;
    var outgoing := TransportRequest(
      url, if prior.Some? then prior.value.etag else None, if prior.Some? then prior.value.lastModified else None);
    var answer := world.transport(redirects, outgoing);
    sent := Sent(outgoing, addresses, answer);
  }

  /** What the status of an answer decides: a body, no change, the next URL, or an error. */
  method React(world: World, config: Config, url: Url, response: Response, observations: seq<Observation>, redirects: nat, ghost sent: Sent)
    returns (next: Next, observations': seq<Observation>, body: Option<string>, notModified: bool)
    requires observations != []
    requires sent.answer == Ok(response) && sent.request.url == url
    requires observations[|observations| - 1].redirectTarget == Location(config.allowlisted, response)
    ensures next == After(world, config, redirects, sent)
    ensures next == Deliver ==>
      FetchResult(observations', body, url, notModified) == Delivered(world, observations, response, url)
    ensures next.Send? ==> observations' == observations && body == None && !notModified
  {
    next, observations', body, notModified := Deliver, observations, None, false;
    if 200 <= response.status <= 204 {
      if |response.body| > config.maxBytes {
        next := Fail(Oversized(config.maxBytes));
        return;
      }
      var last := |observations| - 1;
      observations' := observations[last := observations[last].(bodyDigest := Some(world.sha256(response.body)))];
      body := Some(response.body);
    } else if response.status == 304 {
      notModified := true;
    } else if IsRedirect(response.status) {
      var target := FollowRedirect(world, config, url, observations[|observations| - 1].redirectTarget, redirects);
      next := if target.Ok? then Send(target.value.0) else Fail(target.error);
    } else {
      next := Fail(TransportFailed);
    }
  }

  lemma EndsInError(world: World, config: Config, request: FetchRequest, log: seq<Sent>, error: HttpError)
    requires NextOf(world, config, request, log) == Fail(error)
    ensures Ends(world, config, request, log, Err(error))
  {
  }

  lemma EndsUnresolved(world: World, config: Config, request: FetchRequest, log: seq<Sent>, url: Url, error: HttpError)
    requires NextOf(world, config, request, log) == Send(url) && Resolved(world, config, |log|, url) == Err(error)
    ensures Ends(world, config, request, log, Err(error))
  {
  }

  /** One round: the target, the request, its observation, and what the answer decides. */
  method Round(world: World, config: Config, request: FetchRequest, url: Url, observations: seq<Observation>, redirects: nat, log: seq<Sent>)
    returns (next: Next, observations': seq<Observation>, body: Option<string>, notModified: bool, log': seq<Sent>)
    requires IsRun(world, config, request, log) && AllAnswered(log)
    requires NextOf(world, config, request, log) == Send(url)
    requires observations == Observations(config.allowlisted, request, log) && redirects == |log|
    ensures IsRun(world, config, request, log')
    ensures next.Fail? ==> Ends(world, config, request, log', Err(next.error))
    ensures next.Deliver? ==> Ends(world, config, request, log', Ok(FetchResult(observations', body, url, notModified)))
    ensures next.Send? ==> |log'| == |log| + 1 <= MAX_REDIRECTS && AllAnswered(log') && NextOf(world, config, request, log') == next
    ensures next.Send? ==> observations' == Observations(config.allowlisted, request, log')
  {
    observations', body, notModified, log' := observations, None, false, log;
    var addresses := ResolveTarget(world, config, redirects, url);
    if addresses.Err? {
      EndsUnresolved(world, config, request, log, url, addresses.error);
      next := Fail(addresses.error);
      return;
    }
    var sent := SendRequest(world, request, redirects, url, addresses.value);
    RunNext(world, config, request, log, sent);
    log' := log + [sent];
    if sent.answer.Err? {
      EndsInError(world, config, request, log', sent.answer.error);
      next := Fail(sent.answer.error);
      return;
    }
    ObservationsNext(config.allowlisted, request, log, sent);
    observations' := observations + [BuildObservation(config.allowlisted, request, url, addresses.value, sent.answer.value)];
    next, observations', body, notModified := React(world, config, url, sent.answer.value, observations', redirects, sent);
    if next.Send? {
      AfterSends(world, config, redirects, sent);
    }
  }

  /** The loop over the redirects, from a reviewed URL on. */
  method FetchFrom(world: World, config: Config, request: FetchRequest, first: Url)
    returns (result: Result<FetchResult, HttpError>, log: seq<Sent>)
    requires Start(world, config, request) == Send(first)
    ensures IsRun(world, config, request, log) && Ends(world, config, request, log, result)
  {
    var url, observations, redirects := first, [], 0;
    log := [];
    while true
      invariant IsRun(world, config, request, log) && AllAnswered(log)
      invariant NextOf(world, config, request, log) == Send(url)
      invariant observations == Observations(config.allowlisted, request, log)
      invariant redirects == |log| <= MAX_REDIRECTS
      decreases MAX_REDIRECTS - redirects
    {
      var next, body, notModified;
      next, observations, body, notModified, log := Round(world, config, request, url, observations, redirects, log);
      if next.Fail? {
        return Err(next.error), log;
      }
      if next.Deliver? {
        return Ok(FetchResult(observations, body, url, notModified)), log;
      }
      url, redirects := next.url, redirects + 1;
    }
  }

  lemma AfterSends(world: World, config: Config, k: nat, sent: Sent)
    requires After(world, config, k, sent).Send?
    ensures k < MAX_REDIRECTS
  {
  }

  method ProvenanceFetch(world: World, config: Config, request: FetchRequest)
    returns (result: Result<FetchResult, HttpError>, log: seq<Sent>)
    ensures IsRun(world, config, request, log) && Ends(world, config, request, log, result)
  {
    var url := world.parse(request.requestedUrl);
    if url.None? {
      return Err(InvalidUrl), [];
    }
    if url.value.scheme != Https || url.value.host.None? {
      return Err(InsecureUrl), [];
    }
    if !AllowsHost(config, url.value.host.value) {
      return Err(UnreviewedRedirect(url.value.host.value)), [];
    }
    result, log := FetchFrom(world, config, request, url.value);
  }
}
