/**
  The `pull` request handler: the request guards (User-Agent, event,
  signature), the bounded read of the body, and the ordered checks that end
  in running the repository's action.

  Inputs the handler does not compute are parameters: what each read of the
  body stream answers (`stream`), the JSON parser (`parse`), SHA-256 (`H`) and the
  outcome of the action should it run (`actionOk`).
*/
module Handler {
  import opened Wrappers
  import opened Http
  import Utf8
  import Hmac
  import GitHub
  import GitConfig

  /** The size of the read buffer. */
  const ChunkSize: nat := 512
  /** The number of reads attempted at most (10 * 2). */
  const MaxReads: nat := 20
  /** 10 KiB: the most the handler ever reads. */
  const MaxBody: nat := 10240

  /** What one `read` into the buffer answers: some bytes (none at the end of the stream) or an I/O error. */
  datatype ReadResult = Read(data: seq<bv8>) | ReadError

  /** The i-th read; past the last scripted answer the stream is at its end. */
  function ReadAt(stream: seq<ReadResult>, i: nat): ReadResult
  {
    if i < |stream| then stream[i] else Read([])
  }

  /** A read never returns more bytes than the buffer holds. */
  predicate ChunksFit(stream: seq<ReadResult>)
  {
    forall i :: 0 <= i < |stream| && stream[i].Read? ==> |stream[i].data| <= ChunkSize
  }

  /** The bytes collected by reads i, i + 1, ... up to the read limit; none after an I/O error. */
  function CollectFrom(stream: seq<ReadResult>, i: nat): Option<seq<bv8>>
    decreases MaxReads - i
  {
    if i >= MaxReads then Some([])
    else
      match ReadAt(stream, i)
      case ReadError => None
      case Read(d) =>
        if |d| == 0 then Some([])
        else
          match CollectFrom(stream, i + 1)
          case None => None
          case Some(rest) => Some(d + rest)
  }

  /** The request body as the handler reads it. */
  function BodyOf(stream: seq<ReadResult>): Option<seq<bv8>>
  {
    CollectFrom(stream, 0)
  }

  function Prepend(prefix: seq<bv8>, o: Option<seq<bv8>>): Option<seq<bv8>>
  {
    match o
    case None => None
    case Some(rest) => Some(prefix + rest)
  }

  /** One more non-empty read moves its data from what is still to be read to what was collected. */
  lemma CollectStep(stream: seq<ReadResult>, i: nat, collected: seq<bv8>, d: seq<bv8>)
    requires i < MaxReads && ReadAt(stream, i) == Read(d) && |d| > 0
    ensures Prepend(collected, CollectFrom(stream, i)) == Prepend(collected + d, CollectFrom(stream, i + 1))
  {
    if CollectFrom(stream, i + 1).Some? {
      var rest := CollectFrom(stream, i + 1).value;
      assert collected + (d + rest) == (collected + d) + rest;
    }
  }

  /** The bounded read loop: at most 20 reads into a 512-byte buffer, stopping at the end of the stream. */
  method ReadBody(stream: seq<ReadResult>) returns (body: Option<seq<bv8>>)
    requires ChunksFit(stream)
    ensures body == BodyOf(stream)
  {
    var buffer := new bv8[ChunkSize](_ => 0);
    var collected: seq<bv8> := [];
    assert BodyOf(stream).Some? ==> [] + BodyOf(stream).value == BodyOf(stream).value;
    for i := 0 to MaxReads
      invariant BodyOf(stream) == Prepend(collected, CollectFrom(stream, i))
    {
      var answer := ReadAt(stream, i);
      if answer.ReadError? {
        return None;
      }
      var d := answer.data;
      if |d| == 0 {
        assert collected + [] == collected;
        return Some(collected);
      }
      forall j | 0 <= j < |d| {
        buffer[j] := d[j];
      }
      assert buffer[..|d|] == d;
      CollectStep(stream, i, collected, d);
      collected := collected + buffer[..|d|];
    }
    assert collected + [] == collected;
    body := Some(collected);
  }

  // ---------------------------------------------------------------------
  // Properties of the body read.
  // ---------------------------------------------------------------------

  lemma {:induction false} CollectBounded(stream: seq<ReadResult>, i: nat, body: seq<bv8>)
    requires ChunksFit(stream) && i <= MaxReads
    requires CollectFrom(stream, i) == Some(body)
    ensures |body| <= ChunkSize * (MaxReads - i)
    decreases MaxReads - i
  {
    if i < MaxReads && ReadAt(stream, i).Read? && |ReadAt(stream, i).data| > 0 {
      var d := ReadAt(stream, i).data;
      var rest := CollectFrom(stream, i + 1).value;
      CollectBounded(stream, i + 1, rest);
    }
  }

  /** The body never exceeds 10 KiB. */
  lemma BodyBounded(stream: seq<ReadResult>)
    requires ChunksFit(stream) && BodyOf(stream).Some?
    ensures |BodyOf(stream).value| <= MaxBody
  {
    CollectBounded(stream, 0, BodyOf(stream).value);
  }

  /** Whatever the stream would answer after the 20th read is never looked at. */
  lemma {:induction false} LaterReadsIgnored(stream: seq<ReadResult>, more: seq<ReadResult>, i: nat)
    requires |stream| >= MaxReads
    ensures CollectFrom(stream + more, i) == CollectFrom(stream, i)
    decreases MaxReads - i
  {
    if i < MaxReads {
      assert ReadAt(stream + more, i) == ReadAt(stream, i);
      LaterReadsIgnored(stream, more, i + 1);
    }
  }

  /** The concatenation, in order, of the data of reads i until n. */
  function Concat(stream: seq<ReadResult>, i: nat, n: nat): seq<bv8>
    decreases n - i
  {
    if i >= n then []
    else
      match ReadAt(stream, i)
      case Read(d) => d + Concat(stream, i + 1, n)
      case ReadError => []
  }

  /** Reads i until n returned data. */
  predicate AllNonEmpty(stream: seq<ReadResult>, i: nat, n: nat)
  {
    forall k :: i <= k < n ==> ReadAt(stream, k).Read? && |ReadAt(stream, k).data| > 0
  }

  /** When the first n reads return data and the next one reports the end (or the limit is reached), the body is their in-order concatenation. */
  lemma {:induction false} BodyIsConcatenation(stream: seq<ReadResult>, i: nat, n: nat)
    requires i <= n <= MaxReads
    requires AllNonEmpty(stream, i, n)
    requires n == MaxReads || ReadAt(stream, n) == Read([])
    ensures CollectFrom(stream, i) == Some(Concat(stream, i, n))
    decreases n - i
  {
    if i < n {
      BodyIsConcatenation(stream, i + 1, n);
    }
  }

  /** When the first n reads return data and the next one fails, there is no body. */
  lemma {:induction false} ReadErrorLosesBody(stream: seq<ReadResult>, i: nat, n: nat)
    requires i <= n < MaxReads
    requires AllNonEmpty(stream, i, n)
    requires ReadAt(stream, n) == ReadError
    ensures CollectFrom(stream, i) == None
    decreases n - i
  {
    if i < n {
      ReadErrorLosesBody(stream, i + 1, n);
    }
  }

  // ---------------------------------------------------------------------
  // The decision.
  // ---------------------------------------------------------------------

  /** The route's repository name, the three headers, and the body stream. */
  datatype Request = Request(
    repoName: string,
    userAgent: Option<string>,
    event: Option<string>,
    signature: Option<string>,
    stream: seq<ReadResult>)

  /** `serde_json::from_str` into a Payload, applied to the body text (given here by its bytes). */
  type Parser = seq<bv8> -> Option<GitHub.Payload>

  /** The handler's verdict before the action runs: a status, or the action to run. */
  datatype Decision = Reject(status: Status) | Run(action: GitConfig.Action)

  /** The whole pipeline, stage by stage, each failure ending it. */
  function Decide(H: Hmac.Hash, config: GitConfig.Config, parse: Parser, request: Request): Decision
  {
    var agent := GitHub.GithubFromRequest(request.userAgent);
    var event := GitHub.EventFromRequest(request.event);
    var signature := GitHub.SignatureFromRequest(request.signature);
    if agent.Failure? then Reject(agent.status)
    else if event.Failure? then Reject(event.status)
    else if signature.Failure? then Reject(signature.status)
    else
      var body := BodyOf(request.stream);
      if body.None? || !Utf8.IsValid(body.value) then Reject(BadRequest)
      else
        var payload := parse(body.value);
        if payload.None? then Reject(BadRequest)
        else
          var policy := GitConfig.GetPolicyFromName(config, request.repoName);
          if policy.None? then Reject(NotFound)
          else
            match policy.value.service
            case Github =>
              if request.repoName != payload.value.repository.name then Reject(NotFound)
              else
                var mac := Hmac.Hmac(H, Utf8.Encode(policy.value.secret), body.value);
                if !GitHub.DigestEqSignature(mac, signature.value) then Reject(NotFound)
                else if policy.value.event == GitConfig.Push && event.value == GitHub.Push
                then Run(policy.value.action)
                else Reject(NotFound)
  }

  /** The status answered, given the decision and the action's result if it runs. */
  function Respond(decision: Decision, actionOk: bool): Status
  {
    match decision
    case Reject(status) => status
    case Run(_) => if actionOk then Status.Ok else InternalServerError
  }

  /** The handler: guards, the read loop, then the checks in order with early returns. */
  method Pull(H: Hmac.Hash, config: GitConfig.Config, parse: Parser, actionOk: bool, request: Request)
    returns (status: Status)
    requires ChunksFit(request.stream)
    ensures status == Respond(Decide(H, config, parse, request), actionOk)
  {
    // The request guards, in the order of the handler's parameters.
    var agent := GitHub.GithubFromRequest(request.userAgent);
    if agent.Failure? { return agent.status; }
    var event := GitHub.EventFromRequest(request.event);
    if event.Failure? { return event.status; }
    var signature := GitHub.SignatureFromRequest(request.signature);
    if signature.Failure? { return signature.status; }

    var body := ReadBody(request.stream);
    if body.None? { return BadRequest; }
    if !Utf8.IsValid(body.value) { return BadRequest; }

    var payload := parse(body.value);
    if payload.None? { return BadRequest; }

    var policy := GitConfig.GetPolicyFromName(config, request.repoName);
    if policy.None? { return NotFound; }

    match policy.value.service {
      case Github =>
    }

    if request.repoName != payload.value.repository.name { return NotFound; }

    var mac := Hmac.HmacSha256(H, Utf8.Encode(policy.value.secret), body.value);
    if !GitHub.DigestEqSignature(mac, signature.value) { return NotFound; }

    if policy.value.event == GitConfig.Push && event.value == GitHub.Push {
      status := if actionOk then Status.Ok else InternalServerError;
    } else {
      status := NotFound;
    }
  }

  // ---------------------------------------------------------------------
  // Properties of the decision.
  // ---------------------------------------------------------------------

  /** The three request guards pass. */
  predicate GuardsPass(request: Request)
  {
    && GitHub.GithubFromRequest(request.userAgent).Success?
    && GitHub.EventFromRequest(request.event).Success?
    && GitHub.SignatureFromRequest(request.signature).Success?
  }

  /** The body was read, is UTF-8 and parses. */
  predicate BodyParses(parse: Parser, request: Request)
  {
    var body := BodyOf(request.stream);
    body.Some? && Utf8.IsValid(body.value) && parse(body.value).Some?
  }

  /** A missing or wrong User-Agent, event or signature header is answered with 404. */
  lemma GuardFailureIsNotFound(H: Hmac.Hash, config: GitConfig.Config, parse: Parser, request: Request)
    requires !GuardsPass(request)
    ensures Decide(H, config, parse, request) == Reject(NotFound)
  {
  }

  /** A body that cannot be read, is not UTF-8, or does not parse is answered with 400 whatever the table holds, so also for an unknown repository. */
  lemma MalformedBodyIsBadRequest(H: Hmac.Hash, config: GitConfig.Config, parse: Parser, request: Request)
    requires GuardsPass(request) && !BodyParses(parse, request)
    ensures Decide(H, config, parse, request) == Reject(BadRequest)
  {
  }

  /** An unregistered repository name is answered with 404. */
  lemma UnknownRepositoryIsNotFound(H: Hmac.Hash, config: GitConfig.Config, parse: Parser, request: Request)
    requires GuardsPass(request) && BodyParses(parse, request)
    requires GitConfig.Valid(config) && request.repoName !in GitConfig.Names(config.policies)
    ensures Decide(H, config, parse, request) == Reject(NotFound)
  {
  }

  /** A payload naming another repository than the route is answered with 404, whatever the signature. */
  lemma NameMismatchIsNotFound(H: Hmac.Hash, config: GitConfig.Config, parse: Parser, request: Request)
    requires GuardsPass(request) && BodyParses(parse, request)
    requires parse(BodyOf(request.stream).value).value.repository.name != request.repoName
    ensures Decide(H, config, parse, request) == Reject(NotFound)
  {
  }

  /**
    The action runs exactly when every check passes: the headers are there,
    the body parses, the repository is registered, the payload names it, and
    the signature header is "sha256=" followed by the hex of the HMAC of the
    bytes read, keyed with the policy's secret. The action run is the
    policy's. The final event comparison never fails once the guards pass.
  */
  lemma RunIffAllChecksPass(H: Hmac.Hash, config: GitConfig.Config, parse: Parser, request: Request)
    ensures Decide(H, config, parse, request).Run? <==>
      && GitHub.GithubFromRequest(request.userAgent).Success?
      && request.event == Some("push")
      && request.signature.Some?
      && BodyParses(parse, request)
      && var body := BodyOf(request.stream).value;
      && var policy := GitConfig.GetPolicyFromName(config, request.repoName);
      && policy.Some?
      && parse(body).value.repository.name == request.repoName
      && request.signature.value ==
           GitHub.SignaturePrefix + GitHub.Hex(Hmac.Hmac(H, Utf8.Encode(policy.value.secret), body))
    ensures Decide(H, config, parse, request).Run? ==>
      Decide(H, config, parse, request).action ==
        GitConfig.GetPolicyFromName(config, request.repoName).value.action
  {
    var d := Decide(H, config, parse, request);
    if !GuardsPass(request) {
      GuardFailureIsNotFound(H, config, parse, request);
    } else if !BodyParses(parse, request) {
      MalformedBodyIsBadRequest(H, config, parse, request);
    } else {
      var body := BodyOf(request.stream).value;
      var policy := GitConfig.GetPolicyFromName(config, request.repoName);
      if policy.None? {
        assert d == Reject(NotFound);
      } else if parse(body).value.repository.name != request.repoName {
        NameMismatchIsNotFound(H, config, parse, request);
      } else {
        var mac := Hmac.Hmac(H, Utf8.Encode(policy.value.secret), body);
        var sig := GitHub.Signature(request.signature.value);
        assert d == if GitHub.DigestEqSignature(mac, sig) then Run(policy.value.action) else Reject(NotFound);
      }
    }
  }

  /** Two accepted requests to the same route with the same signature header carry bodies with the same HMAC. */
  lemma SignatureBindsBody(H: Hmac.Hash, config: GitConfig.Config, parse: Parser, r1: Request, r2: Request)
    requires Decide(H, config, parse, r1).Run? && Decide(H, config, parse, r2).Run?
    requires r1.repoName == r2.repoName && r1.signature == r2.signature
    ensures var secret := GitConfig.GetPolicyFromName(config, r1.repoName).value.secret;
      Hmac.Hmac(H, Utf8.Encode(secret), BodyOf(r1.stream).value) ==
      Hmac.Hmac(H, Utf8.Encode(secret), BodyOf(r2.stream).value)
  {
    RunIffAllChecksPass(H, config, parse, r1);
    RunIffAllChecksPass(H, config, parse, r2);
    var secret := GitConfig.GetPolicyFromName(config, r1.repoName).value.secret;
    var sig := GitHub.Signature(r1.signature.value);
    GitHub.HeaderDeterminesDigest(sig,
      Hmac.Hmac(H, Utf8.Encode(secret), BodyOf(r1.stream).value),
      Hmac.Hmac(H, Utf8.Encode(secret), BodyOf(r2.stream).value));
  }

  /** The handler only ever answers 200, 400, 404 or 500; 400 only for body problems, 200 and 500 only after every check passed. */
  lemma StatusMapping(H: Hmac.Hash, config: GitConfig.Config, parse: Parser, request: Request, actionOk: bool)
    ensures var status := Respond(Decide(H, config, parse, request), actionOk);
      && Code(status) in {200, 400, 404, 500}
      && (status == BadRequest <==> GuardsPass(request) && !BodyParses(parse, request))
      && (status == Status.Ok <==> Decide(H, config, parse, request).Run? && actionOk)
      && (status == InternalServerError <==> Decide(H, config, parse, request).Run? && !actionOk)
  {
  }
}
