/**
 * The authenticated `attest` handler: API-key authentication, rate limiting,
 * the optional on-chain intent check, the attestation itself, and the one
 * audit entry written for every request that gets past the rate limiter.
 *
 * The handler is a method on the shared state; `AttestSpec` is the function
 * it is proved against, and the lemmas state the handler's guarantees about
 * that function.
 */
module Api {
  import opened Wrappers
  import opened Bytes
  import opened Text
  import opened Hex
  import opened Json
  import opened Errors
  import opened Verification
  import opened Eip712
  import opened Attestation
  import opened Auth

  // ---------------------------------------------------------------------------
  // decode_bytes32 with text errors

  /** The handler's own `decode_bytes32`: the same decoding as the attestation step, with plain-text errors. */
  function DecodeIntentHash(text: string): (r: Result<Bytes32, string>)
    ensures r.Ok? <==> DecodeHex32(text).Ok?
    ensures r.Ok? ==> r.value == DecodeHex32(text).value
  {
    match DecodeHex32(text)
    case Ok(word) => Ok(word)
    case Err(InvalidHex(e)) => Err("Invalid hex: " + ErrorMessage(e))
    case Err(WrongLength(n)) => Err("Expected 32 bytes, got " + NatToString(n))
  }

  /** The two decoders agree on every text: same word, and the attestation step's error wraps this one's text. */
  lemma DecodersAgree(text: string)
    ensures DecodeIntentHash(text).Ok? ==> Attestation.DecodeBytes32(text) == Ok(DecodeIntentHash(text).value)
    ensures DecodeIntentHash(text).Err? ==>
              Attestation.DecodeBytes32(text) == Err(DeserializationError(DecodeIntentHash(text).error))
  {
  }

  /** A well-formed hex word, with or without its "0x", decodes to itself; any other byte count is named. */
  lemma DecodeIntentHashOfEncode(word: Bytes32, bs: seq<Byte>)
    requires |bs| != 32
    ensures DecodeIntentHash("0x" + Encode(word)) == Ok(word)
    ensures DecodeIntentHash(Encode(word)) == Ok(word)
    ensures DecodeIntentHash("0x" + Encode(bs)) == Err("Expected 32 bytes, got " + NatToString(|bs|))
  {
    DecodeHex32OfEncode(word, 1);
    DecodeHex32OfEncode(word, 0);
    assert Repeat("0x", 1) == "0x";
    assert Repeat("0x", 0) + Encode(word) == Encode(word);
    DecodeHex32WrongLength(bs);
  }

  // ---------------------------------------------------------------------------
  // Audit log

  datatype AuditResult = Success | Rejected(reason: string) | Error(message: string)

  /** One audit record; the time stamp, client address and duration are not modelled. */
  datatype AuditLogEntry = AuditLogEntry(
    solverAddress: string,
    intentHash: string,
    paymentId: Option<string>,
    amountCents: I64,
    result: AuditResult)

  // ---------------------------------------------------------------------------
  // Replies

  /** The answer to a request: the attestation, or an error status with its JSON body. */
  datatype Reply = Attested(attestation: AttestationResponse) | Refused(http: HttpResponse)

  const UNAUTHORIZED: nat := 401
  const TOO_MANY_REQUESTS: nat := 429

  /** `AuthErrorResponse`: `{"success": false, "error": message}`. */
  function ErrorBody(message: string): (v: Value)
    ensures v.Get("success") == Some(Bool(false)) && v.Get("error") == Some(Str(message))
  {
    Object(map["success" := Bool(false), "error" := Str(message)])
  }

  /** `RateLimitResponse`: the error body plus the seconds to wait. */
  function RateLimitBody(retryAfter: U64): (v: Value)
    ensures v.Get("success") == Some(Bool(false)) && v.Get("error") == Some(Str("Rate limit exceeded"))
    ensures v.Get("retry_after") == Some(Num(PosInt(retryAfter)))
  {
    Object(map["success" := Bool(false), "error" := Str("Rate limit exceeded"), "retry_after" := Num(PosInt(retryAfter))])
  }

  /** The identity used when authentication is off. */
  const PLACEHOLDER_SOLVER: string := "0x0000000000000000000000000000000000000000"

  /** The identity the request acts as, or the 401 that ends it. */
  function Authenticate(auth: SolverAuth, apiKey: Option<string>): (r: Result<string, Reply>)
    ensures !auth.IsEnabled() ==> r == Ok(PLACEHOLDER_SOLVER)
    ensures auth.IsEnabled() ==> (r.Ok? <==> apiKey.Some? && apiKey.value in auth.apiKeys)
    ensures auth.IsEnabled() && r.Ok? ==> r.value == auth.apiKeys[apiKey.value]
    ensures r.Err? ==> r.error.Refused? && r.error.http.status == UNAUTHORIZED
  {
    if auth.IsEnabled() then
      match apiKey
      case None => Err(Refused(HttpResponse(UNAUTHORIZED, ErrorBody("Missing X-Solver-API-Key header"))))
      case Some(key) =>
        match auth.ValidateApiKey(key)
        case Some(address) => Ok(address)
        case None => Err(Refused(HttpResponse(UNAUTHORIZED, ErrorBody("Invalid API key"))))
    else
      Ok(PLACEHOLDER_SOLVER)
  }

  /** `crate::chain::validate_intent` with its client bound in: intent hash, solver, expected amount. */
  type ChainCheck = (Bytes32, string, I64) -> Result<(), string>

  /** What one request produces: the reply, the new rate counters, and the audit entry written, if any. */
  datatype Outcome = Outcome(reply: Reply, counters: map<string, Counter>, logged: Option<AuditLogEntry>)

  function FailureEntry(solver: string, request: AttestationRequest, result: AuditResult): AuditLogEntry {
    AuditLogEntry(solver, request.intentHash, None, request.expectedAmountCents, result)
  }

  /** The on-chain check, when configured: the 400 reply and the rejection to log, or nothing. */
  function CheckIntent(chain: Option<ChainCheck>, solver: string, request: AttestationRequest): Option<string>
  {
    match chain
    case None => None
    case Some(check) =>
      match DecodeIntentHash(request.intentHash)
      case Err(e) => Some("Invalid intent hash: " + e)
      case Ok(intent) =>
        match check(intent, solver, request.expectedAmountCents)
        case Err(e) => Some(e)
        case Ok(_) => None
  }

  /** `attest`, as a function of the state it reads and the request. */
  function AttestSpec<P>(auth: SolverAuth, counters: map<string, Counter>, chain: Option<ChainCheck>,
                         config: Config, base64: string -> Result<seq<Byte>, string>, c: Collaborators<P>,
                         keccak: Keccak, apiKey: Option<string>, request: AttestationRequest, now: nat): Outcome
  {
    match Authenticate(auth, apiKey)
    case Err(reply) => Outcome(reply, counters, None)
    case Ok(solver) =>
      var rate := RateStep(counters, solver, now, auth.rateLimit);
      match rate.result
      case Err(retryAfter) =>
        Outcome(Refused(HttpResponse(TOO_MANY_REQUESTS, RateLimitBody(retryAfter))), rate.counters, None)
      case Ok(_) =>
        var admitted := Admitted(chain, config, base64, c, keccak, solver, request);
        Outcome(admitted.0, rate.counters, Some(admitted.1))
  }

  /**
   * A request past the rate limiter: the chain check, then the attestation;
   * the reply, and the audit entry that names the identity and the requested
   * intent, records the payment's id and amount exactly when an attestation
   * was returned, and otherwise no payment id and the requested amount.
   */
  function Admitted<P>(chain: Option<ChainCheck>, config: Config, base64: string -> Result<seq<Byte>, string>,
                       c: Collaborators<P>, keccak: Keccak, solver: string, request: AttestationRequest)
    : (r: (Reply, AuditLogEntry))
    ensures r.1.solverAddress == solver && r.1.intentHash == request.intentHash
    ensures r.1.result.Success? <==> r.0.Attested?
    ensures r.1.result.Success? ==> r.1.paymentId == r.0.attestation.payment.transactionId
                                    && r.1.amountCents == r.0.attestation.payment.amountCents
    ensures !r.1.result.Success? ==> r.1.paymentId.None? && r.1.amountCents == request.expectedAmountCents
  {
    match CheckIntent(chain, solver, request)
    case Some(reason) =>
      (Refused(HttpResponse(BAD_REQUEST, ErrorBody(reason))), FailureEntry(solver, request, Rejected(reason)))
    case None =>
      match CreateAttestation(request, config, base64, c, keccak)
      case Ok(response) =>
        (Attested(response),
         AuditLogEntry(solver, request.intentHash, response.payment.transactionId, response.payment.amountCents, Success))
      case Err(e) =>
        (Refused(IntoResponse(e)), FailureEntry(solver, request, Error(Message(e))))
  }

  function Logged(entry: Option<AuditLogEntry>): seq<AuditLogEntry> {
    match entry
    case None => []
    case Some(e) => [e]
  }

  /** `AppState`: configuration, authentication, the optional chain client, and the audit log. */
  class AppState<P> {
    const config: Config
    const auth: SolverAuth
    const chain: Option<ChainCheck>
    const base64: string -> Result<seq<Byte>, string>
    const collaborators: Collaborators<P>
    const keccak: Keccak
    /** The entries written so far, oldest first. */
    var audit: seq<AuditLogEntry>

    constructor (config: Config, auth: SolverAuth, chain: Option<ChainCheck>,
                 base64: string -> Result<seq<Byte>, string>, collaborators: Collaborators<P>, keccak: Keccak)
      ensures this.config == config && this.auth == auth && this.chain == chain
      ensures this.base64 == base64 && this.collaborators == collaborators && this.keccak == keccak
      ensures audit == []
    {
      this.config := config;
      this.auth := auth;
      this.chain := chain;
      this.base64 := base64;
      this.collaborators := collaborators;
      this.keccak := keccak;
      audit := [];
    }

    /** `attest` on header value `apiKey`, at instant `now`. */
    method Attest(apiKey: Option<string>, request: AttestationRequest, now: nat) returns (reply: Reply)
      requires auth.Valid()
      modifies this, auth
      ensures auth.Valid()
      ensures var o := AttestSpec(auth, old(auth.rateCounters), chain, config, base64, collaborators, keccak,
                                  apiKey, request, now);
              && reply == o.reply
              && auth.rateCounters == o.counters
              && audit == old(audit) + Logged(o.logged)
    {
      var solver: string;
      if auth.IsEnabled() {
        if apiKey.None? {
          return Refused(HttpResponse(UNAUTHORIZED, ErrorBody("Missing X-Solver-API-Key header")));
        }
        var address := auth.ValidateApiKey(apiKey.value);
        if address.None? {
          return Refused(HttpResponse(UNAUTHORIZED, ErrorBody("Invalid API key")));
        }
        solver := address.value;
      } else {
        solver := PLACEHOLDER_SOLVER;
      }

      var rate := auth.CheckRateLimit(solver, now);
      if rate.Err? {
        return Refused(HttpResponse(TOO_MANY_REQUESTS, RateLimitBody(rate.error)));
      }

      reply := AttestAdmitted(solver, request);
    }

    /** The steps after the rate limiter, writing the one audit entry. */
    method AttestAdmitted(solver: string, request: AttestationRequest) returns (reply: Reply)
      modifies this
      ensures var admitted := Admitted(chain, config, base64, collaborators, keccak, solver, request);
              reply == admitted.0 && audit == old(audit) + [admitted.1]
    {
      if chain.Some? {
        var intent := DecodeIntentHash(request.intentHash);
        if intent.Err? {
          var reason := "Invalid intent hash: " + intent.error;
          audit := audit + [FailureEntry(solver, request, Rejected(reason))];
          return Refused(HttpResponse(BAD_REQUEST, ErrorBody(reason)));
        }
        var checked := chain.value(intent.value, solver, request.expectedAmountCents);
        if checked.Err? {
          audit := audit + [FailureEntry(solver, request, Rejected(checked.error))];
          return Refused(HttpResponse(BAD_REQUEST, ErrorBody(checked.error)));
        }
      }

      var created := CreateAttestation(request, config, base64, collaborators, keccak);
      if created.Ok? {
        var payment := created.value.payment;
        audit := audit + [AuditLogEntry(solver, request.intentHash, payment.transactionId, payment.amountCents, Success)];
        reply := Attested(created.value);
      } else {
        audit := audit + [FailureEntry(solver, request, Error(Message(created.error)))];
        reply := Refused(IntoResponse(created.error));
      }
    }
  }

  // ---------------------------------------------------------------------------
  // What the handler guarantees

  /** With authentication on, a missing or unknown key is a 401 that counts nothing and logs nothing. */
  lemma UnauthenticatedRefused<P>(auth: SolverAuth, counters: map<string, Counter>, chain: Option<ChainCheck>,
                                  config: Config, base64: string -> Result<seq<Byte>, string>, c: Collaborators<P>,
                                  keccak: Keccak, apiKey: Option<string>, request: AttestationRequest, now: nat)
    requires auth.IsEnabled() && !(apiKey.Some? && apiKey.value in auth.apiKeys)
    ensures var o := AttestSpec(auth, counters, chain, config, base64, c, keccak, apiKey, request, now);
            && o.counters == counters && o.logged.None?
            && o.reply == Refused(HttpResponse(UNAUTHORIZED, ErrorBody(
                 if apiKey.None? then "Missing X-Solver-API-Key header" else "Invalid API key")))
  {
  }

  /** Every request that passes authentication is counted against the identity it acts as: its key's address, or the placeholder. */
  lemma CountedAgainstIdentity<P>(auth: SolverAuth, counters: map<string, Counter>, chain: Option<ChainCheck>,
                                  config: Config, base64: string -> Result<seq<Byte>, string>, c: Collaborators<P>,
                                  keccak: Keccak, apiKey: Option<string>, request: AttestationRequest, now: nat)
    requires Authenticate(auth, apiKey).Ok?
    ensures var solver := if auth.IsEnabled() then auth.apiKeys[apiKey.value] else PLACEHOLDER_SOLVER;
            AttestSpec(auth, counters, chain, config, base64, c, keccak, apiKey, request, now).counters
              == RateStep(counters, solver, now, auth.rateLimit).counters
  {
  }

  /** A rate-limited request is a 429 carrying the wait, and is not logged. */
  lemma RateLimitedNotLogged<P>(auth: SolverAuth, counters: map<string, Counter>, chain: Option<ChainCheck>,
                                config: Config, base64: string -> Result<seq<Byte>, string>, c: Collaborators<P>,
                                keccak: Keccak, apiKey: Option<string>, request: AttestationRequest, now: nat)
    requires Authenticate(auth, apiKey).Ok?
    requires RateStep(counters, Authenticate(auth, apiKey).value, now, auth.rateLimit).result.Err?
    ensures var o := AttestSpec(auth, counters, chain, config, base64, c, keccak, apiKey, request, now);
            var retry := RateStep(counters, Authenticate(auth, apiKey).value, now, auth.rateLimit).result.error;
            && o.logged.None?
            && o.reply == Refused(HttpResponse(TOO_MANY_REQUESTS, RateLimitBody(retry)))
            && 1 <= retry <= 61
  {
    RateStepOutcome(counters, Authenticate(auth, apiKey).value, now, auth.rateLimit);
  }

  /** Exactly the requests that get past authentication and the rate limiter leave one audit entry. */
  lemma LoggedIffAdmitted<P>(auth: SolverAuth, counters: map<string, Counter>, chain: Option<ChainCheck>,
                             config: Config, base64: string -> Result<seq<Byte>, string>, c: Collaborators<P>,
                             keccak: Keccak, apiKey: Option<string>, request: AttestationRequest, now: nat)
    ensures AttestSpec(auth, counters, chain, config, base64, c, keccak, apiKey, request, now).logged.Some? <==>
              Authenticate(auth, apiKey).Ok? &&
              RateStep(counters, Authenticate(auth, apiKey).value, now, auth.rateLimit).result.Ok?
  {
  }

  /**
   * The audit entry agrees with the reply: it names the identity and the
   * requested intent; it is a success exactly when an attestation was returned,
   * and then records the payment's id and amount; otherwise it has no payment
   * id and records the requested amount.
   */
  lemma AuditMatchesReply<P>(auth: SolverAuth, counters: map<string, Counter>, chain: Option<ChainCheck>,
                             config: Config, base64: string -> Result<seq<Byte>, string>, c: Collaborators<P>,
                             keccak: Keccak, apiKey: Option<string>, request: AttestationRequest, now: nat)
    ensures var o := AttestSpec(auth, counters, chain, config, base64, c, keccak, apiKey, request, now);
            o.logged.Some? ==>
              var e := o.logged.value;
              && e.solverAddress == Authenticate(auth, apiKey).value
              && e.intentHash == request.intentHash
              && (e.result.Success? <==> o.reply.Attested?)
              && (e.result.Success? ==> e.paymentId == o.reply.attestation.payment.transactionId
                                        && e.amountCents == o.reply.attestation.payment.amountCents)
              && (!e.result.Success? ==> e.paymentId.None? && e.amountCents == request.expectedAmountCents)
  {
  }

  /**
   * A chain rejection is a 400 whose error is the logged reason, and the
   * attestation step is never reached: any other presentation decoder gives
   * the same outcome.
   */
  lemma ChainRejectionStops<P>(auth: SolverAuth, counters: map<string, Counter>, chain: Option<ChainCheck>,
                               config: Config, base64: string -> Result<seq<Byte>, string>, c: Collaborators<P>,
                               keccak: Keccak, apiKey: Option<string>, request: AttestationRequest, now: nat,
                               otherBase64: string -> Result<seq<Byte>, string>)
    requires Authenticate(auth, apiKey).Ok?
    requires RateStep(counters, Authenticate(auth, apiKey).value, now, auth.rateLimit).result.Ok?
    requires CheckIntent(chain, Authenticate(auth, apiKey).value, request).Some?
    ensures var o := AttestSpec(auth, counters, chain, config, base64, c, keccak, apiKey, request, now);
            var reason := CheckIntent(chain, Authenticate(auth, apiKey).value, request).value;
            && o.reply == Refused(HttpResponse(BAD_REQUEST, ErrorBody(reason)))
            && o.logged == Some(FailureEntry(Authenticate(auth, apiKey).value, request, Rejected(reason)))
            && o == AttestSpec(auth, counters, chain, config, otherBase64, c, keccak, apiKey, request, now)
  {
  }

  /** The chain check fails exactly on an undecodable intent hash or a refusal by the chain. */
  lemma CheckIntentCases(chain: ChainCheck, solver: string, request: AttestationRequest)
    ensures var r := CheckIntent(Some(chain), solver, request);
            var h := DecodeIntentHash(request.intentHash);
            && (h.Err? ==> r == Some("Invalid intent hash: " + h.error))
            && (h.Ok? ==> (r.None? <==> chain(h.value, solver, request.expectedAmountCents).Ok?))
            && (h.Ok? && r.Some? ==> r.value == chain(h.value, solver, request.expectedAmountCents).error)
  {
  }

  /** An attestation is only ever returned after the chain check, when configured, accepted the intent. */
  lemma AttestedOnlyAfterChecks<P>(auth: SolverAuth, counters: map<string, Counter>, chain: Option<ChainCheck>,
                                   config: Config, base64: string -> Result<seq<Byte>, string>, c: Collaborators<P>,
                                   keccak: Keccak, apiKey: Option<string>, request: AttestationRequest, now: nat)
    requires AttestSpec(auth, counters, chain, config, base64, c, keccak, apiKey, request, now).reply.Attested?
    ensures Authenticate(auth, apiKey).Ok?
    ensures RateStep(counters, Authenticate(auth, apiKey).value, now, auth.rateLimit).result.Ok?
    ensures chain.Some? ==>
              && DecodeIntentHash(request.intentHash).Ok?
              && chain.value(DecodeIntentHash(request.intentHash).value, Authenticate(auth, apiKey).value,
                             request.expectedAmountCents).Ok?
    ensures CreateAttestation(request, config, base64, c, keccak) ==
              Ok(AttestSpec(auth, counters, chain, config, base64, c, keccak, apiKey, request, now).reply.attestation)
  {
    if chain.Some? {
      CheckIntentCases(chain.value, Authenticate(auth, apiKey).value, request);
    }
  }
}
