/**
 * `AttestationError`: the ten failure kinds of the attestation pipeline, their
 * `Display` texts and the HTTP response each one becomes.
 */
module Errors {
  import opened Wrappers
  import opened Text
  import opened Json

  datatype AttestationError =
    | InvalidPresentation(detail: string)
    | VerificationFailed(detail: string)
    | InvalidPaymentData(detail: string)
    | ServerNotFound
    | TranscriptNotFound
    | UnexpectedServer(expected: string, actual: string)
    | MissingField(field: string)
    | SigningError(detail: string)
    | DeserializationError(detail: string)
    | Internal(detail: string)

  /** The fixed text in front of a variant's payload. */
  function Prefix(e: AttestationError): string {
    match e
    case InvalidPresentation(_) => "Invalid presentation: "
    case VerificationFailed(_) => "Verification failed: "
    case InvalidPaymentData(_) => "Invalid payment data: "
    case ServerNotFound => "Server not found in presentation"
    case TranscriptNotFound => "Transcript not found in presentation"
    case UnexpectedServer(_, _) => "Unexpected server: expected "
    case MissingField(_) => "Missing required field: "
    case SigningError(_) => "Signing error: "
    case DeserializationError(_) => "Deserialization error: "
    case Internal(_) => "Internal error: "
  }

  /** `e.to_string()`: the `#[error(...)]` text of the variant. */
  function Message(e: AttestationError): (m: string)
    ensures StartsWith(m, Prefix(e))
  {
    match e
    case InvalidPresentation(d) => Prefix(e) + d
    case VerificationFailed(d) => Prefix(e) + d
    case InvalidPaymentData(d) => Prefix(e) + d
    case ServerNotFound => Prefix(e)
    case TranscriptNotFound => Prefix(e)
    case UnexpectedServer(expected, actual) => Prefix(e) + expected + ", got " + actual
    case MissingField(f) => Prefix(e) + f
    case SigningError(d) => Prefix(e) + d
    case DeserializationError(d) => Prefix(e) + d
    case Internal(d) => Prefix(e) + d
  }

  const BAD_REQUEST: nat := 400
  const INTERNAL_SERVER_ERROR: nat := 500

  /** The status code `into_response` chooses for a variant. */
  function StatusCode(e: AttestationError): nat {
    match e
    case SigningError(_) => INTERNAL_SERVER_ERROR
    case Internal(_) => INTERNAL_SERVER_ERROR
    case _ => BAD_REQUEST
  }

  datatype HttpResponse = HttpResponse(status: nat, body: Value)

  /** `into_response`: the chosen status, and a body `{"error": message, "code": status}`. */
  function IntoResponse(e: AttestationError): HttpResponse {
    var status := StatusCode(e);
    HttpResponse(status, Object(map["error" := Str(Message(e)), "code" := Num(PosInt(status))]))
  }

  /** Signing and internal failures are server errors; every other variant is the client's fault. */
  lemma StatusClasses(e: AttestationError)
    ensures StatusCode(e) == 500 <==> e.SigningError? || e.Internal?
    ensures StatusCode(e) == 400 <==> !(e.SigningError? || e.Internal?)
  {
  }

  /** The response body carries the message under "error" and repeats the status under "code". */
  lemma ResponseBodyMatchesStatus(e: AttestationError)
    ensures var r := IntoResponse(e);
            && r.body.Get("error") == Some(Str(Message(e)))
            && r.body.Get("code").Some? && r.body.Get("code").value.AsI64() == Some(r.status)
            && r.body.Get("code").value.n.PosInt?
  {
  }

  /** A missing field renders as "Missing required field: f" and is a 400. */
  lemma MissingFieldResponse(f: string)
    ensures Message(MissingField(f)) == "Missing required field: " + f
    ensures IntoResponse(MissingField(f)).status == 400
  {
  }

  lemma UnexpectedServerMessage(expected: string, actual: string)
    ensures Message(UnexpectedServer(expected, actual)) == "Unexpected server: expected " + expected + ", got " + actual
    ensures IntoResponse(UnexpectedServer(expected, actual)).status == 400
  {
  }
}
