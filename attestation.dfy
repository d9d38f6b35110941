/**
 * `create_attestation`: from a base64 presentation and the solver's
 * expectations to a signed EIP-712 attestation, with the payment cross-check,
 * IBAN normalisation and the 32-byte hex decoding it relies on.
 */
module Attestation {
  import opened Wrappers
  import opened Bytes
  import opened Text
  import opened Hex
  import opened Errors
  import opened Verification
  import opened Eip712

  datatype AttestationRequest = AttestationRequest(
    presentation: string,
    intentHash: string,
    expectedAmountCents: I64,
    expectedBeneficiaryIban: string)

  /** The payment part of the response. */
  datatype PaymentSummary = PaymentSummary(
    transactionId: Option<string>,
    amountCents: I64,
    beneficiaryIban: string,
    timestamp: U64,
    server: string)

  datatype AttestationResponse = AttestationResponse(
    success: bool,
    signature: string,
    digest: string,
    dataHash: string,
    payment: PaymentSummary)

  /** The service configuration the attestation step reads; the signing key is held by `signer`. */
  datatype Config = Config(
    signer: Signer,
    chainId: U64,
    verifierContract: Address,
    allowedServers: seq<string>)

  // ---------------------------------------------------------------------------
  // IBAN normalisation

  /** The characters of `s` that are not whitespace, in order. */
  function RemoveWhitespace(s: string): (r: string)
    ensures forall i :: 0 <= i < |r| ==> !IsWhitespace(r[i])
    ensures |r| <= |s|
  {
    if s == [] then []
    else
      var init := RemoveWhitespace(s[..|s| - 1]);
      var c := s[|s| - 1];
      if IsWhitespace(c) then init else init + [c]
  }

  /** `normalize_iban`: whitespace dropped, letters upper-cased. */
  function NormalizeIban(iban: string): (r: string)
    ensures forall i :: 0 <= i < |r| ==> !IsWhitespace(r[i]) && !('a' <= r[i] <= 'z')
  {
    var kept := RemoveWhitespace(iban);
    var r := ToUpper(kept);
    assert forall i :: 0 <= i < |r| ==> r[i] == ToUpperChar(kept[i]);
    r
  }

  lemma {:induction false} RemoveWhitespaceAppend(a: string, b: string)
    ensures RemoveWhitespace(a + b) == RemoveWhitespace(a) + RemoveWhitespace(b)
    decreases |b|
  {
    if b != [] {
      var b' := b[..|b| - 1];
      assert (a + b)[..|a + b| - 1] == a + b';
      RemoveWhitespaceAppend(a, b');
    } else {
      assert a + b == a;
    }
  }

  lemma {:induction false} RemoveWhitespaceOfClean(s: string)
    requires forall i :: 0 <= i < |s| ==> !IsWhitespace(s[i])
    ensures RemoveWhitespace(s) == s
  {
    if s != [] {
      RemoveWhitespaceOfClean(s[..|s| - 1]);
    }
  }

  lemma ToUpperAppend(a: string, b: string)
    ensures ToUpper(a + b) == ToUpper(a) + ToUpper(b)
  {
  }

  /** Normalising twice is normalising once. */
  lemma NormalizeIbanIdempotent(iban: string)
    ensures NormalizeIban(NormalizeIban(iban)) == NormalizeIban(iban)
  {
    var n := NormalizeIban(iban);
    RemoveWhitespaceOfClean(n);
    assert forall i :: 0 <= i < |n| ==> ToUpperChar(n[i]) == n[i];
  }

  /** Whitespace anywhere is ignored: "DE89 3704" and "de893704" normalise alike. */
  lemma NormalizeIbanIgnoresSpace(a: string, w: char, b: string)
    requires IsWhitespace(w)
    ensures NormalizeIban(a + [w] + b) == NormalizeIban(a) + NormalizeIban(b)
  {
    RemoveWhitespaceAppend(a + [w], b);
    RemoveWhitespaceAppend(a, [w]);
    assert RemoveWhitespace([w]) == [] by {
      assert [w][..0] == [];
    }
    ToUpperAppend(RemoveWhitespace(a), RemoveWhitespace(b));
  }

  // ---------------------------------------------------------------------------
  // 32-byte hex words

  /** Why a text is not a 32-byte hex word. */
  datatype Hex32Error = InvalidHex(e: FromHexError) | WrongLength(n: nat)

  /** The common core of both `decode_bytes32` functions: strip every leading "0x", hex-decode, insist on 32 bytes. */
  function DecodeHex32(text: string): (r: Result<Bytes32, Hex32Error>)
    ensures r.Ok? <==> Decode(TrimStartMatches(text, "0x")).Ok? && |Decode(TrimStartMatches(text, "0x")).value| == 32
    ensures r.Ok? ==> Decode(TrimStartMatches(text, "0x")) == Ok(r.value)
  {
    match Decode(TrimStartMatches(text, "0x"))
    case Err(e) => Err(InvalidHex(e))
    case Ok(bytes) => if |bytes| != 32 then Err(WrongLength(|bytes|)) else Ok(bytes)
  }

  /** Any number of "0x" prefixes before the lower-case hex of a 32-byte word decodes to that word. */
  lemma {:induction false} DecodeHex32OfEncode(word: Bytes32, k: nat)
    ensures DecodeHex32(Repeat("0x", k) + Encode(word)) == Ok(word)
  {
    StripHexPrefixes(word, k);
    DecodeEncode(word);
  }

  lemma StripHexPrefixes(bs: seq<Byte>, k: nat)
    ensures TrimStartMatches(Repeat("0x", k) + Encode(bs), "0x") == Encode(bs)
  {
    TrimRepeated("0x", k, Encode(bs));
    TrimHexPrefix(bs);
    TrimStartMatchesPrefix("0x", Encode(bs));
  }

  /** Leading copies of `p` are all absorbed by `trim_start_matches(p)`. */
  lemma {:induction false} TrimRepeated(p: string, k: nat, s: string)
    requires p != []
    ensures TrimStartMatches(Repeat(p, k) + s, p) == TrimStartMatches(s, p)
  {
    if k == 0 {
      assert Repeat(p, 0) + s == s;
    } else {
      var rest := Repeat(p, k - 1) + s;
      assert Repeat(p, k) + s == p + rest;
      TrimStartMatchesPrefix(p, rest);
      TrimRepeated(p, k - 1, s);
    }
  }

  /** A hex text of any other length is refused with its byte count. */
  lemma DecodeHex32WrongLength(bs: seq<Byte>)
    requires |bs| != 32
    ensures DecodeHex32("0x" + Encode(bs)) == Err(WrongLength(|bs|))
  {
    TrimHexPrefix(bs);
    DecodeEncode(bs);
  }

  /** `decode_bytes32` in this file: errors become `DeserializationError`. */
  function DecodeBytes32(text: string): (r: Result<Bytes32, AttestationError>)
    ensures r.Ok? <==> DecodeHex32(text).Ok?
    ensures r.Ok? ==> r.value == DecodeHex32(text).value
    ensures r.Err? ==> r.error.DeserializationError?
  {
    match DecodeHex32(text)
    case Ok(word) => Ok(word)
    case Err(InvalidHex(e)) => Err(DeserializationError("Invalid hex: " + ErrorMessage(e)))
    case Err(WrongLength(n)) => Err(DeserializationError("Expected 32 bytes, got " + NatToString(n)))
  }

  // ---------------------------------------------------------------------------
  // Payment cross-check

  function AmountMismatch(expected: I64, actual: I64): string {
    "Amount mismatch: expected " + IntToString(expected) + " cents, got " + IntToString(actual) + " cents"
  }

  function IbanMismatch(expected: string, actual: string): string {
    "IBAN mismatch: expected " + expected + ", got " + actual
  }

  /** `validate_payment` */
  function ValidatePayment(verified: VerifiedPayment, request: AttestationRequest): (r: Result<(), AttestationError>)
    ensures request.expectedAmountCents == 0 && request.expectedBeneficiaryIban == [] ==> r.Ok?
  {
    var expected := request.expectedAmountCents;
    var expectedIban := request.expectedBeneficiaryIban;
    if expected == 0 && expectedIban == [] then Ok(())
    else if expected > 0 && verified.amountCents.None? then Err(MissingField("amount_cents"))
    else if expected > 0 && verified.amountCents.value != expected then
      Err(InvalidPaymentData(AmountMismatch(expected, verified.amountCents.value)))
    else if expectedIban != [] && verified.beneficiaryIban.None? then Err(MissingField("beneficiary_iban"))
    else if expectedIban != [] && NormalizeIban(expectedIban) != NormalizeIban(verified.beneficiaryIban.value) then
      Err(InvalidPaymentData(IbanMismatch(NormalizeIban(expectedIban), NormalizeIban(verified.beneficiaryIban.value))))
    else Ok(())
  }

  /**
   * Acceptance, stated outright: the amount matters only when a positive one is
   * expected, and the IBAN only when a non-empty one is; each must then be
   * present and agree (the IBAN after normalisation).
   */
  lemma ValidatePaymentAccepts(verified: VerifiedPayment, request: AttestationRequest)
    ensures ValidatePayment(verified, request).Ok? <==>
              (request.expectedAmountCents <= 0 || verified.amountCents == Some(request.expectedAmountCents))
              && (request.expectedBeneficiaryIban == [] ||
                  (verified.beneficiaryIban.Some? &&
                   NormalizeIban(verified.beneficiaryIban.value) == NormalizeIban(request.expectedBeneficiaryIban)))
  {
  }

  /** The errors, checked amount first: a missing field, then a mismatch. */
  lemma ValidatePaymentErrors(verified: VerifiedPayment, request: AttestationRequest)
    ensures var r := ValidatePayment(verified, request);
            var expected := request.expectedAmountCents;
            && (expected > 0 && verified.amountCents.None? ==> r == Err(MissingField("amount_cents")))
            && (expected > 0 && verified.amountCents.Some? && verified.amountCents.value != expected ==>
                  r == Err(InvalidPaymentData(AmountMismatch(expected, verified.amountCents.value))))
            && (((expected <= 0 || verified.amountCents == Some(expected)) && request.expectedBeneficiaryIban != []
                 && verified.beneficiaryIban.None?) ==> r == Err(MissingField("beneficiary_iban")))
  {
  }

  /** A negative expectation never triggers the amount check, whatever was paid. */
  lemma NegativeExpectationSkipsAmount(verified: VerifiedPayment, request: AttestationRequest, other: Option<I64>)
    requires request.expectedAmountCents < 0
    ensures ValidatePayment(verified, request) == ValidatePayment(verified.(amountCents := other), request)
  {
  }

  // ---------------------------------------------------------------------------
  // create_attestation

  /** What is signed: the verified amount (0 if absent) cast to `u64`, the transaction id or "", the body bytes. */
  function Payload(verified: VerifiedPayment, intentHash: Bytes32): (a: AttestationData)
    ensures a.intentHash == intentHash && a.timestamp == verified.timestamp
    ensures a.paymentId == verified.transactionId.GetOr("")
    ensures a.data == Utf8(verified.responseBody)
    ensures a.amount == I64AsU64(verified.amountCents.GetOr(0))
  {
    AttestationData(intentHash, I64AsU64(verified.amountCents.GetOr(0)), verified.timestamp,
                    verified.transactionId.GetOr(""), Utf8(verified.responseBody))
  }

  /** A negative verified amount is signed as its two's-complement `u64`: 2^64 plus the amount. */
  lemma PayloadAmountOfNegative(verified: VerifiedPayment, intentHash: Bytes32)
    requires verified.amountCents.Some? && verified.amountCents.value < 0
    ensures Payload(verified, intentHash).amount == U64_LIMIT + verified.amountCents.value
  {
  }

  /** Everything before signing: base64, presentation verification, the payment check, the intent hash. */
  function Prepare<P>(request: AttestationRequest, config: Config, base64: string -> Result<seq<Byte>, string>,
                      c: Collaborators<P>): Result<(VerifiedPayment, Bytes32), AttestationError>
  {
    match base64(request.presentation)
    case Err(e) => Err(DeserializationError("Invalid base64: " + e))
    case Ok(bytes) =>
      match VerifyPresentation(bytes, config.allowedServers, c)
      case Err(e) => Err(e)
      case Ok(verified) =>
        match ValidatePayment(verified, request)
        case Err(e) => Err(e)
        case Ok(_) =>
          match DecodeBytes32(request.intentHash)
          case Err(e) => Err(e)
          case Ok(intentHash) => Ok((verified, intentHash))
  }

  /** `create_attestation` */
  function CreateAttestation<P>(request: AttestationRequest, config: Config, base64: string -> Result<seq<Byte>, string>,
                                c: Collaborators<P>, keccak: Keccak): (r: Result<AttestationResponse, AttestationError>)
    ensures Prepare(request, config, base64, c).Err? ==> r == Err(Prepare(request, config, base64, c).error)
  {
    match Prepare(request, config, base64, c)
    case Err(e) => Err(e)
    case Ok((verified, intentHash)) =>
      var data := Payload(verified, intentHash);
      var domain := NewDomain(config.chainId, config.verifierContract);
      match SignAttestation(keccak, config.signer, domain, data)
      case Err(e) => Err(e)
      case Ok((signature, digest)) =>
        Ok(AttestationResponse(
          true,
          "0x" + Encode(signature),
          "0x" + Encode(digest),
          "0x" + Encode(DataHash(keccak, data)),
          PaymentSummary(verified.transactionId, verified.amountCents.GetOr(0),
                         verified.beneficiaryIban.GetOr(""), verified.timestamp, verified.serverName)))
  }

  /** The steps fail in order; an early failure is returned as it is. */
  lemma PrepareOrder<P>(request: AttestationRequest, config: Config, base64: string -> Result<seq<Byte>, string>,
                        c: Collaborators<P>)
    ensures var r := Prepare(request, config, base64, c);
            && (base64(request.presentation).Err? ==>
                  r == Err(DeserializationError("Invalid base64: " + base64(request.presentation).error)))
            && (base64(request.presentation).Ok? ==>
                  var v := VerifyPresentation(base64(request.presentation).value, config.allowedServers, c);
                  && (v.Err? ==> r == Err(v.error))
                  && (v.Ok? && ValidatePayment(v.value, request).Err? ==> r == Err(ValidatePayment(v.value, request).error))
                  && (v.Ok? && ValidatePayment(v.value, request).Ok? ==>
                        r == (match DecodeBytes32(request.intentHash)
                              case Err(e) => Err(e)
                              case Ok(h) => Ok((v.value, h)))))
  {
  }

  /** When any step before signing fails, the signer is never consulted: any other key gives the same answer. */
  lemma NoSigningOnEarlyFailure<P>(request: AttestationRequest, config: Config, other: Signer,
                                   base64: string -> Result<seq<Byte>, string>, c: Collaborators<P>, keccak: Keccak)
    requires Prepare(request, config, base64, c).Err?
    ensures CreateAttestation(request, config, base64, c, keccak)
         == CreateAttestation(request, config.(signer := other), base64, c, keccak)
  {
    assert Prepare(request, config, base64, c) == Prepare(request, config.(signer := other), base64, c);
  }

  /**
   * A successful attestation signed exactly the EIP-712 digest of the payload,
   * over the domain of the configured chain and contract, and reports the
   * verified payment with 0 and "" for the absent amount and IBAN.
   */
  lemma CreateAttestationSigned<P>(request: AttestationRequest, config: Config,
                                   base64: string -> Result<seq<Byte>, string>, c: Collaborators<P>, keccak: Keccak)
    ensures var r := CreateAttestation(request, config, base64, c, keccak);
            r.Ok? ==>
              var p := Prepare(request, config, base64, c);
              p.Ok? &&
              var verified := p.value.0;
              var data := Payload(verified, p.value.1);
              var digest := keccak(SigningMessage(DomainSeparator(keccak, NewDomain(config.chainId, config.verifierContract)),
                                                  StructHash(keccak, data)));
              && ValidatePayment(verified, request).Ok?
              && DecodeBytes32(request.intentHash) == Ok(p.value.1)
              && config.signer(digest).Ok?
              && r.value.success
              && r.value.digest == "0x" + Encode(digest)
              && r.value.signature == "0x" + Encode(SignatureBytes(config.signer(digest).value))
              && r.value.dataHash == "0x" + Encode(keccak(Utf8(verified.responseBody)))
              && r.value.payment == PaymentSummary(verified.transactionId, verified.amountCents.GetOr(0),
                                                   verified.beneficiaryIban.GetOr(""), verified.timestamp,
                                                   verified.serverName)
  {
    var r := CreateAttestation(request, config, base64, c, keccak);
    if r.Ok? {
      PrepareOrder(request, config, base64, c);
    }
  }

  /** The hex fields of a response read back, after their "0x", as the 65-byte signature and the 32-byte digest. */
  lemma ResponseHexRoundTrip(sig: RecoverableSignature, digest: Bytes32)
    ensures Decode(TrimStartMatches("0x" + Encode(SignatureBytes(sig)), "0x")) == Ok(SignatureBytes(sig))
    ensures DecodeHex32("0x" + Encode(digest)) == Ok(digest)
  {
    TrimHexPrefix(SignatureBytes(sig));
    DecodeEncode(SignatureBytes(sig));
    DecodeHex32OfEncode(digest, 1);
    assert Repeat("0x", 1) == "0x";
  }
}
