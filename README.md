# FreeFlo payment attestation — a verified model of the decision core

FreeFlo settles stablecoin-to-fiat intents. A solver pays a beneficiary by bank transfer and proves the payment with a
TLSNotary presentation of the bank's HTTPS response. The attestation service checks that presentation and the on-chain
intent, then signs an EIP-712 attestation that the settlement contract accepts. This project models the service's
decision logic, from received presentation to signature, and proves what each step promises.

| module | file | models |
|---|---|---|
| `Wrappers` | wrappers.dfy | `Option` and `Result` |
| `Bytes` | bytes.dfy | bytes, big-endian words, the integer widths (`u32`, `u64`, `i64`, `u128`) and the `as` casts |
| `Text` | text.dfy | the `str` operations used: find, contains, trim, split, join, decimal parsing, `{:?}` rendering, UTF-8 encoding |
| `Hex` | hex.dfy | `hex::encode` and `hex::decode`, with the same error order as the crate |
| `Json` | json.dfy | a JSON value tree and the lookups `serde_json::Value` offers |
| `Errors` | errors.dfy | `AttestationError`: its Display texts and the HTTP status table |
| `Chain` | chain.dfy | the contract-call codec, `IntentStatus`, `eth_call` post-processing, `validate_intent` |
| `CommittedIntent` | committed_intent.dfy | the second on-chain schema: the encoder, its offset decoding and the fiat-amount rule |
| `Verification` | verification.dfy | the server allow-list, body extraction, visible-run extraction, payment-field lookup, `verify_presentation` |
| `Eip712` | eip712.dfy | the domain and struct preimages, the `\x19\x01` message and the 65-byte signature |
| `Attestation` | attestation.dfy | `normalize_iban`, `decode_bytes32`, `validate_payment`, `create_attestation` |
| `Auth` | auth.dfy | the API-key list, the rate-limit setting, and the fixed-window limiter as the class `SolverAuth` |
| `Api` | api.dfy | the `attest` handler as the class `AppState`: decision order, HTTP refusals, audit entries |

Foreign code is a parameter of function type, so the proofs hold for every implementation of it:

- `Keccak`: keccak-256, 32 bytes out.
- `Signer`: secp256k1 recoverable signing: r, s and a recovery id of 0 or 1, or an error.
- base64.
- `Collaborators`: bincode plus `Presentation::verify`, lossy UTF-8, the JSON parser, and the two float and decimal amount conversions.
- `Rpc`: the `eth_call` transport.
- `ChainCheck`: the attestation crate's `validate_intent`.

Time is a `nat` count of nanoseconds.

Code that changes state keeps that form:

- `Auth.SolverAuth` is a class. Its rate counters are a `map` field, and `CheckRateLimit` updates it in place. `FromEnv` fills the key map with a loop.
- `Api.AppState.Attest` updates the limiter and appends to an audit `seq` field.
- Calldata, preimages, messages and the 65-byte signature are built by methods, by appending to a buffer or filling an `array`.
- The e2e encoder and `extract_visible_content` are loops.

Each method is proved equal to a specification function. The properties are proved about those functions.

## Model

| member | source | states |
|---|---|---|
| Chain.StatusFromByteInverse | attestation-service/src/chain.rs:16-25 | bytes 1, 2, 3 map to Active, Fulfilled, Cancelled and back; every byte that is 0 or at least 4 maps to None |
| Chain.StatusFromByteSamples | attestation-service/src/chain.rs:266-272 | the test's samples: 0→None, 1→Active, 2→Fulfilled, 3→Cancelled, 99→None |
| Chain.SelectorsDecode | attestation-service/src/chain.rs:86 | the selector texts "bd564402" and "f6e14bad" decode to the four selector bytes |
| Chain.IntentCalldata | attestation-service/src/chain.rs:86-89 | `intents(bytes32)` calldata is 36 bytes: selector bd564402, then the intent hash |
| Chain.BuildIntentCalldata | attestation-service/src/chain.rs:86-89 | building the calldata by appending gives exactly that layout |
| Chain.AuthorizedCalldata | attestation-service/src/chain.rs:139-141 | `authorizedSolvers(address)` calldata is 36 bytes: selector f6e14bad, 12 zero bytes, the 20 address bytes |
| Chain.AuthorizedCalldataWord | attestation-service/src/chain.rs:139-141 | the argument word is the address as a left-padded 32-byte big-endian word |
| Chain.BuildAuthorizedCalldata | attestation-service/src/chain.rs:139-141 | building by appending gives exactly that layout |
| Chain.ReplyBytes | attestation-service/src/chain.rs:181-192 | an RPC error field gives Err("RPC error: …"); a missing, empty or "0x" result gives no bytes; otherwise the hex decode of the text after its "0x" prefixes |
| Chain.ReplyBytesOfEncoded | attestation-service/src/chain.rs:185-192 | a result written as "0x" plus the hex of some bytes yields exactly those bytes |
| Chain.ReplyBytesEmpty | attestation-service/src/chain.rs:185-188 | a missing, empty or "0x" result yields empty bytes |
| Chain.DecodeIntentNotFound | attestation-service/src/chain.rs:93-115 | the intent is "not found" exactly when the result is under 128 bytes or the owner bytes 12..32 are all zero |
| Chain.DecodeIntentPrefix | attestation-service/src/chain.rs:107-110 | decoding reads only the first 128 bytes |
| Chain.DecodeIntentWords | attestation-service/src/chain.rs:107-115 | owner at 12..32, solver at 44..64, amount as big-endian 64..96 and status at byte 127 round-trip through the four words |
| Chain.IsSolverAuthorizedIff | attestation-service/src/chain.rs:127-151 | Ok(true) exactly when the text decodes to 20 bytes, the call succeeds, the result has at least 32 bytes and byte 31 is non-zero; undecodable or non-20-byte input is Err |
| Chain.ChecksumAddress | attestation-service/src/chain.rs:229-233 | the checksummed form is "0x" plus 40 characters |
| Chain.ChecksumAddressDecodes | attestation-service/src/chain.rs:229-233 | mixed-case checksumming keeps the address: its 40 characters decode back to the 20 bytes |
| Chain.ValidateIntentAccepts | attestation-service/src/chain.rs:197-259 | Ok exactly when the intent exists, is Active, is unassigned or assigned to the requesting solver's bytes, and the solver is authorized |
| Chain.ValidateIntentOrder | attestation-service/src/chain.rs:210-224 | a lookup error, "Intent does not exist on-chain" and "Intent is not active (status: …)" are reported in that order, before the solver is looked at |
| Chain.ValidateIntentSolverChecks | attestation-service/src/chain.rs:224-236 | for an active intent with an assigned solver, an undecodable requester gives "Invalid solver address: …" and a different one gives "Solver mismatch: …", whatever the authorization query would answer |
| Chain.ValidateIntentAuthorizationLast | attestation-service/src/chain.rs:238-243 | once the intent and requester pass, a query error is returned as is, a refusal gives "Solver … is not authorized", and acceptance gives Ok |
| Chain.ValidateIntentIgnoresAmount | attestation-service/src/chain.rs:247-258 | the expected amount never changes the outcome |
| Chain.ValidateIntentAsWrittenAgrees | attestation-service/src/chain.rs:247 | the code as written differs from the corrected check only by panicking on accepted intents whose amount needs more than 128 bits |
| Chain.ValidateIntentPanicsOnWideAmount | attestation-service/src/chain.rs:247 | an active, unassigned intent of 2^128 units from an authorized solver passes every check, but the as-written code panics on it |
| Chain.SolverTextDecodes | attestation-service/src/chain.rs:132-133 | "0x" plus the hex of an address decodes back to that address |
| Chain.ScriptedIntentLookup | attestation-service/src/chain.rs:83-123 | a node that returns the encoded words of an intent makes `get_intent` return that intent |
| Chain.ScriptedAuthorization | attestation-service/src/chain.rs:127-151 | a node that answers a word ending in 1 makes any well-formed solver authorized |
| CommittedIntent.HexWord | attestation/tests/fiat_amount_validation_e2e.rs:38-67 | `{:064x}` is 64 characters |
| CommittedIntent.PadLeftZeros | attestation/tests/fiat_amount_validation_e2e.rs:41-42 | `{:0>64}` pads to 64 characters and leaves longer text alone |
| CommittedIntent.BuildIntentResponse | attestation/tests/fiat_amount_validation_e2e.rs:17-70 | the imperative encoder, pushing word by word, yields the specified response text |
| CommittedIntent.IntentResponseLength | attestation/tests/fiat_amount_validation_e2e.rs:35-69 | with addresses of at most 64 hex characters, the response is "0x" plus ten words: 642 characters |
| CommittedIntent.HexWordBytes | attestation/tests/fiat_amount_validation_e2e.rs:38-67 | a value below 2^256 formats as the hex of its 32-byte big-endian word |
| CommittedIntent.AddressWordBytes | attestation/tests/fiat_amount_validation_e2e.rs:41-42 | a padded address is the hex of 12 zero bytes followed by the address |
| CommittedIntent.ResponseTextIsEncodedWords | attestation/tests/fiat_amount_validation_e2e.rs:35-69 | the response text is "0x" plus the hex of the ten 32-byte words: offset, depositor, usdcAmount, currency 1, status, createdAt, committedAt, solver, rtpn 0, fiat amount |
| CommittedIntent.DecodeResponseWords | attestation/tests/fiat_amount_validation_e2e.rs:329-351 | decoding at base 32 reads depositor from base+12..base+32, status from byte base+127, solver from base+204..base+224 and fiat from the low 128 bits of base+256..base+288, recovering the encoder's inputs |
| CommittedIntent.IntentResponseRoundTrip | attestation/tests/fiat_amount_validation_e2e.rs:329-351 | decoding the hex response recovers depositor, solver, status and fiat amount |
| CommittedIntent.LastWordIsFiatAmount | attestation/tests/fiat_amount_validation_e2e.rs:139-142 | the last 64 hex characters are the committed fiat amount |
| CommittedIntent.CheckFiatAmount | attestation/tests/fiat_amount_validation_e2e.rs:274-277 | accepts exactly when committed is 0 or the proof covers it; a refusal carries the underpayment message |
| CommittedIntent.FiatAmountTable | attestation/tests/fiat_amount_validation_e2e.rs:444-458 | the test's table: (10000,10000), (10500,10000), (10000,0) and (0,0) pass; (9500,10000) fails |
| CommittedIntent.FiatAmountMonotone | attestation/tests/fiat_amount_validation_e2e.rs:454-458 | paying more never turns an accepted proof into a refused one |
| Verification.ServerAllowedIff | attestation-service/src/verification.rs:55-65 | a server passes exactly when some allowed entry occurs somewhere in its name; an empty list admits nothing |
| Verification.EmbeddingNameAdmitted | attestation-service/src/verification.rs:60 | a name that only embeds an allowed entry passes the substring test |
| Verification.BodyStart | attestation-service/src/verification.rs:98-102 | the body starts right after the first "\r\n\r\n"; with none, right after the first "\n\n"; with neither there is no body |
| Verification.BracedSlice | attestation-service/src/verification.rs:115-119 | a result exists exactly when a '{' precedes a '}'; it is a slice of the body running from the first '{' to the last '}' |
| Verification.VisibleWrapper | attestation-service/src/verification.rs:132 | the wrapper body, which is later signed, holds no raw control character |
| Verification.ExtractJsonBody | attestation-service/src/verification.rs:95-133 | no blank line gives "Could not find response body"; otherwise the braced slice; otherwise the visible runs under `_visible_content`, or "No visible content in response body"; every error is InvalidPaymentData |
| Verification.SampleResponseBody | attestation-service/src/verification.rs:269-273 | the test's 200 response yields `{"test": "value"}` |
| Verification.VisibleContentPieces | attestation-service/src/verification.rs:156-158 | each returned piece is a non-empty run without 'X', at least 3 characters long, holding an alphanumeric character |
| Verification.VisibleRunsCoverBody | attestation-service/src/verification.rs:140-153 | the maximal runs between the 'X' sentinels, joined, are the body with every 'X' removed |
| Verification.ExtractVisibleContent | attestation-service/src/verification.rs:136-159 | the character loop that collects runs returns exactly the specified visible content |
| Verification.FirstWhere | attestation-service/src/verification.rs:228-244 | the scanners return the first matching position, with no match before it |
| Verification.ExtractUuid | attestation-service/src/verification.rs:228-234 | the result, if any, is a 36-character lower-case UUID found in the text; none is returned only when the text holds none |
| Verification.UpperDigitRunEnd | attestation-service/src/verification.rs:240 | the end of the run of upper-case letters and digits, bounded by the limit |
| Verification.IbanMatchEnd | attestation-service/src/verification.rs:240 | an IBAN match is 14 to 32 characters: two letters, two digits, then upper-case letters and digits |
| Verification.ExtractIban | attestation-service/src/verification.rs:237-244 | the match starts at the first position where an IBAN can start; none is returned only when no position matches |
| Verification.ExtractIbanShape | attestation-service/src/verification.rs:237-244 | a returned IBAN has two letters, two digits and between 14 and 32 characters in all |
| Verification.IbanMatchShape | attestation-service/src/verification.rs:240 | every match has that shape |
| Verification.AmountMatchEnd | attestation-service/src/verification.rs:249 | the end of an amount match lies within the text |
| Verification.DigitRunEnd | attestation-service/src/verification.rs:249 | the end of a maximal run of digits |
| Verification.DigitRunEnd2 | attestation-service/src/verification.rs:249 | the end of a run of at most two digits |
| Verification.ExtractAmount | attestation-service/src/verification.rs:247-262 | text without a digit has no amount |
| Verification.ExtractAmountWholeCents | attestation-service/src/verification.rs:252-259 | a number standing alone after digit-free text is read as that many cents |
| Verification.AtIn | attestation-service/src/verification.rs:175 | indexing an absent value or a non-array gives nothing |
| Verification.StrOf | attestation-service/src/verification.rs:179-180 | only a string value yields a string |
| Verification.FirstPresent | attestation-service/src/verification.rs:199-207 | the first present alternative, with every earlier one absent; nothing only when all are absent |
| Verification.AmountCentsOf | attestation-service/src/verification.rs:184-194 | an extracted amount of 0 is reported as absent |
| Verification.PaymentFieldsOf | attestation-service/src/verification.rs:164-216 | the `_visible_content` wrapper, or a body with no transaction object, yields all four fields absent; the amount is never Some(0) |
| Verification.ParsePaymentDetails | attestation-service/src/verification.rs:162-225 | never fails; a parsed body is read through the JSON paths, and unparsable text through the UUID, amount and IBAN scanners with no status |
| Verification.TransactionPriority | attestation-service/src/verification.rs:174-176 | `transaction` wins, then `transactions[0]`, then `transfer` |
| Verification.AmountCentsShadowing | attestation-service/src/verification.rs:184-187 | a non-integer `amount_cents` hides `local_amount_cents` and gives no amount |
| Verification.LocalAmountFallback | attestation-service/src/verification.rs:184-194 | without `amount_cents`, any `i64` `local_amount_cents` (non-negative or negative) is the amount, with 0 meaning absent |
| Verification.IbanShadowing | attestation-service/src/verification.rs:199-207 | the first present path wins even when it is not a string, making the IBAN absent although a later path holds one |
| Verification.SampleQontoTransaction | attestation-service/src/verification.rs:276-293 | the test's transaction gives ("tx-123", 10000, "DE89370400440532013000", "completed") |
| Verification.SetUnauthed | attestation-service/src/verification.rs:72 | every undisclosed transcript byte becomes the fill byte; disclosed bytes are kept |
| Verification.VerifyPresentation | attestation-service/src/verification.rs:34-92 | a deserialization error is reported with its prefix; success means verify succeeded, the server is allowed, the transcript was present, and the body was extracted from the redacted transcript |
| Verification.VerifyPresentationOrder | attestation-service/src/verification.rs:51-69 | VerificationFailed, ServerNotFound, UnexpectedServer and TranscriptNotFound are checked in that order, before any body extraction |
| Verification.VerifyPresentationFields | attestation-service/src/verification.rs:75-91 | the payment fields are those `parse_payment_details` reads from the extracted body |
| Eip712.NewDomain | attestation/src/eip712.rs:39-45 | `new` keeps the default name and version and sets only the chain id and verifying contract |
| Eip712.NewDomainOfDefaults | attestation/src/eip712.rs:27-36 | the default domain is ("WisePaymentVerifier", "1", 84532, the zero address) |
| Eip712.Word | attestation/src/eip712.rs:60 | a u64 word is 24 zero bytes followed by the value, and reads back as the value |
| Eip712.AddressWord | attestation/src/eip712.rs:63-64 | an address word is 12 zero bytes followed by the 20 address bytes |
| Eip712.DomainPreimage | attestation/src/eip712.rs:48-67 | the domain preimage is exactly 160 bytes |
| Eip712.BuildDomainPreimage | attestation/src/eip712.rs:48-67 | appending the five words gives exactly that preimage |
| Eip712.DomainPreimageLayout | attestation/src/eip712.rs:48-67 | typehash at 0, hash of name at 32, hash of version at 64, chain id at 96, then 12 zero bytes and the contract at 140 |
| Eip712.DomainPreimageInjective | attestation/src/eip712.rs:48-67 | equal preimages mean equal chain id, contract, and name and version hashes |
| Eip712.StructPreimage | attestation/src/eip712.rs:83-100 | the struct preimage is exactly 192 bytes |
| Eip712.BuildStructPreimage | attestation/src/eip712.rs:83-100 | appending the six words gives exactly that preimage |
| Eip712.StructPreimageLayout | attestation/src/eip712.rs:83-104 | typehash, intent hash, amount word, timestamp word, payment-id hash and data hash in order; the last word equals `data_hash()` |
| Eip712.StructPreimageInjective | attestation/src/eip712.rs:83-104 | equal preimages mean equal intent hash, amount, timestamp and data hash |
| Eip712.SigningMessage | attestation/src/eip712.rs:116-121 | the message is 66 bytes: 0x19 0x01, the domain separator, the struct hash |
| Eip712.BuildSigningMessage | attestation/src/eip712.rs:116-121 | appending the parts gives exactly that message |
| Eip712.SignatureBytes | attestation/src/eip712.rs:131-134 | 65 bytes: r at 0..32, s at 32..64, recovery id + 27 at 64 |
| Eip712.EncodeSignature | attestation/src/eip712.rs:131-134 | filling a 65-byte array slice by slice gives exactly that layout |
| Eip712.SignatureV | attestation/src/eip712.rs:167-172 | the v byte is 27 or 28 |
| Eip712.SignAttestation | attestation/src/eip712.rs:108-137 | on success the digest is the hash of the message and the signature is the signer's answer laid out in 65 bytes |
| Eip712.SignAttestationOutcome | attestation/src/eip712.rs:108-137 | a signer failure gives SigningError and no signature; success gives 65 bytes with r, s and v of 27 or 28 |
| Attestation.RemoveWhitespace | attestation/src/attestation.rs:145 | the result holds no whitespace and is no longer than the input |
| Attestation.RemoveWhitespaceAppend | attestation/src/attestation.rs:145 | removing whitespace distributes over concatenation |
| Attestation.NormalizeIban | attestation/src/attestation.rs:144-146 | the result has no whitespace and no lower-case letter |
| Attestation.NormalizeIbanIdempotent | attestation/src/attestation.rs:144-146 | normalising twice equals normalising once |
| Attestation.NormalizeIbanIgnoresSpace | attestation/src/attestation.rs:144-146 | a whitespace character anywhere is dropped |
| Attestation.DecodeHex32 | attestation/src/attestation.rs:148-163 | succeeds exactly when the text after all leading "0x" decodes as hex to exactly 32 bytes, and then returns them |
| Attestation.DecodeHex32OfEncode | attestation/src/attestation.rs:149 | any number of "0x" prefixes before the hex of a word decodes to that word |
| Attestation.DecodeHex32WrongLength | attestation/src/attestation.rs:153-157 | valid hex of another length reports that length |
| Attestation.DecodeBytes32 | attestation/src/attestation.rs:148-163 | agrees with the hex decoding, and every failure is a DeserializationError |
| Attestation.ValidatePayment | attestation/src/attestation.rs:107-109 | no expected amount and no expected IBAN accept any payment |
| Attestation.ValidatePaymentAccepts | attestation/src/attestation.rs:102-142 | accepted exactly when a positive expected amount is present and equal, and a non-empty expected IBAN is present and equal after normalisation |
| Attestation.ValidatePaymentErrors | attestation/src/attestation.rs:112-139 | the amount is checked first, then the IBAN; a missing field gives MissingField("amount_cents") or MissingField("beneficiary_iban"); an unequal amount gives InvalidPaymentData |
| Attestation.NegativeExpectationSkipsAmount | attestation/src/attestation.rs:112-123 | a negative expected amount ignores the verified amount |
| Attestation.Payload | attestation/src/attestation.rs:73-79 | the signed payload: the verified amount (or 0) cast to u64, the transaction id or "", the body bytes, the connection time |
| Attestation.PayloadAmountOfNegative | attestation/src/attestation.rs:75 | a negative amount is signed as 2^64 plus the amount |
| Attestation.CreateAttestation | attestation/src/attestation.rs:54-100 | any failure before signing is returned unchanged |
| Attestation.PrepareOrder | attestation/src/attestation.rs:59-70 | base64, presentation verification, payment validation and intent-hash decoding fail in that order |
| Attestation.NoSigningOnEarlyFailure | attestation/src/attestation.rs:59-85 | when an earlier step fails the signer is never consulted: any other key gives the same answer |
| Attestation.CreateAttestationSigned | attestation/src/attestation.rs:73-99 | success means every check passed; the signature and digest are over the payload's EIP-712 digest; the response reports the amount or 0 and the IBAN or "" |
| Attestation.ResponseHexRoundTrip | attestation/src/attestation.rs:87-91 | the "0x" hex of the signature and digest decode back to the 65 and 32 bytes |
| Errors.Message | attestation/src/error.rs:10-40 | every message starts with its variant's fixed Display prefix |
| Errors.StatusClasses | attestation/src/error.rs:44-55 | SigningError and Internal map to 500; the other eight variants map to 400 |
| Errors.ResponseBodyMatchesStatus | attestation/src/error.rs:57-62 | the body is {"error": message, "code": status}, whose code equals the chosen status |
| Errors.MissingFieldResponse | attestation/src/error.rs:29-30 | MissingField(f) renders as "Missing required field: f", with status 400 |
| Errors.UnexpectedServerMessage | attestation/src/error.rs:26-27 | UnexpectedServer renders as "Unexpected server: expected …, got …", with status 400 |
| Auth.ParseEntry | attestation/src/auth.rs:30-40 | an entry yields (trimmed key, trimmed and lower-cased address), which holds no upper-case letter |
| Auth.Entries | attestation/src/auth.rs:29-31 | one parsed entry per piece of the list |
| Auth.Insert | attestation/src/auth.rs:29-41 | inserting never loses a key |
| Auth.InsertSound | attestation/src/auth.rs:29-41 | every key of the map comes from some parsed entry with that address |
| Auth.InsertComplete | attestation/src/auth.rs:29-41 | every parsed entry's key is in the map |
| Auth.InsertAppend | attestation/src/auth.rs:29-41 | inserting two runs of entries one after the other equals inserting them together |
| Auth.InsertOverrides | attestation/src/auth.rs:39 | a key defined by later entries keeps the value they give it, whatever map came before |
| Auth.LaterEntryWins | attestation/src/auth.rs:29-41 | a key defined in the later part of the list takes that part's value |
| Auth.ParseCleanEntry | attestation/src/auth.rs:30-40 | "key:addr" with plain parts yields (key, lower-cased addr) |
| Auth.CleanEntryLacksComma | attestation/src/auth.rs:29 | a plain entry contains no separator |
| Auth.SplitTwo | attestation/src/auth.rs:29 | two plain entries joined by a comma split back into those two |
| Auth.InsertTwo | attestation/src/auth.rs:29-41 | two entries give the map of both, the second winning |
| Auth.KeysOfTwoPieces | attestation/src/auth.rs:29-41 | the two pieces' parses are the two entries |
| Auth.ParseTwoEntries | attestation/src/auth.rs:29-41 | "k1:a1,k2:a2" maps k1 and k2 to their lower-cased addresses, the later winning on a repeat |
| Auth.SampleAddressesLowered | attestation/src/auth.rs:98-107 | "0xABC" and "0xDEF" lower-case to "0xabc" and "0xdef" |
| Auth.SampleKeyList | attestation/src/auth.rs:98-107 | the test's list maps key1 to "0xabc" and key2 to "0xdef", and has no key3 |
| Auth.NoKeysWhenUnset | attestation/src/auth.rs:21-41 | an unset variable gives no keys |
| Auth.RateLimitOf | attestation/src/auth.rs:22-25 | the parsed u32 per-minute value, or 100 when it is missing or unparsable |
| Auth.SaturatingSub | attestation/src/auth.rs:72-73 | saturating subtraction never exceeds its first operand |
| Auth.CurrentCounter | attestation/src/auth.rs:62-68 | after the reset step, less than a minute has elapsed in the window |
| Auth.RateStep | attestation/src/auth.rs:56-80 | the identity's counter is stored and every other identity's counter is kept |
| Auth.RateStepOutcome | attestation/src/auth.rs:56-80 | Ok exactly when the current count is below the limit, and then the count rises by one; Err carries a retry_after from 1 to 61 and leaves the count unchanged; count ≤ limit is preserved |
| Auth.RefusalChangesNothing | attestation/src/auth.rs:71-75 | with a positive limit, a refusal leaves the counters exactly as they were |
| Auth.WindowRestarts | attestation/src/auth.rs:65-68 | after 60 s the window restarts at now with a count of 1, and the call is admitted |
| Auth.CallsAtCount | attestation/src/auth.rs:78-79 | for a new identity, n admitted calls at one instant leave its counter at n, in a window that starts then |
| Auth.BurstFillsWindow | attestation/src/auth.rs:56-80 | within one window, calls are admitted until the limit is reached, and the next one is refused with retry_after 61 |
| Auth.FiveThenRefused | attestation/src/auth.rs:110-124 | with limit 5, five calls succeed and the sixth fails |
| Auth.SolverAuth.FromEnv | attestation/src/auth.rs:20-48 | the loop's key map equals the parsed key list, and the limit is the parsed setting |
| Auth.SolverAuth.ValidateApiKey | attestation/src/auth.rs:51-53 | a key validates exactly when it is in the map, and yields its address |
| Auth.SolverAuth.CheckRateLimit | attestation/src/auth.rs:56-80 | updates the counters in place exactly as the rate step specifies, keeping every count within the limit |
| Auth.InsertNonEmptyIff | attestation/src/auth.rs:29-41 | the map is non-empty exactly when some entry parsed |
| Auth.EntriesNonEmptyIff | attestation/src/auth.rs:29-41 | the same over the list's pieces |
| Auth.EnabledIff | attestation/src/auth.rs:88-90 | authentication is enabled exactly when at least one key entry of the variable parses |
| Api.DecodeIntentHash | attestation/src/api.rs:287-299 | succeeds exactly when the text after its leading "0x"s is hex of 32 bytes, and then returns them |
| Api.DecodersAgree | attestation/src/api.rs:287-299 | the handler's decoder and the attestation module's decoder accept the same texts with the same bytes |
| Api.DecodeIntentHashOfEncode | attestation/src/api.rs:287-299 | a word with or without "0x" decodes; other lengths give "Expected 32 bytes, got n" |
| Api.ErrorBody | attestation/src/api.rs:117-120 | the body carries success false and the message |
| Api.RateLimitBody | attestation/src/api.rs:152-159 | the body carries success false, "Rate limit exceeded" and retry_after |
| Api.Authenticate | attestation/src/api.rs:111-143 | with auth disabled, the identity is the zero-address placeholder; with it enabled, only a known key passes, as its address; refusals are 401 |
| Api.UnauthenticatedRefused | attestation/src/api.rs:111-139 | a missing or unknown key gets 401, touches no counter and writes no audit entry |
| Api.CountedAgainstIdentity | attestation/src/api.rs:140-146 | the limiter counts the key's address, or the placeholder when auth is off |
| Api.RateLimitedNotLogged | attestation/src/api.rs:146-161 | a limited request gets 429 with a retry_after of 1 to 61 seconds and writes no audit entry |
| Api.LoggedIffAdmitted | attestation/src/api.rs:146-283 | exactly one audit entry is written when the request passed auth and the limiter, and none otherwise |
| Api.AuditMatchesReply | attestation/src/api.rs:176-275 | Success records the verified payment id and amount; Rejected and Error record no payment id and the requested amount |
| Api.ChainRejectionStops | attestation/src/api.rs:198-237 | a chain rejection answers 400 with a Rejected entry, and attestation is never attempted |
| Api.CheckIntentCases | attestation/src/api.rs:171-237 | a bad intent hash and a failing `validate_intent` each produce their rejection message |
| Api.AttestedOnlyAfterChecks | attestation/src/api.rs:96-284 | an attestation is returned only after auth, the limiter and the chain check pass, and it is the one `create_attestation` produced |
| Api.Admitted | attestation/src/api.rs:170-283 | the audit entry names the identity and the requested intent; it is Success exactly when an attestation is returned, with that payment's id and amount, and otherwise has no payment id and the requested amount |
| Api.AppState.AttestAdmitted | attestation/src/api.rs:170-283 | after the limiter, the reply and the one appended audit entry are those `Admitted` specifies |
| Api.AppState.Attest | attestation/src/api.rs:96-284 | the handler's reply, new counters and appended audit entry are exactly as the decision specifies |
| Bytes.ToBEOfFromBE | attestation/src/eip712.rs:60 | re-encoding the value of a big-endian word at its own width gives the word back |
| Text.EscapeDebug | attestation-service/src/verification.rs:132 | no control character is written raw; a printable character other than the backslash and the enclosing quote is written as itself |
| Text.DebugStringList | attestation-service/src/verification.rs:132 | the `{:?}` rendering of a list of strings holds no raw control character |
| Hex.ControlCharacterMessage | attestation/src/attestation.rs:151 | a 0x01 byte at position 0 is reported as `Invalid character '\u{1}' at position 0` |
| Bytes.Be32OfU64 | attestation/src/eip712.rs:94-95 | a u64 word is 24 zero bytes followed by the 8-byte value, and reads back as the value |

## Left out

- Case mapping, `is_alphanumeric` and the regex classes are modelled on ASCII only. Non-ASCII letters are neither upper-cased nor counted as alphanumeric. `is_whitespace` follows the full Unicode White_Space list.
- Text.EscapeDebug, Text.DebugStringList, Verification.VisibleWrapper and Hex.ErrorMessage: `{:?}` is modelled with its short escapes and its `\u{..}` escapes for the C0 controls, DEL and the C1 controls. The other characters Rust treats as non-printable (such as U+00AD) and grapheme-extending characters are written raw, where Rust writes them as `\u{..}`.
- The f64 conversion of a decimal `amount` and the decimal amount reading of `extract_amount` are parameters (`floatCents`, `decimalCents`). Floating point is not modelled.
- serde_json parsing is a parameter returning a `Json.Value`. Only the lookups are modelled.
- keccak-256 and secp256k1 signing are parameters. Only their output sizes and a recovery id of 0 or 1 are assumed.
- base64, bincode with `Presentation::verify`, and `String::from_utf8_lossy` are parameters.
- The reqwest `eth_call` transport is the `Rpc` parameter. JSON-RPC framing and HTTP errors are left out.
- Chain.ValidateIntent requires the solver text to fail decoding or decode to 20 bytes (`WellFormedSolver`), because `Address::from_slice` panics on other lengths.
- Attestation.Prepare and Attestation.CreateAttestation: the attestation crate's own verification.rs is not part of this model. `create_attestation` is modelled with `Verification.VerifyPresentation`, the attestation-service verifier, whose results are mapped to the attestation crate's error variants.
- The attestation crate's own chain.rs, audit.rs and config.rs are not part of this model. Its `validate_intent` is the `ChainCheck` parameter, and its audit writer is the `audit` sequence.
- Audit entries omit the timestamp, client IP and duration. File appends and the mutex are I/O and concurrency.
- The `RwLock` around the counters is left out. `CheckRateLimit` is one atomic step on one thread.
- `Instant` is a `nat` of nanoseconds, supplied by the caller.
- Header bytes that are not valid visible ASCII (`to_str` failing) arrive as an absent key.
- tracing logs, the health and `solver_count` endpoints, `AppState::new`, `ChainClient::from_env`, router setup and main are left out.
- The TLSNotary prover and presenter (`prove_transfer.rs`, `present_transfer.rs`) are left out. They are MPC, TLS networking and file writes.
- The wiremock/tokio plumbing of the e2e test is left out. Only its encoder, decoding and decision table are modelled.
- Eip712.NewDomainOfDefaults: the default domain is stated field by field. The test that its separator is non-zero is not stated, because keccak is a parameter.

## Findings

| source | as written | input that shows it | evidently intended | confidence | as-written member | corrected member |
|---|---|---|---|---|---|---|
| attestation-service/src/chain.rs:247 | after every check has passed, the on-chain amount is converted with `to::<u128>()` only to be logged; that conversion panics when the amount needs more than 128 bits | an active, unassigned intent of 2^128 units, requested by an authorized solver | the amount is only logged, so it should never change the outcome: the intent is accepted | not executed | Chain.ValidateIntentAsWritten | Chain.ValidateIntentIgnoresAmount |
