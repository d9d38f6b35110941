/**
 * The second on-chain intent schema, the one the fiat-amount tests encode and
 * decode: an ABI result that starts with an offset word (0x20) and then carries
 * ten 32-byte fields (depositor, usdcAmount, currency, status, createdAt,
 * committedAt, selectedSolver, selectedRtpn, selectedFiatAmount), where status 2
 * means Committed. It is kept apart from the `intents(bytes32)` schema in
 * `Chain`, whose layout and status numbering differ.
 */
module CommittedIntent {
  import opened Wrappers
  import opened Bytes
  import opened Text
  import opened Hex

  /** Status 2 marks an intent that a solver has committed to and that may be attested. */
  const COMMITTED: Byte := 2

  /** The struct starts one word in, after the offset pointer. */
  const BASE: nat := 32

  /** The constant words the encoder writes: the offset pointer, currency EUR, the two timestamps and selectedRtpn. */
  const OFFSET_WORD: U128 := 32
  const CURRENCY_EUR: U128 := 1
  const CREATED_AT: U128 := 1700000000
  const COMMITTED_AT: U128 := 1700000100
  const SELECTED_RTPN: U128 := 0

  // ---------------------------------------------------------------------------
  // The encoder (`build_intent_response`)

  /** `format!("{:064x}", n)`: one ABI word as 64 lowercase hex digits. */
  function HexWord(n: U128): (s: string)
    ensures |s| == 64
  {
    Pow256Values();
    Pow256Monotone(16, 32);
    Pow16Twice(32);
    PaddedHex(n, 64)
  }

  /** `format!("{:0>64}", s)`: left-padded with '0' to 64 characters, never cut. */
  function PadLeftZeros(s: string): (r: string)
    ensures |s| <= 64 ==> |r| == 64
    ensures |s| > 64 ==> r == s
  {
    if |s| >= 64 then s else seq(64 - |s|, _ => '0') + s
  }

  /** The text `build_intent_response` produces, piece by piece. */
  function IntentResponseText(depositor: string, solver: string, usdcAmountWei: U128, fiatAmountCents: U128, status: Byte)
    : string
  {
    "0x" + HexWord(OFFSET_WORD) + PadLeftZeros(TrimStartMatches(depositor, "0x")) + HexWord(usdcAmountWei)
    + HexWord(CURRENCY_EUR) + HexWord(status) + HexWord(CREATED_AT) + HexWord(COMMITTED_AT)
    + PadLeftZeros(TrimStartMatches(solver, "0x")) + HexWord(SELECTED_RTPN) + HexWord(fiatAmountCents)
  }

  /** `build_intent_response`: a `String` grown by one `push_str` per word. */
  method BuildIntentResponse(depositor: string, solver: string, usdcAmountWei: U128, fiatAmountCents: U128, status: Byte)
    returns (result: string)
    ensures result == IntentResponseText(depositor, solver, usdcAmountWei, fiatAmountCents, status)
  {
    result := "0x";
    result := result + HexWord(OFFSET_WORD);
    result := result + PadLeftZeros(TrimStartMatches(depositor, "0x"));
    result := result + HexWord(usdcAmountWei);
    result := result + HexWord(CURRENCY_EUR);
    result := result + HexWord(status);
    result := result + HexWord(CREATED_AT);
    result := result + HexWord(COMMITTED_AT);
    result := result + PadLeftZeros(TrimStartMatches(solver, "0x"));
    result := result + HexWord(SELECTED_RTPN);
    result := result + HexWord(fiatAmountCents);
  }

  /** With addresses of at most 64 hex digits the response is "0x" and ten 64-digit words: 642 characters. */
  lemma IntentResponseLength(depositor: string, solver: string, usdcAmountWei: U128, fiatAmountCents: U128, status: Byte)
    requires |TrimStartMatches(depositor, "0x")| <= 64 && |TrimStartMatches(solver, "0x")| <= 64
    ensures |IntentResponseText(depositor, solver, usdcAmountWei, fiatAmountCents, status)| == 642
  {
  }

  // ---------------------------------------------------------------------------
  // The decoder (base = 32)

  datatype CommittedIntentView = CommittedIntentView(depositor: Address, status: Byte, solver: Address, fiatAmountCents: U128)

  /**
   * The fields the tests read: depositor at base+12..base+32, status at
   * base+127, selectedSolver at base+204..base+224, and the low 128 bits of
   * selectedFiatAmount (base+256..base+288) read as a `u128`.
   */
  function DecodeCommittedIntent(result: seq<Byte>): CommittedIntentView
    requires |result| >= BASE + 288
  {
    var fiatWord := result[BASE + 256..BASE + 288];
    Pow256Values();
    CommittedIntentView(result[BASE + 12..BASE + 32], result[BASE + 96 + 31],
                        result[BASE + 192 + 12..BASE + 224], FromBE(fiatWord[16..32]))
  }

  /** An intent in this schema is ready for attestation when its status is Committed. */
  predicate ReadyForAttestation(v: CommittedIntentView) {
    v.status == COMMITTED
  }

  // ---------------------------------------------------------------------------
  // Round trip

  /** An ABI word holding a number below 2^128, as the encoder writes it, is the hex of its 32 big-endian bytes. */
  lemma HexWordBytes(n: U128)
    ensures n < Pow256(32) && HexWord(n) == Encode(ToBE(n, 32))
  {
    Pow256Values();
    Pow256Monotone(16, 32);
    PaddedHexIsEncode(n, 32);
  }

  /** A 20-byte address written as 40 hex digits and padded to a word is the hex of the 32-byte word. */
  lemma AddressWordBytes(addr: Address)
    ensures PadLeftZeros(Encode(addr)) == Encode(Zeros(12) + addr)
  {
    EncodeAppend(Zeros(12), addr);
    var z := Encode(Zeros(12));
    forall j | 0 <= j < 24
      ensures z[j] == '0'
    {
      assert NibbleAt(Zeros(12), j) == 0;
    }
    assert z == seq(24, _ => '0');
  }

  /** The ten words of the response, as bytes. */
  function ResponseWords(depositor: Address, solver: Address, usdcAmountWei: U128, fiatAmountCents: U128, status: Byte)
    : (words: seq<Byte>)
    ensures |words| == 320
  {
    Pow256Values();
    Pow256Monotone(16, 32);
    ToBE(OFFSET_WORD, 32) + (Zeros(12) + depositor) + ToBE(usdcAmountWei, 32) + ToBE(CURRENCY_EUR, 32) + ToBE(status, 32)
    + ToBE(CREATED_AT, 32) + ToBE(COMMITTED_AT, 32) + (Zeros(12) + solver) + ToBE(SELECTED_RTPN, 32) + ToBE(fiatAmountCents, 32)
  }

  /** One more encoded piece after an encoded prefix is the encoding of the longer byte string. */
  lemma EncodeStep(p: string, a: seq<Byte>, w: seq<Byte>)
    ensures p + Encode(a) + Encode(w) == p + Encode(a + w)
  {
    EncodeAppend(a, w);
  }

  lemma ConcatTen(w0: seq<Byte>, w1: seq<Byte>, w2: seq<Byte>, w3: seq<Byte>, w4: seq<Byte>,
                  w5: seq<Byte>, w6: seq<Byte>, w7: seq<Byte>, w8: seq<Byte>, w9: seq<Byte>)
    ensures "0x" + Encode(w0) + Encode(w1) + Encode(w2) + Encode(w3) + Encode(w4)
            + Encode(w5) + Encode(w6) + Encode(w7) + Encode(w8) + Encode(w9)
            == "0x" + Encode(w0 + w1 + w2 + w3 + w4 + w5 + w6 + w7 + w8 + w9)
  {
    EncodeStep("0x", w0, w1);
    EncodeStep("0x", w0 + w1, w2);
    EncodeStep("0x", w0 + w1 + w2, w3);
    EncodeStep("0x", w0 + w1 + w2 + w3, w4);
    EncodeStep("0x", w0 + w1 + w2 + w3 + w4, w5);
    EncodeStep("0x", w0 + w1 + w2 + w3 + w4 + w5, w6);
    EncodeStep("0x", w0 + w1 + w2 + w3 + w4 + w5 + w6, w7);
    EncodeStep("0x", w0 + w1 + w2 + w3 + w4 + w5 + w6 + w7, w8);
    EncodeStep("0x", w0 + w1 + w2 + w3 + w4 + w5 + w6 + w7 + w8, w9);
  }

  /** The response text, for 20-byte addresses given as "0x" and 40 hex digits, is "0x" and the hex of the ten words. */
  lemma ResponseTextIsEncodedWords(depositor: Address, solver: Address, usdcAmountWei: U128, fiatAmountCents: U128, status: Byte)
    ensures IntentResponseText("0x" + Encode(depositor), "0x" + Encode(solver), usdcAmountWei, fiatAmountCents, status)
            == "0x" + Encode(ResponseWords(depositor, solver, usdcAmountWei, fiatAmountCents, status))
  {
    Pow256Values();
    Pow256Monotone(16, 32);
    TrimHexPrefix(depositor);
    TrimHexPrefix(solver);
    AddressWordBytes(depositor);
    AddressWordBytes(solver);
    HexWordBytes(OFFSET_WORD);
    HexWordBytes(usdcAmountWei);
    HexWordBytes(CURRENCY_EUR);
    HexWordBytes(status);
    HexWordBytes(CREATED_AT);
    HexWordBytes(COMMITTED_AT);
    HexWordBytes(SELECTED_RTPN);
    HexWordBytes(fiatAmountCents);
    ConcatTen(ToBE(OFFSET_WORD, 32), Zeros(12) + depositor, ToBE(usdcAmountWei, 32), ToBE(CURRENCY_EUR, 32),
              ToBE(status, 32), ToBE(CREATED_AT, 32), ToBE(COMMITTED_AT, 32), Zeros(12) + solver,
              ToBE(SELECTED_RTPN, 32), ToBE(fiatAmountCents, 32));
  }

  /** Reading the words back at base 32 recovers depositor, status, solver and fiat amount. */
  lemma DecodeResponseWords(depositor: Address, solver: Address, usdcAmountWei: U128, fiatAmountCents: U128, status: Byte)
    ensures DecodeCommittedIntent(ResponseWords(depositor, solver, usdcAmountWei, fiatAmountCents, status))
            == CommittedIntentView(depositor, status, solver, fiatAmountCents)
  {
    Pow256Values();
    Pow256Monotone(16, 32);
    var words := ResponseWords(depositor, solver, usdcAmountWei, fiatAmountCents, status);
    assert words[BASE + 12..BASE + 32] == depositor;
    assert words[BASE + 192 + 12..BASE + 224] == solver;
    ToBEPadded(status, 1, 32);
    assert words[BASE + 96..BASE + 128] == ToBE(status, 32);
    assert words[BASE + 96 + 31] == status;
    ToBEPadded(fiatAmountCents, 16, 32);
    var fiatWord := words[BASE + 256..BASE + 288];
    assert fiatWord == ToBE(fiatAmountCents, 32);
    assert fiatWord[16..32] == ToBE(fiatAmountCents, 16);
  }

  /**
   * What the encoder writes, hex-decoded after "0x" is trimmed and read at
   * base 32, gives back the depositor, status, solver and fiat amount it was given.
   */
  lemma IntentResponseRoundTrip(depositor: Address, solver: Address, usdcAmountWei: U128, fiatAmountCents: U128, status: Byte)
    ensures var text := IntentResponseText("0x" + Encode(depositor), "0x" + Encode(solver), usdcAmountWei, fiatAmountCents, status);
            var decoded := Decode(TrimStartMatches(text, "0x"));
            && decoded.Ok? && |decoded.value| == 320
            && DecodeCommittedIntent(decoded.value) == CommittedIntentView(depositor, status, solver, fiatAmountCents)
  {
    var words := ResponseWords(depositor, solver, usdcAmountWei, fiatAmountCents, status);
    ResponseTextIsEncodedWords(depositor, solver, usdcAmountWei, fiatAmountCents, status);
    TrimHexPrefix(words);
    DecodeEncode(words);
    DecodeResponseWords(depositor, solver, usdcAmountWei, fiatAmountCents, status);
  }

  /** The committed fiat amount is the value of the last 64 hex digits of the response. */
  lemma LastWordIsFiatAmount(depositor: string, solver: string, usdcAmountWei: U128, fiatAmountCents: U128, status: Byte)
    ensures var text := IntentResponseText(depositor, solver, usdcAmountWei, fiatAmountCents, status);
            |text| >= 64 && ParseHexU128(text[|text| - 64..]) == Some(fiatAmountCents)
  {
    var text := IntentResponseText(depositor, solver, usdcAmountWei, fiatAmountCents, status);
    assert text[|text| - 64..] == HexWord(fiatAmountCents);
    Pow256Values();
    Pow256Monotone(16, 32);
    Pow16Twice(32);
    ParseHexU128OfPaddedHex(fiatAmountCents, 64);
  }

  // ---------------------------------------------------------------------------
  // The fiat-amount rule

  /** A zero commitment (legacy intent) skips the check; otherwise the proof must cover the commitment. */
  predicate FiatAmountAccepted(proofCents: I64, committedCents: I64) {
    committedCents == 0 || proofCents >= committedCents
  }

  function UnderpaymentMessage(proofCents: I64, committedCents: I64): string {
    "Amount mismatch: proof shows " + IntToString(proofCents) + " cents paid, but solver committed to "
    + IntToString(committedCents) + " cents on-chain"
  }

  /** The check: Ok when the rule holds, otherwise the underpayment message. */
  function CheckFiatAmount(proofCents: I64, committedCents: I64): (r: Result<(), string>)
    ensures r.Ok? <==> committedCents == 0 || proofCents >= committedCents
    ensures r.Err? ==> proofCents < committedCents && r.error == UnderpaymentMessage(proofCents, committedCents)
  {
    if FiatAmountAccepted(proofCents, committedCents) then Ok(()) else Err(UnderpaymentMessage(proofCents, committedCents))
  }

  /** The committed amount the tests compare against: the decoded `u128`, cast with `as i64`. */
  function CommittedCents(v: CommittedIntentView): I64 {
    U128AsI64(v.fiatAmountCents)
  }

  /** The tests' decision table. */
  lemma FiatAmountTable()
    ensures FiatAmountAccepted(10000, 10000)
    ensures FiatAmountAccepted(10500, 10000)
    ensures !FiatAmountAccepted(9500, 10000)
    ensures FiatAmountAccepted(10000, 0)
    ensures FiatAmountAccepted(0, 0)
  {
  }

  /** Paying more never turns an accepted proof into a rejected one. */
  lemma FiatAmountMonotone(p: I64, q: I64, committed: I64)
    requires p <= q && FiatAmountAccepted(p, committed)
    ensures FiatAmountAccepted(q, committed)
  {
  }
}
