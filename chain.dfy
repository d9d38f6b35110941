/**
 * On-chain intent validation (the `OffRampV3` contract read through `eth_call`):
 * hand-built calldata, fixed-offset decoding of the `intents(bytes32)` result,
 * the `authorizedSolvers(address)` check and `validate_intent`'s short-circuit
 * sequence of checks.
 *
 * The JSON-RPC transport is a function from calldata to the node's reply; the
 * contract address and RPC URL are fixed inside it. keccak-256 (used only by the
 * EIP-55 rendering of an address in an error message) is a function parameter.
 */
module Chain {
  import opened Wrappers
  import opened Bytes
  import opened Text
  import opened Hex

  // ---------------------------------------------------------------------------
  // Intent status

  datatype IntentStatus = StatusNone | Active | Fulfilled | Cancelled

  /** `IntentStatus::from(u8)`: 1, 2, 3 name a status, every other byte is `None`. */
  function StatusFromByte(v: Byte): IntentStatus {
    if v == 1 then Active
    else if v == 2 then Fulfilled
    else if v == 3 then Cancelled
    else StatusNone
  }

  /** The enum's discriminant (`None = 0, Active = 1, Fulfilled = 2, Cancelled = 3`). */
  function Discriminant(s: IntentStatus): (v: Byte)
    ensures v < 4
  {
    match s
    case StatusNone => 0
    case Active => 1
    case Fulfilled => 2
    case Cancelled => 3
  }

  /** `{:?}` of a status. */
  function StatusDebug(s: IntentStatus): string {
    match s
    case StatusNone => "None"
    case Active => "Active"
    case Fulfilled => "Fulfilled"
    case Cancelled => "Cancelled"
  }

  /** Converting a discriminant back gives the status; bytes other than 1, 2, 3 all mean `None`. */
  lemma StatusFromByteInverse(s: IntentStatus, v: Byte)
    ensures StatusFromByte(Discriminant(s)) == s
    ensures StatusFromByte(v) == StatusNone <==> v == 0 || v >= 4
    ensures StatusFromByte(v) != StatusNone ==> Discriminant(StatusFromByte(v)) == v
  {
  }

  /** The unit test's table: 0 and 99 are `None`, 1, 2, 3 are Active, Fulfilled, Cancelled. */
  lemma StatusFromByteSamples()
    ensures StatusFromByte(0) == StatusNone && StatusFromByte(1) == Active
    ensures StatusFromByte(2) == Fulfilled && StatusFromByte(3) == Cancelled
    ensures StatusFromByte(99) == StatusNone
  {
  }

  // ---------------------------------------------------------------------------
  // Calldata

  /** `hex::decode` of the two selector literals succeeds, so their `unwrap` never panics. */
  lemma SelectorsDecode()
    ensures Decode("bd564402") == Ok([0xbd, 0x56, 0x44, 0x02])
    ensures Decode("f6e14bad") == Ok([0xf6, 0xe1, 0x4b, 0xad])
  {
    var intents: seq<Byte> := [0xbd, 0x56, 0x44, 0x02];
    assert Encode(intents) == "bd564402";
    DecodeEncode(intents);
    var authorized: seq<Byte> := [0xf6, 0xe1, 0x4b, 0xad];
    assert Encode(authorized) == "f6e14bad";
    DecodeEncode(authorized);
  }

  /** `hex::decode("bd564402").unwrap()`, the selector of `intents(bytes32)`. */
  function IntentsSelector(): (sel: seq<Byte>)
    ensures sel == [0xbd, 0x56, 0x44, 0x02]
  {
    SelectorsDecode();
    Decode("bd564402").value
  }

  /** `hex::decode("f6e14bad").unwrap()`, the selector of `authorizedSolvers(address)`. */
  function AuthorizedSolversSelector(): (sel: seq<Byte>)
    ensures sel == [0xf6, 0xe1, 0x4b, 0xad]
  {
    SelectorsDecode();
    Decode("f6e14bad").value
  }

  /** Calldata of `intents(intentHash)`: the selector, then the hash as the one argument word. */
  function IntentCalldata(intentHash: Bytes32): (calldata: seq<Byte>)
    ensures |calldata| == 36
    ensures calldata[..4] == [0xbd, 0x56, 0x44, 0x02] && calldata[4..] == intentHash
  {
    IntentsSelector() + intentHash
  }

  /** Calldata of `authorizedSolvers(solver)`: the selector, then the address left-padded to a word. */
  function AuthorizedCalldata(solver: Address): (calldata: seq<Byte>)
    ensures |calldata| == 36
    ensures calldata[..4] == [0xf6, 0xe1, 0x4b, 0xad]
    ensures calldata[4..16] == Zeros(12) && calldata[16..] == solver
  {
    AuthorizedSolversSelector() + Zeros(12) + solver
  }

  /** The argument word of `authorizedSolvers` is the ABI encoding of the address: its value as a number. */
  lemma AuthorizedCalldataWord(solver: Address)
    ensures FromBE(solver) < Pow256(32) && AuthorizedCalldata(solver)[4..] == ToBE(FromBE(solver), 32)
  {
    AuthorizedCalldataTail(solver);
    ZeroPaddedEncoding(12, solver);
  }

  lemma AuthorizedCalldataTail(solver: Address)
    ensures AuthorizedCalldata(solver)[4..] == Zeros(12) + solver
  {
  }


  /** `get_intent`'s calldata, built as the source does: the selector `Vec`, extended by the hash. */
  method BuildIntentCalldata(intentHash: Bytes32) returns (calldata: seq<Byte>)
    ensures calldata == IntentCalldata(intentHash)
  {
    calldata := IntentsSelector();
    calldata := calldata + intentHash;
  }

  /** `is_solver_authorized`'s calldata: the selector, extended by 12 zero bytes, then by the address. */
  method BuildAuthorizedCalldata(solver: Address) returns (calldata: seq<Byte>)
    ensures calldata == AuthorizedCalldata(solver)
  {
    calldata := AuthorizedSolversSelector();
    calldata := calldata + Zeros(12);
    calldata := calldata + solver;
  }

  // ---------------------------------------------------------------------------
  // eth_call

  /**
   * The parsed JSON-RPC reply: the `result` text if any, and the `{:?}` rendering
   * of the `error` member if any.
   */
  datatype RpcReply = RpcReply(result: Option<string>, error: Option<string>)

  /**
   * The node, seen from `eth_call`: the reply to a call with this calldata, or
   * the transport's own error text ("RPC request failed: ...", "Failed to parse
   * RPC response: ...").
   */
  type Rpc = seq<Byte> -> Result<RpcReply, string>

  /** `eth_call`'s handling of a parsed reply. */
  function ReplyBytes(reply: RpcReply): (r: Result<seq<Byte>, string>)
    ensures reply.error.Some? ==> r == Err("RPC error: " + reply.error.value)
    ensures r.Ok? ==> reply.error.None?
    ensures r.Ok? && r.value != [] ==> Decode(TrimStartMatches(reply.result.GetOr(""), "0x")) == Ok(r.value)
    ensures reply.error.None? && TrimStartMatches(reply.result.GetOr(""), "0x") == [] ==> r == Ok([])
  {
    if reply.error.Some? then Err("RPC error: " + reply.error.value)
    else
      var hex := TrimStartMatches(reply.result.GetOr(""), "0x");
      if hex == [] then Ok([])
      else
        match Decode(hex)
        case Ok(bs) => Ok(bs)
        case Err(e) => Err("Failed to decode result: " + ErrorMessage(e))
  }

  function EthCall(rpc: Rpc, calldata: seq<Byte>): Result<seq<Byte>, string> {
    match rpc(calldata)
    case Err(e) => Err(e)
    case Ok(reply) => ReplyBytes(reply)
  }

  /** A reply carrying "0x" and the hex of some bytes yields exactly those bytes. */
  lemma ReplyBytesOfEncoded(bs: seq<Byte>)
    ensures ReplyBytes(RpcReply(Some("0x" + Encode(bs)), None)) == Ok(bs)
  {
    TrimHexPrefix(bs);
    DecodeEncode(bs);
  }

  /** A missing result, an empty one and a bare "0x" all mean "no bytes". */
  lemma ReplyBytesEmpty()
    ensures ReplyBytes(RpcReply(None, None)) == Ok([])
    ensures ReplyBytes(RpcReply(Some(""), None)) == Ok([])
    ensures ReplyBytes(RpcReply(Some("0x"), None)) == Ok([])
  {
    TrimStartMatchesPrefix("0x", "");
    assert "0x" + "" == "0x";
  }

  // ---------------------------------------------------------------------------
  // get_intent

  /** `OnChainIntent`; `amount` is a `U256`. */
  datatype OnChainIntent = OnChainIntent(owner: Address, solver: Address, amount: nat, status: IntentStatus)

  /** `get_intent`'s decoding of the call result: too short or zero owner means "not found". */
  function DecodeIntent(result: seq<Byte>): Option<OnChainIntent> {
    if |result| < 128 then None
    else
      var owner := result[12..32];
      if IsZero(owner) then None
      else Some(OnChainIntent(owner, result[44..64], FromBE(result[64..96]), StatusFromByte(result[127])))
  }

  /** "Not found" exactly when the result is shorter than four words or the owner is zero. */
  lemma DecodeIntentNotFound(result: seq<Byte>)
    ensures DecodeIntent(result).None? <==> |result| < 128 || IsZero(result[12..32])
  {
  }

  /** Nothing past the fourth word is read. */
  lemma DecodeIntentPrefix(result: seq<Byte>)
    requires |result| >= 128
    ensures DecodeIntent(result) == DecodeIntent(result[..128])
  {
    var head := result[..128];
    assert head[12..32] == result[12..32] && head[44..64] == result[44..64];
    assert head[64..96] == result[64..96] && head[127] == result[127];
  }

  /** The ABI words the contract returns for an intent: owner, solver, amount, status, each a padded word. */
  function IntentWords(intent: OnChainIntent): (words: seq<Byte>)
    requires intent.amount < Pow256(32)
    ensures |words| == 128
  {
    (Zeros(12) + intent.owner) + (Zeros(12) + intent.solver) + ToBE(intent.amount, 32)
      + (Zeros(31) + [Discriminant(intent.status)])
  }

  /** Decoding the words of an existing intent, whatever follows them, gives the intent back. */
  lemma DecodeIntentWords(intent: OnChainIntent, rest: seq<Byte>)
    requires intent.amount < Pow256(32) && !IsZero(intent.owner)
    ensures DecodeIntent(IntentWords(intent) + rest) == Some(intent)
  {
    var owner, solver := Zeros(12) + intent.owner, Zeros(12) + intent.solver;
    var status := Zeros(31) + [Discriminant(intent.status)];
    FourWords(owner, solver, ToBE(intent.amount, 32), status, rest);
    assert owner[12..] == intent.owner && solver[12..] == intent.solver;
    StatusFromByteInverse(intent.status, 0);
  }

  /** Where the fields sit in four 32-byte words followed by anything. */
  lemma FourWords(a: seq<Byte>, b: seq<Byte>, c: seq<Byte>, d: seq<Byte>, rest: seq<Byte>)
    requires |a| == 32 && |b| == 32 && |c| == 32 && |d| == 32
    ensures var w := a + b + c + d + rest;
            |w| >= 128 && w[12..32] == a[12..] && w[44..64] == b[12..] && w[64..96] == c && w[127] == d[31]
  {
    var w := a + b + c + d + rest;
    assert w[12..32] == a[12..] by {
      forall i | 0 <= i < 20 ensures w[12..32][i] == a[12..][i] { assert w[12 + i] == a[12 + i]; }
    }
    assert w[44..64] == b[12..] by {
      forall i | 0 <= i < 20 ensures w[44..64][i] == b[12..][i] { assert w[44 + i] == b[12 + i]; }
    }
    assert w[64..96] == c by {
      forall i | 0 <= i < 32 ensures w[64..96][i] == c[i] { assert w[64 + i] == c[i]; }
    }
  }

  /** `get_intent`: one `eth_call`, then the decoding above. */
  function GetIntent(rpc: Rpc, intentHash: Bytes32): Result<Option<OnChainIntent>, string> {
    match EthCall(rpc, IntentCalldata(intentHash))
    case Err(e) => Err(e)
    case Ok(result) => Ok(DecodeIntent(result))
  }

  // ---------------------------------------------------------------------------
  // is_solver_authorized

  /** `hex::decode(solver.trim_start_matches("0x"))` */
  function DecodeSolver(solver: string): Result<seq<Byte>, FromHexError> {
    Decode(TrimStartMatches(solver, "0x"))
  }

  /** `is_solver_authorized`: address checks first, then the call; a short result means "no". */
  function IsSolverAuthorized(rpc: Rpc, solver: string): Result<bool, string> {
    match DecodeSolver(solver)
    case Err(e) => Err("Invalid solver address: " + ErrorMessage(e))
    case Ok(bytes) =>
      if |bytes| != 20 then Err("Solver address must be 20 bytes")
      else
        match EthCall(rpc, AuthorizedCalldata(bytes))
        case Err(e) => Err(e)
        case Ok(result) => if |result| < 32 then Ok(false) else Ok(result[31] != 0)
  }

  /**
   * The solver is reported authorized exactly when its text decodes to 20
   * bytes and the call for those bytes returns a word whose last byte is non-zero.
   */
  lemma IsSolverAuthorizedIff(rpc: Rpc, solver: string)
    ensures IsSolverAuthorized(rpc, solver) == Ok(true) <==>
              && DecodeSolver(solver).Ok? && |DecodeSolver(solver).value| == 20
              && var call := EthCall(rpc, AuthorizedCalldata(DecodeSolver(solver).value));
                 call.Ok? && |call.value| >= 32 && call.value[31] != 0
    ensures (DecodeSolver(solver).Err? || |DecodeSolver(solver).value| != 20) ==> IsSolverAuthorized(rpc, solver).Err?
  {
  }

  // ---------------------------------------------------------------------------
  // validate_intent

  /**
   * EIP-55 rendering of an address (`Address`'s `Display`): "0x", then the
   * lowercase hex with each letter uppercased where the matching nibble of
   * keccak-256 of that lowercase hex text is 8 or more.
   */
  function ChecksumAddress(keccak: Keccak, addr: Address): (s: string)
    ensures |s| == 42 && s[..2] == "0x"
  {
    var lower := Encode(addr);
    var hash := keccak(Utf8(lower));
    "0x" + seq(40, i requires 0 <= i < 40 =>
                 if 'a' <= lower[i] <= 'f' && NibbleAt(hash, i) >= 8 then ToUpperChar(lower[i]) else lower[i])
  }

  /** The checksummed text still decodes to the address: only the letters' case changes. */
  lemma ChecksumAddressDecodes(keccak: Keccak, addr: Address)
    ensures Decode(ChecksumAddress(keccak, addr)[2..]) == Ok(addr)
  {
    var lower := Encode(addr);
    var body := ChecksumAddress(keccak, addr)[2..];
    assert IsAscii(body) by {
      forall i | 0 <= i < |body|
        ensures body[i] as int < 0x80
      {
        assert lower[i] as int < 0x80;
      }
    }
    Utf8OfAscii(body);
    forall j | 0 <= j < |body|
      ensures Nibble(Utf8(body)[j]) == Some(NibbleAt(addr, j))
    {
      NibbleOfLowerDigit(NibbleAt(addr, j));
    }
    DecodeDigits(addr, Utf8(body));
  }

  /**
   * `Address::from_slice` panics unless it gets exactly 20 bytes, and
   * `validate_intent` calls it on the decoded solver text without a length
   * check: callers must supply text that fails to decode or decodes to 20 bytes.
   */
  predicate WellFormedSolver(solver: string) {
    DecodeSolver(solver).Ok? ==> |DecodeSolver(solver).value| == 20
  }

  /**
   * `validate_intent`: the intent must exist, be Active, be assigned to nobody or
   * to this solver, and the solver must be authorized, checked in that order.
   * The expected amount takes part in no decision.
   */
  function ValidateIntent(rpc: Rpc, keccak: Keccak, intentHash: Bytes32, solver: string, expectedAmountCents: I64)
    : Result<(), string>
    requires WellFormedSolver(solver)
  {
    match GetIntent(rpc, intentHash)
    case Err(e) => Err(e)
    case Ok(None) => Err("Intent does not exist on-chain")
    case Ok(Some(intent)) =>
      if intent.status != Active then
        Err("Intent is not active (status: " + StatusDebug(intent.status) + ")")
      else if !IsZero(intent.solver) && DecodeSolver(solver).Err? then
        Err("Invalid solver address: " + ErrorMessage(DecodeSolver(solver).error))
      else if !IsZero(intent.solver) && intent.solver != DecodeSolver(solver).value then
        Err("Solver mismatch: intent assigned to " + ChecksumAddress(keccak, intent.solver) + ", request from " + solver)
      else
        match IsSolverAuthorized(rpc, solver)
        case Err(e) => Err(e)
        case Ok(false) => Err("Solver " + solver + " is not authorized")
        case Ok(true) => Ok(())
  }

  /** Acceptance spelled out: every check passes, and nothing else is required. */
  lemma ValidateIntentAccepts(rpc: Rpc, keccak: Keccak, intentHash: Bytes32, solver: string, expected: I64)
    requires WellFormedSolver(solver)
    ensures ValidateIntent(rpc, keccak, intentHash, solver, expected).Ok? <==>
              && GetIntent(rpc, intentHash).Ok?
              && GetIntent(rpc, intentHash).value.Some?
              && var intent := GetIntent(rpc, intentHash).value.value;
                 && intent.status == Active
                 && (IsZero(intent.solver) || DecodeSolver(solver) == Ok(intent.solver))
                 && IsSolverAuthorized(rpc, solver) == Ok(true)
  {
  }

  /** A lookup failure, an unknown intent and a non-active intent are each reported before the solver is looked at. */
  lemma ValidateIntentOrder(rpc: Rpc, keccak: Keccak, intentHash: Bytes32, solver: string, expected: I64)
    requires WellFormedSolver(solver)
    ensures GetIntent(rpc, intentHash).Err? ==>
              ValidateIntent(rpc, keccak, intentHash, solver, expected) == Err(GetIntent(rpc, intentHash).error)
    ensures GetIntent(rpc, intentHash) == Ok(None) ==>
              ValidateIntent(rpc, keccak, intentHash, solver, expected) == Err("Intent does not exist on-chain")
    ensures GetIntent(rpc, intentHash).Ok? && GetIntent(rpc, intentHash).value.Some?
            && GetIntent(rpc, intentHash).value.value.status != Active ==>
              ValidateIntent(rpc, keccak, intentHash, solver, expected)
                == Err("Intent is not active (status: " + StatusDebug(GetIntent(rpc, intentHash).value.value.status) + ")")
  {
  }

  /**
   * For an active intent with an assigned solver, an undecodable requester and
   * a different requester are refused before the authorization query: a node
   * that answers the lookup the same way but anything else differently gives
   * the same refusal.
   */
  lemma ValidateIntentSolverChecks(rpc: Rpc, other: Rpc, keccak: Keccak, intentHash: Bytes32, solver: string,
                                   expected: I64, intent: OnChainIntent)
    requires GetIntent(rpc, intentHash) == Ok(Some(intent)) && intent.status == Active && !IsZero(intent.solver)
    requires other(IntentCalldata(intentHash)) == rpc(IntentCalldata(intentHash))
    requires WellFormedSolver(solver)
    ensures DecodeSolver(solver).Err? ==>
              ValidateIntent(rpc, keccak, intentHash, solver, expected)
                == Err("Invalid solver address: " + ErrorMessage(DecodeSolver(solver).error))
    ensures DecodeSolver(solver).Ok? && DecodeSolver(solver).value != intent.solver ==>
              ValidateIntent(rpc, keccak, intentHash, solver, expected)
                == Err("Solver mismatch: intent assigned to " + ChecksumAddress(keccak, intent.solver)
                       + ", request from " + solver)
    ensures DecodeSolver(solver) != Ok(intent.solver) ==>
              ValidateIntent(rpc, keccak, intentHash, solver, expected)
                == ValidateIntent(other, keccak, intentHash, solver, expected)
  {
  }

  /** Once the intent and the requester pass, the authorization query decides, and its refusal is the last one. */
  lemma ValidateIntentAuthorizationLast(rpc: Rpc, keccak: Keccak, intentHash: Bytes32, solver: string,
                                        expected: I64, intent: OnChainIntent)
    requires WellFormedSolver(solver)
    requires GetIntent(rpc, intentHash) == Ok(Some(intent)) && intent.status == Active
    requires IsZero(intent.solver) || DecodeSolver(solver) == Ok(intent.solver)
    ensures IsSolverAuthorized(rpc, solver).Err? ==>
              ValidateIntent(rpc, keccak, intentHash, solver, expected) == Err(IsSolverAuthorized(rpc, solver).error)
    ensures IsSolverAuthorized(rpc, solver) == Ok(false) ==>
              ValidateIntent(rpc, keccak, intentHash, solver, expected) == Err("Solver " + solver + " is not authorized")
    ensures IsSolverAuthorized(rpc, solver) == Ok(true) ==> ValidateIntent(rpc, keccak, intentHash, solver, expected) == Ok(())
  {
  }

  /** The on-chain amount and the expected amount never change the outcome. */
  lemma ValidateIntentIgnoresAmount(rpc: Rpc, keccak: Keccak, intentHash: Bytes32, solver: string, a: I64, b: I64)
    requires WellFormedSolver(solver)
    ensures ValidateIntent(rpc, keccak, intentHash, solver, a) == ValidateIntent(rpc, keccak, intentHash, solver, b)
  {
  }

  /**
   * `validate_intent` as written: after every check has passed it still
   * converts the on-chain amount with `to::<u128>()` just to log it, and that
   * conversion panics (None here) when the amount does not fit in 128 bits.
   */
  function ValidateIntentAsWritten(rpc: Rpc, keccak: Keccak, intentHash: Bytes32, solver: string, expected: I64)
    : (r: Option<Result<(), string>>)
    requires WellFormedSolver(solver)
  {
    match ValidateIntent(rpc, keccak, intentHash, solver, expected)
    case Err(e) => Some(Err(e))
    case Ok(_) =>
      var intent := GetIntent(rpc, intentHash).value.value;
      if intent.amount < U128_LIMIT then Some(Ok(())) else None
  }

  /** As written and as intended agree everywhere except on accepted intents whose amount needs more than 128 bits. */
  lemma ValidateIntentAsWrittenAgrees(rpc: Rpc, keccak: Keccak, intentHash: Bytes32, solver: string, expected: I64)
    requires WellFormedSolver(solver)
    ensures var corrected := ValidateIntent(rpc, keccak, intentHash, solver, expected);
            var asWritten := ValidateIntentAsWritten(rpc, keccak, intentHash, solver, expected);
            asWritten.None? <==> corrected.Ok? && GetIntent(rpc, intentHash).value.value.amount >= U128_LIMIT
    ensures var asWritten := ValidateIntentAsWritten(rpc, keccak, intentHash, solver, expected);
            asWritten.Some? ==> asWritten.value == ValidateIntent(rpc, keccak, intentHash, solver, expected)
  {
    ValidateIntentAccepts(rpc, keccak, intentHash, solver, expected);
  }

  /** A node whose contract holds `intent` under `intentHash` and answers `authorized` for every solver. */
  function ScriptedNode(intentHash: Bytes32, intent: OnChainIntent, authorized: Byte): Rpc
    requires intent.amount < Pow256(32)
  {
    (calldata: seq<Byte>) =>
      if calldata == IntentCalldata(intentHash) then Ok(RpcReply(Some("0x" + Encode(IntentWords(intent))), None))
      else Ok(RpcReply(Some("0x" + Encode(Zeros(31) + [authorized])), None))
  }

  /** "0x" followed by the hex of an address is solver text that decodes to that address. */
  lemma SolverTextDecodes(solver: Address)
    ensures DecodeSolver("0x" + Encode(solver)) == Ok(solver)
  {
    TrimHexPrefix(solver);
    DecodeEncode(solver);
  }

  lemma ScriptedIntentLookup(intentHash: Bytes32, intent: OnChainIntent, authorized: Byte)
    requires intent.amount < Pow256(32) && !IsZero(intent.owner)
    ensures GetIntent(ScriptedNode(intentHash, intent, authorized), intentHash) == Ok(Some(intent))
  {
    ReplyBytesOfEncoded(IntentWords(intent));
    DecodeIntentWords(intent, []);
    assert IntentWords(intent) + [] == IntentWords(intent);
  }

  lemma ScriptedAuthorization(intentHash: Bytes32, intent: OnChainIntent, solver: Address)
    requires intent.amount < Pow256(32)
    ensures IsSolverAuthorized(ScriptedNode(intentHash, intent, 1), "0x" + Encode(solver)) == Ok(true)
  {
    SolverTextDecodes(solver);
    var calldata := AuthorizedCalldata(solver);
    assert calldata != IntentCalldata(intentHash) by {
      assert calldata[0] == 0xf6 && IntentCalldata(intentHash)[0] == 0xbd;
    }
    ReplyBytesOfEncoded(Zeros(31) + [1]);
  }

  /**
   * The input that shows it: an active, unassigned intent holding 2^128 units,
   * requested by an authorized solver, passes every check yet panics in the
   * logging conversion.
   */
  lemma ValidateIntentPanicsOnWideAmount(keccak: Keccak, intentHash: Bytes32, solver: Address)
    ensures var owner: Address := seq(20, _ => 1);
            var intent := OnChainIntent(owner, Zeros(20), U128_LIMIT, Active);
            var text := "0x" + Encode(solver);
            && intent.amount < Pow256(32)
            && WellFormedSolver(text)
            && ValidateIntent(ScriptedNode(intentHash, intent, 1), keccak, intentHash, text, 100) == Ok(())
            && ValidateIntentAsWritten(ScriptedNode(intentHash, intent, 1), keccak, intentHash, text, 100).None?
  {
    var owner: Address := seq(20, _ => 1);
    var intent := OnChainIntent(owner, Zeros(20), U128_LIMIT, Active);
    Pow256Values();
    Pow256Monotone(17, 32);
    assert !IsZero(owner) by {
      assert owner[0] == 1;
    }
    var text := "0x" + Encode(solver);
    var rpc := ScriptedNode(intentHash, intent, 1);
    SolverTextDecodes(solver);
    assert WellFormedSolver(text);
    ScriptedIntentLookup(intentHash, intent, 1);
    ScriptedAuthorization(intentHash, intent, solver);
    ValidateIntentAccepts(rpc, keccak, intentHash, text, 100);
    assert ValidateIntent(rpc, keccak, intentHash, text, 100) == Ok(());
  }
}
