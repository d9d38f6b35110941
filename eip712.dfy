/**
 * EIP-712 typed-data hashing of a payment attestation and its 65-byte
 * Ethereum signature. The hash (`keccak256`) and the secp256k1 signer are
 * function parameters; everything in between is byte-exact.
 */
module Eip712 {
  import opened Wrappers
  import opened Bytes
  import opened Text
  import opened Errors

  // ---------------------------------------------------------------------------
  // Domain

  datatype AttestationDomain = AttestationDomain(
    name: string,
    version: string,
    chainId: U64,
    verifyingContract: Address)

  /** Base Sepolia. */
  const DEFAULT_CHAIN_ID: U64 := 84532

  /** `AttestationDomain::default()` */
  const DEFAULT_DOMAIN: AttestationDomain :=
    AttestationDomain("WisePaymentVerifier", "1", DEFAULT_CHAIN_ID, Zeros(20))

  /** `AttestationDomain::new(chain_id, verifying_contract)`: the default with the chain and contract replaced. */
  function NewDomain(chainId: U64, verifyingContract: Address): (d: AttestationDomain)
    ensures d.name == DEFAULT_DOMAIN.name && d.version == DEFAULT_DOMAIN.version
    ensures d.chainId == chainId && d.verifyingContract == verifyingContract
  {
    DEFAULT_DOMAIN.(chainId := chainId, verifyingContract := verifyingContract)
  }

  /** `new` with the default's own chain and contract is the default. */
  lemma NewDomainOfDefaults()
    ensures NewDomain(DEFAULT_CHAIN_ID, Zeros(20)) == DEFAULT_DOMAIN
  {
  }

  const DOMAIN_TYPE: string := "EIP712Domain(string name,string version,uint256 chainId,address verifyingContract)"

  /** `U256::from(x).to_be_bytes::<32>()` */
  function Word(x: U64): (w: Bytes32)
    ensures w[..24] == Zeros(24) && FromBE(w) == x
  {
    Be32OfU64(x);
    ToBE(x, 32)
  }

  /** An address left-padded with 12 zero bytes to a word. */
  function AddressWord(a: Address): (w: Bytes32)
    ensures w[..12] == Zeros(12) && w[12..] == a
  {
    Zeros(12) + a
  }

  /** What `domain_separator` hashes. */
  function DomainPreimage(keccak: Keccak, d: AttestationDomain): (e: seq<Byte>)
    ensures |e| == 160
  {
    keccak(Utf8(DOMAIN_TYPE)) + keccak(Utf8(d.name)) + keccak(Utf8(d.version)) + Word(d.chainId)
    + AddressWord(d.verifyingContract)
  }

  /** `domain_separator`'s successive `extend_from_slice` calls. */
  method BuildDomainPreimage(keccak: Keccak, d: AttestationDomain) returns (encoded: seq<Byte>)
    ensures encoded == DomainPreimage(keccak, d)
  {
    encoded := [];
    encoded := encoded + keccak(Utf8(DOMAIN_TYPE));
    encoded := encoded + keccak(Utf8(d.name));
    encoded := encoded + keccak(Utf8(d.version));
    encoded := encoded + Word(d.chainId);
    var padded := Zeros(12) + d.verifyingContract;
    encoded := encoded + padded;
  }

  /** `domain_separator` */
  function DomainSeparator(keccak: Keccak, d: AttestationDomain): Bytes32 {
    keccak(DomainPreimage(keccak, d))
  }

  /**
   * The five words of the domain encoding, where EIP-712 puts them: the type
   * hash, the hashes of name and version, the chain id, and the contract
   * after twelve zero bytes.
   */
  lemma DomainPreimageLayout(keccak: Keccak, d: AttestationDomain)
    ensures var e := DomainPreimage(keccak, d);
            && e[0..32] == keccak(Utf8(DOMAIN_TYPE))
            && e[32..64] == keccak(Utf8(d.name))
            && e[64..96] == keccak(Utf8(d.version))
            && FromBE(e[96..128]) == d.chainId && e[96..120] == Zeros(24)
            && e[128..140] == Zeros(12)
            && e[140..160] == d.verifyingContract
  {
    var e := DomainPreimage(keccak, d);
    var w := Word(d.chainId);
    var a := AddressWord(d.verifyingContract);
    assert e == keccak(Utf8(DOMAIN_TYPE)) + keccak(Utf8(d.name)) + keccak(Utf8(d.version)) + w + a;
    assert e[96..128] == w;
    assert e[128..160] == a;
    assert e[128..140] == a[..12];
    assert e[140..160] == a[12..];
    assert e[96..120] == w[..24];
  }

  /** Domains that differ in any field encode differently. */
  lemma DomainPreimageInjective(keccak: Keccak, d1: AttestationDomain, d2: AttestationDomain)
    requires DomainPreimage(keccak, d1) == DomainPreimage(keccak, d2)
    ensures d1.chainId == d2.chainId && d1.verifyingContract == d2.verifyingContract
    ensures keccak(Utf8(d1.name)) == keccak(Utf8(d2.name))
    ensures keccak(Utf8(d1.version)) == keccak(Utf8(d2.version))
  {
    DomainPreimageLayout(keccak, d1);
    DomainPreimageLayout(keccak, d2);
  }

  // ---------------------------------------------------------------------------
  // Attestation struct

  datatype AttestationData = AttestationData(
    intentHash: Bytes32,
    amount: U64,
    timestamp: U64,
    paymentId: string,
    data: seq<Byte>)

  const ATTESTATION_TYPE: string :=
    "PaymentAttestation(bytes32 intentHash,uint256 amount,uint256 timestamp,string paymentId,bytes32 dataHash)"

  /** `data_hash` */
  function DataHash(keccak: Keccak, a: AttestationData): Bytes32 {
    keccak(a.data)
  }

  /** What `struct_hash` hashes. */
  function StructPreimage(keccak: Keccak, a: AttestationData): (e: seq<Byte>)
    ensures |e| == 192
  {
    keccak(Utf8(ATTESTATION_TYPE)) + a.intentHash + Word(a.amount) + Word(a.timestamp)
    + keccak(Utf8(a.paymentId)) + keccak(a.data)
  }

  /** `struct_hash`'s successive `extend_from_slice` calls. */
  method BuildStructPreimage(keccak: Keccak, a: AttestationData) returns (encoded: seq<Byte>)
    ensures encoded == StructPreimage(keccak, a)
  {
    encoded := [];
    encoded := encoded + keccak(Utf8(ATTESTATION_TYPE));
    encoded := encoded + a.intentHash;
    encoded := encoded + Word(a.amount);
    encoded := encoded + Word(a.timestamp);
    encoded := encoded + keccak(Utf8(a.paymentId));
    encoded := encoded + keccak(a.data);
  }

  /** `struct_hash` */
  function StructHash(keccak: Keccak, a: AttestationData): Bytes32 {
    keccak(StructPreimage(keccak, a))
  }

  /**
   * The six words of the struct encoding, in declaration order; the amount and
   * timestamp words carry their value behind 24 zero bytes, and the last word
   * is `data_hash()`.
   */
  lemma StructPreimageLayout(keccak: Keccak, a: AttestationData)
    ensures var e := StructPreimage(keccak, a);
            && e[0..32] == keccak(Utf8(ATTESTATION_TYPE))
            && e[32..64] == a.intentHash
            && FromBE(e[64..96]) == a.amount && e[64..88] == Zeros(24)
            && FromBE(e[96..128]) == a.timestamp && e[96..120] == Zeros(24)
            && e[128..160] == keccak(Utf8(a.paymentId))
            && e[160..192] == DataHash(keccak, a)
  {
    var e := StructPreimage(keccak, a);
    var wa := Word(a.amount);
    var wt := Word(a.timestamp);
    assert e[64..96] == wa;
    assert e[96..128] == wt;
    assert e[64..88] == wa[..24];
    assert e[96..120] == wt[..24];
  }

  /** Attestations that encode alike agree on intent, amount and timestamp. */
  lemma StructPreimageInjective(keccak: Keccak, a1: AttestationData, a2: AttestationData)
    requires StructPreimage(keccak, a1) == StructPreimage(keccak, a2)
    ensures a1.intentHash == a2.intentHash && a1.amount == a2.amount && a1.timestamp == a2.timestamp
    ensures DataHash(keccak, a1) == DataHash(keccak, a2)
  {
    StructPreimageLayout(keccak, a1);
    StructPreimageLayout(keccak, a2);
  }

  // ---------------------------------------------------------------------------
  // Signing

  /** The EIP-712 prefix `\x19\x01`. */
  const PREFIX: seq<Byte> := [0x19, 0x01]

  /** The 66 bytes whose hash is signed. */
  function SigningMessage(domainSeparator: Bytes32, structHash: Bytes32): (m: seq<Byte>)
    ensures |m| == 66
    ensures m[..2] == PREFIX && m[2..34] == domainSeparator && m[34..] == structHash
  {
    var m := PREFIX + domainSeparator + structHash;
    assert m[2..34] == domainSeparator;
    m
  }

  method BuildSigningMessage(domainSeparator: Bytes32, structHash: Bytes32) returns (message: seq<Byte>)
    ensures message == SigningMessage(domainSeparator, structHash)
  {
    message := [];
    message := message + [0x19];
    message := message + [0x01];
    message := message + domainSeparator;
    message := message + structHash;
  }

  /** A k256 recovery id, for the signatures this service produces (x not reduced). */
  type RecoveryId = r: int | 0 <= r <= 1

  /** What `sign_prehash_recoverable` returns: the scalars `r` and `s` as 32 big-endian bytes, and the recovery id. */
  datatype RecoverableSignature = RecoverableSignature(r: Bytes32, s: Bytes32, recid: RecoveryId)

  /** The signer with its key fixed: a digest in, a signature or the signer's error text out. */
  type Signer = Bytes32 -> Result<RecoverableSignature, string>

  /** Ethereum adds 27 to the recovery id. */
  const V_OFFSET: nat := 27

  /** `r ‖ s ‖ v`, the 65-byte Ethereum signature. */
  function SignatureBytes(sig: RecoverableSignature): (b: seq<Byte>)
    ensures |b| == 65
    ensures b[..32] == sig.r && b[32..64] == sig.s && b[64] == sig.recid + V_OFFSET
  {
    var b := sig.r + sig.s + [sig.recid + V_OFFSET];
    assert b[32..64] == sig.s;
    b
  }

  /** The fill of `sig_bytes`: a zeroed 65-byte buffer, then `r`, `s` and `v` copied into their slices. */
  method EncodeSignature(sig: RecoverableSignature) returns (bytes: array<Byte>)
    ensures bytes.Length == 65 && bytes[..] == SignatureBytes(sig)
  {
    bytes := new Byte[65](_ => 0);
    forall i | 0 <= i < 32 {
      bytes[i] := sig.r[i];
    }
    forall i | 32 <= i < 64 {
      bytes[i] := sig.s[i - 32];
    }
    bytes[64] := sig.recid + V_OFFSET;
    ghost var expected := SignatureBytes(sig);
    assert forall i :: 0 <= i < 65 ==> bytes[i] == expected[i];
  }

  /** The v byte is 27 or 28. */
  lemma SignatureV(sig: RecoverableSignature)
    ensures SignatureBytes(sig)[64] == 27 || SignatureBytes(sig)[64] == 28
  {
  }

  /** `sign_attestation`: the signature and the digest signed, or the signer's failure. */
  function SignAttestation(keccak: Keccak, signer: Signer, domain: AttestationDomain, data: AttestationData)
    : (r: Result<(seq<Byte>, Bytes32), AttestationError>)
    ensures r.Ok? ==> r.value.1 == keccak(SigningMessage(DomainSeparator(keccak, domain), StructHash(keccak, data)))
    ensures r.Ok? ==> signer(r.value.1).Ok? && r.value.0 == SignatureBytes(signer(r.value.1).value)
  {
    var digest := keccak(SigningMessage(DomainSeparator(keccak, domain), StructHash(keccak, data)));
    match signer(digest)
    case Err(e) => Err(SigningError("Failed to sign: " + e))
    case Ok(sig) => Ok((SignatureBytes(sig), digest))
  }

  /**
   * A successful signing yields 65 bytes with r, s and v = 27 or 28 in place;
   * a signer failure yields `SigningError` and no signature.
   */
  lemma SignAttestationOutcome(keccak: Keccak, signer: Signer, domain: AttestationDomain, data: AttestationData)
    ensures var digest := keccak(SigningMessage(DomainSeparator(keccak, domain), StructHash(keccak, data)));
            var r := SignAttestation(keccak, signer, domain, data);
            && (signer(digest).Err? ==> r == Err(SigningError("Failed to sign: " + signer(digest).error)))
            && (signer(digest).Ok? ==>
                  r.Ok? && r.value.1 == digest && |r.value.0| == 65
                  && r.value.0[..32] == signer(digest).value.r
                  && r.value.0[32..64] == signer(digest).value.s
                  && (r.value.0[64] == 27 || r.value.0[64] == 28))
  {
  }
}
