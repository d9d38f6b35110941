/**
 * Bytes, fixed-width words and the machine-integer casts the service relies on.
 * Rust's `u8`, `u64`, `i64` and `u32` are subset types of `int`; every `as` cast
 * the source performs is written out as a function here.
 */
module Bytes {

  type Byte = b: int | 0 <= b < 256

  /** `[u8; 32]`, `B256`: hashes, intent hashes and the 32-byte ABI words. */
  type Bytes32 = s: seq<Byte> | |s| == 32 witness seq(32, _ => 0)

  /** `Address`, `[u8; 20]`. */
  type Address = s: seq<Byte> | |s| == 20 witness seq(20, _ => 0)

  /** `keccak256`, a foreign hash: any function from bytes to a 32-byte digest. */
  type Keccak = seq<Byte> -> Bytes32

  const U32_LIMIT: int := 0x1_0000_0000
  const U64_LIMIT: int := 0x1_0000_0000_0000_0000
  const U128_LIMIT: int := 0x1_0000_0000_0000_0000_0000_0000_0000_0000
  const I64_MIN: int := -0x8000_0000_0000_0000
  const I64_MAX: int := 0x7fff_ffff_ffff_ffff

  type U32 = n: int | 0 <= n < U32_LIMIT
  type U64 = n: int | 0 <= n < U64_LIMIT
  type U128 = n: int | 0 <= n < U128_LIMIT
  type I64 = n: int | I64_MIN <= n <= I64_MAX

  function Pow256(k: nat): (p: nat)
    ensures p >= 1
  {
    if k == 0 then 1 else 256 * Pow256(k - 1)
  }

  function Zeros(n: nat): (z: seq<Byte>)
    ensures |z| == n
    ensures forall i :: 0 <= i < n ==> z[i] == 0
  {
    seq(n, _ => 0)
  }

  predicate IsZero(s: seq<Byte>) {
    forall i :: 0 <= i < |s| ==> s[i] == 0
  }

  /** Big-endian unsigned value of a byte string (`U256::from_be_slice`, `u128::from_be_bytes`). */
  function FromBE(s: seq<Byte>): (n: nat)
    ensures n < Pow256(|s|)
  {
    if s == [] then 0
    else
      var high := FromBE(s[..|s| - 1]);
      assert high <= Pow256(|s| - 1) - 1;
      assert high * 256 <= Pow256(|s|) - 256;
      high * 256 + s[|s| - 1]
  }

  /** Big-endian encoding of `n` in exactly `width` bytes (`U256::to_be_bytes::<32>()`). */
  function ToBE(n: nat, width: nat): (s: seq<Byte>)
    requires n < Pow256(width)
    ensures |s| == width
    ensures FromBE(s) == n
  {
    if width == 0 then []
    else
      var init := ToBE(n / 256, width - 1);
      var s := init + [n % 256];
      assert s[..|s| - 1] == init;
      s
  }

  /** Decoding then re-encoding at the same width gives the bytes back: `ToBE` and `FromBE` are inverse. */
  lemma {:induction false} ToBEOfFromBE(s: seq<Byte>)
    ensures ToBE(FromBE(s), |s|) == s
  {
    if s != [] {
      var init := s[..|s| - 1];
      ToBEOfFromBE(init);
      var n := FromBE(s);
      assert n / 256 == FromBE(init) && n % 256 == s[|s| - 1];
      assert s == init + [s[|s| - 1]];
    }
  }

  /** Big-endian encodings of equal width are injective. */
  lemma ToBEInjective(a: nat, b: nat, width: nat)
    requires a < Pow256(width) && b < Pow256(width)
    requires ToBE(a, width) == ToBE(b, width)
    ensures a == b
  {
  }

  /** A value that fits in `k` bytes, encoded in `width >= k` bytes, has `width - k` leading zero bytes. */
  lemma ToBEPadded(n: nat, k: nat, width: nat)
    requires k <= width && n < Pow256(k)
    ensures Pow256(k) <= Pow256(width)
    ensures ToBE(n, width) == Zeros(width - k) + ToBE(n, k)
  {
    Pow256Monotone(k, width);
    var s := Zeros(width - k) + ToBE(n, k);
    FromBEZerosPrefix(width - k, ToBE(n, k));
    assert |s| == width && FromBE(s) == n;
    ToBEOfFromBE(s);
  }

  /** Left-padding bytes with zeros is the wider encoding of their value. */
  lemma {:induction false} ZeroPaddedEncoding(m: nat, t: seq<Byte>)
    ensures FromBE(t) < Pow256(m + |t|)
    ensures ToBE(FromBE(t), m + |t|) == Zeros(m) + t
  {
    var s := Zeros(m) + t;
    FromBEZerosPrefix(m, t);
    assert |s| == m + |t| && FromBE(s) == FromBE(t);
    ToBEOfFromBE(s);
  }

  /** Leading zero bytes do not change a big-endian value. */
  lemma {:induction false} FromBEZerosPrefix(m: nat, t: seq<Byte>)
    ensures FromBE(Zeros(m) + t) == FromBE(t)
    decreases |t|
  {
    if t == [] {
      assert Zeros(m) + t == Zeros(m);
      FromBEZeros(m);
    } else {
      var init := t[..|t| - 1];
      assert (Zeros(m) + t)[..|Zeros(m) + t| - 1] == Zeros(m) + init;
      FromBEZerosPrefix(m, init);
    }
  }

  lemma {:induction false} FromBEZeros(m: nat)
    ensures FromBE(Zeros(m)) == 0
  {
    if m > 0 {
      assert Zeros(m)[..m - 1] == Zeros(m - 1);
      FromBEZeros(m - 1);
    }
  }

  lemma Pow256Values()
    ensures Pow256(4) == U32_LIMIT
    ensures Pow256(8) == U64_LIMIT
    ensures Pow256(16) == U128_LIMIT
  {
    assert Pow256(4) == 0x1_0000_0000;
    assert Pow256(8) == 0x1_0000_0000_0000_0000;
  }

  /**
   * `U256::from(x).to_be_bytes::<32>()` for a `u64` x: 24 zero bytes followed by
   * the 8-byte big-endian value, and the word decodes back to x.
   */
  lemma Be32OfU64(x: U64)
    ensures Pow256(8) == U64_LIMIT && x < Pow256(32)
    ensures ToBE(x, 32)[..24] == Zeros(24)
    ensures ToBE(x, 32)[24..] == ToBE(x, 8)
    ensures FromBE(ToBE(x, 32)) == x
  {
    Pow256Values();
    Pow256Monotone(8, 32);
    ToBEPadded(x, 8, 32);
  }

  lemma {:induction false} Pow256Monotone(j: nat, k: nat)
    requires j <= k
    ensures Pow256(j) <= Pow256(k)
  {
    if j < k {
      Pow256Monotone(j, k - 1);
    }
  }

  /** `x as u64` for an `i64` x: two's-complement reinterpretation. */
  function I64AsU64(x: I64): (r: U64)
    ensures x >= 0 ==> r == x
    ensures x < 0 ==> r == U64_LIMIT + x
  {
    if x >= 0 then x else U64_LIMIT + x
  }

  /** `n as i64` for an unsigned `n` below 2^128: keeps the low 64 bits, read as two's complement. */
  function U128AsI64(n: U128): (r: I64)
    ensures (r - n) % U64_LIMIT == 0
    ensures n <= I64_MAX ==> r == n
  {
    var low := n % U64_LIMIT;
    if low <= I64_MAX then low else low - U64_LIMIT
  }
}
