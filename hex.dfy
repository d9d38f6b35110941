/**
 * The `hex` crate as the service uses it: `hex::decode` (case-insensitive, over
 * the UTF-8 bytes of its argument, odd length rejected before any character is
 * looked at, first bad character reported with its byte position), `hex::encode`
 * (lowercase), `format!("{:0Nx}", n)` and `u128::from_str_radix(s, 16)`.
 */
module Hex {
  import opened Wrappers
  import opened Bytes
  import opened Text

  datatype FromHexError = InvalidHexCharacter(c: char, index: nat) | OddLength

  /** `Display` of `hex::FromHexError`. */
  function ErrorMessage(e: FromHexError): string {
    match e
    case InvalidHexCharacter(c, index) => "Invalid character " + DebugChar(c) + " at position " + NatToString(index)
    case OddLength => "Odd number of digits"
  }

  /** A control byte in the text is reported in `\u{..}` form, as `{:?}` writes it. */
  lemma ControlCharacterMessage()
    ensures ErrorMessage(InvalidHexCharacter(1 as char, 0)) == "Invalid character " + "'\\u{1}'" + " at position " + "0"
  {
    assert NatToString(0) == "0";
    assert DebugChar(1 as char) == "'\\u{1}'";
  }

  /** The value of one hex digit byte, either case (`hex`'s `val`). */
  function Nibble(b: Byte): (r: Option<nat>)
    ensures r.Some? ==> r.value < 16
  {
    if 48 <= b <= 57 then Some(b - 48)
    else if 97 <= b <= 102 then Some(b - 87)
    else if 65 <= b <= 70 then Some(b - 55)
    else None
  }

  predicate IsHexDigits(data: seq<Byte>) {
    forall i :: 0 <= i < |data| ==> Nibble(data[i]).Some?
  }

  function ShiftError(e: FromHexError, k: nat): FromHexError {
    match e
    case InvalidHexCharacter(c, i) => InvalidHexCharacter(c, i + k)
    case OddLength => OddLength
  }

  /** Position of the first byte that is not a hex digit. */
  function FirstNonHex(data: seq<Byte>): (k: nat)
    requires !IsHexDigits(data)
    ensures k < |data| && Nibble(data[k]).None?
    ensures IsHexDigits(data[..k])
  {
    if Nibble(data[0]).None? then 0
    else
      var k := FirstNonHex(data[1..]) + 1;
      assert data[..k] == [data[0]] + data[1..][..k - 1];
      k
  }

  /**
   * Decodes pairs of hex digits: byte i is the pair at 2i and 2i+1, high nibble
   * first; otherwise the first non-digit byte is reported with its position.
   */
  function DecodePairs(data: seq<Byte>): (r: Result<seq<Byte>, FromHexError>)
    requires |data| % 2 == 0
    ensures r.Ok? <==> IsHexDigits(data)
    ensures r.Ok? ==> |r.value| * 2 == |data|
    ensures r.Ok? ==> forall i :: 0 <= i < |r.value| ==>
                        r.value[i] == Nibble(data[2 * i]).value * 16 + Nibble(data[2 * i + 1]).value
  {
    if IsHexDigits(data) then
      Ok(seq(|data| / 2, i requires 0 <= i < |data| / 2 => Nibble(data[2 * i]).value * 16 + Nibble(data[2 * i + 1]).value))
    else
      var k := FirstNonHex(data);
      Err(InvalidHexCharacter(data[k] as char, k))
  }

  /** `hex::decode` applied to bytes. */
  function DecodeBytes(data: seq<Byte>): (r: Result<seq<Byte>, FromHexError>)
    ensures r.Ok? <==> |data| % 2 == 0 && IsHexDigits(data)
    ensures r == Err(OddLength) <==> |data| % 2 != 0
  {
    if |data| % 2 != 0 then Err(OddLength) else DecodePairs(data)
  }

  /** `hex::decode(text)`: the text's UTF-8 bytes, decoded. */
  function Decode(text: string): Result<seq<Byte>, FromHexError> {
    DecodeBytes(Utf8(text))
  }

  // ---------------------------------------------------------------------------
  // Encoding

  /** Digit j of the hex encoding of `bs`: high nibble of byte j/2 at even j, low nibble at odd j. */
  function NibbleAt(bs: seq<Byte>, j: nat): (d: nat)
    requires j < 2 * |bs|
    ensures d < 16
  {
    if j % 2 == 0 then bs[j / 2] / 16 else bs[j / 2] % 16
  }

  /** `hex::encode`: two lowercase digits per byte, high nibble first. */
  function Encode(bs: seq<Byte>): (s: string)
    ensures |s| == 2 * |bs| && IsAscii(s)
    ensures forall j :: 0 <= j < |s| ==> s[j] == LowerDigit(NibbleAt(bs, j))
  {
    seq(2 * |bs|, j requires 0 <= j < 2 * |bs| => LowerDigit(NibbleAt(bs, j)))
  }

  lemma NibbleOfLowerDigit(d: nat)
    requires d < 16
    ensures Nibble(LowerDigit(d) as int) == Some(d)
  {
  }

  /** The digits `Encode` writes, read back byte by byte. */
  lemma EncodedDigits(bs: seq<Byte>)
    ensures var data := Utf8(Encode(bs));
            |data| == 2 * |bs| && forall j :: 0 <= j < |data| ==> Nibble(data[j]) == Some(NibbleAt(bs, j))
  {
    var s := Encode(bs);
    Utf8OfAscii(s);
    forall j | 0 <= j < |s|
      ensures Nibble(Utf8(s)[j]) == Some(NibbleAt(bs, j))
    {
      NibbleOfLowerDigit(NibbleAt(bs, j));
    }
  }

  /** Bytes whose digits are those of `bs` decode to `bs`. */
  lemma DecodeDigits(bs: seq<Byte>, data: seq<Byte>)
    requires |data| == 2 * |bs|
    requires forall j :: 0 <= j < |data| ==> Nibble(data[j]) == Some(NibbleAt(bs, j))
    ensures DecodeBytes(data) == Ok(bs)
  {
    var r := DecodePairs(data).value;
    forall i | 0 <= i < |bs|
      ensures r[i] == bs[i]
    {
      assert NibbleAt(bs, 2 * i) == bs[i] / 16 && NibbleAt(bs, 2 * i + 1) == bs[i] % 16;
    }
    assert r == bs;
  }

  /** Decoding what `Encode` produced gives the bytes back. */
  lemma DecodeEncode(bs: seq<Byte>)
    ensures Decode(Encode(bs)) == Ok(bs)
  {
    EncodedDigits(bs);
    DecodeDigits(bs, Utf8(Encode(bs)));
  }

  /** Decoding a concatenation of two even-length hex texts concatenates the decodings. */
  lemma DecodePairsAppend(x: seq<Byte>, y: seq<Byte>)
    requires |x| % 2 == 0 && |y| % 2 == 0
    requires IsHexDigits(x) && IsHexDigits(y)
    ensures DecodePairs(x + y) == Ok(DecodePairs(x).value + DecodePairs(y).value)
  {
    var xy := x + y;
    assert IsHexDigits(xy) by {
      forall i | 0 <= i < |xy|
        ensures Nibble(xy[i]).Some?
      {
        if i >= |x| {
          assert xy[i] == y[i - |x|];
        }
      }
    }
    var dx, dy, d := DecodePairs(x).value, DecodePairs(y).value, DecodePairs(xy).value;
    assert |d| == |dx| + |dy|;
    forall i | 0 <= i < |d|
      ensures d[i] == (dx + dy)[i]
    {
      if i >= |dx| {
        var k := i - |dx|;
        assert xy[2 * i] == y[2 * k] && xy[2 * i + 1] == y[2 * k + 1];
      }
    }
    assert d == dx + dy;
  }

  lemma DecodeAppend(a: string, b: string)
    requires Decode(a).Ok? && Decode(b).Ok?
    ensures Decode(a + b) == Ok(Decode(a).value + Decode(b).value)
  {
    Utf8Append(a, b);
    DecodePairsAppend(Utf8(a), Utf8(b));
  }

  /** A "0x" put in front of encoded bytes is exactly what `trim_start_matches("0x")` removes. */
  lemma TrimHexPrefix(bs: seq<Byte>)
    ensures TrimStartMatches("0x" + Encode(bs), "0x") == Encode(bs)
  {
    var text := Encode(bs);
    TrimStartMatchesPrefix("0x", text);
    assert !StartsWith(text, "0x") by {
      if |text| >= 2 {
        assert text[1] == LowerDigit(NibbleAt(bs, 1));
      }
    }
  }

  // ---------------------------------------------------------------------------
  // Numbers in hex: `format!("{:0Nx}", n)` and `u128::from_str_radix(s, 16)`

  function Pow16(k: nat): (p: nat)
    ensures p >= 1
  {
    if k == 0 then 1 else 16 * Pow16(k - 1)
  }

  /** `format!("{:0width$x}", n)` for a value that fits in `width` digits. */
  function PaddedHex(n: nat, width: nat): (s: string)
    requires n < Pow16(width)
    ensures |s| == width && IsAscii(s)
  {
    if width == 0 then "" else PaddedHex(n / 16, width - 1) + [LowerDigit(n % 16)]
  }

  /** The value of a string of hex digits (either case). */
  function HexValue(s: string): nat
    requires forall i :: 0 <= i < |s| ==> s[i] as int < 256 && Nibble(s[i] as int).Some?
  {
    if s == [] then 0 else HexValue(s[..|s| - 1]) * 16 + Nibble(s[|s| - 1] as int).value
  }

  /** Reading back what `PaddedHex` printed gives the number. */
  lemma {:induction false} HexValueOfPaddedHex(n: nat, width: nat)
    requires n < Pow16(width)
    ensures var s := PaddedHex(n, width);
            (forall i :: 0 <= i < |s| ==> s[i] as int < 256 && Nibble(s[i] as int).Some?) && HexValue(s) == n
  {
    if width > 0 {
      HexValueOfPaddedHex(n / 16, width - 1);
      NibbleOfLowerDigit(n % 16);
      var s := PaddedHex(n, width);
      assert s[..|s| - 1] == PaddedHex(n / 16, width - 1);
    }
  }

  /**
   * `u128::from_str_radix(s, 16)`: one optional leading '+', then at least one
   * hex digit of either case and nothing else, with a value below 2^128.
   */
  function ParseHexU128(s: string): (r: Option<nat>)
    ensures r.Some? ==> r.value < U128_LIMIT
  {
    if s == [] then None
    else
      var digits := if s[0] == '+' then s[1..] else s;
      if digits == [] || !(forall i :: 0 <= i < |digits| ==> digits[i] as int < 256 && Nibble(digits[i] as int).Some?)
      then None
      else
        var v := HexValue(digits);
        if v < U128_LIMIT then Some(v) else None
  }

  lemma ParseHexU128OfPaddedHex(n: nat, width: nat)
    requires width >= 1 && n < Pow16(width) && n < U128_LIMIT
    ensures ParseHexU128(PaddedHex(n, width)) == Some(n)
  {
    HexValueOfPaddedHex(n, width);
    var s := PaddedHex(n, width);
    assert s[0] != '+' by {
      NibbleOfLowerDigit(0);
      assert Nibble(s[0] as int).Some?;
    }
  }

  lemma {:induction false} Pow16Twice(k: nat)
    ensures Pow16(2 * k) == Pow256(k)
  {
    if k > 0 {
      Pow16Twice(k - 1);
      assert Pow16(2 * k) == 16 * (16 * Pow16(2 * (k - 1)));
    }
  }

  /** The two hex digits of a number's last byte are its last two hex digits. */
  lemma LastByteDigits(n: nat)
    ensures (n / 16) / 16 == n / 256
    ensures (n / 16) % 16 == (n % 256) / 16
    ensures n % 16 == (n % 256) % 16
  {
  }

  lemma PaddedHexTwoSteps(n: nat, w: nat)
    requires w >= 2 && n < Pow16(w)
    ensures n / 256 < Pow16(w - 2)
    ensures PaddedHex(n, w) == PaddedHex(n / 256, w - 2) + [LowerDigit((n % 256) / 16), LowerDigit((n % 256) % 16)]
  {
    LastByteDigits(n);
    assert PaddedHex(n, w) == PaddedHex(n / 16, w - 1) + [LowerDigit(n % 16)];
  }

  lemma DivBelow(n: nat, p: nat)
    requires n < 256 * p
    ensures n / 256 < p
  {
  }

  /** Zero-padded hex of a number is the hex encoding of its big-endian bytes. */
  lemma {:induction false} PaddedHexIsEncode(n: nat, k: nat)
    requires n < Pow256(k)
    ensures Pow16(2 * k) == Pow256(k)
    ensures PaddedHex(n, 2 * k) == Encode(ToBE(n, k))
  {
    Pow16Twice(k);
    if k > 0 {
      DivBelow(n, Pow256(k - 1));
      PaddedHexTwoSteps(n, 2 * k);
      PaddedHexIsEncode(n / 256, k - 1);
      var high := ToBE(n / 256, k - 1);
      assert ToBE(n, k) == high + [n % 256];
      EncodeAppend(high, [n % 256]);
      EncodeByte(n % 256);
      assert 2 * k - 2 == 2 * (k - 1);
    }
  }

  /** One byte encodes as its high and its low hex digit. */
  lemma EncodeByte(b: Byte)
    ensures Encode([b]) == [LowerDigit(b / 16), LowerDigit(b % 16)]
  {
    assert NibbleAt([b], 0) == b / 16 && NibbleAt([b], 1) == b % 16;
  }

  lemma EncodeAppend(a: seq<Byte>, b: seq<Byte>)
    ensures Encode(a + b) == Encode(a) + Encode(b)
  {
    var ab := a + b;
    forall j | 0 <= j < 2 * |ab|
      ensures Encode(ab)[j] == (Encode(a) + Encode(b))[j]
    {
      if j >= 2 * |a| {
        assert NibbleAt(ab, j) == NibbleAt(b, j - 2 * |a|);
      }
    }
  }
}
