/**
 * The string operations of Rust's `str` that the service uses, over `seq<char>`:
 * `find`, `rfind`, `contains`, `split`, `trim`, `trim_start_matches`, `join`,
 * `parse::<u32>()`, `Display` of integers, `Debug` quoting, and `as_bytes()` (UTF-8).
 */
module Text {
  import opened Wrappers
  import opened Bytes

  // ---------------------------------------------------------------------------
  // Character classes

  /** `char::is_whitespace`: the Unicode White_Space property, listed in full. */
  predicate IsWhitespace(c: char) {
    var n := c as int;
    (0x09 <= n <= 0x0D) || n == 0x20 || n == 0x85 || n == 0xA0 || n == 0x1680
    || (0x2000 <= n <= 0x200A) || n == 0x2028 || n == 0x2029 || n == 0x202F
    || n == 0x205F || n == 0x3000
  }

  predicate IsDigit(c: char) { '0' <= c <= '9' }

  predicate IsAsciiAlphanumeric(c: char) {
    IsDigit(c) || ('a' <= c <= 'z') || ('A' <= c <= 'Z')
  }

  function ToUpperChar(c: char): char {
    if 'a' <= c <= 'z' then (c as int - 32) as char else c
  }

  function ToLowerChar(c: char): char {
    if 'A' <= c <= 'Z' then (c as int + 32) as char else c
  }

  /** `str::to_uppercase`, on the ASCII letters. */
  function ToUpper(s: string): (r: string)
    ensures |r| == |s|
    ensures forall i :: 0 <= i < |s| ==> r[i] == ToUpperChar(s[i])
  {
    seq(|s|, i requires 0 <= i < |s| => ToUpperChar(s[i]))
  }

  /** `str::to_lowercase`, on the ASCII letters. */
  function ToLower(s: string): (r: string)
    ensures |r| == |s|
    ensures forall i :: 0 <= i < |s| ==> r[i] == ToLowerChar(s[i])
    ensures forall i :: 0 <= i < |r| ==> !('A' <= r[i] <= 'Z')
  {
    seq(|s|, i requires 0 <= i < |s| => ToLowerChar(s[i]))
  }

  // ---------------------------------------------------------------------------
  // Searching

  predicate OccursAt(s: string, p: string, i: int) {
    0 <= i && i + |p| <= |s| && s[i..i + |p|] == p
  }

  /** `str::find(p)`: the first position where `p` occurs. */
  function Find(s: string, p: string): (r: Option<nat>)
    ensures r.Some? ==> OccursAt(s, p, r.value)
    ensures r.Some? ==> forall j :: 0 <= j < r.value ==> !OccursAt(s, p, j)
    ensures r.None? ==> forall j :: !OccursAt(s, p, j)
    decreases |s|
  {
    if |s| < |p| then None
    else if s[..|p|] == p then Some(0)
    else
      var rest := Find(s[1..], p);
      ShiftOccurrences(s, p);
      match rest
      case None => None
      case Some(i) => Some(i + 1)
  }

  /** An occurrence at j >= 1 in `s` is an occurrence at j - 1 in `s[1..]`. */
  lemma ShiftOccurrences(s: string, p: string)
    requires |s| > 0
    ensures forall j :: 1 <= j ==> (OccursAt(s, p, j) <==> OccursAt(s[1..], p, j - 1))
  {
    forall j | 1 <= j
      ensures OccursAt(s, p, j) <==> OccursAt(s[1..], p, j - 1)
    {
      if j + |p| <= |s| {
        assert s[1..][j - 1..j - 1 + |p|] == s[j..j + |p|];
      }
    }
  }

  /** An occurrence with none before it is what `Find` returns. */
  lemma FindIsFirst(s: string, p: string, i: nat)
    requires OccursAt(s, p, i)
    requires forall j :: 0 <= j < i ==> !OccursAt(s, p, j)
    ensures Find(s, p) == Some(i)
  {
  }

  /** `Find` of one character: the first position holding it, or none when it does not occur. */
  lemma FindChar(s: string, c: char)
    ensures Find(s, [c]).None? ==> forall j :: 0 <= j < |s| ==> s[j] != c
    ensures Find(s, [c]).Some? ==> Find(s, [c]).value < |s| && s[Find(s, [c]).value] == c
    ensures Find(s, [c]).Some? ==> forall j :: 0 <= j < Find(s, [c]).value ==> s[j] != c
  {
    var r := Find(s, [c]);
    if r.Some? {
      assert OccursAt(s, [c], r.value);
      assert s[r.value..r.value + 1] == [c];
      forall j | 0 <= j < r.value
        ensures s[j] != c
      {
        assert !OccursAt(s, [c], j);
        assert s[j..j + 1] == [s[j]];
      }
    } else {
      forall j | 0 <= j < |s|
        ensures s[j] != c
      {
        assert !OccursAt(s, [c], j);
        assert s[j..j + 1] == [s[j]];
      }
    }
  }

  /** `str::contains(p)`. */
  predicate Contains(s: string, p: string) {
    Find(s, p).Some?
  }

  lemma ContainsIff(s: string, p: string)
    ensures Contains(s, p) <==> exists j :: OccursAt(s, p, j)
  {
    if Contains(s, p) {
      assert OccursAt(s, p, Find(s, p).value);
    }
  }

  /** `str::rfind(c)`: the last position holding `c`. */
  function RFindChar(s: string, c: char): (r: Option<nat>)
    ensures r.Some? ==> r.value < |s| && s[r.value] == c
    ensures r.Some? ==> forall j :: r.value < j < |s| ==> s[j] != c
    ensures r.None? ==> c !in s
  {
    if s == [] then None
    else if s[|s| - 1] == c then Some(|s| - 1)
    else RFindChar(s[..|s| - 1], c)
  }

  /** `s.starts_with(p)` */
  predicate StartsWith(s: string, p: string) {
    |p| <= |s| && s[..|p|] == p
  }

  function Repeat(p: string, k: nat): (r: string)
    ensures |r| == k * |p|
  {
    if k == 0 then [] else p + Repeat(p, k - 1)
  }

  /** `str::trim_start_matches(p)`: drops every leading repetition of `p`. */
  function TrimStartMatches(s: string, p: string): (r: string)
    requires p != []
    ensures !StartsWith(r, p)
    ensures exists k: nat :: s == Repeat(p, k) + r
    decreases |s|
  {
    if StartsWith(s, p) then
      var r := TrimStartMatches(s[|p|..], p);
      var k: nat :| s[|p|..] == Repeat(p, k) + r;
      assert s == Repeat(p, k + 1) + r;
      r
    else
      assert s == Repeat(p, 0) + s;
      s
  }

  /** One leading copy of `p` is absorbed by `trim_start_matches(p)`. */
  lemma TrimStartMatchesPrefix(p: string, s: string)
    requires p != []
    ensures TrimStartMatches(p + s, p) == TrimStartMatches(s, p)
  {
    assert StartsWith(p + s, p);
    assert (p + s)[|p|..] == s;
  }

  // ---------------------------------------------------------------------------
  // Trimming

  function TrimStart(s: string): (r: string)
    ensures |r| <= |s| && r == s[|s| - |r|..]
    ensures r != [] ==> !IsWhitespace(r[0])
    ensures forall i :: 0 <= i < |s| - |r| ==> IsWhitespace(s[i])
  {
    if s != [] && IsWhitespace(s[0]) then TrimStart(s[1..]) else s
  }

  function TrimEnd(s: string): (r: string)
    ensures |r| <= |s| && r == s[..|r|]
    ensures r != [] ==> !IsWhitespace(r[|r| - 1])
    ensures forall i :: |r| <= i < |s| ==> IsWhitespace(s[i])
  {
    if s != [] && IsWhitespace(s[|s| - 1]) then TrimEnd(s[..|s| - 1]) else s
  }

  /** `str::trim`: no leading and no trailing whitespace, and only whitespace was removed. */
  function Trim(s: string): (r: string)
    ensures r != [] ==> !IsWhitespace(r[0]) && !IsWhitespace(r[|r| - 1])
    ensures exists i, j :: 0 <= i <= j <= |s| && r == s[i..j]
  {
    var t := TrimStart(s);
    var r := TrimEnd(t);
    assert r == s[|s| - |t|..|s| - |t| + |r|];
    r
  }

  /** Trimming a string with no whitespace in it changes nothing. */
  lemma TrimOfClean(s: string)
    requires forall i :: 0 <= i < |s| ==> !IsWhitespace(s[i])
    ensures Trim(s) == s
  {
    assert TrimStart(s) == s;
  }

  // ---------------------------------------------------------------------------
  // Splitting and joining on one separator character

  /**
   * `str::split(sep)`: the pieces between separators, empty pieces included,
   * so a string with k separators has k + 1 pieces. Defined from the end, the
   * way a left-to-right scan extends it one character at a time.
   */
  function Split(s: string, sep: char): (parts: seq<string>)
    ensures |parts| >= 1
  {
    if s == [] then [""]
    else
      var init := Split(s[..|s| - 1], sep);
      var c := s[|s| - 1];
      if c == sep then init + [""]
      else init[..|init| - 1] + [init[|init| - 1] + [c]]
  }

  /** `[..].join(sep)` */
  function Join(parts: seq<string>, sep: string): string {
    if parts == [] then ""
    else if |parts| == 1 then parts[0]
    else Join(parts[..|parts| - 1], sep) + sep + parts[|parts| - 1]
  }

  /** No piece of a split holds the separator. */
  lemma {:induction false} SplitPiecesLackSeparator(s: string, sep: char)
    ensures forall k :: 0 <= k < |Split(s, sep)| ==> sep !in Split(s, sep)[k]
  {
    if s != [] {
      SplitPiecesLackSeparator(s[..|s| - 1], sep);
    }
  }

  /** A string without the separator is a single piece. */
  lemma {:induction false} SplitWithoutSeparator(s: string, sep: char)
    requires sep !in s
    ensures Split(s, sep) == [s]
  {
    if s != [] {
      SplitWithoutSeparator(s[..|s| - 1], sep);
      assert s == s[..|s| - 1] + [s[|s| - 1]];
    }
  }

  /** One more character either starts a new piece or extends the last one. */
  function SplitExtend(init: seq<string>, c: char, sep: char): seq<string>
    requires |init| >= 1
  {
    if c == sep then init + [""] else init[..|init| - 1] + [init[|init| - 1] + [c]]
  }

  lemma SplitSnoc(x: string, c: char, sep: char)
    ensures Split(x + [c], sep) == SplitExtend(Split(x, sep), c, sep)
  {
    assert (x + [c])[..|x|] == x;
  }

  /** Splitting at one separator splits the two sides independently. */
  lemma {:induction false} SplitAtSeparator(a: string, sep: char, b: string)
    ensures Split(a + [sep] + b, sep) == Split(a, sep) + Split(b, sep)
    decreases |b|
  {
    if b == [] {
      assert a + [sep] + b == a + [sep];
      SplitSnoc(a, sep, sep);
    } else {
      var b' := b[..|b| - 1];
      var c := b[|b| - 1];
      assert a + [sep] + b == (a + [sep] + b') + [c];
      assert b == b' + [c];
      SplitAtSeparator(a, sep, b');
      SplitSnoc(a + [sep] + b', c, sep);
      SplitSnoc(b', c, sep);
      ExtendAppend(Split(a, sep), Split(b', sep), c, sep);
    }
  }

  lemma ExtendAppend(left: seq<string>, right: seq<string>, c: char, sep: char)
    requires |left| >= 1 && |right| >= 1
    ensures SplitExtend(left + right, c, sep) == left + SplitExtend(right, c, sep)
  {
    var init := left + right;
    if c != sep {
      assert init[..|init| - 1] == left + right[..|right| - 1];
      assert init[|init| - 1] == right[|right| - 1];
    }
  }

  /** Joining the pieces back with the separator restores the string: the pieces are the maximal runs. */
  lemma {:induction false} JoinSplit(s: string, sep: char)
    ensures Join(Split(s, sep), [sep]) == s
  {
    if s != [] {
      var s' := s[..|s| - 1];
      var init := Split(s', sep);
      JoinSplit(s', sep);
      var c := s[|s| - 1];
      assert s == s' + [c];
      if c == sep {
        JoinAppend(init, "", [sep]);
      } else {
        JoinExtendLast(init, c, [sep]);
      }
    }
  }

  lemma JoinAppend(parts: seq<string>, x: string, sep: string)
    requires parts != []
    ensures Join(parts + [x], sep) == Join(parts, sep) + sep + x
  {
    assert (parts + [x])[..|parts|] == parts;
  }

  lemma JoinExtendLast(parts: seq<string>, c: char, sep: string)
    requires parts != []
    ensures Join(parts[..|parts| - 1] + [parts[|parts| - 1] + [c]], sep) == Join(parts, sep) + [c]
  {
    var n := |parts|;
    var parts' := parts[..n - 1] + [parts[n - 1] + [c]];
    if n > 1 {
      assert parts'[..n - 1] == parts[..n - 1];
      calc {
        Join(parts', sep);
        Join(parts[..n - 1], sep) + sep + (parts[n - 1] + [c]);
        (Join(parts[..n - 1], sep) + sep + parts[n - 1]) + [c];
      }
    }
  }

  // ---------------------------------------------------------------------------
  // Decimal numbers

  function DigitChar(d: nat): (c: char)
    requires d < 10
    ensures IsDigit(c)
  {
    ('0' as int + d) as char
  }

  function DigitValue(c: char): (d: nat)
    requires IsDigit(c)
    ensures d < 10
  {
    c as int - '0' as int
  }

  predicate AllDigits(s: string) {
    forall i :: 0 <= i < |s| ==> IsDigit(s[i])
  }

  /** `Display` of an unsigned integer: decimal digits without leading zeros. */
  function NatToString(n: nat): (s: string)
    ensures |s| >= 1 && AllDigits(s)
    ensures |s| > 1 ==> s[0] != '0'
  {
    if n < 10 then [DigitChar(n)] else NatToString(n / 10) + [DigitChar(n % 10)]
  }

  /** `Display` of a signed integer. */
  function IntToString(n: int): string {
    if n < 0 then "-" + NatToString(-n) else NatToString(n)
  }

  /** The value of a string of decimal digits. */
  function DecimalValue(s: string): nat
    requires AllDigits(s)
  {
    if s == [] then 0 else DecimalValue(s[..|s| - 1]) * 10 + DigitValue(s[|s| - 1])
  }

  /** Reading back what `NatToString` printed gives the number. */
  lemma {:induction false} DecimalValueOfNatToString(n: nat)
    ensures DecimalValue(NatToString(n)) == n
  {
    if n >= 10 {
      DecimalValueOfNatToString(n / 10);
      var s := NatToString(n);
      assert s[..|s| - 1] == NatToString(n / 10);
    }
  }

  /**
   * `str::parse::<u32>()`: one optional leading '+', then at least one ASCII
   * digit and nothing else, with a value below 2^32.
   */
  function ParseU32(s: string): (r: Option<U32>)
    ensures r.Some? ==> exists i :: 0 <= i <= 1 && i < |s| && AllDigits(s[i..]) && r.value == DecimalValue(s[i..])
  {
    if s == [] then None
    else
      var i := if s[0] == '+' then 1 else 0;
      var digits := s[i..];
      if digits == [] || !AllDigits(digits) then None
      else
        var v := DecimalValue(digits);
        if v < U32_LIMIT then Some(v) else None
  }

  /** Parsing what was printed gives the number back. */
  lemma ParseU32OfNatToString(n: U32)
    ensures ParseU32(NatToString(n)) == Some(n)
  {
    DecimalValueOfNatToString(n);
  }

  // ---------------------------------------------------------------------------
  // Debug quoting (`{:?}`) of chars and strings

  /** A lowercase hex digit. */
  function LowerDigit(d: nat): (c: char)
    requires d < 16
    ensures 0x30 <= c as int < 0x80
  {
    if d < 10 then ('0' as int + d) as char else ('a' as int + d - 10) as char
  }

  /** The lowercase hex of a byte-sized number without leading zeros, as `{:x}` writes it. */
  function ShortHex(n: nat): (s: string)
    requires n < 256
    ensures 1 <= |s| <= 2
    ensures forall i :: 0 <= i < |s| ==> 0x30 <= s[i] as int < 0x80
  {
    if n < 16 then [LowerDigit(n)] else [LowerDigit(n / 16), LowerDigit(n % 16)]
  }

  /** The characters `{:?}` never writes raw: the C0 controls, DEL and the C1 controls. */
  predicate IsControl(c: char) {
    c as int < 0x20 || 0x7F <= c as int < 0xA0
  }

  /**
   * `char::escape_debug`: a backslash escape for NUL, tab, CR, LF, the
   * backslash and the enclosing quote, `\u{..}` in lowercase hex for every
   * other control character, and the character itself otherwise.
   */
  function EscapeDebug(c: char, inString: bool): (r: string)
    ensures |r| >= 1
    ensures NoControl(r)
    ensures !IsControl(c) && c != '\\' && c != (if inString then '"' else '\'') ==> r == [c]
  {
    if c == '\0' then "\\0"
    else if c == '\t' then "\\t"
    else if c == '\r' then "\\r"
    else if c == '\n' then "\\n"
    else if c == '\\' then "\\\\"
    else if c == '"' && inString then "\\\""
    else if c == '\'' && !inString then "\\'"
    else if IsControl(c) then "\\u{" + ShortHex(c as int) + "}"
    else [c]
  }

  /** A string's characters escaped as inside `{:?}` quotes; no control character survives. */
  function EscapeDebugString(s: string): (r: string)
    ensures NoControl(r)
  {
    if s == [] then "" else EscapeDebugString(s[..|s| - 1]) + EscapeDebug(s[|s| - 1], true)
  }

  predicate NoControl(s: string) {
    forall i :: 0 <= i < |s| ==> !IsControl(s[i])
  }

  lemma NoControlAppend(a: string, b: string)
    requires NoControl(a) && NoControl(b)
    ensures NoControl(a + b)
  {
    assert forall i :: |a| <= i < |a + b| ==> (a + b)[i] == b[i - |a|];
  }

  /** `format!("{:?}", s)` for a string. */
  function DebugString(s: string): (r: string)
    ensures NoControl(r)
  {
    "\"" + EscapeDebugString(s) + "\""
  }

  /** `format!("{:?}", c)` for a char. */
  function DebugChar(c: char): (r: string)
    ensures NoControl(r)
  {
    "'" + EscapeDebug(c, false) + "'"
  }

  /** Joining pieces free of control characters with such a separator gives none either. */
  lemma {:induction false} JoinNoControl(parts: seq<string>, sep: string)
    requires forall k :: 0 <= k < |parts| ==> NoControl(parts[k])
    requires NoControl(sep)
    ensures NoControl(Join(parts, sep))
  {
    if |parts| > 1 {
      JoinNoControl(parts[..|parts| - 1], sep);
      NoControlAppend(Join(parts[..|parts| - 1], sep), sep);
      NoControlAppend(Join(parts[..|parts| - 1], sep) + sep, parts[|parts| - 1]);
    }
  }

  /** `format!("{:?}", v)` for a `Vec<String>`. */
  function DebugStringList(v: seq<string>): (r: string)
    ensures NoControl(r)
  {
    var items := seq(|v|, i requires 0 <= i < |v| => DebugString(v[i]));
    JoinNoControl(items, ", ");
    "[" + Join(items, ", ") + "]"
  }

  // ---------------------------------------------------------------------------
  // UTF-8: `str::as_bytes` and `str::len`

  function Utf8Char(c: char): (bs: seq<Byte>)
    ensures 1 <= |bs| <= 4
    ensures |bs| == 1 <==> c as int < 0x80
    ensures |bs| == 1 ==> bs[0] == c as int
  {
    var cp := c as int;
    if cp < 0x80 then [cp]
    else if cp < 0x800 then [0xC0 + cp / 64, 0x80 + cp % 64]
    else if cp < 0x1_0000 then [0xE0 + cp / 4096, 0x80 + (cp / 64) % 64, 0x80 + cp % 64]
    else [0xF0 + cp / 262144, 0x80 + (cp / 4096) % 64, 0x80 + (cp / 64) % 64, 0x80 + cp % 64]
  }

  /** The UTF-8 bytes of a string. */
  function Utf8(s: string): (bs: seq<Byte>) {
    if s == [] then [] else Utf8(s[..|s| - 1]) + Utf8Char(s[|s| - 1])
  }

  /** Every character takes one to four bytes. */
  lemma {:induction false} Utf8Length(s: string)
    ensures |s| <= |Utf8(s)| <= 4 * |s|
  {
    if s != [] {
      Utf8Length(s[..|s| - 1]);
    }
  }

  predicate IsAscii(s: string) {
    forall i :: 0 <= i < |s| ==> s[i] as int < 0x80
  }

  /** On ASCII text the UTF-8 bytes are the character codes, one per character. */
  lemma {:induction false} Utf8OfAscii(s: string)
    requires IsAscii(s)
    ensures |Utf8(s)| == |s|
    ensures forall i :: 0 <= i < |s| ==> Utf8(s)[i] == s[i] as int
  {
    if s != [] {
      Utf8OfAscii(s[..|s| - 1]);
    }
  }

  lemma {:induction false} Utf8Append(a: string, b: string)
    ensures Utf8(a + b) == Utf8(a) + Utf8(b)
    decreases |b|
  {
    if b == [] {
      assert a + b == a;
    } else {
      var b', c := b[..|b| - 1], b[|b| - 1];
      Utf8Append(a, b');
      SplitLastOfAppend(a, b);
      Utf8Snoc(a + b', c);
      Utf8Snoc(b', c);
      AppendLast(Utf8(a), Utf8(b'), Utf8Char(c));
    }
  }

  lemma AppendLast(x: seq<Byte>, y: seq<Byte>, z: seq<Byte>)
    ensures (x + y) + z == x + (y + z)
  {
  }

  lemma SplitLastOfAppend(a: string, b: string)
    requires b != []
    ensures a + b == (a + b[..|b| - 1]) + [b[|b| - 1]]
    ensures b == b[..|b| - 1] + [b[|b| - 1]]
  {
  }

  lemma Utf8Snoc(s: string, c: char)
    ensures Utf8(s + [c]) == Utf8(s) + Utf8Char(c)
  {
    assert (s + [c])[..|s|] == s;
  }
}
