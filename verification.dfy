/**
 * From a TLSNotary presentation to payment fields: the server allow-list, the
 * split of the received HTTP text into headers and body, the JSON slice or the
 * visible runs of a redacted body, and the prioritised lookups in the JSON tree.
 *
 * Deserialising and cryptographically verifying the presentation, decoding the
 * received bytes as UTF-8 (lossily), parsing JSON text, the `f64` amount
 * conversion and the regex amount scanner are function parameters.
 */
module Verification {
  import opened Wrappers
  import opened Bytes
  import opened Text
  import opened Json
  import opened Errors

  // ---------------------------------------------------------------------------
  // Server allow-list

  /** `allowed_servers.iter().any(|s| server_name.contains(s))` */
  predicate ServerAllowed(serverName: string, allowed: seq<string>) {
    exists i :: 0 <= i < |allowed| && Contains(serverName, allowed[i])
  }

  /**
   * The server passes exactly when some allowed entry occurs somewhere in its
   * name; so a name that merely embeds an allowed entry passes too, and an
   * empty list admits nothing.
   */
  lemma ServerAllowedIff(serverName: string, allowed: seq<string>)
    ensures ServerAllowed(serverName, allowed) <==>
              exists i, j :: 0 <= i < |allowed| && OccursAt(serverName, allowed[i], j)
    ensures allowed == [] ==> !ServerAllowed(serverName, allowed)
  {
    if ServerAllowed(serverName, allowed) {
      var i :| 0 <= i < |allowed| && Contains(serverName, allowed[i]);
      ContainsIff(serverName, allowed[i]);
    }
    if exists i, j :: 0 <= i < |allowed| && OccursAt(serverName, allowed[i], j) {
      var i, j :| 0 <= i < |allowed| && OccursAt(serverName, allowed[i], j);
      ContainsIff(serverName, allowed[i]);
    }
  }

  /** A host name that only embeds an allowed entry, such as "<entry>.example", is admitted. */
  lemma EmbeddingNameAdmitted(entry: string, prefix: string, suffix: string, allowed: seq<string>)
    requires entry in allowed
    ensures ServerAllowed(prefix + entry + suffix, allowed)
  {
    var name := prefix + entry + suffix;
    assert name[|prefix|..|prefix| + |entry|] == entry;
    assert OccursAt(name, entry, |prefix|);
    var i :| 0 <= i < |allowed| && allowed[i] == entry;
    ContainsIff(name, entry);
  }

  // ---------------------------------------------------------------------------
  // Headers and body

  /** Where the body starts: after the first blank line written "\r\n\r\n", failing that "\n\n". */
  function BodyStart(response: string): (r: Option<nat>)
    ensures r.Some? ==> r.value <= |response|
    ensures (exists i :: OccursAt(response, "\r\n\r\n", i)) ==>
              && r.Some? && r.value >= 4 && OccursAt(response, "\r\n\r\n", r.value - 4)
              && forall j :: 0 <= j < r.value - 4 ==> !OccursAt(response, "\r\n\r\n", j)
    ensures (forall i :: !OccursAt(response, "\r\n\r\n", i)) && (exists i :: OccursAt(response, "\n\n", i)) ==>
              && r.Some? && r.value >= 2 && OccursAt(response, "\n\n", r.value - 2)
              && forall j :: 0 <= j < r.value - 2 ==> !OccursAt(response, "\n\n", j)
    ensures r.None? <==> (forall i :: !OccursAt(response, "\r\n\r\n", i)) && (forall i :: !OccursAt(response, "\n\n", i))
  {
    match Find(response, "\r\n\r\n")
    case Some(i) => Some(i + 4)
    case None =>
      match Find(response, "\n\n")
      case Some(i) => Some(i + 2)
      case None => None
  }

  /** The slice from the first '{' to the last '}' after it, if both exist. */
  function BracedSlice(body: string): (r: Option<string>)
    ensures r.Some? ==> exists a :: 0 <= a && a + |r.value| <= |body| && r.value == body[a..a + |r.value|]
                                     && '{' !in body[..a] && '}' !in body[a + |r.value|..]
    ensures r.Some? ==> |r.value| >= 2 && r.value[0] == '{' && r.value[|r.value| - 1] == '}'
    ensures r.Some? <==> exists a, b :: 0 <= a < b < |body| && body[a] == '{' && body[b] == '}'
  {
    FindChar(body, '{');
    match Find(body, "{")
    case None => None
    case Some(a) =>
      match RFindChar(body[a..], '}')
      case None =>
        NoCloseAfter(body, a);
        None
      case Some(k) =>
        BracedSliceAt(body, a, k);
        Some(body[a..a + k + 1])
  }

  /** No '}' in `body[a..]` means none at or after position `a`. */
  lemma NoCloseAfter(body: string, a: nat)
    requires a <= |body| && RFindChar(body[a..], '}').None?
    ensures forall b :: a <= b < |body| ==> body[b] != '}'
  {
    forall b | a <= b < |body|
      ensures body[b] != '}'
    {
      assert body[a..][b - a] == body[b];
    }
  }

  /** The slice from a first '{' at `a` to the last '}', found at `k` in `body[a..]`. */
  lemma BracedSliceAt(body: string, a: nat, k: nat)
    requires a < |body| && body[a] == '{' && forall j :: 0 <= j < a ==> body[j] != '{'
    requires RFindChar(body[a..], '}') == Some(k)
    ensures a + k < |body| && k != 0
    ensures body[a..a + k + 1][0] == '{' && body[a..a + k + 1][k] == '}'
    ensures '{' !in body[..a] && '}' !in body[a + k + 1..]
  {
    var tail := body[a..];
    assert tail[k] == body[a + k];
    assert '}' !in body[a + k + 1..] by {
      forall j | a + k + 1 <= j < |body|
        ensures body[j] != '}'
      {
        assert tail[j - a] == body[j];
      }
    }
  }

  /** The text of the redaction sentinel that `set_unauthed(b'X')` writes over undisclosed bytes. */
  const REDACTED: char := 'X'

  /** `extract_json_body` */
  function ExtractJsonBody(response: string): (r: Result<string, AttestationError>)
    ensures BodyStart(response).None? ==> r == Err(InvalidPaymentData("Could not find response body"))
    ensures BodyStart(response).Some? && BracedSlice(response[BodyStart(response).value..]).Some? ==>
              r == Ok(BracedSlice(response[BodyStart(response).value..]).value)
    ensures BodyStart(response).Some? && BracedSlice(response[BodyStart(response).value..]).None? ==>
              var visible := VisibleContent(response[BodyStart(response).value..]);
              r == if visible == [] then Err(InvalidPaymentData("No visible content in response body"))
                   else Ok(VisibleWrapper(visible))
    ensures r.Ok? ==> |r.value| >= 2 && r.value[0] == '{' && r.value[|r.value| - 1] == '}'
    ensures r.Err? ==> r.error.InvalidPaymentData?
  {
    match BodyStart(response)
    case None => Err(InvalidPaymentData("Could not find response body"))
    case Some(start) =>
      var body := response[start..];
      match BracedSlice(body)
      case Some(json) => Ok(json)
      case None =>
        var visible := VisibleContent(body);
        if visible == [] then Err(InvalidPaymentData("No visible content in response body"))
        else Ok(VisibleWrapper(visible))
  }

  /** A '\r' that opens "\r\n\r\n" has a '\r' two places on. */
  lemma BlankLineShape(s: string, j: nat)
    ensures OccursAt(s, "\r\n\r\n", j) ==> j + 2 < |s| && s[j] == '\r' && s[j + 2] == '\r'
  {
    if OccursAt(s, "\r\n\r\n", j) {
      assert s[j..j + 4][0] == s[j];
      assert s[j..j + 4][2] == s[j + 2];
    }
  }

  /**
   * The sample exchange: a status line, one header, a blank line and a JSON
   * body; the slice returned is the whole body.
   */
  lemma SampleResponseBody()
    ensures var head := "HTTP/1.1 200 OK";
            var header := "Content-Type: application/json";
            var json := "{\"test\": \"value\"}";
            ExtractJsonBody(head + "\r\n" + header + "\r\n\r\n" + json) == Ok(json)
  {
    var head := "HTTP/1.1 200 OK";
    var header := "Content-Type: application/json";
    var json := "{\"test\": \"value\"}";
    var response := head + "\r\n" + header + "\r\n\r\n" + json;
    var sep := "\r\n\r\n";
    var at := |head| + 2 + |header|;
    assert '\r' !in head && '\r' !in header;
    assert header[0] == 'C';
    assert response[at..at + 4] == sep;
    forall j | 0 <= j < at
      ensures !OccursAt(response, sep, j)
    {
      BlankLineShape(response, j);
      if j < |head| {
        assert response[j] == head[j];
      } else if j == |head| {
        assert response[j + 2] == header[0];
      } else if j == |head| + 1 {
        assert response[j] == '\n';
      } else {
        assert response[j] == header[j - |head| - 2];
      }
    }
    FindIsFirst(response, sep, at);
    assert BodyStart(response) == Some(at + 4);
    assert response[at + 4..] == json;
    assert OccursAt(json, "{", 0);
    FindIsFirst(json, "{", 0);
    assert json[..|json|] == json;
    assert RFindChar(json, '}') == Some(|json| - 1);
  }

  /** `format!("{{\"_visible_content\": {:?}}}", visible)` */
  function VisibleWrapper(visible: seq<string>): (r: string)
    ensures |r| >= 2 && r[0] == '{' && r[|r| - 1] == '}'
    ensures NoControl(r)
  {
    var list := DebugStringList(visible);
    NoControlAppend("{\"_visible_content\": ", list);
    NoControlAppend("{\"_visible_content\": " + list, "}");
    "{\"_visible_content\": " + list + "}"
  }

  // ---------------------------------------------------------------------------
  // Visible runs of a redacted body

  /** The non-empty pieces, in order. */
  function NonEmpty(parts: seq<string>): (r: seq<string>)
    ensures forall k :: 0 <= k < |r| ==> r[k] != [] && r[k] in parts
  {
    if parts == [] then []
    else
      var init := NonEmpty(parts[..|parts| - 1]);
      var last := parts[|parts| - 1];
      if last == [] then init else init + [last]
  }

  predicate HasAlphanumeric(s: string) {
    exists i :: 0 <= i < |s| && IsAsciiAlphanumeric(s[i])
  }

  /** The filter: at least three UTF-8 bytes and at least one alphanumeric character. */
  predicate WorthKeeping(run: string) {
    |Utf8(run)| >= 3 && HasAlphanumeric(run)
  }

  function KeepWorthKeeping(runs: seq<string>): (r: seq<string>)
    ensures forall k :: 0 <= k < |r| ==> WorthKeeping(r[k]) && r[k] in runs
  {
    if runs == [] then []
    else
      var init := KeepWorthKeeping(runs[..|runs| - 1]);
      var last := runs[|runs| - 1];
      if WorthKeeping(last) then init + [last] else init
  }

  /** The maximal runs of text between redaction sentinels, empty ones dropped. */
  function VisibleRuns(body: string): seq<string> {
    NonEmpty(Split(body, REDACTED))
  }

  /** `extract_visible_content`, as a specification: the runs that survive the noise filter. */
  function VisibleContent(body: string): seq<string> {
    KeepWorthKeeping(VisibleRuns(body))
  }

  /** Every run returned is free of the sentinel, non-empty, at least 3 bytes long and holds an alphanumeric. */
  lemma VisibleContentPieces(body: string)
    ensures forall k :: 0 <= k < |VisibleContent(body)| ==>
              var run := VisibleContent(body)[k];
              run != [] && REDACTED !in run && |Utf8(run)| >= 3 && HasAlphanumeric(run)
  {
    SplitPiecesLackSeparator(body, REDACTED);
    var runs := VisibleRuns(body);
    forall k | 0 <= k < |VisibleContent(body)|
      ensures VisibleContent(body)[k] != [] && REDACTED !in VisibleContent(body)[k]
    {
      var run := VisibleContent(body)[k];
      assert run in runs;
      var parts := Split(body, REDACTED);
      assert run in parts;
    }
  }

  function Concat(parts: seq<string>): string {
    if parts == [] then "" else Concat(parts[..|parts| - 1]) + parts[|parts| - 1]
  }

  function RemoveRedacted(s: string): string {
    if s == [] then ""
    else RemoveRedacted(s[..|s| - 1]) + (if s[|s| - 1] == REDACTED then "" else [s[|s| - 1]])
  }

  lemma ConcatAppend(parts: seq<string>, x: string)
    ensures Concat(parts + [x]) == Concat(parts) + x
  {
    assert (parts + [x])[..|parts|] == parts;
  }

  /** Concat of NonEmpty is concat of everything. */
  lemma {:induction false} ConcatNonEmpty(parts: seq<string>)
    ensures Concat(NonEmpty(parts)) == Concat(parts)
  {
    if parts != [] {
      var init := parts[..|parts| - 1];
      ConcatNonEmpty(init);
      var last := parts[|parts| - 1];
      assert parts == init + [last];
      ConcatAppend(init, last);
      if last != [] {
        ConcatAppend(NonEmpty(init), last);
      }
    }
  }

  /** Glued together, the runs are the body with every sentinel removed: nothing visible is lost. */
  lemma {:induction false} VisibleRunsCoverBody(body: string)
    ensures Concat(VisibleRuns(body)) == RemoveRedacted(body)
  {
    ConcatNonEmpty(Split(body, REDACTED));
    SplitConcat(body);
  }

  lemma {:induction false} SplitConcat(s: string)
    ensures Concat(Split(s, REDACTED)) == RemoveRedacted(s)
  {
    if s != [] {
      var s' := s[..|s| - 1];
      var c := s[|s| - 1];
      SplitConcat(s');
      var init := Split(s', REDACTED);
      if c == REDACTED {
        ConcatAppend(init, "");
      } else {
        var n := |init|;
        assert init == init[..n - 1] + [init[n - 1]];
        ConcatAppend(init[..n - 1], init[n - 1]);
        ConcatAppend(init[..n - 1], init[n - 1] + [c]);
      }
    }
  }

  /**
   * `extract_visible_content` as the source runs it: one pass over the
   * characters growing `current` and pushing it at each sentinel, then the filter.
   */
  /**
   * The state of the scan after `prefix`: `current` is the run still open and
   * `parts` the non-empty runs already closed.
   */
  ghost predicate ScanState(prefix: string, current: string, parts: seq<string>) {
    var pieces := Split(prefix, REDACTED);
    current == pieces[|pieces| - 1] && parts == NonEmpty(pieces[..|pieces| - 1])
  }

  /** A sentinel closes the open run (kept when non-empty); any other character extends it. */
  lemma ScanStep(body: string, i: nat, current: string, parts: seq<string>)
    requires i < |body| && ScanState(body[..i], current, parts)
    ensures body[i] == REDACTED ==> ScanState(body[..i + 1], "", if current != [] then parts + [current] else parts)
    ensures body[i] != REDACTED ==> ScanState(body[..i + 1], current + [body[i]], parts)
  {
    var pieces := Split(body[..i], REDACTED);
    assert body[..i + 1] == body[..i] + [body[i]];
    SplitSnoc(body[..i], body[i], REDACTED);
    if body[i] == REDACTED {
      var next := pieces + [""];
      assert next[..|next| - 1] == pieces;
      assert pieces == pieces[..|pieces| - 1] + [current];
    }
  }

  /** Closing the open run at the end of the body yields all its visible runs. */
  lemma ScanEnd(body: string, current: string, parts: seq<string>)
    requires ScanState(body, current, parts)
    ensures (if current != [] then parts + [current] else parts) == VisibleRuns(body)
  {
    var pieces := Split(body, REDACTED);
    assert pieces == pieces[..|pieces| - 1] + [current];
  }

  method ExtractVisibleContent(body: string) returns (visible: seq<string>)
    ensures visible == VisibleContent(body)
  {
    var parts: seq<string> := [];
    var current: string := "";
    var i := 0;
    while i < |body|
      invariant 0 <= i <= |body|
      invariant ScanState(body[..i], current, parts)
    {
      var c := body[i];
      ScanStep(body, i, current, parts);
      if c == REDACTED {
        if current != [] {
          parts := parts + [current];
        }
        current := "";
      } else {
        current := current + [c];
      }
      i := i + 1;
    }
    assert body[..i] == body;
    ScanEnd(body, current, parts);
    if current != [] {
      parts := parts + [current];
    }
    visible := KeepWorthKeeping(parts);
  }

  // ---------------------------------------------------------------------------
  // Fallback scanners for text that is not JSON

  /** The first position at or after `from` where `m` holds. */
  function FirstWhere(n: nat, from: nat, m: nat -> bool): (r: Option<nat>)
    requires from <= n
    ensures r.Some? ==> from <= r.value < n && m(r.value)
    ensures forall k :: from <= k < n && (r.None? || k < r.value) ==> !m(k)
    decreases n - from
  {
    if from == n then None
    else if m(from) then Some(from)
    else FirstWhere(n, from + 1, m)
  }

  predicate IsLowerHex(c: char) { '0' <= c <= '9' || 'a' <= c <= 'f' }
  predicate IsUpperLetter(c: char) { 'A' <= c <= 'Z' }
  predicate IsUpperOrDigit(c: char) { IsUpperLetter(c) || IsDigit(c) }

  const UUID_LENGTH: nat := 36

  /** `[0-9a-f]{8}-[0-9a-f]{4}-[0-9a-f]{4}-[0-9a-f]{4}-[0-9a-f]{12}` matched by the whole of `t`. */
  predicate UuidShape(t: string) {
    |t| == UUID_LENGTH &&
    forall k :: 0 <= k < |t| ==>
      if k == 8 || k == 13 || k == 18 || k == 23 then t[k] == '-' else IsLowerHex(t[k])
  }

  predicate UuidAt(s: string, i: nat) {
    i + UUID_LENGTH <= |s| && UuidShape(s[i..i + UUID_LENGTH])
  }

  /** `extract_uuid`: the leftmost match of the lower-case UUID pattern. */
  function ExtractUuid(s: string): (r: Option<string>)
    ensures r.Some? ==> UuidShape(r.value)
    ensures r.Some? ==> exists i: nat :: UuidAt(s, i) && r.value == s[i..i + UUID_LENGTH]
                                        && forall j: nat :: j < i ==> !UuidAt(s, j)
    ensures r.None? ==> forall i: nat :: i <= |s| ==> !UuidAt(s, i)
  {
    var m := (i: nat) => UuidAt(s, i);
    var first := FirstWhere(|s| + 1, 0, m);
    assert forall k: nat :: m(k) == UuidAt(s, k);
    match first
    case None => None
    case Some(i) => Some(s[i..i + UUID_LENGTH])
  }

  /** The shortest text `[A-Z]{2}[0-9]{2}[A-Z0-9]{10,28}` accepts. */
  const IBAN_HEAD: nat := 14
  /** The longest. */
  const IBAN_MAX: nat := 32

  predicate IbanHead(t: string) {
    |t| == IBAN_HEAD && IsUpperLetter(t[0]) && IsUpperLetter(t[1]) && IsDigit(t[2]) && IsDigit(t[3]) &&
    forall k :: 4 <= k < |t| ==> IsUpperOrDigit(t[k])
  }

  predicate IbanStartsAt(s: string, i: nat) {
    i + IBAN_HEAD <= |s| && IbanHead(s[i..i + IBAN_HEAD])
  }

  /** How far the run of `[A-Z0-9]` from `i` extends, stopping at `limit`. */
  function UpperDigitRunEnd(s: string, i: nat, limit: nat): (e: nat)
    requires i <= limit <= |s|
    ensures i <= e <= limit
    ensures forall k :: i <= k < e ==> IsUpperOrDigit(s[k])
    ensures e < limit ==> !IsUpperOrDigit(s[e])
    decreases limit - i
  {
    if i == limit || !IsUpperOrDigit(s[i]) then i else UpperDigitRunEnd(s, i + 1, limit)
  }

  function Min(a: nat, b: nat): nat { if a <= b then a else b }

  /**
   * Where the greedy match starting at `i` ends: the run of `[A-Z0-9]` after the
   * head goes on until a character outside the class, the end of the text, or
   * 28 characters.
   */
  function IbanMatchEnd(s: string, i: nat): (e: nat)
    requires IbanStartsAt(s, i)
    ensures i + IBAN_HEAD <= e <= |s| && e <= i + IBAN_MAX
    ensures forall k :: i + 4 <= k < e ==> IsUpperOrDigit(s[k])
    ensures e == |s| || e == i + IBAN_MAX || !IsUpperOrDigit(s[e])
  {
    var limit := Min(i + IBAN_MAX, |s|);
    assert forall k :: i + 4 <= k < i + IBAN_HEAD ==> IsUpperOrDigit(s[k]) by {
      forall k | i + 4 <= k < i + IBAN_HEAD
        ensures IsUpperOrDigit(s[k])
      {
        assert s[i..i + IBAN_HEAD][k - i] == s[k];
      }
    }
    UpperDigitRunEnd(s, i + IBAN_HEAD, limit)
  }

  /** `extract_iban`: the greedy match from the leftmost position where the pattern can start. */
  function ExtractIban(s: string): (r: Option<string>)
    ensures r.Some? ==> exists i: nat :: IbanStartsAt(s, i) && (forall j: nat :: j < i ==> !IbanStartsAt(s, j))
                                        && r.value == s[i..IbanMatchEnd(s, i)]
    ensures r.None? ==> forall i: nat :: i <= |s| ==> !IbanStartsAt(s, i)
  {
    var m := (i: nat) => IbanStartsAt(s, i);
    var first := FirstWhere(|s| + 1, 0, m);
    assert forall k: nat :: m(k) == IbanStartsAt(s, k);
    match first
    case None => None
    case Some(i) => Some(s[i..IbanMatchEnd(s, i)])
  }

  /** What is returned has the shape the pattern describes: 14 to 32 letters and digits, two letters and two digits first. */
  lemma ExtractIbanShape(s: string)
    ensures var r := ExtractIban(s);
            r.Some? ==> IBAN_HEAD <= |r.value| <= IBAN_MAX && IbanHead(r.value[..IBAN_HEAD])
                        && forall k :: 4 <= k < |r.value| ==> IsUpperOrDigit(r.value[k])
  {
    var r := ExtractIban(s);
    if r.Some? {
      var i: nat :| IbanStartsAt(s, i) && r.value == s[i..IbanMatchEnd(s, i)];
      IbanMatchShape(s, i);
    }
  }

  lemma IbanMatchShape(s: string, i: nat)
    requires IbanStartsAt(s, i)
    ensures var t := s[i..IbanMatchEnd(s, i)];
            IBAN_HEAD <= |t| <= IBAN_MAX && IbanHead(t[..IBAN_HEAD])
            && forall k :: 4 <= k < |t| ==> IsUpperOrDigit(t[k])
  {
    var e := IbanMatchEnd(s, i);
    var t := s[i..e];
    assert t[..IBAN_HEAD] == s[i..i + IBAN_HEAD];
    forall k | 4 <= k < |t|
      ensures IsUpperOrDigit(t[k])
    {
      assert t[k] == s[i + k];
    }
  }

  /** `\d+\.?\d{0,2}` from position `i`: all the digits, an optional point, then at most two digits. */
  function AmountMatchEnd(s: string, i: nat): (e: nat)
    requires i <= |s|
    ensures i <= e <= |s|
  {
    var digits := DigitRunEnd(s, i);
    var afterPoint := if digits < |s| && s[digits] == '.' then digits + 1 else digits;
    DigitRunEnd2(s, afterPoint)
  }

  function DigitRunEnd(s: string, i: nat): (e: nat)
    requires i <= |s|
    ensures i <= e <= |s|
    ensures forall k :: i <= k < e ==> IsDigit(s[k])
    ensures e < |s| ==> !IsDigit(s[e])
    decreases |s| - i
  {
    if i == |s| || !IsDigit(s[i]) then i else DigitRunEnd(s, i + 1)
  }

  /** At most two more digits. */
  function DigitRunEnd2(s: string, i: nat): (e: nat)
    requires i <= |s|
    ensures i <= e <= |s| && e <= i + 2
    ensures forall k :: i <= k < e ==> IsDigit(s[k])
  {
    if i < |s| && IsDigit(s[i]) then
      if i + 1 < |s| && IsDigit(s[i + 1]) then i + 2 else i + 1
    else i
  }

  /** Whether position `i` of `s` holds a digit. */
  function DigitAt(s: string): (m: nat -> bool)
    ensures forall i: nat :: m(i) == (i < |s| && IsDigit(s[i]))
  {
    (i: nat) => i < |s| && IsDigit(s[i])
  }

  /**
   * `extract_amount`: the leftmost amount-looking text; without a point it is
   * read as whole cents (nothing when it overflows an `i64`); with one it goes
   * through the floating-point conversion, here the parameter `decimalCents`.
   */
  function ExtractAmount(s: string, decimalCents: string -> Option<I64>): (r: Option<I64>)
    ensures (forall k :: 0 <= k < |s| ==> !IsDigit(s[k])) ==> r.None?
  {
    var first := FirstWhere(|s|, 0, DigitAt(s));
    match first
    case None => None
    case Some(i) =>
      var text := s[i..AmountMatchEnd(s, i)];
      if '.' in text then decimalCents(text)
      else if DecimalValue(text) <= I64_MAX then Some(DecimalValue(text))
      else None
  }

  /**
   * A whole number of cents written in decimal, with no digit before it and
   * neither a digit nor a point after it, is read back exactly.
   */
  lemma ExtractAmountWholeCents(prefix: string, n: I64, suffix: string, decimalCents: string -> Option<I64>)
    requires n >= 0
    requires forall k :: 0 <= k < |prefix| ==> !IsDigit(prefix[k])
    requires suffix != [] ==> !IsDigit(suffix[0]) && suffix[0] != '.'
    ensures ExtractAmount(prefix + NatToString(n) + suffix, decimalCents) == Some(n)
  {
    var digits := NatToString(n);
    var s := prefix + digits + suffix;
    FirstDigitAfterPrefix(prefix, digits, suffix);
    AmountEndsAtRun(prefix, digits, suffix);
    assert s[|prefix|..|prefix| + |digits|] == digits;
    assert '.' !in digits;
    DecimalValueOfNatToString(n);
  }

  /** The first digit of `prefix + digits + suffix` opens `digits` when `prefix` holds none. */
  lemma FirstDigitAfterPrefix(prefix: string, digits: string, suffix: string)
    requires digits != [] && IsDigit(digits[0])
    requires forall k :: 0 <= k < |prefix| ==> !IsDigit(prefix[k])
    ensures FirstWhere(|prefix + digits + suffix|, 0, DigitAt(prefix + digits + suffix)) == Some(|prefix|)
  {
    var s := prefix + digits + suffix;
    var m := DigitAt(s);
    var first := FirstWhere(|s|, 0, m);
    forall k | 0 <= k < |prefix|
      ensures !m(k)
    {
      assert s[k] == prefix[k];
    }
    assert s[|prefix|] == digits[0];
    assert m(|prefix|);
  }

  /** An amount match over a run of digits stops where the run does, when neither a digit nor a point follows. */
  lemma AmountEndsAtRun(prefix: string, digits: string, suffix: string)
    requires forall k :: 0 <= k < |digits| ==> IsDigit(digits[k])
    requires suffix != [] ==> !IsDigit(suffix[0]) && suffix[0] != '.'
    ensures AmountMatchEnd(prefix + digits + suffix, |prefix|) == |prefix| + |digits|
  {
    var s := prefix + digits + suffix;
    var i, e := |prefix|, |prefix| + |digits|;
    forall k | i <= k < e
      ensures IsDigit(s[k])
    {
      assert s[k] == digits[k - i];
    }
    assert e < |s| ==> s[e] == suffix[0];
    DigitRunSpans(s, i, e);
  }

  /** The digit run from `i` ends at the first non-digit. */
  lemma {:induction false} DigitRunSpans(s: string, i: nat, e: nat)
    requires i <= e <= |s|
    requires forall k :: i <= k < e ==> IsDigit(s[k])
    requires e < |s| ==> !IsDigit(s[e])
    ensures DigitRunEnd(s, i) == e
    decreases e - i
  {
    if i < e {
      DigitRunSpans(s, i + 1, e);
    }
  }

  // ---------------------------------------------------------------------------
  // Payment fields from the JSON tree

  datatype PaymentDetails = PaymentDetails(
    transactionId: Option<string>,
    amountCents: Option<I64>,
    beneficiaryIban: Option<string>,
    status: Option<string>)

  const NO_DETAILS := PaymentDetails(None, None, None, None)

  function AtIn(v: Option<Value>, index: nat): (r: Option<Value>)
    ensures r.Some? <==> v.Some? && v.value.At(index).Some?
  {
    match v
    case None => None
    case Some(x) => x.At(index)
  }

  function StrOf(v: Option<Value>): (r: Option<string>)
    ensures r.Some? <==> v.Some? && v.value.Str?
  {
    match v
    case None => None
    case Some(x) => x.AsStr()
  }

  /** The first present alternative of several, in order. */
  function FirstPresent(alternatives: seq<Option<Value>>): (r: Option<Value>)
    ensures r.Some? <==> exists k :: 0 <= k < |alternatives| && alternatives[k].Some?
    ensures r.Some? ==> exists k :: 0 <= k < |alternatives| && r == alternatives[k]
                                   && forall j :: 0 <= j < k ==> alternatives[j].None?
  {
    if alternatives == [] then None
    else if alternatives[0].Some? then alternatives[0]
    else
      var rest := FirstPresent(alternatives[1..]);
      assert forall k :: 1 <= k < |alternatives| ==> alternatives[k] == alternatives[1..][k - 1];
      rest
  }

  /** The transaction object: "transaction", else the first of "transactions", else "transfer". */
  function Transaction(v: Value): Option<Value> {
    FirstPresent([v.Get("transaction"), AtIn(v.Get("transactions"), 0), v.Get("transfer")])
  }

  /** `amount_cents`, else `local_amount_cents`, as an integer; else `amount` through the float conversion; zero is absence. */
  function AmountCentsOf(tx: Option<Value>, floatCents: Number -> I64): (r: Option<I64>)
    ensures r != Some(0)
  {
    var integral := OrElse(GetIn(tx, "amount_cents"), GetIn(tx, "local_amount_cents"));
    var asInt := match integral case Some(x) => x.AsI64() case None => None;
    var amount := if asInt.Some? then asInt
                  else match GetIn(tx, "amount") case Some(Num(n)) => Some(floatCents(n)) case _ => None;
    if amount == Some(0) then None else amount
  }

  /** The five places a beneficiary account may sit, in the order they are tried. */
  function IbanPaths(tx: Option<Value>): seq<Option<Value>> {
    [ GetIn(GetIn(tx, "transfer"), "counterparty_account_number"),
      GetIn(GetIn(tx, "counterparty"), "iban"),
      GetIn(GetIn(tx, "counterparty"), "account_number"),
      GetIn(GetIn(tx, "beneficiary"), "iban"),
      GetIn(tx, "beneficiary_iban") ]
  }

  /** The fields of a parsed JSON body; a body that is the wrapper of visible runs yields none. */
  function PaymentFieldsOf(v: Value, floatCents: Number -> I64): (r: PaymentDetails)
    ensures v.Get("_visible_content").Some? ==> r == NO_DETAILS
    ensures r.amountCents != Some(0)
    ensures Transaction(v).None? ==> r == NO_DETAILS
  {
    if v.Get("_visible_content").Some? then NO_DETAILS
    else
      var tx := Transaction(v);
      PaymentDetails(
        StrOf(GetIn(tx, "id")),
        AmountCentsOf(tx, floatCents),
        StrOf(FirstPresent(IbanPaths(tx))),
        StrOf(OrElse(GetIn(tx, "status"), GetIn(tx, "operation_type"))))
  }

  /**
   * `parse_payment_details`: the JSON reading when the text parses, otherwise
   * the three scanners and no status. It never fails.
   */
  function ParsePaymentDetails(json: string, parse: string -> Option<Value>, floatCents: Number -> I64,
                               decimalCents: string -> Option<I64>): (r: Result<PaymentDetails, AttestationError>)
    ensures r.Ok?
    ensures parse(json).Some? ==> r.value == PaymentFieldsOf(parse(json).value, floatCents)
    ensures parse(json).None? ==> r.value.status.None? && r.value.transactionId == ExtractUuid(json)
                                  && r.value.beneficiaryIban == ExtractIban(json)
                                  && r.value.amountCents == ExtractAmount(json, decimalCents)
  {
    match parse(json)
    case Some(v) => Ok(PaymentFieldsOf(v, floatCents))
    case None => Ok(PaymentDetails(ExtractUuid(json), ExtractAmount(json, decimalCents), ExtractIban(json), None))
  }

  /** "transaction" wins over "transactions" and "transfer" whenever it is present. */
  lemma TransactionPriority(v: Value)
    ensures v.Get("transaction").Some? ==> Transaction(v) == v.Get("transaction")
    ensures v.Get("transaction").None? && AtIn(v.Get("transactions"), 0).Some? ==>
              Transaction(v) == AtIn(v.Get("transactions"), 0)
    ensures v.Get("transaction").None? && AtIn(v.Get("transactions"), 0).None? ==>
              Transaction(v) == v.Get("transfer")
  {
    var alts := [v.Get("transaction"), AtIn(v.Get("transactions"), 0), v.Get("transfer")];
    assert alts[1..] == [alts[1], alts[2]];
    assert alts[1..][1..] == [alts[2]];
  }

  /**
   * A present `amount_cents` shadows `local_amount_cents`: when it is not an
   * `i64` the reading falls through to `amount`, never to the local amount.
   */
  lemma AmountCentsShadowing(tx: Value, floatCents: Number -> I64)
    requires tx.Get("amount_cents").Some? && tx.Get("amount_cents").value.AsI64().None?
    requires tx.Get("amount").None?
    ensures AmountCentsOf(Some(tx), floatCents).None?
  {
  }

  /** With `amount_cents` missing, an `i64` `local_amount_cents` is read, 0 counting as absent. */
  lemma LocalAmountFallback(tx: Value, floatCents: Number -> I64, local: Value)
    requires tx.Get("amount_cents").None?
    requires tx.Get("local_amount_cents") == Some(local) && local.AsI64().Some?
    ensures AmountCentsOf(Some(tx), floatCents) == if local.AsI64().value == 0 then None else local.AsI64()
  {
  }

  /** A non-string at the first present IBAN place hides a string at a later one. */
  lemma IbanShadowing(tx: Value, iban: string)
    requires tx.Get("transfer").None?
    requires tx.Get("counterparty") == Some(Object(map["iban" := Num(PosInt(0))]))
    requires tx.Get("beneficiary_iban") == Some(Str(iban))
    ensures StrOf(FirstPresent(IbanPaths(Some(tx)))).None?
  {
    var paths := IbanPaths(Some(tx));
    assert paths[0].None?;
    assert paths[1] == Some(Num(PosInt(0)));
    assert paths[1..][0] == paths[1];
  }

  /** A Qonto transaction as the bank's API returns it. */
  const SAMPLE_QONTO_TX: Value := Object(map[
    "id" := Str("tx-123"),
    "amount_cents" := Num(PosInt(10000)),
    "status" := Str("completed"),
    "counterparty" := Object(map["iban" := Str("DE89370400440532013000")])])

  lemma SampleQontoFields()
    ensures SAMPLE_QONTO_TX.Get("id") == Some(Str("tx-123"))
    ensures SAMPLE_QONTO_TX.Get("amount_cents") == Some(Num(PosInt(10000)))
    ensures SAMPLE_QONTO_TX.Get("status") == Some(Str("completed"))
  {
  }

  lemma SampleQontoAccount()
    ensures SAMPLE_QONTO_TX.Get("transfer").None?
    ensures SAMPLE_QONTO_TX.Get("counterparty") == Some(Object(map["iban" := Str("DE89370400440532013000")]))
  {
  }

  /** The sample Qonto transaction reads as tx-123, 10000 cents, DE89370400440532013000, completed. */
  lemma SampleQontoTransaction(floatCents: Number -> I64)
    ensures PaymentFieldsOf(Object(map["transaction" := SAMPLE_QONTO_TX]), floatCents)
              == PaymentDetails(Some("tx-123"), Some(10000), Some("DE89370400440532013000"), Some("completed"))
  {
    var tx := SAMPLE_QONTO_TX;
    var v := Object(map["transaction" := tx]);
    TransactionPriority(v);
    assert Transaction(v) == Some(tx);
    SampleQontoFields();
    SampleQontoAccount();
    CounterpartyIban(tx, "DE89370400440532013000");
    assert AmountCentsOf(Some(tx), floatCents) == Some(10000);
  }

  /** Without a transfer, the counterparty's IBAN is the one read. */
  lemma CounterpartyIban(tx: Value, iban: string)
    requires tx.Get("transfer").None? && tx.Get("counterparty") == Some(Object(map["iban" := Str(iban)]))
    ensures FirstPresent(IbanPaths(Some(tx))) == Some(Str(iban))
  {
    var paths := IbanPaths(Some(tx));
    assert paths[0].None?;
    assert paths[1] == Some(Str(iban));
    assert paths[1..][0] == paths[1];
  }

  // ---------------------------------------------------------------------------
  // verify_presentation

  /** What a verified presentation discloses; a transcript byte is `None` where it was not authenticated. */
  datatype PresentationOutput = PresentationOutput(
    serverName: Option<string>,
    time: U64,
    transcript: Option<seq<Option<Byte>>>)

  datatype VerifiedPayment = VerifiedPayment(
    serverName: string,
    timestamp: U64,
    responseBody: string,
    transactionId: Option<string>,
    amountCents: Option<I64>,
    beneficiaryIban: Option<string>,
    status: Option<string>)

  /** The byte `set_unauthed(b'X')` writes over every byte the prover did not disclose. */
  const REDACTED_BYTE: Byte := 0x58

  /** `set_unauthed(fill)` followed by `received_unsafe()`. */
  function SetUnauthed(received: seq<Option<Byte>>, fill: Byte): (r: seq<Byte>)
    ensures |r| == |received|
    ensures forall k :: 0 <= k < |r| ==> r[k] == (if received[k].Some? then received[k].value else fill)
  {
    seq(|received|, k requires 0 <= k < |received| => if received[k].Some? then received[k].value else fill)
  }

  /** The collaborators `verify_presentation` relies on. */
  datatype Collaborators<!P> = Collaborators(
    deserialize: seq<Byte> -> Result<P, string>,
    verify: P -> Result<PresentationOutput, string>,
    utf8Lossy: seq<Byte> -> string,
    parse: string -> Option<Value>,
    floatCents: Number -> I64,
    decimalCents: string -> Option<I64>)

  /** `verify_presentation` */
  function VerifyPresentation<P>(bytes: seq<Byte>, allowed: seq<string>, c: Collaborators<P>)
    : (r: Result<VerifiedPayment, AttestationError>)
    ensures c.deserialize(bytes).Err? ==>
              r == Err(DeserializationError("Failed to deserialize presentation: " + c.deserialize(bytes).error))
    ensures r.Ok? ==> c.deserialize(bytes).Ok? && c.verify(c.deserialize(bytes).value).Ok?
    ensures r.Ok? ==> ServerAllowed(r.value.serverName, allowed)
    ensures r.Ok? ==> var out := c.verify(c.deserialize(bytes).value).value;
                      out.serverName == Some(r.value.serverName) && out.transcript.Some?
                      && r.value.timestamp == out.time
                      && ExtractJsonBody(c.utf8Lossy(SetUnauthed(out.transcript.value, REDACTED_BYTE)))
                         == Ok(r.value.responseBody)
  {
    match c.deserialize(bytes)
    case Err(e) => Err(DeserializationError("Failed to deserialize presentation: " + e))
    case Ok(presentation) =>
      match c.verify(presentation)
      case Err(e) => Err(VerificationFailed("Presentation verification failed: " + e))
      case Ok(out) =>
        match out.serverName
        case None => Err(ServerNotFound)
        case Some(serverName) =>
          if !ServerAllowed(serverName, allowed) then
            Err(UnexpectedServer(Join(allowed, ", "), serverName))
          else
            match out.transcript
            case None => Err(TranscriptNotFound)
            case Some(received) =>
              var text := c.utf8Lossy(SetUnauthed(received, REDACTED_BYTE));
              match ExtractJsonBody(text)
              case Err(e) => Err(e)
              case Ok(body) =>
                var details := ParsePaymentDetails(body, c.parse, c.floatCents, c.decimalCents).value;
                Ok(VerifiedPayment(serverName, out.time, body, details.transactionId, details.amountCents,
                                   details.beneficiaryIban, details.status))
  }

  /** The checks run in order: a verified presentation from a server off the list fails on the server, whatever its transcript. */
  lemma VerifyPresentationOrder<P>(bytes: seq<Byte>, allowed: seq<string>, c: Collaborators<P>)
    requires c.deserialize(bytes).Ok?
    ensures var v := c.verify(c.deserialize(bytes).value);
            && (v.Err? ==> VerifyPresentation(bytes, allowed, c)
                             == Err(VerificationFailed("Presentation verification failed: " + v.error)))
            && (v.Ok? && v.value.serverName.None? ==> VerifyPresentation(bytes, allowed, c) == Err(ServerNotFound))
            && (v.Ok? && v.value.serverName.Some? && !ServerAllowed(v.value.serverName.value, allowed) ==>
                  VerifyPresentation(bytes, allowed, c)
                    == Err(UnexpectedServer(Join(allowed, ", "), v.value.serverName.value)))
            && ((v.Ok? && v.value.serverName.Some? && ServerAllowed(v.value.serverName.value, allowed)
                 && v.value.transcript.None?) ==> VerifyPresentation(bytes, allowed, c) == Err(TranscriptNotFound))
  {
  }

  /** The payment fields come from the extracted body exactly as `parse_payment_details` reads them. */
  lemma VerifyPresentationFields<P>(bytes: seq<Byte>, allowed: seq<string>, c: Collaborators<P>)
    ensures var r := VerifyPresentation(bytes, allowed, c);
            r.Ok? ==>
              var d := ParsePaymentDetails(r.value.responseBody, c.parse, c.floatCents, c.decimalCents).value;
              r.value.transactionId == d.transactionId && r.value.amountCents == d.amountCents
              && r.value.beneficiaryIban == d.beneficiaryIban && r.value.status == d.status
  {
  }
}
