/**
 * Solver authentication: the API-key list read from the environment, key
 * lookup, and the per-identity fixed-window rate limiter. The clock is a
 * parameter (nanoseconds of a monotonic clock); the lock around the counters
 * is not modelled.
 */
module Auth {
  import opened Wrappers
  import opened Bytes
  import opened Text

  // ---------------------------------------------------------------------------
  // The key list "key1:0xAddr1,key2:0xAddr2"

  /** One entry: exactly two ':'-separated parts, the key trimmed and the address trimmed and lower-cased. */
  function ParseEntry(pair: string): (r: Option<(string, string)>)
    ensures r.Some? ==> forall i :: 0 <= i < |r.value.1| ==> !('A' <= r.value.1[i] <= 'Z')
  {
    var p := Trim(pair);
    if p == [] then None
    else
      var parts := Split(p, ':');
      if |parts| == 2 then Some((Trim(parts[0]), ToLower(Trim(parts[1])))) else None
  }

  type Entry = Option<(string, string)>

  /** Each ','-separated piece read as an entry. */
  function Entries(pieces: seq<string>): (es: seq<Entry>)
    ensures |es| == |pieces|
    ensures forall i :: 0 <= i < |pieces| ==> es[i] == ParseEntry(pieces[i])
  {
    seq(|pieces|, i requires 0 <= i < |pieces| => ParseEntry(pieces[i]))
  }

  /** One entry inserted into `m`; a malformed entry leaves `m` alone. */
  function AddEntry(m: map<string, string>, e: Entry): map<string, string> {
    match e
    case None => m
    case Some((k, a)) => m[k := a]
  }

  /** The entries inserted in order into `m`, a later key overwriting an earlier one. */
  function Insert(m: map<string, string>, es: seq<Entry>): (r: map<string, string>)
    ensures m.Keys <= r.Keys
  {
    if es == [] then m
    else AddEntry(Insert(m, es[..|es| - 1]), es[|es| - 1])
  }

  lemma InsertStep(es: seq<Entry>, i: nat)
    requires i < |es|
    ensures Insert(map[], es[..i + 1]) == AddEntry(Insert(map[], es[..i]), es[i])
  {
    assert es[..i + 1][..i] == es[..i];
  }

  /** `from_env`'s reading of SOLVER_API_KEYS. */
  function ParseApiKeys(s: string): map<string, string> {
    Insert(map[], Entries(Split(s, ',')))
  }

  /** Every key the entries add comes from an entry for that key and address. */
  lemma {:induction false} InsertSound(m: map<string, string>, es: seq<Entry>, k: string)
    requires k in Insert(m, es) && k !in m
    ensures exists i :: 0 <= i < |es| && es[i] == Some((k, Insert(m, es)[k]))
    decreases |es|
  {
    var init := es[..|es| - 1];
    var last := |es| - 1;
    if es[last].Some? && es[last].value.0 == k {
      assert es[last] == Some((k, Insert(m, es)[k]));
    } else {
      InsertSound(m, init, k);
      var i :| 0 <= i < |init| && init[i] == Some((k, Insert(m, init)[k]));
      assert es[i] == init[i];
    }
  }

  /** Every entry's key is present after insertion. */
  lemma {:induction false} InsertComplete(m: map<string, string>, es: seq<Entry>, i: nat)
    requires i < |es| && es[i].Some?
    ensures es[i].value.0 in Insert(m, es)
    decreases |es|
  {
    var init := es[..|es| - 1];
    if i < |init| {
      assert init[i] == es[i];
      InsertComplete(m, init, i);
    }
  }

  /** Inserting two runs of entries is inserting the first, then the second. */
  lemma {:induction false} InsertAppend(m: map<string, string>, xs: seq<Entry>, ys: seq<Entry>)
    ensures Insert(m, xs + ys) == Insert(Insert(m, xs), ys)
    decreases |ys|
  {
    if ys == [] {
      assert xs + ys == xs;
    } else {
      var ys' := ys[..|ys| - 1];
      assert (xs + ys)[..|xs + ys| - 1] == xs + ys';
      assert (xs + ys)[|xs + ys| - 1] == ys[|ys| - 1];
      InsertAppend(m, xs, ys');
    }
  }

  /** What a run of entries sets does not depend on what was there before. */
  lemma {:induction false} InsertOverrides(m: map<string, string>, ys: seq<Entry>, k: string)
    requires k in Insert(map[], ys)
    ensures k in Insert(m, ys) && Insert(m, ys)[k] == Insert(map[], ys)[k]
    decreases |ys|
  {
    if ys != [] {
      var ys' := ys[..|ys| - 1];
      match ys[|ys| - 1]
      case None =>
        InsertOverrides(m, ys', k);
      case Some((k', a)) =>
        if k != k' {
          InsertOverrides(m, ys', k);
        }
    }
  }

  /** A key given again later in the list takes the later address. */
  lemma LaterEntryWins(a: string, b: string, k: string)
    requires k in ParseApiKeys(b)
    ensures k in ParseApiKeys(a + "," + b) && ParseApiKeys(a + "," + b)[k] == ParseApiKeys(b)[k]
  {
    var pa, pb := Split(a, ','), Split(b, ',');
    assert a + "," + b == a + [','] + b;
    SplitAtSeparator(a, ',', b);
    assert Split(a + "," + b, ',') == pa + pb;
    EntriesAppend(pa, pb);
    assert ParseApiKeys(a + "," + b) == Insert(map[], Entries(pa) + Entries(pb));
    assert ParseApiKeys(b) == Insert(map[], Entries(pb));
    InsertAppend(map[], Entries(pa), Entries(pb));
    InsertOverrides(Insert(map[], Entries(pa)), Entries(pb), k);
  }

  lemma EntriesAppend(xs: seq<string>, ys: seq<string>)
    ensures Entries(xs + ys) == Entries(xs) + Entries(ys)
  {
    assert forall i :: |xs| <= i < |xs + ys| ==> (xs + ys)[i] == ys[i - |xs|];
  }

  predicate Clean(s: string) {
    s != [] && forall i :: 0 <= i < |s| ==> !IsWhitespace(s[i]) && s[i] != ':' && s[i] != ','
  }

  /** A clean `key:address` entry parses to the key and the lower-cased address. */
  lemma ParseCleanEntry(key: string, addr: string)
    requires Clean(key) && Clean(addr)
    ensures ParseEntry(key + ":" + addr) == Some((key, ToLower(addr)))
  {
    var pair := key + [':'] + addr;
    assert key + ":" + addr == pair;
    CleanJoinHasNoWhitespace(key, addr);
    TrimOfClean(pair);
    SplitCleanEntry(key, addr);
    TrimOfClean(key);
    TrimOfClean(addr);
  }

  lemma SplitCleanEntry(key: string, addr: string)
    requires Clean(key) && Clean(addr)
    ensures Split(key + [':'] + addr, ':') == [key, addr]
  {
    SplitAtSeparator(key, ':', addr);
    SplitWithoutSeparator(key, ':');
    SplitWithoutSeparator(addr, ':');
  }

  lemma CleanJoinHasNoWhitespace(key: string, addr: string)
    requires Clean(key) && Clean(addr)
    ensures forall i :: 0 <= i < |key + [':'] + addr| ==> !IsWhitespace((key + [':'] + addr)[i])
  {
    var pair := key + [':'] + addr;
    forall i | 0 <= i < |pair|
      ensures !IsWhitespace(pair[i])
    {
      if i < |key| {
        assert pair[i] == key[i];
      } else if i > |key| {
        assert pair[i] == addr[i - |key| - 1];
      }
    }
  }

  /** A clean entry holds no ','. */
  lemma CleanEntryLacksComma(key: string, addr: string)
    requires Clean(key) && Clean(addr)
    ensures ',' !in key + ":" + addr
  {
    var e := key + ":" + addr;
    forall i | 0 <= i < |e|
      ensures e[i] != ','
    {
      if i < |key| { assert e[i] == key[i]; } else if i > |key| { assert e[i] == addr[i - |key| - 1]; }
    }
  }

  /** Two pieces without ',' joined by ',' split back into the two. */
  lemma SplitTwo(e1: string, e2: string)
    requires ',' !in e1 && ',' !in e2
    ensures Split(e1 + "," + e2, ',') == [e1, e2]
  {
    assert e1 + "," + e2 == e1 + [','] + e2;
    SplitAtSeparator(e1, ',', e2);
    SplitWithoutSeparator(e1, ',');
    SplitWithoutSeparator(e2, ',');
  }

  /** Two entries with distinct keys give the map of both. */
  lemma InsertTwo(k1: string, v1: string, k2: string, v2: string)
    ensures Insert(map[], [Some((k1, v1)), Some((k2, v2))]) == map[k1 := v1, k2 := v2]
  {
    var es := [Some((k1, v1)), Some((k2, v2))];
    assert es[..1] == [Some((k1, v1))];
    assert es[..1][..0] == [];
    assert Insert(map[], es[..1][..0]) == map[];
    assert Insert(map[], es[..1]) == map[k1 := v1];
  }

  /** A list that splits into two pieces is read as those two entries. */
  lemma KeysOfTwoPieces(s: string, e1: string, e2: string)
    requires Split(s, ',') == [e1, e2]
    ensures ParseApiKeys(s) == Insert(map[], [ParseEntry(e1), ParseEntry(e2)])
  {
    assert Entries([e1, e2]) == [ParseEntry(e1), ParseEntry(e2)];
  }

  /** Two clean entries: each key maps to its lower-cased address, and nothing else is a key. */
  lemma ParseTwoEntries(k1: string, a1: string, k2: string, a2: string)
    requires Clean(k1) && Clean(a1) && Clean(k2) && Clean(a2)
    ensures ParseApiKeys(k1 + ":" + a1 + "," + k2 + ":" + a2) == map[k1 := ToLower(a1), k2 := ToLower(a2)]
  {
    var e1 := k1 + ":" + a1;
    var e2 := k2 + ":" + a2;
    var s := k1 + ":" + a1 + "," + k2 + ":" + a2;
    assert s == e1 + "," + e2;
    CleanEntryLacksComma(k1, a1);
    CleanEntryLacksComma(k2, a2);
    SplitTwo(e1, e2);
    KeysOfTwoPieces(s, e1, e2);
    ParseCleanEntry(k1, a1);
    ParseCleanEntry(k2, a2);
    InsertTwo(k1, ToLower(a1), k2, ToLower(a2));
  }

  lemma SampleAddressesLowered()
    ensures ToLower("0xABC") == "0xabc" && ToLower("0xDEF") == "0xdef"
  {
    var r1, r2 := ToLower("0xABC"), ToLower("0xDEF");
    assert r1[2] == 'a' && r1[3] == 'b' && r1[4] == 'c';
    assert r2[2] == 'd' && r2[3] == 'e' && r2[4] == 'f';
  }

  const SAMPLE_KEYS: string := "key1:0xABC,key2:0xDEF"

  /** The sample list: key1 and key2 resolve to "0xabc" and "0xdef", key3 to nothing. */
  lemma SampleKeyList()
    ensures ParseApiKeys(SAMPLE_KEYS) == map["key1" := "0xabc", "key2" := "0xdef"]
    ensures "key3" !in ParseApiKeys(SAMPLE_KEYS)
  {
    SampleEntriesClean();
    SampleKeysJoined();
    ParseTwoEntries("key1", "0xABC", "key2", "0xDEF");
    SampleAddressesLowered();
  }

  lemma SampleKeysJoined()
    ensures SAMPLE_KEYS == "key1" + ":" + "0xABC" + "," + "key2" + ":" + "0xDEF"
  {
  }

  lemma SampleEntriesClean()
    ensures Clean("key1") && Clean("0xABC") && Clean("key2") && Clean("0xDEF")
  {
  }

  /** With SOLVER_API_KEYS unset the list is empty. */
  lemma NoKeysWhenUnset()
    ensures ParseApiKeys("") == map[]
  {
  }

  /** RATE_LIMIT_PER_MINUTE read as a `u32`, 100 when it is unset or does not parse. */
  const DEFAULT_RATE_LIMIT: U32 := 100

  function RateLimitOf(v: Option<string>): (r: U32)
    ensures v.None? ==> r == DEFAULT_RATE_LIMIT
    ensures v.Some? && ParseU32(v.value).Some? ==> r == ParseU32(v.value).value
    ensures v.Some? && ParseU32(v.value).None? ==> r == DEFAULT_RATE_LIMIT
  {
    match v
    case None => DEFAULT_RATE_LIMIT
    case Some(s) => ParseU32(s).GetOr(DEFAULT_RATE_LIMIT)
  }

  // ---------------------------------------------------------------------------
  // The fixed-window limiter

  const SECOND: nat := 1_000_000_000
  /** `Duration::from_secs(60)`, in nanoseconds. */
  const WINDOW: nat := 60 * SECOND

  datatype Counter = Counter(count: U32, windowStart: nat)

  /** `Instant::duration_since`, which saturates at zero for an earlier instant. */
  function Elapsed(now: nat, start: nat): nat {
    if now >= start then now - start else 0
  }

  /** `Duration::saturating_sub` */
  function SaturatingSub(a: nat, b: nat): (r: nat)
    ensures r <= a
  {
    if a >= b then a - b else 0
  }

  /** The identity's counter as the call sees it: created at (0, now), and restarted at `now` once a window has passed. */
  function CurrentCounter(counters: map<string, Counter>, id: string, now: nat): (c: Counter)
    ensures Elapsed(now, c.windowStart) < WINDOW
  {
    var entry := if id in counters then counters[id] else Counter(0, now);
    if Elapsed(now, entry.windowStart) >= WINDOW then Counter(0, now) else entry
  }

  datatype RateOutcome = RateOutcome(counters: map<string, Counter>, result: Result<(), U64>)

  /** `check_rate_limit`: the new counters and the answer, `Err(retry_after)` in whole seconds when limited. */
  function RateStep(counters: map<string, Counter>, id: string, now: nat, limit: U32): (o: RateOutcome)
    ensures id in o.counters
    ensures forall other :: other != id ==> (other in o.counters <==> other in counters)
    ensures forall other :: other != id && other in counters ==> o.counters[other] == counters[other]
  {
    var entry := CurrentCounter(counters, id, now);
    if entry.count >= limit then
      RateOutcome(counters[id := entry], Err(SaturatingSub(WINDOW, Elapsed(now, entry.windowStart)) / SECOND + 1))
    else
      RateOutcome(counters[id := entry.(count := entry.count + 1)], Ok(()))
  }

  /** No counter ever exceeds the limit. */
  ghost predicate WithinLimit(counters: map<string, Counter>, limit: U32) {
    forall id :: id in counters ==> counters[id].count <= limit
  }

  /**
   * A call is refused exactly when the identity's window is already full; a
   * refusal asks the caller to wait between 1 and 61 seconds and counts
   * nothing, an acceptance counts exactly one, and the bound is kept.
   */
  lemma RateStepOutcome(counters: map<string, Counter>, id: string, now: nat, limit: U32)
    ensures var o := RateStep(counters, id, now, limit);
            var entry := CurrentCounter(counters, id, now);
            && (o.result.Ok? <==> entry.count < limit)
            && (o.result.Err? ==> 1 <= o.result.error <= 61 && o.counters[id] == entry)
            && (o.result.Ok? ==> o.counters[id] == Counter(entry.count + 1, entry.windowStart))
            && (WithinLimit(counters, limit) ==> WithinLimit(o.counters, limit))
  {
  }

  /** With a positive limit a refused call leaves every counter exactly as it was. */
  lemma RefusalChangesNothing(counters: map<string, Counter>, id: string, now: nat, limit: U32)
    requires limit > 0
    requires RateStep(counters, id, now, limit).result.Err?
    ensures RateStep(counters, id, now, limit).counters == counters
  {
    var entry := CurrentCounter(counters, id, now);
    assert id in counters && entry == counters[id];
  }

  /** Once a full window has passed since it started, the identity starts afresh with one request counted. */
  lemma WindowRestarts(counters: map<string, Counter>, id: string, now: nat, limit: U32)
    requires limit > 0
    requires id in counters && Elapsed(now, counters[id].windowStart) >= WINDOW
    ensures RateStep(counters, id, now, limit) == RateOutcome(counters[id := Counter(1, now)], Ok(()))
  {
  }

  /** `n` successive calls by `id`, all at instant `now`. */
  function CallsAt(counters: map<string, Counter>, id: string, now: nat, limit: U32, n: nat): map<string, Counter> {
    if n == 0 then counters else RateStep(CallsAt(counters, id, now, limit, n - 1), id, now, limit).counters
  }

  /** Starting with no counter, after n calls within the limit the identity has counted n in a window opened now. */
  lemma {:induction false} CallsAtCount(counters: map<string, Counter>, id: string, now: nat, limit: U32, n: nat)
    requires id !in counters && 0 < n <= limit
    ensures id in CallsAt(counters, id, now, limit, n) && CallsAt(counters, id, now, limit, n)[id] == Counter(n, now)
  {
    if n > 1 {
      CallsAtCount(counters, id, now, limit, n - 1);
    }
  }

  /** A burst from a new identity: the first `limit` calls pass, the next is refused, with a full minute to wait. */
  lemma BurstFillsWindow(counters: map<string, Counter>, id: string, now: nat, limit: U32, n: nat)
    requires id !in counters && n <= limit
    ensures n < limit ==> RateStep(CallsAt(counters, id, now, limit, n), id, now, limit).result.Ok?
    ensures n == limit ==> RateStep(CallsAt(counters, id, now, limit, n), id, now, limit).result == Err(61)
  {
    if n > 0 {
      CallsAtCount(counters, id, now, limit, n);
    }
  }

  /** With a limit of 5, five calls succeed and the sixth is refused. */
  lemma FiveThenRefused(id: string, now: nat)
    ensures forall n :: 0 <= n < 5 ==> RateStep(CallsAt(map[], id, now, 5, n), id, now, 5).result.Ok?
    ensures RateStep(CallsAt(map[], id, now, 5, 5), id, now, 5).result.Err?
  {
    forall n | 0 <= n < 5
      ensures RateStep(CallsAt(map[], id, now, 5, n), id, now, 5).result.Ok?
    {
      BurstFillsWindow(map[], id, now, 5, n);
    }
    BurstFillsWindow(map[], id, now, 5, 5);
  }

  // ---------------------------------------------------------------------------
  // SolverAuth

  class SolverAuth {
    /** API key to solver address. */
    const apiKeys: map<string, string>
    /** Requests per identity per minute. */
    const rateLimit: U32
    /** Identity to (count, window start). */
    var rateCounters: map<string, Counter>

    ghost predicate Valid()
      reads this
    {
      WithinLimit(rateCounters, rateLimit)
    }

    /**
     * `from_env`, given the values of SOLVER_API_KEYS and RATE_LIMIT_PER_MINUTE:
     * one pass over the ','-separated entries inserting each well-formed one.
     */
    constructor FromEnv(apiKeysVar: Option<string>, rateLimitVar: Option<string>)
      ensures apiKeys == ParseApiKeys(apiKeysVar.GetOr(""))
      ensures rateLimit == RateLimitOf(rateLimitVar)
      ensures rateCounters == map[]
      ensures Valid()
    {
      var pieces := Split(apiKeysVar.GetOr(""), ',');
      var keys: map<string, string> := map[];
      ghost var es := Entries(pieces);
      var i := 0;
      while i < |pieces|
        invariant 0 <= i <= |pieces|
        invariant keys == Insert(map[], es[..i])
      {
        ghost var before := keys;
        InsertStep(es, i);
        var pair := Trim(pieces[i]);
        if pair != [] {
          var parts := Split(pair, ':');
          if |parts| == 2 {
            keys := keys[Trim(parts[0]) := ToLower(Trim(parts[1]))];
          }
        }
        assert keys == AddEntry(before, ParseEntry(pieces[i]));
        i := i + 1;
      }
      assert es[..i] == es;
      apiKeys := keys;
      rateLimit := RateLimitOf(rateLimitVar);
      rateCounters := map[];
    }

    /** `validate_api_key`: the address registered for the key. */
    function ValidateApiKey(key: string): (r: Option<string>)
      ensures r.Some? <==> key in apiKeys
      ensures r.Some? ==> r.value == apiKeys[key]
    {
      if key in apiKeys then Some(apiKeys[key]) else None
    }

    /** `is_enabled`: at least one key was configured. */
    predicate IsEnabled() {
      apiKeys != map[]
    }

    /** `check_rate_limit`, at instant `now`. */
    method CheckRateLimit(id: string, now: nat) returns (r: Result<(), U64>)
      requires Valid()
      modifies this
      ensures rateCounters == RateStep(old(rateCounters), id, now, rateLimit).counters
      ensures r == RateStep(old(rateCounters), id, now, rateLimit).result
      ensures Valid()
    {
      RateStepOutcome(rateCounters, id, now, rateLimit);
      var entry := if id in rateCounters then rateCounters[id] else Counter(0, now);
      if Elapsed(now, entry.windowStart) >= WINDOW {
        entry := Counter(0, now);
      }
      if entry.count >= rateLimit {
        rateCounters := rateCounters[id := entry];
        var elapsed := Elapsed(now, entry.windowStart);
        return Err(SaturatingSub(WINDOW, elapsed) / SECOND + 1);
      }
      rateCounters := rateCounters[id := entry.(count := entry.count + 1)];
      r := Ok(());
    }
  }

  /** Entries add some key exactly when one of them is present. */
  lemma InsertNonEmptyIff(es: seq<Entry>)
    ensures Insert(map[], es) != map[] <==> exists i :: 0 <= i < |es| && es[i].Some?
  {
    var keys := Insert(map[], es);
    if keys != map[] {
      var k :| k in keys;
      InsertSound(map[], es, k);
    }
    if exists i :: 0 <= i < |es| && es[i].Some? {
      var i :| 0 <= i < |es| && es[i].Some?;
      InsertComplete(map[], es, i);
    }
  }

  /** Some key is configured exactly when one of the pieces is a well-formed entry. */
  lemma EntriesNonEmptyIff(pieces: seq<string>)
    ensures Insert(map[], Entries(pieces)) != map[] <==> exists i :: 0 <= i < |pieces| && ParseEntry(pieces[i]).Some?
  {
    var es := Entries(pieces);
    InsertNonEmptyIff(es);
    if exists i :: 0 <= i < |es| && es[i].Some? {
      var i :| 0 <= i < |es| && es[i].Some?;
      assert ParseEntry(pieces[i]).Some?;
    }
    if exists i :: 0 <= i < |pieces| && ParseEntry(pieces[i]).Some? {
      var i :| 0 <= i < |pieces| && ParseEntry(pieces[i]).Some?;
      assert es[i].Some?;
    }
  }

  /** Authentication is on exactly when some entry of the list is well formed. */
  lemma EnabledIff(apiKeysVar: string)
    ensures ParseApiKeys(apiKeysVar) != map[] ==>
              exists i :: 0 <= i < |Split(apiKeysVar, ',')| && ParseEntry(Split(apiKeysVar, ',')[i]).Some?
    ensures (exists i :: 0 <= i < |Split(apiKeysVar, ',')| && ParseEntry(Split(apiKeysVar, ',')[i]).Some?) ==>
              ParseApiKeys(apiKeysVar) != map[]
  {
    EntriesNonEmptyIff(Split(apiKeysVar, ','));
  }
}
