/** The in-memory fixed-window rate limiter of the ingest route
    (apps/web/app/lib/rate-limit.ts). Each key owns an entry with a request
    count and the instant its window ends; expired entries are pruned lazily
    on every check. The two readings of the clock the source takes, one inside
    `prune` and one after it, are the parameters `pruneNow` and `now`. */
module RateLimit {
  import opened Wrappers
  import opened Text

  datatype Entry = Entry(count: int, resetAt: int)

  /** What pruning at instant `now` keeps: the entries whose window is still open. */
  function Pruned(m: map<string, Entry>, now: int): (r: map<string, Entry>)
    ensures forall k :: k in r <==> k in m && m[k].resetAt > now
    ensures forall k | k in r :: r[k] == m[k]
  {
    map k | k in m && m[k].resetAt > now :: m[k]
  }

  /** The decision `checkRateLimit` takes on the pruned store `p` and the store
      it leaves behind. */
  function Decide(p: map<string, Entry>, key: string, now: int, window: int, max: int): (bool, map<string, Entry>)
  {
    if key !in p || p[key].resetAt <= now then (true, p[key := Entry(1, now + window)])
    else if p[key].count >= max then (false, p)
    else (true, p[key := Entry(p[key].count + 1, p[key].resetAt)])
  }

  /** One whole call: prune with the first clock reading, decide with the second. */
  function Check(m: map<string, Entry>, key: string, pruneNow: int, now: int, window: int, max: int): (bool, map<string, Entry>)
  {
    Decide(Pruned(m, pruneNow), key, now, window, max)
  }

  /** Every stored count lies in 1..max. */
  predicate CountsInRange(m: map<string, Entry>, max: int) {
    forall k | k in m :: 1 <= m[k].count <= max
  }

  class RateLimiter {
    const window: int
    const max: int
    var store: map<string, Entry>

    predicate Valid()
      reads this
    {
      window >= 1 && max >= 1 && CountsInRange(store, max)
    }

    constructor(window: int, max: int)
      requires window >= 1 && max >= 1
      ensures this.window == window && this.max == max
      ensures store == map[]
      ensures Valid()
    {
      this.window := window;
      this.max := max;
      store := map[];
    }

    /** `prune`: visits every entry once and deletes the expired ones. */
    method Prune(now: int)
      modifies this
      ensures store == Pruned(old(store), now)
    {
      ghost var orig := store;
      var keys := store.Keys;
      while keys != {}
        invariant keys <= orig.Keys
        invariant forall k :: k in store <==> k in orig && (k in keys || orig[k].resetAt > now)
        invariant forall k | k in store :: store[k] == orig[k]
        decreases keys
      {
        var k :| k in keys;
        if store[k].resetAt <= now {
          store := store - {k};
        }
        keys := keys - {k};
      }
    }

    /** `checkRateLimit`; the counts stay in 1..max. */
    method CheckRateLimit(key: string, pruneNow: int, now: int) returns (allowed: bool)
      requires Valid()
      modifies this
      ensures Valid()
      ensures (allowed, store) == Check(old(store), key, pruneNow, now, window, max)
    {
      CheckPreservesRange(store, key, pruneNow, now, window, max);
      Prune(pruneNow);
      if key !in store {
        store := store[key := Entry(1, now + window)];
        return true;
      }
      var entry := store[key];
      if entry.resetAt <= now {
        store := store[key := Entry(1, now + window)];
        return true;
      }
      if entry.count >= max {
        return false;
      }
      store := store[key := Entry(entry.count + 1, entry.resetAt)];
      allowed := true;
    }
  }

  /** Pruning deletes exactly the entries whose window ended at or before `now`. */
  lemma PrunedDeletesExpired(m: map<string, Entry>, now: int, k: string)
    requires k in m
    ensures k !in Pruned(m, now) <==> m[k].resetAt <= now
  {
  }

  /** A key with no live entry is allowed and opens a window of `window`
      milliseconds with count 1; this covers the first call and the call after
      the window expired. */
  lemma FirstCallAllowed(m: map<string, Entry>, key: string, pruneNow: int, now: int, window: int, max: int)
    requires key !in m || m[key].resetAt <= pruneNow || m[key].resetAt <= now
    ensures Check(m, key, pruneNow, now, window, max).0
    ensures Check(m, key, pruneNow, now, window, max).1[key] == Entry(1, now + window)
  {
  }

  /** Within a live window and below the maximum the call is allowed and adds
      exactly one to the count. */
  lemma LiveCallCounted(m: map<string, Entry>, key: string, pruneNow: int, now: int, window: int, max: int)
    requires key in m && m[key].resetAt > pruneNow && m[key].resetAt > now
    requires m[key].count < max
    ensures Check(m, key, pruneNow, now, window, max).0
    ensures Check(m, key, pruneNow, now, window, max).1[key] == Entry(m[key].count + 1, m[key].resetAt)
  {
  }

  /** At the maximum within a live window the call is denied and the store is
      only pruned. */
  lemma FullWindowDenied(m: map<string, Entry>, key: string, pruneNow: int, now: int, window: int, max: int)
    requires key in m && m[key].resetAt > pruneNow && m[key].resetAt > now
    requires m[key].count >= max
    ensures !Check(m, key, pruneNow, now, window, max).0
    ensures Check(m, key, pruneNow, now, window, max).1 == Pruned(m, pruneNow)
  {
  }

  /** A call touches no other key than its own (beyond pruning). */
  lemma OtherKeysUntouched(m: map<string, Entry>, key: string, other: string, pruneNow: int, now: int, window: int, max: int)
    requires other != key
    ensures var r := Check(m, key, pruneNow, now, window, max).1;
      (other in r <==> other in Pruned(m, pruneNow)) && (other in r ==> r[other] == m[other])
  {
  }

  lemma CheckPreservesRange(m: map<string, Entry>, key: string, pruneNow: int, now: int, window: int, max: int)
    requires max >= 1 && CountsInRange(m, max)
    ensures CountsInRange(Check(m, key, pruneNow, now, window, max).1, max)
  {
  }

  /** A run of calls on one key: the number allowed and the final store. */
  function Replay(m: map<string, Entry>, key: string, times: seq<(int, int)>, window: int, max: int): (nat, map<string, Entry>)
    decreases |times|
  {
    if times == [] then (0, m)
    else
      var (a, m1) := Check(m, key, times[0].0, times[0].1, window, max);
      var (n, m2) := Replay(m1, key, times[1..], window, max);
      ((if a then 1 else 0) + n, m2)
  }

  /** Both clock readings of every call fall before `end`. */
  predicate AllBefore(times: seq<(int, int)>, end: int) {
    forall i | 0 <= i < |times| :: times[i].0 < end && times[i].1 < end
  }

  /** Inside a live window that already holds `count` requests, a run of calls
      is allowed exactly until the window is full. */
  lemma {:induction false} ReplayInWindow(m: map<string, Entry>, key: string, times: seq<(int, int)>, window: int, max: int)
    requires key in m && 1 <= m[key].count <= max
    requires AllBefore(times, m[key].resetAt)
    ensures var (n, r) := Replay(m, key, times, window, max);
      && (n as int == if |times| <= max - m[key].count then |times| else max - m[key].count)
      && key in r && r[key].resetAt == m[key].resetAt
      && r[key].count == m[key].count + n
    decreases |times|
  {
    if times != [] {
      var (a, m1) := Check(m, key, times[0].0, times[0].1, window, max);
      assert key in m1 && m1[key].resetAt == m[key].resetAt;
      assert m1[key].count == m[key].count + (if a then 1 else 0);
      assert AllBefore(times[1..], m1[key].resetAt) by {
        forall i | 0 <= i < |times[1..]| ensures times[1..][i].0 < m1[key].resetAt && times[1..][i].1 < m1[key].resetAt {
          assert times[1..][i] == times[i + 1];
        }
      }
      ReplayInWindow(m1, key, times[1..], window, max);
    }
  }

  /** The promise of a fixed window: once a call opens a window at instant
      `now`, the calls made before `now + window` ends are allowed at most
      `max` times, whatever the store held. */
  lemma WindowAllowsAtMostMax(m: map<string, Entry>, key: string, pruneNow: int, now: int,
                              times: seq<(int, int)>, window: int, max: int)
    requires window >= 1 && max >= 1
    requires key !in m || m[key].resetAt <= pruneNow || m[key].resetAt <= now
    requires AllBefore(times, now + window)
    ensures var (a, m1) := Check(m, key, pruneNow, now, window, max);
      var n := 1 + Replay(m1, key, times, window, max).0;
      a && n == (if |times| < max then |times| + 1 else max) && n <= max
  {
    var (a, m1) := Check(m, key, pruneNow, now, window, max);
    assert m1[key] == Entry(1, now + window);
    ReplayInWindow(m1, key, times, window, max);
  }

  // ---------------------------------------------------------------------------
  // The key a request is limited under

  /** `getRateLimitKey`: the first comma-separated element of
      `x-forwarded-for`, trimmed; failing that `x-real-ip`; failing that
      `default`. An absent header and an empty one are both falsy. */
  function GetRateLimitKey(forwarded: Option<string>, realIp: Option<string>): (r: string)
  {
    if forwarded.Some? && forwarded.value != [] then Trim(BeforeComma(forwarded.value))
    else if realIp.Some? && realIp.value != [] then realIp.value
    else "default"
  }

  /** A forwarded address yields its first element trimmed: no comma, no
      white space at either end, found verbatim in the header, and what the
      first element holds around it is all white space. */
  lemma ForwardedKeyShape(forwarded: string, realIp: Option<string>)
    requires forwarded != []
    ensures var r := GetRateLimitKey(Some(forwarded), realIp);
      && (forall i | 0 <= i < |r| :: r[i] != ',')
      && (r == [] || (!IsSpace(r[0]) && !IsSpace(r[|r| - 1])))
      && (exists lo: nat :: OccursAt(forwarded, r, lo))
      && exists lo: nat :: TrimmedAt(BeforeComma(forwarded), r, lo)
  {
    var b := BeforeComma(forwarded);
    var r := Trim(b);
    assert GetRateLimitKey(Some(forwarded), realIp) == r;
    TrimEnds(b);
    var lo := TrimPiece(b);
    PieceOfPrefix(forwarded, b, r, lo);
  }

  /** A piece of a prefix is a piece of the whole, and has no comma if the
      prefix has none. */
  lemma PieceOfPrefix(s: string, b: string, r: string, lo: nat)
    requires |b| <= |s| && b == s[..|b|] && OccursAt(b, r, lo)
    requires forall i | 0 <= i < |b| :: b[i] != ','
    ensures OccursAt(s, r, lo)
    ensures forall i | 0 <= i < |r| :: r[i] != ','
  {
    assert s[lo..lo + |r|] == s[..|b|][lo..lo + |r|];
    forall i | 0 <= i < |r| ensures r[i] != ',' {
      assert r[i] == b[lo..lo + |r|][i] == b[lo + i];
    }
  }

  /** Without a usable forwarded header the real IP is used, and without
      either the shared key `default`. */
  lemma KeyFallbacks(forwarded: Option<string>, realIp: Option<string>)
    requires forwarded.None? || forwarded.value == []
    ensures realIp.Some? && realIp.value != [] ==> GetRateLimitKey(forwarded, realIp) == realIp.value
    ensures realIp.None? || realIp.value == [] ==> GetRateLimitKey(forwarded, realIp) == "default"
  {
  }
}
