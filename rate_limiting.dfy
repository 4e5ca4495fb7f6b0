/** A per-IP request counter kept in the process's memory cache: at most
    `Limit` requests are let through while an IP's entry is alive, and every
    admitted request restarts the entry's lifetime. */
module RateLimiting {
  import opened Common
  import opened Http

  const Limit: int := 5
  /** The entry lifetime; the clock counts milliseconds. */
  const WindowMs: int := 10_000
  const KeyPrefix := "RateLimit_"
  const TooManyRequestsMessage := "Too many requests. Try again later."

  /** A cached count and the moment the cache drops it. */
  datatype Entry = Entry(count: int, expiresAt: int)

  /** `$"RateLimit_{ipAddress}"`: the address behind the fixed prefix. */
  function CacheKey(ipAddress: string): (key: string)
    ensures |key| == |KeyPrefix| + |ipAddress|
    ensures key[..|KeyPrefix|] == KeyPrefix && key[|KeyPrefix|..] == ipAddress
  {
    KeyPrefix + ipAddress
  }

  /** Different addresses never share a counter. */
  lemma CacheKeyInjective(a: string, b: string)
    requires CacheKey(a) == CacheKey(b)
    ensures a == b
  {
    assert a == CacheKey(a)[|KeyPrefix|..];
    assert b == CacheKey(b)[|KeyPrefix|..];
  }

  /** An entry is alive strictly before its expiry time. */
  predicate IsLive(entries: map<string, Entry>, key: string, now: int) {
    key in entries && now < entries[key].expiresAt
  }

  /** `Get<int>(key)`: the cached count, or 0 when there is no live entry. */
  function CachedCount(entries: map<string, Entry>, key: string, now: int): (count: int)
    ensures CountsWithinLimit(entries) ==> 0 <= count <= Limit
    ensures CountsWithinLimit(entries) ==> (count == 0 <==> !IsLive(entries, key, now))
  {
    if IsLive(entries, key, now) then entries[key].count else 0
  }

  /** Every stored count is between 1 and the limit. */
  ghost predicate CountsWithinLimit(entries: map<string, Entry>) {
    forall k :: k in entries ==> 1 <= entries[k].count <= Limit
  }

  datatype Decision = Decision(admitted: bool, entries: map<string, Entry>)

  /** One request for `key` at time `now`: rejected, with the cache left as
      it is, once the count reached the limit; otherwise admitted, with the
      count raised by one and the lifetime restarted. */
  function Admit(entries: map<string, Entry>, key: string, now: int): (d: Decision)
    requires CountsWithinLimit(entries)
    ensures CountsWithinLimit(d.entries)
    ensures d.admitted <==> CachedCount(entries, key, now) < Limit
    ensures !d.admitted ==> d.entries == entries
    ensures d.admitted ==>
              && key in d.entries
              && d.entries[key] == Entry(CachedCount(entries, key, now) + 1, now + WindowMs)
    ensures forall k :: k != key ==> (k in d.entries <==> k in entries)
    ensures forall k :: k != key && k in entries ==> d.entries[k] == entries[k]
  {
    var requestCount := CachedCount(entries, key, now);
    if requestCount >= Limit then Decision(false, entries)
    else Decision(true, entries[key := Entry(requestCount + 1, now + WindowMs)])
  }

  /** A request from one address leaves the counter of every other address
      as it was. */
  lemma OtherAddressesUntouched(entries: map<string, Entry>, ip: string, other: string, now: int)
    requires CountsWithinLimit(entries)
    requires ip != other
    ensures CachedCount(Admit(entries, CacheKey(ip), now).entries, CacheKey(other), now)
            == CachedCount(entries, CacheKey(other), now)
  {
    if CacheKey(ip) == CacheKey(other) {
      CacheKeyInjective(ip, other);
    }
  }

  /** How many of the requests for `key`, at the given times in order, are
      admitted. */
  function AdmittedCount(entries: map<string, Entry>, key: string, times: seq<int>): nat
    requires CountsWithinLimit(entries)
    decreases |times|
  {
    if times == [] then 0
    else
      var d := Admit(entries, key, times[0]);
      (if d.admitted then 1 else 0) + AdmittedCount(d.entries, key, times[1..])
  }

  ghost predicate Ascending(times: seq<int>) {
    forall i, j :: 0 <= i <= j < |times| ==> times[i] <= times[j]
  }

  /** All the times fall less than one lifetime after the first. */
  ghost predicate WithinOneWindow(times: seq<int>) {
    forall i :: 0 <= i < |times| ==> times[i] < times[0] + WindowMs
  }

  /** While the entry stays alive, only the requests still missing to the
      limit get through. */
  lemma {:induction false} LiveEntryBound(entries: map<string, Entry>, key: string, times: seq<int>)
    requires CountsWithinLimit(entries)
    requires Ascending(times) && WithinOneWindow(times)
    requires key in entries
    requires forall i :: 0 <= i < |times| ==> times[i] < entries[key].expiresAt
    ensures AdmittedCount(entries, key, times) <= Limit - entries[key].count
  {
    if times != [] {
      var d := Admit(entries, key, times[0]);
      var rest := times[1..];
      assert Ascending(rest);
      assert WithinOneWindow(rest) by {
        forall i | 0 <= i < |rest| ensures rest[i] < rest[0] + WindowMs {
          assert rest[i] == times[i + 1] && times[1] <= rest[0];
        }
      }
      forall i | 0 <= i < |rest| ensures rest[i] < d.entries[key].expiresAt {
        assert rest[i] == times[i + 1];
      }
      LiveEntryBound(d.entries, key, rest);
    }
  }

  /** From any reachable cache, at most `Limit` requests from one address
      are admitted within any span shorter than one lifetime. */
  lemma {:induction false} AtMostLimitPerWindow(entries: map<string, Entry>, key: string, times: seq<int>)
    requires CountsWithinLimit(entries)
    requires Ascending(times) && WithinOneWindow(times)
    ensures AdmittedCount(entries, key, times) <= Limit
  {
    if times != [] {
      var d := Admit(entries, key, times[0]);
      var rest := times[1..];
      assert Ascending(rest);
      assert WithinOneWindow(rest) by {
        forall i | 0 <= i < |rest| ensures rest[i] < rest[0] + WindowMs {
          assert rest[i] == times[i + 1] && times[1] <= rest[0];
        }
      }
      if d.admitted {
        forall i | 0 <= i < |rest| ensures rest[i] < d.entries[key].expiresAt {
          assert rest[i] == times[i + 1];
        }
        LiveEntryBound(d.entries, key, rest);
      } else {
        AtMostLimitPerWindow(d.entries, key, rest);
      }
    }
  }

  class RateLimitingMiddleware {
    /** The rate-limit entries of the memory cache, by cache key. */
    var entries: map<string, Entry>

    ghost predicate Valid()
      reads this
    {
      CountsWithinLimit(entries)
    }

    constructor ()
      ensures Valid() && entries == map[]
    {
      entries := map[];
    }

    /** Handles one request from `ipAddress` at time `now`; `callNext` says
        whether the request goes on to the next stage. */
    method InvokeAsync(ipAddress: Option<string>, now: int, response: HttpResponse) returns (callNext: bool)
      requires Valid()
      modifies this, response
      ensures Valid()
      ensures ipAddress.None? || ipAddress.value == "" ==>
                callNext && entries == old(entries) && unchanged(response)
      ensures ipAddress.Some? && ipAddress.value != "" ==>
                var d := Admit(old(entries), CacheKey(ipAddress.value), now);
                && callNext == d.admitted
                && entries == d.entries
                && (callNext ==> unchanged(response))
                && (!callNext ==>
                      && response.statusCode == 429
                      && response.contentType == old(response.contentType)
                      && response.body == old(response.body) + [Text(TooManyRequestsMessage)])
    {
      if ipAddress.None? || ipAddress.value == "" {
        return true;
      }
      var cacheKey := CacheKey(ipAddress.value);
      var requestCount := CachedCount(entries, cacheKey, now);
      if requestCount >= Limit {
        response.statusCode := 429;
        response.WriteAsync(Text(TooManyRequestsMessage));
        return false;
      }
      entries := entries[cacheKey := Entry(requestCount + 1, now + WindowMs)];
      return true;
    }
  }
}
