/**
 * `UpdateChecker::check` in `src/core.rs`: a cache of earlier answers,
 * keyed by crate name and running version, in front of a registry query
 * whose answer is compared with the running version.
 *
 * The clock, the registry's answer and the RFC 3339 date parser are
 * parameters; the cache file and the mutex around the map are not
 * modelled.
 */
module Checker {
  import opened Wrappers
  import opened Ordering
  import opened VersionKey
  import opened Registry

  /** Seconds after which a cache entry expires. */
  const CacheExpireTime: nat := 3600

  /** An available update. `releaseDate` is in seconds since the Unix epoch. */
  datatype UpdateResult = UpdateResult(
    crateName: string,
    runningVersion: string,
    availableVersion: string,
    releaseDate: Option<int>)

  /** A cached answer and when (in seconds since the Unix epoch) it was recorded. */
  datatype CacheEntry = CacheEntry(timestamp: nat, result: Option<UpdateResult>)

  /** Crate name and running version. */
  type CacheKey = (string, string)

  type Cache = map<CacheKey, CacheEntry>

  /**
   * `UpdateResult::new`: `parseDate` stands for the RFC 3339 parser,
   * which yields `None` on text it does not accept.
   */
  function NewUpdateResult(package: string, running: string, available: string,
                           releaseDate: Option<string>, parseDate: string -> Option<int>): (u: UpdateResult)
  {
    UpdateResult(package, running, available,
      match releaseDate
      case None => None
      case Some(d) => parseDate(d))
  }

  /**
   * What the registry query yields: `fetched` is the decoded version
   * list, or `None` when the request failed. A running version that is
   * not a standard release lets pre-releases be selected.
   */
  function Query(key: string -> seq<string>, version: string, fetched: Option<seq<VersionInfo>>): (r: Result<CratesIoData, RegistryError>)
  {
    match fetched
    case None => Err(RequestFailed)
    case Some(vs) => Select(key, vs, !StandardRelease(version))
  }

  /**
   * The answer of a check that does not use the cache. The check and its
   * specification are stated for a version key `key`; `check` uses
   * `parse_version`, so the class passes `VersionKey.Key`.
   */
  function Decide(key: string -> seq<string>, name: string, version: string, response: Result<CratesIoData, RegistryError>,
                  parseDate: string -> Option<int>): (r: Option<UpdateResult>)
  {
    match response
    case Err(_) => None
    case Ok(data) =>
      if KeyLe(key(data.version), key(version)) then None
      else Some(NewUpdateResult(name, version, data.version, data.createdAt, parseDate))
  }

  /** The cache answers the check: it is consulted, holds the key, and the entry is under an hour old. */
  predicate Hit(cache: Cache, bypassCache: bool, k: CacheKey, now: nat)
    requires Consistent(cache, bypassCache, k, now)
  {
    !bypassCache && k in cache && now - cache[k].timestamp < CacheExpireTime
  }

  /**
   * `now - entry.timestamp` is a subtraction on `u64`: an entry recorded
   * later than `now` makes it underflow. This is what a check demands of
   * the clock.
   */
  predicate Consistent(cache: Cache, bypassCache: bool, k: CacheKey, now: nat)
  {
    !bypassCache && k in cache ==> cache[k].timestamp <= now
  }

  /** The answer of a check and the cache after it. */
  function CheckSpec(key: string -> seq<string>, cache: Cache, bypassCache: bool, name: string, version: string, now: nat,
                     fetched: Option<seq<VersionInfo>>, parseDate: string -> Option<int>): (r: (Option<UpdateResult>, Cache))
    requires Consistent(cache, bypassCache, (name, version), now)
  {
    var k := (name, version);
    if Hit(cache, bypassCache, k, now) then (cache[k].result, cache)
    else
      var result := Decide(key, name, version, Query(key, version, fetched), parseDate);
      (result, cache[k := CacheEntry(now, result)])
  }

  class UpdateChecker {
    const bypassCache: bool
    var cache: Cache

    /**
     * `UpdateChecker::new`: the cache starts empty, or as the map read
     * back from the cache file, `restored`, when there is one.
     */
    constructor (bypassCache: bool, restored: Option<Cache>)
      ensures this.bypassCache == bypassCache
      ensures cache == if restored.Some? then restored.value else map[]
    {
      this.bypassCache := bypassCache;
      cache := if restored.Some? then restored.value else map[];
    }

    /**
     * `UpdateChecker::check` at time `now`, with `fetched` the registry's
     * answer and `parseDate` the date parser.
     */
    method Check(name: string, version: string, now: nat,
                 fetched: Option<seq<VersionInfo>>, parseDate: string -> Option<int>)
      returns (result: Option<UpdateResult>)
      requires Consistent(cache, bypassCache, (name, version), now)
      modifies this
      ensures (result, cache) == CheckSpec(Key, old(cache), bypassCache, name, version, now, fetched, parseDate)
    {
      var key := (name, version);
      if !bypassCache && key in cache {
        var entry := cache[key];
        if now - entry.timestamp < CacheExpireTime {
          return entry.result;
        }
      }
      var includePrereleases := !StandardRelease(version);
      var response := CratesIo(Key, fetched, includePrereleases);
      match response {
        case Ok(data) =>
          var running := ParseVersion(version);
          var available := ParseVersion(data.version);
          if KeyLe(available, running) {
            result := None;
          } else {
            result := Some(NewUpdateResult(name, version, data.version, data.createdAt, parseDate));
          }
        case Err(_) =>
          result := None;
      }
      cache := cache[key := CacheEntry(now, result)];
    }
  }

  /**
   * A check that does not answer from the cache reports an update exactly
   * when the registry answers and the version it selects has a greater
   * key than the running one; the update names the crate, the running
   * version, and the selected version with its parsed publication date.
   */
  lemma UpdateFound(key: string -> seq<string>, name: string, version: string, fetched: Option<seq<VersionInfo>>,
                    parseDate: string -> Option<int>)
    ensures var r := Decide(key, name, version, Query(key, version, fetched), parseDate);
      r.Some? <==> fetched.Some? && exists i ::
        BestAt(key, fetched.value, !StandardRelease(version), i) && KeyLt(key(version), key(fetched.value[i].num))
    ensures var r := Decide(key, name, version, Query(key, version, fetched), parseDate);
      fetched.Some? && r.Some? ==> exists i ::
        && BestAt(key, fetched.value, !StandardRelease(version), i)
        && r.value == UpdateResult(name, version, fetched.value[i].num, parseDate(fetched.value[i].createdAt))
  {
    if fetched.Some? {
      var vs, inc := fetched.value, !StandardRelease(version);
      SelectSpec(key, vs, inc);
      var s := Select(key, vs, inc);
      if s.Ok? {
        var i :| BestAt(key, vs, inc, i) && s.value == CratesIoData(vs[i].num, Some(vs[i].createdAt));
        forall j | BestAt(key, vs, inc, j)
          ensures j == i
        {
          BestAtUnique(key, vs, inc, i, j);
        }
      }
    }
  }

  /** An update reported for crate `k.0` running version `k.1`: it names them, and offers a newer version. */
  predicate Reports(key: string -> seq<string>, k: CacheKey, u: UpdateResult)
  {
    u.crateName == k.0 && u.runningVersion == k.1 && KeyLt(key(k.1), key(u.availableVersion))
  }

  /** Every update the cache holds was reported for its own key. */
  predicate Sound(key: string -> seq<string>, cache: Cache)
  {
    forall k | k in cache && cache[k].result.Some? :: Reports(key, k, cache[k].result.value)
  }

  /**
   * A check never offers a version that is not newer than the running
   * one, whether it answers from the registry or from a cache that only
   * ever held such answers, and the cache keeps holding only such answers.
   */
  lemma CheckReportsNewer(key: string -> seq<string>, cache: Cache, bypassCache: bool, name: string, version: string,
                          now: nat, fetched: Option<seq<VersionInfo>>, parseDate: string -> Option<int>)
    requires Consistent(cache, bypassCache, (name, version), now)
    requires Sound(key, cache)
    ensures var (r, after) := CheckSpec(key, cache, bypassCache, name, version, now, fetched, parseDate);
      Sound(key, after) && (r.Some? ==> Reports(key, (name, version), r.value))
  { }

  /**
   * A fresh hit answers with the stored result and leaves the cache as
   * it was, whatever the registry would have answered.
   */
  lemma HitAnswersFromCache(key: string -> seq<string>, cache: Cache, name: string, version: string,
                            now: nat, fetched: Option<seq<VersionInfo>>, parseDate: string -> Option<int>)
    requires (name, version) in cache && cache[(name, version)].timestamp <= now
    requires now < cache[(name, version)].timestamp + CacheExpireTime
    ensures CheckSpec(key, cache, false, name, version, now, fetched, parseDate) == (cache[(name, version)].result, cache)
  { }

  /**
   * Otherwise (the cache is bypassed, holds no entry for the key, or the
   * entry is an hour old or older) the check queries the registry, and
   * records the answer with time `now` under the key, changing no other
   * entry.
   */
  lemma MissRecords(key: string -> seq<string>, cache: Cache, bypassCache: bool, name: string, version: string,
                    now: nat, fetched: Option<seq<VersionInfo>>, parseDate: string -> Option<int>)
    requires Consistent(cache, bypassCache, (name, version), now)
    requires bypassCache || (name, version) !in cache || cache[(name, version)].timestamp + CacheExpireTime <= now
    ensures var (r, after) := CheckSpec(key, cache, bypassCache, name, version, now, fetched, parseDate);
      && r == Decide(key, name, version, Query(key, version, fetched), parseDate)
      && after.Keys == cache.Keys + {(name, version)}
      && after[(name, version)] == CacheEntry(now, r)
      && forall k | k in cache && k != (name, version) :: after[k] == cache[k]
  { }

  /**
   * Asked again within the hour after it queried the registry, a checker
   * that consults its cache gives the same answer, whatever the registry
   * answers the second time, and leaves the cache as it was.
   */
  lemma RepeatWithinHour(key: string -> seq<string>, cache: Cache, name: string, version: string,
                         now: nat, fetched: Option<seq<VersionInfo>>, parseDate: string -> Option<int>,
                         later: nat, fetchedLater: Option<seq<VersionInfo>>, parseDateLater: string -> Option<int>)
    requires Consistent(cache, false, (name, version), now)
    requires !Hit(cache, false, (name, version), now)
    requires now <= later < now + CacheExpireTime
    ensures var (r, after) := CheckSpec(key, cache, false, name, version, now, fetched, parseDate);
      && Consistent(after, false, (name, version), later)
      && CheckSpec(key, after, false, name, version, later, fetchedLater, parseDateLater) == (r, after)
  { }

  /** A running standard release is only ever offered a standard release. */
  lemma StandardOffersStandard(key: string -> seq<string>, name: string, version: string,
                               fetched: Option<seq<VersionInfo>>, parseDate: string -> Option<int>)
    requires StandardRelease(version)
    ensures var r := Decide(key, name, version, Query(key, version, fetched), parseDate);
      r.Some? ==> StandardRelease(r.value.availableVersion)
  {
    if fetched.Some? {
      SelectStandard(key, fetched.value);
    }
  }

  /**
   * No update is reported when the running version's key is at least
   * that of every version the registry lists that is not yanked and is
   * admitted.
   */
  lemma UpToDate(key: string -> seq<string>, name: string, version: string,
                 vs: seq<VersionInfo>, parseDate: string -> Option<int>)
    requires forall i :: 0 <= i < |vs| && Candidate(vs[i], !StandardRelease(version)) ==> KeyLe(key(vs[i].num), key(version))
    ensures Decide(key, name, version, Query(key, version, Some(vs)), parseDate) == None
  {
    UpdateFound(key, name, version, Some(vs), parseDate);
  }
}
