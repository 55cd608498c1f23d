/**
 * The health check. A scope (all dependencies, or one of S3, PostgreSQL, Redis) selects
 * which liveness probes run, in a fixed order, stopping at the first failure. The answer
 * is memoised in Redis under one fixed key for 60 seconds: a cached answer is returned
 * before any probe runs, a success is written back, and a failure never is.
 *
 * The probes and the Redis connections are not modelled: what each probe and each cache
 * access yields is an input. Redis's keyspace, as far as this service touches it, is the
 * `HealthCache` object.
 */
module HealthService {
  import opened Wrappers
  import opened Http

  const HealthCheckKey: string := "health_check_status"

  /** Seconds a cached health answer lives. */
  const CacheExpiration: nat := 60

  datatype HealthCheckType = All | S3 | Postgres | Redis

  /** One dependency: a scope other than `All`. */
  type Service = t: HealthCheckType | !t.All? witness S3

  function SuccessMessage(checkType: HealthCheckType): string
  {
    match checkType
    case All => "All services are healthy"
    case S3 => "S3 is healthy"
    case Postgres => "PostgreSQL is healthy"
    case Redis => "Redis is healthy"
  }

  /** What a failed probe's error text is prefixed with. */
  function FailurePrefix(service: Service): string
  {
    if service.S3? then "S3 Health Check Failed: "
    else if service.Postgres? then "PostgreSQL Health Check Failed: "
    else "Redis Health Check Failed: "
  }

  /** What each dependency's liveness probe would yield if it were run. */
  datatype ProbeOutcomes = ProbeOutcomes(s3: Outcome<string>, postgres: Outcome<string>, redis: Outcome<string>)
  {
    function Of(service: Service): Outcome<string>
    {
      if service.S3? then s3 else if service.Postgres? then postgres else redis
    }
  }

  /** The probes a scope runs, in the order it runs them. */
  function ProbeOrder(checkType: HealthCheckType): seq<Service>
  {
    match checkType
    case All => [S3, Postgres, Redis]
    case S3 => [S3]
    case Postgres => [Postgres]
    case Redis => [Redis]
  }

  /** The outcome of running probes, and the probes that were run, in order. */
  datatype ProbeRun = ProbeRun(result: Outcome<string>, probed: seq<Service>)

  /**
   * Runs the probes of `order` one after the other until one fails. The probes run are a
   * prefix of `order`; the run passes exactly when every probe in `order` passes, and then
   * every probe was run. `RunProbesFailure` gives the shape of a failed run.
   */
  function RunProbes(order: seq<Service>, probes: ProbeOutcomes): (run: ProbeRun)
    ensures run.probed <= order
    ensures run.result.Pass? <==> forall i :: 0 <= i < |order| ==> probes.Of(order[i]).Pass?
    ensures run.result.Pass? ==> run.probed == order
  {
    if order == [] then ProbeRun(Pass, [])
    else
      match probes.Of(order[0])
      case Fail(e) => ProbeRun(Fail(FailurePrefix(order[0]) + e), [order[0]])
      case Pass =>
        var rest := RunProbes(order[1..], probes);
        assert order == [order[0]] + order[1..];
        ProbeRun(rest.result, [order[0]] + rest.probed)
  }

  /**
   * A failed run stops at its first failing probe: every probe before the last one run
   * passed, the last one failed, and the error is that probe's, under its service prefix.
   */
  lemma {:induction false} RunProbesFailure(order: seq<Service>, probes: ProbeOutcomes)
    ensures var run := RunProbes(order, probes);
      run.result.Fail? ==>
        && |run.probed| > 0
        && (forall i :: 0 <= i < |run.probed| - 1 ==> probes.Of(run.probed[i]).Pass?)
        && var last := run.probed[|run.probed| - 1];
           probes.Of(last).Fail? && run.result.error == FailurePrefix(last) + probes.Of(last).error
  {
    if order != [] && probes.Of(order[0]).Pass? {
      var rest := RunProbes(order[1..], probes);
      RunProbesFailure(order[1..], probes);
      var probed := [order[0]] + rest.probed;
      if rest.result.Fail? {
        assert probed[|probed| - 1] == rest.probed[|rest.probed| - 1];
        forall i | 0 <= i < |probed| - 1
          ensures probes.Of(probed[i]).Pass?
        {
          if i > 0 {
            assert probed[i] == rest.probed[i - 1];
          }
        }
      }
    }
  }

  /** Runs the scope's probes, stopping at the first failure; returns the outcome and the probes run. */
  method CheckHealth(checkType: HealthCheckType, probes: ProbeOutcomes) returns (result: Outcome<string>, probed: seq<Service>)
    ensures ProbeRun(result, probed) == RunProbes(ProbeOrder(checkType), probes)
  {
    match checkType
    case All =>
      if probes.s3.Fail? {
        return Fail("S3 Health Check Failed: " + probes.s3.error), [S3];
      }
      if probes.postgres.Fail? {
        return Fail("PostgreSQL Health Check Failed: " + probes.postgres.error), [S3, Postgres];
      }
      assert RunProbes([Redis], probes).probed == [Redis];
      assert RunProbes([Postgres, Redis], probes).probed == [Postgres] + [Redis];
      assert [S3] + ([Postgres] + [Redis]) == [S3, Postgres, Redis];
      if probes.redis.Fail? {
        return Fail("Redis Health Check Failed: " + probes.redis.error), [S3, Postgres, Redis];
      }
      return Pass, [S3, Postgres, Redis];
    case S3 =>
      if probes.s3.Fail? {
        return Fail("S3 Health Check Failed: " + probes.s3.error), [S3];
      }
      return Pass, [S3];
    case Postgres =>
      if probes.postgres.Fail? {
        return Fail("PostgreSQL Health Check Failed: " + probes.postgres.error), [Postgres];
      }
      return Pass, [Postgres];
    case Redis =>
      if probes.redis.Fail? {
        return Fail("Redis Health Check Failed: " + probes.redis.error), [Redis];
      }
      return Pass, [Redis];
  }

  /**
   * The cache's keyspace: a value and the TTL it was last written with, per key. Every
   * access goes through a connection whose success or failure is given as `link`.
   */
  class HealthCache {
    var entries: map<string, string>
    var ttls: map<string, nat>

    constructor ()
      ensures entries == map[] && ttls == map[]
    {
      entries := map[];
      ttls := map[];
    }

    /** Reads `key`: the connection's error, or the stored value if there is one. */
    method Get(key: string, link: Outcome<string>) returns (r: Result<Option<string>, string>)
      ensures link.Fail? ==> r == Failure(link.error)
      ensures link.Pass? && key in entries ==> r == Success(Some(entries[key]))
      ensures link.Pass? && key !in entries ==> r == Success(None)
    {
      if link.Fail? {
        return Failure(link.error);
      }
      if key in entries {
        return Success(Some(entries[key]));
      }
      return Success(None);
    }

    /** Writes `key` with a TTL, replacing any earlier value; a failed connection writes nothing. */
    method SetEx(key: string, value: string, ttl: nat, link: Outcome<string>) returns (r: Outcome<string>)
      modifies this
      ensures r == link
      ensures link.Pass? ==> entries == old(entries)[key := value] && ttls == old(ttls)[key := ttl]
      ensures link.Fail? ==> entries == old(entries) && ttls == old(ttls)
    {
      if link.Pass? {
        entries := entries[key := value];
        ttls := ttls[key := ttl];
      }
      return link;
    }
  }

  /** A status code and a message. */
  datatype Reply = Reply(status: StatusCode, message: string)

  /** The cached answer as a 200, or an error when the read fails or the key is absent. */
  method GetCachedHealthCheckStatus(cache: HealthCache, link: Outcome<string>) returns (r: Result<Reply, string>)
    ensures r.Success? <==> link.Pass? && HealthCheckKey in cache.entries
    ensures r.Success? ==> r.value == Reply(StatusOk, cache.entries[HealthCheckKey])
  {
    var cached := cache.Get(HealthCheckKey, link);
    match cached
    case Failure(e) => r := Failure(e);
    case Success(None) => r := Failure("Cache not found or expired");
    case Success(Some(v)) => r := Success(Reply(StatusOk, v));
  }

  /** Writes the reply's message under the fixed key with the 60-second TTL. */
  method CacheHealthCheckStatus(cache: HealthCache, status: Reply, link: Outcome<string>) returns (r: Outcome<string>)
    modifies cache
    ensures r == link
    ensures link.Pass? ==>
      && cache.entries == old(cache.entries)[HealthCheckKey := status.message]
      && cache.ttls == old(cache.ttls)[HealthCheckKey := CacheExpiration]
    ensures link.Fail? ==> cache.entries == old(cache.entries) && cache.ttls == old(cache.ttls)
  {
    r := cache.SetEx(HealthCheckKey, status.message, CacheExpiration, link);
  }

  /**
   * Answers a health request: from the cache when the fixed key is there (whatever the
   * scope, and without probing); otherwise by probing, caching only a success. `readLink`
   * and `writeLink` are what the two cache connections yield.
   */
  method PerformHealthCheck(
    cache: HealthCache,
    checkType: HealthCheckType,
    readLink: Outcome<string>,
    probes: ProbeOutcomes,
    writeLink: Outcome<string>)
    returns (reply: Reply, probed: seq<Service>)
    modifies cache
    ensures readLink.Pass? && HealthCheckKey in old(cache.entries) ==>
      && reply == Reply(StatusOk, old(cache.entries)[HealthCheckKey])
      && probed == []
      && cache.entries == old(cache.entries) && cache.ttls == old(cache.ttls)
    ensures !(readLink.Pass? && HealthCheckKey in old(cache.entries)) ==>
      var run := RunProbes(ProbeOrder(checkType), probes);
      && probed == run.probed
      && (run.result.Fail? ==>
            reply == Reply(StatusInternalServerError, run.result.error)
            && cache.entries == old(cache.entries) && cache.ttls == old(cache.ttls))
      && (run.result.Pass? && writeLink.Pass? ==>
            reply == Reply(StatusOk, SuccessMessage(checkType))
            && cache.entries == old(cache.entries)[HealthCheckKey := SuccessMessage(checkType)]
            && cache.ttls == old(cache.ttls)[HealthCheckKey := CacheExpiration])
      && (run.result.Pass? && writeLink.Fail? ==>
            reply == Reply(StatusInternalServerError, "Failed to cache health check status: " + writeLink.error)
            && cache.entries == old(cache.entries) && cache.ttls == old(cache.ttls))
  {
    var cached := GetCachedHealthCheckStatus(cache, readLink);
    if cached.Success? {
      return cached.value, [];
    }

    var result;
    result, probed := CheckHealth(checkType, probes);
    match result
    case Pass =>
      var response := Reply(StatusOk, SuccessMessage(checkType));
      var written := CacheHealthCheckStatus(cache, response, writeLink);
      if written.Fail? {
        return Reply(StatusInternalServerError, "Failed to cache health check status: " + written.error), probed;
      }
      reply := response;
    case Fail(e) =>
      reply := Reply(StatusInternalServerError, e);
  }
}

/** Properties of the health check, over all scopes and probe outcomes. */
module HealthServiceProperties {
  import opened Wrappers
  import opened Http
  import opened HealthService

  /** The full check probes S3, then PostgreSQL, then Redis, and reports the first failure. */
  lemma AllScopeStopsAtFirstFailure(probes: ProbeOutcomes)
    ensures probes.s3.Fail? ==>
      RunProbes(ProbeOrder(All), probes) == ProbeRun(Fail("S3 Health Check Failed: " + probes.s3.error), [S3])
    ensures probes.s3.Pass? && probes.postgres.Fail? ==>
      RunProbes(ProbeOrder(All), probes)
        == ProbeRun(Fail("PostgreSQL Health Check Failed: " + probes.postgres.error), [S3, Postgres])
    ensures probes.s3.Pass? && probes.postgres.Pass? && probes.redis.Fail? ==>
      RunProbes(ProbeOrder(All), probes)
        == ProbeRun(Fail("Redis Health Check Failed: " + probes.redis.error), [S3, Postgres, Redis])
  {
    var order := ProbeOrder(All);
    assert order[1..] == [Postgres, Redis];
    assert order[1..][1..] == [Redis];
    if probes.s3.Pass? && probes.postgres.Pass? && probes.redis.Fail? {
      var last := RunProbes([Redis], probes);
      assert last == ProbeRun(Fail("Redis Health Check Failed: " + probes.redis.error), [Redis]);
      assert RunProbes([Postgres, Redis], probes).probed == [Postgres] + [Redis];
      assert [S3] + ([Postgres] + [Redis]) == [S3, Postgres, Redis];
    }
  }

  /** The full check passes exactly when each single-service check would pass. */
  lemma AllHealthyIffEachHealthy(probes: ProbeOutcomes)
    ensures RunProbes(ProbeOrder(All), probes).result.Pass?
      <==> (forall s: Service :: RunProbes(ProbeOrder(s), probes).result.Pass?)
  {
    var order := ProbeOrder(All);
    if RunProbes(order, probes).result.Pass? {
      forall s: Service
        ensures RunProbes(ProbeOrder(s), probes).result.Pass?
      {
        assert order[0] == S3 && order[1] == Postgres && order[2] == Redis;
      }
    } else {
      var i :| 0 <= i < |order| && probes.Of(order[i]).Fail?;
      assert !RunProbes(ProbeOrder(order[i]), probes).result.Pass?;
    }
  }

  /** A single-service scope runs exactly its own probe. */
  lemma SingleScopeProbesOnlyItself(s: Service, probes: ProbeOutcomes)
    ensures RunProbes(ProbeOrder(s), probes).probed == [s]
    ensures RunProbes(ProbeOrder(s), probes).result
      == if probes.Of(s).Pass? then Pass else Fail(FailurePrefix(s) + probes.Of(s).error)
  {
  }

  /** Each scope has its own success message, so a cached message tells which scope cached it. */
  lemma SuccessMessagesDistinct(t1: HealthCheckType, t2: HealthCheckType)
    ensures SuccessMessage(t1) == SuccessMessage(t2) <==> t1 == t2
  {
  }

  /**
   * Within the cache's lifetime, a second request of any scope is answered with the first
   * request's message, without running a probe, even when its own probes would fail.
   */
  method SecondCheckServedFromCache(
    cache: HealthCache,
    first: HealthCheckType,
    second: HealthCheckType,
    firstProbes: ProbeOutcomes,
    secondProbes: ProbeOutcomes)
    returns (firstReply: Reply, secondReply: Reply, secondProbed: seq<Service>)
    requires HealthCheckKey !in cache.entries
    requires RunProbes(ProbeOrder(first), firstProbes).result.Pass?
    modifies cache
    ensures firstReply == Reply(StatusOk, SuccessMessage(first))
    ensures secondReply == firstReply
    ensures secondProbed == []
    ensures HealthCheckKey in cache.ttls && cache.ttls[HealthCheckKey] == CacheExpiration
  {
    var firstProbed;
    firstReply, firstProbed := PerformHealthCheck(cache, first, Pass, firstProbes, Pass);
    secondReply, secondProbed := PerformHealthCheck(cache, second, Pass, secondProbes, Pass);
  }

  /** A failed check leaves the cache as it was, so the next request probes again. */
  method FailureNotCached(
    cache: HealthCache,
    first: HealthCheckType,
    second: HealthCheckType,
    firstProbes: ProbeOutcomes,
    secondProbes: ProbeOutcomes)
    returns (firstReply: Reply, secondProbed: seq<Service>)
    requires HealthCheckKey !in cache.entries
    requires RunProbes(ProbeOrder(first), firstProbes).result.Fail?
    modifies cache
    ensures firstReply.status == StatusInternalServerError
    ensures secondProbed == RunProbes(ProbeOrder(second), secondProbes).probed
    ensures secondProbed != []
  {
    var firstProbed, secondReply;
    firstReply, firstProbed := PerformHealthCheck(cache, first, Pass, firstProbes, Pass);
    secondReply, secondProbed := PerformHealthCheck(cache, second, Pass, secondProbes, Pass);
  }
}
