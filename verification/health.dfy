/** The status logic of src/routes/health.ts: the memory and disk checks,
    the folding of check results into the overall status of
    `/health/detailed`, and the `/health/ready` decision. The database and
    Redis probes, the clock and `process.memoryUsage` are inputs. */
module Health {
  import opened Wrappers
  import Arith

  datatype Status = Healthy | Degraded | Unhealthy

  /** How bad a status is: healthy < degraded < unhealthy. */
  function Severity(s: Status): nat {
    match s
    case Healthy => 0
    case Degraded => 1
    case Unhealthy => 2
  }

  /** The worse of two statuses. */
  function Worse(a: Status, b: Status): (w: Status)
    ensures Severity(w) >= Severity(a) && Severity(w) >= Severity(b)
    ensures w == a || w == b
  {
    if Severity(a) >= Severity(b) then a else b
  }

  /** The reference fold: the worst status of a list, healthy when it is
      empty. */
  function WorstOf(statuses: seq<Status>): Status {
    if |statuses| == 0 then Healthy else Worse(WorstOf(statuses[..|statuses| - 1]), statuses[|statuses| - 1])
  }

  /** The overall status as the handler decides it: it starts healthy,
      becomes unhealthy when some check is unhealthy, and otherwise degraded
      when some check is degraded. */
  function Overall(statuses: seq<Status>): (s: Status)
    ensures s == Unhealthy <==> Unhealthy in statuses
    ensures s == Degraded <==> Unhealthy !in statuses && Degraded in statuses
    ensures s == Healthy <==> forall i :: 0 <= i < |statuses| ==> statuses[i] == Healthy
  {
    if Unhealthy in statuses then Unhealthy
    else if Degraded in statuses then Degraded
    else
      assert forall i :: 0 <= i < |statuses| ==> statuses[i] == Healthy by {
        forall i | 0 <= i < |statuses| ensures statuses[i] == Healthy {
          assert statuses[i] in statuses;
        }
      }
      Healthy
  }

  /** The handler's two `some` tests compute the worst status. */
  lemma {:induction false} OverallIsWorst(statuses: seq<Status>)
    ensures Overall(statuses) == WorstOf(statuses)
  {
    if |statuses| > 0 {
      var init := statuses[..|statuses| - 1];
      var last := statuses[|statuses| - 1];
      OverallIsWorst(init);
      assert statuses == init + [last];
      assert forall s :: s in statuses <==> s in init || s == last;
    }
  }

  /** The HTTP status code of `/health/detailed`. */
  function HttpCode(overall: Status): (code: int)
    ensures code == 503 <==> overall == Unhealthy
    ensures code == 200 <==> overall != Unhealthy
  {
    if overall == Unhealthy then 503 else 200
  }

  /** `process.memoryUsage()`: heap bytes used and heap bytes allocated. */
  datatype MemoryUsage = MemoryUsage(heapUsed: nat, heapTotal: nat)

  /** The memory status from the usage percentage `used / total * 100`,
      compared by cross-multiplication: above 90 is unhealthy, above 75
      degraded. With a zero total JavaScript divides to Infinity (unhealthy)
      or, for zero used, NaN (healthy); the comparisons below agree. */
  function MemoryStatus(m: MemoryUsage): (s: Status)
    ensures s == Unhealthy <==> m.heapUsed * 100 > 90 * m.heapTotal
    ensures s == Degraded <==> 75 * m.heapTotal < m.heapUsed * 100 <= 90 * m.heapTotal
    ensures s == Healthy <==> m.heapUsed * 100 <= 75 * m.heapTotal
  {
    if m.heapUsed * 100 > 90 * m.heapTotal then Unhealthy
    else if m.heapUsed * 100 > 75 * m.heapTotal then Degraded
    else Healthy
  }

  /** The thresholds stated on the usage percentage itself. */
  function StatusOfPercent(p: real): Status {
    if p > 90.0 then Unhealthy else if p > 75.0 then Degraded else Healthy
  }

  /** For a non-empty heap the integer comparison agrees with the source's
      percentage, computed exactly. */
  lemma MemoryStatusMatchesPercent(m: MemoryUsage)
    requires m.heapTotal > 0
    ensures MemoryStatus(m) == StatusOfPercent(m.heapUsed as real / m.heapTotal as real * 100.0)
  {
    PercentAbove(m.heapUsed, m.heapTotal, 90);
    PercentAbove(m.heapUsed, m.heapTotal, 75);
  }

  /** The percentage of `used` in `total` exceeds `k` exactly when `used`
      hundredths exceed `k` times `total`. */
  lemma PercentAbove(used: nat, total: nat, k: nat)
    requires total > 0
    ensures (used as real / total as real * 100.0 > k as real) == (used * 100 > k * total)
  {
    var t := total as real;
    var u := used as real;
    var p := u / t * 100.0;
    PercentTimesTotal(u, t);
    ScaleComparison(p, k as real, t);
    assert (used * 100) as real == u * 100.0;
    assert (k * total) as real == k as real * t;
  }

  /** The percentage times the total is a hundred times the part. */
  lemma PercentTimesTotal(u: real, t: real)
    requires t > 0.0
    ensures (u / t * 100.0) * t == u * 100.0
  {
    var q := u / t;
    assert q * t == u;
    assert (q * 100.0) * t == (q * t) * 100.0;
  }

  /** Multiplying both sides by a positive number keeps a strict comparison. */
  lemma ScaleComparison(a: real, b: real, t: real)
    requires t > 0.0
    ensures a > b <==> a * t > b * t
  {
    if a > b {
      assert a * t - b * t == (a - b) * t;
    } else {
      assert b * t - a * t == (b - a) * t;
    }
  }

  /** Exactly 90% is degraded, exactly 75% is healthy, and anything above
      90% is unhealthy. */
  lemma MemoryBoundaries(total: nat)
    requires total > 0
    ensures MemoryStatus(MemoryUsage(90 * total, 100 * total)) == Degraded
    ensures MemoryStatus(MemoryUsage(75 * total, 100 * total)) == Healthy
    ensures MemoryStatus(MemoryUsage(90 * total + 1, 100 * total)) == Unhealthy
  {
  }

  /** Using more of the same heap never improves the status. */
  lemma MemoryMonotone(used1: nat, used2: nat, total: nat)
    requires used1 <= used2
    ensures Severity(MemoryStatus(MemoryUsage(used1, total))) <= Severity(MemoryStatus(MemoryUsage(used2, total)))
  {
  }

  /** The `details` of the memory check: megabytes rounded to the nearest
      integer, and the rounded percentage, which JSON renders as `null` when
      the heap total is zero (the division gives NaN or Infinity). */
  datatype MemoryDetails = MemoryDetails(heapUsedMB: nat, heapTotalMB: nat, usagePercent: Option<nat>)

  const BytesPerMB: nat := 1024 * 1024

  function MemoryDetailsOf(m: MemoryUsage): (d: MemoryDetails)
    ensures 2 * d.heapUsedMB * BytesPerMB <= 2 * m.heapUsed + BytesPerMB < 2 * (d.heapUsedMB + 1) * BytesPerMB
    ensures 2 * d.heapTotalMB * BytesPerMB <= 2 * m.heapTotal + BytesPerMB < 2 * (d.heapTotalMB + 1) * BytesPerMB
    ensures d.usagePercent.None? <==> m.heapTotal == 0
    ensures m.heapTotal > 0 && m.heapUsed <= m.heapTotal ==> d.usagePercent.value <= 100
    ensures m.heapTotal > 0 ==>
              2 * d.usagePercent.value * m.heapTotal <= 200 * m.heapUsed + m.heapTotal < 2 * (d.usagePercent.value + 1) * m.heapTotal
  {
    var pct := if m.heapTotal == 0 then None else Some(Arith.RoundHalfUp(100 * m.heapUsed, m.heapTotal));
    assert m.heapTotal > 0 && m.heapUsed <= m.heapTotal ==> pct.value <= 100 by {
      if m.heapTotal > 0 && m.heapUsed <= m.heapTotal {
        Arith.PercentAtMostHundred(m.heapUsed, m.heapTotal);
      }
    }
    MemoryDetails(Arith.RoundHalfUp(m.heapUsed, BytesPerMB), Arith.RoundHalfUp(m.heapTotal, BytesPerMB), pct)
  }

  /** One check's result: its status and, for the memory check, the details. */
  datatype CheckResult = CheckResult(status: Status, memory: Option<MemoryDetails>)

  /** `checkMemory`: the status together with the details it reports. The
      reported percentage never contradicts the status: at least 90 when
      unhealthy, between 75 and 90 when degraded, at most 75 when healthy. */
  function CheckMemory(m: MemoryUsage): (c: CheckResult)
    ensures c.status == MemoryStatus(m) && c.memory == Some(MemoryDetailsOf(m))
    ensures m.heapTotal > 0 ==>
              var p := c.memory.value.usagePercent.value;
              && (c.status == Unhealthy ==> p >= 90)
              && (c.status == Degraded ==> 75 <= p <= 90)
              && (c.status == Healthy ==> p <= 75)
  {
    ReportedPercentAgrees(m);
    CheckResult(MemoryStatus(m), Some(MemoryDetailsOf(m)))
  }

  /** The rounded percentage lies on the same side of each threshold as the
      exact ratio the status is decided on, a threshold itself included. */
  lemma ReportedPercentAgrees(m: MemoryUsage)
    ensures m.heapTotal > 0 ==>
              var p, s := MemoryDetailsOf(m).usagePercent.value, MemoryStatus(m);
              && (s == Unhealthy ==> p >= 90)
              && (s == Degraded ==> 75 <= p <= 90)
              && (s == Healthy ==> p <= 75)
  {
    if m.heapTotal > 0 {
      var p, t := MemoryDetailsOf(m).usagePercent.value, m.heapTotal;
      Arith.MulMonotone(2 * (p + 1), 180, t);
      Arith.MulMonotone(2 * (p + 1), 150, t);
      Arith.MulMonotone(182, 2 * p, t);
      Arith.MulMonotone(152, 2 * p, t);
    }
  }

  /** `checkDisk`: disk usage is not monitored, so the check always reports
      healthy. */
  function CheckDisk(): (c: CheckResult)
    ensures c.status == Healthy
  {
    CheckResult(Healthy, None)
  }

  /** The `checks` object of `/health/detailed`. */
  datatype Checks = Checks(database: Status, memory: Status, disk: Status, redis: Option<Status>)

  /** The statuses in `Object.values` order: the three fixed checks, then
      Redis when it was added. */
  function Statuses(c: Checks): (s: seq<Status>)
    ensures |s| == if c.redis.Some? then 4 else 3
    ensures forall x :: x in s <==> x == c.database || x == c.memory || x == c.disk || (c.redis.Some? && x == c.redis.value)
  {
    [c.database, c.memory, c.disk] + (if c.redis.Some? then [c.redis.value] else [])
  }

  /** The body status and HTTP code of `/health/detailed`. */
  datatype Report = Report(status: Status, code: int, checks: Checks)

  /** `/health/detailed` from the probe outcomes: the database status, the
      heap reading, the `REDIS_URL` setting and the Redis status (consulted
      only when Redis is configured, i.e. the URL is set and non-empty). */
  function Detailed(database: Status, m: MemoryUsage, redisUrl: Option<string>, redis: Status): (r: Report)
    ensures r.checks.redis.Some? <==> redisUrl.Some? && redisUrl.value != ""
    ensures r.checks.database == database && r.checks.memory == MemoryStatus(m) && r.checks.disk == Healthy
    ensures r.status == WorstOf(Statuses(r.checks))
    ensures r.code == 503 <==> r.status == Unhealthy
  {
    var checks := Checks(database, CheckMemory(m).status, CheckDisk().status,
                         if redisUrl.Some? && redisUrl.value != "" then Some(redis) else None);
    var overall := Overall(Statuses(checks));
    OverallIsWorst(Statuses(checks));
    Report(overall, HttpCode(overall), checks)
  }

  /** The overall status is the worst of the database, memory and (when
      configured) Redis statuses: the disk check never changes it. */
  lemma DetailedIgnoresDisk(database: Status, m: MemoryUsage, redisUrl: Option<string>, redis: Status)
    ensures var r := Detailed(database, m, redisUrl, redis);
      r.status == Worse(Worse(database, MemoryStatus(m)), if r.checks.redis.Some? then redis else Healthy)
  {
  }

  /** The `/health/ready` answer: ready, or 503 "not ready" with either the
      reason "database unhealthy" or the message of the probe's error. */
  datatype Readiness = Ready | NotReadyUnhealthy | NotReadyError(message: string)

  /** `/health/ready` from the database probe, which either returns a status
      or throws with a message. */
  function ReadinessOf(database: Result<Status, string>): (r: Readiness)
    ensures r == Ready <==> database.Success? && database.value != Unhealthy
    ensures r == NotReadyUnhealthy <==> database == Success(Unhealthy)
    ensures r.NotReadyError? <==> database.Failure?
    ensures database.Failure? ==> r == NotReadyError(database.error)
  {
    match database
    case Success(s) => if s == Unhealthy then NotReadyUnhealthy else Ready
    case Failure(msg) => NotReadyError(msg)
  }

  function ReadyCode(r: Readiness): (code: int)
    ensures code == 503 <==> !r.Ready?
    ensures code == 200 <==> r.Ready?
  {
    if r.Ready? then 200 else 503
  }

  /** Readiness agrees with the detailed report on the database alone: for a
      database status the probe returns, `/health/ready` answers the code
      `/health/detailed` would give if the database were its only check. */
  lemma ReadyAgreesWithDetailed(s: Status)
    ensures ReadyCode(ReadinessOf(Success(s))) == HttpCode(Overall([s]))
  {
    assert Unhealthy in [s] <==> s == Unhealthy;
  }

  /** A degraded database still lets the service report ready. */
  lemma DegradedDatabaseIsReady()
    ensures ReadinessOf(Success(Degraded)) == Ready
  {
  }
}
