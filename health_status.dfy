/** Health states, individual checks and their aggregation into the health of
    the whole system (src/domain/health/health-status.ts). */
module HealthModel {
  import opened Common

  datatype HealthStatus = Healthy | Unhealthy | Degraded

  /** The string each enum member stands for at run time. */
  function StatusString(s: HealthStatus): (r: string)
  {
    match s
    case Healthy => "healthy"
    case Unhealthy => "unhealthy"
    case Degraded => "degraded"
  }

  /** Distinct statuses have distinct strings, so the strings identify them. */
  lemma StatusStringInjective(a: HealthStatus, b: HealthStatus)
    ensures StatusString(a) == StatusString(b) ==> a == b
  {
    if a != b {
      assert StatusString(a)[0] != StatusString(b)[0] || |StatusString(a)| != |StatusString(b)|;
    }
  }

  datatype HealthCheck = HealthCheck(name: string, status: HealthStatus, message: Option<string>, timestamp: Instant)

  datatype SystemHealth = SystemHealth(status: HealthStatus, checks: seq<HealthCheck>, timestamp: Instant)

  /** `createHealthCheck`: the check keeps name and status and carries a
      message exactly when one was supplied; `now` is the `new Date()` it takes. */
  function CreateHealthCheck(name: string, status: HealthStatus, message: Option<string>, now: Instant): (c: HealthCheck)
    ensures c.name == name && c.status == status && c.timestamp == now
    ensures c.message.Some? <==> message.Some?
    ensures message.Some? ==> c.message.value == message.value
  {
    var check := HealthCheck(name, status, None, now);
    if message.Some? then check.(message := message) else check
  }

  /** `checks.every(check => check.status === HealthStatus.HEALTHY)`. */
  predicate EveryHealthy(checks: seq<HealthCheck>) {
    forall i :: 0 <= i < |checks| ==> checks[i].status == Healthy
  }

  /** `checks.some(check => check.status === HealthStatus.UNHEALTHY)`. */
  predicate SomeUnhealthy(checks: seq<HealthCheck>) {
    exists i :: 0 <= i < |checks| && checks[i].status == Unhealthy
  }

  /** The status `createSystemHealth` computes. */
  function OverallStatus(checks: seq<HealthCheck>): (s: HealthStatus)
  {
    if EveryHealthy(checks) then Healthy
    else if SomeUnhealthy(checks) then Unhealthy
    else Degraded
  }

  /** `createSystemHealth`: the checks are kept as given and the status is
      their aggregate; `now` is the `new Date()` it takes. */
  function CreateSystemHealth(checks: seq<HealthCheck>, now: Instant): (h: SystemHealth)
    ensures h.checks == checks && h.timestamp == now
    ensures EveryHealthy(checks) ==> h.status == Healthy
    ensures SomeUnhealthy(checks) ==> h.status == Unhealthy
    ensures !SomeUnhealthy(checks) && !EveryHealthy(checks) ==> h.status == Degraded
  {
    SystemHealth(OverallStatus(checks), checks, now)
  }

  /** No checks at all aggregate to HEALTHY, because `every` holds vacuously. */
  lemma EmptyIsHealthy(now: Instant)
    ensures CreateSystemHealth([], now).status == Healthy
  {
  }

  // An independent reference: the worst status under UNHEALTHY > DEGRADED > HEALTHY.

  function Severity(s: HealthStatus): (n: nat)
  {
    match s
    case Healthy => 0
    case Degraded => 1
    case Unhealthy => 2
  }

  function Worse(a: HealthStatus, b: HealthStatus): (w: HealthStatus)
  {
    if Severity(a) >= Severity(b) then a else b
  }

  /** The worst status of the checks, folded from the left; HEALTHY when there are none. */
  function Worst(checks: seq<HealthCheck>): (w: HealthStatus)
  {
    if checks == [] then Healthy else Worse(Worst(checks[..|checks| - 1]), checks[|checks| - 1].status)
  }

  /** `Worst` is at least as severe as each check and is the status of one of
      them (or HEALTHY for none). */
  lemma {:induction false} WorstBounds(checks: seq<HealthCheck>)
    ensures forall i :: 0 <= i < |checks| ==> Severity(checks[i].status) <= Severity(Worst(checks))
    ensures Worst(checks) == Healthy || exists i :: 0 <= i < |checks| && checks[i].status == Worst(checks)
  {
    if checks != [] {
      var front := checks[..|checks| - 1];
      WorstBounds(front);
      assert forall i :: 0 <= i < |front| ==> front[i] == checks[i];
    }
  }

  /** The aggregation rule is the worst status under
      UNHEALTHY > DEGRADED > HEALTHY. */
  lemma AggregateIsWorst(checks: seq<HealthCheck>, now: Instant)
    ensures CreateSystemHealth(checks, now).status == Worst(checks)
  {
    WorstBounds(checks);
    var w := Worst(checks);
    if EveryHealthy(checks) {
    } else if SomeUnhealthy(checks) {
      var i :| 0 <= i < |checks| && checks[i].status == Unhealthy;
      assert Severity(w) >= 2;
    } else {
      var i :| 0 <= i < |checks| && checks[i].status != Healthy;
      assert Severity(w) >= 1;
    }
  }

  function Statuses(checks: seq<HealthCheck>): (r: seq<HealthStatus>)
    ensures |r| == |checks| && forall i :: 0 <= i < |checks| ==> r[i] == checks[i].status
  {
    if checks == [] then [] else [checks[0].status] + Statuses(checks[1..])
  }

  /** The aggregate depends only on which statuses occur, counted with
      multiplicity, and not on the order of the checks. */
  lemma OrderIndependent(a: seq<HealthCheck>, b: seq<HealthCheck>, now: Instant)
    requires multiset(Statuses(a)) == multiset(Statuses(b))
    ensures CreateSystemHealth(a, now).status == CreateSystemHealth(b, now).status
  {
    OccursSame(a, b, Degraded);
    OccursSame(a, b, Unhealthy);
    StatusesDecide(a);
    StatusesDecide(b);
  }

  /** Both tests of the aggregation read only which statuses occur. */
  lemma StatusesDecide(checks: seq<HealthCheck>)
    ensures EveryHealthy(checks) <==> Degraded !in Statuses(checks) && Unhealthy !in Statuses(checks)
    ensures SomeUnhealthy(checks) <==> Unhealthy in Statuses(checks)
  {
    StatusOccurs(checks);
    if !EveryHealthy(checks) {
      var i :| 0 <= i < |checks| && checks[i].status != Healthy;
      assert checks[i].status == Degraded || checks[i].status == Unhealthy;
    }
  }

  lemma OccursSame(a: seq<HealthCheck>, b: seq<HealthCheck>, s: HealthStatus)
    requires multiset(Statuses(a)) == multiset(Statuses(b))
    ensures s in Statuses(a) <==> s in Statuses(b)
  {
    assert s in Statuses(a) <==> s in multiset(Statuses(a));
    assert s in Statuses(b) <==> s in multiset(Statuses(b));
  }

  lemma StatusOccurs(checks: seq<HealthCheck>)
    ensures forall s :: s in Statuses(checks) <==> exists i :: 0 <= i < |checks| && checks[i].status == s
  {
    var r := Statuses(checks);
    forall s ensures s in r <==> exists i :: 0 <= i < |checks| && checks[i].status == s {
      if s in r {
        var i :| 0 <= i < |r| && r[i] == s;
        assert checks[i].status == s;
      }
      if exists i :: 0 <= i < |checks| && checks[i].status == s {
        var i :| 0 <= i < |checks| && checks[i].status == s;
        assert r[i] == s;
      }
    }
  }
}
