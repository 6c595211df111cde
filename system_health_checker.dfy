/** The three probes of the system health checker and their composition
    (src/infrastructure/system/system-health-checker.ts). The environment
    reads become inputs: `process.memoryUsage()` in bytes, `process.uptime()`
    in seconds, each as a `Result` whose `Err` carries the text of what the
    read threw. */
module SystemHealthChecker {
  import opened Common
  import opened Strings
  import opened HealthModel

  datatype MemoryUsage = MemoryUsage(heapUsed: nat, heapTotal: nat)

  const Mebibyte: nat := 1048576

  const DegradedAboveMB: nat := 100

  /** `Math.round(bytes / 1024 / 1024)`: for a non-negative count, the
      nearest whole number of mebibytes, halves rounding up. */
  function RoundMB(bytes: nat): (mb: nat)
    ensures mb * Mebibyte <= bytes + Mebibyte / 2 < (mb + 1) * Mebibyte
  {
    (bytes + Mebibyte / 2) / Mebibyte
  }

  /** `Math.round(x)`: the integer nearest `x`, halves rounding toward +infinity. */
  function Round(x: real): (n: int)
    ensures n as real - 0.5 <= x < n as real + 0.5
  {
    (x + 0.5).Floor
  }

  /** `checkMemory`: DEGRADED above 100 rounded mebibytes of used heap. */
  function CheckMemory(usage: Result<MemoryUsage>, now: Instant): (c: HealthCheck)
    ensures c.name == "memory" && c.timestamp == now && c.message.Some?
    ensures usage.Err? ==> c.status == Unhealthy && c.message.value == "Memory check failed: " + usage.message
    ensures usage.Ok? ==> (c.status == Degraded <==> RoundMB(usage.value.heapUsed) > DegradedAboveMB)
    ensures usage.Ok? ==> c.status != Unhealthy
    ensures usage.Ok? ==> (c.message.value ==
      "Heap: " + NatToString(RoundMB(usage.value.heapUsed)) + "MB/" + NatToString(RoundMB(usage.value.heapTotal)) + "MB")
  {
    match usage
    case Err(e) => CreateHealthCheck("memory", Unhealthy, Some("Memory check failed: " + e), now)
    case Ok(m) =>
      var heapUsedMB := RoundMB(m.heapUsed);
      var heapTotalMB := RoundMB(m.heapTotal);
      var status := if heapUsedMB > DegradedAboveMB then Degraded else Healthy;
      var message := "Heap: " + NatToString(heapUsedMB) + "MB/" + NatToString(heapTotalMB) + "MB";
      CreateHealthCheck("memory", status, Some(message), now)
  }

  /** In bytes, the memory probe turns DEGRADED from 100.5 MiB of used heap on. */
  lemma MemoryThreshold(heapUsed: nat)
    ensures RoundMB(heapUsed) > DegradedAboveMB <==> heapUsed >= 105381888
  {
    var mb := RoundMB(heapUsed);
    if heapUsed >= 105381888 {
      assert heapUsed + Mebibyte / 2 >= 101 * Mebibyte;
    } else {
      assert heapUsed + Mebibyte / 2 < 101 * Mebibyte;
    }
  }

  /** `checkSystem`: HEALTHY exactly when the uptime is positive. */
  function CheckSystem(uptime: Result<real>, now: Instant): (c: HealthCheck)
    ensures c.name == "system" && c.timestamp == now && c.message.Some?
    ensures c.status == Healthy <==> uptime.Ok? && uptime.value > 0.0
    ensures c.status != Degraded
    ensures uptime.Err? ==> c.message.value == "System check failed: " + uptime.message
    ensures uptime.Ok? ==> c.message.value == "Uptime: " + IntToString(Round(uptime.value)) + "s"
  {
    match uptime
    case Err(e) => CreateHealthCheck("system", Unhealthy, Some("System check failed: " + e), now)
    case Ok(u) =>
      var status := if u > 0.0 then Healthy else Unhealthy;
      CreateHealthCheck("system", status, Some("Uptime: " + IntToString(Round(u)) + "s"), now)
  }

  /** `checkApplication`: always HEALTHY. */
  function CheckApplication(now: Instant): (c: HealthCheck)
    ensures c == HealthCheck("application", Healthy, Some("Application is running"), now)
  {
    CreateHealthCheck("application", Healthy, Some("Application is running"), now)
  }

  /** `checkHealth`: the three probes, in the order memory, system,
      application, aggregated by `createSystemHealth`. */
  function CheckHealth(usage: Result<MemoryUsage>, uptime: Result<real>, now: Instant): (h: SystemHealth)
    ensures h.checks == [CheckMemory(usage, now), CheckSystem(uptime, now), CheckApplication(now)]
    ensures h.timestamp == now
  {
    var checks := [CheckMemory(usage, now), CheckSystem(uptime, now), CheckApplication(now)];
    CreateSystemHealth(checks, now)
  }

  /** The overall status in terms of the readings: UNHEALTHY when a read
      failed or the uptime is not positive; otherwise DEGRADED when the
      used heap rounds above 100 MiB; otherwise HEALTHY. */
  lemma {:induction false} CheckHealthStatus(usage: Result<MemoryUsage>, uptime: Result<real>, now: Instant)
    ensures var h := CheckHealth(usage, uptime, now);
      && (h.status == Unhealthy <==> usage.Err? || uptime.Err? || uptime.value <= 0.0)
      && (h.status == Degraded <==> usage.Ok? && uptime.Ok? && uptime.value > 0.0 && RoundMB(usage.value.heapUsed) > DegradedAboveMB)
  {
    var h := CheckHealth(usage, uptime, now);
    var m := CheckMemory(usage, now);
    var s := CheckSystem(uptime, now);
    var a := CheckApplication(now);
    assert h.checks[0] == m && h.checks[1] == s && h.checks[2] == a;
    if m.status == Unhealthy || s.status == Unhealthy {
      assert SomeUnhealthy(h.checks);
    } else {
      assert !SomeUnhealthy(h.checks);
      assert EveryHealthy(h.checks) <==> m.status == Healthy;
    }
  }
}
