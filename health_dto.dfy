/** The JSON shape of the health endpoint (src/interfaces/http/dto/health.dto.ts). */
module HealthDto {
  import opened Common
  import opened HealthModel

  datatype HealthCheckDto = HealthCheckDto(name: string, status: string, message: Option<string>, timestamp: Instant)

  datatype HealthResponseDto = HealthResponseDto(status: string, checks: seq<HealthCheckDto>, timestamp: Instant)

  /** `healthCheckDto`: name and status string copied; the `message` property
      is present exactly when the check has one. The timestamp is kept as the
      instant rather than its ISO text. */
  function CheckDto(check: HealthCheck): (d: HealthCheckDto)
    ensures d.name == check.name && d.status == StatusString(check.status) && d.timestamp == check.timestamp
    ensures d.message.Some? <==> check.message.Some?
    ensures check.message.Some? ==> d.message.value == check.message.value
  {
    var dto := HealthCheckDto(check.name, StatusString(check.status), None, check.timestamp);
    if check.message.Some? then dto.(message := check.message) else dto
  }

  function CheckDtos(checks: seq<HealthCheck>): (r: seq<HealthCheckDto>)
    ensures |r| == |checks|
    ensures forall i :: 0 <= i < |checks| ==> r[i] == CheckDto(checks[i])
  {
    if checks == [] then [] else [CheckDto(checks[0])] + CheckDtos(checks[1..])
  }

  /** `healthResponseDto`: the status string copied, the checks mapped one to
      one in their order. */
  function ResponseDto(health: SystemHealth): (d: HealthResponseDto)
    ensures d.status == StatusString(health.status) && d.timestamp == health.timestamp
    ensures |d.checks| == |health.checks|
    ensures forall i :: 0 <= i < |health.checks| ==> d.checks[i] == CheckDto(health.checks[i])
  {
    HealthResponseDto(StatusString(health.status), CheckDtos(health.checks), health.timestamp)
  }

  /** Nothing is lost in a check's DTO: equal DTOs come from equal checks. */
  lemma CheckDtoInjective(a: HealthCheck, b: HealthCheck)
    requires CheckDto(a) == CheckDto(b)
    ensures a == b
  {
    StatusStringInjective(a.status, b.status);
  }

  /** Nothing is lost in the health DTO either: the health can be read back
      from it, checks in their order. */
  lemma ResponseDtoInjective(a: SystemHealth, b: SystemHealth)
    requires ResponseDto(a) == ResponseDto(b)
    ensures a == b
  {
    StatusStringInjective(a.status, b.status);
    forall i | 0 <= i < |a.checks| ensures a.checks[i] == b.checks[i] {
      assert ResponseDto(a).checks[i] == ResponseDto(b).checks[i];
      CheckDtoInjective(a.checks[i], b.checks[i]);
    }
  }
}
