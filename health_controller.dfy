/** The Express health controller
    (src/interfaces/http/controllers/health.controller.ts): the status code
    follows the health, 200 for healthy or degraded and 503 otherwise. */
module HealthController {
  import opened Common
  import opened HealthModel
  import opened Http
  import opened UserDto
  import HealthDto
  import SystemHealthChecker
  import AbstractHealthController

  /** `getHttpStatusFromHealth`: a switch on the status string whose
      default, like "unhealthy", is 503. */
  function HttpStatusFromHealth(status: string): (code: int)
    ensures code == 200 <==> status == "healthy" || status == "degraded"
    ensures code == 503 <==> !(status == "healthy" || status == "degraded")
  {
    match status
    case "healthy" => 200
    case "degraded" => 200
    case "unhealthy" => 503
    case _ => 503
  }

  /** Over the three statuses: 503 exactly for UNHEALTHY. */
  lemma StatusPolicy(s: HealthStatus)
    ensures HttpStatusFromHealth(StatusString(s)) == (if s == Unhealthy then 503 else 200)
  {
  }

  /** `getHealth`: the DTO with the status the health calls for, or 503
      `{error: 'ServiceUnavailable', message, timestamp}` when the use case
      throws; `now` is the instant of that timestamp. */
  function GetHealthReply(result: Result<SystemHealth>, now: Instant): (reply: Reply)
    ensures result.Ok? ==> reply == Reply(HttpStatusFromHealth(StatusString(result.value.status)), [],
                                          HealthBody(HealthDto.ResponseDto(result.value)))
    ensures result.Err? ==> reply == Reply(503, [], ErrorDtoBody(ErrorResponseDto("ServiceUnavailable", "Health check failed", now)))
  {
    match result
    case Ok(health) =>
      var responseDto := HealthDto.ResponseDto(health);
      Reply(HttpStatusFromHealth(StatusString(health.status)), [], HealthBody(responseDto))
    case Err(_) => Reply(503, [], ErrorDtoBody(ErrorResponseDto("ServiceUnavailable", "Health check failed", now)))
  }

  method GetHealth(result: Result<SystemHealth>, res: HttpResponse, now: Instant)
    modifies res
    ensures res.Holds(GetHealthReply(result, now), old(res.headers))
  {
    if result.Err? {
      res.Status(503);
      res.Json(ErrorDtoBody(ErrorResponseDto("ServiceUnavailable", "Health check failed", now)));
      return;
    }
    var responseDto := HealthDto.ResponseDto(result.value);
    var statusCode := HttpStatusFromHealth(StatusString(result.value.status));
    res.Status(statusCode);
    res.Json(HealthBody(responseDto));
  }

  /** Served from the system checker, the endpoint answers 200 exactly when
      both readings succeed and the uptime is positive; a large heap alone
      (DEGRADED) still answers 200. */
  lemma SystemCheckerReply(usage: Result<SystemHealthChecker.MemoryUsage>, uptime: Result<real>, now: Instant)
    ensures GetHealthReply(Ok(SystemHealthChecker.CheckHealth(usage, uptime, now)), now).status == 200
      <==> usage.Ok? && uptime.Ok? && uptime.value > 0.0
  {
    SystemHealthChecker.CheckHealthStatus(usage, uptime, now);
    StatusPolicy(SystemHealthChecker.CheckHealth(usage, uptime, now).status);
  }

  /** The two health controllers disagree exactly on UNHEALTHY results and
      on failures: 503 here, 200 or 500 there. */
  lemma PoliciesCompared(result: Result<SystemHealth>, now: Instant)
    ensures result.Ok? && result.value.status != Unhealthy ==>
      GetHealthReply(result, now) == AbstractHealthController.GetHealthReply(result)
    ensures result.Ok? && result.value.status == Unhealthy ==>
      GetHealthReply(result, now).status == 503 && AbstractHealthController.GetHealthReply(result).status == 200
    ensures result.Err? ==>
      GetHealthReply(result, now).status == 503 && AbstractHealthController.GetHealthReply(result).status == 500
  {
    if result.Ok? {
      StatusPolicy(result.value.status);
    }
  }
}
