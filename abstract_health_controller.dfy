/** The framework-neutral health controller
    (src/interfaces/http/controllers/abstract-health.controller.ts). The
    health use case only forwards the checker's result, so `result` stands
    for what `execute()` settles to: the system health, or a failure. */
module AbstractHealthController {
  import opened Common
  import opened HealthModel
  import opened Http
  import HealthDto

  /** `getHealth`: 200 with the DTO whenever the use case succeeds, whatever
      the health; 500 with `{error, message}` (no timestamp) when it throws. */
  function GetHealthReply(result: Result<SystemHealth>): (reply: Reply)
    ensures result.Ok? ==> reply == Reply(200, [], HealthBody(HealthDto.ResponseDto(result.value)))
    ensures result.Err? ==> reply == Reply(500, [], PlainErrorBody("InternalServerError", "Health check failed"))
  {
    match result
    case Ok(health) => Reply(200, [], HealthBody(HealthDto.ResponseDto(health)))
    case Err(_) => Reply(500, [], PlainErrorBody("InternalServerError", "Health check failed"))
  }

  method GetHealth(result: Result<SystemHealth>, res: HttpResponse)
    modifies res
    ensures res.Holds(GetHealthReply(result), old(res.headers))
  {
    if result.Ok? {
      var responseDto := HealthDto.ResponseDto(result.value);
      res.Status(200);
      res.Json(HealthBody(responseDto));
    } else {
      res.Status(500);
      res.Json(PlainErrorBody("InternalServerError", "Health check failed"));
    }
  }

  /** The status code says only whether the check ran: an UNHEALTHY system
      is still a 200, and the body is what tells the states apart. */
  lemma StatusIgnoresHealth(a: SystemHealth, b: SystemHealth)
    ensures GetHealthReply(Ok(a)).status == GetHealthReply(Ok(b)).status == 200
    ensures a.status != b.status ==> GetHealthReply(Ok(a)).body != GetHealthReply(Ok(b)).body
  {
    if a.status != b.status {
      StatusStringInjective(a.status, b.status);
      assert HealthDto.ResponseDto(a).status != HealthDto.ResponseDto(b).status;
    }
  }
}
