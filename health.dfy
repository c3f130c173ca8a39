/** The health handlers of the three services: a constant reply, with no state and no failure. */
module Health {
  datatype HealthRes = HealthRes(ok: bool, message: string)

  /** VprService::health. */
  function VprHealth(): (r: HealthRes)
    ensures r.ok && r.message == "VPR is alive"
  {
    HealthRes(true, "VPR is alive")
  }

  /** GosService::health, in the GOS service and in the sharded store's service alike. */
  function GosHealth(): (r: HealthRes)
    ensures r.ok && r.message == "GOS is alive"
  {
    HealthRes(true, "GOS is alive")
  }
}
