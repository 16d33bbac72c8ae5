/** The gRPC health-checking responder registered beside the catalog service. */
module Health {
  import opened Rpc

  /** The serving states of the health-checking protocol. */
  datatype ServingStatus = Unknown | Serving | NotServing | ServiceUnknown

  datatype HealthCheckRequest = HealthCheckRequest(service: string)

  datatype HealthCheckResponse = HealthCheckResponse(status: ServingStatus)

  const WatchNotImplemented := "health check via Watch not implemented"

  /** Check answers SERVING for every request; it does not consult the store, so it
      says only that the process is up. */
  function Check(request: HealthCheckRequest): (r: HealthCheckResponse)
    ensures r.status == Serving
  {
    HealthCheckResponse(Serving)
  }

  /** Watch never streams: every call ends at once with an Unimplemented error. */
  function Watch(request: HealthCheckRequest): (e: Status)
    ensures e.code == Unimplemented
    ensures e.message == WatchNotImplemented
  {
    Status(Unimplemented, WatchNotImplemented)
  }
}
