/** One cycle of the heartbeat loop (`startHeartbeat`): the only thing a cycle
    decides is how long to wait before the next one. */
module Heartbeat {
  import opened Durations

  /** `FAILED_HEARTBEAT_RETRY_INTERVAL` */
  const FailedHeartbeatRetryInterval: int := 5 * Second

  /** How one heartbeat cycle went: marshalling the request, building the HTTP
      request, sending it, or the status code of the response. */
  datatype CycleOutcome =
    | MarshalFailed
    | BuildFailed
    | SendFailed
    | Responded(status: int)

  /** The wait after a cycle: the configured interval after a 200 response,
      the fixed retry delay after every kind of failure. */
  function CycleDelay(o: CycleOutcome, heartbeatInterval: int): (d: int)
    ensures o == Responded(200) ==> d == heartbeatInterval
    ensures o != Responded(200) ==> d == FailedHeartbeatRetryInterval
  {
    match o
    case MarshalFailed => FailedHeartbeatRetryInterval
    case BuildFailed => FailedHeartbeatRetryInterval
    case SendFailed => FailedHeartbeatRetryInterval
    case Responded(status) =>
      if status != 200 then FailedHeartbeatRetryInterval else heartbeatInterval
  }
}
