/** The integers the checks report to Prometheus: the heartbeat counter's two
    label values and the per-network maintainer gauge. */
module Metrics {

  class Registry {
    /** `HeartbeatsCounter{status="missed"}`. */
    var heartbeatsMissed: int
    /** `HeartbeatsCounter{status="success"}`. */
    var heartbeatsSuccess: int
    /** `MaintainersGauge{network_name=...}`: the last value set per network. */
    var maintainersGauge: map<string, int>

    constructor ()
      ensures heartbeatsMissed == 0 && heartbeatsSuccess == 0
      ensures maintainersGauge == map[]
    {
      heartbeatsMissed := 0;
      heartbeatsSuccess := 0;
      maintainersGauge := map[];
    }
  }
}
