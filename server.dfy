/** The status surface that the checks publish to (`server.GlobalState`). */
module Server {

  class GlobalState {
    /** `Heartbeat.Missed`: the text "<missed> / <checked>". */
    var heartbeatMissed: string
    /** `Heartbeat.Status`. */
    var heartbeatStatus: bool
    /** `Maintainers.Maintainer`: chain name to membership. */
    var maintainers: map<string, bool>
    /** `Maintainers.Status`. */
    var maintainersStatus: bool

    /** Go's zero value of the state record. */
    constructor ()
      ensures heartbeatMissed == "" && !heartbeatStatus
      ensures maintainers == map[] && !maintainersStatus
    {
      heartbeatMissed := "";
      heartbeatStatus := false;
      maintainers := map[];
      maintainersStatus := false;
    }
  }
}
