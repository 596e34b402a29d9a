/**
 * The port logic of the earlier server skeleton, `org.mhh.domain.NewsAnalyzerServer`,
 * which listens and closes every connection at once. Only its choice of port
 * is sequential logic.
 */
module SkeletonServer {
  import opened Wrappers
  import NewsAnalyzerServer

  const DefaultPort := 9090

  /**
   * The skeleton's `main` up to opening the socket: here the
   * `NumberFormatException` handler assigns the default again, which the
   * analyser's `main` leaves implicit. Both pick the same port.
   */
  method PortFromArguments(args: seq<string>, parseInt: string -> Option<int>) returns (port: int)
    ensures 1 <= port <= 65535
    ensures port == NewsAnalyzerServer.ChosenPort(args, parseInt)
  {
    port := DefaultPort;
    if |args| > 0 {
      var parsed := parseInt(args[0]);
      if parsed.Some? {
        port := parsed.value;
        if port < 1 || port > 65535 {
          port := DefaultPort;
        }
      } else {
        port := DefaultPort;
      }
    }
  }
}
