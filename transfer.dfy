/**
 The operating system's download service as the download utility sees it: a
 request record and a queue that accepts requests and hands back an id for
 each. The transfer itself happens outside this model.
 */
module Transfer {

  /** Network kinds a request may use (the `NETWORK_*` flags of a request). */
  datatype NetworkType = Wifi | Mobile

  /** Whether the service shows a notification while the transfer runs. */
  datatype Visibility = Visible | Hidden

  /** Public directories a request can name as its destination root. */
  datatype PublicDirectory = Downloads

  /** One download request, with every field the utility sets on it. */
  datatype Request = Request(
    uri: string,
    allowedNetworkTypes: set<NetworkType>,
    allowedOverMetered: bool,
    allowedOverRoaming: bool,
    description: string,
    notificationVisibility: Visibility,
    destinationDirectory: PublicDirectory,
    destinationName: string)

  /** Ids handed out by the queue. */
  type DownloadId = nat

  /**
   The queue of submitted requests. The id of a request is its position in
   the queue, so ids are never reused.
   */
  class DownloadManager {
    var queue: seq<Request>

    constructor ()
      ensures queue == []
    {
      queue := [];
    }

    /** Accepts a request and returns its id; nothing already queued changes. */
    method Enqueue(request: Request) returns (id: DownloadId)
      modifies this
      ensures queue == old(queue) + [request]
      ensures id == |old(queue)| && queue[id] == request
    {
      id := |queue|;
      queue := queue + [request];
    }
  }
}
