/** The WebSocket adapter of the bridge client: a liveness flag, a flag for
    whether an output writer has been bound, and one log that interleaves the
    notifications raised to the listener with the calls made on the
    transport. Every public operation and every transport handler is a pure
    transition on that state; the transport's answers (handshake status,
    write and read outcomes) arrive as parameters. */
module UwpProtocol {
  import opened Results
  import opened UriValidation

  newtype byte = x: int | 0 <= x < 256

  /** The status the handshake operation reports to its completion handler. */
  datatype AsyncStatus = Started | Completed | Canceled | Error

  /** The three notifications raised to the registered listener. */
  datatype Notification = OnConnected | OnReceive(payload: seq<byte>) | OnClosed

  /** The calls the adapter makes on the socket and its output writer. */
  datatype TransportCall =
    | ConnectAsync(target: Uri)
    | CloseSocket(code: int, reason: string)
    | WriteBytes(data: seq<byte>)
    | StoreAsync

  datatype Observation = Notify(event: Notification) | Call(call: TransportCall)

  /** How a send ends: both steps succeed, the buffered write throws (so the
      store is never attempted), or the store fails. */
  datatype WriteOutcome = Stored | WriteFailed | StoreFailed

  /** How reading an inbound frame ends: the reader yields its unconsumed
      buffer, or some step of the extraction throws. */
  datatype ReadOutcome = Read(unconsumed: seq<byte>) | ReadFailed

  const NormalClosureCode: int := 1000
  const NormalClosureReason: string := "Normal Closure"

  /** The adapter. `closeIssued` records that a normal-closure request has
      been sent to the transport. */
  datatype Adapter = Adapter(
    uri: Uri,
    alive: bool,
    writerBound: bool,
    closeIssued: bool,
    log: seq<Observation>)

  /** The state right after construction: not alive, no writer, nothing logged. */
  function Initial(uri: Uri): Adapter {
    Adapter(uri, false, false, false, [])
  }

  /** The constructor: the socket and its handlers are set up and the address
      is validated; an invalid address is a construction failure carrying the
      validation error. */
  function Create(uriString: string, parse: string -> Option<Uri>): (r: Result<Adapter, AddressError>)
    ensures r.Ok? <==> (parse(Trim(uriString)).Some? && IsWebSocketUri(parse(Trim(uriString)).value))
    ensures r.Ok? ==> IsWebSocketUri(r.value.uri) && parse(Trim(uriString)) == Some(r.value.uri)
    ensures r.Ok? ==> r.value == Initial(r.value.uri)
    ensures r.Err? ==> TryGetUri(uriString, parse) == Err(r.error)
  {
    match TryGetUri(uriString, parse)
    case Ok(u) => Ok(Initial(u))
    case Err(e) => Err(e)
  }

  /** Connect starts the handshake towards the validated address and returns
      at once; nothing else changes until the handshake completes. */
  function Connect(a: Adapter): (r: Adapter)
    ensures r.log == a.log + [Call(ConnectAsync(a.uri))]
    ensures r.(log := a.log) == a
  {
    a.(log := a.log + [Call(ConnectAsync(a.uri))])
  }

  /** The handshake's completion handler. Only a `Completed` status binds the
      writer, sets the flag and raises one OnConnected; any other status
      changes nothing. */
  function HandshakeCompleted(a: Adapter, status: AsyncStatus): (r: Adapter)
    ensures status == Completed ==>
              r.alive && r.writerBound && r.log == a.log + [Notify(OnConnected)]
              && r.uri == a.uri && r.closeIssued == a.closeIssued
    ensures status != Completed ==> r == a
  {
    if status == Completed then
      a.(writerBound := true, alive := true, log := a.log + [Notify(OnConnected)])
    else
      a
  }

  /** The caller's Close. When not alive it does nothing. When alive it asks
      the transport for a normal closure (1000, "Normal Closure"), clears the
      flag and raises one OnClosed, in that order. The writer stays bound. */
  function Close(a: Adapter): (r: Adapter)
    ensures !a.alive ==> r == a
    ensures a.alive ==>
              && !r.alive && r.closeIssued
              && r.log == a.log + [Call(CloseSocket(NormalClosureCode, NormalClosureReason)), Notify(OnClosed)]
    ensures r.writerBound == a.writerBound && r.uri == a.uri
  {
    if a.alive then
      a.(alive := false, closeIssued := true,
         log := a.log + [Call(CloseSocket(NormalClosureCode, NormalClosureReason)), Notify(OnClosed)])
    else
      a
  }

  /** The transport's Closed handler, raised when the peer closes: it runs the
      caller's Close, so a peer close after a caller close (or the reverse)
      adds nothing. */
  function PeerClosed(a: Adapter): (r: Adapter)
    ensures r == Close(a)
    ensures !r.alive
  {
    Close(a)
  }

  /** IsAlive reports the flag. */
  function IsAlive(a: Adapter): (alive: bool)
    ensures alive == a.alive
  {
    a.alive
  }

  /** Send. Unless the adapter is alive and its writer bound, nothing happens.
      Otherwise the bytes are handed to the writer once and, if that does not
      throw, stored; a failure of either step is swallowed, so the flags and
      the notifications are those of before. */
  function Send(a: Adapter, message: seq<byte>, outcome: WriteOutcome): (r: Adapter)
    ensures !(a.alive && a.writerBound) ==> r == a
    ensures a.alive && a.writerBound ==>
              r.log == a.log + [Call(WriteBytes(message))]
                             + (if outcome == WriteFailed then [] else [Call(StoreAsync)])
    ensures r.(log := a.log) == a
  {
    if a.alive && a.writerBound then
      var attempted := [Call(WriteBytes(message))];
      match outcome
      case WriteFailed => a.(log := a.log + attempted)
      case _ => a.(log := a.log + attempted + [Call(StoreAsync)])
    else
      a
  }

  /** The transport's MessageReceived handler. The payload is a fresh buffer
      the length of the reader's unconsumed bytes, filled from them, and is
      raised in one OnReceive; if extraction throws, nothing is raised. The
      handler does not consult the flag. */
  function Receive(a: Adapter, frame: ReadOutcome): (r: Adapter)
    ensures frame.ReadFailed? ==> r == a
    ensures frame.Read? ==> r.log == a.log + [Notify(OnReceive(frame.unconsumed))]
    ensures r.(log := a.log) == a
  {
    match frame
    case ReadFailed => a
    case Read(unconsumed) => a.(log := a.log + [Notify(OnReceive(unconsumed))])
  }
}
