# WebSocketUWPProtocol — connection lifecycle and address validation

This project models the ROS# bridge client's UWP WebSocket transport
adapter, `WebSocketUWPProtocol`. The adapter wraps a `MessageWebSocket`. On
construction it validates its target address. It then exposes `Connect`,
`Close`, `IsAlive` and `Send` to its caller, and raises `OnConnected`,
`OnReceive` and `OnClosed` to its listener.

The model has four modules:

- `Results`: `Option` and `Result`.
- `UriValidation`: `String.Trim` (with .NET's white-space set) and the constructor's address check `TryGetUri`.
  - URI parsing is a parameter `parse: string -> Option<Uri>`.
  - A `Uri` keeps only what the check inspects (`scheme`, `fragment`) plus an opaque `rest`.
  - The check order is: parse failure, then a fragment, then a scheme other than `ws`/`wss`. These are the rules of section 3 of RFC 6455.
- `UwpProtocol`: the adapter as an immutable record.
  - The record holds the liveness flag `alive`, `writerBound` (the `DataWriter` has been created) and `closeIssued` (a normal-closure request was sent).
  - It also holds one `log` that interleaves listener notifications with calls on the transport.
  - Every public operation and transport handler is a pure transition: `Create`, `Connect`, `HandshakeCompleted` (the completion lambda), `Close`, `PeerClosed` (the socket's `Closed` handler), `IsAlive`, `Send`, `Receive`.
  - The transport's answers arrive as parameters: the handshake's `AsyncStatus`, a `WriteOutcome` for `WriteBytes`/`StoreAsync`, and a `ReadOutcome` for the inbound frame's reader.
- `ProtocolTraces`: what holds over call sequences.
  - `Valid` is the invariant. It says: alive implies the writer is bound; the flag equals "the latest lifecycle notification was OnConnected"; every OnClosed ends an open period; writes happen only in open periods; every transport close is immediately followed by OnClosed.
  - Each transition preserves `Valid`, so every adapter reachable from construction satisfies it.
  - Further lemmas: OnClosed never outnumbers OnConnected; a burst of caller or peer closes acts as a single `Close`; there is one OnConnected per completed handshake; there is one OnReceive per frame read, carrying that frame's bytes; and an end-to-end echo scenario.

Facts about the code that the model keeps as they are:

- `Close` never releases the writer, so only "alive implies writer bound" holds, not its converse. `ProtocolTraces.WriterOutlivesClose` shows a reachable state with the writer bound and the flag clear.
- The `Receive` handler does not consult the flag, so `UwpProtocol.Receive` raises OnReceive whatever the flag is. OnReceive can come before OnConnected if the transport delivers a frame early.
- The scheme is compared ordinally with the scheme the URI class has already canonicalised. That canonicalisation belongs to the `parse` oracle.

## Model

| member | source | states |
|---|---|---|
| UriValidation.TrimStart | Libraries/RosBridgeClient/Protocols/WebSocketUWPProtocol.cs:113 | the result is a suffix of the input; everything dropped is white space; the result does not start with white space |
| UriValidation.TrimEnd | Libraries/RosBridgeClient/Protocols/WebSocketUWPProtocol.cs:113 | the result is a prefix of the input; everything dropped is white space; the result does not end with white space |
| UriValidation.Trim | Libraries/RosBridgeClient/Protocols/WebSocketUWPProtocol.cs:113 | the trimmed text is an infix of the input, with only white space cut from either side, and it neither starts nor ends with white space |
| UriValidation.TrimStartSkipsWhiteSpace | Libraries/RosBridgeClient/Protocols/WebSocketUWPProtocol.cs:113 | leading white space makes no difference to TrimStart |
| UriValidation.TrimEndSkipsWhiteSpace | Libraries/RosBridgeClient/Protocols/WebSocketUWPProtocol.cs:113 | trailing white space makes no difference to TrimEnd |
| UriValidation.TrimStartAppend | Libraries/RosBridgeClient/Protocols/WebSocketUWPProtocol.cs:113 | TrimStart of a concatenation carries the second part along once the first holds a non-white character, and otherwise trims the second part alone |
| UriValidation.TrimKeepsUnpadded | Libraries/RosBridgeClient/Protocols/WebSocketUWPProtocol.cs:113 | text that neither starts nor ends with white space is its own trim |
| UriValidation.TrimIgnoresPadding | Libraries/RosBridgeClient/Protocols/WebSocketUWPProtocol.cs:113 | white space added on either side never changes the trimmed text |
| UriValidation.TryGetUri | Libraries/RosBridgeClient/Protocols/WebSocketUWPProtocol.cs:110-126 | the trimmed input is parsed; a parse failure is reported first, then a non-empty fragment, then a scheme other than ws/wss; success holds exactly when all three pass, and it returns the parsed URI unchanged |
| UriValidation.TryGetUriIgnoresPadding | Libraries/RosBridgeClient/Protocols/WebSocketUWPProtocol.cs:113 | padding the address with white space gives the same verdict and the same URI |
| UwpProtocol.Create | Libraries/RosBridgeClient/Protocols/WebSocketUWPProtocol.cs:34-40 | construction succeeds exactly for addresses that pass validation, and then yields exactly the initial adapter for the validated URI: not alive, no writer, no close issued, nothing logged; otherwise it fails with the validation error |
| UwpProtocol.Connect | Libraries/RosBridgeClient/Protocols/WebSocketUWPProtocol.cs:42-44 | Connect only issues the handshake towards the validated URI; flags are untouched until completion |
| UwpProtocol.HandshakeCompleted | Libraries/RosBridgeClient/Protocols/WebSocketUWPProtocol.cs:44-52 | status Completed binds the writer, sets alive and raises exactly one OnConnected; any other status leaves the adapter unchanged |
| UwpProtocol.Close | Libraries/RosBridgeClient/Protocols/WebSocketUWPProtocol.cs:55-63 | not alive: nothing changes; alive: exactly one transport close (1000, "Normal Closure") followed by exactly one OnClosed, and alive is cleared; the writer stays bound |
| UwpProtocol.PeerClosed | Libraries/RosBridgeClient/Protocols/WebSocketUWPProtocol.cs:65-68 | a peer close runs the caller's Close, so it leaves the adapter not alive |
| UwpProtocol.IsAlive | Libraries/RosBridgeClient/Protocols/WebSocketUWPProtocol.cs:70-73 | reports the liveness flag |
| UwpProtocol.Send | Libraries/RosBridgeClient/Protocols/WebSocketUWPProtocol.cs:75-89 | unless alive with a bound writer nothing changes; otherwise the message is written once and then stored unless the write threw; any failure is swallowed, and the flags are unchanged |
| UwpProtocol.Receive | Libraries/RosBridgeClient/Protocols/WebSocketUWPProtocol.cs:91-108 | a frame read without error raises exactly one OnReceive whose payload is the whole unconsumed buffer; a read failure raises nothing; the flags are untouched and not consulted |
| ProtocolTraces.InitialValid | Libraries/RosBridgeClient/Protocols/WebSocketUWPProtocol.cs:25-28 | a freshly constructed adapter satisfies the invariant |
| ProtocolTraces.ConnectPreservesValid | Libraries/RosBridgeClient/Protocols/WebSocketUWPProtocol.cs:42-44 | issuing the handshake keeps the invariant |
| ProtocolTraces.HandshakeCompletedPreservesValid | Libraries/RosBridgeClient/Protocols/WebSocketUWPProtocol.cs:46-51 | the completion handler keeps the invariant, because the writer is bound before the flag is set |
| ProtocolTraces.ClosePreservesValid | Libraries/RosBridgeClient/Protocols/WebSocketUWPProtocol.cs:55-63 | Close keeps the invariant: its OnClosed ends an open period and directly follows the transport close |
| ProtocolTraces.SendPreservesValid | Libraries/RosBridgeClient/Protocols/WebSocketUWPProtocol.cs:75-89 | Send keeps the invariant: its write falls inside an open period |
| ProtocolTraces.ReceivePreservesValid | Libraries/RosBridgeClient/Protocols/WebSocketUWPProtocol.cs:91-108 | Receive keeps the invariant |
| ProtocolTraces.StepPreservesValid | Libraries/RosBridgeClient/Protocols/WebSocketUWPProtocol.cs:42-108 | every entry point keeps the invariant |
| ProtocolTraces.RunPreservesValid | Libraries/RosBridgeClient/Protocols/WebSocketUWPProtocol.cs:42-108 | any sequence of entry points keeps the invariant |
| ProtocolTraces.ReachableValid | Libraries/RosBridgeClient/Protocols/WebSocketUWPProtocol.cs:34-108 | every adapter reachable from construction satisfies the invariant: alive implies writer bound, the flag matches the notification history, OnClosed only ends open periods, writes only in open periods, transport close always directly followed by OnClosed, closeIssued set exactly once an OnClosed has been raised |
| ProtocolTraces.IsAliveMatchesNotifications | Libraries/RosBridgeClient/Protocols/WebSocketUWPProtocol.cs:70-73 | on any reachable adapter IsAlive is true exactly when the latest lifecycle notification was OnConnected |
| ProtocolTraces.SendGatedByLiveness | Libraries/RosBridgeClient/Protocols/WebSocketUWPProtocol.cs:77 | on a valid adapter a Send has an effect exactly when the adapter is alive; the writer test never decides |
| ProtocolTraces.SendWritesMessageOnce | Libraries/RosBridgeClient/Protocols/WebSocketUWPProtocol.cs:77-88 | a live Send adds exactly the message, once, to the bytes handed to the writer, and adds no notification whatever the outcome |
| ProtocolTraces.ClosedNeverOutnumbersConnected | Libraries/RosBridgeClient/Protocols/WebSocketUWPProtocol.cs:55-62 | when each OnClosed ends an open period, OnClosed count plus one-if-open is at most OnConnected count |
| ProtocolTraces.ReachableClosedNeverOutnumbersConnected | Libraries/RosBridgeClient/Protocols/WebSocketUWPProtocol.cs:46-62 | over any run from construction OnClosed is raised no more often than OnConnected |
| ProtocolTraces.CloseBurstActsOnce | Libraries/RosBridgeClient/Protocols/WebSocketUWPProtocol.cs:55-68 | any non-empty sequence of caller and peer closes has the effect of a single Close: at most one transport close and one OnClosed |
| ProtocolTraces.AliveUntilClosed | Libraries/RosBridgeClient/Protocols/WebSocketUWPProtocol.cs:55-73 | once alive, the adapter stays alive through any sequence without a caller or peer close |
| ProtocolTraces.ConnectedPerCompletedHandshake | Libraries/RosBridgeClient/Protocols/WebSocketUWPProtocol.cs:44-52 | a run adds exactly as many OnConnected as it has handshakes completing with status Completed |
| ProtocolTraces.StepConnectedCount | Libraries/RosBridgeClient/Protocols/WebSocketUWPProtocol.cs:46-50 | a single entry point adds an OnConnected exactly when it is a completed handshake |
| ProtocolTraces.ReceivedPerDeliveredFrame | Libraries/RosBridgeClient/Protocols/WebSocketUWPProtocol.cs:91-108 | a run adds to the OnReceive payloads exactly the buffers of the frames read without error, in order |
| ProtocolTraces.StepReceivedPayloads | Libraries/RosBridgeClient/Protocols/WebSocketUWPProtocol.cs:95-101 | a single entry point adds an OnReceive payload exactly when it is a frame read without error, and then that frame's buffer |
| ProtocolTraces.WriterOutlivesClose | Libraries/RosBridgeClient/Protocols/WebSocketUWPProtocol.cs:48-61 | after connect, completed handshake and close the writer is still bound while the adapter is not alive |
| ProtocolTraces.CreateAcceptsWebSocketAddress | Libraries/RosBridgeClient/Protocols/WebSocketUWPProtocol.cs:110-126 | any address whose trimmed text parses to a WebSocket URI, padded or not, constructs the initial adapter for that URI |
| ProtocolTraces.CreatedAdaptersStayValid | Libraries/RosBridgeClient/Protocols/WebSocketUWPProtocol.cs:34-108 | every adapter a successful construction yields satisfies the invariant after any sequence of entry points |
| ProtocolTraces.EchoScenario | Libraries/RosBridgeClient/Protocols/WebSocketUWPProtocol.cs:42-108 | connect, completed handshake, send [1,2,3], echoed frame [1,2,3], close: the listener hears OnConnected, OnReceive([1,2,3]), OnClosed; the writer got [1,2,3] once; the adapter ends not alive |

## Left out

- `MessageWebSocket`, `DataWriter` and `DataReader` are foreign UWP library types. Only their outcomes are modelled, as parameters: the handshake status, whether `WriteBytes` threw or `StoreAsync` failed, and whether reading the frame succeeded.
- `Uri.TryCreate` and its scheme canonicalisation are a library parser. They are the `parse` oracle, which returns an optional (scheme, fragment, rest) record.
- The three exception messages of the address check become the three `AddressError` constructors.
- Async/await, the thread the completion handler runs on, and races on the liveness flag are concurrency concerns. Each entry point is one atomic transition.
- `reader.UnicodeEncoding = Utf8` (line 99) has no effect on a raw byte read.
- The length that line 97 reads from a second `GetDataReader()` call is taken to be the length of the same unconsumed buffer.
- The source defines no behaviour for calling Connect twice, reconnecting, or handshake timeouts. The transitions simply do what the code does if such events occur, and no property is claimed about them.
- Listeners are assumed registered. Without a listener, raising OnConnected (line 50) or OnClosed (line 61) throws a NullReferenceException out of the handler or out of `Close`. At line 101 the same exception is raised inside the `try` and swallowed by the `catch` at lines 104-107, so there it would look like a read failure.
- Foreign calls other than those above are assumed not to throw:
  - `WebSocket.Close(1000, …)` at line 59. A throw there would come before the flag is cleared, so the adapter would stay alive, raise no OnClosed, and pass the exception to the caller of `Close` or to the peer-close handler.
  - `new DataWriter(WebSocket.OutputStream)` at line 48. A throw there would leave the flag false and raise no OnConnected.
  - `uriString.Trim()` at line 113 on a null string, which would throw a NullReferenceException instead of the invalid-URI error. Strings in the model are never null.
