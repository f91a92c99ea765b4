/** Properties of the adapter over whole call sequences: the invariant every
    transition keeps, at most one OnClosed per period of liveness, one
    OnConnected per completed handshake, one OnReceive per delivered frame. */
module ProtocolTraces {
  import opened Results
  import opened UriValidation
  import opened UwpProtocol

  // ---------------------------------------------------------------------
  // Views of the log

  /** The entries of `log` that `pick` selects, in log order. */
  function Collect<U>(log: seq<Observation>, pick: Observation -> Option<U>): (r: seq<U>)
    ensures |r| <= |log|
  {
    if log == [] then []
    else
      var last := match pick(log[|log| - 1]) case Some(u) => [u] case None => [];
      Collect(log[..|log| - 1], pick) + last
  }

  function NotificationOf(o: Observation): Option<Notification> {
    if o.Notify? then Some(o.event) else None
  }

  function WrittenBytesOf(o: Observation): Option<seq<byte>> {
    if o.Call? && o.call.WriteBytes? then Some(o.call.data) else None
  }

  function ReceivedPayloadOf(o: Observation): Option<seq<byte>> {
    if o.Notify? && o.event.OnReceive? then Some(o.event.payload) else None
  }

  /** What the listener has been told, in order. */
  function Notifications(log: seq<Observation>): seq<Notification> {
    Collect(log, NotificationOf)
  }

  /** The payloads of the OnReceive notifications, in order. */
  function ReceivedPayloads(log: seq<Observation>): seq<seq<byte>> {
    Collect(log, ReceivedPayloadOf)
  }

  /** How often the listener has been told `n`. Counted directly rather than
      as the length of a Collect, because a picker for one notification
      would have to be a lambda capturing `n`, and two such lambdas are not
      provably equal; a direct count keeps the counting lemmas cheap. */
  function Occurrences(log: seq<Observation>, n: Notification): nat {
    if log == [] then 0
    else Occurrences(log[..|log| - 1], n) + if log[|log| - 1] == Notify(n) then 1 else 0
  }

  /** True when the latest OnConnected/OnClosed in the log is an OnConnected,
      i.e. the listener has been told of a connection that has not yet been
      reported closed. */
  function IsOpen(log: seq<Observation>): bool {
    if log == [] then false
    else match log[|log| - 1]
      case Notify(OnConnected) => true
      case Notify(OnClosed) => false
      case _ => IsOpen(log[..|log| - 1])
  }

  // ---------------------------------------------------------------------
  // The invariant

  /** Each OnClosed ends an open period: at most one per period of liveness,
      and none before the first OnConnected. */
  predicate ClosedOnlyWhenOpen(log: seq<Observation>) {
    forall i :: 0 <= i < |log| && log[i] == Notify(OnClosed) ==> IsOpen(log[..i])
  }

  /** Bytes are handed to the writer only inside an open period. */
  predicate WritesOnlyWhenOpen(log: seq<Observation>) {
    forall i :: 0 <= i < |log| && log[i].Call? && log[i].call.WriteBytes? ==> IsOpen(log[..i])
  }

  /** Every transport close request is immediately followed by OnClosed, and
      every OnClosed immediately follows a normal-closure request. */
  predicate ClosesPaired(log: seq<Observation>) {
    && (forall i :: 0 <= i < |log| && log[i].Call? && log[i].call.CloseSocket? ==>
          i + 1 < |log| && log[i + 1] == Notify(OnClosed))
    && (forall i :: 0 <= i < |log| && log[i] == Notify(OnClosed) ==>
          0 < i && log[i - 1] == Call(CloseSocket(NormalClosureCode, NormalClosureReason)))
  }

  /** What holds of every adapter reachable from construction. Note that the
      writer may stay bound after the flag is cleared: only one direction. */
  predicate Valid(a: Adapter) {
    && (a.alive ==> a.writerBound)
    && a.alive == IsOpen(a.log)
    && a.closeIssued == (Notify(OnClosed) in a.log)
    && ClosedOnlyWhenOpen(a.log)
    && WritesOnlyWhenOpen(a.log)
    && ClosesPaired(a.log)
  }

  // ---------------------------------------------------------------------
  // Driving the adapter

  /** One entry point: a caller operation or a transport event. */
  datatype Action =
    | CallConnect
    | HandshakeDone(status: AsyncStatus)
    | CallClose
    | PeerClose
    | CallSend(message: seq<byte>, outcome: WriteOutcome)
    | FrameArrived(frame: ReadOutcome)
    | QueryAlive

  function Step(a: Adapter, act: Action): Adapter {
    match act
    case CallConnect => Connect(a)
    case HandshakeDone(status) => HandshakeCompleted(a, status)
    case CallClose => Close(a)
    case PeerClose => PeerClosed(a)
    case CallSend(message, outcome) => Send(a, message, outcome)
    case FrameArrived(frame) => Receive(a, frame)
    case QueryAlive => a
  }

  function Run(a: Adapter, acts: seq<Action>): Adapter
    decreases |acts|
  {
    if acts == [] then a else Run(Step(a, acts[0]), acts[1..])
  }

  predicate IsCloseAction(act: Action) {
    act == CallClose || act == PeerClose
  }

  /** How many handshakes in `acts` complete successfully. */
  function CompletedHandshakes(acts: seq<Action>): nat {
    if acts == [] then 0
    else (if acts[0] == HandshakeDone(Completed) then 1 else 0) + CompletedHandshakes(acts[1..])
  }

  /** The buffers of the frames in `acts` that were read without error. */
  function DeliveredFrames(acts: seq<Action>): seq<seq<byte>> {
    if acts == [] then []
    else
      (if acts[0].FrameArrived? && acts[0].frame.Read? then [acts[0].frame.unconsumed] else [])
      + DeliveredFrames(acts[1..])
  }

  // ---------------------------------------------------------------------
  // Log lemmas

  /** Collecting distributes over concatenation. */
  lemma {:induction false} CollectAppend<U>(xs: seq<Observation>, ys: seq<Observation>, pick: Observation -> Option<U>)
    ensures Collect(xs + ys, pick) == Collect(xs, pick) + Collect(ys, pick)
    decreases |ys|
  {
    if ys == [] {
      assert xs + ys == xs;
    } else {
      var ys' := ys[..|ys| - 1];
      assert (xs + ys)[..|xs + ys| - 1] == xs + ys';
      assert (xs + ys)[|xs + ys| - 1] == ys[|ys| - 1];
      CollectAppend(xs, ys', pick);
    }
  }

  lemma CollectSnoc<U>(log: seq<Observation>, o: Observation, pick: Observation -> Option<U>)
    ensures Collect(log + [o], pick)
              == Collect(log, pick) + match pick(o) case Some(u) => [u] case None => []
  {
  }

  /** CollectSnoc for the OnReceive payloads. Stated for the named view so
      that the per-step proofs need not instantiate the generic lemma, which
      made them run out of resource. */
  lemma ReceivedSnoc(log: seq<Observation>, o: Observation)
    ensures ReceivedPayloads(log + [o])
              == ReceivedPayloads(log) + if o.Notify? && o.event.OnReceive? then [o.event.payload] else []
  {
  }

  lemma OccurrencesSnoc(log: seq<Observation>, o: Observation, n: Notification)
    ensures Occurrences(log + [o], n) == Occurrences(log, n) + if o == Notify(n) then 1 else 0
  {
  }

  /** Transport calls and received frames leave the open/closed status alone. */
  lemma IsOpenSkips(log: seq<Observation>, o: Observation)
    requires o.Call? || (o.Notify? && o.event.OnReceive?)
    ensures IsOpen(log + [o]) == IsOpen(log)
  {
  }

  /** Appending a transport call other than a close request, or a received
      frame, keeps the log invariants, provided a write is appended only
      while open. */
  lemma AppendQuiet(log: seq<Observation>, o: Observation)
    requires ClosedOnlyWhenOpen(log) && WritesOnlyWhenOpen(log) && ClosesPaired(log)
    requires (o.Call? && !o.call.CloseSocket?) || (o.Notify? && o.event.OnReceive?)
    requires o.Call? && o.call.WriteBytes? ==> IsOpen(log)
    ensures ClosedOnlyWhenOpen(log + [o]) && WritesOnlyWhenOpen(log + [o]) && ClosesPaired(log + [o])
    ensures IsOpen(log + [o]) == IsOpen(log)
    ensures (Notify(OnClosed) in log + [o]) == (Notify(OnClosed) in log)
  {
    var log' := log + [o];
    IsOpenSkips(log, o);
    assert forall i :: 0 <= i < |log| ==> log'[..i] == log[..i];
    assert log'[..|log|] == log;
  }

  /** Appending OnConnected keeps the log invariants and opens the log. */
  lemma AppendConnected(log: seq<Observation>)
    requires ClosedOnlyWhenOpen(log) && WritesOnlyWhenOpen(log) && ClosesPaired(log)
    ensures var log' := log + [Notify(OnConnected)];
            && ClosedOnlyWhenOpen(log') && WritesOnlyWhenOpen(log') && ClosesPaired(log')
            && IsOpen(log')
            && (Notify(OnClosed) in log') == (Notify(OnClosed) in log)
  {
    var log' := log + [Notify(OnConnected)];
    assert forall i :: 0 <= i < |log| ==> log'[..i] == log[..i];
  }

  /** Appending a normal-closure request and its OnClosed to an open log
      keeps the log invariants and closes it. */
  lemma AppendClosePair(log: seq<Observation>)
    requires ClosedOnlyWhenOpen(log) && WritesOnlyWhenOpen(log) && ClosesPaired(log)
    requires IsOpen(log)
    ensures var log' := log + [Call(CloseSocket(NormalClosureCode, NormalClosureReason)), Notify(OnClosed)];
            && ClosedOnlyWhenOpen(log') && WritesOnlyWhenOpen(log') && ClosesPaired(log')
            && !IsOpen(log') && Notify(OnClosed) in log'
  {
    var c := Call(CloseSocket(NormalClosureCode, NormalClosureReason));
    var log' := log + [c, Notify(OnClosed)];
    var n := |log|;
    assert log'[..n + 1] == log + [c];
    IsOpenSkips(log, c);
    ClosePairKeepsClosedOnlyWhenOpen(log, log');
    ClosePairKeepsWritesOnlyWhenOpen(log, log');
    assert log'[n + 1] == Notify(OnClosed);
  }

  lemma ClosePairKeepsClosedOnlyWhenOpen(log: seq<Observation>, log': seq<Observation>)
    requires ClosedOnlyWhenOpen(log) && IsOpen(log)
    requires log' == log + [Call(CloseSocket(NormalClosureCode, NormalClosureReason)), Notify(OnClosed)]
    ensures ClosedOnlyWhenOpen(log')
  {
    var n := |log|;
    var c := Call(CloseSocket(NormalClosureCode, NormalClosureReason));
    assert log'[..n + 1] == log + [c];
    IsOpenSkips(log, c);
    forall i | 0 <= i < |log'| && log'[i] == Notify(OnClosed)
      ensures IsOpen(log'[..i])
    {
      if i < n {
        assert log'[..i] == log[..i];
      }
    }
  }

  lemma ClosePairKeepsWritesOnlyWhenOpen(log: seq<Observation>, log': seq<Observation>)
    requires WritesOnlyWhenOpen(log)
    requires log' == log + [Call(CloseSocket(NormalClosureCode, NormalClosureReason)), Notify(OnClosed)]
    ensures WritesOnlyWhenOpen(log')
  {
    forall i | 0 <= i < |log'| && log'[i].Call? && log'[i].call.WriteBytes?
      ensures IsOpen(log'[..i])
    {
      assert i < |log|;
      assert log'[..i] == log[..i];
    }
  }

  // ---------------------------------------------------------------------
  // Each transition keeps the invariant

  lemma InitialValid(uri: Uri)
    ensures Valid(Initial(uri))
  {
  }

  lemma ConnectPreservesValid(a: Adapter)
    requires Valid(a)
    ensures Valid(Connect(a))
  {
    AppendQuiet(a.log, Call(ConnectAsync(a.uri)));
  }

  lemma HandshakeCompletedPreservesValid(a: Adapter, status: AsyncStatus)
    requires Valid(a)
    ensures Valid(HandshakeCompleted(a, status))
  {
    if status == Completed {
      AppendConnected(a.log);
    }
  }

  lemma ClosePreservesValid(a: Adapter)
    requires Valid(a)
    ensures Valid(Close(a))
  {
    if a.alive {
      AppendClosePair(a.log);
    }
  }

  lemma SendPreservesValid(a: Adapter, message: seq<byte>, outcome: WriteOutcome)
    requires Valid(a)
    ensures Valid(Send(a, message, outcome))
  {
    if a.alive && a.writerBound {
      var w := Call(WriteBytes(message));
      AppendQuiet(a.log, w);
      if outcome != WriteFailed {
        AppendQuiet(a.log + [w], Call(StoreAsync));
      }
    }
  }

  lemma ReceivePreservesValid(a: Adapter, frame: ReadOutcome)
    requires Valid(a)
    ensures Valid(Receive(a, frame))
  {
    if frame.Read? {
      AppendQuiet(a.log, Notify(OnReceive(frame.unconsumed)));
    }
  }

  lemma StepPreservesValid(a: Adapter, act: Action)
    requires Valid(a)
    ensures Valid(Step(a, act))
  {
    match act
    case CallConnect => ConnectPreservesValid(a);
    case HandshakeDone(status) => HandshakeCompletedPreservesValid(a, status);
    case CallClose => ClosePreservesValid(a);
    case PeerClose => ClosePreservesValid(a);
    case CallSend(message, outcome) => SendPreservesValid(a, message, outcome);
    case FrameArrived(frame) => ReceivePreservesValid(a, frame);
    case QueryAlive =>
  }

  lemma {:induction false} RunPreservesValid(a: Adapter, acts: seq<Action>)
    requires Valid(a)
    ensures Valid(Run(a, acts))
    decreases |acts|
  {
    if acts != [] {
      StepPreservesValid(a, acts[0]);
      RunPreservesValid(Step(a, acts[0]), acts[1..]);
    }
  }

  /** Every adapter reachable from construction is valid. */
  lemma ReachableValid(uri: Uri, acts: seq<Action>)
    ensures Valid(Run(Initial(uri), acts))
  {
    InitialValid(uri);
    RunPreservesValid(Initial(uri), acts);
  }

  // ---------------------------------------------------------------------
  // Properties over call sequences

  /** IsAlive on any reachable adapter agrees with what the listener was
      told: true exactly when the latest lifecycle notification is OnConnected. */
  lemma IsAliveMatchesNotifications(uri: Uri, acts: seq<Action>)
    ensures IsAlive(Run(Initial(uri), acts)) == IsOpen(Run(Initial(uri), acts).log)
  {
    ReachableValid(uri, acts);
  }

  /** On a valid adapter the writer test in Send never decides anything: a
      send changes the adapter exactly when the flag is set. */
  lemma SendGatedByLiveness(a: Adapter, message: seq<byte>, outcome: WriteOutcome)
    requires Valid(a)
    ensures Send(a, message, outcome) != a <==> a.alive
  {
    if a.alive {
      assert |Send(a, message, outcome).log| > |a.log|;
    }
  }

  /** A send on a live adapter hands the writer exactly the message, once,
      and tells the listener nothing, whatever the write's outcome. */
  lemma SendWritesMessageOnce(a: Adapter, message: seq<byte>, outcome: WriteOutcome)
    requires a.alive && a.writerBound
    ensures Collect(Send(a, message, outcome).log, WrittenBytesOf)
              == Collect(a.log, WrittenBytesOf) + [message]
    ensures Notifications(Send(a, message, outcome).log) == Notifications(a.log)
  {
    var w := Call(WriteBytes(message));
    var ext := if outcome == WriteFailed then [w] else [w, Call(StoreAsync)];
    assert Send(a, message, outcome).log == a.log + ext;
    CollectAppend(a.log, ext, WrittenBytesOf);
    CollectAppend(a.log, ext, NotificationOf);
    if outcome != WriteFailed {
      CollectAppend([w], [Call(StoreAsync)], WrittenBytesOf);
      CollectAppend([w], [Call(StoreAsync)], NotificationOf);
      assert [w] + [Call(StoreAsync)] == ext;
    }
  }

  /** Counting form of ClosedOnlyWhenOpen: OnClosed never outnumbers
      OnConnected, and while open it trails by at least one. */
  lemma {:induction false} ClosedNeverOutnumbersConnected(log: seq<Observation>)
    requires ClosedOnlyWhenOpen(log)
    ensures Occurrences(log, OnClosed) + (if IsOpen(log) then 1 else 0) <= Occurrences(log, OnConnected)
    decreases |log|
  {
    if log != [] {
      var p := log[..|log| - 1];
      var o := log[|log| - 1];
      assert log == p + [o];
      assert forall i :: 0 <= i < |p| ==> p[i] == log[i] && p[..i] == log[..i];
      ClosedNeverOutnumbersConnected(p);
      if o == Notify(OnClosed) {
        assert log[..|log| - 1] == p;
      }
    }
  }

  /** Over any run from construction, OnClosed is raised no more often than
      OnConnected. */
  lemma ReachableClosedNeverOutnumbersConnected(uri: Uri, acts: seq<Action>)
    ensures Occurrences(Run(Initial(uri), acts).log, OnClosed)
              <= Occurrences(Run(Initial(uri), acts).log, OnConnected)
  {
    ReachableValid(uri, acts);
    ClosedNeverOutnumbersConnected(Run(Initial(uri), acts).log);
  }

  /** Any non-empty burst of caller and peer closes acts as one Close: at
      most one transport close and at most one OnClosed. */
  lemma {:induction false} CloseBurstActsOnce(a: Adapter, acts: seq<Action>)
    requires acts != []
    requires forall k :: 0 <= k < |acts| ==> IsCloseAction(acts[k])
    ensures Run(a, acts) == Close(a)
    decreases |acts|
  {
    assert Step(a, acts[0]) == Close(a);
    if |acts| > 1 {
      CloseBurstActsOnce(Close(a), acts[1..]);
      assert Close(Close(a)) == Close(a);
    }
  }

  /** Once alive, the adapter stays alive until a caller or peer close. */
  lemma {:induction false} AliveUntilClosed(a: Adapter, acts: seq<Action>)
    requires a.alive
    requires forall k :: 0 <= k < |acts| ==> !IsCloseAction(acts[k])
    ensures IsAlive(Run(a, acts))
    decreases |acts|
  {
    if acts != [] {
      assert !IsCloseAction(acts[0]);
      AliveUntilClosed(Step(a, acts[0]), acts[1..]);
    }
  }

  /** OnConnected is raised exactly once per successfully completed handshake. */
  lemma {:induction false} ConnectedPerCompletedHandshake(a: Adapter, acts: seq<Action>)
    ensures Occurrences(Run(a, acts).log, OnConnected)
              == Occurrences(a.log, OnConnected) + CompletedHandshakes(acts)
    decreases |acts|
  {
    if acts != [] {
      StepConnectedCount(a, acts[0]);
      ConnectedPerCompletedHandshake(Step(a, acts[0]), acts[1..]);
    }
  }

  /** One step adds an OnConnected exactly when it is a completed handshake. */
  lemma StepConnectedCount(a: Adapter, act: Action)
    ensures Occurrences(Step(a, act).log, OnConnected)
              == Occurrences(a.log, OnConnected) + if act == HandshakeDone(Completed) then 1 else 0
  {
    var c := Call(CloseSocket(NormalClosureCode, NormalClosureReason));
    match act
    case CallConnect =>
      OccurrencesSnoc(a.log, Call(ConnectAsync(a.uri)), OnConnected);
    case HandshakeDone(status) =>
      OccurrencesSnoc(a.log, Notify(OnConnected), OnConnected);
    case CallClose =>
      if a.alive {
        OccurrencesSnoc(a.log, c, OnConnected);
        OccurrencesSnoc(a.log + [c], Notify(OnClosed), OnConnected);
        assert Step(a, act).log == a.log + [c] + [Notify(OnClosed)];
      }
    case PeerClose =>
      if a.alive {
        OccurrencesSnoc(a.log, c, OnConnected);
        OccurrencesSnoc(a.log + [c], Notify(OnClosed), OnConnected);
        assert Step(a, act).log == a.log + [c] + [Notify(OnClosed)];
      }
    case CallSend(message, outcome) =>
      if a.alive && a.writerBound {
        var w := Call(WriteBytes(message));
        OccurrencesSnoc(a.log, w, OnConnected);
        if outcome != WriteFailed {
          OccurrencesSnoc(a.log + [w], Call(StoreAsync), OnConnected);
        }
      }
    case FrameArrived(frame) =>
      if frame.Read? {
        OccurrencesSnoc(a.log, Notify(OnReceive(frame.unconsumed)), OnConnected);
      }
    case QueryAlive =>
  }

  /** OnReceive is raised once per frame read without error, carrying that
      frame's whole buffer, in arrival order. */
  lemma {:induction false} ReceivedPerDeliveredFrame(a: Adapter, acts: seq<Action>)
    ensures ReceivedPayloads(Run(a, acts).log)
              == ReceivedPayloads(a.log) + DeliveredFrames(acts)
    decreases |acts|
  {
    if acts != [] {
      StepReceivedPayloads(a, acts[0]);
      ReceivedPerDeliveredFrame(Step(a, acts[0]), acts[1..]);
    }
  }

  /** One step adds a received payload exactly when a frame was read, and
      then that frame's buffer. */
  lemma StepReceivedPayloads(a: Adapter, act: Action)
    ensures ReceivedPayloads(Step(a, act).log)
              == ReceivedPayloads(a.log)
                 + if act.FrameArrived? && act.frame.Read? then [act.frame.unconsumed] else []
  {
    var c := Call(CloseSocket(NormalClosureCode, NormalClosureReason));
    match act
    case CallConnect =>
      ReceivedSnoc(a.log, Call(ConnectAsync(a.uri)));
    case HandshakeDone(status) =>
      ReceivedSnoc(a.log, Notify(OnConnected));
    case CallClose =>
      if a.alive {
        ReceivedSnoc(a.log, c);
        ReceivedSnoc(a.log + [c], Notify(OnClosed));
        assert Step(a, act).log == a.log + [c] + [Notify(OnClosed)];
      }
    case PeerClose =>
      if a.alive {
        ReceivedSnoc(a.log, c);
        ReceivedSnoc(a.log + [c], Notify(OnClosed));
        assert Step(a, act).log == a.log + [c] + [Notify(OnClosed)];
      }
    case CallSend(message, outcome) =>
      if a.alive && a.writerBound {
        var w := Call(WriteBytes(message));
        ReceivedSnoc(a.log, w);
        if outcome != WriteFailed {
          ReceivedSnoc(a.log + [w], Call(StoreAsync));
        }
      }
    case FrameArrived(frame) =>
      if frame.Read? {
        ReceivedSnoc(a.log, Notify(OnReceive(frame.unconsumed)));
      }
    case QueryAlive =>
  }

  /** The writer outlives the connection: after connect and close the flag is
      clear but the writer is still bound, so "writer bound" does not imply
      "alive". */
  lemma WriterOutlivesClose(uri: Uri)
    ensures var a := Run(Initial(uri), [CallConnect, HandshakeDone(Completed), CallClose]);
            a.writerBound && !IsAlive(a)
  {
  }

  /** An address whose trimmed text parses to a WebSocket URI constructs an
      adapter in its initial state for that URI. */
  lemma CreateAcceptsWebSocketAddress(address: string, parse: string -> Option<Uri>, u: Uri)
    requires parse(Trim(address)) == Some(u) && IsWebSocketUri(u)
    ensures Create(address, parse) == Ok(Initial(u))
  {
  }

  /** Every adapter a successful construction yields, driven by any sequence
      of entry points, satisfies the invariant. */
  lemma CreatedAdaptersStayValid(address: string, parse: string -> Option<Uri>, acts: seq<Action>)
    requires Create(address, parse).Ok?
    ensures Valid(Run(Create(address, parse).value, acts))
  {
    ReachableValid(Create(address, parse).value.uri, acts);
  }

  /** From construction (see CreateAcceptsWebSocketAddress): connect, send three bytes, receive
      them back from an echoing peer, close: the listener hears OnConnected,
      one OnReceive with exactly those bytes, and one OnClosed; the writer
      was handed the bytes once; the adapter ends not alive. */
  lemma EchoScenario(u: Uri)
    ensures var a := Run(Initial(u), [CallConnect, HandshakeDone(Completed), CallSend([1, 2, 3], Stored),
                                      FrameArrived(Read([1, 2, 3])), CallClose]);
            && Notifications(a.log) == [OnConnected, OnReceive([1, 2, 3]), OnClosed]
            && Collect(a.log, WrittenBytesOf) == [[1, 2, 3]]
            && !IsAlive(a)
  {
    var acts := [CallConnect, HandshakeDone(Completed), CallSend([1, 2, 3], Stored),
                 FrameArrived(Read([1, 2, 3])), CallClose];
    var c := Call(CloseSocket(NormalClosureCode, NormalClosureReason));
    var a0 := Initial(u);
    var a1 := Connect(a0);
    var a2 := HandshakeCompleted(a1, Completed);
    var a3 := Send(a2, [1, 2, 3], Stored);
    var a4 := Receive(a3, Read([1, 2, 3]));
    var a5 := Close(a4);
    assert Run(a0, acts) == Run(a1, acts[1..]);
    assert Run(a1, acts[1..]) == Run(a2, acts[2..]);
    assert Run(a2, acts[2..]) == Run(a3, acts[3..]);
    assert Run(a3, acts[3..]) == Run(a4, acts[4..]);
    assert Run(a4, acts[4..]) == a5;
    var l1 := [Call(ConnectAsync(u))];
    var l2 := l1 + [Notify(OnConnected)];
    var l3 := l2 + [Call(WriteBytes([1, 2, 3]))];
    var l4 := l3 + [Call(StoreAsync)];
    var l5 := l4 + [Notify(OnReceive([1, 2, 3]))];
    var l6 := l5 + [c];
    var l7 := l6 + [Notify(OnClosed)];
    assert a5.log == l7;
    CollectSnoc([], Call(ConnectAsync(u)), NotificationOf);
    CollectSnoc(l1, Notify(OnConnected), NotificationOf);
    CollectSnoc(l2, Call(WriteBytes([1, 2, 3])), NotificationOf);
    CollectSnoc(l3, Call(StoreAsync), NotificationOf);
    CollectSnoc(l4, Notify(OnReceive([1, 2, 3])), NotificationOf);
    CollectSnoc(l5, c, NotificationOf);
    CollectSnoc(l6, Notify(OnClosed), NotificationOf);
    CollectSnoc([], Call(ConnectAsync(u)), WrittenBytesOf);
    CollectSnoc(l1, Notify(OnConnected), WrittenBytesOf);
    CollectSnoc(l2, Call(WriteBytes([1, 2, 3])), WrittenBytesOf);
    CollectSnoc(l3, Call(StoreAsync), WrittenBytesOf);
    CollectSnoc(l4, Notify(OnReceive([1, 2, 3])), WrittenBytesOf);
    CollectSnoc(l5, c, WrittenBytesOf);
    CollectSnoc(l6, Notify(OnClosed), WrittenBytesOf);
  }
}
