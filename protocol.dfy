/**
 * The remote-control protocol engine as a pure state machine.
 *
 * `ServerState` collects the file-scope state of the engine; each function
 * below is one routine of the engine applied to that state. The class in
 * module RemoteApi implements the same routines imperatively and proves that
 * each of its methods moves its state exactly as the function here says; the
 * lemmas here state what the protocol promises.
 */
module Protocol {
  import opened Basics
  import opened RemoteApiHeader

  /** Ticks without a keep-alive before the connection is dropped
      (10 s at one tick every 2 ms). */
  const ResetValueAliveTimer: int := 5000

  /** What the client subscribed to in its handshake. */
  datatype ClientSubscriptions = ClientSubscriptions(logging: bool, multiworldUpdates: bool)

  const NoSubscriptions := ClientSubscriptions(false, false)

  /** An entry of the outbound queue: the byte count to send and the buffer
      pointer (`None` is NULL). */
  datatype PacketBuffer = PacketBuffer(size: int, buffer: Option<seq<byte>>)

  /** What a packet builder hands back: its `size` out-parameter and the
      buffer it allocated. */
  datatype Reply = Reply(size: u64, buffer: seq<byte>)

  /** The engine's state. `inbound` is the part of the client's byte stream
      that has arrived but has not been received yet. */
  datatype ServerState = ServerState(
    clientSocket: int,
    requestNumber: byte,
    clientSubs: ClientSubscriptions,
    keepAlive: int,
    readyForGameThread: bool,
    recvBuffer: seq<byte>,
    recvBufferLength: u64,
    sendBufferVector: seq<PacketBuffer>,
    inbound: seq<byte>)

  /** Every queued packet owns a buffer. */
  predicate AllNonNull(q: seq<PacketBuffer>)
  {
    forall i :: 0 <= i < |q| ==> q[i].buffer.Some?
  }

  predicate Valid(s: ServerState)
  {
    |s.recvBuffer| == BufferSize && AllNonNull(s.sendBufferVector)
  }

  /** The state before the first client is accepted. */
  function Initial(): (s: ServerState)
    ensures Valid(s)
  {
    ServerState(-1, 0, NoSubscriptions, 0, false, Zeros(BufferSize), 0, [], [])
  }

  /** The 8-bit sequence number that follows `n`. */
  function Next(n: byte): byte
  {
    (n + 1) % 256
  }

  // ---------------------------------------------------------------------
  // Outbound queue

  /** `AddPacketToSendBuffer`: one entry at the end of the queue. */
  function AddPacketToSendBuffer(s: ServerState, buffer: seq<byte>, packetLength: int): (r: ServerState)
    ensures |r.sendBufferVector| == |s.sendBufferVector| + 1
    ensures r.sendBufferVector[..|s.sendBufferVector|] == s.sendBufferVector
    ensures r.sendBufferVector[|s.sendBufferVector|] == PacketBuffer(packetLength, Some(buffer))
    ensures r == s.(sendBufferVector := r.sendBufferVector)
  {
    s.(sendBufferVector := s.sendBufferVector + [PacketBuffer(packetLength, Some(buffer))])
  }

  /** What is left after `erase(remove_if(begin, end, pb.buffer != NULL), end)`:
      the entries whose buffer pointer is NULL. */
  function EraseNonNull(q: seq<PacketBuffer>): (r: seq<PacketBuffer>)
    ensures |r| <= |q|
    ensures forall i :: 0 <= i < |r| ==> r[i].buffer.None?
  {
    if q == [] then []
    else EraseNonNull(q[..|q| - 1]) + (if q[|q| - 1].buffer.None? then [q[|q| - 1]] else [])
  }

  /** The entries whose buffer pointer is not NULL (the opposite filter). */
  function EraseNull(q: seq<PacketBuffer>): seq<PacketBuffer>
  {
    if q == [] then []
    else EraseNull(q[..|q| - 1]) + (if q[|q| - 1].buffer.Some? then [q[|q| - 1]] else [])
  }

  /** The packets whose `Send` returned a positive count: these are freed. */
  function Delivered(q: seq<PacketBuffer>, send: PacketBuffer -> int): seq<PacketBuffer>
  {
    if q == [] then []
    else Delivered(q[..|q| - 1], send) + (if send(q[|q| - 1]) > 0 then [q[|q| - 1]] else [])
  }

  /** The packets whose `Send` failed: the ones the code's comment says stay
      queued for a retry. */
  function Retained(q: seq<PacketBuffer>, send: PacketBuffer -> int): seq<PacketBuffer>
  {
    if q == [] then []
    else Retained(q[..|q| - 1], send) + (if send(q[|q| - 1]) > 0 then [] else [q[|q| - 1]])
  }

  /** The queue as it would be if the loop nulled the freed buffers in the
      vector itself rather than in a copy. */
  function MarkFreed(q: seq<PacketBuffer>, send: PacketBuffer -> int): (r: seq<PacketBuffer>)
    ensures |r| == |q|
  {
    if q == [] then []
    else
      var pb := q[|q| - 1];
      MarkFreed(q[..|q| - 1], send) + [if send(pb) > 0 then pb.(buffer := None) else pb]
  }

  /** `SendLogic`: every packet is offered to `Send` (module RemoteApi does the
      offering); the loop nulls only its copies, so the erase runs on the
      untouched vector. */
  function SendLogic(s: ServerState): (r: ServerState)
    ensures r == s.(sendBufferVector := r.sendBufferVector)
    ensures forall i :: 0 <= i < |r.sendBufferVector| ==> r.sendBufferVector[i].buffer.None?
  {
    s.(sendBufferVector := EraseNonNull(s.sendBufferVector))
  }

  // ---------------------------------------------------------------------
  // Receiving

  /** `rest` is what is left of `stream` once a prefix has been read. */
  predicate Consumed(stream: seq<byte>, rest: seq<byte>)
  {
    |rest| <= |stream| && rest == stream[|stream| - |rest|..]
  }

  lemma ConsumedTrans(a: seq<byte>, b: seq<byte>, c: seq<byte>)
    requires Consumed(a, b) && Consumed(b, c)
    ensures Consumed(a, c)
  {
    assert a[|a| - |c|..] == a[|a| - |b|..][|b| - |c|..];
  }

  /** A byte that is still unread was sent. */
  lemma ConsumedIn(a: seq<byte>, b: seq<byte>, x: byte)
    requires Consumed(a, b) && x in b
    ensures x in a
  {
    var i :| 0 <= i < |b| && b[i] == x;
    assert a[|a| - |b| + i] == x;
  }

  /** `Recv(clientSocket, RecvBuffer + off, n, MSG_DONTWAIT)`: what has arrived,
      up to `n` bytes, is consumed and copied to offset `off`. */
  function Recv(s: ServerState, off: nat, n: nat): (r: ServerState)
    requires off <= |s.recvBuffer|
    ensures |r.recvBuffer| == |s.recvBuffer|
    ensures s.inbound == s.inbound[..Min(n, |s.inbound|)] + r.inbound
    ensures Consumed(s.inbound, r.inbound)
    ensures r == s.(recvBuffer := r.recvBuffer, inbound := r.inbound)
  {
    var k := Min(n, |s.inbound|);
    assert s.inbound == s.inbound[..k] + s.inbound[k..];
    s.(recvBuffer := Store(s.recvBuffer, off, s.inbound[..k]), inbound := s.inbound[k..])
  }

  /** How many bytes that receive writes past the end of RecvBuffer. */
  function RecvOverrun(s: ServerState, off: nat, n: nat): nat
  {
    Overrun(s.recvBuffer, off, s.inbound[..Min(n, |s.inbound|)])
  }

  /** `ParseHandshake`: bit 0 of the interest byte subscribes to logs and bit 1
      to multiworld updates; a 2-byte acknowledgement carries the sequence
      number, unless its allocation fails. */
  function ParseHandshake(s: ServerState, allocOk: bool): (r: ServerState)
    requires |s.recvBuffer| >= 2
    ensures r.recvBuffer == s.recvBuffer && r.recvBufferLength == s.recvBufferLength && r.inbound == s.inbound
    ensures r.keepAlive == s.keepAlive && r.readyForGameThread == s.readyForGameThread
    ensures r.clientSocket == s.clientSocket
    ensures r.sendBufferVector
         == s.sendBufferVector + (if allocOk then [PacketBuffer(2, Some([PacketHandshake, s.requestNumber]))] else [])
  {
    var interestByte := s.recvBuffer[1];
    var s1 := s.(clientSubs := ClientSubscriptions(
                    (interestByte / InterestLogging) % 2 == 1,
                    (interestByte / InterestLocationCollected) % 2 == 1));
    if !allocOk then s1
    else AddPacketToSendBuffer(s1.(requestNumber := Next(s.requestNumber)),
                               [PacketHandshake, s.requestNumber], 2)
  }

  /** `ParseRemoteLuaExec`: hands the buffer to the game thread. */
  function ParseRemoteLuaExec(s: ServerState): (r: ServerState)
    ensures r.readyForGameThread
    ensures r.sendBufferVector == s.sendBufferVector && r.requestNumber == s.requestNumber
    ensures r.recvBuffer == s.recvBuffer && r.inbound == s.inbound && r.keepAlive == s.keepAlive
  {
    s.(readyForGameThread := true)
  }

  /** The `int` that `memcpy(&remainingBytes, RecvBuffer + 1, 4)` produces. */
  function RemainingBytes(buf: seq<byte>): int
    requires |buf| >= 5
  {
    ToInt32(Le(buf[1..5]))
  }

  /** The state after the length field of a remote-exec packet is received. */
  function ExecHeader(s: ServerState): (r: ServerState)
    requires |s.recvBuffer| == BufferSize
    ensures |r.recvBuffer| == BufferSize
  {
    Recv(s, 1, 4)
  }

  /** The handshake case of `ParseClientPacket`: count the interest byte,
      receive it, parse. */
  function HandshakeCase(s: ServerState, allocOk: bool): (r: ServerState)
    requires |s.recvBuffer| == BufferSize
    ensures |r.recvBuffer| == BufferSize && r.recvBufferLength == SizeT(s.recvBufferLength + 1)
    ensures r.keepAlive == s.keepAlive && r.readyForGameThread == s.readyForGameThread
    ensures Consumed(s.inbound, r.inbound) && |s.inbound| - |r.inbound| == Min(1, |s.inbound|)
  {
    ParseHandshake(Recv(s.(recvBufferLength := SizeT(s.recvBufferLength + 1)), 1, 1), allocOk)
  }

  /** The remote-exec case of `ParseClientPacket`: receive the length field,
      read it as an `int`, receive that many bytes at offset 5 and add
      `4 + remainingBytes` to the length. */
  function RemoteLuaExecCase(s: ServerState): (r: ServerState)
    requires |s.recvBuffer| == BufferSize
    ensures |r.recvBuffer| == BufferSize && r.readyForGameThread
    ensures r.sendBufferVector == s.sendBufferVector && r.requestNumber == s.requestNumber
    ensures r.keepAlive == s.keepAlive && Consumed(s.inbound, r.inbound)
  {
    var s1 := ExecHeader(s);
    var remainingBytes := RemainingBytes(s1.recvBuffer);
    var s2 := Recv(s1, 5, SizeT(remainingBytes));
    ConsumedTrans(s.inbound, s1.inbound, s2.inbound);
    ParseRemoteLuaExec(s2.(recvBufferLength := SizeT(s2.recvBufferLength + ToInt32(4 + remainingBytes))))
  }

  /** The remote-exec case as its two receives: the chunk is received into
      the state the length field left. */
  lemma RemoteLuaExecCaseSteps(s: ServerState, s1: ServerState, remainingBytes: int)
    requires |s.recvBuffer| == BufferSize
    requires s1 == ExecHeader(s) && remainingBytes == RemainingBytes(s1.recvBuffer)
    ensures RemoteLuaExecCase(s)
         == ParseRemoteLuaExec(Recv(s1, 5, SizeT(remainingBytes))
              .(recvBufferLength := SizeT(s1.recvBufferLength + ToInt32(4 + remainingBytes))))
  {
  }

  /** `ParseClientPacket`: dispatch on the type byte already in RecvBuffer[0].
      The counts returned by the follow-up receives are ignored. */
  function ParseClientPacket(s: ServerState, allocOk: bool): (r: ServerState)
    requires |s.recvBuffer| == BufferSize
    ensures |r.recvBuffer| == BufferSize
    ensures r.keepAlive == if s.recvBuffer[0] == PacketKeepAlive then ResetValueAliveTimer else s.keepAlive
    ensures r.readyForGameThread == (s.readyForGameThread || s.recvBuffer[0] == PacketRemoteLuaExec)
    ensures Consumed(s.inbound, r.inbound)
  {
    var t := s.recvBuffer[0];
    if t == PacketHandshake then HandshakeCase(s, allocOk)
    else if t == PacketRemoteLuaExec then RemoteLuaExecCase(s)
    else if t == PacketKeepAlive then s.(keepAlive := ResetValueAliveTimer)
    else s
  }

  /** The state after RecvBuffer is cleared and the type byte is received. */
  function TypeByteReceived(s: ServerState): (r: ServerState)
    requires s.inbound != []
    ensures |r.recvBuffer| == BufferSize && r.recvBuffer[0] == s.inbound[0]
    ensures r.inbound == s.inbound[1..] && Consumed(s.inbound, r.inbound)
    ensures r.keepAlive == s.keepAlive && r.readyForGameThread == s.readyForGameThread
  {
    Recv(s.(recvBuffer := Zeros(BufferSize)), 0, 1).(recvBufferLength := 1)
  }

  /** `ReceiveLogic`: nothing while the game thread holds the buffer; otherwise
      clear it, try a 1-byte receive (-1 when nothing has arrived) and parse. */
  function ReceiveLogic(s: ServerState, allocOk: bool): (r: ServerState)
    ensures s.readyForGameThread ==> r == s
    ensures r.keepAlive == if !s.readyForGameThread && s.inbound != [] && s.inbound[0] == PacketKeepAlive
                           then ResetValueAliveTimer else s.keepAlive
    ensures Consumed(s.inbound, r.inbound)
  {
    if s.readyForGameThread then s
    else if s.inbound == [] then s.(recvBuffer := Zeros(BufferSize), recvBufferLength := SizeT(-1))
    else
      var s0 := TypeByteReceived(s);
      var r := ParseClientPacket(s0, allocOk);
      ConsumedTrans(s.inbound, s0.inbound, r.inbound);
      r
  }

  /** How many bytes a call of `ReceiveLogic` writes past the end of RecvBuffer. */
  function ReceiveOverrun(s: ServerState): nat
  {
    if s.readyForGameThread || s.inbound == [] then 0
    else
      var s0 := TypeByteReceived(s);
      if s0.recvBuffer[0] != PacketRemoteLuaExec then 0
      else
        var s1 := ExecHeader(s0);
        RecvOverrun(s1, 5, SizeT(RemainingBytes(s1.recvBuffer)))
  }

  // ---------------------------------------------------------------------
  // Game-thread side

  /** `ProcessCommand`: while the flag is set, run the processor on the buffer;
      stamp type and sequence number into its packet and queue it. The flag is
      cleared either way. */
  function ProcessCommand(s: ServerState, processor: (seq<byte>, u64) -> Option<Reply>): (r: ServerState)
    ensures !r.readyForGameThread
    ensures r.recvBuffer == s.recvBuffer && r.inbound == s.inbound && r.keepAlive == s.keepAlive
    ensures r.clientSocket == s.clientSocket && r.clientSubs == s.clientSubs
    ensures s.sendBufferVector <= r.sendBufferVector && |r.sendBufferVector| <= |s.sendBufferVector| + 1
  {
    if !s.readyForGameThread then s
    else match processor(s.recvBuffer, s.recvBufferLength)
      case None => s.(readyForGameThread := false)
      case Some(reply) =>
        var buffer := Store(reply.buffer, 0, [PacketRemoteLuaExec, s.requestNumber]);
        AddPacketToSendBuffer(s.(requestNumber := Next(s.requestNumber)), buffer, ToInt32(reply.size))
          .(readyForGameThread := false)
  }

  /** `SendLog`: only while a client socket is open; stamps the type byte and
      takes no sequence number. `reply` is what the processor returns. */
  function SendLog(s: ServerState, reply: Option<Reply>): (r: ServerState)
    ensures r == s.(sendBufferVector := r.sendBufferVector)
    ensures s.sendBufferVector <= r.sendBufferVector && |r.sendBufferVector| <= |s.sendBufferVector| + 1
    ensures s.clientSocket <= 0 ==> r == s
  {
    if s.clientSocket > 0 && reply.Some? then
      AddPacketToSendBuffer(s, Store(reply.value.buffer, 0, [PacketLogMessage]), ToInt32(reply.value.size))
    else s
  }

  // ---------------------------------------------------------------------
  // Connection loop

  /** Start of a connection in `SocketSpawn`: sequence number and
      subscriptions reset, the accepted socket stored, the timer rearmed. */
  function Accept(s: ServerState, handle: int): (r: ServerState)
    ensures r.recvBuffer == s.recvBuffer && r.recvBufferLength == s.recvBufferLength
    ensures r.readyForGameThread == s.readyForGameThread && r.sendBufferVector == s.sendBufferVector
    ensures r.inbound == []
  {
    s.(requestNumber := 0, clientSubs := NoSubscriptions, clientSocket := handle,
       keepAlive := ResetValueAliveTimer, inbound := [])
  }

  /** Teardown after the timer runs out: queue emptied, socket closed. */
  function Teardown(s: ServerState): (r: ServerState)
    ensures r.sendBufferVector == [] && r.clientSocket == -1
    ensures r == s.(sendBufferVector := [], clientSocket := r.clientSocket)
  {
    s.(sendBufferVector := [], clientSocket := -1)
  }

  datatype TickResult = TickResult(state: ServerState, tornDown: bool)

  /** One iteration of the inner loop of `SocketSpawn`. */
  function Tick(s: ServerState, allocOk: bool): (r: TickResult)
    ensures r.state.keepAlive == if !s.readyForGameThread && s.inbound != [] && s.inbound[0] == PacketKeepAlive
                                 then ResetValueAliveTimer else s.keepAlive - 1
    ensures r.tornDown <==> r.state.keepAlive == 0
    ensures r.tornDown ==> r.state.sendBufferVector == [] && r.state.clientSocket == -1
    ensures s.readyForGameThread ==> r.state.readyForGameThread
    ensures Consumed(s.inbound, r.state.inbound)
  {
    var s1 := SendLogic(ReceiveLogic(s.(keepAlive := s.keepAlive - 1), allocOk));
    if s1.keepAlive == 0 then TickResult(Teardown(s1), true) else TickResult(s1, false)
  }

  /** A call the game thread makes into the engine: `ProcessCommand` with the
      packet builder it passes, or `SendLog` with what its builder returned. */
  datatype GameCall =
    | Exec(processor: (seq<byte>, u64) -> Option<Reply>)
    | Log(reply: Option<Reply>)

  function GameCallStep(s: ServerState, c: GameCall): (r: ServerState)
    ensures r.keepAlive == s.keepAlive && r.inbound == s.inbound && r.clientSocket == s.clientSocket
    ensures s.sendBufferVector <= r.sendBufferVector && |r.sendBufferVector| <= |s.sendBufferVector| + 1
  {
    match c
    case Exec(processor) => ProcessCommand(s, processor)
    case Log(reply) => SendLog(s, reply)
  }

  /** The game thread's calls between two ticks, in order. They leave the
      timer, the unread stream and the socket alone and only append to the
      outbound queue, at most one packet per call. */
  function GameTurn(s: ServerState, calls: seq<GameCall>): (r: ServerState)
    ensures r.keepAlive == s.keepAlive && r.inbound == s.inbound && r.clientSocket == s.clientSocket
    ensures s.sendBufferVector <= r.sendBufferVector && |r.sendBufferVector| <= |s.sendBufferVector| + |calls|
    decreases |calls|
  {
    if calls == [] then s
    else GameCallStep(GameTurn(s, calls[..|calls| - 1]), calls[|calls| - 1])
  }

  /** What happens in the interval before one tick of the network thread:
      the game thread's `calls`, the bytes the client sends, and whether an
      allocation the tick makes succeeds. */
  datatype Slot = Slot(calls: seq<GameCall>, arrival: seq<byte>, allocOk: bool)

  /** One slot: the game calls, then the arrival, then the tick. */
  function Step(s: ServerState, slot: Slot): TickResult
  {
    var g := GameTurn(s, slot.calls);
    Tick(g.(inbound := g.inbound + slot.arrival), slot.allocOk)
  }

  datatype Run = Run(state: ServerState, ticks: nat, tornDown: bool)

  /** A run that started `k` ticks later. */
  function Later(r: Run, k: nat): Run
  {
    Run(r.state, r.ticks + k, r.tornDown)
  }

  /** The inner loop of `SocketSpawn` over a finite stretch of time, with the
      game thread's calls interleaved between ticks: `slots[i]` is what
      happens before tick `i`. Stops at teardown. */
  function Serve(s: ServerState, slots: seq<Slot>): (r: Run)
    ensures r.ticks <= |slots|
    ensures !r.tornDown ==> r.ticks == |slots|
    ensures r.tornDown ==> 1 <= r.ticks && r.state.sendBufferVector == [] && r.state.clientSocket == -1
    decreases |slots|
  {
    if slots == [] then Run(s, 0, false)
    else
      var t := Step(s, slots[0]);
      if t.tornDown then Run(t.state, 1, true)
      else
        Later(Serve(t.state, slots[1..]), 1)
  }

  /** One tick of `Serve`: the first slot runs, and the rest of the run
      starts one tick later unless the connection was torn down. */
  lemma ServeStep(s: ServerState, slots: seq<Slot>, t: TickResult)
    requires slots != [] && t == Step(s, slots[0])
    ensures Serve(s, slots)
         == if t.tornDown then Run(t.state, 1, true) else Later(Serve(t.state, slots[1..]), 1)
  {
  }

  // =====================================================================
  // Properties

  /** Every step keeps the state well formed. */
  lemma ReceiveLogicValid(s: ServerState, allocOk: bool)
    requires Valid(s)
    ensures Valid(ReceiveLogic(s, allocOk))
  {
  }

  lemma ProcessCommandValid(s: ServerState, processor: (seq<byte>, u64) -> Option<Reply>)
    requires Valid(s)
    ensures Valid(ProcessCommand(s, processor))
  {
  }

  /** The handoff is single-slot: while the game thread holds the buffer the
      network side neither clears nor overwrites it, and consumes nothing. */
  lemma ReceiveWhileReady(s: ServerState, allocOk: bool)
    requires s.readyForGameThread
    ensures ReceiveLogic(s, allocOk) == s
  {
  }

  /** `ProcessCommand` does nothing while no command is pending. */
  lemma ProcessCommandIdle(s: ServerState, processor: (seq<byte>, u64) -> Option<Reply>)
    requires !s.readyForGameThread
    ensures ProcessCommand(s, processor) == s
  {
  }

  /** A pending command is always consumed. Without a reply nothing is queued
      and no sequence number is used; with one, exactly one packet is queued,
      stamped with type 3 and the old sequence number, which then advances. */
  lemma ProcessCommandEffect(s: ServerState, processor: (seq<byte>, u64) -> Option<Reply>)
    requires s.readyForGameThread
    ensures var r := ProcessCommand(s, processor);
      && !r.readyForGameThread
      && r.recvBuffer == s.recvBuffer && r.clientSubs == s.clientSubs && r.keepAlive == s.keepAlive
      && match processor(s.recvBuffer, s.recvBufferLength)
         case None =>
           r.sendBufferVector == s.sendBufferVector && r.requestNumber == s.requestNumber
         case Some(reply) =>
           && r.requestNumber == (s.requestNumber + 1) % 256
           && r.sendBufferVector == s.sendBufferVector +
                [PacketBuffer(ToInt32(reply.size),
                              Some(Store(reply.buffer, 0, [PacketRemoteLuaExec, s.requestNumber])))]
  {
  }

  /** A log packet is queued only while a client socket is open; it is stamped
      with type 2 and uses no sequence number. */
  lemma SendLogEffect(s: ServerState, reply: Option<Reply>)
    ensures var r := SendLog(s, reply);
      && r.requestNumber == s.requestNumber
      && r == s.(sendBufferVector := r.sendBufferVector)
      && (if s.clientSocket > 0 && reply.Some? then
            r.sendBufferVector == s.sendBufferVector +
              [PacketBuffer(ToInt32(reply.value.size), Some(Store(reply.value.buffer, 0, [PacketLogMessage])))]
          else r.sendBufferVector == s.sendBufferVector)
  {
  }

  /** A keep-alive rearms the timer and changes nothing else that the
      protocol keeps; in particular nothing is queued. */
  lemma ReceiveKeepAlive(s: ServerState, rest: seq<byte>, allocOk: bool)
    requires !s.readyForGameThread && s.inbound == [PacketKeepAlive] + rest
    ensures var r := ReceiveLogic(s, allocOk);
      && r.keepAlive == ResetValueAliveTimer
      && r.sendBufferVector == s.sendBufferVector && r.requestNumber == s.requestNumber
      && r.clientSubs == s.clientSubs && !r.readyForGameThread
      && r.inbound == rest && r.recvBufferLength == 1
  {
    assert s.inbound[1..] == rest;
  }

  /** The timer is decremented before the receive, so a tick that reads a
      keep-alive ends with the full 5000 and never tears down, whatever the
      timer held. */
  lemma KeepAliveTick(s: ServerState, rest: seq<byte>, allocOk: bool)
    requires !s.readyForGameThread && s.inbound == [PacketKeepAlive] + rest
    ensures !Tick(s, allocOk).tornDown
    ensures Tick(s, allocOk).state.keepAlive == ResetValueAliveTimer
  {
    ReceiveKeepAlive(s.(keepAlive := s.keepAlive - 1), rest, allocOk);
  }

  /** Any other type byte (0, 2, 5 and up) is dropped: only the type byte is
      consumed and only RecvBuffer and its length change. */
  lemma ReceiveOtherType(s: ServerState, t: byte, rest: seq<byte>, allocOk: bool)
    requires !s.readyForGameThread && s.inbound == [t] + rest
    requires t != PacketHandshake && t != PacketRemoteLuaExec && t != PacketKeepAlive
    ensures var r := ReceiveLogic(s, allocOk);
      && r == s.(recvBuffer := r.recvBuffer, recvBufferLength := 1, inbound := rest)
      && r.recvBuffer == Zeros(BufferSize)[0 := t]
  {
    assert s.inbound[1..] == rest;
    var r := ReceiveLogic(s, allocOk);
    assert r.recvBuffer == Zeros(BufferSize)[0 := t];
  }

  /** The interest byte as the handshake reads it: 0 when it has not arrived. */
  function InterestByte(more: seq<byte>): byte
  {
    if more == [] then 0 else more[0]
  }

  /** A handshake sets the subscriptions from bits 0 and 1 of the second byte
      (0 when it has not arrived), queues exactly one packet `[1, old sequence
      number]` and advances the sequence number modulo 256; its length grows by
      one. When the allocation fails only the subscriptions change. */
  lemma ReceiveHandshake(s: ServerState, more: seq<byte>, allocOk: bool)
    requires !s.readyForGameThread && s.inbound == [PacketHandshake] + more
    ensures var r := ReceiveLogic(s, allocOk);
      && r.clientSubs.logging == (InterestByte(more) % 2 == 1)
      && r.clientSubs.multiworldUpdates == ((InterestByte(more) / 2) % 2 == 1)
      && r.recvBufferLength == 2
      && r.inbound == more[Min(1, |more|)..]
      && r.keepAlive == s.keepAlive && !r.readyForGameThread
      && (if allocOk then
            && r.sendBufferVector == s.sendBufferVector + [PacketBuffer(2, Some([PacketHandshake, s.requestNumber]))]
            && r.requestNumber == (s.requestNumber + 1) % 256
          else
            r.sendBufferVector == s.sendBufferVector && r.requestNumber == s.requestNumber)
  {
    TypeByte(s, PacketHandshake, more, allocOk);
    HandshakeCaseEffect(TypeByteReceived(s), allocOk);
  }

  /** The handshake case, from the buffer holding just the type byte. */
  lemma HandshakeCaseEffect(s0: ServerState, allocOk: bool)
    requires s0.recvBuffer == Zeros(BufferSize)[0 := PacketHandshake] && s0.recvBufferLength == 1
    ensures var r := HandshakeCase(s0, allocOk);
      && r.clientSubs.logging == (InterestByte(s0.inbound) % 2 == 1)
      && r.clientSubs.multiworldUpdates == ((InterestByte(s0.inbound) / 2) % 2 == 1)
      && r.recvBufferLength == 2
      && r.inbound == s0.inbound[Min(1, |s0.inbound|)..]
      && r.keepAlive == s0.keepAlive && r.readyForGameThread == s0.readyForGameThread
      && r.sendBufferVector
         == s0.sendBufferVector + (if allocOk then [PacketBuffer(2, Some([PacketHandshake, s0.requestNumber]))] else [])
      && r.requestNumber == if allocOk then (s0.requestNumber + 1) % 256 else s0.requestNumber
  {
    var s1 := Recv(s0.(recvBufferLength := SizeT(s0.recvBufferLength + 1)), 1, 1);
    assert s1.recvBuffer[1] == InterestByte(s0.inbound);
  }

  /** The type byte lands in a cleared buffer and the rest stays unread. */
  lemma TypeByte(s: ServerState, t: byte, tail: seq<byte>, allocOk: bool)
    requires !s.readyForGameThread && s.inbound == [t] + tail
    ensures TypeByteReceived(s) == s.(recvBuffer := Zeros(BufferSize)[0 := t], recvBufferLength := 1, inbound := tail)
    ensures ReceiveLogic(s, allocOk) == ParseClientPacket(TypeByteReceived(s), allocOk)
  {
    assert s.inbound[..1] == [t];
    assert s.inbound[1..] == tail;
    assert Store(Zeros(BufferSize), 0, [t]) == Zeros(BufferSize)[0 := t];
  }

  /** A remote-exec type byte: the rest of the packet is handled by the
      remote-exec case, starting from the cleared buffer holding the type. */
  lemma ReceiveExecStart(s: ServerState, tail: seq<byte>, allocOk: bool)
    requires !s.readyForGameThread && s.inbound == [PacketRemoteLuaExec] + tail
    ensures ReceiveLogic(s, allocOk)
         == RemoteLuaExecCase(s.(recvBuffer := Zeros(BufferSize)[0 := PacketRemoteLuaExec],
                                 recvBufferLength := 1, inbound := tail))
  {
    TypeByte(s, PacketRemoteLuaExec, tail, allocOk);
  }

  /** The length field of a remote-exec packet: `n` as 4 bytes. */
  lemma ExecLengthField(s: ServerState, n: nat, tail: seq<byte>)
    requires |s.recvBuffer| == BufferSize && n < TwoTo32
    requires s.inbound == ToLe(n, 4) + tail
    ensures ExecHeader(s).recvBuffer[1..5] == ToLe(n, 4)
    ensures ExecHeader(s).inbound == tail
    ensures Le(ExecHeader(s).recvBuffer[1..5]) == n
  {
    var s1 := ExecHeader(s);
    assert s.inbound[..4] == ToLe(n, 4);
    assert s.inbound[4..] == tail;
    assert s1.recvBuffer[1..5] == ToLe(n, 4);
    LeToLe(n, 4);
    Pow256Four();
  }

  /** RecvBuffer after a complete remote-exec packet with an `n`-byte payload
      has been received into the cleared buffer. */
  function ExecPacketBuffer(n: nat, payload: seq<byte>): (r: seq<byte>)
    ensures |r| == BufferSize
  {
    Store(Store(Zeros(BufferSize)[0 := PacketRemoteLuaExec], 1, ToLe(n, 4)), 5, payload)
  }

  /** That buffer holds the type byte, the length field, the payload, then
      zeros. */
  lemma ExecPacketBufferLayout(n: nat, payload: seq<byte>)
    requires |payload| == n && 5 + n <= BufferSize
    ensures var b := ExecPacketBuffer(n, payload);
      && b[..5] == [PacketRemoteLuaExec] + ToLe(n, 4)
      && b[5..5 + n] == payload
      && b[5 + n..] == Zeros(BufferSize - 5 - n)
  {
    var b := ExecPacketBuffer(n, payload);
    assert forall i :: 1 <= i < 5 ==> b[i] == ToLe(n, 4)[i - 1];
    assert b[..5] == [PacketRemoteLuaExec] + ToLe(n, 4);
    assert forall i :: 5 <= i < 5 + n ==> b[i] == payload[i - 5];
  }

  /** The remote-exec case on a complete packet whose payload fits. */
  lemma RemoteExecComplete(s0: ServerState, n: nat, payload: seq<byte>, rest: seq<byte>)
    requires s0.recvBuffer == Zeros(BufferSize)[0 := PacketRemoteLuaExec] && s0.recvBufferLength == 1
    requires |payload| == n && 5 + n <= BufferSize
    requires s0.inbound == ToLe(n, 4) + (payload + rest)
    ensures RemoteLuaExecCase(s0) == s0.(recvBuffer := ExecPacketBuffer(n, payload), recvBufferLength := 5 + n,
                                          readyForGameThread := true, inbound := rest)
  {
    ExecLengthField(s0, n, payload + rest);
    var s1 := ExecHeader(s0);
    assert s0.inbound[..4] == ToLe(n, 4);
    assert RemainingBytes(s1.recvBuffer) == n;
    assert s1.inbound[..n] == payload;
    assert s1.inbound[n..] == rest;
  }

  /** A complete remote-exec packet whose payload fits the buffer: its length
      is the little-endian value of bytes 1..4, the payload lands at offset 5
      (`ExecPacketBufferLayout`), the length becomes 5 + n, the game thread is
      signalled and nothing else changes; in particular nothing is queued. */
  lemma ReceiveRemoteExec(s: ServerState, n: nat, payload: seq<byte>, rest: seq<byte>, allocOk: bool)
    requires !s.readyForGameThread && Valid(s)
    requires |payload| == n && 5 + n <= BufferSize
    requires s.inbound == [PacketRemoteLuaExec] + ToLe(n, 4) + payload + rest
    ensures ReceiveLogic(s, allocOk)
         == s.(recvBuffer := ExecPacketBuffer(n, payload), recvBufferLength := 5 + n,
               readyForGameThread := true, inbound := rest)
  {
    Regroup([PacketRemoteLuaExec], ToLe(n, 4), payload, rest);
    ReceiveExecStart(s, ToLe(n, 4) + (payload + rest), allocOk);
    RemoteExecComplete(s.(recvBuffer := Zeros(BufferSize)[0 := PacketRemoteLuaExec],
                          recvBufferLength := 1, inbound := ToLe(n, 4) + (payload + rest)), n, payload, rest);
  }

  /** The remote-exec case when only `partial` of the `n` payload bytes have
      arrived. */
  lemma RemoteExecPartial(s0: ServerState, n: nat, partial: seq<byte>)
    requires s0.recvBuffer == Zeros(BufferSize)[0 := PacketRemoteLuaExec]
    requires |partial| < n && 5 + n <= BufferSize
    requires s0.inbound == ToLe(n, 4) + partial
    ensures var r := RemoteLuaExecCase(s0);
      && r.readyForGameThread
      && r.recvBufferLength == SizeT(s0.recvBufferLength + 4 + n)
      && r.recvBuffer[5..5 + n] == partial + Zeros(n - |partial|)
      && r.inbound == []
  {
    ExecLengthField(s0, n, partial);
    var s1 := ExecHeader(s0);
    assert RemainingBytes(s1.recvBuffer) == n;
    var s2 := Recv(s1, 5, n);
    assert s1.inbound[..Min(n, |s1.inbound|)] == partial;
    var expected := partial + Zeros(n - |partial|);
    assert forall i :: 0 <= i < n ==> s2.recvBuffer[5 + i] == expected[i];
    assert s2.recvBuffer[5..5 + n] == expected;
  }

  /** When fewer payload bytes have arrived than the length field declares,
      the packet is still handed to the game thread with the declared length;
      the bytes that did not arrive read as zero. */
  lemma ReceiveRemoteExecShort(s: ServerState, n: nat, partial: seq<byte>, allocOk: bool)
    requires !s.readyForGameThread && Valid(s)
    requires |partial| < n && 5 + n <= BufferSize
    requires s.inbound == [PacketRemoteLuaExec] + ToLe(n, 4) + partial
    ensures var r := ReceiveLogic(s, allocOk);
      && r.readyForGameThread
      && r.recvBufferLength == 5 + n
      && r.recvBuffer[5..5 + n] == partial + Zeros(n - |partial|)
      && r.inbound == []
  {
    Regroup([PacketRemoteLuaExec], ToLe(n, 4), partial, []);
    assert partial + [] == partial;
    ReceiveExecStart(s, ToLe(n, 4) + partial, allocOk);
    RemoteExecPartial(s.(recvBuffer := Zeros(BufferSize)[0 := PacketRemoteLuaExec],
                         recvBufferLength := 1, inbound := ToLe(n, 4) + partial), n, partial);
  }

  /** The declared length is not checked against the buffer: a complete
      packet writes past the end of RecvBuffer exactly when it declares more
      than 4091 bytes, and then by 5 + n - 4096 bytes. */
  lemma RemoteExecOverrun(s: ServerState, n: nat, payload: seq<byte>, rest: seq<byte>)
    requires !s.readyForGameThread && Valid(s)
    requires |payload| == n && 5 + n < 0x8000_0000
    requires s.inbound == [PacketRemoteLuaExec] + ToLe(n, 4) + payload + rest
    ensures ReceiveOverrun(s) == Max(0, 5 + n - BufferSize)
    ensures ReceiveOverrun(s) > 0 <==> 5 + n > BufferSize
  {
    Regroup([PacketRemoteLuaExec], ToLe(n, 4), payload, rest);
    TypeByte(s, PacketRemoteLuaExec, ToLe(n, 4) + (payload + rest), false);
    var s0 := TypeByteReceived(s);
    ExecLengthField(s0, n, payload + rest);
    var s1 := ExecHeader(s0);
    assert RemainingBytes(s1.recvBuffer) == n;
    assert |s1.inbound[..Min(n, |s1.inbound|)]| == n;
  }

  /** The length field is read as a signed `int` and never checked for being
      negative: all-ones means -1, which becomes the largest `size_t` for the
      receive, so everything that has arrived is read; the stored length wraps
      around to 4. */
  lemma RemoteExecNegativeLength(s: ServerState, rest: seq<byte>, allocOk: bool)
    requires !s.readyForGameThread && Valid(s)
    requires s.inbound == [PacketRemoteLuaExec, 255, 255, 255, 255] + rest && |rest| < TwoTo32
    ensures var r := ReceiveLogic(s, allocOk);
      && r.readyForGameThread
      && r.recvBufferLength == 4
      && r.inbound == []
  {
    var tail := [255, 255, 255, 255] + rest;
    assert s.inbound == [PacketRemoteLuaExec] + tail;
    ReceiveExecStart(s, tail, allocOk);
    ExecAllOnes(s.(recvBuffer := Zeros(BufferSize)[0 := PacketRemoteLuaExec], recvBufferLength := 1, inbound := tail), rest);
  }

  /** The remote-exec case with an all-ones length field reads everything
      that has arrived and adds 3 to the length. */
  lemma ExecAllOnes(s0: ServerState, rest: seq<byte>)
    requires |s0.recvBuffer| == BufferSize
    requires s0.inbound == [255, 255, 255, 255] + rest && |rest| < TwoTo32
    ensures var r := RemoteLuaExecCase(s0);
      && r.readyForGameThread
      && r.recvBufferLength == SizeT(s0.recvBufferLength + 3)
      && r.inbound == []
  {
    var s1 := ExecHeader(s0);
    assert s1.inbound == rest && s1.recvBuffer[1..5] == [255, 255, 255, 255] by {
      assert s0.inbound[..4] == [255, 255, 255, 255];
      assert s0.inbound[4..] == rest;
    }
    AllOnesLength(s1.recvBuffer[1..5]);
    RemoteLuaExecCaseSteps(s0, s1, -1);
  }

  /** Four all-ones bytes, read as an `int`, are -1. */
  lemma AllOnesLength(b: seq<byte>)
    requires b == [255, 255, 255, 255]
    ensures ToInt32(Le(b)) == -1
  {
    assert b[1..][1..][1..] == [255];
    assert Le(b[1..][1..][1..]) == 255;
    assert Le(b[1..][1..]) == 65535;
    assert Le(b[1..]) == 16777215;
  }

  /** `SendLogic` as written always leaves the queue empty: the loop nulls only
      copies, so every vector entry still owns its buffer when the erase runs,
      and the erase removes exactly the entries that own one. */
  lemma {:induction false} EraseNonNullEmpties(q: seq<PacketBuffer>)
    requires AllNonNull(q)
    ensures EraseNonNull(q) == []
  {
    if q != [] {
      EraseNonNullEmpties(q[..|q| - 1]);
    }
  }

  /** Every packet is either delivered or, by the code's own comment, kept for
      a retry: the two together are the queue. */
  lemma {:induction false} DeliveredRetainedSplit(q: seq<PacketBuffer>, send: PacketBuffer -> int)
    ensures multiset(Delivered(q, send)) + multiset(Retained(q, send)) == multiset(q)
  {
    if q != [] {
      var init, last := q[..|q| - 1], q[|q| - 1];
      DeliveredRetainedSplit(init, send);
      assert q == init + [last];
      assert multiset(q) == multiset(init) + multiset{last};
    }
  }

  /** Had the loop nulled the vector's own entries, keeping the entries that
      still own a buffer would have left exactly the failed packets, as the
      comment describes, while the predicate actually used would keep exactly
      the freed ones. */
  lemma {:induction false} MarkFreedErase(q: seq<PacketBuffer>, send: PacketBuffer -> int)
    requires AllNonNull(q)
    ensures EraseNull(MarkFreed(q, send)) == Retained(q, send)
    ensures |EraseNonNull(MarkFreed(q, send))| == |Delivered(q, send)|
  {
    if q != [] {
      var m := MarkFreed(q, send);
      assert m[..|m| - 1] == MarkFreed(q[..|q| - 1], send);
      MarkFreedErase(q[..|q| - 1], send);
    }
  }

  /** Hence a packet whose send fails is lost instead of retried. */
  lemma SendLogicDropsFailedPackets(s: ServerState, send: PacketBuffer -> int)
    requires Valid(s) && Retained(s.sendBufferVector, send) != []
    ensures SendLogic(s).sendBufferVector == []
    ensures SendLogic(s).sendBufferVector != Retained(s.sendBufferVector, send)
  {
    EraseNonNullEmpties(s.sendBufferVector);
  }

  /** A new connection starts with sequence number 0, no subscriptions and a
      full timer. */
  lemma AcceptResets(s: ServerState, handle: int)
    ensures var r := Accept(s, handle);
      && r.requestNumber == 0 && r.clientSubs == NoSubscriptions
      && r.keepAlive == ResetValueAliveTimer && r.clientSocket == handle
  {
  }

  /** A receive from a stream holding no keep-alive byte leaves the timer
      alone, and no keep-alive byte is left in what remains unread. */
  lemma ReceiveWithoutKeepAlive(s: ServerState, allocOk: bool)
    requires PacketKeepAlive !in s.inbound
    ensures var r := ReceiveLogic(s, allocOk);
      && r.keepAlive == s.keepAlive
      && PacketKeepAlive !in r.inbound
  {
    var r := ReceiveLogic(s, allocOk);
    if PacketKeepAlive in r.inbound {
      ConsumedIn(s.inbound, r.inbound, PacketKeepAlive);
    }
  }

  /** One tick on a stream holding no keep-alive byte (or while the game
      thread holds the buffer, so that nothing is read): the timer only goes
      down, teardown comes exactly when it was 1, and no keep-alive byte
      appears in what is left. */
  lemma NoKeepAliveTick(s: ServerState, allocOk: bool)
    requires s.readyForGameThread || PacketKeepAlive !in s.inbound
    ensures var t := Tick(s, allocOk);
      && t.state.keepAlive == s.keepAlive - 1
      && (t.tornDown <==> s.keepAlive == 1)
      && (s.readyForGameThread ==> t.state.readyForGameThread)
      && (PacketKeepAlive !in s.inbound ==> PacketKeepAlive !in t.state.inbound)
  {
    var t := Tick(s, allocOk);
    if PacketKeepAlive !in s.inbound && PacketKeepAlive in t.state.inbound {
      ConsumedIn(s.inbound, t.state.inbound, PacketKeepAlive);
    }
  }

  /** Without a keep-alive the connection is torn down on exactly the
      `keepAlive`-th tick, whatever else the client sends — handshakes,
      remote-exec packets or stray bytes — and whatever the game thread does
      between ticks, with the queue emptied and the socket closed; before that
      the timer has dropped by one per tick. */
  lemma {:induction false} NoKeepAliveTimeout(s: ServerState, slots: seq<Slot>)
    requires 1 <= s.keepAlive
    requires PacketKeepAlive !in s.inbound
    requires forall i :: 0 <= i < |slots| ==> PacketKeepAlive !in slots[i].arrival
    ensures var r := Serve(s, slots);
      && r.ticks == Min(|slots|, s.keepAlive)
      && (r.tornDown <==> |slots| >= s.keepAlive)
      && (r.tornDown ==> r.state.sendBufferVector == [] && r.state.clientSocket == -1)
      && (!r.tornDown ==> r.state.keepAlive == s.keepAlive - |slots|)
    decreases |slots|
  {
    if slots != [] {
      var g := GameTurn(s, slots[0].calls);
      var s' := g.(inbound := g.inbound + slots[0].arrival);
      assert PacketKeepAlive !in s'.inbound;
      NoKeepAliveTick(s', slots[0].allocOk);
      var t := Tick(s', slots[0].allocOk);
      if !t.tornDown {
        assert forall i :: 0 <= i < |slots| - 1 ==> slots[1..][i].arrival == slots[i + 1].arrival;
        NoKeepAliveTimeout(t.state, slots[1..]);
      }
    }
  }

  /** After an accept, a client that sends no keep-alive byte is dropped on
      exactly the 5000th tick, whatever the game thread does meanwhile. */
  lemma DroppedAt5000WithoutKeepAlive(s: ServerState, handle: int, slots: seq<Slot>)
    requires forall i :: 0 <= i < |slots| ==> PacketKeepAlive !in slots[i].arrival
    ensures var r := Serve(Accept(s, handle), slots);
      && (r.tornDown <==> |slots| >= 5000) && r.ticks == Min(|slots|, 5000)
      && (r.tornDown ==> r.state.sendBufferVector == [] && r.state.clientSocket == -1)
  {
    NoKeepAliveTimeout(Accept(s, handle), slots);
  }
}
