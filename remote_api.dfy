/**
 * The remote-control engine as the source has it: file-scope state updated
 * in place by the network thread (`ReceiveLogic`, `SendLogic`, the loop of
 * `SocketSpawn`) and by the game thread (`ProcessCommand`, `SendLog`).
 *
 * The two threads are modelled as method calls on one `Server` object, made
 * one after another. The client's socket is the `inbound` field: bytes the
 * client has sent and the server has not read yet. `Send` is a parameter
 * giving the count it returns for a packet; `calloc` succeeding is the
 * parameter `allocOk`. Each method with a counterpart in module Protocol is
 * proved to move `State()` exactly as that function says.
 */
module RemoteApi {
  import opened Basics
  import opened RemoteApiHeader
  import P = Protocol

  class Server {
    var clientSocket: int
    var requestNumber: byte
    var clientSubs: P.ClientSubscriptions
    var keepAlive: int
    var readyForGameThread: bool
    /** `RecvBuffer`, a fixed `std::array` of `BufferSize` bytes. */
    const recvBuffer: array<byte>
    var recvBufferLength: u64
    var sendBufferVector: seq<P.PacketBuffer>
    /** Bytes the client has sent that have not been received yet. */
    var inbound: seq<byte>

    ghost predicate Valid()
      reads this
    {
      recvBuffer.Length == BufferSize && P.AllNonNull(sendBufferVector)
    }

    /** The abstract value of the engine's state. */
    function State(): P.ServerState
      reads this, recvBuffer
    {
      P.ServerState(clientSocket, requestNumber, clientSubs, keepAlive, readyForGameThread,
                    recvBuffer[..], recvBufferLength, sendBufferVector, inbound)
    }

    /** The static initial values, before the first accept. */
    constructor ()
      ensures Valid() && fresh(recvBuffer)
      ensures State() == P.Initial()
    {
      clientSocket := -1;
      requestNumber := 0;
      clientSubs := P.NoSubscriptions;
      keepAlive := 0;
      readyForGameThread := false;
      recvBuffer := new byte[BufferSize](_ => 0);
      recvBufferLength := 0;
      sendBufferVector := [];
      inbound := [];
      new;
      assert recvBuffer[..] == Zeros(BufferSize);
    }

    /** The client sends `bytes` (they arrive, unread, on the socket). */
    method ClientSends(bytes: seq<byte>)
      modifies this`inbound
      ensures inbound == old(inbound) + bytes
    {
      inbound := inbound + bytes;
    }

    /** `AddPacketToSendBuffer`: append one (size, buffer) entry. */
    method AddPacketToSendBuffer(buffer: seq<byte>, packetLength: int)
      requires Valid()
      modifies this`sendBufferVector
      ensures Valid()
      ensures State() == P.AddPacketToSendBuffer(old(State()), buffer, packetLength)
    {
      sendBufferVector := sendBufferVector + [P.PacketBuffer(packetLength, Some(buffer))];
    }

    /** `memset(RecvBuffer.data(), 0, 4096)`. */
    method ClearRecvBuffer()
      requires Valid()
      modifies recvBuffer
      ensures recvBuffer[..] == Zeros(BufferSize)
    {
      forall i | 0 <= i < recvBuffer.Length {
        recvBuffer[i] := 0;
      }
    }

    /** `nn::socket::Recv(clientSocket, RecvBuffer.data() + off, n, MSG_DONTWAIT)`:
        returns -1 when nothing has arrived, otherwise the count received. */
    method Recv(off: nat, n: nat) returns (length: int)
      requires Valid() && off <= BufferSize
      modifies this`inbound, recvBuffer
      ensures Valid()
      ensures State() == P.Recv(old(State()), off, n)
      ensures length == if n > 0 && old(inbound) == [] then -1 else Min(n, |old(inbound)|)
    {
      var k := Min(n, |inbound|);
      var got := inbound[..k];
      forall i | off <= i < recvBuffer.Length && i < off + k {
        recvBuffer[i] := got[i - off];
      }
      assert recvBuffer[..] == Store(old(recvBuffer[..]), off, got);
      inbound := inbound[k..];
      length := if n > 0 && k == 0 then -1 else k;
    }

    /** `ParseHandshake`. */
    method ParseHandshake(allocOk: bool)
      requires Valid()
      modifies this
      ensures Valid()
      ensures State() == P.ParseHandshake(old(State()), allocOk)
    {
      var interestByte := recvBuffer[1];
      clientSubs := P.ClientSubscriptions((interestByte / InterestLogging) % 2 == 1,
                                          (interestByte / InterestLocationCollected) % 2 == 1);
      if !allocOk {
        return;
      }
      var buffer := [PacketHandshake, requestNumber];
      requestNumber := P.Next(requestNumber);
      AddPacketToSendBuffer(buffer, 2);
    }

    /** `ParseRemoteLuaExec`. */
    method ParseRemoteLuaExec()
      modifies this`readyForGameThread
      ensures readyForGameThread
    {
      readyForGameThread := true;
    }

    /** The handshake case of `ParseClientPacket`. */
    method HandshakeCase(allocOk: bool)
      requires Valid()
      modifies this, recvBuffer
      ensures Valid()
      ensures State() == P.HandshakeCase(old(State()), allocOk)
    {
      ghost var s0 := State();
      recvBufferLength := SizeT(recvBufferLength + 1);
      ghost var s1 := s0.(recvBufferLength := SizeT(s0.recvBufferLength + 1));
      assert State() == s1;
      var ignored := Recv(1, 1);
      ghost var s2 := State();
      assert s2 == P.Recv(s1, 1, 1);
      ParseHandshake(allocOk);
      assert State() == P.ParseHandshake(s2, allocOk);
    }

    /** The remote-exec case of `ParseClientPacket`. */
    method RemoteLuaExecCase()
      requires Valid()
      modifies this, recvBuffer
      ensures Valid()
      ensures State() == P.RemoteLuaExecCase(old(State()))
    {
      ghost var s0 := State();
      var ignored := Recv(1, 4);
      ghost var s1 := State();
      assert s1 == P.ExecHeader(s0);
      var remainingBytes := ToInt32(Le(recvBuffer[1..5]));
      assert remainingBytes == P.RemainingBytes(s1.recvBuffer);
      ReceiveChunk(remainingBytes);
      assert State() == P.ParseRemoteLuaExec(P.Recv(s1, 5, SizeT(remainingBytes))
                          .(recvBufferLength := SizeT(s1.recvBufferLength + ToInt32(4 + remainingBytes))));
      P.RemoteLuaExecCaseSteps(s0, s1, remainingBytes);
    }

    /** The remote-exec case once the length field is read: receive the
        chunk, count it, and hand the packet over. */
    method ReceiveChunk(remainingBytes: int32)
      requires Valid()
      modifies this, recvBuffer
      ensures Valid()
      ensures State() == P.ParseRemoteLuaExec(
                P.Recv(old(State()), 5, SizeT(remainingBytes))
                 .(recvBufferLength := SizeT(old(State()).recvBufferLength + ToInt32(4 + remainingBytes))))
    {
      var ignored := Recv(5, SizeT(remainingBytes));
      recvBufferLength := SizeT(recvBufferLength + ToInt32(4 + remainingBytes));
      ParseRemoteLuaExec();
    }

    /** `ParseClientPacket`: the type byte is in RecvBuffer[0]. */
    method ParseClientPacket(allocOk: bool)
      requires Valid()
      modifies this, recvBuffer
      ensures Valid()
      ensures State() == P.ParseClientPacket(old(State()), allocOk)
    {
      var t := recvBuffer[0];
      if t == PacketHandshake {
        HandshakeCase(allocOk);
      } else if t == PacketRemoteLuaExec {
        RemoteLuaExecCase();
      } else if t == PacketKeepAlive {
        keepAlive := P.ResetValueAliveTimer;
      }
    }

    /** `ReceiveLogic`. */
    method ReceiveLogic(allocOk: bool)
      requires Valid()
      modifies this, recvBuffer
      ensures Valid()
      ensures State() == P.ReceiveLogic(old(State()), allocOk)
    {
      if readyForGameThread {
        return;
      }
      ClearRecvBuffer();
      var length := Recv(0, 1);
      recvBufferLength := SizeT(length);
      if length > 0 {
        ParseClientPacket(allocOk);
      }
    }

    /** `SendLogic`: offer every queued packet to `Send` in order, then erase
        the entries whose buffer is non-NULL. Returns the packets whose send
        succeeded (and were freed). */
    method SendLogic(send: P.PacketBuffer -> int) returns (freed: seq<P.PacketBuffer>)
      requires Valid()
      modifies this`sendBufferVector
      ensures Valid()
      ensures State() == P.SendLogic(old(State()))
      ensures freed == P.Delivered(old(sendBufferVector), send)
    {
      freed := [];
      for i := 0 to |sendBufferVector|
        invariant freed == P.Delivered(sendBufferVector[..i], send)
      {
        assert sendBufferVector[..i + 1][..i] == sendBufferVector[..i];
        var pb := sendBufferVector[i];
        var ret := send(pb);
        if ret > 0 {
          freed := freed + [pb];
          // `pb` is a by-value copy of the entry, as the source's loop
          // variable is: nulling it leaves the vector's entry owning its buffer
          pb := pb.(buffer := None);
        }
      }
      assert sendBufferVector[..|sendBufferVector|] == sendBufferVector;
      P.EraseNonNullEmpties(sendBufferVector);
      sendBufferVector := P.EraseNonNull(sendBufferVector);
    }

    /** One iteration of the inner loop of `SocketSpawn`. */
    method Tick(allocOk: bool, send: P.PacketBuffer -> int) returns (tornDown: bool)
      requires Valid()
      modifies this, recvBuffer
      ensures Valid()
      ensures P.Tick(old(State()), allocOk) == P.TickResult(State(), tornDown)
    {
      ghost var s0 := State();
      keepAlive := keepAlive - 1;
      assert State() == s0.(keepAlive := s0.keepAlive - 1);
      ReceiveLogic(allocOk);
      ghost var s1 := State();
      var freed := SendLogic(send);
      ghost var s2 := State();
      assert s2 == P.SendLogic(s1);
      tornDown := keepAlive == 0;
      if tornDown {
        sendBufferVector := [];
        clientSocket := -1;
        assert State() == P.Teardown(s2);
      }
    }

    /** The start of a connection: the accepted client socket `handle` is
        stored, the sequence number and subscriptions reset, the timer rearmed. */
    method Accept(handle: int)
      modifies this
      ensures State() == P.Accept(old(State()), handle)
    {
      requestNumber := 0;
      clientSubs := P.NoSubscriptions;
      clientSocket := handle;
      inbound := [];
      keepAlive := P.ResetValueAliveTimer;
    }

    /** The game thread's `calls` between two ticks, one after the other. */
    method GameTurn(calls: seq<P.GameCall>)
      requires Valid()
      modifies this
      ensures Valid()
      ensures State() == P.GameTurn(old(State()), calls)
    {
      for i := 0 to |calls|
        invariant Valid()
        invariant State() == P.GameTurn(old(State()), calls[..i])
      {
        assert calls[..i + 1][..i] == calls[..i];
        match calls[i]
        case Exec(processor) => ProcessCommand(processor);
        case Log(reply) => SendLog(reply);
      }
      assert calls[..|calls|] == calls;
    }

    /** One slot of the connection: the game thread's calls, then the
        client's bytes arrive, then one tick runs. */
    method RunSlot(slot: P.Slot, send: P.PacketBuffer -> int) returns (tornDown: bool)
      requires Valid()
      modifies this, recvBuffer
      ensures Valid()
      ensures P.Step(old(State()), slot) == P.TickResult(State(), tornDown)
    {
      GameTurn(slot.calls);
      ClientSends(slot.arrival);
      tornDown := Tick(slot.allocOk, send);
    }

    /** One iteration of the outer loop of `SocketSpawn`: reset, accept the
        client `handle`, then tick while `slots` lasts (`slots[i]` is what
        happens before tick `i`) or until the timer runs out. */
    method ServeConnection(handle: int, slots: seq<P.Slot>, send: P.PacketBuffer -> int)
      returns (ticks: nat, tornDown: bool)
      requires Valid()
      modifies this, recvBuffer
      ensures Valid()
      ensures P.Serve(P.Accept(old(State()), handle), slots) == P.Run(State(), ticks, tornDown)
    {
      Accept(handle);
      ghost var start := State();
      ticks, tornDown := 0, false;
      while ticks < |slots| && !tornDown
        invariant Valid()
        invariant ticks <= |slots|
        invariant !tornDown ==> P.Serve(start, slots) == P.Later(P.Serve(State(), slots[ticks..]), ticks)
        invariant tornDown ==> P.Serve(start, slots) == P.Run(State(), ticks, true)
        decreases |slots| - ticks
      {
        ghost var rest := slots[ticks..];
        assert rest[0] == slots[ticks] && rest[1..] == slots[ticks + 1..];
        ghost var s0 := State();
        tornDown := RunSlot(slots[ticks], send);
        P.ServeStep(s0, rest, P.TickResult(State(), tornDown));
        ticks := ticks + 1;
      }
    }

    /** `ProcessCommand`, called by the game thread with its processor. */
    method ProcessCommand(processor: (seq<byte>, u64) -> Option<P.Reply>)
      requires Valid()
      modifies this
      ensures Valid()
      ensures State() == P.ProcessCommand(old(State()), processor)
    {
      if readyForGameThread {
        var reply := processor(recvBuffer[..], recvBufferLength);
        if reply.None? {
          readyForGameThread := false;
          return;
        }
        var header: seq<byte> := [PacketRemoteLuaExec, requestNumber];
        var buffer := Store(reply.value.buffer, 0, header);
        requestNumber := P.Next(requestNumber);
        AddPacketToSendBuffer(buffer, ToInt32(reply.value.size));
        readyForGameThread := false;
      }
    }

    /** `SendLog`, called by the game thread; `reply` is what its processor
        returns. */
    method SendLog(reply: Option<P.Reply>)
      requires Valid()
      modifies this
      ensures Valid()
      ensures State() == P.SendLog(old(State()), reply)
    {
      if clientSocket > 0 {
        if reply.None? {
          return;
        }
        var header: seq<byte> := [PacketLogMessage];
        var buffer := Store(reply.value.buffer, 0, header);
        AddPacketToSendBuffer(buffer, ToInt32(reply.value.size));
      }
    }
  }
}
