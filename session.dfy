/**
 * The game-side entry points that drive the engine, and what a whole
 * exchange does end to end: a remote-exec packet received by the network
 * thread, run by `multiworld_update` on the game thread, and queued as a
 * response that decodes back to the result; a log line queued by
 * `gamelog_send`.
 */
module Session {
  import opened Basics
  import opened RemoteApiHeader
  import P = Protocol
  import RemoteApi
  import opened Packets

  /** `multiworld_update`: process the pending command with the response
      builder (rescheduling itself in Lua is not part of this model). */
  method MultiworldUpdate(server: RemoteApi.Server, lua: seq<byte> -> LuaCall, allocOk: bool)
    requires server.Valid()
    modifies server
    ensures server.Valid()
    ensures server.State() == P.ProcessCommand(old(server.State()), ExecProcessor(lua, allocOk))
  {
    server.ProcessCommand(ExecProcessor(lua, allocOk));
  }

  /** `gamelog_send`: queue the string Lua passed as a log message. */
  method GamelogSend(server: RemoteApi.Server, text: seq<byte>, allocOk: bool)
    requires server.Valid()
    modifies server
    ensures server.Valid()
    ensures server.State() == P.SendLog(old(server.State()), LogReply(text, allocOk))
  {
    server.SendLog(LogReply(text, allocOk));
  }

  /** The chunk Lua is given for a remote-exec packet is `RecvBuffer[1 ..
      RecvBufferLength)`: the four length bytes followed by the script, not
      the script alone. */
  lemma ChunkIncludesLengthField(s: P.ServerState, n: nat, payload: seq<byte>, rest: seq<byte>, allocOk: bool)
    requires !s.readyForGameThread && P.Valid(s)
    requires |payload| == n && 5 + n <= BufferSize
    requires s.inbound == [PacketRemoteLuaExec] + ToLe(n, 4) + payload + rest
    ensures var r := P.ReceiveLogic(s, allocOk);
      LuaChunk(r.recvBuffer, r.recvBufferLength) == ToLe(n, 4) + payload
  {
    P.ReceiveRemoteExec(s, n, payload, rest, allocOk);
    PacketChunk(n, payload);
  }

  /** The chunk of a received remote-exec packet's buffer. */
  lemma PacketChunk(n: nat, payload: seq<byte>)
    requires |payload| == n && 5 + n <= BufferSize
    ensures LuaChunk(P.ExecPacketBuffer(n, payload), 5 + n) == ToLe(n, 4) + payload
  {
    P.ExecPacketBufferLayout(n, payload);
    var b := P.ExecPacketBuffer(n, payload);
    assert b[1..5 + n] == b[..5][1..] + b[5..5 + n];
  }

  /** A whole remote execution: the packet is received, the game thread runs
      the chunk, and a successful result `out` comes back as exactly one
      queued packet that encodes (old sequence number, success, out), whose
      size is the packet's length, and which decodes back to `out`. */
  lemma RemoteExecRoundTrip(s: P.ServerState, n: nat, payload: seq<byte>, rest: seq<byte>,
                            lua: seq<byte> -> LuaCall, out: seq<byte>)
    requires !s.readyForGameThread && P.Valid(s)
    requires |payload| == n && 5 + n <= BufferSize
    requires s.inbound == [PacketRemoteLuaExec] + ToLe(n, 4) + payload + rest
    requires lua(ToLe(n, 4) + payload) == LuaCall(0, 0, out) && |out| < Pow256(3)
    ensures var r := P.ProcessCommand(P.ReceiveLogic(s, true), ExecProcessor(lua, true));
      var m := ExecMessage(s.requestNumber, true, out);
      && r.sendBufferVector == s.sendBufferVector + [P.PacketBuffer(|EncodeExec(m)|, Some(EncodeExec(m)))]
      && r.requestNumber == (s.requestNumber + 1) % 256
      && !r.readyForGameThread
      && r.inbound == rest
      && DecodeExec(EncodeExec(m)) == Some(m)
  {
    P.ReceiveRemoteExec(s, n, payload, rest, true);
    ExecPacketProcessed(P.ReceiveLogic(s, true), n, payload, lua, out);
    DecodeEncodeExec(ExecMessage(s.requestNumber, true, out));
  }

  /** The game thread's half of a remote execution: a received packet whose
      chunk succeeds with `out` is answered by one queued packet encoding
      (sequence number, success, out). */
  lemma ExecPacketProcessed(s1: P.ServerState, n: nat, payload: seq<byte>,
                            lua: seq<byte> -> LuaCall, out: seq<byte>)
    requires s1.readyForGameThread
    requires s1.recvBuffer == P.ExecPacketBuffer(n, payload) && s1.recvBufferLength == 5 + n
    requires |payload| == n && 5 + n <= BufferSize
    requires lua(ToLe(n, 4) + payload) == LuaCall(0, 0, out) && |out| < Pow256(3)
    ensures var r := P.ProcessCommand(s1, ExecProcessor(lua, true));
      var m := ExecMessage(s1.requestNumber, true, out);
      && r.sendBufferVector == s1.sendBufferVector + [P.PacketBuffer(|EncodeExec(m)|, Some(EncodeExec(m)))]
      && r.requestNumber == (s1.requestNumber + 1) % 256
      && !r.readyForGameThread
      && r.inbound == s1.inbound
  {
    PacketChunk(n, payload);
    var call := LuaCall(0, 0, out);
    var b := ExecResponse(call, true).value;
    assert ExecProcessor(lua, true)(s1.recvBuffer, s1.recvBufferLength)
        == ExecReply(lua, true, s1.recvBuffer, s1.recvBufferLength)
        == Some(P.Reply(SizeT(b.size), b.buffer));
    P.ProcessCommandEffect(s1, ExecProcessor(lua, true));
    ExecRoundTrip(call, s1.requestNumber);
    assert Pow256(3) == 16777216 by { assert Pow256(1) == 256; }
    assert ToInt32(SizeT(b.size)) == b.size;
  }

  /** A log line sent while a client is connected comes back as exactly one
      queued packet `[2] ++ length ++ text` whose size is its length; no
      sequence number is used, and it decodes back to the text. */
  lemma LogRoundTrip(s: P.ServerState, text: seq<byte>)
    requires s.clientSocket > 0 && |text| + LogPacketHeaderLength < 0x8000_0000
    ensures var r := P.SendLog(s, LogReply(text, true));
      && r.sendBufferVector == s.sendBufferVector + [P.PacketBuffer(|text| + LogPacketHeaderLength, Some(EncodeLog(text)))]
      && r.requestNumber == s.requestNumber
      && DecodeLog(EncodeLog(text)) == Some(text)
  {
    LogPacketLayout(text);
    Packets.LogRoundTrip(text);
    var e := EncodeLog(text);
    assert Store(e, 0, [PacketLogMessage]) == e;
  }
}
