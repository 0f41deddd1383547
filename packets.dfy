/**
 * The two packet builders of the game side: the processor that
 * `multiworld_update` hands to `ProcessCommand` (it runs the received chunk
 * in Lua and lays out the response) and the one that `gamelog_send` hands to
 * `SendLog`. Both fill a zeroed allocation; `Built` records what the
 * allocation holds, the size the builder reports, and how many bytes it wrote
 * past the allocation's end.
 *
 * The Lua interpreter is the oracle `lua`: for a chunk it gives the status of
 * `luaL_loadbuffer`, the status of the protected call and the bytes of the
 * `tostring` of the result. `calloc` succeeding is the parameter `allocOk`.
 */
module Packets {
  import opened Basics
  import opened RemoteApiHeader
  import P = Protocol

  /** Bytes before the payload: type, sequence number, success flag and a
      3-byte length for a response; type and a 4-byte length for a log. */
  const ExecPacketHeaderLength: nat := 6
  const LogPacketHeaderLength: nat := 5

  /** What Lua did with one chunk. `result` holds the `resultSize` bytes of
      the string `lua_tolstring` returns; Lua keeps a NUL after them. */
  datatype LuaCall = LuaCall(loadResult: int32, pcallResult: int32, result: seq<byte>)

  /** A send buffer as a builder returns it. */
  datatype Built = Built(buffer: seq<byte>, size: int, overrun: nat)

  // ---------------------------------------------------------------------
  // Formatting

  /** The bytes `snprintf(out, cap, ...)` writes when the formatted text is
      `text`: as much of it as fits in `cap - 1` bytes, then a NUL. */
  function Snprintf(text: seq<byte>, cap: nat): (r: seq<byte>)
    requires cap >= 1
    ensures |r| == Min(|text|, cap - 1) + 1
    ensures r[..|r| - 1] == text[..|r| - 1] && r[|r| - 1] == 0
  {
    text[..Min(|text|, cap - 1)] + [0]
  }

  function Pow10(k: nat): (r: nat)
    ensures r >= 1
  {
    if k == 0 then 1 else 10 * Pow10(k - 1)
  }

  /** The decimal digits of `n` as ASCII bytes. */
  function Digits(n: nat): (r: seq<byte>)
    ensures |r| >= 1
    ensures forall i :: 0 <= i < |r| ==> '0' as int <= r[i] <= '9' as int
  {
    if n < 10 then ['0' as int + n] else Digits(n / 10) + ['0' as int + n % 10]
  }

  /** `%d`: an optional minus sign, then the digits. */
  function Decimal(n: int): (r: seq<byte>)
    ensures |r| >= 1
    ensures r[0] == '-' as int <==> n < 0
  {
    if n < 0 then ['-' as int] + Digits(-n) else Digits(n)
  }

  /** `n` needs at most `k` digits exactly when it is below 10^k. */
  lemma {:induction false} DigitsLength(n: nat, k: nat)
    requires k >= 1
    ensures |Digits(n)| <= k <==> n < Pow10(k)
  {
    if n >= 10 {
      if k == 1 {
        assert |Digits(n / 10)| >= 1;
      } else {
        DigitsLength(n / 10, k - 1);
        assert n / 10 < Pow10(k - 1) <==> n < 10 * Pow10(k - 1);
      }
    } else {
      assert Pow10(k) == 10 * Pow10(k - 1);
    }
  }

  /** A C `int` prints in at most 11 bytes, and in exactly 11 only when it is
      at most -1000000000. */
  lemma DecimalLength(n: int32)
    ensures |Decimal(n)| <= 11
    ensures |Decimal(n)| == 11 <==> n <= -1_000_000_000
  {
    assert Pow10(9) == 1_000_000_000;
    assert Pow10(10) == 10_000_000_000;
    if n < 0 {
      DigitsLength(-(n as int), 9);
      DigitsLength(-(n as int), 10);
    } else {
      DigitsLength(n, 10);
    }
  }

  const ErrorFormat: string := "error parsing buffer: %d"
  const ErrorPrefix: string := "error parsing buffer: "

  /** Room for the load-error message: the format without `%d`, plus 11
      bytes for the widest `int`. */
  const MaxStringLength: nat := |ErrorFormat| - 2 + 11

  /** The text `"error parsing buffer: %d"` formats to. */
  function LoadErrorMessage(loadResult: int): (r: seq<byte>)
    ensures |r| == |ErrorPrefix| + |Decimal(loadResult)|
  {
    Ascii(ErrorPrefix) + Decimal(loadResult)
  }

  // ---------------------------------------------------------------------
  // Remote-exec response

  /** The chunk handed to `luaL_loadbuffer`: `RecvBuffer[1 .. RecvBufferLength)`.
      A length outside the buffer would read past it; only the buffer's own
      bytes are taken then. */
  function LuaChunk(buf: seq<byte>, len: u64): (r: seq<byte>)
    ensures 1 <= len <= |buf| ==> r == buf[1..len]
  {
    if |buf| == 0 then []
    else if 1 <= len <= |buf| then buf[1..len]
    else buf[1..]
  }

  /** The header stores of the response: type byte, success flag and the low
      three bytes of `resultSize`; byte 1 is left for the sequence number. */
  function StampResponse(buf: seq<byte>, success: bool, resultSize: nat): (r: seq<byte>)
    requires |buf| >= ExecPacketHeaderLength
    ensures |r| == |buf|
  {
    Store(Store(buf, 0, [PacketRemoteLuaExec]), 2, [if success then 1 else 0] + ToLe(resultSize, 3))
  }

  /** Success branch: `calloc(resultSize + 6)`, the result copied to offset 6. */
  function SuccessResponse(result: seq<byte>): (r: Built)
    ensures r.size == |r.buffer| == |result| + ExecPacketHeaderLength
  {
    var resultSize := |result|;
    var sendBufferSize := resultSize + ExecPacketHeaderLength;
    var zeroed := Zeros(sendBufferSize);
    Built(StampResponse(Store(zeroed, 6, result), true, resultSize),
          sendBufferSize, Overrun(zeroed, 6, result))
  }

  /** Failed-call branch: `calloc(resultSize + 6)`, then
      `snprintf(out, resultSize + 1, "%s", result)`; the size becomes
      `sendBufferSize - resultSize + printSize`. */
  function CallErrorResponse(result: seq<byte>): (r: Built)
    ensures |r.buffer| == |result| + ExecPacketHeaderLength
    ensures ExecPacketHeaderLength <= r.size <= |r.buffer|
  {
    var resultSize := |result|;
    var sendBufferSize := resultSize + ExecPacketHeaderLength;
    var zeroed := Zeros(sendBufferSize);
    var printed := CString(result);
    var written := Snprintf(printed, resultSize + 1);
    Built(StampResponse(Store(zeroed, 6, written), false, resultSize),
          sendBufferSize - resultSize + |printed|, Overrun(zeroed, 6, written))
  }

  /** Load-failure branch: `calloc(maxStringLength + 6)`, then
      `snprintf(out, maxStringLength + 1, "error parsing buffer: %d", loadResult)`;
      `resultSize` is still 0. */
  function LoadErrorResponse(loadResult: int): (r: Built)
    ensures |r.buffer| == MaxStringLength + ExecPacketHeaderLength
    ensures r.size > |r.buffer|
  {
    var resultSize := 0;
    var sendBufferSize := MaxStringLength + ExecPacketHeaderLength;
    var zeroed := Zeros(sendBufferSize);
    var printed := LoadErrorMessage(loadResult);
    var written := Snprintf(printed, MaxStringLength + 1);
    Built(StampResponse(Store(zeroed, 6, written), false, resultSize),
          sendBufferSize - resultSize + |printed|, Overrun(zeroed, 6, written))
  }

  /** The processor of `multiworld_update`, given what Lua did with the chunk.
      `None` is the NULL return when `calloc` fails. */
  function ExecResponse(call: LuaCall, allocOk: bool): (r: Option<Built>)
    ensures r.Some? <==> allocOk
  {
    if !allocOk then None
    else if call.loadResult != 0 then Some(LoadErrorResponse(call.loadResult))
    else if call.pcallResult == 0 then Some(SuccessResponse(call.result))
    else Some(CallErrorResponse(call.result))
  }

  /** The processor as `ProcessCommand` calls it: run the chunk in Lua and
      build the response; the reported size is a `size_t`. */
  function ExecReply(lua: seq<byte> -> LuaCall, allocOk: bool, buf: seq<byte>, len: u64): (r: Option<P.Reply>)
    ensures r.Some? <==> allocOk
  {
    match ExecResponse(lua(LuaChunk(buf, len)), allocOk)
    case None => None
    case Some(b) => Some(P.Reply(SizeT(b.size), b.buffer))
  }

  /** The processor closure `multiworld_update` passes. */
  function ExecProcessor(lua: seq<byte> -> LuaCall, allocOk: bool): (seq<byte>, u64) -> Option<P.Reply>
  {
    (buf: seq<byte>, len: u64) => ExecReply(lua, allocOk, buf, len)
  }

  /** A response as the reference reading of its layout sees it. */
  datatype ExecMessage = ExecMessage(requestNumber: byte, success: bool, result: seq<byte>)

  /** The bytes of a response: type 3, sequence number, success flag, the
      result's length in three little-endian bytes, the result. */
  function EncodeExec(m: ExecMessage): (p: seq<byte>)
    ensures |p| == ExecPacketHeaderLength + |m.result|
  {
    [PacketRemoteLuaExec, m.requestNumber, if m.success then 1 else 0] + ToLe(|m.result|, 3) + m.result
  }

  /** A reference reading of the response layout the server writes: type 3,
      sequence number, a 0/1 flag, a 3-byte length equal to the rest. */
  function DecodeExec(p: seq<byte>): (r: Option<ExecMessage>)
  {
    if |p| < ExecPacketHeaderLength || p[0] != PacketRemoteLuaExec || p[2] > 1 then None
    else if Le(p[3..6]) != |p| - ExecPacketHeaderLength then None
    else Some(ExecMessage(p[1], p[2] == 1, p[6..]))
  }

  /** Decoding an encoded response gives the message back while its result
      fits the 3-byte length. */
  lemma DecodeEncodeExec(m: ExecMessage)
    requires |m.result| < Pow256(3)
    ensures DecodeExec(EncodeExec(m)) == Some(m)
  {
    var p := EncodeExec(m);
    assert p[3..6] == ToLe(|m.result|, 3);
    assert p[6..] == m.result;
    LeToLe(|m.result|, 3);
  }

  /** A packet the reference reading accepts is the encoding of what it decodes to. */
  lemma EncodeDecodeExec(p: seq<byte>)
    requires DecodeExec(p).Some?
    ensures EncodeExec(DecodeExec(p).value) == p
  {
    var m := DecodeExec(p).value;
    var b := p[3..6];
    ToLeLe(b);
    assert p == [p[0], p[1], p[2]] + b + p[6..];
  }

  /** What the header stores leave in a buffer. */
  lemma StampLayout(buf: seq<byte>, success: bool, resultSize: nat)
    requires |buf| >= ExecPacketHeaderLength
    ensures var r := StampResponse(buf, success, resultSize);
      && r[0] == PacketRemoteLuaExec && r[1] == buf[1]
      && r[2] == (if success then 1 else 0)
      && r[3..6] == ToLe(resultSize, 3)
      && r[6..] == buf[6..]
  {
    var r := StampResponse(buf, success, resultSize);
    assert forall i :: 3 <= i < 6 ==> r[i] == ToLe(resultSize, 3)[i - 3];
    assert forall i :: 6 <= i < |r| ==> r[i] == buf[i];
  }

  /** `data` copied to offset 6 of a zeroed buffer that holds it. */
  lemma ZeroedPayload(size: nat, data: seq<byte>)
    requires ExecPacketHeaderLength + |data| <= size
    ensures var r := Store(Zeros(size), 6, data);
      && r[1] == 0 && r[6..6 + |data|] == data
      && Overrun(Zeros(size), 6, data) == 0
  {
    var r := Store(Zeros(size), 6, data);
    assert forall i :: 6 <= i < 6 + |data| ==> r[i] == data[i - 6];
  }

  /** The layout every response shares: type 3 at byte 0, byte 1 still zero
      for the sequence number, success flag 1 exactly when both the load and
      the call returned 0, and the low 24 bits of `resultSize` (0 when the
      chunk did not load) in bytes 3..5. */
  lemma ExecResponseHeader(call: LuaCall)
    ensures var b := ExecResponse(call, true).value;
      && |b.buffer| >= ExecPacketHeaderLength
      && b.buffer[0] == PacketRemoteLuaExec
      && b.buffer[1] == 0
      && b.buffer[2] == (if call.loadResult == 0 && call.pcallResult == 0 then 1 else 0)
      && b.buffer[3..6] == ToLe(if call.loadResult == 0 then |call.result| else 0, 3)
  {
    var size := if call.loadResult == 0 then |call.result| + ExecPacketHeaderLength
                else MaxStringLength + ExecPacketHeaderLength;
    var data := if call.loadResult != 0 then Snprintf(LoadErrorMessage(call.loadResult), MaxStringLength + 1)
                else if call.pcallResult == 0 then call.result
                else Snprintf(CString(call.result), |call.result| + 1);
    StampLayout(Store(Zeros(size), 6, data), call.loadResult == 0 && call.pcallResult == 0,
                if call.loadResult == 0 then |call.result| else 0);
  }

  /** A successful call: the size is `resultSize + 6`, the whole allocation,
      and the result follows the header; nothing is written out of bounds. */
  lemma ExecSuccess(call: LuaCall)
    requires call.loadResult == 0 && call.pcallResult == 0
    ensures var b := ExecResponse(call, true).value;
      && b.size == |b.buffer| == |call.result| + ExecPacketHeaderLength
      && b.buffer[6..] == call.result
      && b.overrun == 0
  {
    var size := |call.result| + ExecPacketHeaderLength;
    ZeroedPayload(size, call.result);
    StampLayout(Store(Zeros(size), 6, call.result), true, |call.result|);
  }

  /** A failed call: the size is `6 + printSize` with `printSize` the length
      of the error text up to its first NUL, and that text follows the header.
      The `snprintf` terminator lands one byte past the allocation exactly when
      the text has no embedded NUL. */
  lemma ExecCallError(call: LuaCall)
    requires call.loadResult == 0 && call.pcallResult != 0
    ensures var b := ExecResponse(call, true).value;
      var printed := CString(call.result);
      && b.size == ExecPacketHeaderLength + |printed| <= |b.buffer|
      && b.buffer[6..b.size] == printed
      && (b.overrun == 1 <==> 0 !in call.result)
      && (b.overrun == 0 <==> 0 in call.result)
  {
    var printed := CString(call.result);
    var size := |call.result| + ExecPacketHeaderLength;
    var written := Snprintf(printed, |call.result| + 1);
    var zeroed := Zeros(size);
    var stored := Store(zeroed, 6, written);
    assert written[..|printed|] == printed;
    assert stored[6..6 + |printed|] == printed by {
      assert forall i :: 6 <= i < 6 + |printed| ==> stored[i] == printed[i - 6];
    }
    StampLayout(stored, false, |call.result|);
    CStringWhole(call.result);
  }

  /** A chunk that does not load: 39 bytes are allocated, yet the size
      reported is `39 + printSize`, always more than the allocation; the
      length field says 0 and the message is cut at 33 bytes. Only a status of
      -1000000000 or below makes the terminator land past the allocation. */
  lemma ExecLoadError(call: LuaCall)
    requires call.loadResult != 0
    ensures var b := ExecResponse(call, true).value;
      var printed := LoadErrorMessage(call.loadResult);
      && |b.buffer| == MaxStringLength + ExecPacketHeaderLength == 39
      && b.size == |b.buffer| + |printed| > |b.buffer|
      && b.buffer[3..6] == [0, 0, 0]
      && b.buffer[6..6 + Min(|printed|, MaxStringLength)] == printed[..Min(|printed|, MaxStringLength)]
      && (b.overrun > 0 <==> call.loadResult <= -1_000_000_000)
  {
    var printed := LoadErrorMessage(call.loadResult);
    LoadErrorMessageLength(call.loadResult);
    var k := Min(|printed|, 33);
    var written := Snprintf(printed, 34);
    var stored := Store(Zeros(39), 6, written);
    assert stored[6..6 + k] == printed[..k] by {
      assert forall i :: 6 <= i < 6 + k ==> stored[i] == printed[i - 6];
    }
    StampLayout(stored, false, 0);
    assert ToLe(0, 3) == [0, 0, 0];
  }

  /** The load-error text is 22 bytes of prefix and the status, so it fills
      the 33 bytes reserved for it only for statuses of -1000000000 or below. */
  lemma LoadErrorMessageLength(loadResult: int32)
    ensures MaxStringLength == 33
    ensures 23 <= |LoadErrorMessage(loadResult)| <= 33
    ensures |LoadErrorMessage(loadResult)| == 33 <==> loadResult <= -1_000_000_000
  {
    assert |ErrorFormat| == 24 && |ErrorPrefix| == 22;
    DecimalLength(loadResult);
  }

  /** With the sequence number stamped in, the response to a successful call,
      or to a failed one whose text has no NUL, is exactly the encoding of
      (sequence number, success, result), and decodes back to it. */
  lemma ExecRoundTrip(call: LuaCall, requestNumber: byte)
    requires call.loadResult == 0 && (call.pcallResult == 0 || 0 !in call.result)
    requires |call.result| < Pow256(3)
    ensures var b := ExecResponse(call, true).value;
      var m := ExecMessage(requestNumber, call.pcallResult == 0, call.result);
      var stamped := Store(b.buffer, 0, [PacketRemoteLuaExec, requestNumber]);
      && b.size == |stamped|
      && stamped == EncodeExec(m)
      && DecodeExec(stamped) == Some(m)
  {
    var b := ExecResponse(call, true).value;
    var m := ExecMessage(requestNumber, call.pcallResult == 0, call.result);
    ExecResponseHeader(call);
    if call.pcallResult == 0 {
      ExecSuccess(call);
    } else {
      ExecCallError(call);
      CStringWhole(call.result);
    }
    StampedEncodes(b.buffer, m);
    DecodeEncodeExec(m);
  }

  /** A response buffer whose flag, length field and payload already match
      `m` is the encoding of `m` once the sequence number is stamped in. */
  lemma StampedEncodes(buffer: seq<byte>, m: ExecMessage)
    requires |buffer| >= ExecPacketHeaderLength && buffer[0] == PacketRemoteLuaExec
    requires buffer[2] == (if m.success then 1 else 0)
    requires buffer[3..6] == ToLe(|m.result|, 3) && buffer[6..] == m.result
    ensures Store(buffer, 0, [PacketRemoteLuaExec, m.requestNumber]) == EncodeExec(m)
  {
    var stamped := Store(buffer, 0, [PacketRemoteLuaExec, m.requestNumber]);
    assert stamped[6..] == buffer[6..];
    assert stamped[3..6] == buffer[3..6];
    assert stamped == [stamped[0], stamped[1], stamped[2]] + stamped[3..6] + stamped[6..];
  }

  // ---------------------------------------------------------------------
  // Log message

  /** The processor of `gamelog_send`: a zeroed buffer of `resultSize + 5`
      bytes, type byte 2, the 8-byte `size_t` length copied to offset 1, then
      the text copied to offset 5 (over the length's upper bytes). */
  function LogPacket(result: seq<byte>, allocOk: bool): (r: Option<Built>)
    ensures r.Some? <==> allocOk
  {
    if !allocOk then None
    else
      var resultSize := |result|;
      var sendBufferSize := resultSize + LogPacketHeaderLength;
      var typed := Store(Zeros(sendBufferSize), 0, [PacketLogMessage]);
      var sized := Store(typed, 1, ToLe(resultSize, 8));
      var filled := Store(sized, 5, result);
      Some(Built(filled, sendBufferSize, Overrun(typed, 1, ToLe(resultSize, 8)) + Overrun(sized, 5, result)))
  }

  /** The processor as `SendLog` calls it; `size` is a `size_t`. */
  function LogReply(result: seq<byte>, allocOk: bool): (r: Option<P.Reply>)
    ensures r.Some? <==> allocOk
  {
    match LogPacket(result, allocOk)
    case None => None
    case Some(b) => Some(P.Reply(SizeT(b.size), b.buffer))
  }

  /** The bytes of a log message: type 2, the length in four little-endian
      bytes, the text. */
  function EncodeLog(text: seq<byte>): (p: seq<byte>)
    ensures |p| == LogPacketHeaderLength + |text|
  {
    [PacketLogMessage] + ToLe(|text|, 4) + text
  }

  /** A reference reading of the log layout the server writes: type 2, a
      4-byte length equal to the rest, the text. */
  function DecodeLog(p: seq<byte>): (r: Option<seq<byte>>)
  {
    if |p| < LogPacketHeaderLength || p[0] != PacketLogMessage then None
    else if Le(p[1..5]) != |p| - LogPacketHeaderLength then None
    else Some(p[5..])
  }

  lemma DecodeEncodeLog(text: seq<byte>)
    requires |text| < TwoTo32
    ensures DecodeLog(EncodeLog(text)) == Some(text)
  {
    var p := EncodeLog(text);
    assert p[1..5] == ToLe(|text|, 4);
    assert p[5..] == text;
    LeToLe(|text|, 4);
    Pow256Four();
  }

  lemma EncodeDecodeLog(p: seq<byte>)
    requires DecodeLog(p).Some?
    ensures EncodeLog(DecodeLog(p).value) == p
  {
    var b := p[1..5];
    ToLeLe(b);
    assert p == [p[0]] + b + p[5..];
  }

  /** The log packet is type 2, the low four bytes of the length, the text:
      the text overwrites the length's upper bytes. The size is the whole
      allocation. When the text is shorter than 4 bytes, the 8-byte copy runs
      `4 - resultSize` bytes past the allocation. */
  lemma LogPacketLayout(result: seq<byte>)
    ensures var b := LogPacket(result, true).value;
      && b.buffer == EncodeLog(result)
      && b.size == |b.buffer| == |result| + LogPacketHeaderLength
      && b.overrun == Max(0, 4 - |result|)
      && (b.overrun > 0 <==> |result| < 4)
  {
    var b := LogPacket(result, true).value;
    var n := |result|;
    var sizeBytes := ToLe(n, 8);
    ToLePrefix(n, 8, 4);
    var e := EncodeLog(result);
    assert forall i :: 1 <= i < 5 ==> e[i] == sizeBytes[i - 1];
    assert forall i :: 5 <= i < |e| ==> e[i] == result[i - 5];
    assert forall i :: 0 <= i < |e| ==> b.buffer[i] == e[i];
  }

  /** The reference reading gives back exactly the text that was logged. */
  lemma LogRoundTrip(result: seq<byte>)
    requires |result| < TwoTo32
    ensures DecodeLog(LogPacket(result, true).value.buffer) == Some(result)
  {
    LogPacketLayout(result);
    DecodeEncodeLog(result);
  }
}
