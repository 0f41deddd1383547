/**
 * The wire constants of the remote-control protocol.
 *
 * The header names the second subscription flag `locationCollected` and
 * declares `SendMessage`; the implementation writes `multiworldUpdates` and
 * defines `SendLog`. The model follows the implementation's names.
 */
module RemoteApiHeader {
  import opened Basics

  /** Leading byte of every packet (`PacketType`). */
  const PacketHandshake: byte := 1
  const PacketLogMessage: byte := 2
  const PacketRemoteLuaExec: byte := 3
  const PacketKeepAlive: byte := 4

  /** Bits of the handshake's interest byte (`ClientInterests`). */
  const InterestLogging: int := 1
  const InterestLocationCollected: int := 2

  /** Size of the inbound command buffer (`CommandBuffer`). */
  const BufferSize: nat := 4096
}
