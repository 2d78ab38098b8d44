/**
 * The protocol constants the codecs and the receiver compare against.
 * Their concrete values live in `src/constants.ts`, which is not part of
 * this model: each one is declared with its width only, so every property
 * proved here holds whatever values of that width the constants have.
 */
module Constants {
  import opened Bytes

  type U32 = x: nat | x < 0x1_0000_0000

  /** A 16-byte component identifier (CID). */
  type Cid = s: seq<Byte> | |s| == 16 witness seq(16, _ => 0)

  /** The 12-byte ACN packet identifier. */
  type AcnPid = s: seq<Byte> | |s| == 12 witness seq(12, _ => 0)

  const ACN_PID: AcnPid
  const DEFAULT_CID: Cid

  const ROOT_VECTOR_DATA: U32
  const ROOT_VECTOR_EXTENDED: U32
  const FRAME_VECTOR_DATA: U32
  const FRAME_VECTOR_EXTENDED_DISCOVERY: U32
  const DMP_VECTOR_DATA: Byte
  const DISCOVERY_VECTOR_LIST: U32

  /** The universe discovery interval, in seconds. */
  const DISCOVERY_INTERVAL: nat

  /** Root-layer preamble and postamble sizes, the same for both packets. */
  const PREAMBLE_SIZE: nat := 0x0010
  const POSTAMBLE_SIZE: nat := 0

  /** "sACN nodejs" in ASCII: the source name used when none is given. */
  const DEFAULT_SOURCE_NAME: seq<Byte> :=
    [0x73, 0x41, 0x43, 0x4e, 0x20, 0x6e, 0x6f, 0x64, 0x65, 0x6a, 0x73]
}
