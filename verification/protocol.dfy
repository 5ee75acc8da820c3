/**
 * Wire-level vocabulary of the elechouse Voice Recognition V3 module:
 * the byte type, the frame sentinels, the command opcodes, the default
 * timeout and the size of the driver's scratch receive buffer.
 */
module Protocol {

  /** An unsigned 8-bit value, the C `uint8_t`. */
  newtype byte = x: int | 0 <= x < 256

  datatype Option<+T> = None | Some(value: T)

  /** The C conversion of an `int` to `uint8_t`: keep the low eight bits. */
  function Uint8(x: int): (b: byte)
    ensures 0 <= x < 256 ==> b as int == x
    ensures (b as int - x) % 256 == 0
  {
    (x % 256) as byte
  }

  const VR_DEFAULT_TIMEOUT: int := 1000

  const FRAME_HEAD: byte := 0xAA
  const FRAME_END: byte := 0x0A

  const FRAME_CMD_CHECK_SYSTEM: byte := 0x00
  const FRAME_CMD_CHECK_BSR: byte := 0x01
  const FRAME_CMD_CHECK_TRAIN: byte := 0x02
  const FRAME_CMD_CHECK_SIG: byte := 0x03

  const FRAME_CMD_RESET_DEFAULT: byte := 0x10
  const FRAME_CMD_SET_BR: byte := 0x11
  const FRAME_CMD_SET_IOM: byte := 0x12
  const FRAME_CMD_SET_PW: byte := 0x13
  const FRAME_CMD_RESET_IO: byte := 0x14
  const FRAME_CMD_SET_AL: byte := 0x15

  const FRAME_CMD_TRAIN: byte := 0x20
  const FRAME_CMD_SIG_TRAIN: byte := 0x21
  const FRAME_CMD_SET_SIG: byte := 0x22

  const FRAME_CMD_LOAD: byte := 0x30
  const FRAME_CMD_CLEAR: byte := 0x31
  const FRAME_CMD_GROUP: byte := 0x32

  const FRAME_CMD_TEST: byte := 0xEE

  /** Notification that a voice command was recognized. */
  const FRAME_CMD_VR: byte := 0x0D
  const FRAME_CMD_PROMPT: byte := 0x0A
  const FRAME_CMD_ERROR: byte := 0xFF

  /** Size of the shared scratch receive buffer `vr_buf`. */
  const VR_BUF_SIZE: nat := 32

  /** The largest LEN byte whose frame (LEN + 2 bytes) still fits `vr_buf`. */
  const MAX_REPLY_LEN: nat := VR_BUF_SIZE - 2

  /**
   * The most bytes any operation copies from a reply that fits `vr_buf`
   * into a caller's buffer: everything but head, LEN, command and end.
   */
  const MAX_REPLY_PAYLOAD: nat := VR_BUF_SIZE - 4
}
