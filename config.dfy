// Build-time constants of the ml8_9 keyboard (config.h, oled_handlers.h)
// and the command codes shared by the firmware and the host tool
// (hid_codes.h, the CMD_* constants of kb.go).

module Config {
  /** An unsigned 8-bit value: the firmware's uint8_t and the host's Go byte. */
  type byte = x: int | 0 <= x < 256

  /** LAYER_COUNT: number of keyboard layers, each with its own label. */
  const LayerCount: nat := 4

  /** sizeof(oled_text_t): 4 lines of 21 characters plus 3 bytes. */
  const LabelSize: nat := 4 * 21 + 3

  /** Every raw HID report, in either direction, is a 32-byte frame. */
  const FrameSize: nat := 32

  /** VIA_EEPROM_CUSTOM_CONFIG_SIZE: the EEPROM bytes reserved for this firmware (1 << 13). */
  const RegionSize: nat := 8192

  /** The contents of one oled_text_t buffer. */
  type Label = s: seq<byte> | |s| == LabelSize witness seq(LabelSize, _ => 0)

  /** An unsigned 16-bit value (uint16_t / Go uint16). */
  type u16 = x: int | 0 <= x < 0x1_0000

  datatype Option<T> = None | Some(value: T)

  /** The bytes of an ASCII string literal, as C and Go store it. */
  function Ascii(s: string): (b: seq<byte>)
    ensures |b| == |s|
  {
    seq(|s|, i requires 0 <= i < |s| => (s[i] as int) % 256)
  }
}

module HidCodes {
  import opened Config

  /** HID_CODE_HEADER: the big-endian header "ml" that marks frames of this protocol. */
  const Header: nat := 0x6d6c

  const Noop: byte := 0x00
  const Err: byte := 0x01
  const Ack: byte := 0x02
  const Nack: byte := 0x03
  const Cont: byte := 0x04
  const Abort: byte := 0x05
  const Complete: byte := 0x06

  const Hello: byte := 0x30
  const Echo: byte := 0x31

  const OledOff: byte := 0x40
  const OledOn: byte := 0x41

  const OledUpdate: byte := 0x50
  const OledReset: byte := 0x51
}
