// The QMK primitives the firmware calls but does not define, as one object:
// the EEPROM (eeprom_read_block / eeprom_write_block) as a byte image of the
// reserved region, the OLED driver (oled_clear / oled_set_cursor / oled_write /
// oled_render) as a log of display events, raw_hid_send as a log of sent
// packets, and layer_state as its highest active layer. Every operation is
// total and synchronous.

module Qmk {
  import opened Config

  /** One call into the OLED driver. */
  datatype DisplayEvent = Clear | SetCursor(col: nat, row: nat) | Write(text: seq<byte>) | Render

  /** The EEPROM image after eeprom_write_block(data, addr, |data|). */
  function Written(mem: seq<byte>, addr: nat, data: seq<byte>): (r: seq<byte>)
    requires addr + |data| <= |mem|
    ensures |r| == |mem|
    ensures r[addr..addr + |data|] == data
  {
    mem[..addr] + data + mem[addr + |data|..]
  }

  /** One byte of the image after a block write: the written byte inside the block, the old one outside it. */
  lemma WrittenAt(mem: seq<byte>, addr: nat, data: seq<byte>, i: nat)
    requires addr + |data| <= |mem| && i < |mem|
    ensures Written(mem, addr, data)[i] == if addr <= i < addr + |data| then data[i - addr] else mem[i]
  {
  }

  class Platform {
    /** The reserved EEPROM region; offset 0 is VIA_EEPROM_CUSTOM_CONFIG_ADDR. */
    var eeprom: seq<byte>
    /** Every OLED driver call, oldest first. */
    var display: seq<DisplayEvent>
    /**
     * Every raw_hid_send, oldest first. Each entry holds the bytes the firmware
     * initialises; the rest of the 32-byte report is uninitialised stack memory.
     */
    var sent: seq<seq<byte>>
    /** get_highest_layer(layer_state). */
    var layer: byte

    predicate Valid()
      reads this
    {
      |eeprom| == RegionSize
    }

    constructor (image: seq<byte>, highest: byte)
      requires |image| == RegionSize
      ensures Valid()
      ensures eeprom == image && display == [] && sent == [] && layer == highest
    {
      eeprom := image;
      display := [];
      sent := [];
      layer := highest;
    }

    method ReadBlock(addr: nat, n: nat) returns (block: seq<byte>)
      requires Valid() && addr + n <= |eeprom|
      ensures block == eeprom[addr..addr + n]
    {
      block := eeprom[addr..addr + n];
    }

    method WriteBlock(addr: nat, data: seq<byte>)
      requires Valid() && addr + |data| <= |eeprom|
      modifies this`eeprom
      ensures Valid()
      ensures eeprom == Written(old(eeprom), addr, data)
    {
      eeprom := Written(eeprom, addr, data);
    }

    method RawHidSend(packet: seq<byte>)
      modifies this`sent
      ensures sent == old(sent) + [packet]
    {
      sent := sent + [packet];
    }

    method OledClear()
      modifies this`display
      ensures display == old(display) + [Clear]
    {
      display := display + [Clear];
    }

    method OledSetCursor(col: nat, row: nat)
      modifies this`display
      ensures display == old(display) + [SetCursor(col, row)]
    {
      display := display + [SetCursor(col, row)];
    }

    method OledWrite(text: seq<byte>)
      modifies this`display
      ensures display == old(display) + [Write(text)]
    {
      display := display + [Write(text)];
    }

    method OledRender()
      modifies this`display
      ensures display == old(display) + [Render]
    {
      display := display + [Render];
    }

    /** layer_move(n): n becomes the only active layer. */
    method LayerMove(n: byte)
      modifies this`layer
      ensures layer == n
    {
      layer := n;
    }
  }
}
