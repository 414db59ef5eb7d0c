// hid_handlers.c: the raw HID protocol of the keyboard. Every 32-byte frame
// "m l C ..." carries a command C; OLED label updates arrive in chunks that
// are buffered in the transfer state and stored when the transfer completes.
//
// The firmware's globals are gathered in a Firmware value; each handler is a
// method over the transfer state, the label registry and the platform, proved
// equal to a function of the Firmware value it starts from.

module HidHandlers {
  import opened Config
  import opened HidCodes
  import opened CStrings
  import opened Qmk
  import opened LayerText
  import opened Persistence
  import opened OledHandlers

  /** The most label bytes one frame carries: 32 bytes less header, command, layer and length. */
  const MaxChunk: nat := 27

  /** The bytes after the header and the command. */
  const PayloadSize: nat := FrameSize - 3

  /** struct transfer_state, as a value. */
  datatype TransferState = TransferState(op: byte, layer: byte, offset: nat, buf: seq<byte>)

  /** The transfer buffer is one label long and the next write offset lies inside it. */
  predicate TransferOk(t: TransferState)
  {
    |t.buf| == LabelSize && t.offset < LabelSize
  }

  /** As written, the offset can also reach the end of the buffer (see Findings in README.md). */
  predicate TransferAsWrittenOk(t: TransferState)
  {
    |t.buf| == LabelSize && t.offset <= LabelSize
  }

  /** reset_transfer_state: forget the in-flight operation and its buffered bytes; layer and buffer contents stay. */
  function ResetState(t: TransferState): (r: TransferState)
    ensures r.offset == 0 && r.op == Noop && r.layer == t.layer && r.buf == t.buf
  {
    t.(offset := 0, op := Noop)
  }

  /** The firmware globals the HID handlers read and write. */
  datatype Firmware = Firmware(
    transfer: TransferState,
    user: seq<Label>,
    on: bool,
    eeprom: seq<byte>,
    display: seq<DisplayEvent>,
    sent: seq<seq<byte>>,
    highest: byte)

  predicate FirmwareOk(fw: Firmware)
  {
    TransferOk(fw.transfer) && |fw.user| == LayerCount && |fw.eeprom| == RegionSize
  }

  predicate FirmwareAsWrittenOk(fw: Firmware)
  {
    TransferAsWrittenOk(fw.transfer) && |fw.user| == LayerCount && |fw.eeprom| == RegionSize
  }

  // ---------------------------------------------------------------------
  // Replies. Each holds the bytes the firmware initialises; raw_hid_send
  // sends 32 bytes, and after a NACK, ACK or ECHO reply the rest is whatever
  // the stack held. HELLO's strncpy pads the greeting, so all 32 are set.

  function NackPacket(): seq<byte>
  {
    [Nack]
  }

  function AckPacket(cmd: byte): seq<byte>
  {
    [Ack, cmd]
  }

  /** hid_hello: ACK, HELLO, then "hello world" NUL-padded to 30 bytes. */
  function HelloPacket(): (r: seq<byte>)
    ensures |r| == FrameSize && r[0] == Ack && r[1] == Hello
  {
    var greeting := Ascii("hello world");
    [Ack, Hello] + StrNCpy(greeting + Zeros(30 - |greeting|), 30)
  }

  /** hid_echo: ACK, then the first 28 payload bytes. */
  function EchoPacket(payload: seq<byte>): (r: seq<byte>)
    requires |payload| == PayloadSize
    ensures |r| == 29 && r[0] == Ack && r[1..] == payload[..28]
  {
    [Ack] + payload[..28]
  }

  // ---------------------------------------------------------------------
  // The capacity check of a chunk (see Findings in README.md).

  /** The check at line 112 as written: a chunk is refused only when it would run past the buffer. */
  predicate FitsAsWritten(offset: nat, len: nat)
  {
    !(len + offset > LabelSize)
  }

  /** A chunk fits when the buffer keeps room for the NUL written after it. */
  predicate Fits(offset: nat, len: nat)
  {
    len + offset < LabelSize
  }

  /** The two checks differ only on a chunk that ends exactly at the end of the buffer. */
  lemma FitsDiffersOnlyAtEnd(offset: nat, len: nat)
    ensures FitsAsWritten(offset, len) && !Fits(offset, len) <==> offset + len == LabelSize
  {
  }

  // ---------------------------------------------------------------------
  // The handlers as functions of the firmware state.

  /**
   * The transfer buffer after the bytes of a chunk that passes line 112 are
   * copied in at offset and a NUL is put after them. A chunk that fills the
   * buffer leaves no byte of it for the NUL, whose store falls past the
   * buffer and is not part of it.
   */
  function Buffered(t: TransferState, chunk: seq<byte>): (r: TransferState)
    requires TransferAsWrittenOk(t) && FitsAsWritten(t.offset, |chunk|)
    ensures TransferAsWrittenOk(r) && r.offset == t.offset + |chunk|
    ensures TransferOk(r) <==> Fits(t.offset, |chunk|)
    ensures r.op == t.op && r.layer == t.layer
  {
    var off := t.offset + |chunk|;
    var w := Written(t.buf, t.offset, StrNCpy(chunk, |chunk|));
    t.(offset := off, buf := if off < LabelSize then w[off := 0] else w)
  }

  /**
   * complete_oled_layer_update: NUL-terminate the buffered text, store it as
   * the label of the transfer's layer, then reset the transfer.
   */
  function Commit(fw: Firmware): (r: Firmware)
    requires FirmwareOk(fw)
    ensures FirmwareOk(r)
  {
    var t := fw.transfer;
    var data := t.buf[t.offset := 0];
    fw.(transfer := ResetState(t.(buf := data)),
        user := LayerUpdateLabels(fw.user, t.layer, data),
        eeprom := LayerUpdateImage(fw.eeprom, fw.user, t.layer, data),
        display := fw.display + LayerUpdateEvents(fw.user, t.layer, data, fw.highest))
  }

  /** The outcome of start_or_continue_oled_layer_update: whether it succeeded, and the state it left. */
  datatype Step = Step(ok: bool, fw: Firmware)

  /**
   * start_or_continue_oled_layer_update(cmd, payload) with payload = "L N data...":
   * OLED_UPDATE starts a transfer, CONT and COMPLETE continue the transfer of
   * the same layer, COMPLETE stores the buffered text and ignores its data.
   */
  function LayerStep(fw: Firmware, cmd: byte, payload: seq<byte>): (s: Step)
    requires FirmwareOk(fw) && |payload| == PayloadSize
    ensures FirmwareOk(s.fw)
    ensures s.fw.sent == fw.sent && s.fw.highest == fw.highest && s.fw.on == fw.on
  {
    var layer := payload[0];
    var len := payload[1];
    if len > MaxChunk || layer >= LayerCount then Step(false, fw)
    else if cmd != OledUpdate && cmd != Cont && cmd != Complete then Step(false, fw)
    else if cmd != OledUpdate && fw.transfer.layer != layer then Step(false, fw)
    else
      var t1 := if cmd == OledUpdate then ResetState(fw.transfer).(op := OledUpdate) else fw.transfer;
      if cmd == Complete then
        var c := Commit(fw.(transfer := t1));
        Step(true, c.(transfer := ResetState(c.transfer)))
      else
        var t2 := t1.(layer := layer);
        if len < 1 then Step(true, fw.(transfer := t2))
        else if !Fits(t2.offset, len) then Step(false, fw.(transfer := t2))
        else Step(true, fw.(transfer := Buffered(t2, payload[2..2 + len])))
  }

  /** start_or_continue_hid_command: ACK the command, or reset the transfer and NACK. */
  function TransferCommand(fw: Firmware, cmd: byte, payload: seq<byte>): (r: Firmware)
    requires FirmwareOk(fw) && |payload| == PayloadSize
    ensures FirmwareOk(r)
  {
    var s := LayerStep(fw, cmd, payload);
    if s.ok then s.fw.(sent := s.fw.sent + [AckPacket(cmd)])
    else s.fw.(transfer := ResetState(s.fw.transfer), sent := s.fw.sent + [NackPacket()])
  }

  /** handle_hid_command: dispatch one command with its payload. */
  function HidCommand(fw: Firmware, cmd: byte, payload: seq<byte>): (r: Firmware)
    requires FirmwareOk(fw) && |payload| == PayloadSize
    ensures FirmwareOk(r)
  {
    if cmd == Hello then fw.(sent := fw.sent + [HelloPacket()])
    else if cmd == Echo then fw.(sent := fw.sent + [EchoPacket(payload)])
    else if cmd == OledOff || cmd == OledOn then
      var on := cmd == OledOn;
      fw.(on := on, display := fw.display + StateEvents(fw.user, on, fw.highest),
          sent := fw.sent + [AckPacket(cmd)])
    else if cmd == OledReset then
      var user := RestoredSystem(fw.eeprom);
      fw.(user := user, display := fw.display + UpdateEvents(user, fw.highest, true),
          eeprom := VoidedImage(fw.eeprom), sent := fw.sent + [AckPacket(cmd)])
    else if cmd == OledUpdate || cmd == Complete || cmd == Cont then TransferCommand(fw, cmd, payload)
    else fw.(sent := fw.sent + [NackPacket()])
  }

  /** validate_hid_message: the command byte of a frame with the protocol header, -1 for any other frame. */
  function Validate(data: seq<byte>): (cmd: int)
    requires |data| == FrameSize
    ensures -1 <= cmd < 256
    ensures cmd >= 0 <==> data[0] as int * 256 + data[1] as int == Header
  {
    if data[0] as int * 256 + data[1] as int != Header then -1 else data[2]
  }

  /** The result of user_hid_receive: whether the frame was this protocol's, and the state after it. */
  datatype Received = Received(handled: bool, fw: Firmware)

  /** user_hid_receive: frames without the header are left to VIA; the others are handled. */
  function Receive(fw: Firmware, data: seq<byte>): (r: Received)
    requires FirmwareOk(fw) && |data| == FrameSize
    ensures FirmwareOk(r.fw)
  {
    var cmd := Validate(data);
    if cmd < 0 then Received(false, fw) else Received(true, HidCommand(fw, cmd, data[3..]))
  }

  // ---------------------------------------------------------------------
  // What the protocol promises.

  /** A frame without the "ml" header is left to VIA and changes nothing. */
  lemma ForeignFrameIgnored(fw: Firmware, data: seq<byte>)
    requires FirmwareOk(fw) && |data| == FrameSize
    requires data[0] != 0x6d || data[1] != 0x6c
    ensures Receive(fw, data) == Received(false, fw)
  {
  }

  /**
   * Every frame with the header is handled and answered with exactly one
   * packet, an ACK or a NACK; the highest layer and the earlier replies stay.
   */
  lemma OneReplyPerFrame(fw: Firmware, data: seq<byte>)
    requires FirmwareOk(fw) && |data| == FrameSize
    requires data[0] == 0x6d && data[1] == 0x6c
    ensures var r := Receive(fw, data);
            r.handled && |r.fw.sent| == |fw.sent| + 1 && r.fw.sent[..|fw.sent|] == fw.sent &&
            |r.fw.sent[|fw.sent|]| > 0 && r.fw.sent[|fw.sent|][0] in {Ack, Nack} &&
            r.fw.highest == fw.highest
  {
    var cmd := Validate(data);
    assert cmd == data[2];
    var reply := OneReply(fw, cmd, data[3..]);
    var r := Receive(fw, data);
    assert r.fw.sent == fw.sent + [reply];
    assert r.fw.sent[..|fw.sent|] == fw.sent;
  }

  /** handle_hid_command appends exactly one reply, an ACK or a NACK, to what was sent. */
  lemma OneReply(fw: Firmware, cmd: byte, payload: seq<byte>) returns (reply: seq<byte>)
    requires FirmwareOk(fw) && |payload| == PayloadSize
    ensures var r := HidCommand(fw, cmd, payload);
            r.sent == fw.sent + [reply] && |reply| > 0 && reply[0] in {Ack, Nack} && r.highest == fw.highest
  {
    if cmd == Hello {
      reply := HelloPacket();
    } else if cmd == Echo {
      reply := EchoPacket(payload);
    } else if cmd in {OledOff, OledOn, OledReset} {
      reply := AckPacket(cmd);
    } else if cmd in {OledUpdate, Complete, Cont} {
      reply := if LayerStep(fw, cmd, payload).ok then AckPacket(cmd) else NackPacket();
    } else {
      reply := NackPacket();
    }
  }

  /** A command the firmware does not know is NACKed and changes nothing else. */
  lemma UnknownCommandNacked(fw: Firmware, cmd: byte, payload: seq<byte>)
    requires FirmwareOk(fw) && |payload| == PayloadSize
    requires cmd !in {Hello, Echo, OledOff, OledOn, OledReset, OledUpdate, Complete, Cont}
    ensures HidCommand(fw, cmd, payload) == fw.(sent := fw.sent + [NackPacket()])
  {
  }

  /** A refused transfer frame is NACKed, drops the transfer, and leaves labels, EEPROM and display alone. */
  lemma RefusedChunkNacked(fw: Firmware, cmd: byte, payload: seq<byte>)
    requires FirmwareOk(fw) && |payload| == PayloadSize
    requires cmd in {OledUpdate, Cont, Complete} && !LayerStep(fw, cmd, payload).ok
    ensures var r := HidCommand(fw, cmd, payload);
            r.sent == fw.sent + [NackPacket()] && r.transfer.offset == 0 && r.transfer.op == Noop &&
            r.user == fw.user && r.eeprom == fw.eeprom && r.display == fw.display && r.on == fw.on
  {
  }

  /** A chunk copied into the buffer extends the buffered text by its bytes and is followed by a NUL. */
  lemma BufferedText(t: TransferState, chunk: seq<byte>)
    requires TransferOk(t) && Fits(t.offset, |chunk|) && NulFree(chunk)
    ensures var r := Buffered(t, chunk);
            r.buf[..r.offset] == t.buf[..t.offset] + chunk && r.buf[r.offset] == 0
  {
    var r := Buffered(t, chunk);
    var copied := StrNCpy(chunk, |chunk|);
    assert StrNLen(chunk, |chunk|) == |chunk|;
    assert copied == chunk;
    var w := Written(t.buf, t.offset, copied);
    forall k | 0 <= k < r.offset ensures r.buf[k] == (t.buf[..t.offset] + chunk)[k] {
      WrittenAt(t.buf, t.offset, copied, k);
    }
  }

  /**
   * OLED_UPDATE with a valid layer and length starts a new transfer for that
   * layer holding just its own chunk, whatever was in flight, and is ACKed.
   */
  lemma UpdateStartsTransfer(fw: Firmware, payload: seq<byte>)
    requires FirmwareOk(fw) && |payload| == PayloadSize
    requires payload[1] <= MaxChunk && payload[0] < LayerCount
    requires NulFree(payload[2..2 + payload[1]])
    ensures var r := HidCommand(fw, OledUpdate, payload);
            var len := payload[1];
            r.sent == fw.sent + [AckPacket(OledUpdate)] &&
            r.transfer.op == OledUpdate && r.transfer.layer == payload[0] && r.transfer.offset == len &&
            r.transfer.buf[..len] == payload[2..2 + len] &&
            r.user == fw.user && r.eeprom == fw.eeprom && r.display == fw.display
  {
    var len := payload[1];
    var t2 := ResetState(fw.transfer).(op := OledUpdate).(layer := payload[0]);
    if len > 0 {
      BufferedText(t2, payload[2..2 + len]);
    }
  }

  /**
   * CONT is accepted exactly when the length is at most 27, the layer is
   * valid and the same as the transfer's, and the chunk leaves room for the
   * terminating NUL; an accepted CONT appends its chunk to the buffered text.
   * The in-flight operation is not consulted.
   */
  lemma ContAcceptedIff(fw: Firmware, payload: seq<byte>)
    requires FirmwareOk(fw) && |payload| == PayloadSize
    ensures var len := payload[1];
            var layer := payload[0];
            LayerStep(fw, Cont, payload).ok <==>
              len <= MaxChunk && layer < LayerCount && fw.transfer.layer == layer &&
              (len == 0 || Fits(fw.transfer.offset, len))
    ensures var len := payload[1];
            var s := LayerStep(fw, Cont, payload);
            s.ok && NulFree(payload[2..2 + len]) ==>
              s.fw.transfer.offset == fw.transfer.offset + len &&
              s.fw.transfer.buf[..s.fw.transfer.offset] == fw.transfer.buf[..fw.transfer.offset] + payload[2..2 + len] &&
              s.fw.user == fw.user && s.fw.eeprom == fw.eeprom
  {
    var len := payload[1];
    var s := LayerStep(fw, Cont, payload);
    if s.ok && NulFree(payload[2..2 + len]) {
      if len > 0 {
        BufferedText(fw.transfer.(layer := payload[0]), payload[2..2 + len]);
      } else {
        assert payload[2..2 + len] == [];
      }
    }
  }

  /**
   * CONT for the transfer's layer with a NUL-free chunk that leaves room for
   * the NUL is ACKed and appends its chunk to the buffered text; labels,
   * EEPROM and display stay.
   */
  lemma ContAppendsChunk(fw: Firmware, payload: seq<byte>)
    requires FirmwareOk(fw) && |payload| == PayloadSize
    requires 1 <= payload[1] <= MaxChunk && payload[0] < LayerCount && fw.transfer.layer == payload[0]
    requires Fits(fw.transfer.offset, payload[1]) && NulFree(payload[2..2 + payload[1]])
    ensures var r := HidCommand(fw, Cont, payload);
            var len := payload[1];
            r.sent == fw.sent + [AckPacket(Cont)] && r.transfer.layer == payload[0] &&
            r.transfer.offset == fw.transfer.offset + len &&
            r.transfer.buf[..r.transfer.offset] == fw.transfer.buf[..fw.transfer.offset] + payload[2..2 + len] &&
            r.user == fw.user && r.eeprom == fw.eeprom && r.display == fw.display
  {
    var len := payload[1];
    var chunk := payload[2..2 + len];
    var t2 := fw.transfer.(layer := payload[0]);
    var b := Buffered(t2, chunk);
    assert LayerStep(fw, Cont, payload) == Step(true, fw.(transfer := b));
    assert HidCommand(fw, Cont, payload) == fw.(transfer := b, sent := fw.sent + [AckPacket(Cont)]);
    BufferedText(t2, chunk);
  }

  /** The label committed from a buffer whose text is NUL-free is exactly that text. */
  lemma CommitStoresText(fw: Firmware)
    requires FirmwareOk(fw) && fw.transfer.layer < LayerCount
    requires NulFree(fw.transfer.buf[..fw.transfer.offset])
    ensures var t := fw.transfer;
            var r := Commit(fw);
            r.user == fw.user[t.layer := FromText(t.buf[..t.offset])] &&
            CText(r.user[t.layer]) == t.buf[..t.offset] &&
            r.transfer.offset == 0 && r.transfer.op == Noop
  {
    var t := fw.transfer;
    TerminatedLabel(t.buf, t.offset);
    assert Commit(fw).user == fw.user[t.layer := StoredLabel(t.buf[t.offset := 0])];
  }

  /** The label stored from NUL-free text followed by a NUL is that text. */
  lemma TerminatedLabel(b: seq<byte>, k: nat)
    requires k < LabelSize <= |b| && NulFree(b[..k])
    ensures StoredLabel(b[k := 0]) == FromText(b[..k]) && CText(FromText(b[..k])) == b[..k]
  {
    var data := b[k := 0];
    TerminatedAt(b, k);
    StoredLabelText(data);
  }

  /** Writing a NUL after NUL-free text makes that text the C string of the buffer. */
  lemma TerminatedAt(b: seq<byte>, k: nat)
    requires k < LabelSize <= |b| && NulFree(b[..k])
    ensures StrNLen(b[k := 0], LabelSize) == k && b[k := 0][..k] == b[..k]
  {
    var d := b[k := 0];
    assert d[..k] == b[..k];
    assert forall i :: 0 <= i < k ==> d[i] == b[..k][i] != 0;
    assert d[k] == 0;
  }

  /**
   * COMPLETE for the transfer's layer stores the buffered text as that
   * layer's label, persists the labels and is ACKed; the data it carries
   * is ignored.
   */
  lemma CompleteCommits(fw: Firmware, payload: seq<byte>, other: seq<byte>)
    requires FirmwareOk(fw) && |payload| == PayloadSize && |other| == PayloadSize
    requires payload[1] <= MaxChunk && payload[0] < LayerCount && fw.transfer.layer == payload[0]
    requires other[..2] == payload[..2]
    ensures var r := HidCommand(fw, Complete, payload);
            var t := fw.transfer;
            var stored := StoredLabel(t.buf[t.offset := 0]);
            r.sent == fw.sent + [AckPacket(Complete)] &&
            r.user == fw.user[t.layer := stored] &&
            r.eeprom == UserImage(fw.eeprom, fw.user[t.layer := stored]) &&
            r.transfer.offset == 0 && r.transfer.op == Noop
    ensures HidCommand(fw, Complete, other) == HidCommand(fw, Complete, payload)
  {
    var t := fw.transfer;
    var data := t.buf[t.offset := 0];
    var c := Commit(fw);
    assert c.user == fw.user[t.layer := StoredLabel(data)] &&
           c.eeprom == UserImage(fw.eeprom, fw.user[t.layer := StoredLabel(data)]) && c.sent == fw.sent;
    var s := Step(true, c.(transfer := ResetState(c.transfer)));
    assert LayerStep(fw, Complete, payload) == s;
    assert LayerStep(fw, Complete, other) == s by {
      assert other[0] == payload[0] && other[1] == payload[1];
    }
    assert HidCommand(fw, Complete, payload) == TransferCommand(fw, Complete, payload);
    assert HidCommand(fw, Complete, other) == TransferCommand(fw, Complete, other);
  }

  /**
   * A COMPLETE with no transfer in flight still commits: it stores an empty
   * label for the layer the last transfer addressed.
   */
  lemma StrayCompleteClearsLabel(fw: Firmware, payload: seq<byte>)
    requires FirmwareOk(fw) && |payload| == PayloadSize
    requires payload[1] <= MaxChunk && payload[0] < LayerCount && fw.transfer.layer == payload[0]
    requires fw.transfer.offset == 0
    ensures HidCommand(fw, Complete, payload).user == fw.user[payload[0] := FromText([])]
  {
    assert LayerStep(fw, Complete, payload).ok;
    assert HidCommand(fw, Complete, payload).user == Commit(fw).user;
    CommitStoresText(fw);
    assert fw.transfer.buf[..0] == [];
  }

  /**
   * OLED_RESET loads the factory labels kept in EEPROM, voids the persisted
   * user labels and is ACKed; on a current region the next boot then shows
   * the factory labels too.
   */
  lemma ResetRestoresFactory(fw: Firmware, payload: seq<byte>)
    requires FirmwareOk(fw) && |payload| == PayloadSize
    ensures var r := HidCommand(fw, OledReset, payload);
            r.user == RestoredSystem(fw.eeprom) && r.eeprom == VoidedImage(fw.eeprom) &&
            r.sent == fw.sent + [AckPacket(OledReset)] &&
            (Current(fw.eeprom) ==> BootLabels(r.eeprom) == Recovered())
  {
    VoidOnlyHeader(fw.eeprom, Recovered());
    var v := VoidedImage(fw.eeprom);
    assert v[..4] == fw.eeprom[..4];
    if Current(fw.eeprom) {
      assert Current(v) by {
        assert v[0] == fw.eeprom[0] && v[1] == fw.eeprom[1] && v[2] == fw.eeprom[2] && v[3] == fw.eeprom[3];
      }
      BootOnMatch(v);
    }
  }

  /** The handlers keep the transfer offset inside the buffer, so every NUL they store lands in it. */
  lemma ReceiveKeepsTransferOk(fw: Firmware, data: seq<byte>)
    requires FirmwareOk(fw) && |data| == FrameSize
    ensures TransferOk(Receive(fw, data).fw.transfer)
    ensures Receive(fw, data).fw.transfer.offset <= fw.transfer.offset + MaxChunk
  {
  }

  // ---------------------------------------------------------------------
  // The transfer handler as written (see Findings in README.md). Line 112
  // lets a chunk end at byte 87, so the offset reaches the end of the buffer
  // and the NULs of lines 123 and 49, and of oled_handlers.c:49, are stored
  // one byte past their arrays. The model records each such store.

  /** A store one byte past an array: past the transfer buffer, or past the label of a layer. */
  datatype Stray = PastBuffer(index: nat) | PastLabel(layer: nat, index: nat)

  /** The outcome of a handler as written: whether it succeeded, the state it left, and its stores past an array. */
  datatype StepAsWritten = StepAsWritten(ok: bool, fw: Firmware, strays: seq<Stray>)

  /** complete_oled_layer_update as written: the NUL of line 49, oled_layer_update as written, then the reset. */
  function CommitAsWritten(fw: Firmware): (s: StepAsWritten)
    requires FirmwareAsWrittenOk(fw)
    ensures s.ok && FirmwareAsWrittenOk(s.fw)
    ensures s.fw.sent == fw.sent && s.fw.highest == fw.highest && s.fw.on == fw.on
  {
    var t := fw.transfer;
    var data := if t.offset < LabelSize then t.buf[t.offset := 0] else t.buf;
    var l := NormalizeLayer(t.layer);
    var user := LayerUpdateLabelsAsWritten(fw.user, t.layer, data);
    var strays := (if t.offset < LabelSize then [] else [PastBuffer(t.offset)]) +
                  (if LabelOverrunAsWritten(t.layer, data) then [PastLabel(l, LabelSize)] else []);
    var events := if l < LayerCount && l == fw.highest then UpdateEvents(user, l, true) else [];
    StepAsWritten(true,
      fw.(transfer := ResetState(t.(buf := data)), user := user,
          eeprom := if l < LayerCount then UserImage(fw.eeprom, user) else fw.eeprom,
          display := fw.display + events),
      strays)
  }

  /** start_or_continue_oled_layer_update as written, with the capacity check of line 112. */
  function LayerStepAsWritten(fw: Firmware, cmd: byte, payload: seq<byte>): (s: StepAsWritten)
    requires FirmwareAsWrittenOk(fw) && |payload| == PayloadSize
    ensures FirmwareAsWrittenOk(s.fw)
    ensures s.fw.sent == fw.sent && s.fw.highest == fw.highest && s.fw.on == fw.on
  {
    var layer := payload[0];
    var len := payload[1];
    if len > MaxChunk || layer >= LayerCount then StepAsWritten(false, fw, [])
    else if cmd != OledUpdate && cmd != Cont && cmd != Complete then StepAsWritten(false, fw, [])
    else if cmd != OledUpdate && fw.transfer.layer != layer then StepAsWritten(false, fw, [])
    else
      var t1 := if cmd == OledUpdate then ResetState(fw.transfer).(op := OledUpdate) else fw.transfer;
      if cmd == Complete then
        var c := CommitAsWritten(fw.(transfer := t1));
        c.(fw := c.fw.(transfer := ResetState(c.fw.transfer)))
      else
        var t2 := t1.(layer := layer);
        if len < 1 then StepAsWritten(true, fw.(transfer := t2), [])
        else if !FitsAsWritten(t2.offset, len) then StepAsWritten(false, fw.(transfer := t2), [])
        else
          var r := Buffered(t2, payload[2..2 + len]);
          StepAsWritten(true, fw.(transfer := r), if r.offset < LabelSize then [] else [PastBuffer(r.offset)])
  }

  /** start_or_continue_hid_command over the handler as written: ACK, or reset the transfer and NACK. */
  function TransferCommandAsWritten(fw: Firmware, cmd: byte, payload: seq<byte>): (s: StepAsWritten)
    requires FirmwareAsWrittenOk(fw) && |payload| == PayloadSize
    ensures FirmwareAsWrittenOk(s.fw)
  {
    var a := LayerStepAsWritten(fw, cmd, payload);
    if a.ok then a.(fw := a.fw.(sent := a.fw.sent + [AckPacket(cmd)]))
    else a.(fw := a.fw.(transfer := ResetState(a.fw.transfer), sent := a.fw.sent + [NackPacket()]))
  }

  /**
   * From a state the corrected handler can reach, the handler as written
   * does the same, storing nothing past an array, except on a CONT whose
   * chunk ends exactly at the end of the buffer: the corrected check refuses
   * it, while as written it is accepted, the offset becomes 87 and the NUL
   * after it is stored past the buffer.
   */
  lemma StepAsWrittenDiffersOnFullChunk(fw: Firmware, cmd: byte, payload: seq<byte>)
    requires FirmwareOk(fw) && |payload| == PayloadSize
    ensures var s := LayerStep(fw, cmd, payload);
            var a := LayerStepAsWritten(fw, cmd, payload);
            var full := cmd == Cont && 1 <= payload[1] <= MaxChunk && payload[0] < LayerCount &&
                        fw.transfer.layer == payload[0] && fw.transfer.offset + payload[1] == LabelSize;
            (!full ==> a == StepAsWritten(s.ok, s.fw, [])) &&
            (full ==> !s.ok && a.ok && a.fw.transfer.offset == LabelSize && a.strays == [PastBuffer(LabelSize)])
  {
    var layer := payload[0];
    var len := payload[1];
    if len > MaxChunk || layer >= LayerCount {
    } else if cmd != OledUpdate && cmd != Cont && cmd != Complete {
    } else if cmd != OledUpdate && fw.transfer.layer != layer {
    } else if cmd == Complete {
      assert CommitAsWritten(fw) == StepAsWritten(true, Commit(fw), []) by {
        CommitAgreesAsWritten(fw);
      }
    } else {
      var t1 := if cmd == OledUpdate then ResetState(fw.transfer).(op := OledUpdate) else fw.transfer;
      var t2 := t1.(layer := layer);
      if len >= 1 && FitsAsWritten(t2.offset, len) {
        var r := Buffered(t2, payload[2..2 + len]);
        assert r.offset < LabelSize <==> Fits(t2.offset, len);
      }
    }
  }

  /** On a buffer whose offset lies inside it, the commit as written is the corrected commit, storing nothing past an array. */
  lemma CommitAgreesAsWritten(fw: Firmware)
    requires FirmwareOk(fw)
    ensures CommitAsWritten(fw) == StepAsWritten(true, Commit(fw), [])
  {
    var t := fw.transfer;
    var data := t.buf[t.offset := 0];
    assert IsCString(data) by {
      assert data[t.offset] == 0;
    }
    var user := LayerUpdateLabelsAsWritten(fw.user, t.layer, data);
    assert user == LayerUpdateLabels(fw.user, t.layer, data) by {
      LayerUpdateAsWrittenAgrees(fw.user, t.layer, data);
    }
    var a := CommitAsWritten(fw);
    var c := Commit(fw);
    assert a.strays == [];
    assert a.fw.user == c.user;
    assert a.fw.eeprom == c.eeprom;
    assert a.fw.display == c.display;
    assert a.fw.transfer == c.transfer;
  }

  /**
   * As written, a CONT of 12 bytes at offset 75 is accepted and ACKed; the
   * offset becomes 87, the length of the buffer, and line 123 stores the NUL
   * at index 87, past it. The corrected handler NACKs the same frame.
   */
  lemma ChunkOverflowAsWritten(fw: Firmware, payload: seq<byte>)
    requires FirmwareOk(fw) && |payload| == PayloadSize
    requires fw.transfer.offset == 75 && payload[0] == fw.transfer.layer && payload[0] < LayerCount && payload[1] == 12
    ensures var a := TransferCommandAsWritten(fw, Cont, payload);
            a.ok && a.fw.sent == fw.sent + [AckPacket(Cont)] &&
            a.fw.transfer.offset == LabelSize == |a.fw.transfer.buf| && a.strays == [PastBuffer(LabelSize)]
    ensures HidCommand(fw, Cont, payload).sent == fw.sent + [NackPacket()]
  {
    StepAsWrittenDiffersOnFullChunk(fw, Cont, payload);
  }

  /**
   * As written, COMPLETE after a transfer that filled the buffer with 87
   * non-NUL bytes is ACKed; it stores the NUL past the buffer and past the
   * label, the label holds all 87 bytes with no NUL among them, the next
   * layer's label becomes empty, and every user label is persisted.
   */
  lemma FullLabelCommittedAsWritten(fw: Firmware, payload: seq<byte>)
    requires FirmwareAsWrittenOk(fw) && |payload| == PayloadSize
    requires fw.transfer.offset == LabelSize && NulFree(fw.transfer.buf)
    requires payload[1] <= MaxChunk && payload[0] == fw.transfer.layer && payload[0] < LayerCount
    ensures var l := payload[0] as nat;
            var a := TransferCommandAsWritten(fw, Complete, payload);
            a.ok && a.fw.sent == fw.sent + [AckPacket(Complete)] &&
            a.strays == [PastBuffer(LabelSize), PastLabel(l, LabelSize)] &&
            a.fw.user[l] == fw.transfer.buf && !IsCString(a.fw.user[l]) &&
            (l + 1 < LayerCount ==> CText(a.fw.user[l + 1]) == []) &&
            (forall j :: 0 <= j < LayerCount && j != l && j != l + 1 ==> a.fw.user[j] == fw.user[j]) &&
            a.fw.eeprom == UserImage(fw.eeprom, a.fw.user)
  {
    var c := CommitAsWritten(fw);
    assert LayerStepAsWritten(fw, Complete, payload) == c.(fw := c.fw.(transfer := ResetState(c.fw.transfer)));
    FullCommitAsWritten(fw);
  }

  /** Committing a full buffer as written: the label is stored without a NUL and the next one is cleared. */
  lemma FullCommitAsWritten(fw: Firmware)
    requires FirmwareAsWrittenOk(fw) && fw.transfer.layer < LayerCount
    requires fw.transfer.offset == LabelSize && NulFree(fw.transfer.buf)
    ensures var l := fw.transfer.layer as nat;
            var c := CommitAsWritten(fw);
            c.strays == [PastBuffer(LabelSize), PastLabel(l, LabelSize)] &&
            c.fw.user[l] == fw.transfer.buf && !IsCString(c.fw.user[l]) &&
            (l + 1 < LayerCount ==> CText(c.fw.user[l + 1]) == []) &&
            (forall j :: 0 <= j < LayerCount && j != l && j != l + 1 ==> c.fw.user[j] == fw.user[j]) &&
            c.fw.eeprom == UserImage(fw.eeprom, c.fw.user)
  {
    var t := fw.transfer;
    assert LabelOverrunAsWritten(t.layer, t.buf) by {
      assert StrNLen(t.buf, LabelSize) == LabelSize;
    }
    assert t.buf[..LabelSize] == t.buf;
    LayerUpdateAsWrittenClearsNext(fw.user, t.layer, t.buf);
  }

  /**
   * As written, CONT is accepted exactly when the length is at most 27, the
   * layer is valid and the same as the transfer's, and the chunk does not
   * run past the buffer.
   */
  lemma ContAcceptedIffAsWritten(fw: Firmware, payload: seq<byte>)
    requires FirmwareAsWrittenOk(fw) && |payload| == PayloadSize
    ensures var len := payload[1];
            var layer := payload[0];
            LayerStepAsWritten(fw, Cont, payload).ok <==>
              len <= MaxChunk && layer < LayerCount && fw.transfer.layer == layer &&
              (len == 0 || FitsAsWritten(fw.transfer.offset, len))
  {
  }

  /** As written, the offset never passes the end of the buffer, and every store past an array is at index 87, one past its end. */
  lemma StraysOnlyOnePast(fw: Firmware, cmd: byte, payload: seq<byte>)
    requires FirmwareAsWrittenOk(fw) && |payload| == PayloadSize
    ensures var a := LayerStepAsWritten(fw, cmd, payload);
            a.fw.transfer.offset <= LabelSize &&
            forall st :: st in a.strays ==> st.index == LabelSize
  {
  }

  // ---------------------------------------------------------------------
  // The handlers, as hid_handlers.c performs them.

  /** g_transfer_state. */
  class Transfer {
    /** cur_operation: the in-flight operation. */
    var curOperation: byte
    /** cur_layer: the layer the operation applies to. */
    var curLayer: byte
    /** buffer_offset: the next offset to write to. */
    var bufferOffset: byte
    /** buffer: the text received so far. */
    const buffer: array<byte>

    /** The buffer is one label long; the offset can reach its end, as line 112 allows. */
    predicate Valid()
      reads this, buffer
    {
      buffer.Length == LabelSize && bufferOffset <= LabelSize
    }

    function View(): TransferState
      reads this, buffer
    {
      TransferState(curOperation, curLayer, bufferOffset, buffer[..])
    }

    /** The zero-initialised global. */
    constructor ()
      ensures Valid() && fresh(buffer)
      ensures View() == TransferState(Noop, 0, 0, Zeros(LabelSize))
    {
      curOperation := Noop;
      curLayer := 0;
      bufferOffset := 0;
      buffer := new byte[LabelSize](_ => 0);
    }

    /**
     * Lines 120-123 of hid_handlers.c: strncpy the chunk into the buffer at the
     * offset, advance the offset past it and put a NUL after it, unless the
     * chunk filled the buffer and the NUL falls past it.
     */
    method Append(src: seq<byte>)
      requires Valid() && FitsAsWritten(bufferOffset, |src|)
      modifies this, buffer
      ensures Valid() && View() == Buffered(old(View()), src)
    {
      var len := |src|;
      var chunk := StrNCpy(src, len);
      var off := bufferOffset;
      ghost var before := buffer[..];
      forall i | 0 <= i < len {
        buffer[off + i] := chunk[i];
      }
      assert buffer[..] == Written(before, off, chunk) by {
        forall k | 0 <= k < LabelSize ensures buffer[k] == Written(before, off, chunk)[k] {
          WrittenAt(before, off, chunk, k);
        }
      }
      bufferOffset := off + len;
      if bufferOffset < LabelSize {
        buffer[bufferOffset] := 0;
      }
    }

    /** reset_transfer_state. */
    method Reset()
      requires Valid()
      modifies this
      ensures Valid() && View() == ResetState(old(View()))
    {
      bufferOffset := 0;
      curOperation := Noop;
    }
  }

  /** The firmware state held by the transfer, the label registry and the platform. */
  function Snap(t: Transfer, o: Oled, p: Platform): Firmware
    reads t, t.buffer, o, p
  {
    Firmware(t.View(), o.user, o.on, p.eeprom, p.display, p.sent, p.layer)
  }

  /** The objects are well formed, and the offset lies inside the buffer, as the corrected capacity check keeps it. */
  predicate AllValid(t: Transfer, o: Oled, p: Platform)
    reads t, t.buffer, o, p
  {
    t.Valid() && t.bufferOffset < LabelSize && o.Valid() && p.Valid()
  }

  /** nack_hid_message. */
  method NackHidMessage(p: Platform)
    modifies p`sent
    ensures p.sent == old(p.sent) + [NackPacket()]
  {
    p.RawHidSend([Nack]);
  }

  /** ack_hid_message. */
  method AckHidMessage(p: Platform, cmd: byte)
    modifies p`sent
    ensures p.sent == old(p.sent) + [AckPacket(cmd)]
  {
    p.RawHidSend([Ack, cmd]);
  }

  /** complete_oled_layer_update. */
  method CompleteOledLayerUpdate(t: Transfer, o: Oled, p: Platform)
    requires AllValid(t, o, p)
    modifies t, t.buffer, o`user, p`eeprom, p`display
    ensures AllValid(t, o, p)
    ensures Snap(t, o, p) == Commit(old(Snap(t, o, p)))
  {
    t.buffer[t.bufferOffset] := 0;
    OledLayerUpdate(o, p, t.curLayer, t.buffer[..], t.bufferOffset);
    t.Reset();
  }

  /** start_or_continue_oled_layer_update. */
  method StartOrContinueOledLayerUpdate(t: Transfer, o: Oled, p: Platform, cmd: byte, payload: seq<byte>)
    returns (ok: bool)
    requires AllValid(t, o, p) && |payload| == PayloadSize
    modifies t, t.buffer, o`user, p`eeprom, p`display
    ensures AllValid(t, o, p)
    ensures Step(ok, Snap(t, o, p)) == LayerStep(old(Snap(t, o, p)), cmd, payload)
  {
    ghost var fw := Snap(t, o, p);
    var layer := payload[0];
    var len := payload[1];
    if len > MaxChunk {
      assert LayerStep(fw, cmd, payload) == Step(false, fw);
      return false;
    }
    if layer >= LayerCount {
      assert LayerStep(fw, cmd, payload) == Step(false, fw);
      return false;
    }
    if cmd == OledUpdate {
      t.Reset();
      t.curOperation := OledUpdate;
    } else if cmd == Cont || cmd == Complete {
      if t.curLayer != layer {
        assert LayerStep(fw, cmd, payload) == Step(false, fw);
        return false;
      }
    } else {
      assert LayerStep(fw, cmd, payload) == Step(false, fw);
      return false;
    }
    ghost var t1 := t.View();
    assert t1 == if cmd == OledUpdate then ResetState(fw.transfer).(op := OledUpdate) else fw.transfer;
    if cmd == Complete {
      CompleteOledLayerUpdate(t, o, p);
      t.Reset();
      return true;
    }
    t.curLayer := layer;
    assert t.View() == t1.(layer := layer);
    if len < 1 {
    } else if !Fits(t.bufferOffset, len) {
      return false;
    } else {
      t.Append(payload[2..2 + len]);
    }
    return true;
  }

  /** start_or_continue_hid_command. */
  method StartOrContinueHidCommand(t: Transfer, o: Oled, p: Platform, cmd: byte, payload: seq<byte>)
    requires AllValid(t, o, p) && |payload| == PayloadSize
    modifies t, t.buffer, o`user, p`eeprom, p`display, p`sent
    ensures AllValid(t, o, p)
    ensures Snap(t, o, p) == TransferCommand(old(Snap(t, o, p)), cmd, payload)
  {
    var ok := StartOrContinueOledLayerUpdate(t, o, p, cmd, payload);
    if !ok {
      t.Reset();
      NackHidMessage(p);
      return;
    }
    AckHidMessage(p, cmd);
  }

  /** hid_echo. */
  method HidEcho(p: Platform, payload: seq<byte>)
    requires |payload| == PayloadSize
    modifies p`sent
    ensures p.sent == old(p.sent) + [EchoPacket(payload)]
  {
    var snd := [Ack] + payload[..28];
    p.RawHidSend(snd);
  }

  /** hid_hello. */
  method HidHello(p: Platform)
    modifies p`sent
    ensures p.sent == old(p.sent) + [HelloPacket()]
  {
    var greeting := Ascii("hello world");
    var snd := [Ack, Hello] + StrNCpy(greeting + Zeros(30 - |greeting|), 30);
    p.RawHidSend(snd);
  }

  /** handle_hid_command: always reports the frame as handled. */
  method HandleHidCommand(t: Transfer, o: Oled, p: Platform, cmd: byte, payload: seq<byte>)
    returns (handled: bool)
    requires AllValid(t, o, p) && |payload| == PayloadSize
    modifies t, t.buffer, o`user, o`on, p`eeprom, p`display, p`sent
    ensures AllValid(t, o, p)
    ensures handled && Snap(t, o, p) == HidCommand(old(Snap(t, o, p)), cmd, payload)
  {
    if cmd == Hello {
      HidHello(p);
    } else if cmd == Echo {
      HidEcho(p, payload);
    } else if cmd == OledOff || cmd == OledOn {
      var on := cmd != OledOff;
      SetOledState(o, p, on);
      AckHidMessage(p, cmd);
    } else if cmd == OledReset {
      ResetLayerLabels(o, p);
      AckHidMessage(p, cmd);
    } else if cmd == OledUpdate || cmd == Complete || cmd == Cont {
      StartOrContinueHidCommand(t, o, p, cmd, payload);
    } else {
      NackHidMessage(p);
    }
    return true;
  }

  /** validate_hid_message. */
  method ValidateHidMessage(data: seq<byte>) returns (cmd: int)
    requires |data| == FrameSize
    ensures cmd == Validate(data)
  {
    var header := data[0] as int * 256 + data[1] as int;
    if header != Header {
      return -1;
    }
    cmd := data[2];
  }

  /** user_hid_receive: returns false exactly when the frame is left to VIA. */
  method UserHidReceive(t: Transfer, o: Oled, p: Platform, data: seq<byte>) returns (handled: bool)
    requires AllValid(t, o, p) && |data| == FrameSize
    modifies t, t.buffer, o`user, o`on, p`eeprom, p`display, p`sent
    ensures AllValid(t, o, p)
    ensures Received(handled, Snap(t, o, p)) == Receive(old(Snap(t, o, p)), data)
  {
    var cmd := ValidateHidMessage(data);
    if cmd < 0 {
      return false;
    }
    handled := HandleHidCommand(t, o, p, cmd, data[3..]);
  }
}
