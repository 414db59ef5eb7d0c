// The host and the keyboard together: the frames kbp/kb.go builds, as
// hid_handlers.c receives them, and the replies the host reads back.
// Report ids and the USB transport are left out: the 32 bytes the host
// writes are the 32 bytes raw_hid_receive hands the firmware, and each
// reply packet arrives padded to 32 bytes.

module Protocol {
  import opened Config
  import opened HidCodes
  import opened CStrings
  import opened Persistence
  import opened HidHandlers
  import opened Kb

  /** The firmware after it received the frames, one after the other. */
  function Deliver(fw: Firmware, frames: seq<seq<byte>>): (r: Firmware)
    requires FirmwareOk(fw) && forall k :: 0 <= k < |frames| ==> |frames[k]| == FrameSize
    ensures FirmwareOk(r)
    decreases |frames|
  {
    if frames == [] then fw else Deliver(Receive(fw, frames[0]).fw, frames[1..])
  }

  /** The replies appended after before are n packets, each an ACK. */
  predicate AllAcks(before: seq<seq<byte>>, after: seq<seq<byte>>, n: nat)
  {
    |after| == |before| + n && after[..|before|] == before &&
    forall i :: |before| <= i < |after| ==> 0 < |after[i]| <= FrameSize && after[i][0] == Ack
  }

  /** A reply packet as the host reads it: its first 32 bytes, the rest of the report zero. */
  function AsRead(p: seq<byte>): ReadResult
  {
    ReadResult(FrameSize, false, (p + Zeros(FrameSize))[..FrameSize])
  }

  /** The replies the firmware sent, in the order the host reads them. */
  function Replies(sent: seq<seq<byte>>): (rs: seq<ReadResult>)
    ensures |rs| == |sent|
    ensures forall i :: 0 <= i < |sent| ==> rs[i] == AsRead(sent[i])
  {
    seq(|sent|, i requires 0 <= i < |sent| => AsRead(sent[i]))
  }

  lemma AllAcksThen(a: seq<seq<byte>>, reply: seq<byte>, c: seq<seq<byte>>, n: nat)
    requires 0 < |reply| <= FrameSize && reply[0] == Ack && AllAcks(a + [reply], c, n)
    ensures AllAcks(a, c, n + 1)
  {
    assert c[..|a|] == (a + [reply])[..|a|];
  }

  /**
   * One OLED_UPDATE or CONT frame with a NUL-free chunk that fits is ACKed
   * and appends its chunk to the buffered text of its layer; labels and
   * EEPROM stay.
   */
  lemma ChunkReceived(fw: Firmware, f: seq<byte>, cmd: byte, layer: byte, chunk: seq<byte>)
    requires FirmwareOk(fw) && |f| == FrameSize && layer < LayerCount
    requires f[0] == 0x6d && f[1] == 0x6c && f[2] == cmd && f[3] == layer
    requires 1 <= |chunk| <= ChunkSize && f[4] == |chunk| && f[5..5 + |chunk|] == chunk && NulFree(chunk)
    requires cmd == OledUpdate || (cmd == Cont && fw.transfer.layer == layer)
    requires (if cmd == OledUpdate then 0 else fw.transfer.offset) + |chunk| < LabelSize
    ensures var r := Receive(fw, f);
            var prior := if cmd == OledUpdate then [] else fw.transfer.buf[..fw.transfer.offset];
            r.handled && r.fw.transfer.layer == layer &&
            r.fw.transfer.offset == |prior| + |chunk| &&
            r.fw.transfer.buf[..r.fw.transfer.offset] == prior + chunk &&
            r.fw.user == fw.user && r.fw.eeprom == fw.eeprom && r.fw.sent == fw.sent + [AckPacket(cmd)]
  {
    var payload := f[3..];
    assert Receive(fw, f) == Received(true, HidCommand(fw, cmd, payload)) by {
      assert Validate(f) == cmd;
    }
    assert payload[2..2 + payload[1]] == chunk by {
      assert payload[1] == |chunk|;
      assert payload[2..2 + |chunk|] == f[5..5 + |chunk|];
    }
    if cmd == OledUpdate {
      UpdateStartsTransfer(fw, payload);
    } else {
      ContAppendsChunk(fw, payload);
    }
  }

  /** Each frame is a chunk frame for the layer: OLED_UPDATE first when starting, CONT otherwise, carrying 1 to 25 bytes. */
  predicate ChunkFramesFor(fs: seq<seq<byte>>, layer: byte, isStart: bool)
  {
    forall k :: 0 <= k < |fs| ==>
      |fs[k]| == FrameSize && fs[k][0] == 0x6d && fs[k][1] == 0x6c && fs[k][2] == ChunkCommand(isStart && k == 0) &&
      fs[k][3] == layer && 1 <= fs[k][4] <= ChunkSize
  }

  /**
   * Chunk frames delivered in order leave their chunks buffered for the
   * layer, after what was buffered when continuing; each frame is ACKed,
   * and labels and EEPROM stay.
   */
  lemma {:induction false} FramesDelivered(fw: Firmware, fs: seq<seq<byte>>, layer: byte, isStart: bool)
    requires FirmwareOk(fw) && layer < LayerCount && ChunkFramesFor(fs, layer, isStart)
    requires NulFree(Payloads(fs))
    requires isStart ==> fs != []
    requires !isStart ==> fw.transfer.layer == layer
    requires (if isStart then 0 else fw.transfer.offset) + |Payloads(fs)| < LabelSize
    ensures var r := Deliver(fw, fs);
            var prior := if isStart then [] else fw.transfer.buf[..fw.transfer.offset];
            r.transfer.layer == layer && r.transfer.offset == |prior| + |Payloads(fs)| &&
            r.transfer.buf[..r.transfer.offset] == prior + Payloads(fs) &&
            r.user == fw.user && r.eeprom == fw.eeprom && AllAcks(fw.sent, r.sent, |fs|)
    decreases |fs|
  {
    if fs == [] {
    } else {
      var f := fs[0];
      var chunk := Chunk(f);
      var more := Payloads(fs[1..]);
      assert Payloads(fs) == chunk + more;
      assert chunk == Payloads(fs)[..|chunk|] && more == Payloads(fs)[|chunk|..];
      var cmd := ChunkCommand(isStart);
      ChunkReceived(fw, f, cmd, layer, chunk);
      var fw1 := Receive(fw, f).fw;
      assert ChunkFramesFor(fs[1..], layer, false) by {
        forall k | 0 <= k < |fs[1..]| ensures fs[1..][k] == fs[k + 1] && ChunkCommand(isStart && k + 1 == 0) == Cont {
        }
      }
      FramesDelivered(fw1, fs[1..], layer, false);
      var prior := if isStart then [] else fw.transfer.buf[..fw.transfer.offset];
      var r := Deliver(fw, fs);
      assert r == Deliver(fw1, fs[1..]);
      DeliveredAfter(fw, fw1, r, |fs| - 1, layer, cmd, prior, chunk, more);
    }
  }

  /** The chunk frames of a text, delivered in order, leave its first tot bytes buffered for the layer. */
  lemma ChunksDelivered(fw: Firmware, layer: byte, text: seq<byte>, tot: nat)
    requires FirmwareOk(fw) && 0 < tot < LabelSize && tot <= |text| && layer < LayerCount
    requires NulFree(text[..tot])
    ensures var fs := ChunkFrames(Blank, layer, text, tot, true);
            var r := Deliver(fw, fs);
            r.transfer.layer == layer && r.transfer.offset == tot &&
            r.transfer.buf[..r.transfer.offset] == text[..tot] &&
            r.user == fw.user && r.eeprom == fw.eeprom && AllAcks(fw.sent, r.sent, |fs|)
  {
    var fs := ChunkFrames(Blank, layer, text, tot, true);
    ChunkFramesShape(Blank, layer, text, tot, true);
    ChunkFramesCarryText(Blank, layer, text, tot, true);
    FramesDelivered(fw, fs, layer, true);
    assert [] + text[..tot] == text[..tot];
  }

  /** The first frame's effect followed by the rest's gives the effect of all frames. */
  lemma DeliveredAfter(fw: Firmware, fw1: Firmware, r: Firmware, n: nat, layer: byte, cmd: byte,
                       prior: seq<byte>, chunk: seq<byte>, more: seq<byte>)
    requires fw1.transfer.offset == |prior| + |chunk| && fw1.transfer.offset <= |fw1.transfer.buf|
    requires fw1.transfer.buf[..fw1.transfer.offset] == prior + chunk
    requires fw1.user == fw.user && fw1.eeprom == fw.eeprom && fw1.sent == fw.sent + [AckPacket(cmd)]
    requires r.transfer.layer == layer && r.transfer.offset == fw1.transfer.offset + |more| && r.transfer.offset <= |r.transfer.buf|
    requires r.transfer.buf[..r.transfer.offset] == fw1.transfer.buf[..fw1.transfer.offset] + more
    requires r.user == fw1.user && r.eeprom == fw1.eeprom && AllAcks(fw1.sent, r.sent, n)
    ensures r.transfer.layer == layer && r.transfer.offset == |prior| + |chunk + more|
    ensures r.transfer.buf[..r.transfer.offset] == prior + (chunk + more)
    ensures r.user == fw.user && r.eeprom == fw.eeprom && AllAcks(fw.sent, r.sent, n + 1)
  {
    AllAcksThen(fw.sent, AckPacket(cmd), r.sent, n);
  }

  /** The frames SendLayerUpdate writes for a layer text: the chunk frames, then COMPLETE. */
  function LayerUpdateFrames(layer: byte, text: seq<byte>): (fs: seq<seq<byte>>)
    ensures forall k :: 0 <= k < |fs| ==> |fs[k]| == FrameSize
  {
    Plan(layer, text) + [Final(layer, text)]
  }

  /**
   * A layer update of a NUL-free text of 1 to 86 bytes, delivered to the
   * keyboard, makes the text that layer's label and persists the labels;
   * every frame is ACKed.
   */
  lemma {:induction false} LayerUpdateStoresText(fw: Firmware, layer: byte, text: seq<byte>)
    requires FirmwareOk(fw) && layer < LayerCount
    requires 0 < |text| < LabelSize && NulFree(text)
    ensures var r := Deliver(fw, LayerUpdateFrames(layer, text));
            r.user == fw.user[layer := FromText(text)] &&
            CText(r.user[layer]) == text &&
            r.eeprom == UserImage(fw.eeprom, r.user) &&
            AllAcks(fw.sent, r.sent, |LayerUpdateFrames(layer, text)|)
  {
    var plan := Plan(layer, text);
    var final := Final(layer, text);
    assert |text| % 256 == |text|;
    assert text[..|text|] == text;
    ChunksDelivered(fw, layer, text, |text|);
    var mid := Deliver(fw, plan);
    DeliverAppend(fw, plan, [final]);
    CompletionShape(Blank, layer, text, |text|, true);
    assert mid.transfer.buf[..mid.transfer.offset] == text;
    assert mid.user == fw.user && mid.eeprom == fw.eeprom;
    CompletionReceived(mid, final, layer);
    var r := Deliver(mid, [final]);
    assert Deliver(fw, LayerUpdateFrames(layer, text)) == r;
    AllAcksAppend(fw.sent, mid.sent, Deliver(mid, [final]).sent, |plan|, AckPacket(Complete));
  }

  /** The COMPLETE frame for the transfer's layer stores the buffered text as its label and is ACKed. */
  lemma CompletionReceived(fw: Firmware, f: seq<byte>, layer: byte)
    requires FirmwareOk(fw) && |f| == FrameSize && f[..5] == [0x6d, 0x6c, Complete, layer, 0]
    requires layer < LayerCount && fw.transfer.layer == layer
    requires NulFree(fw.transfer.buf[..fw.transfer.offset])
    ensures var r := Deliver(fw, [f]);
            var text := fw.transfer.buf[..fw.transfer.offset];
            r.user == fw.user[layer := FromText(text)] && CText(r.user[layer]) == text &&
            r.eeprom == UserImage(fw.eeprom, r.user) && r.sent == fw.sent + [AckPacket(Complete)]
  {
    var payload := f[3..];
    assert Validate(f) == Complete;
    CompleteCommits(fw, payload, payload);
    CommitStoresText(fw);
    var r := Receive(fw, f).fw;
    assert Deliver(fw, [f]) == r;
    assert r.user[layer] == Commit(fw).user[layer];
  }

  lemma {:induction false} DeliverAppend(fw: Firmware, a: seq<seq<byte>>, b: seq<seq<byte>>)
    requires FirmwareOk(fw)
    requires forall k :: 0 <= k < |a| ==> |a[k]| == FrameSize
    requires forall k :: 0 <= k < |b| ==> |b[k]| == FrameSize
    ensures Deliver(fw, a + b) == Deliver(Deliver(fw, a), b)
    decreases |a|
  {
    if a != [] {
      assert (a + b)[0] == a[0] && (a + b)[1..] == a[1..] + b;
      DeliverAppend(Receive(fw, a[0]).fw, a[1..], b);
    } else {
      assert a + b == b;
    }
  }

  lemma AllAcksAppend(a: seq<seq<byte>>, m: seq<seq<byte>>, c: seq<seq<byte>>, n: nat, reply: seq<byte>)
    requires AllAcks(a, m, n) && c == m + [reply] && 0 < |reply| <= FrameSize && reply[0] == Ack
    ensures AllAcks(a, c, n + 1)
  {
    assert c[..|a|] == m[..|a|];
  }

  /**
   * The host, reading back those ACKs from a device that takes every write,
   * finishes sendSegmented without error, having written exactly the frames
   * the keyboard received.
   */
  lemma HostAcceptsAcks(written: seq<seq<byte>>, layer: byte, text: seq<byte>, replies: seq<seq<byte>>)
    requires |replies| == |LayerUpdateFrames(layer, text)|
    requires forall i :: 0 <= i < |replies| ==> 0 < |replies[i]| <= FrameSize && replies[i][0] == Ack
    ensures var o := Segmented(Link(written, [], Replies(replies)), layer, text);
            o.err == None && o.link.written == written + LayerUpdateFrames(layer, text)
  {
    var l := Link(written, [], Replies(replies));
    var plan := Plan(layer, text);
    forall k | 0 <= k <= |plan| ensures ReadAcks(l, k) {
      assert (replies[k] + Zeros(FrameSize))[..FrameSize][0] == Ack;
    }
    assert AllAcked(l, |plan|);
    ExchangeSucceedsIff(l, plan, Final(layer, text));
    ExchangeWritesPrefix(l, plan, Final(layer, text));
  }

  /**
   * SendLayerUpdate against the keyboard, end to end: the keyboard stores
   * the text as the layer's label, and the host, reading the keyboard's
   * replies, reports success.
   */
  lemma LayerUpdateEndToEnd(fw: Firmware, written: seq<seq<byte>>, layer: byte, text: seq<byte>)
    requires FirmwareOk(fw) && layer < LayerCount
    requires 0 < |text| < LabelSize && NulFree(text)
    ensures var frames := LayerUpdateFrames(layer, text);
            var r := Deliver(fw, frames);
            CText(r.user[layer]) == text && |r.sent| >= |fw.sent| &&
            var o := Segmented(Link(written, [], Replies(r.sent[|fw.sent|..])), layer, text);
            o.err == None && o.link.written == written + frames
  {
    var frames := LayerUpdateFrames(layer, text);
    LayerUpdateStoresText(fw, layer, text);
    var r := Deliver(fw, frames);
    var replies := r.sent[|fw.sent|..];
    forall i | 0 <= i < |replies| ensures 0 < |replies[i]| <= FrameSize && replies[i][0] == Ack {
      assert replies[i] == r.sent[|fw.sent| + i];
    }
    HostAcceptsAcks(written, layer, text, replies);
  }
}

module ProtocolRequests {
  import opened Config
  import opened HidCodes
  import opened CStrings
  import opened Persistence
  import opened HidHandlers
  import opened HidQuery
  import opened Kb
  import opened Protocol

  /** The host's one-frame exchange with a device that takes the write and answers with the packet p. */
  function Answered(written: seq<seq<byte>>, x: HidInfo, frame: seq<byte>, p: seq<byte>): RawOutcome
  {
    Raw(Link(written, [], [AsRead(p)]), Opened(x), frame)
  }

  /** The frame carries the first 29 bytes of the text. */
  lemma EchoRequestCarries(txt: seq<byte>)
    ensures forall i :: 0 <= i < 29 ==> EchoRequest(txt)[3 + i] == if i < |txt| then txt[i] else 0
  {
    EchoRequestCarriesText(txt);
  }

  /**
   * An echo request, answered by the keyboard: the host reports success and
   * reads back the first 28 bytes of its text, NUL-padded; the keyboard's
   * reply is 29 bytes, so a 29th text byte the host sent does not come back.
   */
  lemma EchoEndToEnd(fw: Firmware, written: seq<seq<byte>>, x: HidInfo, txt: seq<byte>)
    requires FirmwareOk(fw)
    ensures var r := Receive(fw, EchoRequest(txt)).fw;
            r.user == fw.user && r.eeprom == fw.eeprom && |r.sent| == |fw.sent| + 1 &&
            var p := r.sent[|fw.sent|];
            |p| == 29 &&
            var o := Answered(written, x, EchoRequest(txt), p);
            o.err == None &&
            forall i :: 0 <= i < 28 ==> o.response.value[1 + i] == if i < |txt| then txt[i] else 0
  {
    var f := EchoRequest(txt);
    EchoRequestCarries(txt);
    assert Validate(f) == Echo;
    var p := EchoPacket(f[3..]);
    assert Receive(fw, f).fw.sent == fw.sent + [p];
    assert (p + Zeros(FrameSize))[..FrameSize][0] == Ack;
    var o := Answered(written, x, f, p);
    forall i | 0 <= i < 28 ensures o.response.value[1 + i] == if i < |txt| then txt[i] else 0 {
      assert o.response.value[1 + i] == p[1 + i] == f[3 + i];
    }
  }

  /** OLED_ON and OLED_OFF switch the display as asked and are ACKed; the host reports success. */
  lemma OledStateEndToEnd(fw: Firmware, written: seq<seq<byte>>, x: HidInfo, on: bool)
    requires FirmwareOk(fw)
    ensures var cmd := if on then OledOn else OledOff;
            var r := Receive(fw, OledStateRequest(on)).fw;
            r.on == on && r.user == fw.user && r.eeprom == fw.eeprom && r.sent == fw.sent + [AckPacket(cmd)] &&
            Answered(written, x, OledStateRequest(on), AckPacket(cmd)).err == None
  {
    var f := OledStateRequest(on);
    assert Validate(f) == (if on then OledOn else OledOff);
  }

  /**
   * OLED_RESET restores the factory labels kept in EEPROM, voids the saved
   * user labels and is ACKed; the host reports success.
   */
  lemma ResetEndToEnd(fw: Firmware, written: seq<seq<byte>>, x: HidInfo)
    requires FirmwareOk(fw)
    ensures var r := Receive(fw, ResetRequest).fw;
            r.user == RestoredSystem(fw.eeprom) && r.eeprom == VoidedImage(fw.eeprom) &&
            r.sent == fw.sent + [AckPacket(OledReset)] &&
            Answered(written, x, ResetRequest, AckPacket(OledReset)).err == None
  {
    assert Validate(ResetRequest) == OledReset;
    ResetRestoresFactory(fw, ResetRequest[3..]);
  }

  /** HELLO is answered with the greeting, which the host receives whole. */
  lemma HelloEndToEnd(fw: Firmware, written: seq<seq<byte>>, x: HidInfo)
    requires FirmwareOk(fw)
    ensures var r := Receive(fw, HelloRequest).fw;
            r.sent == fw.sent + [HelloPacket()] && r.user == fw.user &&
            var o := Answered(written, x, HelloRequest, HelloPacket());
            o.response.Some? && o.response.value[..] == HelloPacket()
  {
    assert Validate(HelloRequest) == Hello;
    var p := HelloPacket();
    assert (p + Zeros(FrameSize))[..FrameSize] == p;
  }

  /**
   * An empty text is not refused by the host: it sends COMPLETE alone. The
   * keyboard NACKs it unless its last transfer was for the same layer, and
   * the host then reports an aborted transfer.
   */
  lemma EmptyTextRefused(fw: Firmware, written: seq<seq<byte>>, layer: byte)
    requires FirmwareOk(fw) && layer < LayerCount && fw.transfer.layer != layer
    ensures LayerUpdateFrames(layer, []) == [LayerMessage(Blank, Complete, layer, 0, [])]
    ensures var r := Deliver(fw, LayerUpdateFrames(layer, []));
            r.user == fw.user && r.eeprom == fw.eeprom && r.sent == fw.sent + [NackPacket()] &&
            Segmented(Link(written, [], Replies([NackPacket()])), layer, []).err == Some(TransferAborted)
  {
    PlanCarriesTruncatedText(layer, []);
    var f := LayerMessage(Blank, Complete, layer, 0, []);
    LayerMessageFields(Blank, Complete, layer, 0, []);
    assert Validate(f) == Complete;
    var payload := f[3..];
    assert !LayerStep(fw, Complete, payload).ok;
    RefusedChunkNacked(fw, Complete, payload);
    assert Deliver(fw, [f]) == Receive(fw, f).fw;
    assert (NackPacket() + Zeros(FrameSize))[..FrameSize][0] == Nack;
  }
}
