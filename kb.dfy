// kbp/kb.go: the host side of the protocol. Requests are 32-byte frames
// "m l CMD data..."; a layer text is sent as an OLED_UPDATE frame, CONT
// frames of at most 25 bytes each, and a COMPLETE frame, each answered by
// the keyboard with an ACK or a NACK.
//
// The open HID device is a Device whose writes and reads follow a script:
// the outcomes of its next writes and the results of its next reads.

module Kb {
  import opened Config
  import opened HidCodes
  import opened CStrings
  import opened HidQuery

  /** A report as read from or written to the device: 32 bytes. */
  type Report = s: seq<byte> | |s| == FrameSize witness Zeros(FrameSize)

  /** make([]byte, 32). */
  const Blank: seq<byte> := Zeros(FrameSize)

  /** The largest chunk sendSegmented puts in one frame. */
  const ChunkSize: nat := 25

  function Min(a: int, b: int): int
  {
    if a < b then a else b
  }

  // ---------------------------------------------------------------------
  // Building requests.

  /** The bytes copy(dst[at:], src) leaves in dst: as much of src as fits from position at. */
  function Copied(dst: seq<byte>, at: nat, src: seq<byte>): (r: seq<byte>)
    requires at <= |dst|
    ensures |r| == |dst|
    ensures forall i :: 0 <= i < |dst| ==> r[i] == if at <= i < at + |src| then src[i - at] else dst[i]
  {
    var n := Min(|dst| - at, |src|);
    dst[..at] + src[..n] + dst[at + n..]
  }

  /** prepareMessage: 'm', 'l' and the command, then data copied from byte 3 on, truncated to the buffer. */
  function Message(buf: seq<byte>, cmd: byte, data: seq<byte>): (r: seq<byte>)
    requires |buf| >= 3
    ensures |r| == |buf|
  {
    Copied(buf[0 := 0x6d][1 := 0x6c][2 := cmd], 3, data)
  }

  /** prepareLayerMessage: a message carrying the layer, the length and data[:length] from byte 5 on. */
  function LayerMessage(buf: seq<byte>, cmd: byte, layer: byte, length: byte, data: seq<byte>): (r: seq<byte>)
    requires |buf| >= 5 && length <= |data|
    ensures |r| == |buf|
  {
    Copied(Message(buf, cmd, [])[3 := layer][4 := length], 5, data[..length])
  }

  /** The chunk a layer frame carries: length bytes from byte 5 on. */
  function Chunk(f: seq<byte>): seq<byte>
  {
    if |f| >= 5 && 5 + f[4] <= |f| then f[5..5 + f[4]] else []
  }

  /** A layer frame as the firmware reads it: header, command, layer, length, then the chunk and nothing else. */
  lemma LayerMessageFields(buf: seq<byte>, cmd: byte, layer: byte, length: byte, data: seq<byte>)
    requires |buf| == FrameSize && length <= |data| && length <= FrameSize - 5
    ensures var f := LayerMessage(buf, cmd, layer, length, data);
            f[0] == 0x6d && f[1] == 0x6c && f[2] == cmd && f[3] == layer && f[4] == length &&
            Chunk(f) == data[..length] && f[5 + length..] == buf[5 + length..]
  {
    var f := LayerMessage(buf, cmd, layer, length, data);
    assert forall i :: 5 <= i < 5 + length ==> f[i] == data[..length][i - 5];
  }

  /** The ECHO request carries the first 29 bytes of the text, at most, and zeros after them. */
  lemma EchoRequestCarriesText(txt: seq<byte>)
    ensures var m := Min(FrameSize - 3, |txt|);
            var f := EchoRequest(txt);
            f[..3] == [0x6d, 0x6c, Echo] && f[3..3 + m] == txt[..m] &&
            forall i :: 3 + m <= i < FrameSize ==> f[i] == 0
  {
    var m := Min(FrameSize - 3, |txt|);
    var f := EchoRequest(txt);
    assert forall i :: 3 <= i < 3 + m ==> f[i] == txt[..m][i - 3];
  }

  /** copy(dst[at:], src). */
  method Copy(dst: array<byte>, at: nat, src: seq<byte>)
    requires at <= dst.Length
    modifies dst
    ensures dst[..] == Copied(old(dst[..]), at, src)
  {
    var n := Min(dst.Length - at, |src|);
    forall i | at <= i < at + n {
      dst[i] := src[i - at];
    }
  }

  /** prepareMessage. */
  method PrepareMessage(buffer: array<byte>, cmd: byte, data: seq<byte>)
    requires buffer.Length >= 3
    modifies buffer
    ensures buffer[..] == Message(old(buffer[..]), cmd, data)
  {
    buffer[0] := 0x6d;
    buffer[1] := 0x6c;
    buffer[2] := cmd;
    if |data| > 0 {
      Copy(buffer, 3, data);
    }
  }

  /** prepareLayerMessage. */
  method PrepareLayerMessage(buffer: array<byte>, data: seq<byte>, cmd: byte, layer: byte, length: byte)
    requires buffer.Length >= 5 && length <= |data|
    modifies buffer
    ensures buffer[..] == LayerMessage(old(buffer[..]), cmd, layer, length, data)
  {
    PrepareMessage(buffer, cmd, []);
    buffer[3] := layer;
    buffer[4] := length;
    if length > 0 {
      Copy(buffer, 5, data[..length]);
    }
  }

  /** prepareStartMessage. */
  method PrepareStartMessage(buffer: array<byte>, data: seq<byte>, cmd: byte, layer: byte, length: byte)
    requires buffer.Length >= 5 && length <= |data|
    modifies buffer
    ensures buffer[..] == LayerMessage(old(buffer[..]), cmd, layer, length, data)
  {
    PrepareLayerMessage(buffer, data, cmd, layer, length);
  }

  /** prepareContinueMessage: a CONT frame. */
  method PrepareContinueMessage(buffer: array<byte>, data: seq<byte>, layer: byte, length: byte)
    requires buffer.Length >= 5 && length <= |data|
    modifies buffer
    ensures buffer[..] == LayerMessage(old(buffer[..]), Cont, layer, length, data)
  {
    PrepareLayerMessage(buffer, data, Cont, layer, length);
  }

  /** prepareCompleteMessage: a COMPLETE frame of length 0; the bytes after the length are left as they were. */
  method PrepareCompleteMessage(buffer: array<byte>, layer: byte)
    requires buffer.Length >= 5
    modifies buffer
    ensures buffer[..] == LayerMessage(old(buffer[..]), Complete, layer, 0, [])
  {
    PrepareLayerMessage(buffer, [], Complete, layer, 0);
  }

  /** The single-frame requests, built in a fresh buffer. */
  const ResetRequest: seq<byte> := Message(Blank, OledReset, [])
  const HelloRequest: seq<byte> := Message(Blank, Hello, [])

  function OledStateRequest(on: bool): seq<byte>
  {
    Message(Blank, if on then OledOn else OledOff, [])
  }

  function EchoRequest(txt: seq<byte>): seq<byte>
  {
    Message(Blank, Echo, txt)
  }

  // ---------------------------------------------------------------------
  // Reading replies.

  /** What dev.ReadWithTimeout reports: the byte count, whether it failed, and the report read. */
  datatype ReadResult = ReadResult(got: int, failed: bool, recv: Report)

  /** A read that timed out: nothing arrived. */
  const TimedOut := ReadResult(0, false, Blank)

  /** handleAckOrNack: the reply when one arrived, without error, and starts with ACK; None means TransferAborted. */
  function AckOrNack(r: ReadResult): (response: Option<Report>)
    ensures response.Some? <==> r.got > 0 && !r.failed && r.recv[0] == Ack
    ensures response.Some? ==> response.value == r.recv
  {
    if r.got <= 0 then None
    else if r.failed then None
    else if r.recv[0] != Ack then None
    else Some(r.recv)
  }

  // ---------------------------------------------------------------------
  // The device.

  /** What the host has written to the device, and what the device will do next. */
  datatype Link = Link(written: seq<seq<byte>>, writeFails: seq<bool>, replies: seq<ReadResult>)

  function Drop<T>(s: seq<T>): seq<T>
  {
    if s == [] then [] else s[1..]
  }

  /** The next write fails; writes past the script succeed. */
  predicate WriteFails(l: Link)
  {
    |l.writeFails| > 0 && l.writeFails[0]
  }

  function AfterWrite(l: Link, frame: seq<byte>): Link
  {
    Link(l.written + [frame], Drop(l.writeFails), l.replies)
  }

  /** The next read's result; reads past the script time out. */
  function NextReply(l: Link): ReadResult
  {
    if |l.replies| > 0 then l.replies[0] else TimedOut
  }

  function AfterRead(l: Link): Link
  {
    l.(replies := Drop(l.replies))
  }

  /** The k-th write from l on succeeds. */
  predicate WriteOk(l: Link, k: nat)
  {
    k >= |l.writeFails| || !l.writeFails[k]
  }

  /** The k-th read from l on returns an ACK. */
  predicate ReadAcks(l: Link, k: nat)
  {
    k < |l.replies| && AckOrNack(l.replies[k]).Some?
  }

  /** An open hid.Device. */
  class Device {
    var written: seq<seq<byte>>
    var writeFails: seq<bool>
    var replies: seq<ReadResult>

    function State(): Link
      reads this
    {
      Link(written, writeFails, replies)
    }

    /** dev.Write. */
    method Write(frame: seq<byte>) returns (failed: bool)
      modifies this
      ensures failed == WriteFails(old(State())) && State() == AfterWrite(old(State()), frame)
    {
      failed := |writeFails| > 0 && writeFails[0];
      written := written + [frame];
      writeFails := Drop(writeFails);
    }

    /** dev.ReadWithTimeout. */
    method ReadWithTimeout() returns (r: ReadResult)
      modifies this
      ensures r == NextReply(old(State())) && State() == AfterRead(old(State()))
    {
      r := if |replies| > 0 then replies[0] else TimedOut;
      replies := Drop(replies);
    }
  }

  /** handleAckOrNack: read one reply and classify it. */
  method HandleAckOrNack(dev: Device) returns (response: Option<Report>)
    modifies dev
    ensures response == AckOrNack(NextReply(old(dev.State()))) && dev.State() == AfterRead(old(dev.State()))
  {
    var r := dev.ReadWithTimeout();
    response := AckOrNack(r);
  }

  // ---------------------------------------------------------------------
  // The segmented transfer.

  /** The outcome of an exchange: the device afterwards, and the error returned. */
  datatype Outcome = Outcome(link: Link, err: Option<KbpError>)

  /**
   * Each frame is written and its reply read; the first failed write or
   * non-ACK reply ends the exchange. The final frame's write error is
   * ignored, and its reply decides the result.
   */
  function Exchange(l: Link, frames: seq<seq<byte>>, final: seq<byte>): Outcome
    decreases |frames|
  {
    if frames == [] then
      var l1 := AfterWrite(l, final);
      Outcome(AfterRead(l1), if AckOrNack(NextReply(l1)).Some? then None else Some(TransferAborted))
    else
      var l1 := AfterWrite(l, frames[0]);
      if WriteFails(l) then Outcome(l1, Some(DeviceError))
      else if AckOrNack(NextReply(l1)).None? then Outcome(AfterRead(l1), Some(TransferAborted))
      else Exchange(AfterRead(l1), frames[1..], final)
  }

  /** The command of the next chunk frame. */
  function ChunkCommand(isStart: bool): byte
  {
    if isStart then OledUpdate else Cont
  }

  /**
   * The chunk frames sendSegmented prepares while tot bytes of rest remain,
   * each written over the previous one in the same buffer.
   */
  function ChunkFrames(buf: seq<byte>, layer: byte, rest: seq<byte>, tot: nat, isStart: bool): (fs: seq<seq<byte>>)
    requires |buf| == FrameSize && tot <= |rest|
    ensures forall k :: 0 <= k < |fs| ==> |fs[k]| == FrameSize
    decreases tot
  {
    if tot == 0 then []
    else
      var l := Min(tot, ChunkSize);
      var f := LayerMessage(buf, ChunkCommand(isStart), layer, l, rest[..l]);
      [f] + ChunkFrames(f, layer, rest[l..], tot - l, false)
  }

  /** The COMPLETE frame sendSegmented prepares after the chunks, over the last chunk frame. */
  function Completion(buf: seq<byte>, layer: byte, rest: seq<byte>, tot: nat, isStart: bool): (f: seq<byte>)
    requires |buf| == FrameSize && tot <= |rest|
    ensures |f| == FrameSize
    decreases tot
  {
    if tot == 0 then LayerMessage(buf, Complete, layer, 0, [])
    else
      var l := Min(tot, ChunkSize);
      var f := LayerMessage(buf, ChunkCommand(isStart), layer, l, rest[..l]);
      Completion(f, layer, rest[l..], tot - l, false)
  }

  /** One chunk: its frame comes first, and the rest is planned over it. */
  lemma ChunkStep(buf: seq<byte>, layer: byte, rest: seq<byte>, tot: nat, isStart: bool)
    requires |buf| == FrameSize && 0 < tot <= |rest|
    ensures var l := Min(tot, ChunkSize);
            var f := LayerMessage(buf, ChunkCommand(isStart), layer, l, rest[..l]);
            var fs := ChunkFrames(buf, layer, rest, tot, isStart);
            fs != [] && fs[0] == f && fs[1..] == ChunkFrames(f, layer, rest[l..], tot - l, false) &&
            Completion(buf, layer, rest, tot, isStart) == Completion(f, layer, rest[l..], tot - l, false)
  {
  }

  /** The chunk frames of a layer text: its length is taken as a uint8. */
  function Plan(layer: byte, data: seq<byte>): seq<seq<byte>>
  {
    ChunkFrames(Blank, layer, data, |data| % 256, true)
  }

  function Final(layer: byte, data: seq<byte>): seq<byte>
  {
    Completion(Blank, layer, data, |data| % 256, true)
  }

  /** sendSegmented for OLED_UPDATE: the exchange of the planned frames. */
  function Segmented(l: Link, layer: byte, data: seq<byte>): Outcome
  {
    Exchange(l, Plan(layer, data), Final(layer, data))
  }

  /** The concatenated chunks of a sequence of layer frames. */
  function Payloads(fs: seq<seq<byte>>): seq<byte>
  {
    if fs == [] then [] else Chunk(fs[0]) + Payloads(fs[1..])
  }

  /**
   * Every chunk frame carries the header, OLED_UPDATE first and CONT after,
   * the layer, and a length from 1 to 25; every chunk but the last is full.
   */
  lemma {:induction false} ChunkFramesShape(buf: seq<byte>, layer: byte, rest: seq<byte>, tot: nat, isStart: bool)
    requires |buf| == FrameSize && tot <= |rest|
    ensures var fs := ChunkFrames(buf, layer, rest, tot, isStart);
            |fs| == (tot + ChunkSize - 1) / ChunkSize &&
            forall k :: 0 <= k < |fs| ==>
              fs[k][0] == 0x6d && fs[k][1] == 0x6c && fs[k][2] == ChunkCommand(isStart && k == 0) &&
              fs[k][3] == layer && 1 <= fs[k][4] <= ChunkSize && (k < |fs| - 1 ==> fs[k][4] == ChunkSize)
    decreases tot
  {
    if tot > 0 {
      var l := Min(tot, ChunkSize);
      var f := LayerMessage(buf, ChunkCommand(isStart), layer, l, rest[..l]);
      LayerMessageFields(buf, ChunkCommand(isStart), layer, l, rest[..l]);
      ChunkFramesShape(f, layer, rest[l..], tot - l, false);
    }
  }

  /** The chunks of the frames put together are the first tot bytes of the text. */
  lemma {:induction false} ChunkFramesCarryText(buf: seq<byte>, layer: byte, rest: seq<byte>, tot: nat, isStart: bool)
    requires |buf| == FrameSize && tot <= |rest|
    ensures Payloads(ChunkFrames(buf, layer, rest, tot, isStart)) == rest[..tot]
    decreases tot
  {
    if tot > 0 {
      var l := Min(tot, ChunkSize);
      var f := LayerMessage(buf, ChunkCommand(isStart), layer, l, rest[..l]);
      var fs := ChunkFrames(buf, layer, rest, tot, isStart);
      var tail := ChunkFrames(f, layer, rest[l..], tot - l, false);
      assert fs != [] && fs[0] == f && fs[1..] == tail by {
        ChunkStep(buf, layer, rest, tot, isStart);
      }
      assert Chunk(f) == rest[..l] by {
        LayerMessageFields(buf, ChunkCommand(isStart), layer, l, rest[..l]);
      }
      assert Payloads(tail) == rest[l..][..tot - l] by {
        ChunkFramesCarryText(f, layer, rest[l..], tot - l, false);
      }
      assert Payloads(fs) == Chunk(f) + Payloads(tail);
      assert rest[..l] + rest[l..][..tot - l] == rest[..tot];
    }
  }

  /**
   * The COMPLETE frame carries the header, the layer and length 0; its other
   * bytes are those of the last chunk frame, or of the fresh buffer when
   * there was none.
   */
  lemma {:induction false} CompletionShape(buf: seq<byte>, layer: byte, rest: seq<byte>, tot: nat, isStart: bool)
    requires |buf| == FrameSize && tot <= |rest|
    ensures var fs := ChunkFrames(buf, layer, rest, tot, isStart);
            var f := Completion(buf, layer, rest, tot, isStart);
            f[..5] == [0x6d, 0x6c, Complete, layer, 0] &&
            f[5..] == (if fs == [] then buf else fs[|fs| - 1])[5..]
    decreases tot
  {
    if tot == 0 {
      LayerMessageFields(buf, Complete, layer, 0, []);
    } else {
      var l := Min(tot, ChunkSize);
      var f := LayerMessage(buf, ChunkCommand(isStart), layer, l, rest[..l]);
      CompletionShape(f, layer, rest[l..], tot - l, false);
    }
  }

  /**
   * sendSegmented sends the text's first len(data) mod 256 bytes: the total
   * is a uint8, so a text of 256 bytes sends no chunk at all.
   */
  lemma PlanCarriesTruncatedText(layer: byte, data: seq<byte>)
    ensures Payloads(Plan(layer, data)) == data[..|data| % 256]
    ensures |data| % 256 == 0 <==> Plan(layer, data) == []
    ensures |data| % 256 == 0 ==> Final(layer, data) == LayerMessage(Blank, Complete, layer, 0, [])
  {
    ChunkFramesCarryText(Blank, layer, data, |data| % 256, true);
    ChunkFramesShape(Blank, layer, data, |data| % 256, true);
  }

  /** The k-th write from l on succeeds and its reply is an ACK. */
  predicate Acked(l: Link, k: nat)
  {
    WriteOk(l, k) && ReadAcks(l, k)
  }

  /** The link after one frame was written and its reply read. */
  function Next(l: Link, frame: seq<byte>): Link
  {
    AfterRead(AfterWrite(l, frame))
  }

  /** Reading on from a link that has written and read one frame shifts the script by one. */
  lemma ShiftScript(l: Link, frame: seq<byte>)
    ensures forall k: nat :: (WriteOk(Next(l, frame), k) <==> WriteOk(l, k + 1)) &&
                             (ReadAcks(Next(l, frame), k) <==> ReadAcks(l, k + 1)) &&
                             (Acked(Next(l, frame), k) <==> Acked(l, k + 1))
    ensures |Next(l, frame).written| == |l.written| + 1
  {
  }

  /** Every chunk write succeeds and every reply, the final one included, is an ACK. */
  predicate AllAcked(l: Link, n: nat)
  {
    (forall k :: 0 <= k < n ==> WriteOk(l, k)) && (forall k :: 0 <= k <= n ==> ReadAcks(l, k))
  }

  lemma AllAckedStep(l: Link, frame: seq<byte>, n: nat)
    ensures AllAcked(l, n + 1) <==> Acked(l, 0) && AllAcked(Next(l, frame), n)
  {
    ShiftScript(l, frame);
    if Acked(l, 0) && AllAcked(Next(l, frame), n) {
      forall k | 0 <= k < n + 1 ensures WriteOk(l, k) {
        if k > 0 { assert WriteOk(Next(l, frame), k - 1); }
      }
      forall k | 0 <= k <= n + 1 ensures ReadAcks(l, k) {
        if k > 0 { assert ReadAcks(Next(l, frame), k - 1); }
      }
    }
    if AllAcked(l, n + 1) {
      assert WriteOk(l, 0) && ReadAcks(l, 0);
      forall k | 0 <= k < n ensures WriteOk(Next(l, frame), k) {
        assert WriteOk(l, k + 1);
      }
      forall k | 0 <= k <= n ensures ReadAcks(Next(l, frame), k) {
        assert ReadAcks(l, k + 1);
      }
    }
  }

  /** An exchange succeeds exactly when every chunk write succeeds and every reply, the final one included, is an ACK. */
  lemma {:induction false} ExchangeSucceedsIff(l: Link, frames: seq<seq<byte>>, final: seq<byte>)
    ensures Exchange(l, frames, final).err.None? <==> AllAcked(l, |frames|)
    decreases |frames|
  {
    if frames == [] {
      assert AllAcked(l, 0) <==> ReadAcks(l, 0);
    } else {
      ExchangeSucceedsIff(Next(l, frames[0]), frames[1..], final);
      AllAckedStep(l, frames[0], |frames| - 1);
    }
  }

  /** An exchange writes a non-empty prefix of its frames followed by the final one. */
  lemma {:induction false} ExchangeWritesPrefix(l: Link, frames: seq<seq<byte>>, final: seq<byte>)
    ensures var r := Exchange(l, frames, final);
            var n := |r.link.written| - |l.written|;
            1 <= n <= |frames| + 1 && r.link.written == l.written + (frames + [final])[..n] &&
            (r.err.None? ==> n == |frames| + 1)
    decreases |frames|
  {
    if frames == [] {
      assert (frames + [final])[..1] == [final];
    } else {
      assert (frames + [final])[..1] == [frames[0]];
      if !WriteFails(l) && AckOrNack(NextReply(AfterWrite(l, frames[0]))).Some? {
        var l2 := Next(l, frames[0]);
        ExchangeWritesPrefix(l2, frames[1..], final);
        var r := Exchange(l, frames, final);
        var n2 := |r.link.written| - |l2.written|;
        assert (frames + [final])[..n2 + 1] == [frames[0]] + (frames[1..] + [final])[..n2];
      }
    }
  }

  /**
   * An exchange stops right after the first write that fails or reply that
   * is not an ACK: every frame before the last one written was ACKed, and
   * when the last one written is a chunk, its write or its reply failed.
   */
  lemma {:induction false} ExchangeStopsAtFirstFailure(l: Link, frames: seq<seq<byte>>, final: seq<byte>)
    ensures var r := Exchange(l, frames, final);
            var n := |r.link.written| - |l.written|;
            (forall k :: 0 <= k < n - 1 ==> Acked(l, k)) &&
            (0 < n <= |frames| ==> r.err.Some? && !Acked(l, n - 1)) &&
            (r.err == Some(DeviceError) <==> 0 < n <= |frames| && !WriteOk(l, n - 1))
    decreases |frames|
  {
    ExchangeWritesPrefix(l, frames, final);
    if frames != [] && !WriteFails(l) && AckOrNack(NextReply(AfterWrite(l, frames[0]))).Some? {
      var l2 := Next(l, frames[0]);
      ExchangeStopsAtFirstFailure(l2, frames[1..], final);
      ExchangeWritesPrefix(l2, frames[1..], final);
      ShiftScript(l, frames[0]);
      assert Acked(l, 0);
      var r := Exchange(l, frames, final);
      assert r == Exchange(l2, frames[1..], final);
      var n := |r.link.written| - |l.written|;
      forall k | 0 <= k < n - 1 ensures Acked(l, k) {
        if k > 0 { assert Acked(l2, k - 1); }
      }
    }
  }

  /** The start of one pass of sendSegmented's loop: size the next chunk and prepare its frame in buf. */
  method PrepareChunk(buf: array<byte>, rest: seq<byte>, tot: byte, isStart: bool, layer: byte) returns (l: byte)
    requires buf.Length == FrameSize && 0 < tot <= |rest|
    modifies buf
    ensures l == Min(tot, ChunkSize)
    ensures var fs := ChunkFrames(old(buf[..]), layer, rest, tot, isStart);
            fs != [] && buf[..] == fs[0] && fs[1..] == ChunkFrames(buf[..], layer, rest[l..], tot - l, false) &&
            Completion(old(buf[..]), layer, rest, tot, isStart) == Completion(buf[..], layer, rest[l..], tot - l, false)
  {
    l := tot;
    if tot > ChunkSize {
      l := ChunkSize;
    }
    ChunkStep(buf[..], layer, rest, tot, isStart);
    if isStart {
      PrepareStartMessage(buf, rest[..l], OledUpdate, layer, l);
    } else {
      PrepareContinueMessage(buf, rest[..l], layer, l);
    }
  }

  /** One chunk of sendSegmented's loop: write its frame, the first of frames, and read the reply, which must be an ACK. */
  method WriteChunk(dev: Device, frame: seq<byte>, ghost frames: seq<seq<byte>>, ghost final: seq<byte>) returns (err: Option<KbpError>)
    requires frames != [] && frames[0] == frame
    modifies dev
    ensures err.Some? ==> Outcome(dev.State(), err) == Exchange(old(dev.State()), frames, final)
    ensures err.None? ==> Exchange(old(dev.State()), frames, final) == Exchange(dev.State(), frames[1..], final)
  {
    var failed := dev.Write(frame);
    if failed {
      return Some(DeviceError);
    }
    var response := HandleAckOrNack(dev);
    if response.None? {
      return Some(TransferAborted);
    }
    return None;
  }

  /**
   * sendSegmented: only OLED_UPDATE is supported; the text goes out in
   * chunks of at most 25 bytes through one reused buffer, and a COMPLETE
   * frame follows.
   */
  method SendSegmented(dev: Device, cmd: byte, layer: byte, data: seq<byte>) returns (err: Option<KbpError>)
    modifies dev
    ensures cmd != OledUpdate ==> err == Some(UnsupportedCommand) && dev.State() == old(dev.State())
    ensures cmd == OledUpdate ==> Outcome(dev.State(), err) == Segmented(old(dev.State()), layer, data)
  {
    var buf := new byte[FrameSize](_ => 0);
    if cmd != OledUpdate {
      return Some(UnsupportedCommand);
    }
    var tot: byte := |data| % 256;
    var rest := data;
    var isStart := true;
    assert buf[..] == Blank;
    ghost var goal := Segmented(dev.State(), layer, data);
    while tot > 0
      invariant buf.Length == FrameSize && tot <= |rest|
      invariant goal == Exchange(dev.State(), ChunkFrames(buf[..], layer, rest, tot, isStart), Completion(buf[..], layer, rest, tot, isStart))
      decreases tot
    {
      ghost var fs := ChunkFrames(buf[..], layer, rest, tot, isStart);
      ghost var final := Completion(buf[..], layer, rest, tot, isStart);
      var l := PrepareChunk(buf, rest, tot, isStart, layer);
      rest := rest[l..];
      tot := tot - l;
      isStart := false;
      err := WriteChunk(dev, buf[..], fs, final);
      if err.Some? {
        return;
      }
    }
    assert ChunkFrames(buf[..], layer, rest, tot, isStart) == [];
    assert Completion(buf[..], layer, rest, tot, isStart) == LayerMessage(buf[..], Complete, layer, 0, []);
    err := SendCompletion(dev, buf, layer);
  }

  /** The end of sendSegmented: the COMPLETE frame, whose write error is ignored and whose reply must be an ACK. */
  method SendCompletion(dev: Device, buf: array<byte>, layer: byte) returns (err: Option<KbpError>)
    requires buf.Length == FrameSize
    modifies dev, buf
    ensures Outcome(dev.State(), err) == Exchange(old(dev.State()), [], LayerMessage(old(buf[..]), Complete, layer, 0, []))
  {
    PrepareCompleteMessage(buf, layer);
    var _ := dev.Write(buf[..]);
    var response := HandleAckOrNack(dev);
    if response.None? {
      return Some(TransferAborted);
    }
    return None;
  }

  // ---------------------------------------------------------------------
  // Single-frame requests.

  /** The HID bus as the host finds it: the interfaces hid.Enumerate reports, and whether hid.OpenPath succeeds. */
  datatype Bus = Bus(enumerated: seq<HidInfo>, openOk: bool)

  /** The outcome of SendRaw: the device afterwards, the ACK reply, and the error returned. */
  datatype RawOutcome = RawOutcome(link: Link, response: Option<Report>, err: Option<KbpError>)

  /** SendRaw: open the device, write the frame and read one reply, which must be an ACK. */
  function Raw(l: Link, open: Opened, frame: seq<byte>): (r: RawOutcome)
    ensures r.err.None? <==> open.Opened? && !WriteFails(l) && ReadAcks(l, 0)
    ensures r.response.Some? <==> r.err.None?
  {
    if open.OpenFailed? then RawOutcome(l, None, Some(open.err))
    else
      var l1 := AfterWrite(l, frame);
      if WriteFails(l) then RawOutcome(l1, None, Some(DeviceError))
      else
        var response := AckOrNack(NextReply(l1));
        RawOutcome(AfterRead(l1), response, if response.None? then Some(TransferAborted) else None)
  }

  /** SendRaw. */
  method SendRaw(device: DeviceInfo, bus: Bus, dev: Device, data: seq<byte>) returns (response: Option<Report>, err: Option<KbpError>)
    modifies dev
    ensures RawOutcome(dev.State(), response, err) == Raw(old(dev.State()), OpenOutcome(device, bus.enumerated, bus.openOk), data)
  {
    var open := OpenDevice(device, bus.enumerated, bus.openOk);
    if open.OpenFailed? {
      return None, Some(open.err);
    }
    var failed := dev.Write(data);
    if failed {
      return None, Some(DeviceError);
    }
    response := HandleAckOrNack(dev);
    err := if response.None? then Some(TransferAborted) else None;
  }

  /** sendCommand: SendRaw, keeping only the error. */
  method SendCommand(device: DeviceInfo, bus: Bus, dev: Device, buffer: array<byte>) returns (err: Option<KbpError>)
    modifies dev
    ensures var r := Raw(old(dev.State()), OpenOutcome(device, bus.enumerated, bus.openOk), old(buffer[..]));
            dev.State() == r.link && err == r.err
  {
    var _, e := SendRaw(device, bus, dev, buffer[..]);
    return e;
  }

  /** SendLayerReset: an OLED_RESET request. */
  method SendLayerReset(device: DeviceInfo, bus: Bus, dev: Device) returns (err: Option<KbpError>)
    modifies dev
    ensures var r := Raw(old(dev.State()), OpenOutcome(device, bus.enumerated, bus.openOk), ResetRequest);
            dev.State() == r.link && err == r.err
  {
    var buffer := new byte[FrameSize](_ => 0);
    assert buffer[..] == Blank;
    PrepareMessage(buffer, OledReset, []);
    err := SendCommand(device, bus, dev, buffer);
  }

  /** SendOledState: an OLED_ON or OLED_OFF request. */
  method SendOledState(device: DeviceInfo, bus: Bus, dev: Device, on: bool) returns (err: Option<KbpError>)
    modifies dev
    ensures var r := Raw(old(dev.State()), OpenOutcome(device, bus.enumerated, bus.openOk), OledStateRequest(on));
            dev.State() == r.link && err == r.err
  {
    var buffer := new byte[FrameSize](_ => 0);
    assert buffer[..] == Blank;
    var cmd := OledOff;
    if on {
      cmd := OledOn;
    }
    PrepareMessage(buffer, cmd, []);
    err := SendCommand(device, bus, dev, buffer);
  }

  /** SendHello: a HELLO request; the greeting in the reply is only displayed. */
  method SendHello(device: DeviceInfo, bus: Bus, dev: Device) returns (err: Option<KbpError>)
    modifies dev
    ensures var r := Raw(old(dev.State()), OpenOutcome(device, bus.enumerated, bus.openOk), HelloRequest);
            dev.State() == r.link && err == r.err
  {
    var buffer := new byte[FrameSize](_ => 0);
    assert buffer[..] == Blank;
    PrepareMessage(buffer, Hello, []);
    var _, e := SendRaw(device, bus, dev, buffer[..]);
    return e;
  }

  /** SendEcho: an ECHO request with the whole text, which the copy truncates to 29 bytes. */
  method SendEcho(device: DeviceInfo, bus: Bus, dev: Device, txt: seq<byte>) returns (err: Option<KbpError>)
    modifies dev
    ensures var r := Raw(old(dev.State()), OpenOutcome(device, bus.enumerated, bus.openOk), EchoRequest(txt));
            dev.State() == r.link && err == r.err
  {
    var buffer := new byte[FrameSize](_ => 0);
    assert buffer[..] == Blank;
    PrepareMessage(buffer, Echo, txt);
    var _, e := SendRaw(device, bus, dev, buffer[..]);
    return e;
  }

  /** SendLayerUpdate: open the device, then send the text segmented. */
  method SendLayerUpdate(device: DeviceInfo, bus: Bus, dev: Device, layer: byte, txt: seq<byte>) returns (err: Option<KbpError>)
    modifies dev
    ensures var open := OpenOutcome(device, bus.enumerated, bus.openOk);
            (open.OpenFailed? ==> err == Some(open.err) && dev.State() == old(dev.State())) &&
            (open.Opened? ==> Outcome(dev.State(), err) == Segmented(old(dev.State()), layer, txt))
  {
    var open := OpenDevice(device, bus.enumerated, bus.openOk);
    if open.OpenFailed? {
      return Some(open.err);
    }
    err := SendSegmented(dev, OledUpdate, layer, txt);
  }
}
