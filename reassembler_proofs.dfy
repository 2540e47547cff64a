/** Properties of the frame reassembler (`read_uart_data_`,
    gree_ac.cpp:287-335): bounds, resynchronisation, completion, and what a
    whole byte stream does. */
module ReassemblerProofs {
  import opened Wire
  import opened Protocol
  import opened ChecksumUnit
  import opened Driver
  import opened CodecProofs

  /** Every byte keeps the reassembler's invariant */
  lemma RxStepKeepsInvariant(c: Config, d: DriverState, b: byte, now: uint32)
    requires ReassemblerInv(c, d)
    ensures ReassemblerInv(c, RxStep(c, d, b, now))
  {
  }

  /** Any byte stream keeps the reassembler's invariant; in particular the
      receive index never exceeds the buffer capacity. */
  lemma {:induction false} FeedKeepsInvariant(c: Config, d: DriverState, input: seq<byte>, now: uint32)
    requires ReassemblerInv(c, d)
    ensures ReassemblerInv(c, Feed(c, d, input, now))
    ensures Feed(c, d, input, now).rxIndex <= c.rxBufferSize
    decreases |input|
  {
    if input != [] {
      FeedKeepsInvariant(c, d, input[..|input| - 1], now);
      RxStepKeepsInvariant(c, Feed(c, d, input[..|input| - 1], now), input[|input| - 1], now);
    }
  }

  /** In WAIT_SYNC any byte but the start byte is ignored, apart from the
      receive timestamp */
  lemma NoiseIgnored(c: Config, d: DriverState, b: byte, now: uint32)
    requires WellFormed(c, d) && d.serialState == WaitSync && b != c.startByte
    ensures RxStep(c, d, b, now) == d.(lastPacketReceived := now)
  {
  }

  /** The start byte is stored at index 0 and starts a frame */
  lemma StartByteSyncs(c: Config, d: DriverState, now: uint32)
    requires WellFormed(c, d) && d.serialState == WaitSync
    ensures RxStep(c, d, c.startByte, now) ==
              d.(rx := d.rx[0 := c.startByte], rxIndex := 1, serialState := Receive, lastPacketReceived := now)
  {
  }

  /** A byte that finds the receive buffer full is dropped together with the
      partial frame, and the reassembler waits for sync again. */
  lemma OverflowResets(c: Config, d: DriverState, b: byte, now: uint32)
    requires WellFormed(c, d) && d.serialState == Receive && d.rxIndex == c.rxBufferSize
    ensures RxStep(c, d, b, now) == d.(serialState := WaitSync, rxIndex := 0, lastPacketReceived := now)
  {
  }

  /** COMPLETE (never entered by the reassembler itself) falls back to
      WAIT_SYNC, dropping the byte */
  lemma CompleteResets(c: Config, d: DriverState, b: byte, now: uint32)
    requires WellFormed(c, d) && d.serialState == Complete
    ensures RxStep(c, d, b, now) == d.(serialState := WaitSync, rxIndex := 0, lastPacketReceived := now)
  {
  }

  /** Reading a stream in two pieces is reading it at once */
  lemma {:induction false} FeedAppend(c: Config, d: DriverState, a: seq<byte>, b: seq<byte>, now: uint32)
    requires WellFormed(c, d)
    ensures Feed(c, d, a + b, now) == Feed(c, Feed(c, d, a, now), b, now)
    decreases |b|
  {
    if b == [] {
      assert a + b == a;
    } else {
      assert (a + b)[..|a + b| - 1] == a + b[..|b| - 1];
      FeedAppend(c, d, a, b[..|b| - 1], now);
    }
  }

  /** A stream without the start byte, read while waiting for sync, changes
      nothing but the receive timestamp. */
  lemma {:induction false} FeedNoise(c: Config, d: DriverState, noise: seq<byte>, now: uint32)
    requires WellFormed(c, d) && d.serialState == WaitSync
    requires forall i :: 0 <= i < |noise| ==> noise[i] != c.startByte
    ensures Feed(c, d, noise, now) == if noise == [] then d else d.(lastPacketReceived := now)
    decreases |noise|
  {
    if noise != [] {
      FeedNoise(c, d, noise[..|noise| - 1], now);
    }
  }

  /** The reassembler part-way through `frame`: its first `k` bytes are
      buffered, the rest of the receive buffer is as before. */
  ghost function Receiving(d: DriverState, frame: seq<byte>, k: nat, now: uint32): DriverState
    requires k <= |frame| && k <= |d.rx|
  {
    d.(rx := frame[..k] + d.rx[k..], rxIndex := k, serialState := Receive, lastPacketReceived := now)
  }

  /** A frame is well-sized when it starts with the start byte, its length
      byte accounts for every byte after the first three, and it fits the
      receive buffer. */
  ghost predicate WellSizedFrame(c: Config, frame: seq<byte>) {
    && 3 <= |frame| <= c.rxBufferSize
    && frame[0] == c.startByte
    && |frame| == 3 + frame[2] as int
  }

  /** A byte of a well-sized frame other than its last one is buffered
      after those before it, and the frame is not yet complete. */
  lemma BufferFrameByte(c: Config, d: DriverState, frame: seq<byte>, k: nat, now: uint32)
    requires WellFormed(c, d) && WellSizedFrame(c, frame)
    requires 2 <= k < |frame|
    ensures RxStep(c, Receiving(d, frame, k - 1, now), frame[k - 1], now) == Receiving(d, frame, k, now)
  {
    var p := Receiving(d, frame, k - 1, now);
    var buffered := p.(rx := p.rx[k - 1 := frame[k - 1]], rxIndex := k);
    assert buffered.rx == frame[..k] + d.rx[k..];
    if k >= 3 {
      assert buffered.rx[2] == frame[2];
    }
    assert !FrameComplete(buffered.rx, buffered.rxIndex);
    assert ReceiveStep(c, p, frame[k - 1]) == buffered;
  }

  /** Every proper prefix of a well-sized frame, read while waiting for
      sync, is buffered and leaves the reassembler receiving. */
  lemma {:induction false} FeedFramePrefix(c: Config, d: DriverState, frame: seq<byte>, k: nat, now: uint32)
    requires WellFormed(c, d) && d.serialState == WaitSync && WellSizedFrame(c, frame)
    requires 1 <= k < |frame|
    ensures Feed(c, d, frame[..k], now) == Receiving(d, frame, k, now)
    decreases k
  {
    if k == 1 {
      assert frame[..1][..0] == [];
      assert d.rx[0 := frame[0]] == frame[..1] + d.rx[1..];
      assert Feed(c, d, frame[..1], now) == RxStep(c, d, frame[0], now);
    } else {
      assert frame[..k][..k - 1] == frame[..k - 1];
      FeedFramePrefix(c, d, frame, k - 1, now);
      BufferFrameByte(c, d, frame, k, now);
    }
  }

  /** A well-sized frame, read while waiting for sync, is delivered exactly
      once, as the frame in the receive buffer, and the reassembler waits
      for sync again. */
  lemma FeedFrame(c: Config, d: DriverState, frame: seq<byte>, now: uint32)
    requires WellFormed(c, d) && d.serialState == WaitSync && WellSizedFrame(c, frame)
    ensures Feed(c, d, frame, now) ==
              Deliver(c, Receiving(d, frame, |frame|, now), |frame|).(lastPacketReceived := now)
  {
    var k := |frame| - 1;
    FeedFramePrefix(c, d, frame, k, now);
    assert frame[..k] + [frame[k]] == frame;
    FrameLastByte(c, d, frame, now);
  }

  /** The last byte of a well-sized frame completes it: the buffered frame
      is delivered. */
  lemma FrameLastByte(c: Config, d: DriverState, frame: seq<byte>, now: uint32)
    requires WellFormed(c, d) && WellSizedFrame(c, frame)
    ensures var k := |frame| - 1;
      RxStep(c, Receiving(d, frame, k, now), frame[k], now) ==
        Deliver(c, Receiving(d, frame, |frame|, now), |frame|).(lastPacketReceived := now)
  {
    var k := |frame| - 1;
    assert frame[..|frame|][..k] == frame[..k];
    assert frame[..|frame|] == frame;
    var p := Receiving(d, frame, k, now);
    assert p.rx[k := frame[k]] == frame[..|frame|] + d.rx[|frame|..];
    assert (frame + d.rx[|frame|..])[2] == frame[2];
  }

  /** A frame is oversized when it starts with the start byte and its
      length byte announces more bytes than the receive buffer holds; here
      it runs one byte past the buffer. */
  ghost predicate OversizedFrame(c: Config, frame: seq<byte>) {
    && c.Valid()
    && |frame| == c.rxBufferSize + 1
    && frame[0] == c.startByte
    && 3 + frame[2] as int > c.rxBufferSize
  }

  /** Every byte of an oversized frame up to the buffer's capacity is
      buffered, and the frame never looks complete. */
  lemma {:induction false} FeedOversizedPrefix(c: Config, d: DriverState, frame: seq<byte>, k: nat, now: uint32)
    requires WellFormed(c, d) && d.serialState == WaitSync && OversizedFrame(c, frame)
    requires 1 <= k <= c.rxBufferSize
    ensures Feed(c, d, frame[..k], now) == Receiving(d, frame, k, now)
    decreases k
  {
    if k == 1 {
      assert frame[..1][..0] == [];
      assert d.rx[0 := frame[0]] == frame[..1] + d.rx[1..];
      assert Feed(c, d, frame[..1], now) == RxStep(c, d, frame[0], now);
    } else {
      assert frame[..k][..k - 1] == frame[..k - 1];
      FeedOversizedPrefix(c, d, frame, k - 1, now);
      BufferOversizedByte(c, d, frame, k, now);
    }
  }

  /** A byte of an oversized frame that still fits the buffer is buffered
      after those before it, and the frame is not complete. */
  lemma BufferOversizedByte(c: Config, d: DriverState, frame: seq<byte>, k: nat, now: uint32)
    requires WellFormed(c, d) && OversizedFrame(c, frame)
    requires 2 <= k <= c.rxBufferSize
    ensures RxStep(c, Receiving(d, frame, k - 1, now), frame[k - 1], now) == Receiving(d, frame, k, now)
  {
    var p := Receiving(d, frame, k - 1, now);
    var buffered := p.(rx := p.rx[k - 1 := frame[k - 1]], rxIndex := k);
    assert buffered.rx == frame[..k] + d.rx[k..];
    if k >= 3 {
      assert buffered.rx[2] == frame[2];
    }
    assert !FrameComplete(buffered.rx, buffered.rxIndex);
    assert ReceiveStep(c, p, frame[k - 1]) == buffered;
  }

  /** A frame whose length byte announces more than the receive buffer
      holds never reaches the validator: the byte that finds the buffer full
      resets the reassembler, no error is counted, and the session, the
      climate state and the command buffer are untouched. */
  lemma FeedOversizedFrame(c: Config, d: DriverState, frame: seq<byte>, now: uint32)
    requires WellFormed(c, d) && d.serialState == WaitSync && OversizedFrame(c, frame)
    ensures Feed(c, d, frame, now) ==
              d.(rx := frame[..c.rxBufferSize], rxIndex := 0, serialState := WaitSync, lastPacketReceived := now)
  {
    var n := c.rxBufferSize;
    FeedOversizedPrefix(c, d, frame, n, now);
    assert frame[..n] + [frame[n]] == frame;
    assert frame[..n] + d.rx[n..] == frame[..n];
  }

  /** What `handle_packet_` does to the climate state and the command
      buffer depends on nothing else in the component. */
  lemma HandleIgnoresReassembler(c: Config, d: DriverState, e: DriverState, data: seq<byte>, size: nat)
    requires c.Valid() && |d.tx| == c.txBufferSize && size <= |data|
    requires d.climate == e.climate && d.tx == e.tx
    ensures Handle(c, d, data, size).climate == Handle(c, e, data, size).climate
    ensures Handle(c, d, data, size).tx == Handle(c, e, data, size).tx
  {
    if size >= MinParseSize(c) && data[size - 1] == Checksum(data, size) &&
       size > 3 && data[3] == c.cmdInUnitReport && size > TemperatureByte {
      assert Parse(c, d, data, size) == DecodeReport(c, d, data, size);
      assert Parse(c, e, data, size) == DecodeReport(c, e, data, size);
    }
  }

  /** Delivering a buffered frame: a valid frame is handled as on its own
      and makes the session READY; any other frame changes only the
      diagnostic counters, by exactly one. */
  lemma DeliverOutcome(c: Config, p: DriverState, frame: seq<byte>)
    requires WellFormed(c, p) && |frame| <= |p.rx| && p.rx[..|frame|] == frame
    ensures var r := Deliver(c, p, |frame|);
      && (Classify(c, frame, |frame|) == Accepted ==>
            r.session == Ready &&
            r.climate == Handle(c, p, frame, |frame|).climate && r.tx == Handle(c, p, frame, |frame|).tx)
      && (Classify(c, frame, |frame|) != Accepted ==>
            r.climate == p.climate && r.tx == p.tx && r.session == p.session &&
            r.checksumErrors + r.invalidPacketErrors == p.checksumErrors + p.invalidPacketErrors + 1)
    ensures var r := Deliver(c, p, |frame|);
      && (Classify(c, frame, |frame|) == Accepted ==>
            r.(climate := p.climate, tx := p.tx, session := p.session, packetsReceived := p.packetsReceived,
               serialState := p.serialState, rxIndex := p.rxIndex) == p)
      && (Classify(c, frame, |frame|) != Accepted ==>
            r.(checksumErrors := p.checksumErrors, invalidPacketErrors := p.invalidPacketErrors,
               serialState := p.serialState, rxIndex := p.rxIndex) == p)
  {
    ClassifyReadsFrameOnly(c, p.rx, frame, |frame|);
    if Classify(c, frame, |frame|) == Accepted {
      HandleReadsFrameOnly(c, p, p.rx, frame, |frame|);
    }
  }

  /** A well-sized frame after any noise without the start byte is
      delivered exactly once, as the frame itself: a valid frame is handled
      as on its own and makes the session READY; any other frame changes
      only the diagnostic counters, by exactly one. The reassembler ends
      waiting for sync and the receive timestamp is `now`. */
  lemma FrameAfterNoise(c: Config, d: DriverState, noise: seq<byte>, frame: seq<byte>, now: uint32)
    requires WellFormed(c, d) && d.serialState == WaitSync && WellSizedFrame(c, frame)
    requires forall i :: 0 <= i < |noise| ==> noise[i] != c.startByte
    ensures var r := Feed(c, d, noise + frame, now);
      && r.serialState == WaitSync && r.rxIndex == 0 && r.lastPacketReceived == now
      && r.rx[..|frame|] == frame
      && (Classify(c, frame, |frame|) == Accepted ==>
            r.session == Ready &&
            r.climate == Handle(c, d, frame, |frame|).climate && r.tx == Handle(c, d, frame, |frame|).tx)
      && (Classify(c, frame, |frame|) != Accepted ==>
            r.climate == d.climate && r.tx == d.tx && r.session == d.session &&
            r.checksumErrors + r.invalidPacketErrors == d.checksumErrors + d.invalidPacketErrors + 1)
    ensures var r := Feed(c, d, noise + frame, now);
      Classify(c, frame, |frame|) != Accepted ==>
        r.(checksumErrors := d.checksumErrors, invalidPacketErrors := d.invalidPacketErrors,
           rx := d.rx, rxIndex := d.rxIndex, lastPacketReceived := d.lastPacketReceived) == d
  {
    FeedAppend(c, d, noise, frame, now);
    FeedNoise(c, d, noise, now);
    var d' := Feed(c, d, noise, now);
    FeedFrame(c, d', frame, now);
    var p := Receiving(d', frame, |frame|, now);
    assert p.rx[..|frame|] == frame;
    DeliverOutcome(c, p, frame);
    HandleIgnoresReassembler(c, p, d, frame, |frame|);
  }
}
