/** Properties of the session state machine (`loop`, `update` and
    `handle_packet_`, gree_ac.cpp:44-72 and 337-343): how the link becomes
    READY, when it is demoted, and when frames are sent. */
module SessionProofs {
  import opened Wire
  import opened Protocol
  import opened ChecksumUnit
  import opened Driver
  import opened ControlProofs

  /** Reading a byte sends nothing, touches neither the handshake timer nor
      the health flag, and never demotes a READY session. */
  lemma RxStepNeverSends(c: Config, d: DriverState, b: byte, now: uint32)
    requires WellFormed(c, d)
    ensures var r := RxStep(c, d, b, now);
      && r.written == d.written && r.packetsSent == d.packetsSent
      && r.lastPacketSent == d.lastPacketSent && r.lastHandshakeAttempt == d.lastHandshakeAttempt
      && r.failed == d.failed
      && (d.session == Ready ==> r.session == Ready)
  {
  }

  /** A session becomes READY only when a byte completes a frame that the
      validator accepts. */
  lemma RxStepPromotes(c: Config, d: DriverState, b: byte, now: uint32)
    requires WellFormed(c, d)
    ensures var r := RxStep(c, d, b, now);
      r.session != d.session ==>
        && r.session == Ready
        && d.serialState == Receive && d.rxIndex < c.rxBufferSize
        && FrameComplete(d.rx[d.rxIndex := b], d.rxIndex + 1)
        && Classify(c, d.rx[d.rxIndex := b], 3 + d.rx[d.rxIndex := b][2] as int) == Accepted
  {
  }

  /** Reading a stream sends nothing, touches neither the handshake timer
      nor the health flag, and never demotes a READY session. */
  lemma {:induction false} FeedNeverSends(c: Config, d: DriverState, input: seq<byte>, now: uint32)
    requires WellFormed(c, d)
    ensures var r := Feed(c, d, input, now);
      && r.written == d.written && r.packetsSent == d.packetsSent
      && r.lastPacketSent == d.lastPacketSent && r.lastHandshakeAttempt == d.lastHandshakeAttempt
      && r.failed == d.failed
      && (d.session == Ready ==> r.session == Ready)
    decreases |input|
  {
    if input != [] {
      var prefix := input[..|input| - 1];
      FeedNeverSends(c, d, prefix, now);
      RxStepNeverSends(c, Feed(c, d, prefix, now), input[|input| - 1], now);
    }
  }

  /** The handshake: while INITIALIZING after reading the input, once the
      retry interval has elapsed since the last attempt (in wrapping 32-bit
      milliseconds) the command buffer is sent as one frame with a valid
      checksum and the attempt is timestamped; otherwise nothing is sent. */
  lemma LoopHandshake(c: Config, d: DriverState, input: seq<byte>, now: uint32)
    requires WellFormed(c, d)
    ensures var f := Feed(c, d, input, now); var r := Loop(c, d, input, now);
      && (f.session == Initializing && Elapsed(now, d.lastHandshakeAttempt) >= c.handshakeRetryIntervalMs ==>
            && r.lastHandshakeAttempt == now
            && |r.written| == |d.written| + 1 && r.written[..|d.written|] == d.written
            && |LastFrame(r)| == FrameSize(c, f.tx)
            && LastFrame(r)[..FrameSize(c, f.tx) - 1] == f.tx[..FrameSize(c, f.tx) - 1]
            && LastFrame(r)[|LastFrame(r)| - 1] == Checksum(LastFrame(r), |LastFrame(r)|)
            && r.session == Initializing)
      && (!(f.session == Initializing && Elapsed(now, d.lastHandshakeAttempt) >= c.handshakeRetryIntervalMs) ==>
            r.written == d.written && r.lastHandshakeAttempt == d.lastHandshakeAttempt)
  {
    FeedNeverSends(c, d, input, now);
    var f := Feed(c, d, input, now);
    TransmitFrame(c, f.(lastHandshakeAttempt := now), now);
  }

  /** The receive timeout: a session READY after reading the input is
      demoted to INITIALIZING and marked failed exactly when the timeout has
      elapsed since the last byte was read (in wrapping 32-bit
      milliseconds); a session still INITIALIZING stays so. */
  lemma LoopTimeout(c: Config, d: DriverState, input: seq<byte>, now: uint32)
    requires WellFormed(c, d)
    ensures var f := Feed(c, d, input, now); var r := Loop(c, d, input, now);
      && (f.session == Ready && Elapsed(now, f.lastPacketReceived) >= c.packetTimeoutMs ==>
            r.session == Initializing && r.failed)
      && (f.session == Ready && Elapsed(now, f.lastPacketReceived) < c.packetTimeoutMs ==>
            r.session == Ready && r.failed == d.failed)
      && (f.session == Initializing ==> r.session == Initializing && r.failed == d.failed)
  {
    FeedNeverSends(c, d, input, now);
  }

  /** A READY session that receives any byte in a tick is not demoted in
      that tick (for a positive timeout): the receive timestamp is `now`.
      This rests on the model's single `now` per call: the source reads
      `millis()` again in `loop` after reading the bytes, so there a later
      clock value is compared with the stamp. */
  lemma LoopKeepsReadyWhileReceiving(c: Config, d: DriverState, input: seq<byte>, now: uint32)
    requires WellFormed(c, d) && d.session == Ready && input != [] && c.packetTimeoutMs > 0
    ensures Loop(c, d, input, now).session == Ready
  {
    FeedNeverSends(c, d, input, now);
    LoopTimeout(c, d, input, now);
  }

  /** `update` sends the command buffer as one frame with a valid checksum
      while READY and does nothing otherwise. */
  lemma UpdateSendsOnlyWhenReady(c: Config, d: DriverState, now: uint32)
    requires c.Valid() && |d.tx| == c.txBufferSize
    ensures d.session != Ready ==> Update(c, d, now) == d
    ensures var r := Update(c, d, now);
      d.session == Ready ==>
        && |r.written| == |d.written| + 1 && r.written[..|d.written|] == d.written
        && |LastFrame(r)| == FrameSize(c, d.tx)
        && LastFrame(r)[..FrameSize(c, d.tx) - 1] == d.tx[..FrameSize(c, d.tx) - 1]
        && LastFrame(r)[|LastFrame(r)| - 1] == Checksum(LastFrame(r), |LastFrame(r)|)
        && r.packetsSent == d.packetsSent + 1
  {
    TransmitFrame(c, d, now);
  }
}
