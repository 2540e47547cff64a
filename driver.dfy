/** The driver as a transition system: a snapshot of everything the
    `GreeAC` component holds, and one pure function per operation of
    gree_ac.cpp saying what that operation does to the snapshot. The class in
    gree_ac.dfy is proved to follow these functions; the lemmas in the
    *_proofs.dfy files state the protocol's properties about them. */
module Driver {
  import opened Wire
  import opened Protocol
  import opened ChecksumUnit

  datatype Session = Initializing | Ready

  datatype SerialState = WaitSync | Receive | Complete

  /** Everything the component holds: session, reassembler, the two buffers,
      the host-facing climate state, diagnostic counters, timestamps, the
      health flag, and `written`, the frames handed to the serial port. */
  datatype DriverState = DriverState(
    session: Session,
    failed: bool,
    serialState: SerialState,
    rxIndex: nat,
    rx: seq<byte>,
    tx: seq<byte>,
    climate: Climate,
    checksumErrors: nat,
    invalidPacketErrors: nat,
    packetsReceived: nat,
    packetsSent: nat,
    lastPacketReceived: uint32,
    lastPacketSent: uint32,
    lastHandshakeAttempt: uint32,
    written: seq<seq<byte>>)

  /** The buffers have their fixed capacities and the receive index stays
      within the receive buffer. */
  ghost predicate WellFormed(c: Config, d: DriverState) {
    && c.Valid()
    && |d.rx| == c.rxBufferSize
    && |d.tx| == c.txBufferSize
    && d.rxIndex <= c.rxBufferSize
  }

  /** `rx_index_ >= 3 && rx_index_ >= 3 + rx_buffer_[2]`: the length byte
      has arrived and the whole frame it announces is buffered. */
  predicate FrameComplete(rx: seq<byte>, rxIndex: nat)
    requires rxIndex <= |rx|
    ensures rxIndex < 3 ==> !FrameComplete(rx, rxIndex)
    ensures FrameComplete(rx, rxIndex) ==> 3 + rx[2] as int <= rxIndex
    ensures rxIndex >= 3 && !FrameComplete(rx, rxIndex) ==> rxIndex < 3 + rx[2] as int
  {
    rxIndex >= 3 && rxIndex >= 3 + rx[2] as int
  }

  /** The reassembler's invariant: while waiting for sync nothing is
      buffered; while receiving, the buffer starts with the start byte and
      does not yet hold a complete frame. */
  ghost predicate ReassemblerInv(c: Config, d: DriverState) {
    && WellFormed(c, d)
    && (d.serialState == WaitSync ==> d.rxIndex == 0)
    && (d.serialState == Receive ==>
          1 <= d.rxIndex && d.rx[0] == c.startByte && !FrameComplete(d.rx, d.rxIndex))
  }

  // ---------------------------------------------------------------------
  // Frame validator (gree_ac.cpp:359-384)

  datatype Verdict = TooSmall | WrongType | BadChecksum | Accepted

  /** What `verify_packet_` concludes about the first `size` bytes of `data` */
  function Classify(c: Config, data: seq<byte>, size: nat): (v: Verdict)
    requires size <= |data|
    ensures v == Accepted <==>
              size >= 4 && data[3] == c.cmdInUnitReport && data[size - 1] == Checksum(data, size)
  {
    if size < 4 then TooSmall
    else if data[3] != c.cmdInUnitReport then WrongType
    else if data[size - 1] != Checksum(data, size) then BadChecksum
    else Accepted
  }

  /** The counter `verify_packet_` increments for a verdict */
  function CountVerdict(d: DriverState, v: Verdict): (r: DriverState)
    ensures v == Accepted ==> r == d
    ensures v != Accepted ==>
              r.checksumErrors + r.invalidPacketErrors == d.checksumErrors + d.invalidPacketErrors + 1
    ensures r.(checksumErrors := d.checksumErrors, invalidPacketErrors := d.invalidPacketErrors) == d
  {
    match v
    case TooSmall => d.(invalidPacketErrors := d.invalidPacketErrors + 1)
    case WrongType => d.(invalidPacketErrors := d.invalidPacketErrors + 1)
    case BadChecksum => d.(checksumErrors := d.checksumErrors + 1)
    case Accepted => d
  }

  // ---------------------------------------------------------------------
  // State codec: decode (gree_ac.cpp:402-543)

  /** `temp_raw / 16.0f + MIN_TEMPERATURE`, kept when within
      [MIN_TEMPERATURE, MAX_TEMPERATURE], in sixteenths of a degree */
  function DecodeTarget(c: Config, raw: byte, prior: int): (t: int)
    ensures t == prior || (t == 16 * c.minTemperature + raw && t <= 16 * c.maxTemperature)
  {
    var t := 16 * c.minTemperature + raw;
    if 16 * c.minTemperature <= t <= 16 * c.maxTemperature then t else prior
  }

  /** `static_cast<int8_t>(raw) - 40.0f`, kept when within [-10, 50] */
  function DecodeIndoor(raw: byte, prior: Option<int>): (t: Option<int>)
    ensures t == prior || (t.Some? && -10 <= t.value <= 50)
  {
    var t := SignedByte(raw) - 40;
    if -10 <= t <= 50 then Some(t) else prior
  }

  /** The least frame size `parse_state_packet_` decodes:
      `MIN_PACKET_SIZE + 1` with `MIN_PACKET_SIZE = sizeof(gree_header_t) + 1` */
  function MinParseSize(c: Config): (n: nat)
    ensures n - c.headerSize == 2
    ensures c.Valid() ==> n <= 255
  {
    c.headerSize + 2
  }

  /** The field decoding of `parse_state_packet_` (433-542), for a report
      of more than `TemperatureByte` bytes: decodes the climate state, echoes
      the mode, temperature and swing bytes into the command buffer and counts
      the report. */
  function DecodeReport(c: Config, d: DriverState, data: seq<byte>, size: nat): (r: DriverState)
    requires c.Valid() && |d.tx| == c.txBufferSize && TemperatureByte < size <= |data|
    ensures |r.tx| == |d.tx|
  {
    var cl := d.climate;
    var modeByte := data[ModeByte];
    var current :=
      if size > IndoorTempByte then DecodeIndoor(data[IndoorTempByte], cl.currentTemperature)
      else cl.currentTemperature;
    var swing :=
      if size > SwingByte then SwingOfCode(c, data[SwingByte]).GetOr(cl.swingMode)
      else cl.swingMode;
    var preset :=
      if size > PresetByte then PresetOfCode(c, data[PresetByte]) else PresetNone;
    var climate := Climate(
      ModeOfCode(c, HighNibble(modeByte)).GetOr(cl.mode),
      FanOfCode(c, LowNibble(modeByte)).GetOr(cl.fanMode),
      DecodeTarget(c, data[TemperatureByte], cl.targetTemperature),
      current,
      preset,
      swing);
    var tx := d.tx[ModeByte := modeByte][TemperatureByte := data[TemperatureByte]];
    var tx' := if size > SwingByte then tx[SwingByte := data[SwingByte]] else tx;
    d.(climate := climate, tx := tx', packetsReceived := d.packetsReceived + 1)
  }

  /** `parse_state_packet_`: ignores a frame too short for the header, then
      repeats the validator's checksum and type checks, then decodes a frame
      that reaches the temperature byte. */
  function Parse(c: Config, d: DriverState, data: seq<byte>, size: nat): (r: DriverState)
    requires c.Valid() && |d.tx| == c.txBufferSize && size <= |data|
    ensures |r.tx| == |d.tx|
  {
    if size < MinParseSize(c) then d
    else if data[size - 1] != Checksum(data, size) then
      d.(checksumErrors := d.checksumErrors + 1)
    else if size <= 3 || data[3] != c.cmdInUnitReport then
      d.(invalidPacketErrors := d.invalidPacketErrors + 1)
    else if size <= TemperatureByte then d
    else DecodeReport(c, d, data, size)
  }

  /** `handle_packet_`: decode, then the session is READY whatever the decode did */
  function Handle(c: Config, d: DriverState, data: seq<byte>, size: nat): (r: DriverState)
    requires c.Valid() && |d.tx| == c.txBufferSize && size <= |data|
    ensures r.session == Ready
  {
    Parse(c, d, data, size).(session := Ready)
  }

  // ---------------------------------------------------------------------
  // Transmission (gree_ac.cpp:545-558, and 273-280 inside `control`)

  /** `min(3 + tx_buffer_[2], GREE_TX_BUFFER_SIZE)` */
  function FrameSize(c: Config, tx: seq<byte>): (size: nat)
    requires c.Valid() && |tx| == c.txBufferSize
    ensures 3 <= size <= |tx| && size <= 3 + tx[2] as int
    ensures size == 3 + tx[2] as int || size == |tx|
    ensures size <= 255
  {
    if 3 + tx[2] as int > c.txBufferSize then c.txBufferSize else 3 + tx[2] as int
  }

  /** `send_packet_`: writes the checksum into the last byte of the frame,
      hands the frame to the serial port and counts it. */
  function Transmit(c: Config, d: DriverState, now: uint32): (r: DriverState)
    requires c.Valid() && |d.tx| == c.txBufferSize
    ensures |r.tx| == |d.tx| && |r.written| == |d.written| + 1
  {
    var size := FrameSize(c, d.tx);
    var tx := d.tx[size - 1 := Checksum(d.tx, size)];
    d.(tx := tx, written := d.written + [tx[..size]],
       packetsSent := d.packetsSent + 1, lastPacketSent := now)
  }

  // ---------------------------------------------------------------------
  // State codec: encode (`control`, gree_ac.cpp:138-285)

  /** The mode and fan codes after the mode request (156-182): a DRY
      request also selects the LOW fan; a mode the unit lacks keeps both. */
  function ApplyModeRequest(c: Config, m: Option<ClimateMode>, mode: byte, fan: byte): (r: (byte, byte))
    requires c.Valid() && mode % 16 == 0 && fan < 16
    ensures r.0 % 16 == 0 && r.1 < 16
  {
    match m
    case None => (mode, fan)
    case Some(mm) =>
      match ModeCode(c, mm)
      case None => (mode, fan)
      case Some(code) => (code, if mm == Dry then c.fanLow else fan)
  }

  /** The fan code after the fan request (185-204) */
  function ApplyFanRequest(c: Config, f: Option<FanMode>, fan: byte): (r: byte)
    requires c.Valid() && fan < 16
    ensures r < 16
  {
    match f
    case None => fan
    case Some(ff) => FanCode(c, ff).GetOr(fan)
  }

  /** DRY runs only with the LOW fan (207-209) */
  function EnforceDryFan(c: Config, mode: byte, fan: byte): (r: byte)
    requires c.Valid() && fan < 16
    ensures r < 16
    ensures mode == c.modeDry ==> r == c.fanLow
    ensures mode != c.modeDry ==> r == fan
  {
    if mode == c.modeDry && fan != c.fanLow then c.fanLow else fan
  }

  /** The preset byte after the preset request (212-232) */
  function ApplyPresetRequest(c: Config, p: Option<Preset>, mode: byte, tx: seq<byte>): (r: seq<byte>)
    requires PresetByte < |tx|
    ensures |r| == |tx|
  {
    match p
    case None => tx
    case Some(pp) =>
      match PresetCode(c, pp, mode)
      case None => tx
      case Some(b) => tx[PresetByte := b]
  }

  /** A target temperature request in sixteenths of a degree is taken when
      within [MIN_TEMPERATURE, MAX_TEMPERATURE] (237). */
  predicate TargetInRange(c: Config, t: int)
    ensures c.Valid() && TargetInRange(c, t) ==> 0 <= t - 16 * c.minTemperature <= 255
  {
    16 * c.minTemperature <= t <= 16 * c.maxTemperature
  }

  /** The host mode after `control`, corrected: the mode the decode table
      gives for the resolved mode code, kept when that code is unknown. The
      source casts the code itself into the host enumeration instead; see
      `Findings.ControlHostModeAsWritten`. */
  function ControlHostMode(c: Config, modeCode: byte, prior: ClimateMode): (m: ClimateMode)
    requires c.Valid()
    ensures ModeOfCode(c, modeCode).Some? ==> ModeCode(c, m) == Some(modeCode)
    ensures ModeOfCode(c, modeCode).None? ==> m == prior
  {
    ModeOfCode(c, modeCode).GetOr(prior)
  }

  /** The command buffer and climate state `control` has assembled before it
      transmits (146-270). */
  function Assemble(c: Config, d: DriverState, intent: Intent): (r: DriverState)
    requires c.Valid() && |d.tx| == c.txBufferSize
    ensures |r.tx| == |d.tx|
  {
    var tx0 := d.tx[ForceUpdateByte := ForceUpdateValue][DisplayByte := DisplayShowTemp];
    var mf := ApplyModeRequest(c, intent.mode, HighNibble(tx0[ModeByte]), LowNibble(tx0[ModeByte]));
    var mode := mf.0;
    var fan := EnforceDryFan(c, mode, ApplyFanRequest(c, intent.fanMode, mf.1));
    var tx1 := ApplyPresetRequest(c, intent.preset, mode, tx0);
    var takeTarget := intent.targetTemperature.Some? && TargetInRange(c, intent.targetTemperature.value);
    var tx2 :=
      if takeTarget then tx1[TemperatureByte := intent.targetTemperature.value - 16 * c.minTemperature]
      else tx1;
    var tx3 :=
      if intent.swingMode.Some? then tx2[SwingByte := SwingCode(c, intent.swingMode.value)] else tx2;
    var tx4 := tx3[ModeByte := Pack(mode, fan)];
    var cl := d.climate;
    var climate := cl.(
      mode := ControlHostMode(c, mode, cl.mode),
      targetTemperature := if takeTarget then intent.targetTemperature.value else cl.targetTemperature,
      swingMode := intent.swingMode.GetOr(cl.swingMode));
    d.(tx := tx4, climate := climate)
  }

  /** `control`: ignored unless READY; otherwise merges the request into the
      command buffer, transmits it, and puts the force-update byte back to
      its passive value. */
  function Control(c: Config, d: DriverState, intent: Intent, now: uint32): (r: DriverState)
    requires c.Valid() && |d.tx| == c.txBufferSize
    ensures |r.tx| == |d.tx|
  {
    if d.session != Ready then d
    else
      var sent := Transmit(c, Assemble(c, d, intent), now);
      sent.(tx := sent.tx[ForceUpdateByte := 0])
  }

  // ---------------------------------------------------------------------
  // Frame reassembler (`read_uart_data_`, gree_ac.cpp:287-335)

  /** A complete frame of `size` bytes is in the receive buffer: validate it,
      hand it on when valid, and go back to waiting for sync either way. */
  function Deliver(c: Config, d: DriverState, size: nat): (r: DriverState)
    requires c.Valid() && |d.tx| == c.txBufferSize && size <= |d.rx|
    ensures r.serialState == WaitSync && r.rxIndex == 0
    ensures r.rx == d.rx && |r.tx| == |d.tx|
  {
    var v := Classify(c, d.rx, size);
    var counted := CountVerdict(d, v);
    var handled := if v == Accepted then Handle(c, counted, counted.rx, size) else counted;
    handled.(serialState := WaitSync, rxIndex := 0)
  }

  /** A byte while receiving: buffer it and deliver the frame once it is
      complete; on a full buffer drop the partial frame and resynchronise. */
  function ReceiveStep(c: Config, d: DriverState, b: byte): (r: DriverState)
    requires WellFormed(c, d)
    ensures WellFormed(c, r)
  {
    if d.rxIndex < c.rxBufferSize then
      var buffered := d.(rx := d.rx[d.rxIndex := b], rxIndex := d.rxIndex + 1);
      if FrameComplete(buffered.rx, buffered.rxIndex) then Deliver(c, buffered, 3 + buffered.rx[2] as int)
      else buffered
    else d.(serialState := WaitSync, rxIndex := 0)
  }

  /** One pass of the `while (available())` loop, for the byte `b` read at `now` */
  function RxStep(c: Config, d: DriverState, b: byte, now: uint32): (r: DriverState)
    requires WellFormed(c, d)
    ensures WellFormed(c, r)
    ensures r.lastPacketReceived == now
  {
    var d' :=
      match d.serialState
      case WaitSync =>
        if b == c.startByte then d.(rx := d.rx[0 := b], rxIndex := 1, serialState := Receive)
        else d
      case Receive => ReceiveStep(c, d, b)
      case Complete => d.(serialState := WaitSync, rxIndex := 0);
    d'.(lastPacketReceived := now)
  }

  /** `read_uart_data_` over the bytes available in one call */
  function Feed(c: Config, d: DriverState, input: seq<byte>, now: uint32): (r: DriverState)
    requires WellFormed(c, d)
    ensures WellFormed(c, r)
    ensures input != [] ==> r.lastPacketReceived == now
    decreases |input|
  {
    if input == [] then d
    else RxStep(c, Feed(c, d, input[..|input| - 1], now), input[|input| - 1], now)
  }

  // ---------------------------------------------------------------------
  // Session state machine (gree_ac.cpp:44-72)

  /** `loop`: drain the serial input, retry the handshake while
      INITIALIZING, and demote a silent READY link. */
  function Loop(c: Config, d: DriverState, input: seq<byte>, now: uint32): (r: DriverState)
    requires WellFormed(c, d)
    ensures WellFormed(c, r)
  {
    var received := Feed(c, d, input, now);
    var retried :=
      if received.session == Initializing
         && Elapsed(now, received.lastHandshakeAttempt) >= c.handshakeRetryIntervalMs
      then Transmit(c, received.(lastHandshakeAttempt := now), now)
      else received;
    if retried.session == Ready && Elapsed(now, retried.lastPacketReceived) >= c.packetTimeoutMs
    then retried.(session := Initializing, failed := true)
    else retried
  }

  /** `update`: the periodic retransmission, only while READY */
  function Update(c: Config, d: DriverState, now: uint32): (r: DriverState)
    requires c.Valid() && |d.tx| == c.txBufferSize
    ensures |r.tx| == |d.tx|
  {
    if d.session == Ready then Transmit(c, d, now) else d
  }
}
