/** The `GreeAC` component of gree_ac.cpp: the object whose methods the host
    calls. Each method changes the fields in place as the source does. The
    methods that stand for a whole source function are proved to move
    `State()` exactly as the matching function of module Driver says; the
    steps of `control` split out below (`AssembleCommand`,
    `ResolveModeAndFan`, `ApplyPreset`, `ApplyTarget`, `ApplySwing`) state
    only the bytes, fields or values they produce. */
module GreeAc {
  import opened Wire
  import opened Protocol
  import opened ChecksumUnit
  import opened Driver
  import opened ReassemblerProofs

  class GreeAC {
    const config: Config
    const rxBuffer: array<byte>
    const txBuffer: array<byte>

    var serialState: SerialState
    var rxIndex: nat
    var state: Session
    /** Set by `mark_failed` on a receive timeout: the health flag */
    var failed: bool

    /** The host-facing climate state the component inherits (`mode`,
        `fan_mode`, `target_temperature`, `current_temperature`, `preset`,
        `swing_mode`) */
    var climate: Climate

    var checksumErrors: nat
    var invalidPacketErrors: nat
    var packetsReceived: nat
    var packetsSent: nat

    var lastPacketReceived: uint32
    var lastPacketSent: uint32
    var lastHandshakeAttempt: uint32

    /** The frames handed to `write_array`, oldest first */
    var written: seq<seq<byte>>

    /** The whole component as a value */
    ghost function State(): DriverState
      reads this, rxBuffer, txBuffer
    {
      DriverState(
        state, failed, serialState, rxIndex, rxBuffer[..], txBuffer[..],
        climate,
        checksumErrors, invalidPacketErrors, packetsReceived, packetsSent,
        lastPacketReceived, lastPacketSent, lastHandshakeAttempt, written)
    }

    /** The constants are valid and the two buffers are distinct arrays of
        their fixed capacities. */
    ghost predicate Buffers()
      reads this
    {
      && config.Valid()
      && rxBuffer.Length == config.rxBufferSize
      && txBuffer.Length == config.txBufferSize
      && rxBuffer != txBuffer
    }

    ghost predicate Valid()
      reads this, rxBuffer, txBuffer
    {
      Buffers() && ReassemblerInv(config, State())
    }

    /** The component as `setup` leaves it: the header's initial command
        buffer and climate state, no session, the reassembler waiting for
        sync, and the timestamps taken at `now`. */
    constructor (c: Config, txInit: seq<byte>, initial: Climate, now: uint32)
      requires c.Valid() && |txInit| == c.txBufferSize
      ensures Valid() && fresh(rxBuffer) && fresh(txBuffer)
      ensures State() == DriverState(
                Initializing, false, WaitSync, 0, rxBuffer[..], txInit, initial,
                0, 0, 0, 0, now, now, now, [])
    {
      config := c;
      rxBuffer := new byte[c.rxBufferSize];
      txBuffer := new byte[c.txBufferSize](i requires 0 <= i < |txInit| => txInit[i]);
      serialState := WaitSync;
      rxIndex := 0;
      state := Initializing;
      failed := false;
      climate := initial;
      checksumErrors, invalidPacketErrors, packetsReceived, packetsSent := 0, 0, 0, 0;
      lastPacketReceived, lastPacketSent, lastHandshakeAttempt := now, now, now;
      written := [];
    }

    /** `verify_packet_` */
    method VerifyPacket(data: array<byte>, size: nat) returns (ok: bool)
      requires size <= data.Length
      modifies this`checksumErrors, this`invalidPacketErrors
      ensures ok <==> Classify(config, data[..], size) == Accepted
      ensures State() == CountVerdict(old(State()), Classify(config, data[..], size))
    {
      if size < 4 {
        invalidPacketErrors := invalidPacketErrors + 1;
        return false;
      }
      if data[3] != config.cmdInUnitReport {
        invalidPacketErrors := invalidPacketErrors + 1;
        return false;
      }
      var receivedCrc := data[size - 1];
      var calculated := CalculateChecksum(data, size);
      if receivedCrc != calculated {
        checksumErrors := checksumErrors + 1;
        return false;
      }
      return true;
    }

    /** `parse_state_packet_` */
    method ParseStatePacket(data: array<byte>, size: nat)
      requires Buffers() && size <= data.Length && data != txBuffer
      modifies this, txBuffer
      ensures State() == Parse(config, old(State()), old(data[..]), size)
    {
      if size < config.headerSize + 2 {
        return;
      }
      var dataCrc := data[size - 1];
      var calculatedCrc := CalculateChecksum(data, size);
      if dataCrc != calculatedCrc {
        checksumErrors := checksumErrors + 1;
        return;
      }
      if size <= 3 || data[3] != config.cmdInUnitReport {
        invalidPacketErrors := invalidPacketErrors + 1;
        return;
      }
      if size <= TemperatureByte {
        return;
      }
      DecodeReportFields(data, size);
    }

    /** The field decoding at the end of `parse_state_packet_` */
    method DecodeReportFields(data: array<byte>, size: nat)
      requires Buffers() && TemperatureByte < size <= data.Length && data != txBuffer
      modifies this, txBuffer
      ensures State() == DecodeReport(config, old(State()), old(data[..]), size)
    {
      var target := DecodeTarget(config, data[TemperatureByte], climate.targetTemperature);
      var current := climate.currentTemperature;
      if size > IndoorTempByte {
        current := DecodeIndoor(data[IndoorTempByte], current);
      }
      txBuffer[ModeByte] := data[ModeByte];
      txBuffer[TemperatureByte] := data[TemperatureByte];
      var modeByte := data[ModeByte];
      var newMode := ModeOfCode(config, HighNibble(modeByte)).GetOr(climate.mode);
      var newFan := FanOfCode(config, LowNibble(modeByte)).GetOr(climate.fanMode);
      var newPreset := if size > PresetByte then PresetOfCode(config, data[PresetByte]) else PresetNone;
      var swing := climate.swingMode;
      if size > SwingByte {
        var swingByte := data[SwingByte];
        swing := SwingOfCode(config, swingByte).GetOr(swing);
        txBuffer[SwingByte] := swingByte;
      }
      climate := Climate(newMode, newFan, target, current, newPreset, swing);
      packetsReceived := packetsReceived + 1;
    }

    /** `handle_packet_` (publishing to the host is not modelled) */
    method HandlePacket(data: array<byte>, size: nat)
      requires Buffers() && size <= data.Length && data != txBuffer
      modifies this, txBuffer
      ensures State() == Handle(config, old(State()), old(data[..]), size)
    {
      ParseStatePacket(data, size);
      state := Ready;
    }

    /** `send_packet_` */
    method SendPacket(now: uint32)
      requires Valid()
      modifies this, txBuffer
      ensures Valid()
      ensures State() == Transmit(config, old(State()), now)
    {
      var dataLength := txBuffer[2];
      var size := 3 + dataLength as int;
      if size > config.txBufferSize {
        size := config.txBufferSize;
      }
      var crc := CalculateChecksum(txBuffer, size);
      txBuffer[size - 1] := crc;
      written := written + [txBuffer[..size]];
      packetsSent := packetsSent + 1;
      lastPacketSent := now;
    }

    /** `control`: the host's command request. Lines 273-279 of the source
        repeat the body of `send_packet_`, so the model calls `SendPacket`. */
    method Control(intent: Intent, now: uint32)
      requires Valid()
      modifies this, txBuffer
      ensures Valid()
      ensures State() == Driver.Control(config, old(State()), intent, now)
    {
      if state != Ready {
        return;
      }
      AssembleCommand(intent);
      SendPacket(now);
      txBuffer[ForceUpdateByte] := 0;
    }

    /** The part of `control` that merges the request into the command
        buffer and the climate state, up to the transmission */
    method AssembleCommand(intent: Intent)
      requires Buffers()
      modifies this`climate, txBuffer
      ensures txBuffer[..] == Assemble(config, old(State()), intent).tx
      ensures climate == Assemble(config, old(State()), intent).climate
    {
      txBuffer[ForceUpdateByte] := ForceUpdateValue;
      txBuffer[DisplayByte] := DisplayShowTemp;
      ghost var tx0 := txBuffer[..];
      var newMode, newFanSpeed := ResolveModeAndFan(intent);
      ApplyPreset(intent.preset, newMode);
      var target := ApplyTarget(intent.targetTemperature);
      var swing := ApplySwing(intent.swingMode);
      txBuffer[ModeByte] := Pack(newMode, newFanSpeed);
      climate := climate.(
        mode := ControlHostMode(config, newMode, climate.mode),
        targetTemperature := target,
        swingMode := swing);
    }

    /** The temperature request of `control` (235-242): a target within
        [MIN, MAX] is written as its offset in sixteenths and returned; any
        other request leaves the buffer alone and returns the current target. */
    method ApplyTarget(t: Option<int>) returns (target: int)
      requires Buffers()
      modifies txBuffer
      ensures t.Some? && TargetInRange(config, t.value) ==>
                target == t.value
                && txBuffer[..] == old(txBuffer[..])[TemperatureByte := t.value - 16 * config.minTemperature]
      ensures !(t.Some? && TargetInRange(config, t.value)) ==>
                target == climate.targetTemperature && txBuffer[..] == old(txBuffer[..])
    {
      target := climate.targetTemperature;
      if t.Some? {
        var targetTemp := t.value;
        if 16 * config.minTemperature <= targetTemp <= 16 * config.maxTemperature {
          txBuffer[TemperatureByte] := targetTemp - 16 * config.minTemperature;
          target := targetTemp;
        }
      }
    }

    /** The swing request of `control` (245-266): the unit's code for the
        requested swing is written and the swing returned; with no request
        the buffer is left alone and the current swing returned. */
    method ApplySwing(s: Option<SwingMode>) returns (swing: SwingMode)
      requires Buffers()
      modifies txBuffer
      ensures swing == s.GetOr(climate.swingMode)
      ensures s.Some? ==> txBuffer[..] == old(txBuffer[..])[SwingByte := SwingCode(config, s.value)]
      ensures s.None? ==> txBuffer[..] == old(txBuffer[..])
    {
      swing := climate.swingMode;
      if s.Some? {
        txBuffer[SwingByte] := SwingCode(config, s.value);
        swing := s.value;
      }
    }

    /** The preset request of `control`: the preset byte for the resolved
        mode, left alone outside COOL and HEAT and for a preset the unit lacks */
    method ApplyPreset(p: Option<Preset>, newMode: byte)
      requires Buffers()
      modifies txBuffer
      ensures txBuffer[..] == ApplyPresetRequest(config, p, newMode, old(txBuffer[..]))
    {
      if p.Some? {
        match PresetCode(config, p.value, newMode) {
          case Some(b) => txBuffer[PresetByte] := b;
          case None =>
        }
      }
    }

    /** The mode and fan codes `control` resolves from the mode byte of the
        command buffer and the request: the mode request (a DRY request also
        selects the LOW fan), then the fan request, then DRY forces LOW. */
    method ResolveModeAndFan(intent: Intent) returns (newMode: byte, newFanSpeed: byte)
      requires Buffers()
      ensures var mf := ApplyModeRequest(config, intent.mode, HighNibble(txBuffer[ModeByte]), LowNibble(txBuffer[ModeByte]));
              newMode == mf.0 && newFanSpeed == EnforceDryFan(config, mf.0, ApplyFanRequest(config, intent.fanMode, mf.1))
    {
      newMode := HighNibble(txBuffer[ModeByte]);
      newFanSpeed := LowNibble(txBuffer[ModeByte]);
      if intent.mode.Some? {
        match ModeCode(config, intent.mode.value) {
          case Some(code) =>
            newMode := code;
            if intent.mode.value == Dry {
              newFanSpeed := config.fanLow;
            }
          case None =>
        }
      }
      if intent.fanMode.Some? {
        match FanCode(config, intent.fanMode.value) {
          case Some(code) => newFanSpeed := code;
          case None =>
        }
      }
      if newMode == config.modeDry && newFanSpeed != config.fanLow {
        newFanSpeed := config.fanLow;
      }
    }

    /** One pass of the loop in `read_uart_data_`, for the byte `b` read at `now` */
    method ReceiveByte(b: byte, now: uint32)
      requires Valid()
      modifies this, rxBuffer, txBuffer
      ensures Valid()
      ensures State() == RxStep(config, old(State()), b, now)
    {
      ghost var before := State();
      match serialState {
        case WaitSync =>
          if b == config.startByte {
            rxBuffer[0] := b;
            rxIndex := 1;
            serialState := Receive;
          }
        case Receive =>
          BufferByte(b);
        case Complete =>
          serialState := WaitSync;
          rxIndex := 0;
      }
      lastPacketReceived := now;
      RxStepKeepsInvariant(config, before, b, now);
    }

    /** A byte while receiving: buffer it and deliver the frame once the
        length byte says it is complete; on a full buffer, resynchronise. */
    method BufferByte(b: byte)
      requires Buffers() && rxIndex <= rxBuffer.Length
      modifies this, rxBuffer, txBuffer
      ensures State() == ReceiveStep(config, old(State()), b)
    {
      if rxIndex < config.rxBufferSize {
        ghost var before := State();
        rxBuffer[rxIndex] := b;
        rxIndex := rxIndex + 1;
        ghost var buffered := before.(rx := before.rx[before.rxIndex := b], rxIndex := before.rxIndex + 1);
        assert State() == buffered;
        if rxIndex >= 3 {
          var dataLength := rxBuffer[2];
          var fullSize := 3 + dataLength as int;
          if rxIndex >= fullSize {
            assert FrameComplete(buffered.rx, buffered.rxIndex);
            DeliverFrame(fullSize);
          } else {
            assert !FrameComplete(buffered.rx, buffered.rxIndex);
          }
        } else {
          assert !FrameComplete(buffered.rx, buffered.rxIndex);
        }
      } else {
        serialState := WaitSync;
        rxIndex := 0;
      }
    }

    /** A complete frame of `size` bytes is in the receive buffer: validate
        it, hand it on when valid, and wait for the next start byte. */
    method DeliverFrame(size: nat)
      requires Buffers() && size <= rxBuffer.Length
      modifies this, txBuffer
      ensures State() == Deliver(config, old(State()), size)
    {
      var ok := VerifyPacket(rxBuffer, size);
      if ok {
        HandlePacket(rxBuffer, size);
      }
      serialState := WaitSync;
      rxIndex := 0;
    }

    /** `read_uart_data_`, for the bytes available at `now` */
    method ReadUartData(input: seq<byte>, now: uint32)
      requires Valid()
      modifies this, rxBuffer, txBuffer
      ensures Valid()
      ensures State() == Feed(config, old(State()), input, now)
    {
      var i := 0;
      while i < |input|
        invariant 0 <= i <= |input|
        invariant Valid()
        invariant State() == Feed(config, old(State()), input[..i], now)
      {
        ReceiveByte(input[i], now);
        assert input[..i + 1][..i] == input[..i];
        i := i + 1;
      }
      assert input[..|input|] == input;
    }

    /** `loop`: one tick of the host's main loop at `now`, with the bytes
        that arrived since the last tick */
    method Loop(input: seq<byte>, now: uint32)
      requires Valid()
      modifies this, rxBuffer, txBuffer
      ensures Valid()
      ensures State() == Driver.Loop(config, old(State()), input, now)
    {
      ReadUartData(input, now);
      if state == Initializing {
        if Elapsed(now, lastHandshakeAttempt) >= config.handshakeRetryIntervalMs {
          lastHandshakeAttempt := now;
          SendPacket(now);
        }
      }
      if state == Ready {
        if Elapsed(now, lastPacketReceived) >= config.packetTimeoutMs {
          state := Initializing;
          failed := true;
        }
      }
    }

    /** `update`: the host's periodic poll */
    method Update(now: uint32)
      requires Valid()
      modifies this, txBuffer
      ensures Valid()
      ensures State() == Driver.Update(config, old(State()), now)
    {
      if state == Ready {
        SendPacket(now);
      }
    }
  }
}
