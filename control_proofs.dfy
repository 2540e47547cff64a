/** Properties of the command encoder (`control`, gree_ac.cpp:138-285) and of
    the transmission (`send_packet_`, gree_ac.cpp:545-558): what the sent
    frame holds, what a request leaves alone, and that the unit decodes the
    requested state back from the frame. */
module ControlProofs {
  import opened Wire
  import opened Protocol
  import opened ChecksumUnit
  import opened Driver
  import opened CodecProofs

  /** The last frame handed to the serial port */
  function LastFrame(d: DriverState): seq<byte>
    requires d.written != []
  {
    d.written[|d.written| - 1]
  }

  // ---------------------------------------------------------------------
  // Transmission

  /** `send_packet_` hands over the first `min(3 + tx[2], capacity)` bytes
      of the command buffer with the checksum in the last of them, so the
      frame carries a valid trailer; earlier frames and every other field
      are kept, the send is counted and timestamped. */
  lemma TransmitFrame(c: Config, d: DriverState, now: uint32)
    requires c.Valid() && |d.tx| == c.txBufferSize
    ensures var r := Transmit(c, d, now); var size := FrameSize(c, d.tx); var frame := LastFrame(r);
      && |frame| == size
      && frame[..size - 1] == d.tx[..size - 1]
      && frame[size - 1] == Checksum(frame, size)
      && r.written[..|d.written|] == d.written
      && r.tx == d.tx[size - 1 := frame[size - 1]]
      && r.packetsSent == d.packetsSent + 1 && r.lastPacketSent == now
      && r.(tx := d.tx, written := d.written, packetsSent := d.packetsSent, lastPacketSent := d.lastPacketSent) == d
  {
    var r := Transmit(c, d, now);
    var size := FrameSize(c, d.tx);
    var tx := r.tx;
    var frame := LastFrame(r);
    assert frame == tx[..size];
    ChecksumIgnoresOutsideWindow(d.tx, tx, size);
    ChecksumReadsFrameOnly(tx, frame, size);
    assert frame[..size - 1] == d.tx[..size - 1];
  }

  // ---------------------------------------------------------------------
  // The command request

  /** A request changes only the force-update, mode, temperature, preset,
      swing and display bytes; with no preset, temperature or swing request
      the matching byte is unchanged, and so is the host state beyond the
      mode, target temperature and swing mode. */
  lemma AssembleKeepsUntouched(c: Config, d: DriverState, intent: Intent)
    requires c.Valid() && |d.tx| == c.txBufferSize
    ensures var r := Assemble(c, d, intent);
      && (forall k ::
            (0 <= k < |d.tx| && k != ForceUpdateByte && k != ModeByte && k != TemperatureByte &&
             k != PresetByte && k != SwingByte && k != DisplayByte) ==> r.tx[k] == d.tx[k])
      && (intent.preset.None? ==> r.tx[PresetByte] == d.tx[PresetByte])
      && (intent.targetTemperature.None? ==>
            r.tx[TemperatureByte] == d.tx[TemperatureByte] &&
            r.climate.targetTemperature == d.climate.targetTemperature)
      && (intent.swingMode.None? ==>
            r.tx[SwingByte] == d.tx[SwingByte] && r.climate.swingMode == d.climate.swingMode)
      && r.climate.fanMode == d.climate.fanMode
      && r.climate.currentTemperature == d.climate.currentTemperature
      && r.climate.preset == d.climate.preset
      && r.(tx := d.tx, climate := d.climate) == d
  {
  }

  /** The mode code is the requested one, or the one already in the
      command buffer when none is requested or the unit lacks it. DRY always
      runs the LOW fan, whatever fan was requested; otherwise the fan code is
      the requested one, or the one already in the buffer. */
  lemma AssembleModeFan(c: Config, d: DriverState, intent: Intent)
    requires c.Valid() && |d.tx| == c.txBufferSize
    ensures var n := Assemble(c, d, intent).tx[ModeByte];
      && (intent.mode.Some? && ModeCode(c, intent.mode.value).Some? ==>
            HighNibble(n) == ModeCode(c, intent.mode.value).value)
      && (intent.mode.None? || ModeCode(c, intent.mode.value).None? ==>
            HighNibble(n) == HighNibble(d.tx[ModeByte]))
      && (HighNibble(n) == c.modeDry ==> LowNibble(n) == c.fanLow)
      && (intent.mode == Some(Dry) ==> n == Pack(c.modeDry, c.fanLow))
      && (HighNibble(n) != c.modeDry && intent.fanMode.Some? && FanCode(c, intent.fanMode.value).Some? ==>
            LowNibble(n) == FanCode(c, intent.fanMode.value).value)
      && (HighNibble(n) != c.modeDry && (intent.fanMode.None? || FanCode(c, intent.fanMode.value).None?) ==>
            LowNibble(n) == LowNibble(d.tx[ModeByte]))
  {
    var tx0 := d.tx[ForceUpdateByte := ForceUpdateValue][DisplayByte := DisplayShowTemp];
    assert tx0[ModeByte] == d.tx[ModeByte];
  }

  /** A target temperature request is taken exactly when it lies within
      [MIN, MAX]: then the temperature byte holds its offset above MIN in
      sixteenths and the host's target follows; otherwise both are kept. */
  lemma AssembleTemperature(c: Config, d: DriverState, intent: Intent)
    requires c.Valid() && |d.tx| == c.txBufferSize
    ensures var r := Assemble(c, d, intent);
      && (intent.targetTemperature.Some? && TargetInRange(c, intent.targetTemperature.value) ==>
            r.tx[TemperatureByte] == intent.targetTemperature.value - 16 * c.minTemperature &&
            r.climate.targetTemperature == intent.targetTemperature.value)
      && (intent.targetTemperature.None? || !TargetInRange(c, intent.targetTemperature.value) ==>
            r.tx[TemperatureByte] == d.tx[TemperatureByte] &&
            r.climate.targetTemperature == d.climate.targetTemperature)
  {
  }

  /** The preset byte changes only for a preset request under a resolved
      COOL or HEAT mode, and then it decodes to the requested preset. */
  lemma AssemblePreset(c: Config, d: DriverState, intent: Intent)
    requires c.Valid() && |d.tx| == c.txBufferSize
    ensures var r := Assemble(c, d, intent); var mode := HighNibble(r.tx[ModeByte]);
      && (r.tx[PresetByte] != d.tx[PresetByte] ==>
            intent.preset.Some? && (mode == c.modeCool || mode == c.modeHeat))
      && (intent.preset.Some? && intent.preset.value != PresetOther && (mode == c.modeCool || mode == c.modeHeat) ==>
            PresetOfCode(c, r.tx[PresetByte]) == intent.preset.value)
  {
    var r := Assemble(c, d, intent);
    var tx0 := d.tx[ForceUpdateByte := ForceUpdateValue][DisplayByte := DisplayShowTemp];
    var mf := ApplyModeRequest(c, intent.mode, HighNibble(tx0[ModeByte]), LowNibble(tx0[ModeByte]));
    var fan := EnforceDryFan(c, mf.0, ApplyFanRequest(c, intent.fanMode, mf.1));
    assert r.tx[ModeByte] == Pack(mf.0, fan);
    assert HighNibble(r.tx[ModeByte]) == mf.0;
    if intent.preset.Some? {
      match PresetCode(c, intent.preset.value, mf.0)
      case None =>
      case Some(b) => PresetTablesInverse(c, intent.preset.value, mf.0, b);
    }
  }

  /** A swing request is written in the unit's code and recorded in the
      host state. */
  lemma AssembleSwing(c: Config, d: DriverState, intent: Intent)
    requires c.Valid() && |d.tx| == c.txBufferSize
    ensures var r := Assemble(c, d, intent);
      intent.swingMode.Some? ==>
        SwingOfCode(c, r.tx[SwingByte]) == intent.swingMode && r.climate.swingMode == intent.swingMode.value
  {
    if intent.swingMode.Some? {
      SwingTablesInverse(c, intent.swingMode.value, SwingCode(c, intent.swingMode.value));
    }
  }

  // ---------------------------------------------------------------------
  // The whole of `control`

  /** `control` does nothing unless the session is READY */
  lemma ControlIgnoredUnlessReady(c: Config, d: DriverState, intent: Intent, now: uint32)
    requires c.Valid() && |d.tx| == c.txBufferSize && d.session != Ready
    ensures Control(c, d, intent, now) == d
  {
  }

  /** When READY, `control` sends the assembled command buffer as one
      frame with a valid checksum, keeps the climate state it assembled, and
      puts the force-update byte back to 0; the session, the counters, the
      reassembler and the other timestamps are unchanged. */
  lemma ControlFrame(c: Config, d: DriverState, intent: Intent, now: uint32)
    requires c.Valid() && |d.tx| == c.txBufferSize && d.session == Ready
    ensures var r := Control(c, d, intent, now); var a := Assemble(c, d, intent);
      var size := FrameSize(c, d.tx); var frame := LastFrame(r);
      && r.written == d.written + [frame]
      && |frame| == size
      && (forall k :: 0 <= k < size - 1 ==> frame[k] == a.tx[k])
      && frame[size - 1] == Checksum(frame, size)
      && r.tx == a.tx[size - 1 := frame[size - 1]][ForceUpdateByte := 0]
      && r.climate == a.climate
      && r.packetsSent == d.packetsSent + 1 && r.lastPacketSent == now
    ensures var r := Control(c, d, intent, now);
      r.(tx := d.tx, climate := d.climate, written := d.written,
         packetsSent := d.packetsSent, lastPacketSent := d.lastPacketSent) == d
  {
    var a := Assemble(c, d, intent);
    assert a.tx[2] == d.tx[2];
    TransmitFrame(c, a, now);
    var frame := LastFrame(Transmit(c, a, now));
    var size := FrameSize(c, d.tx);
    forall k | 0 <= k < size - 1
      ensures frame[k] == a.tx[k]
    {
      assert frame[k] == frame[..size - 1][k];
    }
  }

  /** When READY, `control` sends one frame of `min(3 + tx[2], capacity)`
      bytes that carries the force-update value and the display byte (where
      the frame reaches them ahead of the trailer) and a valid checksum, and
      then puts the force-update byte of the command buffer back to 0. */
  lemma ControlTrailer(c: Config, d: DriverState, intent: Intent, now: uint32)
    requires c.Valid() && |d.tx| == c.txBufferSize && d.session == Ready
    ensures var r := Control(c, d, intent, now); var size := FrameSize(c, d.tx);
      && |r.written| == |d.written| + 1 && r.written[..|d.written|] == d.written
      && |LastFrame(r)| == size
      && (ForceUpdateByte < size - 1 ==> LastFrame(r)[ForceUpdateByte] == ForceUpdateValue)
      && (DisplayByte < size - 1 ==> LastFrame(r)[DisplayByte] == DisplayShowTemp)
      && LastFrame(r)[size - 1] == Checksum(LastFrame(r), size)
      && r.tx[ForceUpdateByte] == 0
      && r.packetsSent == d.packetsSent + 1 && r.lastPacketSent == now
  {
    ControlFrame(c, d, intent, now);
    var r := Control(c, d, intent, now);
    assert r.written[..|d.written|] == d.written;
  }

  /** Decoding, as a report, a frame that carries the mode, temperature,
      preset and swing bytes of an assembled command gives back the
      requested state. The fan and the preset are judged against the mode
      the frame carries, requested or already in the buffer: under DRY the
      fan reads back as LOW, and a preset reads back under COOL or HEAT. */
  lemma DecodeAssembled(c: Config, d: DriverState, intent: Intent, frame: seq<byte>, e: DriverState)
    requires c.Valid() && |d.tx| == c.txBufferSize && |e.tx| == c.txBufferSize
    requires SwingByte < |frame|
    requires forall k :: ModeByte <= k <= SwingByte ==> frame[k] == Assemble(c, d, intent).tx[k]
    ensures var a := Assemble(c, d, intent); var back := DecodeReport(c, e, frame, |frame|).climate;
      && (intent.mode.Some? && intent.mode.value != HeatCool ==> back.mode == intent.mode.value)
      && (intent.mode == Some(Dry) ==> HighNibble(frame[ModeByte]) == c.modeDry)
      && (HighNibble(frame[ModeByte]) == c.modeDry ==> back.fanMode == FanLow)
      && ((intent.fanMode.Some? && intent.fanMode.value != FanOther &&
           HighNibble(frame[ModeByte]) != c.modeDry) ==>
            back.fanMode == intent.fanMode.value)
      && (intent.targetTemperature.Some? && TargetInRange(c, intent.targetTemperature.value) ==>
            back.targetTemperature == intent.targetTemperature.value)
      && (intent.swingMode.Some? ==> back.swingMode == intent.swingMode.value)
      && ((intent.preset.Some? && intent.preset.value != PresetOther &&
           (HighNibble(frame[ModeByte]) == c.modeCool || HighNibble(frame[ModeByte]) == c.modeHeat)) ==>
            back.preset == intent.preset.value)
      && (ModeOfCode(c, HighNibble(frame[ModeByte])).Some? ==> back.mode == a.climate.mode)
  {
    var a := Assemble(c, d, intent);
    var size := |frame|;
    assert frame[ModeByte] == a.tx[ModeByte];
    assert frame[TemperatureByte] == a.tx[TemperatureByte];
    assert frame[PresetByte] == a.tx[PresetByte];
    assert frame[SwingByte] == a.tx[SwingByte];
    AssembleModeFan(c, d, intent);
    AssembleTemperature(c, d, intent);
    AssemblePreset(c, d, intent);
    AssembleSwing(c, d, intent);
    DecodeModeFanSwing(c, e, frame, size);
    DecodeTemperatures(c, e, frame, size);
    DecodePreset(c, e, frame, size);
    var back := DecodeReport(c, e, frame, size).climate;
    var n := frame[ModeByte];
    if intent.mode.Some? && intent.mode.value != HeatCool {
      ModeTablesInverse(c, intent.mode.value, HighNibble(n));
    }
    if intent.fanMode.Some? && intent.fanMode.value != FanOther {
      FanTablesInverse(c, intent.fanMode.value, LowNibble(n));
    }
    if HighNibble(n) == c.modeDry {
      FanTablesInverse(c, FanLow, LowNibble(n));
    }
    if ModeOfCode(c, HighNibble(n)).Some? {
      ModeTablesInverse(c, back.mode, HighNibble(n));
      ModeTablesInverse(c, a.climate.mode, HighNibble(n));
    }
    if intent.swingMode.Some? {
      SwingTablesInverse(c, intent.swingMode.value, frame[SwingByte]);
    }
  }

  /** Encode then decode: when the frame `control` sends reaches past the
      swing byte, decoding it as a report gives back the requested mode,
      fan, target temperature, swing and preset (a fan under the DRY mode the
      frame carries reads back as LOW; a preset reads back under the COOL or
      HEAT mode it carries), and the mode `control` records for the host is the one the
      frame decodes to whenever the unit knows the mode code. */
  lemma ControlRoundTrip(c: Config, d: DriverState, intent: Intent, now: uint32, e: DriverState)
    requires c.Valid() && |d.tx| == c.txBufferSize && d.session == Ready
    requires SwingByte < FrameSize(c, d.tx) - 1
    requires |e.tx| == c.txBufferSize
    ensures var r := Control(c, d, intent, now); var frame := LastFrame(r);
      var back := DecodeReport(c, e, frame, |frame|).climate;
      && (intent.mode.Some? && intent.mode.value != HeatCool ==> back.mode == intent.mode.value)
      && (intent.mode == Some(Dry) ==> HighNibble(frame[ModeByte]) == c.modeDry)
      && (HighNibble(frame[ModeByte]) == c.modeDry ==> back.fanMode == FanLow)
      && ((intent.fanMode.Some? && intent.fanMode.value != FanOther &&
           HighNibble(frame[ModeByte]) != c.modeDry) ==>
            back.fanMode == intent.fanMode.value)
      && (intent.targetTemperature.Some? && TargetInRange(c, intent.targetTemperature.value) ==>
            back.targetTemperature == intent.targetTemperature.value)
      && (intent.swingMode.Some? ==> back.swingMode == intent.swingMode.value)
      && ((intent.preset.Some? && intent.preset.value != PresetOther &&
           (HighNibble(frame[ModeByte]) == c.modeCool || HighNibble(frame[ModeByte]) == c.modeHeat)) ==>
            back.preset == intent.preset.value)
      && (ModeOfCode(c, HighNibble(frame[ModeByte])).Some? ==> back.mode == r.climate.mode)
  {
    ControlFrame(c, d, intent, now);
    DecodeAssembled(c, d, intent, LastFrame(Control(c, d, intent, now)), e);
  }
}
