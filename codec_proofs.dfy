/** Properties of the frame validator (`verify_packet_`, gree_ac.cpp:359-384)
    and of the report decoder (`parse_state_packet_`, gree_ac.cpp:402-543). */
module CodecProofs {
  import opened Wire
  import opened Protocol
  import opened ChecksumUnit
  import opened Driver

  // ---------------------------------------------------------------------
  // Validator

  /** Each rejection increments exactly one counter: too short or of the
      wrong type counts as an invalid packet, a bad trailer as a checksum
      error; an accepted frame changes no counter. */
  lemma ValidatorCounters(c: Config, d: DriverState, data: seq<byte>, size: nat)
    requires size <= |data|
    ensures var r := CountVerdict(d, Classify(c, data, size));
      && (size < 4 || data[3] != c.cmdInUnitReport ==>
            r == d.(invalidPacketErrors := d.invalidPacketErrors + 1))
      && (size >= 4 && data[3] == c.cmdInUnitReport && data[size - 1] != Checksum(data, size) ==>
            r == d.(checksumErrors := d.checksumErrors + 1))
      && (Classify(c, data, size) == Accepted ==> r == d)
  {
  }

  /** The verdict depends only on the first `size` bytes */
  lemma ClassifyReadsFrameOnly(c: Config, a: seq<byte>, b: seq<byte>, size: nat)
    requires size <= |a| && size <= |b| && a[..size] == b[..size]
    ensures Classify(c, a, size) == Classify(c, b, size)
  {
    if size >= 4 {
      assert a[3] == a[..size][3] && b[3] == b[..size][3];
      assert a[size - 1] == a[..size][size - 1] && b[size - 1] == b[..size][size - 1];
      ChecksumReadsFrameOnly(a, b, size);
    }
  }

  /** Any single corrupted byte of an accepted frame, in the length byte,
      the payload or the trailer, is caught as a checksum error (a changed
      type byte is caught as a wrong type). */
  lemma CorruptionDetected(c: Config, data: seq<byte>, size: nat, k: nat, v: byte)
    requires 3 <= size <= 256 && size <= |data|
    requires Classify(c, data, size) == Accepted
    requires k < size && k != 0 && k != 1 && v != data[k]
    ensures k == 3 ==> Classify(c, data[k := v], size) == WrongType
    ensures k != 3 ==> Classify(c, data[k := v], size) == BadChecksum
  {
    if k != 3 {
      if k < size - 1 {
        ChecksumDetectsSingleByteChange(data, size, k, v);
      } else {
        ChecksumIgnoresOutsideWindow(data, data[k := v], size);
      }
    }
  }

  /** The checksum and type checks `parse_state_packet_` repeats never fire
      on a frame `verify_packet_` accepted: such a frame is decoded when it
      reaches the temperature byte and otherwise ignored. */
  lemma ParseAfterAccept(c: Config, d: DriverState, data: seq<byte>, size: nat)
    requires c.Valid() && |d.tx| == c.txBufferSize && size <= |data|
    requires Classify(c, data, size) == Accepted
    ensures size < MinParseSize(c) || size <= TemperatureByte ==> Parse(c, d, data, size) == d
    ensures size >= MinParseSize(c) && size > TemperatureByte ==>
              Parse(c, d, data, size) == DecodeReport(c, d, data, size)
  {
  }

  // ---------------------------------------------------------------------
  // Decoder

  /** The mode, temperature and (when present) swing bytes of a report are
      copied into the command buffer whatever their values; no other byte
      of the command buffer changes. */
  lemma DecodeEchoes(c: Config, d: DriverState, data: seq<byte>, size: nat)
    requires c.Valid() && |d.tx| == c.txBufferSize && TemperatureByte < size <= |data|
    ensures var r := DecodeReport(c, d, data, size);
      && r.tx[ModeByte] == data[ModeByte]
      && r.tx[TemperatureByte] == data[TemperatureByte]
      && (size > SwingByte ==> r.tx[SwingByte] == data[SwingByte])
      && (forall k ::
            (0 <= k < |d.tx| && k != ModeByte && k != TemperatureByte && (k != SwingByte || size <= SwingByte))
            ==> r.tx[k] == d.tx[k])
  {
  }

  /** A known mode nibble selects the mode whose code it is; an unknown one
      leaves the mode alone. The same holds for the fan nibble and for the
      swing byte of a report that carries it. */
  lemma DecodeModeFanSwing(c: Config, d: DriverState, data: seq<byte>, size: nat)
    requires c.Valid() && |d.tx| == c.txBufferSize && TemperatureByte < size <= |data|
    ensures var r := DecodeReport(c, d, data, size); var n := HighNibble(data[ModeByte]);
      && (ModeOfCode(c, n).Some? ==> ModeCode(c, r.climate.mode) == Some(n))
      && (ModeOfCode(c, n).None? ==> r.climate.mode == d.climate.mode)
    ensures var r := DecodeReport(c, d, data, size); var n := LowNibble(data[ModeByte]);
      && (FanOfCode(c, n).Some? ==> FanCode(c, r.climate.fanMode) == Some(n))
      && (FanOfCode(c, n).None? ==> r.climate.fanMode == d.climate.fanMode)
    ensures var r := DecodeReport(c, d, data, size);
      && (size > SwingByte && SwingOfCode(c, data[SwingByte]).Some? ==>
            SwingCode(c, r.climate.swingMode) == data[SwingByte])
      && (size <= SwingByte || SwingOfCode(c, data[SwingByte]).None? ==>
            r.climate.swingMode == d.climate.swingMode)
  {
    var r := DecodeReport(c, d, data, size);
    ModeTablesInverse(c, r.climate.mode, HighNibble(data[ModeByte]));
    FanTablesInverse(c, r.climate.fanMode, LowNibble(data[ModeByte]));
    if size > SwingByte {
      SwingTablesInverse(c, r.climate.swingMode, data[SwingByte]);
    }
  }

  /** The preset is BOOST exactly when the report carries one of the two
      boost codes, and NONE otherwise, a report too short to carry the
      preset byte included. */
  lemma DecodePreset(c: Config, d: DriverState, data: seq<byte>, size: nat)
    requires c.Valid() && |d.tx| == c.txBufferSize && TemperatureByte < size <= |data|
    ensures var r := DecodeReport(c, d, data, size);
      && (r.climate.preset == PresetBoost <==>
            size > PresetByte && (data[PresetByte] == c.presetCoolBoost || data[PresetByte] == c.presetHeatBoost))
      && r.climate.preset != PresetOther
  {
  }

  /** The target temperature is taken exactly when the raw byte is at most
      16 * (MAX - MIN) sixteenths above MIN; the indoor temperature exactly
      when the report carries it and its signed raw byte lies in [30, 90],
      40 above the degrees it stands for. Otherwise each keeps its value. */
  lemma DecodeTemperatures(c: Config, d: DriverState, data: seq<byte>, size: nat)
    requires c.Valid() && |d.tx| == c.txBufferSize && TemperatureByte < size <= |data|
    ensures var r := DecodeReport(c, d, data, size); var raw := data[TemperatureByte];
      && (raw <= 16 * (c.maxTemperature - c.minTemperature) ==>
            r.climate.targetTemperature == 16 * c.minTemperature + raw)
      && (raw > 16 * (c.maxTemperature - c.minTemperature) ==>
            r.climate.targetTemperature == d.climate.targetTemperature)
    ensures var r := DecodeReport(c, d, data, size);
      && (size > IndoorTempByte && 30 <= SignedByte(data[IndoorTempByte]) <= 90 ==>
            r.climate.currentTemperature == Some(SignedByte(data[IndoorTempByte]) - 40))
      && (size <= IndoorTempByte || !(30 <= SignedByte(data[IndoorTempByte]) <= 90) ==>
            r.climate.currentTemperature == d.climate.currentTemperature)
  {
  }

  /** A decoded report counts once and changes nothing but the climate
      state and the command buffer. */
  lemma DecodeFrame(c: Config, d: DriverState, data: seq<byte>, size: nat)
    requires c.Valid() && |d.tx| == c.txBufferSize && TemperatureByte < size <= |data|
    ensures var r := DecodeReport(c, d, data, size);
      && r.packetsReceived == d.packetsReceived + 1
      && r.(climate := d.climate, tx := d.tx, packetsReceived := d.packetsReceived) == d
  {
  }

  /** Decoding the same report twice leaves the state the first decode
      left, except that the report is counted twice. */
  lemma DecodeIdempotent(c: Config, d: DriverState, data: seq<byte>, size: nat)
    requires c.Valid() && |d.tx| == c.txBufferSize && TemperatureByte < size <= |data|
    ensures var r := DecodeReport(c, d, data, size);
      DecodeReport(c, r, data, size) == r.(packetsReceived := r.packetsReceived + 1)
  {
  }

  /** The decoded state depends only on the first `size` bytes of the report */
  lemma DecodeReadsFrameOnly(c: Config, d: DriverState, a: seq<byte>, b: seq<byte>, size: nat)
    requires c.Valid() && |d.tx| == c.txBufferSize && TemperatureByte < size <= |a| && size <= |b|
    requires a[..size] == b[..size]
    ensures DecodeReport(c, d, a, size) == DecodeReport(c, d, b, size)
  {
    forall k | 0 <= k < size
      ensures a[k] == b[k]
    {
      assert a[k] == a[..size][k];
    }
  }

  /** `parse_state_packet_` depends only on the first `size` bytes of the frame */
  lemma ParseReadsFrameOnly(c: Config, d: DriverState, a: seq<byte>, b: seq<byte>, size: nat)
    requires c.Valid() && |d.tx| == c.txBufferSize && size <= |a| && size <= |b|
    requires a[..size] == b[..size]
    ensures Parse(c, d, a, size) == Parse(c, d, b, size)
  {
    if size >= MinParseSize(c) {
      assert a[size - 1] == a[..size][size - 1] && b[size - 1] == b[..size][size - 1];
      ChecksumReadsFrameOnly(a, b, size);
      if size > 3 {
        assert a[3] == a[..size][3] && b[3] == b[..size][3];
      }
      if size > TemperatureByte {
        DecodeReadsFrameOnly(c, d, a, b, size);
      }
    }
  }

  /** `handle_packet_` depends only on the first `size` bytes of the frame */
  lemma HandleReadsFrameOnly(c: Config, d: DriverState, a: seq<byte>, b: seq<byte>, size: nat)
    requires c.Valid() && |d.tx| == c.txBufferSize && size <= |a| && size <= |b|
    requires a[..size] == b[..size]
    ensures Handle(c, d, a, size) == Handle(c, d, b, size)
  {
    ParseReadsFrameOnly(c, d, a, b, size);
  }
}
