/** The protocol vocabulary of the Gree serial link: the byte offsets of a
    frame, the device constants of the component header, the host's climate
    enumerations and the tables that translate between the two. */
module Protocol {
  import opened Wire

  // Byte positions in a frame (gree_ac.cpp:9-24)
  const ForceUpdateByte: nat := 7
  const ModeByte: nat := 8
  const TemperatureByte: nat := 9
  const PresetByte: nat := 10
  const SwingByte: nat := 12
  const DisplayByte: nat := 13
  const IndoorTempByte: nat := 46

  /** Value of the force-update byte that makes the unit apply a command */
  const ForceUpdateValue: byte := 175
  /** Value of the display byte that shows the set temperature */
  const DisplayShowTemp: byte := 0x20

  /** The constants the component header defines. Their values are not part
      of this model; `Valid` states what the driver relies on. */
  datatype Config = Config(
    startByte: byte,
    rxBufferSize: nat,
    txBufferSize: nat,
    cmdInUnitReport: byte,
    headerSize: nat,
    modeOff: byte, modeAuto: byte, modeCool: byte, modeDry: byte, modeFanOnly: byte, modeHeat: byte,
    fanAuto: byte, fanLow: byte, fanMedium: byte, fanHigh: byte,
    presetCoolNormal: byte, presetHeatNormal: byte, presetCoolBoost: byte, presetHeatBoost: byte,
    swingOff: byte, swingVertical: byte, swingHorizontal: byte, swingBoth: byte,
    minTemperature: nat, maxTemperature: nat,
    handshakeRetryIntervalMs: uint32, packetTimeoutMs: uint32)
  {
    /** The assumptions on the header constants:
        - both buffers reach the display byte and fit the `uint8_t` sizes
          the driver passes around;
        - `sizeof(gree_header_t) + 2` fits the `uint8_t` minimum size;
        - mode codes live in the high nibble, fan codes in the low nibble;
        - the codes of each table are distinct (they are the case labels of
          one `switch`);
        - a temperature range of at most 255 sixteenths, so the `uint8_t`
          cast of the encoded temperature does not truncate. */
    ghost predicate Valid() {
      && DisplayByte < rxBufferSize <= 255
      && DisplayByte < txBufferSize <= 255
      && headerSize + 2 <= 255
      && modeOff % 16 == 0 && modeAuto % 16 == 0 && modeCool % 16 == 0
      && modeDry % 16 == 0 && modeFanOnly % 16 == 0 && modeHeat % 16 == 0
      && modeOff != modeAuto && modeOff != modeCool && modeOff != modeDry
      && modeOff != modeFanOnly && modeOff != modeHeat
      && modeAuto != modeCool && modeAuto != modeDry && modeAuto != modeFanOnly && modeAuto != modeHeat
      && modeCool != modeDry && modeCool != modeFanOnly && modeCool != modeHeat
      && modeDry != modeFanOnly && modeDry != modeHeat
      && modeFanOnly != modeHeat
      && fanAuto < 16 && fanLow < 16 && fanMedium < 16 && fanHigh < 16
      && fanAuto != fanLow && fanAuto != fanMedium && fanAuto != fanHigh
      && fanLow != fanMedium && fanLow != fanHigh && fanMedium != fanHigh
      && presetCoolBoost != presetHeatBoost && presetCoolBoost != presetCoolNormal
      && presetCoolBoost != presetHeatNormal && presetHeatBoost != presetCoolNormal
      && presetHeatBoost != presetHeatNormal && presetCoolNormal != presetHeatNormal
      && swingOff != swingVertical && swingOff != swingHorizontal && swingOff != swingBoth
      && swingVertical != swingHorizontal && swingVertical != swingBoth
      && swingHorizontal != swingBoth
      && minTemperature <= maxTemperature
      && 16 * (maxTemperature - minTemperature) <= 255
    }
  }

  /** The host's climate modes; `HeatCool` is the one the unit has no code for */
  datatype ClimateMode = Off | HeatCool | Cool | Heat | FanOnly | Dry | Auto

  /** The host's fan modes; `FanOther` stands for every mode the unit lacks */
  datatype FanMode = FanAuto | FanLow | FanMedium | FanHigh | FanOther

  /** The host's presets; `PresetOther` stands for every preset the unit lacks */
  datatype Preset = PresetNone | PresetBoost | PresetOther

  datatype SwingMode = SwingOff | SwingBoth | SwingVertical | SwingHorizontal

  /** The host-facing device state. The target temperature is in sixteenths
      of a degree, the indoor temperature in whole degrees (absent until a
      report long enough to carry a trusted one arrives). */
  datatype Climate = Climate(
    mode: ClimateMode,
    fanMode: FanMode,
    targetTemperature: int,
    currentTemperature: Option<int>,
    preset: Preset,
    swingMode: SwingMode)

  /** A command request: an absent field asks for no change. The target
      temperature is in sixteenths of a degree. */
  datatype Intent = Intent(
    mode: Option<ClimateMode>,
    fanMode: Option<FanMode>,
    targetTemperature: Option<int>,
    preset: Option<Preset>,
    swingMode: Option<SwingMode>)

  /** Mode code the encoder writes for a host mode; None for the `default`
      branch of the encoder's switch. */
  function ModeCode(c: Config, m: ClimateMode): (r: Option<byte>)
    ensures c.Valid() && r.Some? ==> r.value % 16 == 0
    ensures r.None? <==> m == HeatCool
  {
    match m
    case Off => Some(c.modeOff)
    case Auto => Some(c.modeAuto)
    case Cool => Some(c.modeCool)
    case Dry => Some(c.modeDry)
    case FanOnly => Some(c.modeFanOnly)
    case Heat => Some(c.modeHeat)
    case HeatCool => None
  }

  /** Host mode the decoder reads from a mode nibble; None for an unknown one */
  function ModeOfCode(c: Config, n: byte): (r: Option<ClimateMode>)
    ensures r.Some? ==> ModeCode(c, r.value) == Some(n)
    ensures r.None? ==> forall m :: ModeCode(c, m) != Some(n)
  {
    if n == c.modeOff then Some(Off)
    else if n == c.modeAuto then Some(Auto)
    else if n == c.modeCool then Some(Cool)
    else if n == c.modeDry then Some(Dry)
    else if n == c.modeFanOnly then Some(FanOnly)
    else if n == c.modeHeat then Some(Heat)
    else None
  }

  /** Fan code the encoder writes for a host fan mode; None for `default` */
  function FanCode(c: Config, f: FanMode): (r: Option<byte>)
    ensures c.Valid() && r.Some? ==> r.value < 16
    ensures r.None? <==> f == FanOther
  {
    match f
    case FanAuto => Some(c.fanAuto)
    case FanLow => Some(c.fanLow)
    case FanMedium => Some(c.fanMedium)
    case FanHigh => Some(c.fanHigh)
    case FanOther => None
  }

  /** Host fan mode the decoder reads from a fan nibble; None for an unknown one */
  function FanOfCode(c: Config, n: byte): (r: Option<FanMode>)
    ensures r.Some? ==> FanCode(c, r.value) == Some(n)
    ensures r.None? ==> forall f :: FanCode(c, f) != Some(n)
  {
    if n == c.fanAuto then Some(FanAuto)
    else if n == c.fanLow then Some(FanLow)
    else if n == c.fanMedium then Some(FanMedium)
    else if n == c.fanHigh then Some(FanHigh)
    else None
  }

  /** Swing code the encoder writes: under valid constants each code
      belongs to its own swing mode and to no other. */
  function SwingCode(c: Config, s: SwingMode): (r: byte)
    ensures c.Valid() ==>
      && (r == c.swingOff <==> s == SwingOff)
      && (r == c.swingVertical <==> s == SwingVertical)
      && (r == c.swingHorizontal <==> s == SwingHorizontal)
      && (r == c.swingBoth <==> s == SwingBoth)
  {
    match s
    case SwingOff => c.swingOff
    case SwingVertical => c.swingVertical
    case SwingHorizontal => c.swingHorizontal
    case SwingBoth => c.swingBoth
  }

  /** Host swing mode the decoder reads from a swing byte; None for an unknown one */
  function SwingOfCode(c: Config, b: byte): (r: Option<SwingMode>)
    ensures r.Some? ==> SwingCode(c, r.value) == b
    ensures r.None? ==> forall s :: SwingCode(c, s) != b
  {
    if b == c.swingOff then Some(SwingOff)
    else if b == c.swingVertical then Some(SwingVertical)
    else if b == c.swingHorizontal then Some(SwingHorizontal)
    else if b == c.swingBoth then Some(SwingBoth)
    else None
  }

  /** Preset the decoder reads from a preset byte: the two boost codes mean
      BOOST, everything else (the two normal codes included) means NONE. */
  function PresetOfCode(c: Config, b: byte): (r: Preset)
    ensures r != PresetOther
    ensures c.Valid() ==>
              (r == PresetBoost <==>
                 PresetCode(c, PresetBoost, c.modeCool) == Some(b) || PresetCode(c, PresetBoost, c.modeHeat) == Some(b))
  {
    if b == c.presetCoolBoost || b == c.presetHeatBoost then PresetBoost else PresetNone
  }

  /** Preset byte the encoder writes for a preset request under a resolved
      mode code; None when the byte is left alone (a mode other than COOL or
      HEAT, or a preset the unit lacks). */
  function PresetCode(c: Config, p: Preset, modeCode: byte): (r: Option<byte>)
    ensures r.Some? <==> p != PresetOther && (modeCode == c.modeCool || modeCode == c.modeHeat)
    ensures r.Some? && modeCode == c.modeCool ==>
              r.value == if p == PresetBoost then c.presetCoolBoost else c.presetCoolNormal
    ensures r.Some? && modeCode == c.modeHeat && modeCode != c.modeCool ==>
              r.value == if p == PresetBoost then c.presetHeatBoost else c.presetHeatNormal
  {
    match p
    case PresetNone =>
      if modeCode == c.modeCool then Some(c.presetCoolNormal)
      else if modeCode == c.modeHeat then Some(c.presetHeatNormal)
      else None
    case PresetBoost =>
      if modeCode == c.modeCool then Some(c.presetCoolBoost)
      else if modeCode == c.modeHeat then Some(c.presetHeatBoost)
      else None
    case PresetOther => None
  }

  /** The mode tables are inverse to each other on the six modes the unit knows */
  lemma ModeTablesInverse(c: Config, m: ClimateMode, n: byte)
    requires c.Valid()
    ensures ModeCode(c, m) == Some(n) <==> ModeOfCode(c, n) == Some(m)
  {
  }

  /** The fan tables are inverse to each other on the four fan modes the unit knows */
  lemma FanTablesInverse(c: Config, f: FanMode, n: byte)
    requires c.Valid()
    ensures FanCode(c, f) == Some(n) <==> FanOfCode(c, n) == Some(f)
  {
  }

  /** The swing tables are inverse to each other */
  lemma SwingTablesInverse(c: Config, s: SwingMode, b: byte)
    requires c.Valid()
    ensures SwingCode(c, s) == b <==> SwingOfCode(c, b) == Some(s)
  {
  }

  /** The preset byte the encoder writes decodes to the requested preset */
  lemma PresetTablesInverse(c: Config, p: Preset, modeCode: byte, b: byte)
    requires c.Valid()
    requires PresetCode(c, p, modeCode) == Some(b)
    ensures PresetOfCode(c, b) == p
  {
  }
}
