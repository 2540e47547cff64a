/** The host mode `control` records (gree_ac.cpp:270). The source stores
    `static_cast<climate::ClimateMode>(new_mode)`: the unit's mode code read
    as a position in ESPHome's `ClimateMode` enumeration. Mode codes live in
    the high nibble, so the code of every mode is 0 or at least 16, while the
    enumeration's positions run from 0 to 6: at most OFF can come out right.
    The model uses the corrected `Driver.ControlHostMode`, which reads the
    code back through the decoder's table. */
module Findings {
  import opened Wire
  import opened Protocol
  import opened Driver

  /** The position of each host mode in ESPHome's `ClimateMode` enumeration */
  function HostModeOrdinal(m: ClimateMode): (n: nat)
    ensures n <= 6
  {
    match m
    case Off => 0
    case HeatCool => 1
    case Cool => 2
    case Heat => 3
    case FanOnly => 4
    case Dry => 5
    case Auto => 6
  }

  /** `static_cast<climate::ClimateMode>(new_mode)` as written: the host mode
      at position `modeCode` of the enumeration, None when no mode sits
      there. */
  function ControlHostModeAsWritten(modeCode: byte): (m: Option<ClimateMode>)
    ensures m.Some? ==> HostModeOrdinal(m.value) == modeCode
    ensures m.None? <==> modeCode > 6
  {
    if modeCode == 0 then Some(Off)
    else if modeCode == 1 then Some(HeatCool)
    else if modeCode == 2 then Some(Cool)
    else if modeCode == 3 then Some(Heat)
    else if modeCode == 4 then Some(FanOnly)
    else if modeCode == 5 then Some(Dry)
    else if modeCode == 6 then Some(Auto)
    else None
  }

  /** As written, a `control` request for any mode but OFF records a host
      mode other than the requested one, whatever the unit's mode codes are:
      a code in the high nibble is 0 (read as OFF) or at least 16 (no mode). */
  lemma ControlHostModeAsWrittenMisrecords(c: Config, m: ClimateMode)
    requires c.Valid() && m != Off && m != HeatCool
    ensures ControlHostModeAsWritten(ModeCode(c, m).value) != Some(m)
  {
    var code := ModeCode(c, m).value;
    assert code % 16 == 0;
    if code != 0 {
      assert code > 6;
    }
  }

  /** Corrected, the recorded host mode is the requested one for every mode
      the unit knows, and it agrees with what a report carrying the same
      mode code decodes to. */
  lemma ControlHostModeRecordsRequest(c: Config, m: ClimateMode, prior: ClimateMode)
    requires c.Valid() && m != HeatCool
    ensures ControlHostMode(c, ModeCode(c, m).value, prior) == m
    ensures ModeOfCode(c, ModeCode(c, m).value) == Some(m)
  {
  }
}
