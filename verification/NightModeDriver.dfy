/** The switch's static record, updated on each reading (pega_nv_mode.c). */
module NightModeDriver {
  import opened NightMode

  const NOT_THING := 0
  const NV_MODE_STATE_NIGHT := 2
  const NV_MODE_DAY := 3

  /** A reading may count on both sides when the thresholds cross; dark comes first. */
  function Process(s: State, dark: bool, bright: bool, trigger: int): State {
    var s' := if dark then OnDark(s, trigger) else s;
    if bright then OnBright(s', trigger) else s'
  }

  /** rtn stands for the mode reported, and for no other. */
  predicate Returns(rtn: int, reported: Mode) {
    && (rtn == NOT_THING <==> reported == Unset)
    && (rtn == NV_MODE_STATE_NIGHT <==> reported == Night)
    && (rtn == NV_MODE_DAY <==> reported == Day)
  }

  /** Both sides of a reading reported in turn; bright comes last, after dark has emptied
      its counter. */
  function Reported(s: State, dark: bool, bright: bool, trigger: int): Mode {
    var first := if dark then Report(s, Dark, trigger) else Unset;
    var second := if bright then Report(if dark then OnDark(s, trigger) else s, Bright, trigger) else Unset;
    if second != Unset then second else first
  }

  function SideOf(lux: real, nightThd: real, dayThd: real): Side {
    if lux < nightThd then Dark else if lux > dayThd then Bright else Mid
  }

  /** A sensor value after gain, unless the gain is zero, and offset. */
  function Calibrate(raw: real, gain: real, offset: real): real {
    (if gain != 0.0 then raw * gain else raw) + offset
  }

  function OtherSide(side: Side): Side {
    match side
    case Dark => Bright
    case Mid => Mid
    case Bright => Dark
  }

  /** What calibration does to the decision: the side of a calibrated value is the side of
      the raw one between thresholds moved back through offset and gain, and the other
      side when the gain is negative. */
  predicate SameDecision(raw: real, gain: real, offset: real, night: real, day: real) {
    var n, d, side := night - offset, day - offset, SideOf(Calibrate(raw, gain, offset), night, day);
    if gain == 0.0 then side == SideOf(raw, n, d)
    else if gain > 0.0 then side == SideOf(raw, n / gain, d / gain)
    else side == OtherSide(SideOf(raw, d / gain, n / gain))
  }

  lemma CalibrationMovesThresholds(raw: real, gain: real, offset: real, night: real, day: real)
    requires night <= day
    ensures SameDecision(raw, gain, offset, night, day)
  {
    if gain != 0.0 {
      Scaled(raw, night - offset, gain);
      Scaled(raw, day - offset, gain);
      Scaled((day - offset) / gain, night - offset, gain);
    }
  }

  /** Comparing a scaled value is comparing with the threshold scaled back. */
  lemma Scaled(x: real, t: real, gain: real)
    requires gain != 0.0
    ensures gain > 0.0 ==> (x * gain < t <==> x < t / gain) && (x * gain > t <==> x > t / gain)
    ensures gain < 0.0 ==> (x * gain < t <==> x > t / gain) && (x * gain > t <==> x < t / gain)
    ensures (t / gain) * gain == t
  {
    var y := t / gain;
    assert y * gain == t;
    assert (x - y) * gain == x * gain - t;
  }

  class NightSwitch {
    var fLux: real
    var fOffset: real
    var fLuxCal: real
    var fNightModeThd: real
    var fDayModeThd: real
    var bNVModeSet: bool
    var bIsNVModeAuto: bool
    var bIsNightMode: Mode
    var u8DayModeCounts: Count
    var u8NightModeCounts: Count
    var sTriggerCounts: int
    /** Every command sent to the board. */
    var commands: seq<Command>

    constructor ()
      ensures Now() == INITIAL && commands == []
      ensures fNightModeThd == 2.0 && fDayModeThd == 5.0 && sTriggerCounts == 4
      ensures bIsNVModeAuto && !bNVModeSet
    {
      fLux, fOffset, fLuxCal, fNightModeThd, fDayModeThd := 0xFFFFFF as real, 0.0, 1.0, 2.0, 5.0;
      bIsNightMode, u8DayModeCounts, u8NightModeCounts, sTriggerCounts := Unset, 0, 0, 4;
      bNVModeSet, bIsNVModeAuto := false, true;
      commands := [];
    }

    function Now(): State
      reads this
    {
      State(bIsNightMode, u8NightModeCounts, u8DayModeCounts)
    }

    method ForceDayNightMode(isNightMode: bool)
      modifies this`commands
      ensures commands == old(commands) + Force(isNightMode)
    {
      if isNightMode {
        commands := commands + [IrCut(false)];
        commands := commands + [IrLed(true)];
      } else {
        commands := commands + [IrLed(false)];
        commands := commands + [IrCut(true)];
      }
    }

    method NightModeSet()
      modifies this`bIsNightMode, this`commands
      ensures bIsNightMode == Night
      ensures commands == old(commands) + if old(bIsNightMode) == Night then [] else Force(true)
    {
      if bIsNightMode == Night {
        return;
      }
      bIsNightMode := Night;
      ForceDayNightMode(true);
    }

    method DayModeSet()
      modifies this`bIsNightMode, this`commands
      ensures bIsNightMode == Day
      ensures commands == old(commands) + if old(bIsNightMode) == Day then [] else Force(false)
    {
      if bIsNightMode == Day {
        return;
      }
      bIsNightMode := Day;
      ForceDayNightMode(false);
    }

    /** Puts the board into the mode set by hand, once for each setting. */
    method ManualSet()
      modifies this`bIsNightMode, this`bNVModeSet, this`commands
      ensures bNVModeSet
      ensures bIsNightMode == if old(bNVModeSet) || old(bIsNightMode) == Night then old(bIsNightMode) else Day
      ensures commands == old(commands) + if old(bNVModeSet) then [] else Force(old(bIsNightMode) == Night)
    {
      if bNVModeSet {
        return;
      }
      if bIsNightMode == Night {
        bIsNightMode := Day;
        NightModeSet();
      } else {
        bIsNightMode := Night;
        DayModeSet();
      }
      bNVModeSet := true;
    }

    /** One round: in manual mode the mode set by hand, otherwise the value the light sensor
        returned, unless it is negative. */
    method Processing(raw: real) returns (rtn: int)
      modifies this
      ensures Settings() == old(Settings())
      ensures !bIsNVModeAuto ==> rtn == NOT_THING && bNVModeSet && fLux == old(fLux)
      ensures !bIsNVModeAuto ==>
                Now() == old(Now()).(mode := if old(bNVModeSet) then old(bIsNightMode)
                                             else if old(bIsNightMode) == Night then Night else Day)
      ensures !bIsNVModeAuto ==>
                commands == old(commands) + if old(bNVModeSet) then [] else Force(old(bIsNightMode) == Night)
      ensures bIsNVModeAuto ==> bNVModeSet == old(bNVModeSet)
      ensures bIsNVModeAuto && raw < 0.0 ==>
                rtn == NOT_THING && Now() == old(Now()) && commands == old(commands) && fLux == old(fLux)
      ensures bIsNVModeAuto && raw >= 0.0 ==>
                && fLux == Calibrate(raw, fLuxCal, fOffset)
                && Now() == Process(old(Now()), fLux < fNightModeThd, fLux > fDayModeThd, sTriggerCounts)
      ensures bIsNVModeAuto && raw >= 0.0 && fNightModeThd <= fDayModeThd ==>
                && Now() == OnReading(old(Now()), SideOf(fLux, fNightModeThd, fDayModeThd), sTriggerCounts)
                && commands == old(commands) +
                   if bIsNightMode != old(bIsNightMode) then Force(bIsNightMode == Night) else []
      ensures bIsNVModeAuto && raw >= 0.0 ==>
                Returns(rtn, Reported(old(Now()), fLux < fNightModeThd, fLux > fDayModeThd, sTriggerCounts))
      ensures bIsNVModeAuto && raw >= 0.0 && fNightModeThd <= fDayModeThd ==>
                Returns(rtn, Report(old(Now()), SideOf(fLux, fNightModeThd, fDayModeThd), sTriggerCounts))
      ensures rtn == NV_MODE_DAY ==> bIsNightMode == Day
      ensures rtn == NV_MODE_STATE_NIGHT ==> bIsNightMode == Night
      ensures bIsNVModeAuto && bIsNightMode != old(bIsNightMode) ==> rtn != NOT_THING
    {
      rtn := NOT_THING;
      if !bIsNVModeAuto {
        ManualSet();
        return;
      }
      if raw < 0.0 {
        return;
      }
      LuxUpdate(raw);
      rtn := Judge();
    }

    /** What no round changes. */
    function Settings(): (real, real, real, real, int, bool)
      reads this
    {
      (fOffset, fLuxCal, fNightModeThd, fDayModeThd, sTriggerCounts, bIsNVModeAuto)
    }

    method LuxUpdate(raw: real)
      modifies this`fLux
      ensures fLux == Calibrate(raw, fLuxCal, fOffset)
      ensures fNightModeThd <= fDayModeThd ==> SameDecision(raw, fLuxCal, fOffset, fNightModeThd, fDayModeThd)
    {
      if fNightModeThd <= fDayModeThd {
        CalibrationMovesThresholds(raw, fLuxCal, fOffset, fNightModeThd, fDayModeThd);
      }
      fLux := raw;
      if fLuxCal != 0.0 {
        fLux := fLux * fLuxCal;
      }
      fLux := fLux + fOffset;
    }

    /** The comparison of the calibrated value with the two thresholds. */
    method Judge() returns (rtn: int)
      modifies this`bIsNightMode, this`u8DayModeCounts, this`u8NightModeCounts, this`commands
      ensures Now() == Process(old(Now()), fLux < fNightModeThd, fLux > fDayModeThd, sTriggerCounts)
      ensures fNightModeThd <= fDayModeThd ==>
                commands == old(commands) +
                if bIsNightMode != old(bIsNightMode) then Force(bIsNightMode == Night) else []
      ensures Returns(rtn, Reported(old(Now()), fLux < fNightModeThd, fLux > fDayModeThd, sTriggerCounts))
      ensures rtn == NV_MODE_DAY ==> bIsNightMode == Day
      ensures rtn == NV_MODE_STATE_NIGHT ==> bIsNightMode == Night
      ensures bIsNightMode != old(bIsNightMode) ==> rtn != NOT_THING
    {
      rtn := NOT_THING;
      if fLux < fNightModeThd {
        if u8NightModeCounts >= sTriggerCounts - 1 {
          u8DayModeCounts := 0;
          NightModeSet();
          rtn := NV_MODE_STATE_NIGHT;
        } else {
          u8NightModeCounts := Inc(u8NightModeCounts);
        }
      }
      if fLux > fDayModeThd {
        if u8DayModeCounts >= sTriggerCounts - 1 {
          u8NightModeCounts := 0;
          DayModeSet();
          rtn := NV_MODE_DAY;
        } else {
          u8DayModeCounts := Inc(u8DayModeCounts);
        }
      }
    }
  }
}
