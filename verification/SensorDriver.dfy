/** The accelerometer driver's record, updated in place by its calls
    (st_lis2dw12_core.c, st_lis2dw12_events.c). */
module SensorDriver {
  import opened Basics
  import opened EventArbitration
  import opened SensorRates

  class Driver {
    const chip: Chip
    var accOdr: nat
    var tempOdr: nat
    var accOn: bool
    var tempOn: bool
    var events: set<nat>
    var reqOdrEvents: nat
    var stdLevel: nat
    var ctrl1: nat
    var int1: bv8
    var doubleTap: bool

    function State(): Hw
      reads this
    {
      Hw(chip, accOdr, tempOdr, accOn, tempOn, events, reqOdrEvents, stdLevel, ctrl1, int1, doubleTap)
    }

    /** After probe: both sensors off at their lowest rate, no event enabled. */
    constructor (chip: Chip, int1: bv8)
      requires int1 & EVENT_BITS == 0
      ensures State() == Initial(chip, int1)
      ensures Valid(State()) && Agreed(State()) && RateAgreed(State())
    {
      this.chip := chip;
      accOdr, tempOdr, accOn, tempOn := AccTable(chip)[1].hz, TEMP_TABLE[1].hz, false, false;
      events, reqOdrEvents, stdLevel, ctrl1, doubleTap := {}, 0, 0, 0, false;
      this.int1 := int1;
      InitiallyValid(chip);
      InitiallyAgreed(chip, int1);
    }

    method GetOdrIdx(sensor: Sensor, odr: nat) returns (ok: bool, idx: nat)
      ensures ok == (FindRate(Table(chip, sensor), odr) < |Table(chip, sensor)|)
      ensures ok ==> idx == FindRate(Table(chip, sensor), odr)
    {
      var table := Table(chip, sensor);
      idx := 0;
      while idx < |table|
        invariant 0 <= idx <= |table|
        invariant forall k :: 0 <= k < idx ==> table[k].hz != odr
      {
        if table[idx].hz == odr {
          break;
        }
        idx := idx + 1;
      }
      FindRateIs(table, odr, idx);
      ok := idx < |table|;
    }

    method SetStdLevel(odr: nat) returns (ok: bool)
      modifies this`stdLevel
      ensures ok == (FindRate(STD_TABLE, odr) < |STD_TABLE|)
      ensures stdLevel == if ok then STD_TABLE[FindRate(STD_TABLE, odr)].val else old(stdLevel)
    {
      var i := 0;
      while i < |STD_TABLE|
        invariant 0 <= i <= |STD_TABLE|
        invariant forall k :: 0 <= k < i ==> STD_TABLE[k].hz != odr
      {
        if STD_TABLE[i].hz == odr {
          break;
        }
        i := i + 1;
      }
      FindRateIs(STD_TABLE, odr, i);
      if i == |STD_TABLE| {
        return false;
      }
      stdLevel := STD_TABLE[i].val;
      ok := true;
    }

    /** The rate that also serves another sensor. */
    method CheckOdrDependency(odr: nat, ref: Sensor) returns (ret: nat)
      ensures ret == Max(odr, if On(State(), ref) then Odr(State(), ref) else 0)
    {
      if odr > 0 {
        if On(State(), ref) {
          ret := Max(Odr(State(), ref), odr);
        } else {
          ret := odr;
        }
      } else {
        ret := if On(State(), ref) then Odr(State(), ref) else 0;
      }
    }

    /** The loop over the other sensors. */
    method WantedOdr(sensor: Sensor, reqOdr: nat) returns (updOdr: nat)
      ensures updOdr == Max(reqOdr, if On(State(), Other(sensor)) then Odr(State(), Other(sensor)) else 0)
    {
      updOdr := reqOdr;
      for i := 0 to 2
        invariant updOdr == if i == 0 || (i == 1 && sensor == Acc) then reqOdr
                            else Max(reqOdr, if On(State(), Other(sensor)) then Odr(State(), Other(sensor)) else 0)
      {
        var id := if i == 0 then Acc else Temp;
        if id == sensor {
          continue;
        }
        var odr := CheckOdrDependency(updOdr, id);
        if odr > updOdr {
          updOdr := odr;
        }
      }
    }

    method SetOdr(sensor: Sensor, reqOdr: nat, busOk: bool) returns (ok: bool)
      modifies this`ctrl1
      ensures Outcome(State(), ok) == SensorRates.SetOdr(old(State()), sensor, reqOdr, busOk)
    {
      var updOdr := WantedOdr(sensor, reqOdr);
      var mode := 0;
      ghost var wanted := updOdr;
      if updOdr > 100 {
        if chip != Ais2dw12 {
          updOdr := 100;
        } else {
          mode := 1;
        }
      }
      updOdr := Max(reqOdrEvents, if reqOdr > 0 then updOdr else 0);
      var i;
      ok, i := GetOdrIdx(Acc, updOdr);
      CodeIs(State(), sensor, reqOdr, wanted, updOdr, mode, busOk);
      if !ok {
        return false;
      }
      var val := AccTable(chip)[i].val * 16 + mode * 4 + 1;
      if !busOk {
        return false;
      }
      ctrl1 := val;
    }

    /** fault: the thermometer's period is computed by dividing by its rate, 0 included; the
        model goes no further then. */
    method SensorSetEnable(sensor: Sensor, enable: bool, busOk: bool) returns (ok: bool, fault: bool)
      modifies this`ctrl1, this`accOn, this`tempOn
      ensures fault <==> enable && sensor == Temp && tempOdr == 0 && SetEnable(old(State()), sensor, enable, busOk).ok
      ensures !fault ==> Outcome(State(), ok) == SetEnable(old(State()), sensor, enable, busOk)
    {
      fault := false;
      var val := if enable then Odr(State(), sensor) else 0;
      ok := SetOdr(sensor, val, busOk);
      if !ok {
        return;
      }
      if enable && sensor == Temp && tempOdr == 0 {
        fault := true;
        return;
      }
      if sensor == Acc {
        accOn := enable;
      } else {
        tempOn := enable;
      }
    }

    method WriteSampFreq(sensor: Sensor, val: int) returns (ok: bool)
      modifies this`stdLevel, this`accOdr, this`tempOdr
      ensures Outcome(State(), ok) == SampFreq(old(State()), sensor, val)
    {
      var hz := val % 0x1_0000;
      if sensor == Acc {
        ok := SetStdLevel(hz);
        if !ok {
          return;
        }
      }
      assert State() == StdLevel(old(State()), sensor, hz).hw;
      var data;
      ok, data := GetOdrIdx(sensor, hz);
      if ok {
        if sensor == Acc {
          accOdr := hz;
        } else {
          tempOdr := hz;
        }
      }
    }

    method CheckEventsOdrDependency(odr: nat, id: nat, enable: bool) returns (ret: nat)
      ensures ret == Scan(EventRates(chip), events, odr, id, enable, EVENT_MAX)
      ensures Supported(chip, id) && odr == EventRates(chip)[id] ==>
                ret == Required(EventRates(chip), Toggle(events, id, enable), EVENT_MAX)
    {
      if Supported(chip, id) {
        ScanIsRequired(State(), id, enable);
      }
      var rates := EventRates(chip);
      ret := 0;
      for i := 0 to EVENT_MAX
        invariant ret == Scan(rates, events, odr, id, enable, i)
      {
        if rates[i] == 0 {
          continue;
        }
        var currentOdr := rates[i];
        if i in events {
          if i == id && !enable {
            continue;
          }
          ret := Max(currentOdr, if enable then odr else ret);
        } else if i == id {
          ret := if enable then Max(currentOdr, odr) else ret;
        }
      }
    }

    /** done is how many of the call's bus accesses succeed.  unknown: the call comes to
        take the lowest set bit of an interrupt mask of 0, the mask of an event the chip
        does not support, and the model goes no further. */
    method WriteEventConfig(id: nat, enable: bool, done: nat) returns (ok: bool, unknown: bool)
      requires id < EVENT_MAX
      modifies this
      ensures unknown <==> !Supported(chip, id) && Accesses(id) - done <= 2
      ensures !unknown ==> Outcome(State(), ok) == ConfigureEvent(old(State()), id, enable, done)
    {
      unknown := false;
      var left: int := Accesses(id) - done;
      if id == DTAP {
        if left >= 4 {
          return false, false;
        }
        doubleTap := enable;
      }
      if left >= 3 {
        return false, false;
      }
      if IrqMask(chip, id) == 0 {
        return false, true;
      }
      var intVal := ManipulateBit(int1, IrqMask(chip, id), enable);
      if left >= 2 {
        return false, false;
      }
      int1 := intVal;
      ok := Arbitrate(id, enable, left <= 0);
    }

    /** The rest of an event call, once the interrupt register is written. */
    method Arbitrate(id: nat, enable: bool, busOk: bool) returns (ok: bool)
      requires id < EVENT_MAX
      modifies this`reqOdrEvents, this`ctrl1, this`events
      ensures Outcome(State(), ok) == FinishEvent(old(State()), id, enable, busOk)
    {
      var reqOdr := CheckEventsOdrDependency(EventRates(chip)[id], id, enable);
      reqOdrEvents := reqOdr;
      ok := SetOdr(Acc, reqOdr, busOk);
      if !ok {
        return;
      }
      if !enable {
        events := events - {id};
      } else {
        events := events + {id};
      }
    }
  }

  function Initial(chip: Chip, int1: bv8): Hw {
    Hw(chip, 12, 12, false, false, {}, 0, 0, 0, int1, false)
  }

  lemma InitiallyValid(chip: Chip)
    ensures forall int1 :: Valid(Initial(chip, int1))
  {
    AccRates(chip, 12);
    TempRates(12);
  }

  lemma InitiallyAgreed(chip: Chip, int1: bv8)
    requires int1 & EVENT_BITS == 0
    ensures Agreed(Initial(chip, int1)) && RateAgreed(Initial(chip, int1))
  {
    NothingRequired(EventRates(chip), EVENT_MAX);
    forall id: nat | id < EVENT_MAX && Supported(chip, id) ensures !BitSet(Initial(chip, int1), id) {
      NoBitSet(chip, id, int1);
    }
  }

  /** A call that disagrees: free fall enabled right after probe, with the bus failing at
      the last access, leaves its bit set and its rate recorded, and no event enabled. */
  lemma FailedEventDisagrees(chip: Chip)
    ensures var o := ConfigureEvent(Initial(chip, 0), FF, true, 2);
            && !o.ok && BitSet(o.hw, FF) && o.hw.events == {} && o.hw.reqOdrEvents == 25
            && !Agreed(o.hw) && !RateAgreed(o.hw)
  {
    var hw := Initial(chip, 0);
    InitiallyValid(chip);
    InitiallyAgreed(chip, 0);
    var req := EventCall(hw, FF, true, 2);
    BitsAfter(hw, ConfigureEvent(hw, FF, true, 2).hw, FF, true);
    OnlyFreeFall(chip);
    NothingRequired(EventRates(chip), EVENT_MAX);
    assert Supported(chip, FF);
  }

  /** The first event enabled after probe, in the numbers of the registers. */
  lemma FirstEvent(chip: Chip, id: nat)
    requires Supported(chip, id)
    ensures var hw := ConfigureEvent(Initial(chip, 0), id, true, 4).hw;
            && hw.events == {id} && hw.doubleTap == (id == 4)
            && hw.int1 == (if id == 0 then 0x10 else if id == 1 then 0x20 else if id == 2 then 0x80
                           else if id == 3 then 0x40 else 0x08)
            && CurrentRate(hw) == (if id <= 2 then 25 else 400)
  {
    var hw := Initial(chip, 0);
    InitiallyValid(chip);
    var req := EventCall(hw, id, true, 4);
    EventTap(hw, id, true, 4);
    EventRate(hw, id, true, 4);
    SingleEvent(EventRates(chip), id, EVENT_MAX);
    assert LowBit(IrqMask(chip, id)) == IrqMask(chip, id);
  }

  lemma {:induction false} SingleEvent(rates: seq<nat>, id: nat, n: nat)
    requires n <= |rates|
    ensures Required(rates, Toggle({}, id, true), n) == if id < n then rates[id] else 0
  {
    if n > 0 {
      SingleEvent(rates, id, n - 1);
    }
  }

  /** The outcome of a rate request, from the numbers the code computes on its way. */
  lemma CodeIs(hw: Hw, sensor: Sensor, req: nat, wanted: nat, upd: nat, mode: nat, busOk: bool)
    requires wanted == Max(req, if On(hw, Other(sensor)) then Odr(hw, Other(sensor)) else 0)
    requires upd == Max(hw.reqOdrEvents, if req > 0 then Clamp(hw.chip, wanted) else 0)
    requires mode == if wanted > 100 && hw.chip == Ais2dw12 then 1 else 0
    ensures var i := FindRate(AccTable(hw.chip), upd);
            SensorRates.SetOdr(hw, sensor, req, busOk) ==
            if i == |AccTable(hw.chip)| || !busOk then Outcome(hw, false)
            else Outcome(hw.(ctrl1 := AccTable(hw.chip)[i].val * 16 + mode * 4 + 1), true)
  {
  }

  lemma {:induction false} NothingRequired(rates: seq<nat>, n: nat)
    requires n <= |rates|
    ensures Required(rates, {}, n) == 0
  {
    if n > 0 {
      NothingRequired(rates, n - 1);
    }
  }

  lemma NoBitSet(chip: Chip, id: nat, reg: bv8)
    requires reg & EVENT_BITS == 0
    ensures reg & IrqMask(chip, id) == 0
  {
  }
}
