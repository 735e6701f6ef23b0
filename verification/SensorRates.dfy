/** Output data rates, enable bits and event bits of the accelerometer driver
    (st_lis2dw12_core.c, st_lis2dw12_events.c). */
module SensorRates {
  import opened Basics
  import opened EventArbitration

  datatype Chip = Lis2dw12 | Iis2dlpc | Ais2ih | Ais2dw12
  datatype Sensor = Acc | Temp

  datatype Rate = Rate(hz: nat, val: nat)

  function AccTable(chip: Chip): seq<Rate> {
    [Rate(0, 0), Rate(12, 2), Rate(25, 3), Rate(50, 4), Rate(100, 5)] +
    if chip == Ais2dw12 then
      [Rate(0, 0), Rate(0, 0), Rate(0, 0), Rate(0, 0)]
    else
      [Rate(200, 6), Rate(400, 7), Rate(800, 8), Rate(1600, 9)]
  }

  const TEMP_TABLE := [Rate(0, 0), Rate(12, 2), Rate(25, 3), Rate(50, 4)]

  /** Samples to drop after power-up, by rate. */
  const STD_TABLE := [Rate(12, 12), Rate(25, 18), Rate(50, 24), Rate(100, 24),
                      Rate(200, 32), Rate(400, 48), Rate(800, 64), Rate(1600, 64)]

  function Table(chip: Chip, sensor: Sensor): seq<Rate> {
    if sensor == Acc then AccTable(chip) else TEMP_TABLE
  }

  predicate Listed(table: seq<Rate>, hz: nat) {
    exists i :: 0 <= i < |table| && table[i].hz == hz
  }

  const EVENT_MAX := 5
  const FF := 0
  const WAKEUP := 1
  const SIXD := 2
  const TAP := 3
  const DTAP := 4

  /** Required rates of the events; the last chip has no tap events. */
  function EventRates(chip: Chip): seq<nat> {
    [25, 25, 25] + if chip == Ais2dw12 then [0, 0] else [400, 400]
  }

  /** Interrupt bits of the events in CTRL4_INT1. */
  function IrqMask(chip: Chip, id: nat): bv8 {
    if id == FF then 0x10
    else if id == WAKEUP then 0x20
    else if id == SIXD then 0x80
    else if chip == Ais2dw12 then 0
    else if id == TAP then 0x40
    else if id == DTAP then 0x08
    else 0
  }

  predicate Supported(chip: Chip, id: nat) {
    id < EVENT_MAX && (chip == Ais2dw12 ==> id <= SIXD)
  }

  /** The driver's record and the two registers it keeps in step. */
  datatype Hw = Hw(chip: Chip, accOdr: nat, tempOdr: nat, accOn: bool, tempOn: bool,
                   events: set<nat>, reqOdrEvents: nat, stdLevel: nat, ctrl1: nat, int1: bv8, doubleTap: bool)

  function Odr(hw: Hw, sensor: Sensor): nat {
    if sensor == Acc then hw.accOdr else hw.tempOdr
  }

  predicate On(hw: Hw, sensor: Sensor) {
    if sensor == Acc then hw.accOn else hw.tempOn
  }

  function Other(sensor: Sensor): Sensor {
    if sensor == Acc then Temp else Acc
  }

  /** Requests above 100 Hz are cut down, except on the chip that has a mode for them. */
  function Clamp(chip: Chip, hz: nat): nat {
    if hz > 100 && chip != Ais2dw12 then 100 else hz
  }

  /** The rate a request comes to. */
  function Target(hw: Hw, sensor: Sensor, req: nat): nat {
    var wanted := Max(req, if On(hw, Other(sensor)) then Odr(hw, Other(sensor)) else 0);
    Max(hw.reqOdrEvents, if req > 0 then Clamp(hw.chip, wanted) else 0)
  }

  /** The rate the hardware runs at for a rate code: 12.5 Hz for code 2 and twice as much
      for each code after it, in whole Hz; power-down for code 0. */
  function HardwareRate(code: nat): nat {
    if 2 <= code <= 9 then 25 * Power(code - 2) / 2 else 0
  }

  function Power(n: nat): nat {
    if n == 0 then 1 else 2 * Power(n - 1)
  }

  /** The rate CTRL1 stands for. */
  function CurrentRate(hw: Hw): nat {
    HardwareRate(hw.ctrl1 / 16)
  }

  /** What every call keeps, bus errors included. */
  predicate Valid(hw: Hw) {
    && hw.accOdr > 0 && Listed(AccTable(hw.chip), hw.accOdr)
    && Listed(TEMP_TABLE, hw.tempOdr)
    && (hw.reqOdrEvents == 0 || Listed(AccTable(hw.chip), hw.reqOdrEvents))
    && forall id :: id in hw.events ==> Supported(hw.chip, id)
  }

  lemma TempRates(hz: nat)
    ensures Listed(TEMP_TABLE, hz) <==> hz in {0, 12, 25, 50}
  {
    assert TEMP_TABLE[0].hz == 0 && TEMP_TABLE[1].hz == 12 && TEMP_TABLE[2].hz == 25 && TEMP_TABLE[3].hz == 50;
  }

  lemma AccRates(chip: Chip, hz: nat)
    ensures Listed(AccTable(chip), hz) <==>
            hz in {0, 12, 25, 50, 100} || (chip != Ais2dw12 && hz in {200, 400, 800, 1600})
  {
    var t := AccTable(chip);
    assert t[0].hz == 0 && t[1].hz == 12 && t[2].hz == 25 && t[3].hz == 50 && t[4].hz == 100;
    if chip != Ais2dw12 {
      assert t[5].hz == 200 && t[6].hz == 400 && t[7].hz == 800 && t[8].hz == 1600;
    }
  }

  /** Rate totality: whatever listed rate is asked for, the rate it comes to is in the
      accelerometer's table, so the search cannot fail. */
  lemma TargetListed(hw: Hw, sensor: Sensor, req: nat)
    requires Valid(hw)
    requires req == 0 || Listed(AccTable(hw.chip), req)
    ensures Listed(AccTable(hw.chip), Target(hw, sensor, req))
  {
    AccRates(hw.chip, req);
    AccRates(hw.chip, hw.accOdr);
    TempRates(hw.tempOdr);
    AccRates(hw.chip, hw.reqOdrEvents);
    AccRates(hw.chip, Target(hw, sensor, req));
  }

  /** The table's codes mean what the table says. */
  lemma CodesMeanRates(chip: Chip, i: nat)
    requires i < |AccTable(chip)|
    ensures HardwareRate(AccTable(chip)[i].val) == AccTable(chip)[i].hz
    ensures AccTable(chip)[i].val == 0 <==> AccTable(chip)[i].hz == 0
  {
    assert Power(1) == 2 && Power(2) == 4 && Power(3) == 8;
    assert Power(4) == 16 && Power(5) == 32 && Power(6) == 64 && Power(7) == 128;
  }

  /** The register runs the hardware at the rate it was made from. */
  lemma CodeRoundTrip(chip: Chip, i: nat, mode: nat)
    requires i < |AccTable(chip)| && mode < 4
    ensures var code := (AccTable(chip)[i].val * 16 + mode * 4 + 1) / 16;
            HardwareRate(code) == AccTable(chip)[i].hz && (code == 0 <==> AccTable(chip)[i].hz == 0)
  {
    var ctrl1 := AccTable(chip)[i].val * 16 + mode * 4 + 1;
    assert ctrl1 / 16 == AccTable(chip)[i].val;
    CodesMeanRates(chip, i);
  }

  /** The lowest set bit of an interrupt mask, as a mask. */
  function LowBit(mask: bv8): bv8 {
    mask & (0 - mask)
  }

  lemma LowBitIsLowest(mask: bv8)
    requires mask != 0
    ensures var b := LowBit(mask); b != 0 && b & (b - 1) == 0 && mask & b == b && mask & (b - 1) == 0
  {
  }

  function ManipulateBit(reg: bv8, mask: bv8, en: bool): bv8 {
    (reg & !LowBit(mask)) | (if en then LowBit(mask) else 0)
  }

  const EVENT_BITS: bv8 := 0xf8

  /** Each supported event's interrupt bit is set exactly when the event is enabled. */
  predicate Agreed(hw: Hw) {
    forall id: nat :: id < EVENT_MAX && Supported(hw.chip, id) ==>
      (BitSet(hw, id) <==> id in hw.events)
  }

  /** The recorded rate is the largest one any enabled event requires. */
  predicate RateAgreed(hw: Hw) {
    hw.reqOdrEvents == Required(EventRates(hw.chip), hw.events, EVENT_MAX)
  }

  /** Setting one event's bit moves that bit and no other. */
  lemma BitMoved(chip: Chip, id: nat, other: nat, reg: bv8, en: bool)
    requires Supported(chip, id) && Supported(chip, other)
    ensures var r := ManipulateBit(reg, IrqMask(chip, id), en);
            && (r & IrqMask(chip, other) != 0 <==> if other == id then en else reg & IrqMask(chip, other) != 0)
            && r & !EVENT_BITS == reg & !EVENT_BITS
  {
    assert LowBit(IrqMask(chip, id)) == IrqMask(chip, id);
  }

  /** The CTRL1 value for a request; the first entry of that rate gives the code. */
  function Ctrl1(hw: Hw, sensor: Sensor, req: nat): nat {
    var i := FindRate(AccTable(hw.chip), Target(hw, sensor, req));
    if i < |AccTable(hw.chip)| then AccTable(hw.chip)[i].val * 16 + Mode(hw, sensor, req) * 4 + 1 else 0
  }

  /** High-performance mode, only where fast requests are not cut down. */
  function Mode(hw: Hw, sensor: Sensor, req: nat): nat {
    var wanted := Max(req, if On(hw, Other(sensor)) then Odr(hw, Other(sensor)) else 0);
    if wanted > 100 && hw.chip == Ais2dw12 then 1 else 0
  }

  function FindRate(table: seq<Rate>, hz: nat): (i: nat)
    ensures i <= |table|
    ensures i < |table| ==> table[i].hz == hz
    ensures forall k :: 0 <= k < i ==> table[k].hz != hz
  {
    if table == [] || table[0].hz == hz then 0 else 1 + FindRate(table[1..], hz)
  }

  lemma FindListed(table: seq<Rate>, hz: nat)
    ensures Listed(table, hz) <==> FindRate(table, hz) < |table|
  {
  }

  lemma FindRateIs(table: seq<Rate>, hz: nat, i: nat)
    requires i <= |table|
    requires i < |table| ==> table[i].hz == hz
    requires forall k :: 0 <= k < i ==> table[k].hz != hz
    ensures FindRate(table, hz) == i
  {
  }

  lemma RatesSorted(chip: Chip)
    ensures |EventRates(chip)| == EVENT_MAX && Sorted(EventRates(chip))
  {
  }

  lemma RequiredListed(chip: Chip, events: set<nat>)
    ensures var r := Required(EventRates(chip), events, EVENT_MAX); r == 0 || Listed(AccTable(chip), r)
  {
    var r := Required(EventRates(chip), events, EVENT_MAX);
    RequiredIsMaximum(EventRates(chip), events, EVENT_MAX);
    AccRates(chip, r);
  }

  lemma CodedTarget(hw: Hw, sensor: Sensor, req: nat)
    requires Valid(hw) && (req == 0 || Listed(AccTable(hw.chip), req))
    ensures FindRate(AccTable(hw.chip), Target(hw, sensor, req)) < |AccTable(hw.chip)|
    ensures HardwareRate(Ctrl1(hw, sensor, req) / 16) == Target(hw, sensor, req)
    ensures Ctrl1(hw, sensor, req) / 16 == 0 <==> Target(hw, sensor, req) == 0
  {
    TargetListed(hw, sensor, req);
    var i := FindRate(AccTable(hw.chip), Target(hw, sensor, req));
    FindListed(AccTable(hw.chip), Target(hw, sensor, req));
    CodeRoundTrip(hw.chip, i, Mode(hw, sensor, req));
  }

  /** The result of a call: the record afterwards and whether the call succeeded. */
  datatype Outcome = Outcome(hw: Hw, ok: bool)

  function SetOdr(hw: Hw, sensor: Sensor, req: nat, busOk: bool): Outcome {
    if FindRate(AccTable(hw.chip), Target(hw, sensor, req)) == |AccTable(hw.chip)| || !busOk then
      Outcome(hw, false)
    else
      Outcome(hw.(ctrl1 := Ctrl1(hw, sensor, req)), true)
  }

  /** A rate request fails only with the bus, and the register then names the rate it
      comes to, which serves the events at least. */
  lemma SetOdrCodes(hw: Hw, sensor: Sensor, req: nat, busOk: bool)
    requires Valid(hw) && (req == 0 || Listed(AccTable(hw.chip), req))
    ensures SetOdr(hw, sensor, req, busOk).ok == busOk
    ensures busOk ==> CurrentRate(SetOdr(hw, sensor, req, busOk).hw) == Target(hw, sensor, req) >= hw.reqOdrEvents
    ensures busOk ==> (SetOdr(hw, sensor, req, busOk).hw.ctrl1 / 16 == 0 <==> Target(hw, sensor, req) == 0)
  {
    CodedTarget(hw, sensor, req);
  }

  function SetEnable(hw: Hw, sensor: Sensor, enable: bool, busOk: bool): Outcome {
    var o := SetOdr(hw, sensor, if enable then Odr(hw, sensor) else 0, busOk);
    if !o.ok then o
    else if sensor == Acc then Outcome(o.hw.(accOn := enable), true)
    else Outcome(o.hw.(tempOn := enable), true)
  }

  /** The accelerometer's sample level for a rate; the thermometer has none. */
  function StdLevel(hw: Hw, sensor: Sensor, hz: nat): Outcome {
    var k := FindRate(STD_TABLE, hz);
    if sensor == Temp then Outcome(hw, true)
    else if k == |STD_TABLE| then Outcome(hw, false)
    else Outcome(hw.(stdLevel := STD_TABLE[k].val), true)
  }

  function StoreRate(hw: Hw, sensor: Sensor, hz: nat): Outcome {
    if FindRate(Table(hw.chip, sensor), hz) == |Table(hw.chip, sensor)| then Outcome(hw, false)
    else if sensor == Acc then Outcome(hw.(accOdr := hz), true)
    else Outcome(hw.(tempOdr := hz), true)
  }

  /** A rate write; the value is cut to 16 bits.  The accelerometer's sample level is set
      before the rate is looked up, so it changes even when the rate is refused. */
  function SampFreq(hw: Hw, sensor: Sensor, val: int): Outcome {
    var o := StdLevel(hw, sensor, val % 0x1_0000);
    if o.ok then StoreRate(o.hw, sensor, val % 0x1_0000) else o
  }

  /** The bus accesses of an event call: a double tap has one more, ahead of the rest. */
  function Accesses(id: nat): nat {
    if id == DTAP then 4 else 3
  }

  /** An event call of which the first done bus accesses succeed. */
  function ConfigureEvent(hw: Hw, id: nat, enable: bool, done: nat): Outcome
    requires id < EVENT_MAX
  {
    var left := Accesses(id) - done;
    var hw1 := if id == DTAP && left < 4 then hw.(doubleTap := enable) else hw;
    if left >= 2 then
      Outcome(hw1, false)
    else
      FinishEvent(hw1.(int1 := ManipulateBit(hw1.int1, IrqMask(hw1.chip, id), enable)), id, enable, left <= 0)
  }

  /** The call once the interrupt register is written: the rate, then the event set. */
  function FinishEvent(hw: Hw, id: nat, enable: bool, busOk: bool): Outcome
    requires id < EVENT_MAX
  {
    var rates := EventRates(hw.chip);
    var req := Scan(rates, hw.events, rates[id], id, enable, EVENT_MAX);
    var o := SetOdr(hw.(reqOdrEvents := req), Acc, req, busOk);
    if o.ok then Outcome(o.hw.(events := Toggle(hw.events, id, enable)), true) else o
  }

  datatype Op =
    | EventOp(id: nat, enable: bool, done: nat)
    | PowerOp(sensor: Sensor, enable: bool, busOk: bool)
    | SampFreqOp(sensor: Sensor, val: int)

  predicate Allowed(hw: Hw, op: Op) {
    op.EventOp? ==> Supported(hw.chip, op.id)
  }

  /** All bus accesses of the operation succeed. */
  predicate Clean(op: Op) {
    match op
    case EventOp(id, _, done) => done >= Accesses(id)
    case PowerOp(_, _, busOk) => busOk
    case SampFreqOp(_, _) => true
  }

  function Step(hw: Hw, op: Op): Outcome
    requires Allowed(hw, op)
  {
    match op
    case EventOp(id, enable, done) => ConfigureEvent(hw, id, enable, done)
    case PowerOp(sensor, enable, busOk) => SetEnable(hw, sensor, enable, busOk)
    case SampFreqOp(sensor, val) => SampFreq(hw, sensor, val)
  }

  lemma ScanIsRequired(hw: Hw, id: nat, enable: bool)
    requires Supported(hw.chip, id)
    ensures var rates := EventRates(hw.chip);
            var req := Scan(rates, hw.events, rates[id], id, enable, EVENT_MAX);
            && req == Required(rates, Toggle(hw.events, id, enable), EVENT_MAX)
            && (req == 0 || Listed(AccTable(hw.chip), req))
  {
    var rates := EventRates(hw.chip);
    RatesSorted(hw.chip);
    if enable {
      ScanEnables(rates, hw.events, id, EVENT_MAX);
    } else {
      ScanDisables(rates, hw.events, rates[id], id, EVENT_MAX);
    }
    RequiredListed(hw.chip, Toggle(hw.events, id, enable));
  }

  lemma SampFreqValid(hw: Hw, sensor: Sensor, val: int)
    requires Valid(hw)
    ensures Valid(SampFreq(hw, sensor, val).hw) && SampFreq(hw, sensor, val).hw.chip == hw.chip
  {
    var hz := val % 0x1_0000;
    var hw' := StdLevel(hw, sensor, hz).hw;
    NoLevelForZero();
    if StdLevel(hw, sensor, hz).ok {
      StoreRateValid(hw', sensor, hz);
    }
  }

  lemma NoLevelForZero()
    ensures FindRate(STD_TABLE, 0) == |STD_TABLE|
  {
    ZeroNotListed(STD_TABLE);
  }

  lemma ZeroNotListed(table: seq<Rate>)
    requires forall i :: 0 <= i < |table| ==> table[i].hz != 0
    ensures FindRate(table, 0) == |table|
  {
  }

  lemma StoreRateValid(hw: Hw, sensor: Sensor, hz: nat)
    requires Valid(hw) && (sensor == Acc ==> hz > 0)
    ensures Valid(StoreRate(hw, sensor, hz).hw) && StoreRate(hw, sensor, hz).hw.chip == hw.chip
  {
    FindListed(Table(hw.chip, sensor), hz);
  }

  /** What the second half of an event call does to each field, given that the rate req
      it comes to is listed. */
  lemma FinishFields(hw: Hw, id: nat, enable: bool, busOk: bool, req: nat)
    requires id < EVENT_MAX
    requires req == Scan(EventRates(hw.chip), hw.events, EventRates(hw.chip)[id], id, enable, EVENT_MAX)
    requires FindRate(AccTable(hw.chip), Target(hw.(reqOdrEvents := req), Acc, req)) < |AccTable(hw.chip)|
    ensures var o := FinishEvent(hw, id, enable, busOk);
            && o.ok == busOk
            && o.hw.chip == hw.chip && o.hw.accOdr == hw.accOdr && o.hw.tempOdr == hw.tempOdr
            && o.hw.events == (if busOk then Toggle(hw.events, id, enable) else hw.events)
            && o.hw.int1 == hw.int1 && o.hw.reqOdrEvents == req
  {
  }

  /** What an event call does to each field, given that the rate req it comes to is
      listed; the bits it sets do not enter into that rate. */
  lemma EventFields(hw: Hw, id: nat, enable: bool, done: nat, req: nat)
    requires Supported(hw.chip, id)
    requires req == Scan(EventRates(hw.chip), hw.events, EventRates(hw.chip)[id], id, enable, EVENT_MAX)
    requires FindRate(AccTable(hw.chip), Target(hw.(reqOdrEvents := req), Acc, req)) < |AccTable(hw.chip)|
    ensures var o := ConfigureEvent(hw, id, enable, done);
            && o.ok == (done >= Accesses(id))
            && o.hw.chip == hw.chip && o.hw.accOdr == hw.accOdr && o.hw.tempOdr == hw.tempOdr
            && o.hw.events == (if o.ok then Toggle(hw.events, id, enable) else hw.events)
            && (Accesses(id) - done < 2 ==>
                 && o.hw.int1 == ManipulateBit(hw.int1, IrqMask(hw.chip, id), enable)
                 && o.hw.reqOdrEvents == req)
            && (Accesses(id) - done >= 2 ==> o.hw.int1 == hw.int1 && o.hw.reqOdrEvents == hw.reqOdrEvents)
  {
    if Accesses(id) - done < 2 {
      var hw1 := if id == DTAP then hw.(doubleTap := enable) else hw;
      var hw2 := hw1.(int1 := ManipulateBit(hw1.int1, IrqMask(hw1.chip, id), enable));
      assert Target(hw2.(reqOdrEvents := req), Acc, req) == Target(hw.(reqOdrEvents := req), Acc, req);
      FinishFields(hw2, id, enable, done >= Accesses(id), req);
    }
  }

  lemma EventCall(hw: Hw, id: nat, enable: bool, done: nat) returns (req: nat)
    requires Valid(hw) && Supported(hw.chip, id)
    ensures req == Required(EventRates(hw.chip), Toggle(hw.events, id, enable), EVENT_MAX)
    ensures var o := ConfigureEvent(hw, id, enable, done);
            && o.ok == (done >= Accesses(id))
            && o.hw.chip == hw.chip && o.hw.accOdr == hw.accOdr && o.hw.tempOdr == hw.tempOdr
            && o.hw.events == (if o.ok then Toggle(hw.events, id, enable) else hw.events)
            && (Accesses(id) - done < 2 ==>
                 && o.hw.int1 == ManipulateBit(hw.int1, IrqMask(hw.chip, id), enable)
                 && o.hw.reqOdrEvents == req)
            && (Accesses(id) - done >= 2 ==> o.hw.int1 == hw.int1 && o.hw.reqOdrEvents == hw.reqOdrEvents)
  {
    req := Scan(EventRates(hw.chip), hw.events, EventRates(hw.chip)[id], id, enable, EVENT_MAX);
    ScanIsRequired(hw, id, enable);
    CodedTarget(hw.(reqOdrEvents := req), Acc, req);
    EventFields(hw, id, enable, done, req);
  }

  lemma EventValid(hw: Hw, id: nat, enable: bool, done: nat)
    requires Valid(hw) && Supported(hw.chip, id)
    ensures Valid(ConfigureEvent(hw, id, enable, done).hw) && ConfigureEvent(hw, id, enable, done).hw.chip == hw.chip
    ensures ConfigureEvent(hw, id, enable, done).ok == (done >= Accesses(id))
  {
    var _ := EventCall(hw, id, enable, done);
    RequiredListed(hw.chip, Toggle(hw.events, id, enable));
  }

  lemma PowerValid(hw: Hw, sensor: Sensor, enable: bool, busOk: bool)
    requires Valid(hw)
    ensures Valid(SetEnable(hw, sensor, enable, busOk).hw) && SetEnable(hw, sensor, enable, busOk).hw.chip == hw.chip
    ensures SetEnable(hw, sensor, enable, busOk).ok == busOk
  {
    AccRates(hw.chip, hw.tempOdr);
    TempRates(hw.tempOdr);
    CodedTarget(hw, sensor, if enable then Odr(hw, sensor) else 0);
  }

  /** Rate totality, one step: the rate search never fails, so an event or power call
      fails only when the bus does; and whatever fails, the state stays valid. */
  lemma StepValid(hw: Hw, op: Op)
    requires Valid(hw) && Allowed(hw, op)
    ensures Valid(Step(hw, op).hw) && Step(hw, op).hw.chip == hw.chip
    ensures !op.SampFreqOp? ==> Step(hw, op).ok == Clean(op)
  {
    match op {
      case EventOp(id, enable, done) =>
        EventValid(hw, id, enable, done);
      case PowerOp(sensor, enable, busOk) =>
        PowerValid(hw, sensor, enable, busOk);
      case SampFreqOp(sensor, val) =>
        SampFreqValid(hw, sensor, val);
    }
  }

  predicate BitSet(hw: Hw, id: nat) {
    hw.int1 & IrqMask(hw.chip, id) != 0
  }

  /** The interrupt bits after an event's bit has been written. */
  lemma BitsAfter(hw: Hw, hw': Hw, id: nat, enable: bool)
    requires Supported(hw.chip, id) && hw'.chip == hw.chip
    requires hw'.int1 == ManipulateBit(hw.int1, IrqMask(hw.chip, id), enable)
    ensures forall other: nat :: other < EVENT_MAX && Supported(hw.chip, other) ==>
              (BitSet(hw', other) <==> if other == id then enable else BitSet(hw, other))
    ensures hw'.int1 & !EVENT_BITS == hw.int1 & !EVENT_BITS
  {
    forall other: nat | other < EVENT_MAX && Supported(hw.chip, other)
      ensures BitSet(hw', other) <==> if other == id then enable else BitSet(hw, other)
    {
      BitAfter(hw, hw', id, other, enable);
    }
    BitMoved(hw.chip, id, id, hw.int1, enable);
  }

  lemma BitAfter(hw: Hw, hw': Hw, id: nat, other: nat, enable: bool)
    requires Supported(hw.chip, id) && Supported(hw.chip, other) && hw'.chip == hw.chip
    requires hw'.int1 == ManipulateBit(hw.int1, IrqMask(hw.chip, id), enable)
    ensures BitSet(hw', other) <==> if other == id then enable else BitSet(hw, other)
  {
    BitMoved(hw.chip, id, other, hw.int1, enable);
  }

  /** A successful event call keeps bit and set in agreement and records the exact
      maximum. */
  lemma EventAgrees(hw: Hw, id: nat, enable: bool, done: nat)
    requires Valid(hw) && Supported(hw.chip, id) && Agreed(hw) && done >= Accesses(id)
    ensures var hw' := ConfigureEvent(hw, id, enable, done).hw;
            && Agreed(hw') && RateAgreed(hw')
            && hw'.int1 & !EVENT_BITS == hw.int1 & !EVENT_BITS
            && hw'.events == Toggle(hw.events, id, enable)
  {
    var _ := EventCall(hw, id, enable, done);
    BitsAfter(hw, ConfigureEvent(hw, id, enable, done).hw, id, enable);
  }

  predicate SameEvents(hw: Hw, hw': Hw) {
    && hw'.chip == hw.chip && hw'.int1 == hw.int1
    && hw'.events == hw.events && hw'.reqOdrEvents == hw.reqOdrEvents && hw'.doubleTap == hw.doubleTap
  }

  lemma OthersKeepEvents(hw: Hw, op: Op)
    requires Allowed(hw, op) && !op.EventOp?
    ensures SameEvents(hw, Step(hw, op).hw)
  {
    match op {
      case PowerOp(sensor, enable, busOk) =>
        assert SameEvents(hw, SetOdr(hw, sensor, if enable then Odr(hw, sensor) else 0, busOk).hw);
      case SampFreqOp(sensor, val) =>
        var hw' := StdLevel(hw, sensor, val % 0x1_0000).hw;
        assert SameEvents(hw, hw') && SameEvents(hw', StoreRate(hw', sensor, val % 0x1_0000).hw);
    }
  }

  /** A failed event call keeps the agreement of bit and set exactly when it fails before
      the interrupt register is written, or asks for what was already so; it keeps the
      recorded rate exactly when it fails that early or the rate would be the same. */
  lemma FailureAgrees(hw: Hw, id: nat, enable: bool, done: nat)
    requires Valid(hw) && Supported(hw.chip, id) && done < Accesses(id)
    ensures Agreed(hw) ==>
              (Agreed(ConfigureEvent(hw, id, enable, done).hw)
               <==> Accesses(id) - done >= 2 || (id in hw.events) == enable)
    ensures RateAgreed(hw) ==>
              (RateAgreed(ConfigureEvent(hw, id, enable, done).hw)
               <==> Accesses(id) - done >= 2
                    || Required(EventRates(hw.chip), Toggle(hw.events, id, enable), EVENT_MAX)
                       == Required(EventRates(hw.chip), hw.events, EVENT_MAX))
  {
    var _ := EventCall(hw, id, enable, done);
    var hw' := ConfigureEvent(hw, id, enable, done).hw;
    if Accesses(id) - done < 2 {
      BitsAfter(hw, hw', id, enable);
      assert BitSet(hw', id) <==> enable;
    }
  }

  /** The operation leaves bits, events and recorded rate in agreement: it is no event
      call, or one that succeeds, fails early, or asks for what is already so. */
  predicate Harmless(hw: Hw, op: Op) {
    op.EventOp? && !Clean(op) ==> Accesses(op.id) - op.done >= 2 || (op.id in hw.events) == op.enable
  }

  predicate InStep(hw: Hw) {
    Agreed(hw) && RateAgreed(hw)
  }

  lemma ToggleNothing(events: set<nat>, id: nat, enable: bool)
    requires (id in events) == enable
    ensures Toggle(events, id, enable) == events
  {
  }

  lemma StepInStep(hw: Hw, op: Op)
    requires Valid(hw) && Allowed(hw, op) && InStep(hw)
    ensures InStep(Step(hw, op).hw) <==> Harmless(hw, op)
    ensures Step(hw, op).hw.int1 & !EVENT_BITS == hw.int1 & !EVENT_BITS
  {
    if op.EventOp? {
      FailureKeepsRest(hw, op.id, op.enable, op.done);
      if Clean(op) {
        EventAgrees(hw, op.id, op.enable, op.done);
      } else {
        FailureInStep(hw, op.id, op.enable, op.done);
      }
    } else {
      OthersKeepEvents(hw, op);
      SameInStep(hw, Step(hw, op).hw);
    }
  }

  lemma SameInStep(hw: Hw, hw': Hw)
    requires SameEvents(hw, hw') && InStep(hw)
    ensures InStep(hw')
  {
    assert forall id: nat :: id < EVENT_MAX ==> (BitSet(hw', id) <==> BitSet(hw, id));
  }

  lemma FailureInStep(hw: Hw, id: nat, enable: bool, done: nat)
    requires Valid(hw) && Supported(hw.chip, id) && done < Accesses(id) && InStep(hw)
    ensures InStep(ConfigureEvent(hw, id, enable, done).hw)
            <==> Accesses(id) - done >= 2 || (id in hw.events) == enable
  {
    FailureAgrees(hw, id, enable, done);
    if (id in hw.events) == enable {
      ToggleNothing(hw.events, id, enable);
    }
  }

  lemma FailureKeepsRest(hw: Hw, id: nat, enable: bool, done: nat)
    requires Valid(hw) && Supported(hw.chip, id)
    ensures ConfigureEvent(hw, id, enable, done).hw.int1 & !EVENT_BITS == hw.int1 & !EVENT_BITS
  {
    var _ := EventCall(hw, id, enable, done);
    if Accesses(id) - done < 2 {
      BitsAfter(hw, ConfigureEvent(hw, id, enable, done).hw, id, enable);
    }
  }

  predicate AllowedRun(hw: Hw, ops: seq<Op>)
    decreases |ops|
  {
    ops != [] ==> Allowed(hw, ops[0]) && AllowedRun(Step(hw, ops[0]).hw, ops[1..])
  }

  function Run(hw: Hw, ops: seq<Op>): Hw
    requires AllowedRun(hw, ops)
    decreases |ops|
  {
    if ops == [] then hw else Run(Step(hw, ops[0]).hw, ops[1..])
  }

  /** Over every run, failures of the bus included, the state stays valid, so that the
      rate search of the next event or power call succeeds. */
  lemma {:induction false} RateTotality(hw: Hw, ops: seq<Op>, next: Op)
    requires Valid(hw) && AllowedRun(hw, ops) && Allowed(Run(hw, ops), next)
    ensures Valid(Run(hw, ops))
    ensures !next.SampFreqOp? && Clean(next) ==> Step(Run(hw, ops), next).ok
    decreases |ops|
  {
    if ops == [] {
      StepValid(hw, next);
    } else {
      StepValid(hw, ops[0]);
      RateTotality(Step(hw, ops[0]).hw, ops[1..], next);
    }
  }

  predicate HarmlessRun(hw: Hw, ops: seq<Op>)
    requires AllowedRun(hw, ops)
    decreases |ops|
  {
    ops != [] ==> Harmless(hw, ops[0]) && HarmlessRun(Step(hw, ops[0]).hw, ops[1..])
  }

  /** After every prefix of the run, bits match events and the rate is the maximum. */
  predicate StaysInStep(hw: Hw, ops: seq<Op>)
    requires AllowedRun(hw, ops)
    decreases |ops|
  {
    InStep(hw) && (ops != [] ==> StaysInStep(Step(hw, ops[0]).hw, ops[1..]))
  }

  /** Event agreement over every run, bus failures included: the interrupt bits match the
      enabled events and the recorded rate is the exact maximum throughout, if and only if
      no event call that would change something fails after the register write.  The
      other bits of the register never change in any run. */
  lemma {:induction false} EventAgreement(hw: Hw, ops: seq<Op>)
    requires Valid(hw) && InStep(hw) && AllowedRun(hw, ops)
    ensures StaysInStep(hw, ops) <==> HarmlessRun(hw, ops)
    ensures HarmlessRun(hw, ops) ==> InStep(Run(hw, ops))
    decreases |ops|
  {
    if ops != [] {
      StepValid(hw, ops[0]);
      StepInStep(hw, ops[0]);
      if Harmless(hw, ops[0]) {
        EventAgreement(Step(hw, ops[0]).hw, ops[1..]);
      }
    }
  }

  lemma {:induction false} OtherBitsKept(hw: Hw, ops: seq<Op>)
    requires Valid(hw) && AllowedRun(hw, ops)
    ensures Run(hw, ops).int1 & !EVENT_BITS == hw.int1 & !EVENT_BITS
    decreases |ops|
  {
    if ops != [] {
      StepValid(hw, ops[0]);
      if ops[0].EventOp? {
        FailureKeepsRest(hw, ops[0].id, ops[0].enable, ops[0].done);
      } else {
        OthersKeepEvents(hw, ops[0]);
      }
      OtherBitsKept(Step(hw, ops[0]).hw, ops[1..]);
    }
  }

  /** The register's rate serves every enabled sensor, up to the 100 Hz cut. */
  predicate Covered(hw: Hw) {
    forall s :: On(hw, s) ==> CurrentRate(hw) >= Clamp(hw.chip, Odr(hw, s))
  }

  /** What decides coverage after a call.  A power call asks for the caller's own rate
      when it enables and for 0 when it disables; an event call asks for the events' rate
      and passes over the accelerometer's own; a rate write leaves the register alone, and
      so does a call the bus fails. */
  predicate Covers(hw: Hw, op: Op)
    requires Allowed(hw, op)
  {
    if !Clean(op) then
      Covered(hw)
    else
      match op
      case PowerOp(sensor, enable, _) =>
        On(hw, Other(sensor)) ==>
          (enable && Odr(hw, sensor) > 0) || Clamp(hw.chip, Odr(hw, Other(sensor))) <= hw.reqOdrEvents
      case EventOp(id, enable, _) =>
        var r := Required(EventRates(hw.chip), Toggle(hw.events, id, enable), EVENT_MAX);
        && (hw.tempOn ==> r > 0 || hw.tempOdr == 0)
        && (hw.accOn ==> r > 0 && Clamp(hw.chip, hw.accOdr) <= Max(r, if hw.tempOn then hw.tempOdr else 0))
      case SampFreqOp(sensor, val) =>
        var hz := val % 0x1_0000;
        && Serves(hw, Other(sensor), Odr(hw, Other(sensor)))
        && Serves(hw, sensor, if Accepted(hw.chip, sensor, hz) then hz else Odr(hw, sensor))
  }

  /** The register's rate serves sensor s, if it is enabled, at rate hz. */
  predicate Serves(hw: Hw, s: Sensor, hz: nat) {
    On(hw, s) ==> CurrentRate(hw) >= Clamp(hw.chip, hz)
  }

  /** The rates a sensor takes: its table's, and for the accelerometer only those that have
      a sample level. */
  predicate Accepted(chip: Chip, sensor: Sensor, hz: nat) {
    Listed(Table(chip, sensor), hz) && (sensor == Acc ==> Listed(STD_TABLE, hz))
  }

  lemma CoveredBoth(hw: Hw, s: Sensor)
    ensures Covered(hw) <==> Serves(hw, s, Odr(hw, s)) && Serves(hw, Other(s), Odr(hw, Other(s)))
  {
    assert Serves(hw, s, Odr(hw, s)) <==> (On(hw, s) ==> CurrentRate(hw) >= Clamp(hw.chip, Odr(hw, s)));
  }

  lemma PowerRate(hw: Hw, sensor: Sensor, enable: bool)
    requires Valid(hw)
    ensures CurrentRate(SetEnable(hw, sensor, enable, true).hw)
            == Target(hw, sensor, if enable then Odr(hw, sensor) else 0)
  {
    AccRates(hw.chip, hw.tempOdr);
    TempRates(hw.tempOdr);
    SetOdrCodes(hw, sensor, if enable then Odr(hw, sensor) else 0, true);
  }

  lemma FinishRate(hw: Hw, id: nat, enable: bool, r: nat)
    requires id < EVENT_MAX && Valid(hw.(reqOdrEvents := r)) && (r == 0 || Listed(AccTable(hw.chip), r))
    requires r == Scan(EventRates(hw.chip), hw.events, EventRates(hw.chip)[id], id, enable, EVENT_MAX)
    ensures var hw' := FinishEvent(hw, id, enable, true).hw;
            && CurrentRate(hw') == Target(hw.(reqOdrEvents := r), Acc, r)
            && SameSensors(hw, hw')
  {
    SetOdrCodes(hw.(reqOdrEvents := r), Acc, r, true);
  }

  predicate SameSensors(hw: Hw, hw': Hw) {
    && hw'.chip == hw.chip
    && hw'.accOn == hw.accOn && hw'.tempOn == hw.tempOn
    && hw'.accOdr == hw.accOdr && hw'.tempOdr == hw.tempOdr
  }

  lemma EventRate(hw: Hw, id: nat, enable: bool, done: nat)
    requires Valid(hw) && Supported(hw.chip, id) && done >= Accesses(id)
    ensures var r := Required(EventRates(hw.chip), Toggle(hw.events, id, enable), EVENT_MAX);
            var hw' := ConfigureEvent(hw, id, enable, done).hw;
            && CurrentRate(hw') == Target(hw.(reqOdrEvents := r), Acc, r)
            && SameSensors(hw, hw')
  {
    ScanIsRequired(hw, id, enable);
    var r := Required(EventRates(hw.chip), Toggle(hw.events, id, enable), EVENT_MAX);
    var hw1 := WithBit(hw, id, enable);
    FinishRate(hw1, id, enable, r);
    assert Target(hw1.(reqOdrEvents := r), Acc, r) == Target(hw.(reqOdrEvents := r), Acc, r);
    BitThenFinish(hw, id, enable, done);
  }

  /** What the register comes to, in numbers: a power call that asks for a rate gets the
      largest of its own, the other sensor's and 100 Hz at most, or the events' rate if that
      is more; one that asks for none leaves the events' rate.  An event call gets the
      largest of the rates its events require and the thermometer's, and 0 for no event. */
  lemma RegisterRate(hw: Hw, op: Op)
    requires Valid(hw) && Allowed(hw, op) && Clean(op) && !op.SampFreqOp?
    ensures CurrentRate(Step(hw, op).hw) ==
            match op
            case PowerOp(sensor, enable, _) =>
              var other := if On(hw, Other(sensor)) then Odr(hw, Other(sensor)) else 0;
              if enable && Odr(hw, sensor) > 0 then
                Max(hw.reqOdrEvents, Min(100, Max(Odr(hw, sensor), other)))
              else
                hw.reqOdrEvents
            case EventOp(id, enable, _) =>
              var r := Required(EventRates(hw.chip), Toggle(hw.events, id, enable), EVENT_MAX);
              if r == 0 then 0 else Max(r, if hw.tempOn then hw.tempOdr else 0)
  {
    AccRates(hw.chip, hw.accOdr);
    TempRates(hw.tempOdr);
    match op {
      case PowerOp(sensor, enable, _) =>
        PowerRate(hw, sensor, enable);
      case EventOp(id, enable, done) =>
        EventRate(hw, id, enable, done);
        RequiredListed(hw.chip, Toggle(hw.events, id, enable));
        AccRates(hw.chip, Required(EventRates(hw.chip), Toggle(hw.events, id, enable), EVENT_MAX));
    }
  }

  /** The low four bits: every successful request for a listed rate selects low-power mode
      2, since no chip that has the high-performance mode has a rate above 100 Hz. */
  lemma LowPowerAlways(hw: Hw, sensor: Sensor, req: nat)
    requires Valid(hw) && (req == 0 || Listed(AccTable(hw.chip), req))
    ensures SetOdr(hw, sensor, req, true).hw.ctrl1 % 16 == 1
  {
    CodedTarget(hw, sensor, req);
    ModeIsLow(hw, sensor, req);
    LowBits(AccTable(hw.chip)[FindRate(AccTable(hw.chip), Target(hw, sensor, req))].val);
  }

  lemma ModeIsLow(hw: Hw, sensor: Sensor, req: nat)
    requires Valid(hw) && (req == 0 || Listed(AccTable(hw.chip), req))
    ensures Mode(hw, sensor, req) == 0
  {
    AccRates(hw.chip, req);
    AccRates(hw.chip, hw.accOdr);
    TempRates(hw.tempOdr);
  }

  lemma LowBits(code: nat)
    ensures (code * 16 + 0 * 4 + 1) % 16 == 1
  {
  }

  function WithBit(hw: Hw, id: nat, enable: bool): Hw {
    var hw1 := if id == DTAP then hw.(doubleTap := enable) else hw;
    hw1.(int1 := ManipulateBit(hw1.int1, IrqMask(hw1.chip, id), enable))
  }

  lemma BitThenFinish(hw: Hw, id: nat, enable: bool, done: nat)
    requires id < EVENT_MAX && done >= Accesses(id)
    ensures ConfigureEvent(hw, id, enable, done) == FinishEvent(WithBit(hw, id, enable), id, enable, true)
  {
  }

  /** Coverage, exactly: after any call the register serves every enabled sensor if and
      only if the fields before the call satisfy Covers. */
  lemma CoverageExact(hw: Hw, op: Op)
    requires Valid(hw) && Allowed(hw, op)
    ensures Covered(Step(hw, op).hw) <==> Covers(hw, op)
  {
    if !Clean(op) {
      FailureCoverage(hw, op);
    } else {
      match op {
        case PowerOp(sensor, enable, _) =>
          PowerCoverage(hw, sensor, enable);
        case EventOp(id, enable, done) =>
          EventCoverage(hw, id, enable, done);
        case SampFreqOp(sensor, val) =>
          SampFreqCoverage(hw, sensor, val);
      }
    }
  }

  /** Coverage over runs: it holds after every call if and only if every call finds its
      condition met. */
  lemma {:induction false} CoverageOverRuns(hw: Hw, ops: seq<Op>)
    requires Valid(hw) && Covered(hw) && AllowedRun(hw, ops)
    ensures StaysCovered(hw, ops) <==> CoversRun(hw, ops)
    decreases |ops|
  {
    if ops != [] {
      StepValid(hw, ops[0]);
      CoverageExact(hw, ops[0]);
      if Covers(hw, ops[0]) {
        CoverageOverRuns(Step(hw, ops[0]).hw, ops[1..]);
      }
    }
  }

  predicate StaysCovered(hw: Hw, ops: seq<Op>)
    requires AllowedRun(hw, ops)
    decreases |ops|
  {
    Covered(hw) && (ops != [] ==> StaysCovered(Step(hw, ops[0]).hw, ops[1..]))
  }

  predicate CoversRun(hw: Hw, ops: seq<Op>)
    requires AllowedRun(hw, ops)
    decreases |ops|
  {
    ops != [] ==> Covers(hw, ops[0]) && CoversRun(Step(hw, ops[0]).hw, ops[1..])
  }

  /** A call the bus fails touches neither register rate nor sensors. */
  lemma FailureCoverage(hw: Hw, op: Op)
    requires Allowed(hw, op) && !Clean(op)
    ensures Covered(Step(hw, op).hw) <==> Covered(hw)
  {
    var hw' := Step(hw, op).hw;
    if op.EventOp? {
      FailedEventFields(hw, op.id, op.enable, op.done);
    } else {
      assert hw' == hw;
    }
    SameRates(hw, hw');
  }

  lemma FailedEventFields(hw: Hw, id: nat, enable: bool, done: nat)
    requires id < EVENT_MAX && done < Accesses(id)
    ensures var hw' := ConfigureEvent(hw, id, enable, done).hw; SameSensors(hw, hw') && hw'.ctrl1 == hw.ctrl1
  {
  }

  lemma SameRates(hw: Hw, hw': Hw)
    requires SameSensors(hw, hw') && hw'.ctrl1 == hw.ctrl1
    ensures Covered(hw') <==> Covered(hw)
  {
    CoveredBoth(hw, Acc);
    CoveredBoth(hw', Acc);
  }

  lemma SampFreqCoverage(hw: Hw, sensor: Sensor, val: int)
    ensures Covered(SampFreq(hw, sensor, val).hw) <==> Covers(hw, SampFreqOp(sensor, val))
  {
    var hw' := SampFreq(hw, sensor, val).hw;
    SampFreqFields(hw, sensor, val);
    CoveredBoth(hw', sensor);
  }

  lemma SampFreqFields(hw: Hw, sensor: Sensor, val: int)
    ensures var hw', hz := SampFreq(hw, sensor, val).hw, val % 0x1_0000;
            && SampFreq(hw, sensor, val).ok == Accepted(hw.chip, sensor, hz)
            && hw'.chip == hw.chip && hw'.ctrl1 == hw.ctrl1
            && hw'.accOn == hw.accOn && hw'.tempOn == hw.tempOn
            && Odr(hw', sensor) == (if Accepted(hw.chip, sensor, hz) then hz else Odr(hw, sensor))
            && Odr(hw', Other(sensor)) == Odr(hw, Other(sensor))
  {
    var hz := val % 0x1_0000;
    FindListed(STD_TABLE, hz);
    FindListed(Table(hw.chip, sensor), hz);
  }

  lemma PowerCoverage(hw: Hw, sensor: Sensor, enable: bool)
    requires Valid(hw)
    ensures Covered(SetEnable(hw, sensor, enable, true).hw) <==> Covers(hw, PowerOp(sensor, enable, true))
  {
    var hw' := SetEnable(hw, sensor, enable, true).hw;
    PowerRate(hw, sensor, enable);
    PowerFields(hw, sensor, enable);
    TargetServes(hw, sensor, if enable then Odr(hw, sensor) else 0);
    CoveredBoth(hw', sensor);
  }

  lemma PowerFields(hw: Hw, sensor: Sensor, enable: bool)
    requires Valid(hw)
    ensures var hw' := SetEnable(hw, sensor, enable, true).hw;
            && hw'.chip == hw.chip
            && On(hw', sensor) == enable && On(hw', Other(sensor)) == On(hw, Other(sensor))
            && Odr(hw', sensor) == Odr(hw, sensor) && Odr(hw', Other(sensor)) == Odr(hw, Other(sensor))
  {
    PowerValid(hw, sensor, enable, true);
  }

  /** The rate a request comes to serves the caller; it serves the other sensor when the
      request is positive or the events need as much. */
  lemma TargetServes(hw: Hw, sensor: Sensor, req: nat)
    ensures Target(hw, sensor, req) >= Clamp(hw.chip, req)
    ensures On(hw, Other(sensor)) ==>
              (Target(hw, sensor, req) >= Clamp(hw.chip, Odr(hw, Other(sensor)))
               <==> req > 0 || Clamp(hw.chip, Odr(hw, Other(sensor))) <= hw.reqOdrEvents)
  {
  }

  lemma EventCoverage(hw: Hw, id: nat, enable: bool, done: nat)
    requires Valid(hw) && Supported(hw.chip, id) && done >= Accesses(id)
    ensures Covered(ConfigureEvent(hw, id, enable, done).hw) <==> Covers(hw, EventOp(id, enable, done))
  {
    var hw' := ConfigureEvent(hw, id, enable, done).hw;
    var r := Required(EventRates(hw.chip), Toggle(hw.events, id, enable), EVENT_MAX);
    EventRate(hw, id, enable, done);
    RequiredListed(hw.chip, Toggle(hw.events, id, enable));
    AccRates(hw.chip, r);
    TempRates(hw.tempOdr);
    AccRates(hw.chip, hw.accOdr);
    CoveredBoth(hw', Acc);
  }

  /** Turning the thermometer off, with no event enabled, stops a running accelerometer. */
  lemma ThermometerOffStops(hw: Hw)
    requires Valid(hw) && hw.accOn && hw.reqOdrEvents == 0
    ensures var hw' := Step(hw, PowerOp(Temp, false, true)).hw;
            hw'.accOn && hw'.accOdr > 0 && CurrentRate(hw') == 0 && !Covered(hw')
  {
    CoverageExact(hw, PowerOp(Temp, false, true));
    PowerRate(hw, Temp, false);
  }

  /** Enabling free fall slows an accelerometer that runs at 100 Hz down to 25 Hz. */
  lemma FreeFallSlows(hw: Hw)
    requires Valid(hw) && hw.chip == Lis2dw12 && hw.accOn && hw.accOdr == 100
    requires hw.tempOn && hw.tempOdr == 12 && hw.events == {}
    ensures var hw' := Step(hw, EventOp(FF, true, 3)).hw;
            hw'.accOn && hw'.accOdr == 100 && CurrentRate(hw') == 25 && !Covered(hw')
  {
    CoverageExact(hw, EventOp(FF, true, 3));
    EventRate(hw, FF, true, 3);
    OnlyFreeFall(hw.chip);
  }

  lemma OnlyFreeFall(chip: Chip)
    ensures Required(EventRates(chip), Toggle({}, FF, true), EVENT_MAX) == 25
  {
    var rates, e := EventRates(chip), Toggle({}, FF, true);
    assert Required(rates, e, 1) == 25;
    assert Required(rates, e, 3) == 25;
  }

  /** A rate written to an enabled sensor is not in force until the next request: one the
      register does not serve leaves the sensor uncovered. */
  lemma RateWriteUncovers(hw: Hw, sensor: Sensor, hz: nat)
    requires On(hw, sensor) && hz < 0x1_0000 && Accepted(hw.chip, sensor, hz)
    requires CurrentRate(hw) < Clamp(hw.chip, hz)
    ensures var o := SampFreq(hw, sensor, hz); o.ok && Odr(o.hw, sensor) == hz && !Covered(o.hw)
  {
    assert hz % 0x1_0000 == hz && !Serves(hw, sensor, hz);
    SampFreqFields(hw, sensor, hz);
    SampFreqCoverage(hw, sensor, hz);
  }

  /** A refused rate still changes the sample level, where the level table has the rate and
      the chip has not. */
  lemma RefusedRateMovesLevel(hw: Hw, hz: nat)
    requires hz < 0x1_0000 && Listed(STD_TABLE, hz) && !Listed(AccTable(hw.chip), hz)
    ensures SampFreq(hw, Acc, hz) == Outcome(hw.(stdLevel := STD_TABLE[FindRate(STD_TABLE, hz)].val), false)
  {
    assert hz % 0x1_0000 == hz;
    FindListed(STD_TABLE, hz);
    FindListed(AccTable(hw.chip), hz);
  }

  /** The levels grow with the rate, and the time they take to read still shrinks, from one
      second at 12 Hz down to a twenty-fifth of one. */
  lemma SettlingShrinks(i: nat, j: nat)
    requires i < j < |STD_TABLE|
    ensures STD_TABLE[i].hz < STD_TABLE[j].hz && STD_TABLE[i].val <= STD_TABLE[j].val
    ensures STD_TABLE[j].val * STD_TABLE[i].hz < STD_TABLE[i].val * STD_TABLE[j].hz
    ensures STD_TABLE[0].val == STD_TABLE[0].hz && 25 * STD_TABLE[7].val == STD_TABLE[7].hz
  {
  }

  /** Single and double tap are told apart by one more register bit. */
  predicate TapAgreed(hw: Hw) {
    hw.doubleTap <==> DTAP in hw.events
  }

  /** The operation leaves that bit in agreement: it is no call for double taps, or one that
      succeeds, fails at its first access, or asks for what is already so. */
  predicate TapHarmless(hw: Hw, op: Op) {
    op.EventOp? && op.id == DTAP ==> Clean(op) || op.done == 0 || (DTAP in hw.events) == op.enable
  }

  predicate TapHarmlessRun(hw: Hw, ops: seq<Op>)
    requires AllowedRun(hw, ops)
    decreases |ops|
  {
    ops != [] ==> TapHarmless(hw, ops[0]) && TapHarmlessRun(Step(hw, ops[0]).hw, ops[1..])
  }

  predicate StaysTapAgreed(hw: Hw, ops: seq<Op>)
    requires AllowedRun(hw, ops)
    decreases |ops|
  {
    TapAgreed(hw) && (ops != [] ==> StaysTapAgreed(Step(hw, ops[0]).hw, ops[1..]))
  }

  /** Over every run the double tap bit is set exactly when the event is enabled, throughout,
      if and only if no call for it that would change something fails after its first
      access; successful runs are among these. */
  lemma {:induction false} TapAgreement(hw: Hw, ops: seq<Op>)
    requires Valid(hw) && TapAgreed(hw) && AllowedRun(hw, ops)
    ensures StaysTapAgreed(hw, ops) <==> TapHarmlessRun(hw, ops)
    ensures (forall i :: 0 <= i < |ops| ==> Clean(ops[i])) ==> TapAgreed(Run(hw, ops))
    decreases |ops|
  {
    if ops != [] {
      StepValid(hw, ops[0]);
      StepTap(hw, ops[0]);
      if TapHarmless(hw, ops[0]) {
        TapAgreement(Step(hw, ops[0]).hw, ops[1..]);
      }
    }
  }

  lemma StepTap(hw: Hw, op: Op)
    requires Valid(hw) && Allowed(hw, op) && TapAgreed(hw)
    ensures TapAgreed(Step(hw, op).hw) <==> TapHarmless(hw, op)
  {
    if op.EventOp? {
      var _ := EventCall(hw, op.id, op.enable, op.done);
      EventTap(hw, op.id, op.enable, op.done);
    } else {
      OthersKeepEvents(hw, op);
    }
  }

  lemma EventTap(hw: Hw, id: nat, enable: bool, done: nat)
    requires id < EVENT_MAX
    ensures ConfigureEvent(hw, id, enable, done).hw.doubleTap
            == if id == DTAP && done > 0 then enable else hw.doubleTap
  {
  }
}
