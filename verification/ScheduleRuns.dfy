/** What whole runs of the scheduler keep: latency, firing order and the time account
    of an armed event, under any interleaving of operations on the other events. */
module ScheduleRuns {
  import opened ScheduleSpec

  datatype Op = PushOp(e: Event, d: Delay) | CancelOp(e: Event) | PopOp | TickOp

  datatype Option<T> = None | Some(value: T)

  /** The code does what Step says, except that a cancel of NONE with events armed breaks
      the array (ScheduleRefinement.dfy). */
  predicate Legal(q: Queue, op: Op) {
    op == CancelOp(NONE) ==> q == []
  }

  function Step(q: Queue, op: Op): Queue {
    match op
    case PushOp(e, d) => Push(q, e, d).0
    case CancelOp(e) => Cancel(q, e).0
    case PopOp => Pop(q)
    case TickOp => Tick(q).0
  }

  function Run(q: Queue, ops: seq<Op>): Queue
    decreases |ops|
  {
    if ops == [] then q else Run(Step(q, ops[0]), ops[1..])
  }

  predicate LegalRun(q: Queue, ops: seq<Op>)
    decreases |ops|
  {
    ops != [] ==> Legal(q, ops[0]) && LegalRun(Step(q, ops[0]), ops[1..])
  }

  function Ticks(ops: seq<Op>): nat {
    if ops == [] then 0 else (if ops[0].TickOp? then 1 else 0) + Ticks(ops[1..])
  }

  /** The operation fires event e. */
  predicate Fires(q: Queue, op: Op, e: Event) {
    op.TickOp? && Tick(q).1 == e
  }

  /** The operation is a legal one on some other event: it neither re-arms, cancels nor
      pops e, and is not a cancel of NONE, which e being armed makes illegal. */
  predicate Spares(q: Queue, op: Op, e: Event) {
    match op
    case PushOp(f, _) => f != e
    case CancelOp(f) => f != e && f != DELETE_ALL && f != NONE
    case PopOp => q == [] || q[0].evt != e
    case TickOp => true
  }

  /** Until e fires, every operation of the run spares it. */
  predicate Spared(q: Queue, ops: seq<Op>, e: Event)
    decreases |ops|
  {
    ops != [] ==> Spares(q, ops[0], e) && (Fires(q, ops[0], e) || Spared(Step(q, ops[0]), ops[1..], e))
  }

  /** The number of ticks, the firing one included, after which e first fires. */
  function FiresAt(q: Queue, ops: seq<Op>, e: Event): (r: Option<nat>)
    ensures r.Some? ==> r.value >= 1
    decreases |ops|
  {
    if ops == [] then
      None
    else if Fires(q, ops[0], e) then
      Some(1)
    else
      match FiresAt(Step(q, ops[0]), ops[1..], e)
      case None => None
      case Some(n) => Some(n + if ops[0].TickOp? then 1 else 0)
  }

  /** The slot an operation takes out of the queue, |q| for none. */
  function TakenOut(q: Queue, op: Op): nat {
    match op
    case PushOp(_, _) => |q|
    case CancelOp(f) => if f >= EVT_MAX then |q| else Find(q, f)
    case PopOp => 0
    case TickOp => Due(q)
  }

  /** A tick spent on an event ahead of e. */
  predicate Blocks(q: Queue, op: Op, e: Event) {
    op.TickOp? && Due(q) < Find(q, e)
  }

  function Blocked(q: Queue, ops: seq<Op>, e: Event): nat
    decreases |ops|
  {
    if ops == [] || Fires(q, ops[0], e) then
      0
    else
      (if Blocks(q, ops[0], e) then 1 else 0) + Blocked(Step(q, ops[0]), ops[1..], e)
  }

  /** Every operation keeps at most eleven distinct real events. */
  lemma StepWellFormed(q: Queue, op: Op)
    requires WellFormed(q) && Legal(q, op)
    ensures WellFormed(Step(q, op))
    ensures op.TickOp? ==> |q| - 1 <= |Step(q, op)| <= |q|
  {
    match op {
      case PushOp(e, d) => PushWellFormed(q, e, d);
      case CancelOp(e) =>
        if e < EVT_MAX && Armed(q, e) {
          RemoveWellFormed(q, Find(q, e));
        }
      case PopOp =>
        if q != [] {
          RemoveWellFormed(q, 0);
          assert Pop(q) == RemoveAt(q, 0);
        }
      case TickOp => TickWellFormed(q);
    }
  }

  lemma {:induction false} RunWellFormed(q: Queue, ops: seq<Op>)
    requires WellFormed(q) && LegalRun(q, ops)
    ensures WellFormed(Run(q, ops))
    decreases |ops|
  {
    if ops != [] {
      StepWellFormed(q, ops[0]);
      RunWellFormed(Step(q, ops[0]), ops[1..]);
    }
  }

  lemma RemoveSpares(q: Queue, i: nat, e: Event)
    requires WellFormed(q) && i < |q| && Armed(q, e) && q[i].evt != e
    ensures WellFormed(RemoveAt(q, i)) && Armed(RemoveAt(q, i), e)
    ensures SlotOf(RemoveAt(q, i), e) == SlotOf(q, e)
    ensures Find(RemoveAt(q, i), e) == Find(q, e) - (if i < Find(q, e) then 1 else 0)
  {
    var p := Find(q, e);
    FindIs(RemoveAt(q, i), e, if i < p then p - 1 else p);
  }

  /** One operation, seen from an armed event it spares.  Only a tick that reaches the
      event ages it; a tick that fires an event ahead moves it one place up instead. */
  lemma StepOnArmed(q: Queue, op: Op, e: Event)
    requires WellFormed(q) && Armed(q, e) && Spares(q, op, e)
    ensures Fires(q, op, e) <==> op.TickOp? && Due(q) == Find(q, e)
    ensures Fires(q, op, e) ==> SlotOf(q, e).count == 1
    ensures !Fires(q, op, e) ==> Armed(Step(q, op), e)
    ensures !Fires(q, op, e) ==>
              SlotOf(Step(q, op), e) ==
              if op.TickOp? && !Blocks(q, op, e) then Aged(SlotOf(q, e)) else SlotOf(q, e)
    ensures !Fires(q, op, e) ==>
              Find(Step(q, op), e) == Find(q, e) - if TakenOut(q, op) < Find(q, e) then 1 else 0
    ensures op.TickOp? && !Fires(q, op, e) && !Blocks(q, op, e) ==> SlotOf(q, e).count != 1
  {
    match op {
      case PushOp(f, d) =>
        PushOnArmed(q, f, d, e);
      case CancelOp(f) =>
        CancelOnArmed(q, f, e);
      case PopOp =>
        PopOnArmed(q, e);
      case TickOp =>
        TickOnArmed(q, e);
    }
  }

  lemma CancelOnArmed(q: Queue, f: Event, e: Event)
    requires WellFormed(q) && Armed(q, e) && f != e && f != DELETE_ALL
    ensures Armed(Cancel(q, f).0, e) && SlotOf(Cancel(q, f).0, e) == SlotOf(q, e)
    ensures Find(Cancel(q, f).0, e) == Find(q, e) - if TakenOut(q, CancelOp(f)) < Find(q, e) then 1 else 0
  {
    if f < EVT_MAX && Armed(q, f) {
      RemoveSpares(q, Find(q, f), e);
    }
  }

  lemma PopOnArmed(q: Queue, e: Event)
    requires WellFormed(q) && Armed(q, e) && q[0].evt != e
    ensures Armed(Pop(q), e) && SlotOf(Pop(q), e) == SlotOf(q, e) && Find(Pop(q), e) == Find(q, e) - 1
  {
    assert Pop(q) == RemoveAt(q, 0);
    RemoveSpares(q, 0, e);
  }

  lemma PushOnArmed(q: Queue, f: Event, d: Delay, e: Event)
    requires WellFormed(q) && Armed(q, e) && f != e
    ensures Armed(Push(q, f, d).0, e)
    ensures Find(Push(q, f, d).0, e) == Find(q, e) && SlotOf(Push(q, f, d).0, e) == SlotOf(q, e)
  {
    PushWellFormed(q, f, d);
    assert Push(q, f, d).0[Find(q, e)] == q[Find(q, e)];
    FindIs(Push(q, f, d).0, e, Find(q, e));
  }

  lemma TickOnArmed(q: Queue, e: Event)
    requires WellFormed(q) && Armed(q, e)
    ensures Tick(q).1 == e <==> Due(q) == Find(q, e)
    ensures Due(q) != Find(q, e) ==> Armed(Tick(q).0, e)
    ensures Due(q) < Find(q, e) ==>
              Find(Tick(q).0, e) == Find(q, e) - 1 && SlotOf(Tick(q).0, e) == SlotOf(q, e)
    ensures Due(q) > Find(q, e) ==>
              Find(Tick(q).0, e) == Find(q, e) && SlotOf(Tick(q).0, e) == Aged(SlotOf(q, e))
  {
    var p := Find(q, e);
    var i := Due(q);
    var aged := AgeFirst(q, i);
    AgedWellFormed(q, aged);
    FindIs(aged, e, p);
    if i < |q| && i != p {
      RemoveSpares(aged, i, e);
    }
  }

  /** The four ways to leave the queue: firing, cancelling the event, cancelling all, and
      popping the head. */
  lemma StepDisarms(q: Queue, op: Op, e: Event)
    requires WellFormed(q) && Armed(q, e) && Legal(q, op)
    ensures !Armed(Step(q, op), e) <==>
            Fires(q, op, e) || op == CancelOp(e) || op == CancelOp(DELETE_ALL) || (op == PopOp && q[0].evt == e)
  {
    if Fires(q, op, e) {
      FiredGone(q, e);
    } else if Spares(q, op, e) {
      StepOnArmed(q, op, e);
    } else if op.PushOp? {
      StepWellFormed(q, op);
      FindIs(Step(q, op), e, Find(q, e));
    } else {
      RemovedGone(q, if op.PopOp? then 0 else Find(q, e), e);
      assert op.PopOp? ==> Pop(q) == RemoveAt(q, 0);
    }
  }

  lemma RemovedGone(q: Queue, i: nat, e: Event)
    requires i < |q| && q[i].evt == e
    requires forall k :: 0 <= k < |q| && k != i ==> q[k].evt != e
    ensures !Armed(RemoveAt(q, i), e)
  {
    var r := RemoveAt(q, i);
    forall k | 0 <= k < |r| ensures r[k].evt != e {
      assert r[k] == q[if k < i then k else k + 1];
    }
  }

  lemma FiredGone(q: Queue, e: Event)
    requires WellFormed(q) && Armed(q, e) && Tick(q).1 == e
    ensures !Armed(Tick(q).0, e)
  {
    var i := Due(q);
    TickOnArmed(q, e);
    RemovedGone(AgeFirst(q, i), i, e);
  }

  /** Exact latency: an armed event with r > 0 ticks left fires after r ticks plus one
      for each tick spent on an event ahead of it, and there are at most as many of
      those as slots ahead.  While it has not fired it stays armed, and its counters
      account for every tick of the run. */
  lemma {:induction false} FiringWindow(q: Queue, ops: seq<Op>, e: Event)
    requires WellFormed(q) && Armed(q, e) && SlotOf(q, e).count > 0
    requires Spared(q, ops, e)
    ensures match FiresAt(q, ops, e)
            case Some(n) =>
              && n == SlotOf(q, e).count + Blocked(q, ops, e)
              && Blocked(q, ops, e) <= Find(q, e)
            case None =>
              && Armed(Run(q, ops), e)
              && 0 < SlotOf(Run(q, ops), e).count == SlotOf(q, e).count + Blocked(q, ops, e) - Ticks(ops)
              && Find(Run(q, ops), e) + Blocked(q, ops, e) <= Find(q, e)
    decreases |ops|
  {
    if ops != [] {
      StepOnArmed(q, ops[0], e);
      if !Fires(q, ops[0], e) {
        StepWellFormed(q, ops[0]);
        FiringWindow(Step(q, ops[0]), ops[1..], e);
      }
    }
  }

  /** The latency bound of a freshly armed event: with a delay of d ticks it fires no
      earlier than d and no later than d plus its slot index, so at most d + 10, whatever
      is done to the other events meanwhile. */
  lemma PushLatency(q: Queue, e: Event, d: Delay, ops: seq<Op>)
    requires WellFormed(q) && e != NONE
    requires Push(q, e, d).1 && 0 < ToInt32(d)
    requires Spared(Push(q, e, d).0, ops, e)
    ensures FiresAt(Push(q, e, d).0, ops, e).Some? ==>
              d <= FiresAt(Push(q, e, d).0, ops, e).value <= d + Find(Push(q, e, d).0, e) <= d + 10
    ensures FiresAt(Push(q, e, d).0, ops, e).None? ==>
              Ticks(ops) < d + Find(Push(q, e, d).0, e)
  {
    var r := Push(q, e, d).0;
    PushArms(q, e, d);
    FiringWindow(r, ops, e);
  }

  /** A push of a real event is refused only when eleven other events are armed, and then
      changes nothing; whatever happens, the other events keep their slots and places. */
  lemma PushOutcome(q: Queue, e: Event, d: Delay, other: Event)
    requires WellFormed(q) && NONE < e < EVT_MAX
    ensures Push(q, e, d).1 <==> Armed(Push(q, e, d).0, e)
    ensures !Push(q, e, d).1 <==> |q| == 11 && !Armed(q, e)
    ensures !Push(q, e, d).1 ==> Push(q, e, d).0 == q
    ensures other != e && Armed(q, other) ==>
              && Armed(Push(q, e, d).0, other)
              && Find(Push(q, e, d).0, other) == Find(q, other)
              && SlotOf(Push(q, e, d).0, other) == SlotOf(q, other)
  {
    if Push(q, e, d).1 {
      PushArms(q, e, d);
    }
    if other != e && Armed(q, other) {
      PushOnArmed(q, e, d, other);
    }
  }

  lemma PushArms(q: Queue, e: Event, d: Delay)
    requires WellFormed(q) && e != NONE && Push(q, e, d).1
    ensures WellFormed(Push(q, e, d).0) && Armed(Push(q, e, d).0, e)
    ensures SlotOf(Push(q, e, d).0, e) == Slot(e, ToInt32(d), 0)
  {
    StepWellFormed(q, PushOp(e, d));
    var r := Push(q, e, d).0;
    FindIs(r, e, if Armed(q, e) then Find(q, e) else |q|);
  }

  /** Right after a push the remaining-time reader reports the delay in milliseconds, as a
      32-bit value, also for delays that are negative in the counter. */
  lemma PushReads(q: Queue, e: Event, d: Delay)
    requires WellFormed(q) && e != NONE && Push(q, e, d).1
    ensures Armed(Push(q, e, d).0, e)
    ensures Millis(SlotOf(Push(q, e, d).0, e).count) == 100 * d % 0x1_0000_0000
    ensures Millis(SlotOf(Push(q, e, d).0, e).time) == 0
  {
    PushArms(q, e, d);
    WordBack(100 * d, 100);
  }

  lemma WordBack(x: int, n: int)
    ensures (x - n * 0x1_0000_0000) % 0x1_0000_0000 == x % 0x1_0000_0000
  {
    var q, r := x / 0x1_0000_0000, x % 0x1_0000_0000;
    assert x - n * 0x1_0000_0000 == 0x1_0000_0000 * (q - n) + r;
  }

  /** A cancel reports success exactly when the event is armed, or for the delete-all code,
      and changes nothing otherwise. */
  lemma CancelOutcome(q: Queue, e: Event)
    requires WellFormed(q) && e != NONE
    ensures Cancel(q, e).1 <==> Armed(q, e) || e == DELETE_ALL
    ensures !Cancel(q, e).1 ==> Cancel(q, e).0 == q
    ensures e == DELETE_ALL ==> Cancel(q, e).0 == []
    ensures Cancel(q, e).1 && e != DELETE_ALL ==> !Armed(Cancel(q, e).0, e) && |Cancel(q, e).0| == |q| - 1
  {
    if Cancel(q, e).1 && e != DELETE_ALL {
      RemovedGone(q, Find(q, e), e);
    }
  }

  function TickOps(n: nat): seq<Op> {
    if n == 0 then [] else [TickOp] + TickOps(n - 1)
  }

  /** A queue in which every slot comes due on the next tick. */
  /** All slots have r ticks left. */
  predicate Alike(q: Queue, r: int) {
    WellFormed(q) && forall k :: 0 <= k < |q| ==> q[k].count == r
  }

  /** Under plain ticks event e fires at tick n. */
  predicate FiresAtTick(q: Queue, n: nat, e: Event) {
    Spared(q, TickOps(n), e) && FiresAt(q, TickOps(n), e) == Some(n)
  }

  /** The bound is reached: when all slots come due together, whenever that is, slot i
      waits i ticks more. */
  lemma LatencyReached(q: Queue, i: nat, r: nat)
    requires Alike(q, r) && r > 0 && i < |q|
    ensures FiresAtTick(q, r + i, q[i].evt)
  {
    FiresTogether(q, i, r, r + i, q[i].evt);
  }

  lemma {:induction false} FiresTogether(q: Queue, i: nat, r: nat, n: nat, e: Event)
    requires Alike(q, r) && r > 0 && i < |q| && q[i].evt == e && n == r + i
    ensures FiresAtTick(q, n, e)
    decreases r
  {
    if r == 1 {
      FiresInTurn(q, i, n, e);
    } else {
      AlikeTick(q, i, r);
      FiresTogether(AgeFirst(q, |q|), i, r - 1, n - 1, e);
      WaitsOne(q, AgeFirst(q, |q|), n, e);
    }
  }

  lemma {:induction false} FiresInTurn(q: Queue, i: nat, n: nat, e: Event)
    requires Alike(q, 1) && i < |q| && q[i].evt == e && n == i + 1
    ensures FiresAtTick(q, n, e)
    decreases i
  {
    AllDueTick(q, i);
    if i == 0 {
      FiresNow(q, n, e);
    } else {
      FiresInTurn(q[1..], i - 1, n - 1, e);
      WaitsOne(q, q[1..], n, e);
    }
  }

  lemma FiresNow(q: Queue, n: nat, e: Event)
    requires n == 1 && Fires(q, TickOp, e)
    ensures FiresAtTick(q, n, e)
  {
    assert TickOps(n)[0] == TickOp;
  }

  lemma WaitsOne(q: Queue, r: Queue, n: nat, e: Event)
    requires n > 0 && !Fires(q, TickOp, e) && Step(q, TickOp) == r && FiresAtTick(r, n - 1, e)
    ensures FiresAtTick(q, n, e)
  {
    var all := TickOps(n);
    assert all[0] == TickOp && all[1..] == TickOps(n - 1);
  }

  lemma AlikeTick(q: Queue, i: nat, r: nat)
    requires Alike(q, r) && r > 1 && i < |q|
    ensures Step(q, TickOp) == AgeFirst(q, |q|) && Alike(AgeFirst(q, |q|), r - 1)
    ensures !Fires(q, TickOp, q[i].evt) && AgeFirst(q, |q|)[i].evt == q[i].evt
  {
    assert Due(q) == |q|;
    AgedWellFormed(q, AgeFirst(q, |q|));
  }

  lemma AllDueTick(q: Queue, i: nat)
    requires Alike(q, 1) && i < |q|
    ensures Step(q, TickOp) == q[1..] && Alike(q[1..], 1)
    ensures Fires(q, TickOp, q[i].evt) <==> i == 0
    ensures q[i].count == 1 && (i > 0 ==> q[1..][i - 1] == q[i])
  {
    assert Due(q) == 0;
    RemoveWellFormed(q, 0);
    assert Tick(q).0 == RemoveAt(q, 0) == q[1..];
  }

  /** An event armed with delay 0, or with one that is negative as a signed counter,
      never fires; it only counts the ticks that reach it. */
  lemma {:induction false} NeverFires(q: Queue, ops: seq<Op>, e: Event)
    requires WellFormed(q) && Armed(q, e) && SlotOf(q, e).count <= 0
    requires Spared(q, ops, e)
    ensures FiresAt(q, ops, e) == None
    ensures Armed(Run(q, ops), e)
    ensures SlotOf(Run(q, ops), e).count == SlotOf(q, e).count
    ensures SlotOf(Run(q, ops), e).time == SlotOf(q, e).time + Ticks(ops) - Blocked(q, ops, e)
    decreases |ops|
  {
    if ops != [] {
      StepOnArmed(q, ops[0], e);
      StepWellFormed(q, ops[0]);
      NeverFires(Step(q, ops[0]), ops[1..], e);
    }
  }

  /** A pushed event can fire exactly when its delay is positive as a 32-bit signed value. */
  lemma FiresIffPositive(q: Queue, e: Event, d: Delay)
    requires WellFormed(q) && e != NONE && Push(q, e, d).1
    ensures (exists ops :: Spared(Push(q, e, d).0, ops, e) && FiresAt(Push(q, e, d).0, ops, e).Some?)
            <==> 0 < d < 0x8000_0000
  {
    var r := Push(q, e, d).0;
    PushArms(q, e, d);
    if 0 < d < 0x8000_0000 {
      var ops := TickOps(d + 10);
      TicksSpare(r, d + 10, e);
      PushLatency(q, e, d, ops);
      assert Spared(r, ops, e) && FiresAt(r, ops, e).Some?;
    } else {
      forall ops | Spared(r, ops, e) ensures FiresAt(r, ops, e) == None {
        NeverFires(r, ops, e);
      }
    }
  }

  lemma {:induction false} TicksSpare(q: Queue, n: nat, e: Event)
    ensures Spared(q, TickOps(n), e) && Ticks(TickOps(n)) == n
    decreases n
  {
    if n > 0 {
      assert TickOps(n)[1..] == TickOps(n - 1);
      TicksSpare(Tick(q).0, n - 1, e);
    }
  }

  /** Remaining and elapsed ticks of an armed event always add up to the same sum, ticks
      that skip it included. */
  lemma {:induction false} TimeConserved(q: Queue, ops: seq<Op>, e: Event)
    requires WellFormed(q) && Armed(q, e) && SlotOf(q, e).count > 0
    requires Spared(q, ops, e) && FiresAt(q, ops, e) == None
    ensures Armed(Run(q, ops), e)
    ensures SlotOf(Run(q, ops), e).count + SlotOf(Run(q, ops), e).time
            == SlotOf(q, e).count + SlotOf(q, e).time
    decreases |ops|
  {
    if ops != [] {
      StepOnArmed(q, ops[0], e);
      StepWellFormed(q, ops[0]);
      TimeConserved(Step(q, ops[0]), ops[1..], e);
    }
  }

  /** What the two millisecond readers return for an event armed with d > 0 adds up to
      100 d, as 32-bit values and, below 2^32 ms, exactly. */
  lemma ReadersConserve(q: Queue, e: Event, d: Delay, ops: seq<Op>)
    requires WellFormed(q) && e != NONE && Push(q, e, d).1 && 0 < ToInt32(d)
    requires Spared(Push(q, e, d).0, ops, e) && FiresAt(Push(q, e, d).0, ops, e) == None
    ensures Armed(Run(Push(q, e, d).0, ops), e)
    ensures var s := SlotOf(Run(Push(q, e, d).0, ops), e);
            && (Millis(s.count) + Millis(s.time)) % 0x1_0000_0000 == Millis(d)
            && (100 * d < 0x1_0000_0000 ==> Millis(s.count) + Millis(s.time) == 100 * d)
  {
    CountAndTime(q, e, d, ops);
    var s := SlotOf(Run(Push(q, e, d).0, ops), e);
    MillisAdd(s.count, s.time, d);
  }

  lemma CountAndTime(q: Queue, e: Event, d: Delay, ops: seq<Op>)
    requires WellFormed(q) && e != NONE && Push(q, e, d).1 && 0 < ToInt32(d)
    requires Spared(Push(q, e, d).0, ops, e) && FiresAt(Push(q, e, d).0, ops, e) == None
    ensures Armed(Run(Push(q, e, d).0, ops), e)
    ensures var s := SlotOf(Run(Push(q, e, d).0, ops), e);
            s.count >= 0 && s.time >= 0 && s.count + s.time == d
  {
    var r := Push(q, e, d).0;
    PushArms(q, e, d);
    TimeConserved(r, ops, e);
    FiringWindow(r, ops, e);
    TimeNotNegative(r, ops, e);
  }

  lemma MillisAdd(a: nat, b: nat, d: nat)
    requires a + b == d
    ensures (Millis(a) + Millis(b)) % 0x1_0000_0000 == Millis(d)
    ensures 100 * d < 0x1_0000_0000 ==> Millis(a) + Millis(b) == 100 * d
  {
    var x, y := a * 100, b * 100;
    WordAdd(x, y);
    assert d * 100 == x + y;
  }

  lemma WordAdd(x: nat, y: nat)
    ensures (x % 0x1_0000_0000 + y % 0x1_0000_0000) % 0x1_0000_0000 == (x + y) % 0x1_0000_0000
    ensures x + y < 0x1_0000_0000 ==> x % 0x1_0000_0000 + y % 0x1_0000_0000 == x + y
  {
    var i, j := x / 0x1_0000_0000, y / 0x1_0000_0000;
    var r, s := x - 0x1_0000_0000 * i, y - 0x1_0000_0000 * j;
    assert x % 0x1_0000_0000 == r && y % 0x1_0000_0000 == s;
    assert x + y == 0x1_0000_0000 * (i + j) + (r + s);
  }

  lemma {:induction false} TimeNotNegative(q: Queue, ops: seq<Op>, e: Event)
    requires WellFormed(q) && Armed(q, e) && SlotOf(q, e).time >= 0
    requires Spared(q, ops, e) && FiresAt(q, ops, e) == None
    ensures Armed(Run(q, ops), e) && SlotOf(Run(q, ops), e).time >= 0
    decreases |ops|
  {
    if ops != [] {
      StepOnArmed(q, ops[0], e);
      StepWellFormed(q, ops[0]);
      TimeNotNegative(Step(q, ops[0]), ops[1..], e);
    }
  }

  /** Firing order: an event ahead of another with no more ticks left fires first. */
  lemma {:induction false} FiringOrder(q: Queue, ops: seq<Op>, x: Event, y: Event)
    requires WellFormed(q) && Armed(q, x) && Armed(q, y)
    requires Find(q, x) < Find(q, y)
    requires 0 < SlotOf(q, x).count <= SlotOf(q, y).count
    requires Spared(q, ops, x) && Spared(q, ops, y)
    ensures FiresAt(q, ops, y).Some? ==>
              FiresAt(q, ops, x).Some? && FiresAt(q, ops, x).value < FiresAt(q, ops, y).value
    decreases |ops|
  {
    if ops != [] {
      StepOrder(q, ops[0], x, y);
      if !Fires(q, ops[0], x) {
        FiringOrder(Step(q, ops[0]), ops[1..], x, y);
      }
    }
  }

  /** One operation of a FiringOrder run: unless the first event fires, neither does the
      second, and they keep their order. */
  lemma StepOrder(q: Queue, op: Op, x: Event, y: Event)
    requires WellFormed(q) && Armed(q, x) && Armed(q, y)
    requires Find(q, x) < Find(q, y)
    requires 0 < SlotOf(q, x).count <= SlotOf(q, y).count
    requires Spares(q, op, x) && Spares(q, op, y)
    ensures !Fires(q, op, y)
    ensures !Fires(q, op, x) ==>
              var r := Step(q, op);
              && WellFormed(r) && Armed(r, x) && Armed(r, y)
              && Find(r, x) < Find(r, y)
              && 0 < SlotOf(r, x).count <= SlotOf(r, y).count
  {
    StepOnArmed(q, op, x);
    StepOnArmed(q, op, y);
    StepWellFormed(q, op);
  }
}
