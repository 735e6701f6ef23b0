/** The array against the queue over whole runs: when the code follows the queue, and what
    becomes of a run in which it does not (pega_schedule.c). */
module ScheduleRefinement {
  import opened ScheduleSpec
  import opened ScheduleArray
  import opened ScheduleRuns

  function ArrayStep(a: Array, op: Op): (r: Array)
    requires InBounds(a)
    ensures InBounds(r)
  {
    match op
    case PushOp(e, d) => ArrayPush(a, e, d).0
    case CancelOp(e) => ArrayCancel(a, e).0
    case PopOp => ArrayPop(a)
    case TickOp => ArrayTick(a).0
  }

  /** After every prefix of the run the array represents the queue. */
  predicate Follows(a: Array, q: Queue, ops: seq<Op>)
    decreases |ops|
  {
    && Represents(a, q)
    && (ops != [] ==> Follows(ArrayStep(a, ops[0]), Step(q, ops[0]), ops[1..]))
  }

  /** After every prefix of the run the array represents some queue. */
  ghost predicate StaysValid(a: Array, ops: seq<Op>)
    decreases |ops|
  {
    && (exists q :: Represents(a, q))
    && (ops != [] ==> StaysValid(ArrayStep(a, ops[0]), ops[1..]))
  }

  lemma StepRepresents(a: Array, q: Queue, op: Op)
    requires Represents(a, q)
    ensures Legal(q, op) ==> Represents(ArrayStep(a, op), Step(q, op))
    ensures op.TickOp? ==> ArrayTick(a).1 == Tick(q).1
    ensures !Legal(q, op) ==> forall r :: !Represents(ArrayStep(a, op), r)
  {
    match op {
      case PushOp(e, d) => PushRepresents(a, q, e, d);
      case CancelOp(e) =>
        if e == NONE {
          CancelNone(a, q);
        } else {
          CancelRepresents(a, q, e);
        }
      case PopOp => PopRepresents(a, q);
      case TickOp => TickRepresents(a, q);
    }
  }

  /** Refinement over runs: the array follows the queue through a run, and stays a queue at
      all, if and only if the run never cancels NONE while an event is armed. */
  lemma {:induction false} FollowsIffLegal(a: Array, q: Queue, ops: seq<Op>)
    requires Represents(a, q)
    ensures Follows(a, q, ops) <==> LegalRun(q, ops)
    ensures StaysValid(a, ops) <==> LegalRun(q, ops)
    decreases |ops|
  {
    if ops != [] {
      StepRepresents(a, q, ops[0]);
      if Legal(q, ops[0]) {
        FollowsIffLegal(ArrayStep(a, ops[0]), Step(q, ops[0]), ops[1..]);
      }
    }
  }

  /** A cancel of NONE followed by the push of a new event: the last event armed is lost
      without having fired, all others keep slot and place. */
  lemma CancelNoneLosesLast(a: Array, q: Queue, e: Event, d: Delay)
    requires Represents(a, q) && q != [] && NONE < e < EVT_MAX && !Armed(q, e)
    ensures var b := ArrayStep(ArrayStep(a, CancelOp(NONE)), PushOp(e, d));
            var r := q[..|q| - 1] + [Slot(e, ToInt32(d), 0)];
            Represents(b, r) && !Armed(r, q[|q| - 1].evt)
  {
    CancelNone(a, q);
    PushLosesLast(ArrayCancel(a, NONE).0, q, e, d);
    var r := q[..|q| - 1] + [Slot(e, ToInt32(d), 0)];
    assert forall k :: 0 <= k < |r| ==> r[k].evt != q[|q| - 1].evt;
  }

  function ArrayTicks(a: Array, n: nat): (r: Array)
    requires InBounds(a)
    ensures InBounds(r)
    decreases n
  {
    if n == 0 then a else ArrayTicks(ArrayTick(a).0, n - 1)
  }

  /** The queue under n ticks that stop once a single event is left. */
  function Left(q: Queue, n: nat): Queue
    decreases n
  {
    if n == 0 || |q| <= 1 then q else Left(Tick(q).0, n - 1)
  }

  /** After a cancel of NONE with anything armed, ticks alone never empty the array: they
      do what the queue's ticks would until one event is left, and no tick reaches that
      one. */
  lemma CancelNoneStrandsLast(a: Array, q: Queue, n: nat)
    requires Represents(a, q) && q != []
    ensures var b := ArrayTicks(ArrayStep(a, CancelOp(NONE)), n);
            && Left(q, n) != [] && Exposed(b, Left(q, n))
            && (|Left(q, n)| == 1 ==> ArrayTick(b) == (b, NONE))
  {
    CancelNone(a, q);
    var c := ArrayCancel(a, NONE).0;
    TicksExposed(c, q, n);
    if |Left(q, n)| == 1 {
      LastIsStranded(ArrayTicks(c, n), Left(q, n));
    }
  }

  lemma {:induction false} TicksExposed(a: Array, q: Queue, n: nat)
    requires Exposed(a, q)
    ensures Exposed(ArrayTicks(a, n), Left(q, n))
    decreases n
  {
    if n > 0 {
      if |q| == 1 {
        LastIsStranded(a, q);
      } else {
        TickOnExposed(a, q);
      }
      TicksExposed(ArrayTick(a).0, if |q| == 1 then q else Tick(q).0, n - 1);
    }
  }

  /** All slots can come due. */
  predicate Living(q: Queue) {
    WellFormed(q) && q != [] && forall k :: 0 <= k < |q| ==> q[k].count > 0
  }

  lemma LivingTick(q: Queue)
    requires Living(q) && |q| >= 2
    ensures var r := Tick(q).0;
            Living(r) && (|r| < |q| || (|r| == |q| && r[0].count < q[0].count))
  {
    TickWellFormed(q);
  }

  /** The event that plain ticks of the queue fire last, and after how many of them it is
      the only one left. */
  function LastToFire(q: Queue): Event
    requires Living(q)
    decreases |q|, q[0].count
  {
    if |q| == 1 then
      q[0].evt
    else
      LivingTick(q);
      LastToFire(Tick(q).0)
  }

  function Drain(q: Queue): nat
    requires Living(q)
    decreases |q|, q[0].count
  {
    if |q| == 1 then
      0
    else
      LivingTick(q);
      1 + Drain(Tick(q).0)
  }

  lemma {:induction false} LastIsArmed(q: Queue)
    requires Living(q)
    ensures Armed(q, LastToFire(q))
    ensures |q| >= 2 ==> Tick(q).1 != LastToFire(q)
    decreases |q|, q[0].count
  {
    if |q| >= 2 {
      var e := LastToFire(q);
      LivingTick(q);
      LastIsArmed(Tick(q).0);
      if !Armed(q, e) {
        NeverAppears(q, e);
      } else if Tick(q).1 == e {
        FiredGone(q, e);
      }
    }
  }

  lemma NeverAppears(q: Queue, e: Event)
    requires !Armed(q, e)
    ensures !Armed(Tick(q).0, e)
  {
    var r, i := Tick(q).0, Due(q);
    forall k | 0 <= k < |r| ensures r[k].evt != e {
      assert r[k].evt == q[if k < i then k else k + 1].evt;
    }
  }

  /** What the names mean: of the events armed, exactly the last one to fire has not fired
      when it is the only one left. */
  lemma {:induction false} OthersFireFirst(q: Queue, f: Event)
    requires Living(q) && Armed(q, f)
    ensures FiresAt(q, TickOps(Drain(q)), f).Some? <==> f != LastToFire(q)
    decreases |q|, q[0].count
  {
    if |q| >= 2 {
      var ops := TickOps(Drain(q));
      LivingTick(q);
      LastIsArmed(q);
      assert ops[0] == TickOp && ops[1..] == TickOps(Drain(Tick(q).0));
      if !Fires(q, TickOp, f) {
        StepOnArmed(q, TickOp, f);
        OthersFireFirst(Tick(q).0, f);
      }
    }
  }

  lemma {:induction false} LeftIsLiving(q: Queue, n: nat)
    requires Living(q)
    ensures Living(Left(q, n)) && LastToFire(Left(q, n)) == LastToFire(q)
    ensures n >= Drain(q) ==> |Left(q, n)| == 1
    decreases n
  {
    if n > 0 && |q| >= 2 {
      LivingTick(q);
      LeftIsLiving(Tick(q).0, n - 1);
    }
  }

  /** Which event is stranded, when all can fire: the one the queue would fire last.  It
      never fires, and after Drain ticks it alone is in the array. */
  lemma LastToFireStranded(a: Array, q: Queue, n: nat)
    requires Represents(a, q) && Living(q)
    ensures var b := ArrayTicks(ArrayStep(a, CancelOp(NONE)), n);
            && ArrayTick(b).1 != LastToFire(q)
            && (n >= Drain(q) ==> b.cnt == 0 && b.slots[0].evt == LastToFire(q))
  {
    CancelNoneStrandsLast(a, q, n);
    var b, r := ArrayTicks(ArrayStep(a, CancelOp(NONE)), n), Left(q, n);
    LeftIsLiving(q, n);
    LastIsArmed(r);
    assert b.slots[0] == b.slots[..|r|][0] == r[0];
    if |r| >= 2 {
      TickOnExposed(b, r);
    }
  }

  /** A concrete run from the empty array: two events armed, NONE cancelled, a third
      pushed, and the second is gone although nothing was done to it. */
  lemma LostEventExample(a: Array)
    requires Represents(a, [])
    ensures var b := ArrayStep(ArrayStep(a, PushOp(2, 5)), PushOp(200, 3));
            && Represents(b, [Slot(2, 5, 0), Slot(200, 3, 0)])
            && Represents(ArrayStep(ArrayStep(b, CancelOp(NONE)), PushOp(201, 1)), [Slot(2, 5, 0), Slot(201, 1, 0)])
  {
    ArmTwo(a);
    LoseTwo(ArrayStep(ArrayStep(a, PushOp(2, 5)), PushOp(200, 3)));
  }

  lemma ArmTwo(a: Array)
    requires Represents(a, [])
    ensures Represents(ArrayStep(ArrayStep(a, PushOp(2, 5)), PushOp(200, 3)), [Slot(2, 5, 0), Slot(200, 3, 0)])
  {
    PushTwo();
    PushRepresents(a, [], 2, 5);
    PushRepresents(ArrayPush(a, 2, 5).0, [Slot(2, 5, 0)], 200, 3);
  }

  lemma LoseTwo(b: Array)
    requires Represents(b, [Slot(2, 5, 0), Slot(200, 3, 0)])
    ensures Represents(ArrayStep(ArrayStep(b, CancelOp(NONE)), PushOp(201, 1)), [Slot(2, 5, 0), Slot(201, 1, 0)])
  {
    PushTwo();
    var two := [Slot(2, 5, 0), Slot(200, 3, 0)];
    CancelNoneLosesLast(b, two, 201, 1);
    assert two[..1] + [Slot(201, 1, 0)] == [Slot(2, 5, 0), Slot(201, 1, 0)];
  }

  lemma PushTwo()
    ensures Push([], 2, 5).0 == [Slot(2, 5, 0)]
    ensures Push([Slot(2, 5, 0)], 200, 3).0 == [Slot(2, 5, 0), Slot(200, 3, 0)]
    ensures !Armed([Slot(2, 5, 0), Slot(200, 3, 0)], 201)
  {
    assert !Armed([Slot(2, 5, 0)], 200) by {
      FindFirst([Slot(2, 5, 0)], 200, 1);
    }
    FindFirst([Slot(2, 5, 0), Slot(200, 3, 0)], 201, 2);
  }
}
