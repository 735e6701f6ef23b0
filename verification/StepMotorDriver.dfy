/** The motor driver's pins and counters, set in place (pega_motor_awd8833.c). */
module StepMotorDriver {
  import opened StepMotor

  const AW_REVERSE := 0
  const AW_FORWARD := 1
  const AW_FULL_STEP := 0
  const AW_HALF_STEP := 1

  /** The steps of one call in the mode selected; other codes do nothing. */
  function Action(m: Motor, direction: nat, mode: nat, count: nat): Motor {
    if direction > AW_FORWARD then
      m
    else
      var dirs := Stretch(if direction == AW_FORWARD then Forward else Reverse, count);
      if mode == AW_FULL_STEP then FullRun(m, dirs) else if mode == AW_HALF_STEP then HalfRun(m, dirs) else m
  }

  lemma {:induction false} RunSnoc(m: Motor, dir: Direction, n: nat)
    ensures FullRun(m, Stretch(dir, n + 1)) == FullStep(FullRun(m, Stretch(dir, n)), dir)
    ensures HalfRun(m, Stretch(dir, n + 1)) == HalfStep(HalfRun(m, Stretch(dir, n)), dir)
    decreases n
  {
    assert Stretch(dir, n + 1)[1..] == Stretch(dir, n);
    if n > 0 {
      assert Stretch(dir, n)[1..] == Stretch(dir, n - 1);
      RunSnoc(FullStep(m, dir), dir, n - 1);
      RunSnoc(HalfStep(m, dir), dir, n - 1);
    }
  }

  lemma {:induction false} TwiceStretch(dir: Direction, n: nat)
    ensures Twice(Stretch(dir, n)) == Stretch(dir, 2 * n)
    decreases n
  {
    if n > 0 {
      assert Stretch(dir, n)[1..] == Stretch(dir, n - 1);
      TwiceStretch(dir, n - 1);
    }
  }

  /** 2 n half steps end where n full steps end, in both directions and for every n. */
  lemma HalfActionRefines(f: Motor, h: Motor, direction: nat, n: nat)
    requires SameWindings(f, h)
    ensures SameWindings(Action(f, direction, AW_FULL_STEP, n), Action(h, direction, AW_HALF_STEP, 2 * n))
  {
    var dir := if direction == AW_FORWARD then Forward else Reverse;
    TwiceStretch(dir, n);
    HalfRefinesFull(f, h, Stretch(dir, n));
  }

  /** The pins one half step further: each is high when it is so n or n + 1 full steps on. */
  lemma HalfActionBetween(f: Motor, h: Motor, direction: nat, n: nat)
    requires SameWindings(f, h) && Energised(f.pins) && direction <= AW_FORWARD
    ensures Action(h, direction, AW_HALF_STEP, 2 * n + 1).pins
            == Either(Action(f, direction, AW_FULL_STEP, n).pins, Action(f, direction, AW_FULL_STEP, n + 1).pins)
  {
    var dir := if direction == AW_FORWARD then Forward else Reverse;
    TwiceStretch(dir, n);
    HalfwayOverRuns(f, h, Stretch(dir, n), dir);
    assert Stretch(dir, n) + [dir] == Stretch(dir, n + 1);
    assert Stretch(dir, 2 * n) + [dir] == Stretch(dir, 2 * n + 1);
  }

  /** Which way a call turns the rotor, and how far: AW_FORWARD takes the phase n quarter
      turns on and AW_REVERSE n back, less the slack there is in that direction, once the
      call is long enough to take it up.  The counter goes on by n either way. */
  lemma FullActionTurns(m: Motor, direction: nat, n: nat)
    requires Energised(m.pins) && direction <= AW_FORWARD
    requires n >= 2 || n >= Slack(m, if direction == AW_FORWARD then Forward else Reverse)
    ensures var m' := Action(m, direction, AW_FULL_STEP, n);
            && Energised(m'.pins) && m'.full == (m.full + n) % 4 && m'.half == m.half
            && Phase(m'.pins) == (if direction == AW_FORWARD then Phase(m.pins) + n - Slack(m, Forward)
                                  else Phase(m.pins) - n + Slack(m, Reverse)) % 4
  {
    var dir := if direction == AW_FORWARD then Forward else Reverse;
    StretchTravel(m, dir, n);
    StretchState(m, dir, n);
    AheadWraps(m.full, n);
    CountersApart(m, Stretch(dir, n));
    TravelMovesPhase(m, Stretch(dir, n));
  }

  /** The same in half mode from an even counter, with two half steps to the quarter turn. */
  lemma HalfActionTurns(m: Motor, direction: nat, n: nat)
    requires Energised(m.pins) && m.half % 2 == 0 && direction <= AW_FORWARD
    requires var f := m.(full := m.half / 2);
             n >= 2 || n >= Slack(f, if direction == AW_FORWARD then Forward else Reverse)
    ensures var m', f := Action(m, direction, AW_HALF_STEP, 2 * n), m.(full := m.half / 2);
            && Energised(m'.pins) && m'.half == (m.half + 2 * n) % 8 && m'.full == m.full
            && Phase(m'.pins) == (if direction == AW_FORWARD then Phase(m.pins) + n - Slack(f, Forward)
                                  else Phase(m.pins) - n + Slack(f, Reverse)) % 4
  {
    var f := m.(full := m.half / 2);
    HalfActionRefines(f, m, direction, n);
    FullActionTurns(f, direction, n);
    FullTurn(f.full + n);
    CountersApart(m, Stretch(if direction == AW_FORWARD then Forward else Reverse, 2 * n));
  }

  lemma OtherCodesDoNothing(m: Motor, direction: nat, mode: nat, n: nat)
    requires direction > 1 || mode > 1
    ensures Action(m, direction, mode, n) == m
  {
  }

  class Driver {
    var ain1: bool
    var ain2: bool
    var bin1: bool
    var bin2: bool
    var full: FullState
    var half: HalfState

    function State(): Motor
      reads this
    {
      Motor(Pins(ain1, ain2, bin1, bin2), full, half)
    }

    constructor ()
      ensures State() == Motor(Pins(false, false, false, false), 0, 0)
    {
      ain1, ain2, bin1, bin2 := false, false, false, false;
      full, half := 0, 0;
    }

    /** The switch of one full step. */
    method FullStepForward()
      modifies this
      ensures State() == FullStep(old(State()), Forward)
    {
      match full {
        case 0 =>
          ain1 := true;
          ain2 := false;
          full := 1;
        case 1 =>
          bin2 := true;
          bin1 := false;
          full := 2;
        case 2 =>
          ain2 := true;
          ain1 := false;
          full := 3;
        case _ =>
          bin1 := true;
          bin2 := false;
          full := 0;
      }
    }

    /** The reverse switch drives the windings the other way round, on the same counter. */
    method FullStepReverse()
      modifies this
      ensures State() == FullStep(old(State()), Reverse)
    {
      match full {
        case 0 =>
          bin1 := false;
          bin2 := true;
          full := 1;
        case 1 =>
          ain2 := false;
          ain1 := true;
          full := 2;
        case 2 =>
          bin2 := false;
          bin1 := true;
          full := 3;
        case _ =>
          ain1 := false;
          ain2 := true;
          full := 0;
      }
    }

    /** The switch of one half step sets a single pin. */
    method HalfStepForward()
      modifies this
      ensures State() == HalfStep(old(State()), Forward)
    {
      match half {
        case 0 =>
          ain1 := true;
          half := 1;
        case 1 =>
          ain2 := false;
          half := 2;
        case 2 =>
          bin2 := true;
          half := 3;
        case 3 =>
          bin1 := false;
          half := 4;
        case 4 =>
          ain2 := true;
          half := 5;
        case 5 =>
          ain1 := false;
          half := 6;
        case 6 =>
          bin1 := true;
          half := 7;
        case _ =>
          bin2 := false;
          half := 0;
      }
    }

    /** The reverse half step. */
    method HalfStepReverse()
      modifies this
      ensures State() == HalfStep(old(State()), Reverse)
    {
      match half {
        case 0 =>
          bin2 := true;
          half := 1;
        case 1 =>
          bin1 := false;
          half := 2;
        case 2 =>
          ain1 := true;
          half := 3;
        case 3 =>
          ain2 := false;
          half := 4;
        case 4 =>
          bin1 := true;
          half := 5;
        case 5 =>
          bin2 := false;
          half := 6;
        case 6 =>
          ain2 := true;
          half := 7;
        case _ =>
          ain1 := false;
          half := 0;
      }
    }

    method StepFunctionAction(direction: nat, modeSelect: nat, cycleCount: nat)
      modifies this
      ensures State() == Action(old(State()), direction, modeSelect, cycleCount)
    {
      ghost var m := State();
      ghost var dir := if direction == AW_FORWARD then Forward else Reverse;
      if direction == AW_FORWARD {
        if modeSelect == AW_FULL_STEP {
          for i := 0 to cycleCount
            invariant State() == FullRun(m, Stretch(dir, i))
          {
            RunSnoc(m, dir, i);
            FullStepForward();
          }
        } else if modeSelect == AW_HALF_STEP {
          for i := 0 to cycleCount
            invariant State() == HalfRun(m, Stretch(dir, i))
          {
            RunSnoc(m, dir, i);
            HalfStepForward();
          }
        }
      } else if direction == AW_REVERSE {
        if modeSelect == AW_FULL_STEP {
          for i := 0 to cycleCount
            invariant State() == FullRun(m, Stretch(dir, i))
          {
            RunSnoc(m, dir, i);
            FullStepReverse();
          }
        } else if modeSelect == AW_HALF_STEP {
          for i := 0 to cycleCount
            invariant State() == HalfRun(m, Stretch(dir, i))
          {
            RunSnoc(m, dir, i);
            HalfStepReverse();
          }
        }
      }
    }
  }
}
