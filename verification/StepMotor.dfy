/** The phases of the AWD8833 stepper (pega_motor_awd8833.c): forward and reverse share
    one state counter that always moves on, in full and in half steps. */
module StepMotor {

  datatype Pins = Pins(ain1: bool, ain2: bool, bin1: bool, bin2: bool)

  type FullState = s: int | 0 <= s < 4
  type HalfState = s: int | 0 <= s < 8

  datatype Direction = Reverse | Forward

  datatype Motor = Motor(pins: Pins, full: FullState, half: HalfState)

  function FullPins(p: Pins, s: FullState, dir: Direction): Pins {
    match (dir, s)
    case (Forward, 0) => p.(ain1 := true, ain2 := false)
    case (Forward, 1) => p.(bin2 := true, bin1 := false)
    case (Forward, 2) => p.(ain2 := true, ain1 := false)
    case (Forward, _) => p.(bin1 := true, bin2 := false)
    case (Reverse, 0) => p.(bin1 := false, bin2 := true)
    case (Reverse, 1) => p.(ain2 := false, ain1 := true)
    case (Reverse, 2) => p.(bin2 := false, bin1 := true)
    case (Reverse, _) => p.(ain1 := false, ain2 := true)
  }

  function HalfPins(p: Pins, s: HalfState, dir: Direction): Pins {
    match (dir, s)
    case (Forward, 0) => p.(ain1 := true)
    case (Forward, 1) => p.(ain2 := false)
    case (Forward, 2) => p.(bin2 := true)
    case (Forward, 3) => p.(bin1 := false)
    case (Forward, 4) => p.(ain2 := true)
    case (Forward, 5) => p.(ain1 := false)
    case (Forward, 6) => p.(bin1 := true)
    case (Forward, _) => p.(bin2 := false)
    case (Reverse, 0) => p.(bin2 := true)
    case (Reverse, 1) => p.(bin1 := false)
    case (Reverse, 2) => p.(ain1 := true)
    case (Reverse, 3) => p.(ain2 := false)
    case (Reverse, 4) => p.(bin1 := true)
    case (Reverse, 5) => p.(bin2 := false)
    case (Reverse, 6) => p.(ain2 := true)
    case (Reverse, _) => p.(ain1 := false)
  }

  function Next(s: FullState): FullState {
    if s == 3 then 0 else s + 1
  }

  function FullStep(m: Motor, dir: Direction): Motor {
    m.(pins := FullPins(m.pins, m.full, dir), full := Next(m.full))
  }

  function HalfStep(m: Motor, dir: Direction): Motor {
    m.(pins := HalfPins(m.pins, m.half, dir), half := if m.half == 7 then 0 else m.half + 1)
  }

  function FullRun(m: Motor, dirs: seq<Direction>): Motor
    decreases |dirs|
  {
    if dirs == [] then m else FullRun(FullStep(m, dirs[0]), dirs[1..])
  }

  function HalfRun(m: Motor, dirs: seq<Direction>): Motor
    decreases |dirs|
  {
    if dirs == [] then m else HalfRun(HalfStep(m, dirs[0]), dirs[1..])
  }

  function Twice(dirs: seq<Direction>): seq<Direction> {
    if dirs == [] then [] else [dirs[0], dirs[0]] + Twice(dirs[1..])
  }

  predicate SameWindings(f: Motor, h: Motor) {
    f.pins == h.pins && h.half == 2 * f.full
  }

  /** Half stepping refines full stepping: from equal pins and aligned counters, half
      steps taken two by two in any directions follow the full steps. */
  lemma {:induction false} HalfRefinesFull(f: Motor, h: Motor, dirs: seq<Direction>)
    requires SameWindings(f, h)
    ensures SameWindings(FullRun(f, dirs), HalfRun(h, Twice(dirs)))
    decreases |dirs|
  {
    if dirs != [] {
      var two := Twice(dirs);
      assert two[1..][0] == dirs[0] && two[1..][1..] == Twice(dirs[1..]);
      assert HalfRun(h, two) == HalfRun(HalfStep(HalfStep(h, dirs[0]), dirs[0]), Twice(dirs[1..]));
      HalfRefinesFull(FullStep(f, dirs[0]), HalfStep(HalfStep(h, dirs[0]), dirs[0]), dirs[1..]);
    }
  }

  /** Each winding carries current one way or the other. */
  predicate Energised(p: Pins) {
    p.ain1 != p.ain2 && p.bin1 != p.bin2
  }

  /** The electrical angle of the rotor in quarter turns, in forward order. */
  function Phase(p: Pins): int
    requires Energised(p)
  {
    if p.ain1 then (if p.bin1 then 0 else 1) else (if p.bin2 then 2 else 3)
  }

  /** A small number of quarter turns, modulo a full one. */
  function Around(x: int): int
    requires -4 <= x < 8
  {
    if x < 0 then x + 4 else if x >= 4 then x - 4 else x
  }

  /** The quarter turns a change of pins makes, when at most one winding changes. */
  function Turn(p: Pins, q: Pins): int
    requires Energised(p) && Energised(q)
  {
    var d := Around(Phase(q) - Phase(p));
    if d == 3 then -1 else d
  }

  /** n steps in a direction, as forward steps. */
  function Signed(dir: Direction, n: int): int {
    if dir.Forward? then n else -n
  }

  function Opposite(dir: Direction): Direction {
    if dir.Forward? then Reverse else Forward
  }

  lemma FullStepEnergised(m: Motor, dir: Direction)
    requires Energised(m.pins)
    ensures Energised(FullStep(m, dir).pins)
    ensures -1 <= Turn(m.pins, FullStep(m, dir).pins) <= 1
  {
  }

  /** The steps a direction has yet to lose before its calls and the rotor agree. */
  function Slack(m: Motor, dir: Direction): int
    requires Energised(m.pins)
  {
    if dir.Forward? then Around(Phase(m.pins) - m.full + 1) else Around(3 - m.full - Phase(m.pins))
  }

  /** The potential: what a step fails to turn in its direction is what it takes off the
      slack, and any slack is gone after two steps. */
  lemma StepPaysSlack(m: Motor, dir: Direction)
    requires Energised(m.pins)
    ensures 0 <= Slack(m, dir) <= 3
    ensures Signed(dir, Turn(m.pins, FullStep(m, dir).pins))
            == 1 - (Slack(m, dir) - Slack(FullStep(m, dir), dir))
    ensures Slack(FullStep(m, dir), dir) <= 1
    ensures Slack(m, dir) <= 1 ==> Slack(FullStep(m, dir), dir) == 0
  {
  }

  /** Net quarter turns of the rotor over a run. */
  function Travel(m: Motor, dirs: seq<Direction>): int
    requires Energised(m.pins)
    decreases |dirs|
  {
    if dirs == [] then
      0
    else
      FullStepEnergised(m, dirs[0]);
      Turn(m.pins, FullStep(m, dirs[0]).pins) + Travel(FullStep(m, dirs[0]), dirs[1..])
  }

  /** Forward calls less reverse calls. */
  function Called(dirs: seq<Direction>): int {
    if dirs == [] then 0 else Signed(dirs[0], 1) + Called(dirs[1..])
  }

  /** The number of stretches of a run that go in direction dir. */
  function Stretches(dirs: seq<Direction>, dir: Direction): nat {
    if dirs == [] then
      0
    else
      (if dirs[0] == dir && (|dirs| == 1 || dirs[1] != dir) then 1 else 0) + Stretches(dirs[1..], dir)
  }

  function Changes(dirs: seq<Direction>): nat {
    if |dirs| <= 1 then 0 else (if dirs[0] != dirs[1] then 1 else 0) + Changes(dirs[1..])
  }

  /** Stretches alternate, so the first direction has the odd one. */
  lemma {:induction false} StretchesAreChanges(dirs: seq<Direction>)
    requires dirs != []
    ensures Stretches(dirs, dirs[0]) == Changes(dirs) / 2 + 1
    ensures Stretches(dirs, Opposite(dirs[0])) == (Changes(dirs) + 1) / 2
  {
    if |dirs| > 1 {
      StretchesAreChanges(dirs[1..]);
    }
  }

  /** How far a run leaves the rotor behind its calls in direction dir. */
  function Behind(m: Motor, dirs: seq<Direction>, dir: Direction): int
    requires Energised(m.pins)
  {
    Signed(dir, Called(dirs) - Travel(m, dirs))
  }

  /** The most a stretch against dir, if it comes first, can lead up to: the slack it
      leaves in dir, less what it loses itself. */
  function Lead(m: Motor, dir: Direction): int
    requires Energised(m.pins)
  {
    var s := Slack(m, dir);
    if s == 0 || (s == 2 && Slack(m, Opposite(dir)) == 0) then 2 else 3
  }

  /** What a run can still lose in dir: its first stretch the slack, or what the stretch
      against dir leads up to, and every later stretch two steps. */
  function Budget(m: Motor, dirs: seq<Direction>, dir: Direction): int
    requires Energised(m.pins)
  {
    Allowance(Stretches(dirs, dir), Starts(dirs, dir), Slack(m, dir), Lead(m, dir))
  }

  function Allowance(stretches: nat, starts: bool, slack: int, lead: int): int {
    if stretches == 0 then 0 else 2 * (stretches - 1) + if starts then slack else lead
  }

  predicate Starts(dirs: seq<Direction>, dir: Direction) {
    dirs != [] && dirs[0] == dir
  }

  lemma StretchesStep(dirs: seq<Direction>, dir: Direction)
    requires dirs != []
    ensures Stretches(dirs, dir)
            == Stretches(dirs[1..], dir) + if dirs[0] == dir && !Starts(dirs[1..], dir) then 1 else 0
    ensures Starts(dirs[1..], dir) ==> Stretches(dirs[1..], dir) > 0
  {
    if |dirs| > 1 {
      StretchesAreChanges(dirs[1..]);
    }
  }

  /** One step, seen from direction dir: going on or turning round, the budget pays for
      what the step loses. */
  lemma StepPaysLead(m: Motor, step: Direction, dir: Direction)
    requires Energised(m.pins)
    ensures var m1 := FullStep(m, step);
            var loss := Signed(dir, Signed(step, 1) - Turn(m.pins, m1.pins));
            && Energised(m1.pins) && 2 <= Lead(m1, dir) <= 3
            && (step == dir ==> loss + Slack(m1, dir) == Slack(m, dir) && loss + Lead(m1, dir) <= Slack(m, dir) + 2)
            && (step != dir ==>
                 loss <= 0 && loss + Lead(m1, dir) <= Lead(m, dir) && loss + Slack(m1, dir) <= Lead(m, dir))
            && (step == dir ==> loss <= Slack(m, dir) <= 3)
  {
  }

  lemma {:induction false} LossWithinBudget(m: Motor, dirs: seq<Direction>, dir: Direction)
    requires Energised(m.pins)
    ensures Behind(m, dirs, dir) <= Budget(m, dirs, dir)
    decreases |dirs|
  {
    if dirs != [] {
      var m1 := FullStep(m, dirs[0]);
      StepPaysLead(m, dirs[0], dir);
      LossWithinBudget(m1, dirs[1..], dir);
      BehindStep(m, dirs, dir);
      BudgetStep(m, dirs, dir);
    }
  }

  lemma BehindStep(m: Motor, dirs: seq<Direction>, dir: Direction)
    requires Energised(m.pins) && dirs != []
    ensures var m1 := FullStep(m, dirs[0]);
            && Energised(m1.pins)
            && Behind(m, dirs, dir)
               == Signed(dir, Signed(dirs[0], 1) - Turn(m.pins, m1.pins)) + Behind(m1, dirs[1..], dir)
  {
    FullStepEnergised(m, dirs[0]);
  }

  lemma BudgetStep(m: Motor, dirs: seq<Direction>, dir: Direction)
    requires Energised(m.pins) && dirs != []
    ensures var m1 := FullStep(m, dirs[0]);
            && Energised(m1.pins)
            && Signed(dir, Signed(dirs[0], 1) - Turn(m.pins, m1.pins)) + Budget(m1, dirs[1..], dir)
               <= Budget(m, dirs, dir)
  {
    StepPaysLead(m, dirs[0], dir);
    StretchesStep(dirs, dir);
  }

  /** Step loss: from any energised state, over a run with k direction changes, the rotor
      is at most 3 + 2 (k / 2) steps from where the calls put it.  In either direction the
      first stretch loses at most three steps and every later one at most two, and a run
      without a stretch in a direction never falls behind in it. */
  lemma StepLoss(m: Motor, dirs: seq<Direction>)
    requires Energised(m.pins)
    ensures forall dir ::
              Behind(m, dirs, dir) <= var a := Stretches(dirs, dir); if a == 0 then 0 else 2 * a + 1
    ensures var bound := 3 + 2 * (Changes(dirs) / 2); -bound <= Travel(m, dirs) - Called(dirs) <= bound
  {
    forall dir
      ensures Behind(m, dirs, dir) <= var a := Stretches(dirs, dir); if a == 0 then 0 else 2 * a + 1
    {
      LossWithinBudget(m, dirs, dir);
      StepPaysSlack(m, dir);
    }
    assert Behind(m, dirs, Forward) == Called(dirs) - Travel(m, dirs);
    assert Behind(m, dirs, Reverse) == Travel(m, dirs) - Called(dirs);
    if dirs != [] {
      StretchesAreChanges(dirs);
    }
  }

  /** A stretch of n steps in one direction. */
  function Stretch(dir: Direction, n: nat): (s: seq<Direction>) {
    seq(n, _ => dir)
  }

  /** An exact account of one stretch: it turns the rotor by its steps less the slack,
      once it has at least two steps, and leaves no slack behind. */
  lemma {:induction false} StretchTravel(m: Motor, dir: Direction, n: nat)
    requires Energised(m.pins)
    ensures var m' := FullRun(m, Stretch(dir, n));
            && Energised(m'.pins)
            && Travel(m, Stretch(dir, n)) == Signed(dir, n - (Slack(m, dir) - Slack(m', dir)))
            && (n >= 2 || (n == 1 && Slack(m, dir) <= 1) || Slack(m, dir) == 0 ==> Slack(m', dir) == 0)
    decreases n
  {
    if n > 0 {
      var m1 := FullStep(m, dir);
      assert Stretch(dir, n)[1..] == Stretch(dir, n - 1);
      FullStepEnergised(m, dir);
      StepPaysSlack(m, dir);
      StretchTravel(m1, dir, n - 1);
      assert Travel(m, Stretch(dir, n)) == Turn(m.pins, m1.pins) + Travel(m1, Stretch(dir, n - 1));
    }
  }

  /** The counter after n steps. */
  function Ahead(s: FullState, n: nat): FullState
    decreases n
  {
    if n == 0 then s else Ahead(Next(s), n - 1)
  }

  lemma {:induction false} AheadParity(s: FullState, n: nat)
    ensures Ahead(s, n) % 2 == (s + n) % 2
    decreases n
  {
    if n > 0 {
      AheadParity(Next(s), n - 1);
    }
  }

  /** The counter moves on with every step, whatever its direction. */
  lemma {:induction false} StretchState(m: Motor, dir: Direction, n: nat)
    ensures FullRun(m, Stretch(dir, n)).full == Ahead(m.full, n)
    decreases n
  {
    if n > 0 {
      assert Stretch(dir, n)[1..] == Stretch(dir, n - 1);
      StretchState(FullStep(m, dir), dir, n - 1);
    }
  }

  /** Turning round after a stretch that ran clean costs nothing or two steps, by the
      parity of the state counter. */
  lemma ReversalSlack(m: Motor, dir: Direction)
    requires Energised(m.pins) && Slack(m, dir) == 0
    ensures Slack(m, Opposite(dir)) == if m.full % 2 == 0 then 0 else 2
    ensures -Signed(Opposite(dir), Slack(m, Opposite(dir))) == if m.full % 2 == 0 then 0 else Signed(dir, 2)
  {
  }

  /** Stretches of at least two steps each, in alternating directions. */
  function Zigzag(dir: Direction, lens: seq<nat>): seq<Direction>
    decreases |lens|
  {
    if lens == [] then [] else Stretch(dir, lens[0]) + Zigzag(Opposite(dir), lens[1..])
  }

  /** The rotor's signed error over a zigzag that starts clean in state s: each reversal
      adds two steps against the new direction when the counter is odd, nothing else. */
  function ZigzagError(s: FullState, dir: Direction, lens: seq<nat>): int
    decreases |lens|
  {
    if |lens| <= 1 then
      0
    else
      var s' := Ahead(s, lens[0]);
      (if s' % 2 == 0 then 0 else Signed(dir, 2)) + ZigzagError(s', Opposite(dir), lens[1..])
  }

  lemma {:induction false} RunAppend(m: Motor, a: seq<Direction>, b: seq<Direction>)
    requires Energised(m.pins)
    ensures Energised(FullRun(m, a).pins)
    ensures Travel(m, a + b) == Travel(m, a) + Travel(FullRun(m, a), b)
    ensures FullRun(m, a + b) == FullRun(FullRun(m, a), b)
    ensures Called(a + b) == Called(a) + Called(b)
    decreases |a|
  {
    if a == [] {
      assert a + b == b;
    } else {
      assert (a + b)[1..] == a[1..] + b;
      FullStepEnergised(m, a[0]);
      RunAppend(FullStep(m, a[0]), a[1..], b);
    }
  }

  lemma {:induction false} CalledStretch(dir: Direction, n: nat)
    ensures Called(Stretch(dir, n)) == Signed(dir, n)
    decreases n
  {
    if n > 0 {
      assert Stretch(dir, n)[1..] == Stretch(dir, n - 1);
      CalledStretch(dir, n - 1);
    }
  }

  /** Exact loss: with stretches of two steps or more the error of the rotor is the sum of
      the reversals' losses of zero or two steps. */
  lemma {:induction false} ZigzagExact(m: Motor, dir: Direction, lens: seq<nat>)
    requires Energised(m.pins)
    requires forall i :: 0 <= i < |lens| ==> lens[i] >= 2
    requires lens != []
    ensures Travel(m, Zigzag(dir, lens)) - Called(Zigzag(dir, lens))
            == ZigzagError(m.full, dir, lens) - Signed(dir, Slack(m, dir))
    decreases |lens|
  {
    var rest := Zigzag(Opposite(dir), lens[1..]);
    var m' := FullRun(m, Stretch(dir, lens[0]));
    FirstStretch(m, dir, lens[0], rest);
    if |lens| > 1 {
      ReversalSlack(m', dir);
      ZigzagExact(m', Opposite(dir), lens[1..]);
      assert Travel(m', rest) - Called(rest) == ZigzagError(m.full, dir, lens);
    } else {
      assert rest == [];
    }
  }

  /** A stretch of two steps or more adds its slack to the error and ends clean. */
  lemma FirstStretch(m: Motor, dir: Direction, n: nat, rest: seq<Direction>)
    requires Energised(m.pins) && n >= 2
    ensures var m' := FullRun(m, Stretch(dir, n));
            && Energised(m'.pins) && Slack(m', dir) == 0 && m'.full == Ahead(m.full, n)
            && Travel(m, Stretch(dir, n) + rest) - Called(Stretch(dir, n) + rest)
               == Travel(m', rest) - Called(rest) - Signed(dir, Slack(m, dir))
  {
    StretchTravel(m, dir, n);
    StretchState(m, dir, n);
    CalledStretch(dir, n);
    RunAppend(m, Stretch(dir, n), rest);
  }

  /** There and back: n steps one way and n back, n at least two, from any energised state,
      bring the rotor home exactly when the slack it starts with is what the turn loses: 0
      at an even counter, 2 at an odd one. */
  lemma ThereAndBack(m: Motor, dir: Direction, n: nat)
    requires Energised(m.pins) && n >= 2
    ensures Travel(m, Stretch(dir, n) + Stretch(Opposite(dir), n)) == 0
            <==> Slack(m, dir) == if (m.full + n) % 2 == 0 then 0 else 2
  {
    ZigzagExact(m, dir, [n, n]);
    TurnOnce(m.full, dir, n);
    OutAndBack(dir, n);
    RunAppend(m, Stretch(dir, n), Stretch(Opposite(dir), n));
    CalledStretch(dir, n);
    CalledStretch(Opposite(dir), n);
  }

  lemma OutAndBack(dir: Direction, n: nat)
    ensures Zigzag(dir, [n, n]) == Stretch(dir, n) + Stretch(Opposite(dir), n)
  {
    assert [n, n][1..] == [n] && [n][1..] == [];
    var back := Stretch(Opposite(dir), n);
    assert Zigzag(Opposite(dir), [n]) == back + [] == back;
  }

  lemma TurnOnce(s: FullState, dir: Direction, n: nat)
    ensures ZigzagError(s, dir, [n, n]) == Signed(dir, if (s + n) % 2 == 0 then 0 else 2)
  {
    assert [n, n][1..] == [n];
    AheadParity(s, n);
    assert ZigzagError(Ahead(s, n), Opposite(dir), [n]) == 0;
  }

  /** The state and the run that lose the most: full slack, then turns back at odd
      counters. */
  function Slackest(dir: Direction): Motor {
    Motor(if dir.Forward? then Pins(false, true, false, true) else Pins(true, false, true, false), 0, 0)
  }

  function WorstRun(dir: Direction, k: nat): seq<Direction> {
    Zigzag(dir, [2] + Threes(k))
  }

  function Threes(k: nat): (t: seq<nat>)
    ensures |t| == k
  {
    seq(k, _ => 3)
  }

  /** The bound of StepLoss is reached, for every number of changes and both ways. */
  lemma StepLossReached(dir: Direction, k: nat)
    ensures Energised(Slackest(dir).pins) && Changes(WorstRun(dir, k)) == k
    ensures Behind(Slackest(dir), WorstRun(dir, k), dir) == 3 + 2 * (k / 2)
  {
    var lens := [2] + Threes(k);
    assert Slack(Slackest(dir), dir) == 3;
    ZigzagChanges(dir, lens);
    ZigzagExact(Slackest(dir), dir, lens);
    ErrorOfThrees(0, dir, 2, k);
  }

  lemma {:induction false} ZigzagChanges(dir: Direction, lens: seq<nat>)
    requires lens != [] && forall i :: 0 <= i < |lens| ==> lens[i] > 0
    ensures Zigzag(dir, lens) != [] && Zigzag(dir, lens)[0] == dir
    ensures Changes(Zigzag(dir, lens)) == |lens| - 1
    decreases |lens|
  {
    var rest := Zigzag(Opposite(dir), lens[1..]);
    if |lens| > 1 {
      ZigzagChanges(Opposite(dir), lens[1..]);
    }
    ChangesAfter(dir, lens[0], rest);
  }

  lemma {:induction false} ChangesAfter(dir: Direction, n: nat, rest: seq<Direction>)
    requires n > 0 && (rest == [] || rest[0] != dir)
    ensures (Stretch(dir, n) + rest)[0] == dir
    ensures Changes(Stretch(dir, n) + rest) == if rest == [] then 0 else 1 + Changes(rest)
    decreases n
  {
    var all := Stretch(dir, n) + rest;
    if n > 1 {
      assert all[1..] == Stretch(dir, n - 1) + rest;
      ChangesAfter(dir, n - 1, rest);
    } else {
      assert all[1..] == rest;
    }
  }

  /** From an even counter at the first turn, every second turn is at an odd one. */
  lemma {:induction false} ErrorOfThrees(s: FullState, dir: Direction, n: nat, k: nat)
    requires n > 0
    ensures ZigzagError(s, dir, [n] + Threes(k))
            == if (s + n) % 2 == 0 then -Signed(dir, 2 * (k / 2)) else Signed(dir, 2 * ((k + 1) / 2))
    decreases k
  {
    AheadParity(s, n);
    if k > 0 {
      var lens := [n] + Threes(k);
      assert lens[1..] == [3] + Threes(k - 1);
      ErrorOfThrees(Ahead(s, n), Opposite(dir), 3, k - 1);
    }
  }

  /** A pin is high when it is in either of two states. */
  function Either(p: Pins, q: Pins): Pins {
    Pins(p.ain1 || q.ain1, p.ain2 || q.ain2, p.bin1 || q.bin1, p.bin2 || q.bin2)
  }

  /** Halfway through a full step a pin is high when it is so before or after it: a winding
      that turns has both its pins high in between, never both low. */
  lemma HalfwayPins(m: Motor, dir: Direction)
    requires Energised(m.pins) && m.half % 2 == 0
    ensures HalfStep(m, dir).pins == Either(m.pins, FullPins(m.pins, m.half / 2, dir))
  {
  }

  lemma {:induction false} HalfRunAppend(m: Motor, a: seq<Direction>, b: seq<Direction>)
    ensures HalfRun(m, a + b) == HalfRun(HalfRun(m, a), b)
    decreases |a|
  {
    if a == [] {
      assert a + b == b;
    } else {
      assert (a + b)[1..] == a[1..] + b;
      HalfRunAppend(HalfStep(m, a[0]), a[1..], b);
    }
  }

  /** The pins at odd half counters, over runs in any directions. */
  lemma HalfwayOverRuns(f: Motor, h: Motor, dirs: seq<Direction>, dir: Direction)
    requires SameWindings(f, h) && Energised(f.pins)
    ensures HalfRun(h, Twice(dirs) + [dir]).pins == Either(FullRun(f, dirs).pins, FullRun(f, dirs + [dir]).pins)
  {
    HalfRefinesFull(f, h, dirs);
    HalfRunAppend(h, Twice(dirs), [dir]);
    RunAppend(f, dirs, [dir]);
    var g, k := FullRun(f, dirs), HalfRun(h, Twice(dirs));
    assert [dir][1..] == [];
    assert HalfRun(k, [dir]) == HalfStep(k, dir) && FullRun(g, [dir]) == FullStep(g, dir);
    HalfwayPins(k, dir);
  }

  /** The phase follows the rotor's travel. */
  lemma {:induction false} TravelMovesPhase(m: Motor, dirs: seq<Direction>)
    requires Energised(m.pins)
    ensures Energised(FullRun(m, dirs).pins)
    ensures Phase(FullRun(m, dirs).pins) == (Phase(m.pins) + Travel(m, dirs)) % 4
    decreases |dirs|
  {
    if dirs != [] {
      FullStepEnergised(m, dirs[0]);
      TravelMovesPhase(FullStep(m, dirs[0]), dirs[1..]);
    }
  }

  lemma {:induction false} AheadWraps(s: FullState, n: nat)
    ensures Ahead(s, n) == (s + n) % 4
    decreases n
  {
    if n > 0 {
      AheadWraps(Next(s), n - 1);
      FullTurn(n - 1);
    }
  }

  lemma FullTurn(x: int)
    ensures (x + 4) % 4 == x % 4 && 2 * (x % 4) == (2 * x) % 8
  {
    var q, r := x / 4, x % 4;
    assert x == 4 * q + r && x + 4 == 4 * (q + 1) + r && 2 * x == 8 * q + 2 * r;
  }

  /** Full steps leave the half counter alone, and half steps the full one. */
  lemma {:induction false} CountersApart(m: Motor, dirs: seq<Direction>)
    ensures FullRun(m, dirs).half == m.half && HalfRun(m, dirs).full == m.full
    decreases |dirs|
  {
    if dirs != [] {
      CountersApart(FullStep(m, dirs[0]), dirs[1..]);
      CountersApart(HalfStep(m, dirs[0]), dirs[1..]);
    }
  }
}
