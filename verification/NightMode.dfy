/** The day/night switch (pega_nv_mode.c): two counters that reset each other against a
    specification over the history of readings. */
module NightMode {

  datatype Mode = Unset | Night | Day
  datatype Side = Dark | Mid | Bright

  type Count = c: int | 0 <= c < 256

  /** The mode and its two 8-bit counters. */
  datatype State = State(mode: Mode, night: Count, day: Count)

  const INITIAL := State(Unset, 0, 0)

  /** An 8-bit counter wraps around. */
  function Inc(c: Count): Count {
    if c == 255 then 0 else c + 1
  }

  function OnDark(s: State, trigger: int): State {
    if s.night >= trigger - 1 then s.(day := 0, mode := Night) else s.(night := Inc(s.night))
  }

  function OnBright(s: State, trigger: int): State {
    if s.day >= trigger - 1 then s.(night := 0, mode := Day) else s.(day := Inc(s.day))
  }

  function OnReading(s: State, side: Side, trigger: int): State {
    match side
    case Dark => OnDark(s, trigger)
    case Mid => s
    case Bright => OnBright(s, trigger)
  }

  /** The counters after a history of readings, oldest first. */
  function After(h: seq<Side>, trigger: int): State {
    if h == [] then INITIAL else OnReading(After(h[..|h| - 1], trigger), h[|h| - 1], trigger)
  }

  function ModeOf(side: Side): Mode
    requires side != Mid
  {
    if side == Dark then Night else Day
  }

  function Total(h: seq<Side>, side: Side): nat {
    if h == [] then 0 else Total(h[..|h| - 1], side) + if h[|h| - 1] == side then 1 else 0
  }

  /** How many readings of a side end the history, dead-band readings apart. */
  function Streak(h: seq<Side>, side: Side): nat {
    if h == [] then
      0
    else
      var p, x := h[..|h| - 1], h[|h| - 1];
      if x == Mid then Streak(p, side) else if x == side then 1 + Streak(p, side) else 0
  }

  /** The specification, without counters.  The first mode is that of the side which is
      first seen t times in all; afterwards the mode is the opposite one exactly when the
      last t readings outside the dead band were all on the opposite side. */
  function Expected(h: seq<Side>, t: nat): Mode {
    if h == [] then
      Unset
    else
      var m, x := Expected(h[..|h| - 1], t), h[|h| - 1];
      if x == Mid then
        m
      else if (if m == Unset then Total(h, x) else Streak(h, x)) >= t then
        ModeOf(x)
      else
        m
  }

  function Effective(trigger: int): nat {
    if trigger < 1 then 1 else trigger
  }

  /** What the counters hold: totals until a mode is chosen, then a full counter for the
      mode and the streak of the other side. */
  lemma {:induction false} CountersAfter(h: seq<Side>, trigger: int)
    requires trigger <= 256
    ensures var s, t := After(h, trigger), Effective(trigger);
            && s.mode == Expected(h, t)
            && s.night < t && s.day < t
            && (s.mode == Unset ==> s.night == Total(h, Dark) && s.day == Total(h, Bright))
            && (s.mode == Night ==> s.night == t - 1 && s.day == Streak(h, Bright))
            && (s.mode == Day ==> s.day == t - 1 && s.night == Streak(h, Dark))
    decreases |h|
  {
    if h != [] {
      CountersAfter(h[..|h| - 1], trigger);
    }
  }

  /** A counter of 8 bits never reaches a trigger count above 256. */
  lemma {:induction false} NeverSwitches(h: seq<Side>, trigger: int)
    requires trigger > 256
    ensures After(h, trigger).mode == Unset
    ensures After(h, trigger).night == Total(h, Dark) % 256 && After(h, trigger).day == Total(h, Bright) % 256
  {
    if h != [] {
      NeverSwitches(h[..|h| - 1], trigger);
    }
  }

  lemma {:induction false} DarkNights(n: nat, t: nat)
    ensures Total(seq(n, _ => Dark), Dark) == n && Streak(seq(n, _ => Dark), Dark) == n
    ensures 0 < t <= n ==> Expected(seq(n, _ => Dark), t) == Night
    decreases n
  {
    var h := seq(n, _ => Dark);
    if n > 0 {
      assert h[..n - 1] == seq(n - 1, _ => Dark);
      DarkNights(n - 1, t);
    }
  }

  /** Debounce exactness, and where it ends: the counters follow the specification on
      every history if and only if the trigger count is at most 256. */
  lemma DebounceExact(trigger: int)
    ensures (forall h :: After(h, trigger).mode == Expected(h, Effective(trigger))) <==> trigger <= 256
  {
    if trigger <= 256 {
      forall h ensures After(h, trigger).mode == Expected(h, Effective(trigger)) {
        CountersAfter(h, trigger);
      }
    } else {
      var h := seq(trigger, _ => Dark);
      NeverSwitches(h, trigger);
      DarkNights(trigger, Effective(trigger));
      assert After(h, trigger).mode != Expected(h, Effective(trigger));
    }
  }

  /** The last reading changes a mode already chosen. */
  predicate FlipsAt(h: seq<Side>, trigger: int) {
    && h != []
    && After(h[..|h| - 1], trigger).mode != Unset
    && After(h, trigger).mode != After(h[..|h| - 1], trigger).mode
  }

  /** A mode once chosen flips exactly when the reading completes t in a row on the other
      side, whatever the trigger count. */
  lemma FlipExactly(h: seq<Side>, x: Side, trigger: int)
    requires After(h, trigger).mode != Unset
    ensures FlipsAt(h + [x], trigger)
            <==> x != Mid && After(h, trigger).mode != ModeOf(x) && Streak(h + [x], x) >= Effective(trigger)
  {
    if trigger > 256 {
      NeverSwitches(h, trigger);
      assert false;
    }
    CountersAfter(h, trigger);
    CountersAfter(h + [x], trigger);
    assert (h + [x])[..|h|] == h;
  }

  /** The reading at which the mode flips is on the side of the new mode. */
  lemma FlippedTo(h: seq<Side>, trigger: int)
    requires FlipsAt(h, trigger)
    ensures var x := h[|h| - 1];
            x != Mid && After(h, trigger).mode == ModeOf(x) && Streak(h, x) >= Effective(trigger)
  {
    var p := h[..|h| - 1];
    assert p + [h[|h| - 1]] == h;
    FlipExactly(p, h[|h| - 1], trigger);
  }

  lemma {:induction false} StreakStops(h: seq<Side>, g: seq<Side>, x: Side)
    requires h != [] && h[|h| - 1] != Mid && h[|h| - 1] != x && x != Mid
    ensures Streak(h + g, x) <= Total(g, x)
    decreases |g|
  {
    if g == [] {
      assert h + g == h;
    } else {
      var p := g[..|g| - 1];
      assert (h + g)[..|h + g| - 1] == h + p;
      StreakStops(h, p, x);
    }
  }

  /** Flips are at least t readings apart, all of them on the side flipped to. */
  lemma FlipsApart(h: seq<Side>, g: seq<Side>, trigger: int)
    requires FlipsAt(h, trigger) && g != [] && FlipsAt(h + g, trigger)
    requires After(h + g[..|g| - 1], trigger).mode == After(h, trigger).mode
    ensures g[|g| - 1] != Mid && Total(g, g[|g| - 1]) >= Effective(trigger)
  {
    var p, x := h + g[..|g| - 1], g[|g| - 1];
    assert (h + g)[..|h + g| - 1] == p;
    FlippedTo(h, trigger);
    FlippedTo(h + g, trigger);
    StreakStops(h, g, x);
  }

  /** The outputs of the board: the infrared cut filter and the infrared lamp. */
  datatype Command = IrCut(on: bool) | IrLed(on: bool)

  function Force(night: bool): seq<Command> {
    if night then [IrCut(false), IrLed(true)] else [IrLed(false), IrCut(true)]
  }

  /** The modes forced over a history, one for each change of mode. */
  function Forced(h: seq<Side>, trigger: int): seq<Mode> {
    if h == [] then
      []
    else
      var p := h[..|h| - 1];
      var m, m' := After(p, trigger).mode, After(h, trigger).mode;
      Forced(p, trigger) + if m' != m then [m'] else []
  }

  function Commands(forced: seq<Mode>): seq<Command> {
    if forced == [] then [] else Commands(forced[..|forced| - 1]) + Force(forced[|forced| - 1] == Night)
  }

  /** The filter or the lamp as the last command to it left it. */
  function CutOn(cs: seq<Command>, initial: bool): bool {
    if cs == [] then
      initial
    else if cs[|cs| - 1].IrCut? then
      cs[|cs| - 1].on
    else
      CutOn(cs[..|cs| - 1], initial)
  }

  function LedOn(cs: seq<Command>, initial: bool): bool {
    if cs == [] then
      initial
    else if cs[|cs| - 1].IrLed? then
      cs[|cs| - 1].on
    else
      LedOn(cs[..|cs| - 1], initial)
  }

  /** Day and night are forced alternately, the last one is the mode, and once a mode is
      chosen the lamp is on and the filter off exactly at night, whatever the trigger
      count. */
  lemma OutputsMatch(h: seq<Side>, trigger: int, cut: bool, led: bool)
    ensures Alternates(Forced(h, trigger), After(h, trigger).mode)
    ensures After(h, trigger).mode != Unset ==>
              && LedOn(Commands(Forced(h, trigger)), led) == (After(h, trigger).mode == Night)
              && CutOn(Commands(Forced(h, trigger)), cut) == (After(h, trigger).mode == Day)
  {
    ForcedAlternates(h, trigger);
    LastForce(Forced(h, trigger), cut, led);
  }

  /** A list of forced modes that changes at every entry and ends in the given mode. */
  predicate Alternates(f: seq<Mode>, mode: Mode) {
    && (forall i :: 0 <= i < |f| ==> f[i] != Unset)
    && (forall i :: 0 < i < |f| ==> f[i] != f[i - 1])
    && mode == if f == [] then Unset else f[|f| - 1]
  }

  lemma {:induction false} ForcedAlternates(h: seq<Side>, trigger: int)
    ensures Alternates(Forced(h, trigger), After(h, trigger).mode)
  {
    if h != [] {
      ForcedAlternates(h[..|h| - 1], trigger);
    }
  }

  lemma LastForce(forced: seq<Mode>, cut: bool, led: bool)
    ensures forced != [] ==>
              && LedOn(Commands(forced), led) == (forced[|forced| - 1] == Night)
              && CutOn(Commands(forced), cut) == (forced[|forced| - 1] != Night)
  {
    if forced != [] {
      var c := Commands(forced[..|forced| - 1]);
      var f := Force(forced[|forced| - 1] == Night);
      assert (c + f)[..|c + f| - 1] == c + [f[0]];
    }
  }

  /** The mode a reading is reported to command, Unset for none: a side reports its mode
      whenever its counter is full, a change or not. */
  function Report(s: State, side: Side, trigger: int): Mode {
    if side == Dark && s.night >= trigger - 1 then Night
    else if side == Bright && s.day >= trigger - 1 then Day
    else Unset
  }

  /** When something is reported: exactly at the readings on the side of the mode in force
      after them. */
  lemma ReportsInForce(h: seq<Side>, x: Side, trigger: int)
    ensures Report(After(h, trigger), x, trigger)
            == if x != Mid && After(h + [x], trigger).mode == ModeOf(x) then ModeOf(x) else Unset
  {
    assert (h + [x])[..|h|] == h;
    if trigger > 256 {
      NeverSwitches(h, trigger);
      NeverSwitches(h + [x], trigger);
    } else {
      CountersAfter(h, trigger);
    }
  }

  /** Why the commands come in their order: whatever modes are forced, and wherever the
      commands stop, the lamp is never on with the filter in place, if it was not at first. */
  lemma {:induction false} LampNeedsFilterOut(forced: seq<Mode>, n: nat, cut: bool, led: bool)
    requires n <= |Commands(forced)| && !(cut && led)
    ensures var cs := Commands(forced)[..n]; !(LedOn(cs, led) && CutOn(cs, cut))
    decreases |forced|
  {
    if forced != [] {
      var p, f := Commands(forced[..|forced| - 1]), Force(forced[|forced| - 1] == Night);
      assert Commands(forced) == p + f && |f| == 2;
      if n <= |p| {
        LampNeedsFilterOut(forced[..|forced| - 1], n, cut, led);
        assert (p + f)[..n] == p[..n];
      } else if n == |p| + 1 {
        LampNeedsFilterOut(forced[..|forced| - 1], |p|, cut, led);
        assert p[..|p|] == p;
        OneMore(p, f[0], cut, led);
        assert (p + f)[..n] == p + [f[0]];
      } else {
        OneMore(p, f[0], cut, led);
        OneMore(p + [f[0]], f[1], cut, led);
        assert (p + f)[..n] == p + [f[0]] + [f[1]];
      }
    }
  }

  lemma OneMore(cs: seq<Command>, c: Command, cut: bool, led: bool)
    ensures CutOn(cs + [c], cut) == if c.IrCut? then c.on else CutOn(cs, cut)
    ensures LedOn(cs + [c], led) == if c.IrLed? then c.on else LedOn(cs, led)
  {
    assert (cs + [c])[..|cs + [c]| - 1] == cs;
  }
}
