/** The scheduler's static array and counter (pega_schedule.c), updated in place.  Every
    method is proved on every array in bounds, and on arrays that represent a queue it is
    the queue operation of ScheduleSpec. */
module Schedule {
  import opened ScheduleSpec
  import opened ScheduleArray

  class Scheduler {
    const buff: array<Slot>
    var cnt: nat

    /** The scans up to and including cnt never leave the array. */
    ghost predicate Bounded()
      reads this
    {
      buff.Length == BUFF_MAX && cnt < BUFF_MAX
    }

    ghost function State(): Array
      reads this, buff
    {
      Array(buff[..], cnt)
    }

    /** The array represents the queue of its first cnt slots. */
    ghost predicate Valid()
      reads this, buff
    {
      Bounded() && Represents(State(), buff[..cnt])
    }

    ghost function Contents(): Queue
      requires Valid()
      reads this, buff
    {
      buff[..cnt]
    }

    constructor ()
      ensures Valid() && Contents() == [] && fresh(buff)
    {
      buff := new Slot[BUFF_MAX](_ => Slot(NONE, 0, 0));
      cnt := 0;
    }

    /** The array that represents q holds q. */
    lemma Holds(q: Queue)
      requires Represents(State(), q)
      ensures Valid() && Contents() == q
    {
      assert buff[..cnt] == State().slots[..cnt] == q;
    }

    method Reset()
      requires Bounded()
      modifies this, buff
      ensures Bounded() && State() == ArrayReset(old(State()))
      ensures forall k :: 0 <= k < BUFF_MAX ==> buff[k] == Slot(NONE, 0, old(buff[k]).time)
      ensures Valid() && Contents() == []
    {
      cnt := 0;
      while cnt < BUFF_MAX
        invariant 0 <= cnt <= BUFF_MAX
        invariant forall k :: 0 <= k < BUFF_MAX ==>
                    buff[k] == if k < cnt then old(buff[k]).(evt := NONE, count := 0) else old(buff[k])
      {
        buff[cnt] := buff[cnt].(evt := NONE, count := 0);
        cnt := cnt + 1;
      }
      cnt := 0;
      assert buff[..] == ArrayReset(old(State())).slots;
    }

    method TimeoutCheck(i: nat) returns (due: bool)
      requires i < buff.Length
      modifies buff
      ensures due == DueSlot(old(buff[i]))
      ensures buff[..] == old(buff[..])[i := if old(buff[i]).evt == NONE then old(buff[i]) else Aged(old(buff[i]))]
    {
      if buff[i].evt == NONE {
        return false;
      }
      buff[i] := buff[i].(time := buff[i].time + 1);
      if buff[i].count > 0 {
        buff[i] := buff[i].(count := buff[i].count - 1);
        if buff[i].count <= 0 {
          return true;
        }
      }
      return false;
    }

    /** Takes slot ucIndex out by moving the rest of the array down one place. */
    method Reschedule(ucIndex: nat)
      requires Bounded() && ucIndex < BUFF_MAX
      modifies this, buff
      ensures Bounded() && State() == Shift(old(State()), ucIndex)
      ensures cnt == if old(cnt) == 0 then 0 else old(cnt) - 1
      ensures forall k :: 0 <= k < ucIndex || k == BUFF_MAX - 1 ==> buff[k] == old(buff[k])
      ensures forall k :: ucIndex < k < BUFF_MAX ==> buff[k - 1] == old(buff[k])
    {
      var i := ucIndex;
      while i < BUFF_MAX - 1
        invariant ucIndex <= i <= BUFF_MAX - 1
        invariant forall k :: 0 <= k < ucIndex ==> buff[k] == old(buff[k])
        invariant forall k :: ucIndex < k <= i ==> buff[k - 1] == old(buff[k])
        invariant forall k :: i <= k < BUFF_MAX ==> buff[k] == old(buff[k])
        invariant cnt == old(cnt)
      {
        buff[i] := buff[i + 1];
        i := i + 1;
      }
      if cnt > 0 {
        cnt := cnt - 1;
      }
      ShiftIs(old(State()), ucIndex, buff[..]);
    }

    /** One 100 ms tick: at most one event fires, and the slots behind it wait. */
    method EventGet() returns (eMsg: Event)
      requires Bounded()
      modifies this, buff
      ensures Bounded() && (State(), eMsg) == ArrayTick(old(State()))
      ensures old(Valid()) ==> Valid() && (Contents(), eMsg) == Tick(old(Contents()))
    {
      ghost var a, valid, q := State(), Valid(), buff[..cnt];
      eMsg := TickSlots();
      if valid {
        TickRepresents(a, q);
        Holds(Tick(q).0);
      }
    }

    method TickSlots() returns (eMsg: Event)
      requires Bounded()
      modifies this, buff
      ensures Bounded() && (State(), eMsg) == ArrayTick(old(State()))
    {
      eMsg := NONE;
      if cnt == 0 {
        return;
      }
      ghost var a := State();
      var i := 0;
      while i <= cnt
        invariant 0 <= i <= cnt + 1 && cnt == a.cnt
        invariant forall k :: 0 <= k < i ==> !DueSlot(a.slots[k])
        invariant buff[..] == AgeSlots(a.slots, i)
      {
        AgeNext(a.slots, i);
        assert buff[i] == buff[..][i];
        var due := TimeoutCheck(i);
        if due {
          TickEnds(a, i);
          assert buff[i] == buff[..][i];
          eMsg := buff[i].evt;
          Reschedule(i);
          return;
        }
        i := i + 1;
      }
      TickEnds(a, i);
    }

    /** Looks for an event among slots 0 to cnt, the free slot included. */
    method Look(e: Event) returns (i: nat, found: bool)
      requires Bounded()
      ensures i == Scan(State(), e) && found == (i <= cnt)
      ensures Valid() ==> found == (Armed(Contents(), e) || e == NONE)
      ensures Valid() && found && e != NONE ==> i == Find(Contents(), e) < cnt
    {
      ghost var s := buff[..cnt + 1];
      assert s == State().slots[..cnt + 1];
      if Valid() {
        ScanRepresents(State(), Contents(), e);
      }
      i := 0;
      while i <= cnt
        invariant 0 <= i <= cnt + 1
        invariant forall k :: 0 <= k < i ==> s[k].evt != e
      {
        if buff[i].evt == e {
          FindFirst(s, e, i);
          return i, true;
        }
        i := i + 1;
      }
      FindFirst(s, e, i);
      found := false;
    }

    method EventPush(eEvent: Event, wDelayTime: Delay) returns (ok: bool)
      requires Bounded()
      modifies this, buff
      ensures Bounded() && (State(), ok) == ArrayPush(old(State()), eEvent, wDelayTime)
      ensures old(Valid()) ==> Valid() && (Contents(), ok) == Push(old(Contents()), eEvent, wDelayTime)
    {
      ghost var a, valid, q := State(), Valid(), buff[..cnt];
      ok := PushSlot(eEvent, wDelayTime);
      if valid {
        PushRepresents(a, q, eEvent, wDelayTime);
        Holds(Push(q, eEvent, wDelayTime).0);
      }
    }

    method PushSlot(eEvent: Event, wDelayTime: Delay) returns (ok: bool)
      requires Bounded()
      modifies this, buff
      ensures Bounded() && (State(), ok) == ArrayPush(old(State()), eEvent, wDelayTime)
    {
      if eEvent >= EVT_MAX {
        return false;
      }
      var i, found := Look(eEvent);
      assert found ==> buff[i].evt == State().slots[..cnt + 1][i].evt == eEvent;
      if !found {
        if cnt >= BUFF_MAX - 1 {
          return false;
        }
        i := cnt;
        cnt := cnt + 1;
        buff[i] := buff[i].(evt := eEvent);
      }
      buff[i] := buff[i].(count := ToInt32(wDelayTime));
      buff[i] := buff[i].(time := 0);
      assert buff[..] == ArrayPush(old(State()), eEvent, wDelayTime).0.slots;
      return true;
    }

    method EventPop()
      requires Bounded()
      modifies this, buff
      ensures Bounded() && State() == ArrayPop(old(State()))
      ensures old(Valid()) ==> Valid() && Contents() == Pop(old(Contents()))
    {
      ghost var a, valid, q := State(), Valid(), buff[..cnt];
      Reschedule(0);
      if valid {
        PopRepresents(a, q);
        Holds(Pop(q));
      }
    }

    /** Cancelling NONE matches the free slot at cnt and drops the count below the last
        live slot: the one call that breaks the array, exactly when something is armed. */
    method EventCancel(ucEvent: Event) returns (ok: bool)
      requires Bounded()
      modifies this, buff
      ensures Bounded() && (State(), ok) == ArrayCancel(old(State()), ucEvent)
      ensures old(Valid()) ==> (Valid() <==> ucEvent != NONE || old(cnt) == 0)
      ensures old(Valid()) && ucEvent != NONE ==> Valid() && (Contents(), ok) == Cancel(old(Contents()), ucEvent)
      ensures old(Valid()) && ucEvent == NONE ==> ok && (if old(cnt) == 0 then Valid() && Contents() == []
                                                         else Exposed(State(), old(Contents())))
    {
      ghost var a, valid, q := State(), Valid(), buff[..cnt];
      ok := CancelSlot(ucEvent);
      if valid {
        if ucEvent == NONE {
          CancelNone(a, q);
        } else {
          CancelRepresents(a, q, ucEvent);
          Holds(Cancel(q, ucEvent).0);
        }
      }
    }

    method CancelSlot(ucEvent: Event) returns (ok: bool)
      requires Bounded()
      modifies this, buff
      ensures Bounded() && (State(), ok) == ArrayCancel(old(State()), ucEvent)
    {
      if ucEvent >= EVT_MAX {
        return false;
      }
      if ucEvent == DELETE_ALL {
        Reset();
        return true;
      }
      var i, found := Look(ucEvent);
      if found {
        Reschedule(i);
        return true;
      }
      return false;
    }

    method EventCheck(ucEvent: Event) returns (found: bool)
      requires Bounded()
      ensures found == (ucEvent < EVT_MAX && Scan(State(), ucEvent) <= cnt)
      ensures Valid() ==> found == (ucEvent < EVT_MAX && (Armed(Contents(), ucEvent) || ucEvent == NONE))
    {
      if ucEvent >= EVT_MAX {
        return false;
      }
      var i;
      i, found := Look(ucEvent);
    }

    method DelayTimeGet(ucEvent: Event) returns (ok: bool, ms: int)
      requires Bounded()
      ensures ok == (ucEvent < EVT_MAX && Scan(State(), ucEvent) <= cnt)
      ensures ms == if ok then Millis(buff[Scan(State(), ucEvent)].count) else 0
      ensures Valid() ==> ok == (ucEvent < EVT_MAX && (Armed(Contents(), ucEvent) || ucEvent == NONE))
      ensures Valid() && ok && ucEvent != NONE ==> ms == Millis(SlotOf(Contents(), ucEvent).count)
    {
      if ucEvent >= EVT_MAX {
        return false, 0;
      }
      var i, found := Look(ucEvent);
      if found {
        return true, Millis(buff[i].count);
      }
      return false, 0;
    }

    method TimeGet(ucEvent: Event) returns (ok: bool, ms: int)
      requires Bounded()
      ensures ok == (ucEvent < EVT_MAX && Scan(State(), ucEvent) <= cnt)
      ensures ms == if ok then Millis(buff[Scan(State(), ucEvent)].time) else 0
      ensures Valid() ==> ok == (ucEvent < EVT_MAX && (Armed(Contents(), ucEvent) || ucEvent == NONE))
      ensures Valid() && ok && ucEvent != NONE ==> ms == Millis(SlotOf(Contents(), ucEvent).time)
    {
      if ucEvent >= EVT_MAX {
        return false, 0;
      }
      var i, found := Look(ucEvent);
      if found {
        return true, Millis(buff[i].time);
      }
      return false, 0;
    }
  }
}
