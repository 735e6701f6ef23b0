/** The event scheduler as a queue of armed events (pega_schedule.c).

    A slot holds an event code, the ticks left before it fires and the ticks it has
    been counted for.  The functions below say what each operation does to the queue
    of live slots; class Scheduler (Schedule.dfy) does the same in place on its
    twelve-slot array, and ScheduleRuns.dfy proves what every run of them keeps. */
module ScheduleSpec {

  type Event = e: int | 0 <= e < 256
  type Delay = d: int | 0 <= d < 0x1_0000_0000

  const NONE: Event := 0
  const DELETE_ALL: Event := 1
  const EVT_MAX: Event := 203
  const BUFF_MAX := 12

  datatype Slot = Slot(evt: Event, count: int, time: int)

  type Queue = seq<Slot>

  predicate Distinct(q: Queue) {
    forall i, j :: 0 <= i < j < |q| ==> q[i].evt != q[j].evt
  }

  /** What the array holds at all times: at most eleven slots, each with an event of
      its own, none of them NONE. */
  predicate WellFormed(q: Queue) {
    && |q| < BUFF_MAX
    && Distinct(q)
    && forall i :: 0 <= i < |q| ==> NONE < q[i].evt < EVT_MAX
  }

  /** The position of event e, or |q| when it is not armed. */
  function Find(q: Queue, e: Event): (i: nat)
    ensures i <= |q|
    ensures i < |q| ==> q[i].evt == e
    ensures forall k :: 0 <= k < i ==> q[k].evt != e
  {
    if q == [] || q[0].evt == e then 0 else 1 + Find(q[1..], e)
  }

  lemma FindIs(q: Queue, e: Event, k: nat)
    requires Distinct(q)
    requires k < |q| && q[k].evt == e
    ensures Find(q, e) == k
  {
  }

  predicate Armed(q: Queue, e: Event) {
    Find(q, e) < |q|
  }

  function SlotOf(q: Queue, e: Event): Slot
    requires Armed(q, e)
  {
    q[Find(q, e)]
  }

  /** An unsigned delay stored into the signed 32-bit counter of a slot. */
  function ToInt32(d: Delay): int {
    if d < 0x8000_0000 then d else d - 0x1_0000_0000
  }

  function RemoveAt(q: Queue, i: nat): Queue
    requires i < |q|
  {
    q[..i] + q[i + 1..]
  }

  /** Arming an armed event restarts it in its place; a new one goes to the back. */
  function Push(q: Queue, e: Event, d: Delay): (Queue, bool) {
    if e >= EVT_MAX then
      (q, false)
    else if e == NONE then
      (q, true)
    else if Armed(q, e) then
      (q[Find(q, e) := Slot(e, ToInt32(d), 0)], true)
    else if |q| >= BUFF_MAX - 1 then
      (q, false)
    else
      (q + [Slot(e, ToInt32(d), 0)], true)
  }

  function Cancel(q: Queue, e: Event): (Queue, bool) {
    if e >= EVT_MAX then
      (q, false)
    else if e == DELETE_ALL then
      ([], true)
    else if Armed(q, e) then
      (RemoveAt(q, Find(q, e)), true)
    else
      (q, false)
  }

  function Pop(q: Queue): Queue {
    if q == [] then q else q[1..]
  }

  /** One 100 ms tick of a slot that is not due. */
  function Aged(s: Slot): Slot {
    s.(count := if s.count > 0 then s.count - 1 else s.count, time := s.time + 1)
  }

  /** The queue with its first n slots aged. */
  function AgeFirst(q: Queue, n: nat): (r: Queue)
    requires n <= |q|
    ensures |r| == |q|
    ensures forall k :: 0 <= k < |q| ==> r[k] == if k < n then Aged(q[k]) else q[k]
  {
    seq(|q|, k requires 0 <= k < |q| => if k < n then Aged(q[k]) else q[k])
  }

  /** The first slot whose counter reaches zero on the next tick. */
  function Due(q: Queue): (i: nat)
    ensures i <= |q|
    ensures i < |q| ==> q[i].count == 1
    ensures forall k :: 0 <= k < i ==> q[k].count != 1
  {
    if q == [] || q[0].count == 1 then 0 else 1 + Due(q[1..])
  }

  /** Ageing a slot keeps its event, so ageing any slots keeps the queue well formed. */
  lemma AgedWellFormed(q: Queue, r: Queue)
    requires WellFormed(q) && |r| == |q|
    requires forall k :: 0 <= k < |q| ==> r[k].evt == q[k].evt
    ensures WellFormed(r)
  {
  }

  lemma RemoveWellFormed(q: Queue, i: nat)
    requires WellFormed(q) && i < |q|
    ensures WellFormed(RemoveAt(q, i))
  {
    var r := RemoveAt(q, i);
    assert forall k :: 0 <= k < |r| ==> r[k] == q[if k < i then k else k + 1];
  }

  lemma TickWellFormed(q: Queue)
    requires WellFormed(q)
    ensures WellFormed(Tick(q).0)
  {
    var i := Due(q);
    AgedWellFormed(q, AgeFirst(q, i));
    if i < |q| {
      RemoveWellFormed(AgeFirst(q, i), i);
    }
  }

  lemma PushWellFormed(q: Queue, e: Event, d: Delay)
    requires WellFormed(q)
    ensures WellFormed(Push(q, e, d).0)
  {
    if NONE < e < EVT_MAX && Armed(q, e) {
      AgedWellFormed(q, Push(q, e, d).0);
    }
  }

  /** A tick ages the slots in front of the first due one, takes that one out and
      leaves every slot behind it as it was. */
  function Tick(q: Queue): (Queue, Event) {
    var i := Due(q);
    if i < |q| then (RemoveAt(AgeFirst(q, i), i), q[i].evt) else (AgeFirst(q, |q|), NONE)
  }

  /** Ticks as the 32-bit millisecond count the readers report. */
  function Millis(ticks: int): int {
    ticks * 100 % 0x1_0000_0000
  }
}
