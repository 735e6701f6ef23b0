/** The scheduler's slots and counter as a value, operation by operation as the code has
    them (pega_schedule.c), and when they represent a queue.

    Every operation is defined on every array in bounds, also on those no queue
    represents; cancelling the free-slot code NONE leads to such arrays. */
module ScheduleArray {
  import opened ScheduleSpec

  datatype Array = Array(slots: seq<Slot>, cnt: nat)

  predicate InBounds(a: Array) {
    |a.slots| == BUFF_MAX && a.cnt < BUFF_MAX
  }

  /** The first of the slots 0 to cnt that holds e, cnt + 1 for none.  The free slot at
      cnt is among those searched. */
  function Scan(a: Array, e: Event): (i: nat)
    requires InBounds(a)
    ensures i <= a.cnt + 1
  {
    Find(a.slots[..a.cnt + 1], e)
  }

  /** Slot i goes, the later ones move down; the last slot stays as it was. */
  function Shift(a: Array, i: nat): (r: Array)
    requires InBounds(a) && i < BUFF_MAX
    ensures InBounds(r)
  {
    Array(a.slots[..i] + a.slots[i + 1..] + [a.slots[BUFF_MAX - 1]], if a.cnt > 0 then a.cnt - 1 else 0)
  }

  lemma ShiftIs(a: Array, i: nat, slots: seq<Slot>)
    requires InBounds(a) && i < BUFF_MAX && |slots| == BUFF_MAX
    requires forall k :: 0 <= k < i ==> slots[k] == a.slots[k]
    requires forall k :: i < k < BUFF_MAX ==> slots[k - 1] == a.slots[k]
    requires slots[BUFF_MAX - 1] == a.slots[BUFF_MAX - 1]
    ensures Shift(a, i).slots == slots
  {
    assert slots[..i] == a.slots[..i] && slots[i..BUFF_MAX - 1] == a.slots[i + 1..];
    assert slots == slots[..i] + slots[i..BUFF_MAX - 1] + [slots[BUFF_MAX - 1]];
  }

  function ArrayPush(a: Array, e: Event, d: Delay): (r: (Array, bool))
    requires InBounds(a)
    ensures InBounds(r.0)
  {
    var i := Scan(a, e);
    if e >= EVT_MAX then
      (a, false)
    else if i <= a.cnt then
      (a.(slots := a.slots[i := Slot(e, ToInt32(d), 0)]), true)
    else if a.cnt >= BUFF_MAX - 1 then
      (a, false)
    else
      (Array(a.slots[a.cnt := Slot(e, ToInt32(d), 0)], a.cnt + 1), true)
  }

  function ArrayPop(a: Array): (r: Array)
    requires InBounds(a)
    ensures InBounds(r)
  {
    Shift(a, 0)
  }

  /** All slots cleared; elapsed times stay behind in them. */
  function ArrayReset(a: Array): (r: Array)
    requires InBounds(a)
    ensures InBounds(r)
  {
    Array(seq(BUFF_MAX, k requires 0 <= k < BUFF_MAX => a.slots[k].(evt := NONE, count := 0)), 0)
  }

  function ArrayCancel(a: Array, e: Event): (r: (Array, bool))
    requires InBounds(a)
    ensures InBounds(r.0)
  {
    var i := Scan(a, e);
    if e >= EVT_MAX then
      (a, false)
    else if e == DELETE_ALL then
      (ArrayReset(a), true)
    else if i <= a.cnt then
      (Shift(a, i), true)
    else
      (a, false)
  }

  predicate DueSlot(s: Slot) {
    s.evt != NONE && s.count == 1
  }

  /** The first slot due, |s| for none. */
  function FirstDue(s: seq<Slot>): (i: nat)
    ensures i <= |s|
    ensures i < |s| ==> DueSlot(s[i])
    ensures forall k :: 0 <= k < i ==> !DueSlot(s[k])
  {
    if s == [] || DueSlot(s[0]) then 0 else 1 + FirstDue(s[1..])
  }

  lemma FirstDueIs(s: seq<Slot>, i: nat)
    requires i <= |s| && (i < |s| ==> DueSlot(s[i]))
    requires forall k :: 0 <= k < i ==> !DueSlot(s[k])
    ensures FirstDue(s) == i
  {
  }

  /** The first n slots aged; free ones are passed over. */
  function AgeSlots(s: seq<Slot>, n: nat): (r: seq<Slot>)
    ensures |r| == |s|
    ensures forall k :: 0 <= k < |s| ==> r[k] == if k < n && s[k].evt != NONE then Aged(s[k]) else s[k]
  {
    seq(|s|, k requires 0 <= k < |s| => if k < n && s[k].evt != NONE then Aged(s[k]) else s[k])
  }

  function ArrayTick(a: Array): (r: (Array, Event))
    requires InBounds(a)
    ensures InBounds(r.0)
  {
    var i := FirstDue(a.slots[..a.cnt + 1]);
    if a.cnt == 0 then
      (a, NONE)
    else if i <= a.cnt then
      (Shift(a.(slots := AgeSlots(a.slots, i + 1)), i), a.slots[i].evt)
    else
      (a.(slots := AgeSlots(a.slots, a.cnt + 1)), NONE)
  }

  lemma AgeNext(s: seq<Slot>, i: nat)
    requires i < |s|
    ensures AgeSlots(s, i)[i] == s[i]
    ensures AgeSlots(s, i)[i := if s[i].evt == NONE then s[i] else Aged(s[i])] == AgeSlots(s, i + 1)
  {
  }

  /** A tick in terms of its scan: it ends at the first slot due, or after slot cnt. */
  lemma TickEnds(a: Array, i: nat)
    requires InBounds(a) && a.cnt > 0 && i <= a.cnt + 1
    requires forall k :: 0 <= k < i ==> !DueSlot(a.slots[k])
    requires i <= a.cnt ==> DueSlot(a.slots[i])
    ensures ArrayTick(a) == if i <= a.cnt then (Shift(a.(slots := AgeSlots(a.slots, i + 1)), i), a.slots[i].evt)
                            else (a.(slots := AgeSlots(a.slots, a.cnt + 1)), NONE)
  {
    FirstDueIs(a.slots[..a.cnt + 1], i);
  }

  /** The slots below cnt are the queue, those from cnt on are free.  Slot 11 is
      therefore always free, which the scans up to and including cnt need. */
  predicate Represents(a: Array, q: Queue) {
    && InBounds(a) && WellFormed(q)
    && a.cnt == |q| && a.slots[..a.cnt] == q
    && forall k :: a.cnt <= k < BUFF_MAX ==> a.slots[k].evt == NONE
  }

  lemma ScanRepresents(a: Array, q: Queue, e: Event)
    requires Represents(a, q)
    ensures Scan(a, e) == if Armed(q, e) || e == NONE then Find(q, e) else |q| + 1
  {
    var s := a.slots[..a.cnt + 1];
    assert forall k :: 0 <= k < |q| ==> s[k] == q[k];
    assert s[|q|].evt == NONE;
    FindFirst(s, e, if Armed(q, e) || e == NONE then Find(q, e) else |q| + 1);
  }

  lemma FindFirst(q: Queue, e: Event, i: nat)
    requires i <= |q| && (i < |q| ==> q[i].evt == e)
    requires forall k :: 0 <= k < i ==> q[k].evt != e
    ensures Find(q, e) == i
  {
  }

  /** Taking a live slot out of the array takes it out of the queue. */
  lemma ShiftRepresents(a: Array, q: Queue, i: nat)
    requires Represents(a, q) && i < |q|
    ensures Represents(Shift(a, i), RemoveAt(q, i))
  {
    var b := Shift(a, i);
    RemoveWellFormed(q, i);
    assert forall k :: 0 <= k < BUFF_MAX ==>
             b.slots[k] == if k < i then a.slots[k] else if k < BUFF_MAX - 1 then a.slots[k + 1] else a.slots[k];
    assert b.slots[..b.cnt] == RemoveAt(q, i);
  }

  lemma PushRepresents(a: Array, q: Queue, e: Event, d: Delay)
    requires Represents(a, q)
    ensures Represents(ArrayPush(a, e, d).0, Push(q, e, d).0)
    ensures ArrayPush(a, e, d).1 == Push(q, e, d).1
  {
    ScanRepresents(a, q, e);
    PushWellFormed(q, e, d);
    var b := ArrayPush(a, e, d).0;
    assert b.slots[..b.cnt] == Push(q, e, d).0;
  }

  lemma PopRepresents(a: Array, q: Queue)
    requires Represents(a, q)
    ensures Represents(ArrayPop(a), Pop(q))
  {
    if q != [] {
      ShiftRepresents(a, q, 0);
      assert Pop(q) == RemoveAt(q, 0);
    }
  }

  /** Cancelling any code but NONE is the queue operation. */
  lemma CancelRepresents(a: Array, q: Queue, e: Event)
    requires Represents(a, q) && e != NONE
    ensures Represents(ArrayCancel(a, e).0, Cancel(q, e).0)
    ensures ArrayCancel(a, e).1 == Cancel(q, e).1
  {
    ScanRepresents(a, q, e);
    if e < EVT_MAX && e != DELETE_ALL && Armed(q, e) {
      ShiftRepresents(a, q, Find(q, e));
    }
  }

  lemma AgeRepresents(a: Array, q: Queue, n: nat)
    requires Represents(a, q) && n <= |q|
    ensures Represents(a.(slots := AgeSlots(a.slots, n)), AgeFirst(q, n))
  {
    AgedWellFormed(q, AgeFirst(q, n));
    assert AgeSlots(a.slots, n)[..a.cnt] == AgeFirst(q, n);
  }

  lemma DueInArray(a: Array, q: Queue)
    requires Represents(a, q)
    ensures FirstDue(a.slots[..a.cnt + 1]) == if Due(q) < |q| then Due(q) else |q| + 1
  {
    var s := a.slots[..a.cnt + 1];
    assert forall k :: 0 <= k < |q| ==> s[k] == q[k];
    assert s[|q|].evt == NONE;
    FirstDueIs(s, if Due(q) < |q| then Due(q) else |q| + 1);
  }

  lemma TickRepresents(a: Array, q: Queue)
    requires Represents(a, q)
    ensures Represents(ArrayTick(a).0, Tick(q).0)
    ensures ArrayTick(a).1 == Tick(q).1
  {
    DueInArray(a, q);
    if Due(q) < |q| {
      FireRepresents(a, q, Due(q));
    } else {
      WaitRepresents(a, q);
      assert q == [] ==> AgeSlots(a.slots, 1) == a.slots;
    }
  }

  lemma WaitRepresents(a: Array, q: Queue)
    requires Represents(a, q)
    ensures Represents(a.(slots := AgeSlots(a.slots, |q| + 1)), AgeFirst(q, |q|))
  {
    AgeRepresents(a, q, |q|);
    assert AgeSlots(a.slots, |q|) == AgeSlots(a.slots, |q| + 1);
  }

  lemma FireRepresents(a: Array, q: Queue, i: nat)
    requires Represents(a, q) && i < |q|
    ensures Represents(Shift(a.(slots := AgeSlots(a.slots, i + 1)), i), RemoveAt(AgeFirst(q, i), i))
  {
    AgeRepresents(a, q, i + 1);
    ShiftRepresents(a.(slots := AgeSlots(a.slots, i + 1)), AgeFirst(q, i + 1), i);
    assert RemoveAt(AgeFirst(q, i + 1), i) == RemoveAt(AgeFirst(q, i), i);
  }

  /** The array after a cancel of NONE with events armed: the count is one too low, and
      the last event sits in what counts as the free slot. */
  predicate Exposed(a: Array, q: Queue) {
    && InBounds(a) && WellFormed(q) && q != []
    && a.cnt == |q| - 1 && a.slots[..|q|] == q
    && forall k :: |q| <= k < BUFF_MAX ==> a.slots[k].evt == NONE
  }

  /** Cancelling NONE matches the free slot.  On an empty array nothing comes of it; with
      anything armed it leaves an array that represents no queue at all. */
  lemma CancelNone(a: Array, q: Queue)
    requires Represents(a, q)
    ensures ArrayCancel(a, NONE).1
    ensures q == [] ==> Represents(ArrayCancel(a, NONE).0, [])
    ensures q != [] ==> Exposed(ArrayCancel(a, NONE).0, q)
    ensures q != [] ==> forall r :: !Represents(ArrayCancel(a, NONE).0, r)
  {
    ScanRepresents(a, q, NONE);
    assert Find(q, NONE) == |q| by {
      FindFirst(q, NONE, |q|);
    }
    var b := ArrayCancel(a, NONE).0;
    assert b == Shift(a, |q|);
    assert forall k :: 0 <= k < |q| ==> b.slots[k] == a.slots[k];
    assert forall k :: |q| < k < BUFF_MAX ==> b.slots[k - 1] == a.slots[k];
    assert b.slots[..|q|] == a.slots[..|q|] == q;
    if q != [] {
      ExposedIsNoQueue(b, q);
    }
  }

  lemma ExposedIsNoQueue(b: Array, q: Queue)
    requires Exposed(b, q)
    ensures forall r :: !Represents(b, r)
  {
    assert b.slots[b.cnt] == b.slots[..|q|][|q| - 1] == q[|q| - 1];
  }

  /** What an exposed array loses: the next push of a new event overwrites the last event
      armed, and only that one. */
  lemma PushLosesLast(a: Array, q: Queue, e: Event, d: Delay)
    requires Exposed(a, q) && NONE < e < EVT_MAX && !Armed(q, e)
    ensures Represents(ArrayPush(a, e, d).0, q[..|q| - 1] + [Slot(e, ToInt32(d), 0)])
  {
    var s := a.slots[..a.cnt + 1];
    assert s == q;
    var r := q[..|q| - 1] + [Slot(e, ToInt32(d), 0)];
    assert WellFormed(r) by {
      assert forall k :: 0 <= k < |q| ==> q[k].evt != e;
    }
    var b := ArrayPush(a, e, d).0;
    assert b.slots[..b.cnt] == r;
  }

  /** A single event left in an exposed array is never ticked again. */
  lemma LastIsStranded(a: Array, q: Queue)
    requires Exposed(a, q) && |q| == 1
    ensures ArrayTick(a) == (a, NONE)
  {
  }

  lemma ShiftExposed(a: Array, q: Queue, i: nat)
    requires Exposed(a, q) && |q| >= 2 && i < |q|
    ensures Exposed(Shift(a, i), RemoveAt(q, i))
  {
    var b, r := Shift(a, i), RemoveAt(q, i);
    RemoveWellFormed(q, i);
    assert forall k :: 0 <= k < BUFF_MAX ==>
             b.slots[k] == if k < i then a.slots[k] else if k < BUFF_MAX - 1 then a.slots[k + 1] else a.slots[k];
    assert b.slots[..|r|] == r;
  }

  lemma AgeExposed(a: Array, q: Queue, n: nat)
    requires Exposed(a, q) && n <= |q|
    ensures Exposed(a.(slots := AgeSlots(a.slots, n)), AgeFirst(q, n))
  {
    AgedWellFormed(q, AgeFirst(q, n));
    assert AgeSlots(a.slots, n)[..|q|] == AgeFirst(q, n);
  }

  /** While two events or more are left in an exposed array, a tick is the queue tick, and
      the array stays exposed. */
  lemma TickOnExposed(a: Array, q: Queue)
    requires Exposed(a, q) && |q| >= 2
    ensures ArrayTick(a).1 == Tick(q).1
    ensures Exposed(ArrayTick(a).0, Tick(q).0)
  {
    var i := Due(q);
    if i < |q| {
      TickExposed(a, q, i);
      FiredExposed(a, q, i);
    } else {
      WaitExposed(a, q);
      AgeExposed(a, q, |q|);
    }
  }

  lemma WaitExposed(a: Array, q: Queue)
    requires Exposed(a, q) && |q| >= 2 && Due(q) == |q|
    ensures ArrayTick(a) == (a.(slots := AgeSlots(a.slots, |q|)), NONE)
  {
    assert a.slots[..a.cnt + 1] == q;
    FirstDueIs(q, |q|);
  }

  lemma TickExposed(a: Array, q: Queue, i: nat)
    requires Exposed(a, q) && |q| >= 2 && i < |q| && Due(q) == i
    ensures ArrayTick(a) == (Shift(a.(slots := AgeSlots(a.slots, i + 1)), i), q[i].evt)
  {
    assert a.slots[..a.cnt + 1] == q;
    FirstDueIs(q, i);
  }

  lemma FiredExposed(a: Array, q: Queue, i: nat)
    requires Exposed(a, q) && |q| >= 2 && i < |q|
    ensures Exposed(Shift(a.(slots := AgeSlots(a.slots, i + 1)), i), RemoveAt(AgeFirst(q, i), i))
  {
    AgeExposed(a, q, i + 1);
    ShiftExposed(a.(slots := AgeSlots(a.slots, i + 1)), AgeFirst(q, i + 1), i);
    assert RemoveAt(AgeFirst(q, i + 1), i) == RemoveAt(AgeFirst(q, i), i);
  }
}
