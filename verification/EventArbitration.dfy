/** The rate the enabled accelerometer events require (st_lis2dw12_events.c): a loop
    that overwrites its accumulator, and when that still gives the maximum. */
module EventArbitration {
  import opened Basics

  /** The largest rate required by the events of a set, among the first n; 0 for none. */
  function Required(rates: seq<nat>, events: set<nat>, n: nat): nat
    requires n <= |rates|
  {
    if n == 0 then
      0
    else if n - 1 in events then
      Max(rates[n - 1], Required(rates, events, n - 1))
    else
      Required(rates, events, n - 1)
  }

  /** Required is what its name says. */
  lemma {:induction false} RequiredIsMaximum(rates: seq<nat>, events: set<nat>, n: nat)
    requires n <= |rates|
    ensures forall i :: 0 <= i < n && i in events ==> rates[i] <= Required(rates, events, n)
    ensures var r := Required(rates, events, n);
            r == 0 || exists i :: 0 <= i < n && i in events && rates[i] == r
  {
    if n > 0 {
      RequiredIsMaximum(rates, events, n - 1);
    }
  }

  function Toggle(events: set<nat>, id: nat, enable: bool): set<nat> {
    if enable then events + {id} else events - {id}
  }

  /** The loop after its first n rounds.  Enabling compares each event with the rate odr
      of the new one and forgets what the rounds before it found. */
  function Scan(rates: seq<nat>, events: set<nat>, odr: nat, id: nat, enable: bool, n: nat): nat
    requires n <= |rates|
  {
    if n == 0 then
      0
    else
      var ret := Scan(rates, events, odr, id, enable, n - 1);
      var i := n - 1;
      if rates[i] == 0 then
        ret
      else if i in events then
        if i == id && !enable then ret else Max(rates[i], if enable then odr else ret)
      else if i == id then
        if enable then Max(rates[i], odr) else ret
      else
        ret
  }

  /** Rates of unsupported events are 0 and the loop skips them. */
  predicate Sorted(rates: seq<nat>) {
    forall i, j :: 0 <= i < j < |rates| && rates[i] != 0 && rates[j] != 0 ==> rates[i] <= rates[j]
  }

  lemma {:induction false} ScanDisables(rates: seq<nat>, events: set<nat>, odr: nat, id: nat, n: nat)
    requires n <= |rates|
    ensures Scan(rates, events, odr, id, false, n) == Required(rates, Toggle(events, id, false), n)
  {
    if n > 0 {
      ScanDisables(rates, events, odr, id, n - 1);
    }
  }

  /** Below the enabled event the maximum is at least what the sorted table shows. */
  lemma {:induction false} ScanEnables(rates: seq<nat>, events: set<nat>, id: nat, n: nat)
    requires n <= |rates| && id < |rates| && Sorted(rates)
    ensures var r := Required(rates, Toggle(events, id, true), n);
            var s := Scan(rates, events, rates[id], id, true, n);
            && (r == 0 ==> s == 0)
            && (r != 0 ==> s == Max(r, rates[id]))
            && (id < n ==> s == r)
            && (forall j :: n <= j < |rates| && rates[j] != 0 ==> r <= rates[j])
  {
    if n > 0 {
      ScanEnables(rates, events, id, n - 1);
    }
  }

  predicate ExactFor(rates: seq<nat>, events: set<nat>, id: nat, enable: bool) {
    id < |rates| ==>
      Scan(rates, events, rates[id], id, enable, |rates|) == Required(rates, Toggle(events, id, enable), |rates|)
  }

  /** The overwriting loop is right for every set of events, every event and both
      directions exactly when the table is sorted. */
  lemma ArbitrationExact(rates: seq<nat>)
    ensures (forall events: set<nat>, id: nat, enable: bool :: ExactFor(rates, events, id, enable)) <==> Sorted(rates)
  {
    if Sorted(rates) {
      forall events: set<nat>, id: nat, enable: bool ensures ExactFor(rates, events, id, enable) {
        if id < |rates| {
          if enable {
            ScanEnables(rates, events, id, |rates|);
          } else {
            ScanDisables(rates, events, rates[id], id, |rates|);
          }
        }
      }
    } else {
      var i: nat, j: nat :| i < j < |rates| && rates[i] != 0 && rates[j] != 0 && rates[i] > rates[j];
      ScanOfPair(rates, i, j, |rates|);
      RequiredIsMaximum(rates, {i, j}, |rates|);
      assert Toggle({i, j}, j, true) == {i, j};
      assert !ExactFor(rates, {i, j}, j, true);
    }
  }

  /** Re-enabling the later of two events forgets the higher rate of the earlier one. */
  lemma {:induction false} ScanOfPair(rates: seq<nat>, i: nat, j: nat, n: nat)
    requires i < j < n <= |rates| && rates[i] != 0 && rates[j] != 0
    ensures Scan(rates, {i, j}, rates[j], j, true, n) == rates[j]
  {
    if n > j + 1 {
      ScanOfPair(rates, i, j, n - 1);
    }
  }
}
