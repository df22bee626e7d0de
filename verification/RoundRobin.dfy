/** The round robin of the dispatcher, on the slots of the poll table. */
module RoundRobin {
  import opened Common

  const MAX_DEVICES := 32

  /** Where a scan starts, given where the last one stopped; the position may be one past the end. */
  function Start(last: nat): nat {
    if last >= MAX_DEVICES then 0 else last
  }

  /** The slot `n` places on from `start`, going round. */
  function Slot(start: nat, n: nat): (slot: int)
    requires start < MAX_DEVICES && n <= MAX_DEVICES
  {
    if start + n >= MAX_DEVICES then start + n - MAX_DEVICES else start + n
  }

  /** How many slots from `start` on are passed before an active one; `MAX_DEVICES` when there is none. */
  function Passed(active: seq<bool>, start: nat, n: nat): (m: nat)
    requires |active| == MAX_DEVICES && start < MAX_DEVICES && n <= MAX_DEVICES
    ensures n <= m <= MAX_DEVICES
    ensures m < MAX_DEVICES ==> active[Slot(start, m)]
    ensures forall i :: n <= i < m ==> !active[Slot(start, i)]
    decreases MAX_DEVICES - n
  {
    if n == MAX_DEVICES || active[Slot(start, n)] then n else Passed(active, start, n + 1)
  }

  /** The slot that a scan serves, and where it stops. */
  function Scan(active: seq<bool>, last: nat): (Option<nat>, nat)
    requires |active| == MAX_DEVICES && last <= MAX_DEVICES
  {
    var m := Passed(active, Start(last), 0);
    if m < MAX_DEVICES then (Some(Slot(Start(last), m)), Slot(Start(last), m) + 1)
    else (None, if Start(last) == 0 then MAX_DEVICES else Start(last))
  }

  /** A scan stops behind the slot it serves, or after a whole round. */
  lemma ScanStops(active: seq<bool>, last: nat, n: nat)
    requires |active| == MAX_DEVICES && last <= MAX_DEVICES && 0 < n <= MAX_DEVICES
    requires Passed(active, Start(last), 0) == n - 1 || (n == Passed(active, Start(last), 0) == MAX_DEVICES)
    ensures Scan(active, last).1 == Slot(Start(last), n - 1) + 1
    ensures Scan(active, last).0 ==
            if Passed(active, Start(last), 0) == n then None else Some(Slot(Start(last), n - 1))
  {
  }

  /** The scan finds nothing only if nothing is active, and what it finds is active. */
  lemma ScanFindsActive(active: seq<bool>, last: nat)
    requires |active| == MAX_DEVICES && last <= MAX_DEVICES
    ensures Scan(active, last).1 <= MAX_DEVICES
    ensures Scan(active, last).0 == None <==> forall p :: 0 <= p < MAX_DEVICES ==> !active[p]
    ensures Scan(active, last).0.Some? ==>
      Scan(active, last).0.value < MAX_DEVICES && active[Scan(active, last).0.value]
  {
    var start, m := Start(last), Passed(active, Start(last), 0);
    forall p | 0 <= p < MAX_DEVICES && active[p] ensures m <= Distance(last, p) {
      assert Slot(start, Distance(last, p)) == p;
    }
  }

  /** Slots from where the next scan starts to slot `p`. */
  function Distance(last: nat, p: nat): nat
    requires last <= MAX_DEVICES && p < MAX_DEVICES
  {
    if p >= Start(last) then p - Start(last) else p + MAX_DEVICES - Start(last)
  }

  /** A slot that is active is either served or comes nearer. */
  lemma ScanComesNearer(active: seq<bool>, last: nat, p: nat)
    requires |active| == MAX_DEVICES && last <= MAX_DEVICES && p < MAX_DEVICES && active[p]
    ensures var (slot, last') := Scan(active, last);
            slot.Some? && last' <= MAX_DEVICES && (slot.value == p || Distance(last', p) < Distance(last, p))
  {
    var start, d := Start(last), Distance(last, p);
    assert Slot(start, d) == p;
    assert Passed(active, start, 0) <= d;
  }

  predicate AllActive(actives: seq<seq<bool>>, p: nat)
    requires p < MAX_DEVICES
  {
    forall i :: 0 <= i < |actives| ==> |actives[i]| == MAX_DEVICES && actives[i][p]
  }

  /** The slots served by consecutive scans. */
  function Served(actives: seq<seq<bool>>, last: nat): seq<Option<nat>>
    requires last <= MAX_DEVICES && forall i :: 0 <= i < |actives| ==> |actives[i]| == MAX_DEVICES
  {
    if actives == [] then []
    else
      ScanFindsActive(actives[0], last);
      [Scan(actives[0], last).0] + Served(actives[1..], Scan(actives[0], last).1)
  }

  /**
   Bounded waiting: a slot that is active at every call is served within `Distance + 1` calls, so within
   `MAX_DEVICES`, whatever else becomes active or stops being so.
   */
  lemma {:induction false} BoundedWaiting(actives: seq<seq<bool>>, last: nat, p: nat)
    requires last <= MAX_DEVICES && p < MAX_DEVICES && AllActive(actives, p)
    requires |actives| > Distance(last, p)
    ensures |Served(actives, last)| == |actives|
    ensures exists i :: 0 <= i <= Distance(last, p) && Served(actives, last)[i] == Some(p)
    decreases |actives|
  {
    ServedLength(actives, last);
    ScanComesNearer(actives[0], last, p);
    var (slot, last') := Scan(actives[0], last);
    if slot == Some(p) {
      assert Served(actives, last)[0] == Some(p);
    } else {
      BoundedWaiting(actives[1..], last', p);
      var i :| 0 <= i <= Distance(last', p) && Served(actives[1..], last')[i] == Some(p);
      assert Served(actives, last)[i + 1] == Some(p);
    }
  }

  lemma {:induction false} ServedLength(actives: seq<seq<bool>>, last: nat)
    requires last <= MAX_DEVICES && forall i :: 0 <= i < |actives| ==> |actives[i]| == MAX_DEVICES
    ensures |Served(actives, last)| == |actives|
    decreases |actives|
  {
    if actives != [] {
      ScanFindsActive(actives[0], last);
      ServedLength(actives[1..], Scan(actives[0], last).1);
    }
  }

  /** Each scan starts where the one before it stopped. */
  predicate Consecutive(actives: seq<seq<bool>>, lasts: seq<nat>) {
    && |lasts| == |actives| + 1
    && (forall i :: 0 <= i < |lasts| ==> lasts[i] <= MAX_DEVICES)
    && (forall i :: 0 <= i < |actives| ==> |actives[i]| == MAX_DEVICES)
    && (forall i :: 0 <= i < |actives| ==> lasts[i + 1] == Scan(actives[i], lasts[i]).1)
  }

  lemma {:induction false} ServedAt(actives: seq<seq<bool>>, lasts: seq<nat>, i: nat)
    requires Consecutive(actives, lasts) && i < |actives|
    ensures |Served(actives, lasts[0])| == |actives|
    ensures Served(actives, lasts[0])[i] == Scan(actives[i], lasts[i]).0
    decreases |actives|
  {
    ServedLength(actives, lasts[0]);
    if i > 0 {
      ServedAt(actives[1..], lasts[1..], i - 1);
    }
  }

  /** The bound is reached: when everything is active, slot `p` is not served before call number `Distance + 1`. */
  lemma {:induction false} BoundIsTight(actives: seq<seq<bool>>, last: nat, p: nat)
    requires last <= MAX_DEVICES && p < MAX_DEVICES && |actives| == Distance(last, p)
    requires forall q :: 0 <= q < MAX_DEVICES ==> AllActive(actives, q)
    requires forall i :: 0 <= i < |actives| ==> |actives[i]| == MAX_DEVICES
    ensures Some(p) !in Served(actives, last)
    decreases |actives|
  {
    if actives != [] {
      var start := Start(last);
      assert AllActive(actives, start) && actives[0][start];
      assert Slot(start, 0) == start && Passed(actives[0], start, 0) == 0;
      forall q | 0 <= q < MAX_DEVICES ensures AllActive(actives[1..], q) {
        assert AllActive(actives, q);
      }
      BoundIsTight(actives[1..], start + 1, p);
    }
  }
}
