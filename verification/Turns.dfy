/** One device among others: how many waits of the main loop it takes until it has had a number of turns. */
module Turns {
  import opened Common
  import opened RoundRobin

  /** One wait: which slots belong to active devices, and what `poll` says of this device. */
  datatype Wait<P> = Wait(active: seq<bool>, poll: P)

  predicate Whole<P>(waits: seq<Wait<P>>) {
    forall i :: 0 <= i < |waits| ==> |waits[i].active| == MAX_DEVICES
  }

  /** The device gets its turn when the scan serves one of its slots. */
  function Turn<T, P>(step: (T, P) -> T, c: T, last: nat, mine: set<nat>, w: Wait<P>): T
    requires last <= MAX_DEVICES && |w.active| == MAX_DEVICES
  {
    var slot := Scan(w.active, last).0;
    if slot.Some? && slot.value in mine then step(c, w.poll) else c
  }

  /** The device after the waits from number `i` up to, not including, `n`, the first scan going on from `last`. */
  function After<T, P>(step: (T, P) -> T, c: T, last: nat, mine: set<nat>, waits: seq<Wait<P>>, i: nat, n: nat): T
    requires last <= MAX_DEVICES && Whole(waits) && i <= n <= |waits|
    decreases n - i
  {
    if i == n then c
    else
      ScanFindsActive(waits[i].active, last);
      After(step, Turn(step, c, last, mine, waits[i]), Scan(waits[i].active, last).1, mine, waits, i + 1, n)
  }

  /** From wait `i` on slot `p` is active whenever the device is busy. */
  predicate Signalled<T, P>(step: (T, P) -> T, busy: T -> bool, c: T, last: nat, mine: set<nat>, p: nat,
                            waits: seq<Wait<P>>, i: nat)
    requires last <= MAX_DEVICES && Whole(waits) && p < MAX_DEVICES && i <= |waits|
    decreases |waits| - i
  {
    if i == |waits| then true
    else
      ScanFindsActive(waits[i].active, last);
      var c' := Turn(step, c, last, mine, waits[i]);
      && (busy(c) ==> waits[i].active[p])
      && Signalled(step, busy, c', Scan(waits[i].active, last).1, mine, p, waits, i + 1)
  }

  /** A busy device does the same whatever `poll` says of it. */
  ghost predicate Settled<T(!new), P(!new)>(step: (T, P) -> T, busy: T -> bool, quiet: P) {
    forall c, p :: busy(c) ==> step(c, p) == step(c, quiet)
  }

  /** `k` turns of a busy device. */
  function Iterate<T, P>(step: (T, P) -> T, quiet: P, c: T, k: nat): T {
    if k == 0 then c else Iterate(step, quiet, step(c, quiet), k - 1)
  }

  /** The device is busy for its next `k` turns. */
  predicate Busy<T, P>(step: (T, P) -> T, busy: T -> bool, quiet: P, c: T, k: nat)
    decreases k
  {
    k > 0 ==> busy(c) && Busy(step, busy, quiet, step(c, quiet), k - 1)
  }

  /** The waits from `i` up to `m`, which leave the scan at `l`, give the device one turn, which makes it `d`. */
  ghost predicate OneTurnIn<T, P>(step: (T, P) -> T, busy: T -> bool, c: T, d: T, last: nat, mine: set<nat>, p: nat,
                                  waits: seq<Wait<P>>, i: nat, m: nat, l: nat)
    requires last <= MAX_DEVICES && Whole(waits) && p < MAX_DEVICES
  {
    && i < m <= |waits| && l <= MAX_DEVICES && Signalled(step, busy, d, l, mine, p, waits, m)
    && forall n :: m <= n <= |waits| ==> After(step, c, last, mine, waits, i, n) == After(step, d, l, mine, waits, m, n)
  }

  /** A busy device gets a turn within `MAX_DEVICES` waits. */
  lemma {:induction false} GetsTurn<T(!new), P(!new)>(step: (T, P) -> T, busy: T -> bool, quiet: P, c: T, last: nat,
                                                     mine: set<nat>, p: nat, waits: seq<Wait<P>>, i: nat)
    returns (m: nat, l: nat)
    requires Settled(step, busy, quiet) && busy(c) && last <= MAX_DEVICES && Whole(waits) && p < MAX_DEVICES
    requires i + Distance(last, p) < |waits| && p in mine && Signalled(step, busy, c, last, mine, p, waits, i)
    ensures OneTurnIn(step, busy, c, step(c, quiet), last, mine, p, waits, i, m, l) && m <= i + Distance(last, p) + 1
    decreases |waits| - i
  {
    var w := waits[i];
    var (slot, last') := Scan(w.active, last);
    ScanComesNearer(w.active, last, p);
    if slot.value in mine {
      assert step(c, w.poll) == step(c, quiet);
      m, l := i + 1, last';
    } else {
      m, l := GetsTurn(step, busy, quiet, c, last', mine, p, waits, i + 1);
    }
  }

  /** `k` turns of a device that is busy for that long take at most `k` times `MAX_DEVICES` waits. */
  lemma {:induction false} GetsTurns<T(!new), P(!new)>(step: (T, P) -> T, busy: T -> bool, quiet: P, c: T, last: nat,
                                                      mine: set<nat>, p: nat, waits: seq<Wait<P>>, i: nat, k: nat)
    returns (m: nat)
    requires Settled(step, busy, quiet) && Busy(step, busy, quiet, c, k)
    requires last <= MAX_DEVICES && Whole(waits) && p < MAX_DEVICES && i + k * MAX_DEVICES <= |waits|
    requires p in mine && Signalled(step, busy, c, last, mine, p, waits, i)
    ensures i <= m <= i + k * MAX_DEVICES
    ensures After(step, c, last, mine, waits, i, m) == Iterate(step, quiet, c, k)
    decreases k
  {
    m := i;
    if k > 0 {
      var m1, l := GetsTurn(step, busy, quiet, c, last, mine, p, waits, i);
      m := GetsTurns(step, busy, quiet, step(c, quiet), l, mine, p, waits, m1, k - 1);
    }
  }
}
