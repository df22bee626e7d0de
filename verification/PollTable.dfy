/** The poll table: a flat index of the devices' file descriptors, and the scan for an active device. */
module PollTable {
  import opened Common
  import opened PollRuns
  import opened RoundRobin

  const INVALID_FD := -1
  datatype Revents = Revents(pollin: bool, pollpri: bool, pollerr: bool, pollhup: bool, pollnval: bool)

  const NO_EVENTS := Revents(false, false, false, false, false)

  /** Which test a device uses to tell whether it is active. */
  datatype GetActive = Generic | PollInOnly

  class PollDev {
    const getActive: GetActive
    var evtFd: int
    var timerFd: int
    var tableTimerFd: int
    var devFd: int
    var evtIdx: int
    var fdsTimerIdx: int
    var fdsTableTimerIdx: int
    var fdsIdx: int

    constructor (getActive: GetActive, evtFd: int)
      ensures this.getActive == getActive && Idxs() == NO_INDEXES
      ensures forall k :: Fd(k) == if k == EvtFd then evtFd else INVALID_FD
    {
      this.getActive, this.evtFd := getActive, evtFd;
      timerFd, tableTimerFd, devFd := INVALID_FD, INVALID_FD, INVALID_FD;
      evtIdx, fdsTimerIdx, fdsTableTimerIdx, fdsIdx := NO_FDS_IDX, NO_FDS_IDX, NO_FDS_IDX, NO_FDS_IDX;
    }

    function Fd(k: Kind): int
      reads this`evtFd, this`timerFd, this`tableTimerFd, this`devFd
    {
      match k
      case EvtFd => evtFd
      case TimerFd => timerFd
      case TableTimerFd => tableTimerFd
      case DevFd => devFd
    }

    function Idxs(): Indexes
      reads this`evtIdx, this`fdsTimerIdx, this`fdsTableTimerIdx, this`fdsIdx
    {
      Indexes(evtIdx, fdsTimerIdx, fdsTableTimerIdx, fdsIdx)
    }

    method SetIdx(k: Kind, idx: int)
      modifies this`evtIdx, this`fdsTimerIdx, this`fdsTableTimerIdx, this`fdsIdx
      ensures Idxs() == old(Idxs()).Set(k, idx)
    {
      match k
      case EvtFd => evtIdx := idx;
      case TimerFd => fdsTimerIdx := idx;
      case TableTimerFd => fdsTableTimerIdx := idx;
      case DevFd => fdsIdx := idx;
    }
  }

  /** An entry of the table: whose descriptor it is, and which one. */
  datatype Entry = Entry(dev: PollDev, kind: Kind, fd: int)

  ghost function Want(d: PollDev, k: Kind): seq<Entry>
    reads d`evtFd, d`timerFd, d`tableTimerFd, d`devFd
  {
    if d.Fd(k) == INVALID_FD then [] else [Entry(d, k, d.Fd(k))]
  }

  /** The entries that a list of devices asks for, in list order. */
  ghost function WantAll(devs: seq<PollDev>): seq<Entry>
    reads (set d | d in devs)`evtFd, (set d | d in devs)`timerFd
    reads (set d | d in devs)`tableTimerFd, (set d | d in devs)`devFd
  {
    if devs == [] then []
    else WithDevice(WantAll(devs[..|devs| - 1]), devs[|devs| - 1])
  }

  ghost function WithDevice(es: seq<Entry>, d: PollDev): seq<Entry>
    reads d`evtFd, d`timerFd, d`tableTimerFd, d`devFd
  {
    es + Want(d, EvtFd) + Want(d, TimerFd) + Want(d, TableTimerFd) + Want(d, DevFd)
  }

  ghost predicate Distinct(devs: seq<PollDev>) {
    forall i, j :: 0 <= i < j < |devs| ==> devs[i] != devs[j]
  }

  /** The entries for which the table has room. */
  function Fitting(es: seq<Entry>): seq<Entry> {
    es[..Min(|es|, MAX_DEVICES)]
  }

  predicate IsFor(e: Entry, d: PollDev, k: Kind) {
    e.dev == d && e.kind == k
  }

  ghost predicate Lacks(es: seq<Entry>, d: PollDev, k: Kind) {
    forall p :: 0 <= p < |es| ==> !IsFor(es[p], d, k)
  }

  /** An index field tells where its entry is; when there is none, it still says what it said before. */
  ghost predicate IdxTells(es: seq<Entry>, d: PollDev, k: Kind, idx: int, before: int) {
    && (forall p :: 0 <= p < |es| && IsFor(es[p], d, k) ==> idx == p)
    && (Lacks(es, d, k) ==> idx == before)
  }

  lemma FittingOne(es: seq<Entry>, w: seq<Entry>)
    requires |es| <= MAX_DEVICES && |w| <= 1
    ensures Fitting(es + w) == if w != [] && |es| < MAX_DEVICES then es + w else es
  {
  }

  /** What the table says about other descriptors than `k` of `d` stays what it is. */
  lemma EnteringIsOnlyAbout(es: seq<Entry>, d: PollDev, k: Kind)
    requires |es| <= MAX_DEVICES
    ensures forall d', k' :: (d' != d || k' != k) && Lacks(es, d', k') ==> Lacks(Fitting(es + Want(d, k)), d', k')
    ensures forall d', k', idx, before ::
      (d' != d || k' != k) && IdxTells(es, d', k', idx, before) ==>
        IdxTells(Fitting(es + Want(d, k)), d', k', idx, before)
  {
    FittingOne(es, Want(d, k));
    var es' := Fitting(es + Want(d, k));
    forall d', k', idx, before | (d' != d || k' != k) && IdxTells(es, d', k', idx, before)
      ensures IdxTells(es', d', k', idx, before)
    {
      assert Lacks(es', d', k') ==> Lacks(es, d', k') by {
        assert forall p :: 0 <= p < |es| ==> es'[p] == es[p];
      }
    }
  }

  lemma FittingTwice(es: seq<Entry>, w: seq<Entry>)
    ensures Fitting(Fitting(es) + w) == Fitting(es + w)
  {
  }

  lemma FittingStepwise(es: seq<Entry>, d: PollDev)
    ensures Fitting(Before(es, d, DevFd) + Want(d, DevFd)) == Fitting(WithDevice(es, d))
  {
    FittingTwice(es + Want(d, EvtFd), Want(d, TimerFd));
    FittingTwice(es + Want(d, EvtFd) + Want(d, TimerFd), Want(d, TableTimerFd));
    FittingTwice(es + Want(d, EvtFd) + Want(d, TimerFd) + Want(d, TableTimerFd), Want(d, DevFd));
  }

  lemma FittingDevice(es: seq<Entry>, d: PollDev)
    ensures Fitting(WithDevice(Fitting(es), d)) == Fitting(WithDevice(es, d))
  {
    FittingStepwise(es, d);
    FittingStepwise(Fitting(es), d);
    FittingTwice(es, Want(d, EvtFd));
  }

  /** The index of a descriptor after it has been entered, or left out, behind `es`. */
  function NewIdx(es: seq<Entry>, w: seq<Entry>, before: int): int {
    if w != [] && |es| < MAX_DEVICES then |es| else before
  }

  /** The entries in front of descriptor `k` of `d`, when `d` is entered behind `es`. */
  ghost function Before(es: seq<Entry>, d: PollDev, k: Kind): seq<Entry>
    reads d`evtFd, d`timerFd, d`tableTimerFd, d`devFd
  {
    match k
    case EvtFd => es
    case TimerFd => Fitting(es + Want(d, EvtFd))
    case TableTimerFd => Fitting(Fitting(es + Want(d, EvtFd)) + Want(d, TimerFd))
    case DevFd => Fitting(Fitting(Fitting(es + Want(d, EvtFd)) + Want(d, TimerFd)) + Want(d, TableTimerFd))
  }

  lemma EnteredIdx(es: seq<Entry>, d: PollDev, k: Kind, before: int)
    requires |es| <= MAX_DEVICES && LacksAll(es, d)
    ensures IdxTells(Fitting(WithDevice(es, d)), d, k, NewIdx(Before(es, d, k), Want(d, k), before), before)
  {
    FittingStepwise(es, d);
    var es1, es2, es3 := Before(es, d, TimerFd), Before(es, d, TableTimerFd), Before(es, d, DevFd);
    EnteringIsOnlyAbout(es, d, EvtFd);
    EnteringIsOnlyAbout(es1, d, TimerFd);
    EnteringIsOnlyAbout(es2, d, TableTimerFd);
    EnteringIsOnlyAbout(es3, d, DevFd);
    EnteredNow(Before(es, d, k), d, k, before);
  }

  lemma EnteredNow(es: seq<Entry>, d: PollDev, k: Kind, before: int)
    requires |es| <= MAX_DEVICES && Lacks(es, d, k)
    ensures IdxTells(Fitting(es + Want(d, k)), d, k, NewIdx(es, Want(d, k), before), before)
  {
    FittingOne(es, Want(d, k));
    if Want(d, k) != [] && |es| < MAX_DEVICES {
      assert IsFor((es + Want(d, k))[|es|], d, k);
    }
  }

  ghost function NewIdxs(es: seq<Entry>, d: PollDev, before: Indexes): Indexes
    reads d`evtFd, d`timerFd, d`tableTimerFd, d`devFd
  {
    Indexes(
      NewIdx(Before(es, d, EvtFd), Want(d, EvtFd), before.evt),
      NewIdx(Before(es, d, TimerFd), Want(d, TimerFd), before.timer),
      NewIdx(Before(es, d, TableTimerFd), Want(d, TableTimerFd), before.tableTimer),
      NewIdx(Before(es, d, DevFd), Want(d, DevFd), before.dev))
  }

  ghost predicate LacksAll(es: seq<Entry>, d: PollDev) {
    forall k :: Lacks(es, d, k)
  }

  /** `IdxTells` for all four index fields. */
  ghost predicate IdxsTell(es: seq<Entry>, d: PollDev, now: Indexes, before: Indexes) {
    forall k :: IdxTells(es, d, k, now.Get(k), before.Get(k))
  }

  lemma EnteredIdxs(es: seq<Entry>, d: PollDev, before: Indexes)
    requires |es| <= MAX_DEVICES && LacksAll(es, d)
    ensures IdxsTell(Fitting(WithDevice(es, d)), d, NewIdxs(es, d, before), before)
  {
    forall k
      ensures IdxTells(Fitting(WithDevice(es, d)), d, k, NewIdxs(es, d, before).Get(k), before.Get(k))
    {
      EnteredIdx(es, d, k, before.Get(k));
    }
  }

  /** Entering device `d` does not change what the table says about the others. */
  lemma EnteringDevice(es: seq<Entry>, d: PollDev, other: PollDev)
    requires |es| <= MAX_DEVICES && other != d
    ensures LacksAll(es, other) ==> LacksAll(Fitting(WithDevice(es, d)), other)
    ensures forall now, before :: IdxsTell(es, other, now, before) ==>
      IdxsTell(Fitting(WithDevice(es, d)), other, now, before)
  {
    FittingStepwise(es, d);
    var es1 := Fitting(es + Want(d, EvtFd));
    var es2 := Fitting(es1 + Want(d, TimerFd));
    var es3 := Fitting(es2 + Want(d, TableTimerFd));
    EnteringIsOnlyAbout(es, d, EvtFd);
    EnteringIsOnlyAbout(es1, d, TimerFd);
    EnteringIsOnlyAbout(es2, d, TableTimerFd);
    EnteringIsOnlyAbout(es3, d, DevFd);
  }

  predicate HasError(r: Revents) {
    r.pollerr || r.pollhup || r.pollnval
  }

  /** Whether `poll` reports an error on any of the `n` slots from `start` on. */
  predicate AnyError(revents: seq<Revents>, start: nat, n: nat)
    requires |revents| == MAX_DEVICES && start < MAX_DEVICES && n <= MAX_DEVICES
  {
    exists i :: 0 <= i < n && HasError(revents[Slot(start, i)])
  }

  /** One of the first `n` slots that a scan looks at reports an error, a hang-up or an invalid descriptor. */
  predicate ErrorAmong(revents: seq<Revents>, last: nat, n: nat)
    requires |revents| == MAX_DEVICES && last <= MAX_DEVICES
  {
    exists p :: 0 <= p < MAX_DEVICES && Distance(last, p) < n
                && (revents[p].pollerr || revents[p].pollhup || revents[p].pollnval)
  }

  lemma AnyErrorIs(revents: seq<Revents>, last: nat, n: nat)
    requires |revents| == MAX_DEVICES && last <= MAX_DEVICES && n <= MAX_DEVICES
    ensures AnyError(revents, Start(last), n) <==> ErrorAmong(revents, last, n)
  {
    forall p | 0 <= p < MAX_DEVICES ensures Slot(Start(last), Distance(last, p)) == p {
    }
    forall i | 0 <= i < n && HasError(revents[Slot(Start(last), i)]) ensures ErrorAmong(revents, last, n) {
      assert Distance(last, Slot(Start(last), i)) == i;
    }
  }

  /** `fdsCheck` for input, and for anything at all. */
  predicate HasInput(revents: seq<Revents>, idx: int)
    requires |revents| == MAX_DEVICES && NO_FDS_IDX <= idx < MAX_DEVICES
  {
    idx != NO_FDS_IDX && revents[idx].pollin
  }

  predicate HasAny(revents: seq<Revents>, idx: int)
    requires |revents| == MAX_DEVICES && NO_FDS_IDX <= idx < MAX_DEVICES
  {
    idx != NO_FDS_IDX && revents[idx] != NO_EVENTS
  }

  predicate InRange(idxs: Indexes) {
    && NO_FDS_IDX <= idxs.evt < MAX_DEVICES && NO_FDS_IDX <= idxs.timer < MAX_DEVICES
    && NO_FDS_IDX <= idxs.tableTimer < MAX_DEVICES && NO_FDS_IDX <= idxs.dev < MAX_DEVICES
  }

  /** What the answer of a device depends on: its kind of test, and its indexes. */
  datatype Test = Test(getActive: GetActive, idxs: Indexes)

  predicate Answers(t: Test, revents: seq<Revents>)
    requires |revents| == MAX_DEVICES && InRange(t.idxs)
  {
    match t.getActive
    case Generic =>
      || HasInput(revents, t.idxs.evt) || HasInput(revents, t.idxs.timer)
      || HasInput(revents, t.idxs.tableTimer) || HasAny(revents, t.idxs.dev)
    case PollInOnly =>
      HasInput(revents, t.idxs.dev) || HasInput(revents, t.idxs.timer) || HasInput(revents, t.idxs.evt)
  }

  /** The device's own test of whether something is pending for it. */
  predicate IsActive(d: PollDev, revents: seq<Revents>)
    requires |revents| == MAX_DEVICES && InRange(d.Idxs())
    reads d
  {
    Answers(Test(d.getActive, d.Idxs()), revents)
  }

  lemma {:induction false} WantAllOnly(devs: seq<PollDev>, p: nat)
    requires p < |WantAll(devs)|
    ensures var e := WantAll(devs)[p]; e.dev in devs && e.fd == e.dev.Fd(e.kind) != INVALID_FD
    decreases |devs|
  {
    var n := |devs| - 1;
    if p < |WantAll(devs[..n])| {
      WantAllOnly(devs[..n], p);
    }
  }

  lemma IdxsStayInRange(es: seq<Entry>, d: PollDev, now: Indexes, before: Indexes)
    requires IdxsTell(es, d, now, before) && |es| <= MAX_DEVICES && InRange(before)
    ensures InRange(now)
  {
    forall k ensures NO_FDS_IDX <= now.Get(k) < MAX_DEVICES {
      assert IdxTells(es, d, k, now.Get(k), before.Get(k));
      assert before.Get(EvtFd) == before.evt && before.Get(DevFd) == before.dev;
    }
    assert now.Get(EvtFd) == now.evt && now.Get(TimerFd) == now.timer;
    assert now.Get(TableTimerFd) == now.tableTimer && now.Get(DevFd) == now.dev;
  }

  ghost function Owners(es: seq<Entry>): set<PollDev> {
    set e | e in es :: e.dev
  }

  ghost predicate AllInRange(es: seq<Entry>)
    reads Owners(es)
  {
    forall p :: 0 <= p < |es| ==> InRange(es[p].dev.Idxs())
  }

  // ---- When a device is active, entry by entry ----

  /** An entry whose report makes its device active: input; on the device's own descriptor mostly anything. */
  predicate Wakes(e: Entry, r: Revents) {
    match e.dev.getActive
    case Generic => r.pollin || (e.kind == DevFd && (r.pollpri || r.pollerr || r.pollhup || r.pollnval))
    case PollInOnly => r.pollin && e.kind != TableTimerFd
  }

  /** Every index of `d` is unset or leads to its own entry, and every entry of `d` is indexed. */
  ghost predicate Leads(es: seq<Entry>, d: PollDev, idxs: Indexes) {
    && (forall k :: LeadsTo(es, d, k, idxs.Get(k)))
    && forall p :: 0 <= p < |es| && es[p].dev == d ==> idxs.Get(es[p].kind) == p
  }

  predicate LeadsTo(es: seq<Entry>, d: PollDev, k: Kind, idx: int) {
    idx == NO_FDS_IDX || (0 <= idx < |es| && IsFor(es[idx], d, k))
  }

  ghost predicate AllLead(es: seq<Entry>, ts: seq<Test>)
    requires |es| == |ts|
  {
    forall p :: 0 <= p < |es| ==> Leads(es, es[p].dev, ts[p].idxs)
  }

  /** Whatever the indexes lead to: a device is active exactly when the report at one of them would wake it. */
  lemma ActiveByIndex(d: PollDev, rs: seq<Revents>)
    requires |rs| == MAX_DEVICES && InRange(d.Idxs())
    ensures forall k :: NO_FDS_IDX <= d.Idxs().Get(k) < MAX_DEVICES
    ensures IsActive(d, rs) <==> exists k :: d.Idxs().Get(k) != NO_FDS_IDX && Wakes(Entry(d, k, 0), rs[d.Idxs().Get(k)])
  {
    var idxs := d.Idxs();
    assert idxs.Get(EvtFd) == idxs.evt && idxs.Get(TimerFd) == idxs.timer;
    assert idxs.Get(TableTimerFd) == idxs.tableTimer && idxs.Get(DevFd) == idxs.dev;
  }

  /** With indexes that lead to their own entries a device is active exactly when one of its entries wakes it. */
  lemma ActiveExactlyWhen(es: seq<Entry>, d: PollDev, rs: seq<Revents>)
    requires |es| <= MAX_DEVICES == |rs| && InRange(d.Idxs()) && Leads(es, d, d.Idxs())
    ensures IsActive(d, rs) <==> exists p :: 0 <= p < |es| && es[p].dev == d && Wakes(es[p], rs[p])
  {
    ActiveByIndex(d, rs);
    forall p | 0 <= p < |es| && es[p].dev == d && Wakes(es[p], rs[p]) ensures IsActive(d, rs) {
      var k := es[p].kind;
      assert d.Idxs().Get(k) == p && Wakes(Entry(d, k, 0), rs[p]);
    }
    if IsActive(d, rs) {
      var k :| d.Idxs().Get(k) != NO_FDS_IDX && Wakes(Entry(d, k, 0), rs[d.Idxs().Get(k)]);
      assert LeadsTo(es, d, k, d.Idxs().Get(k));
    }
  }

  /** The same for all entries at once: somebody is active exactly when some entry wakes its device. */
  lemma SomeActiveExactlyWhen(es: seq<Entry>, rs: seq<Revents>)
    requires |es| <= MAX_DEVICES == |rs| && AllInRange(es) && AllLead(es, Tests(es))
    ensures (exists p :: 0 <= p < |es| && IsActive(es[p].dev, rs)) <==>
            (exists p :: 0 <= p < |es| && Wakes(es[p], rs[p]))
  {
    forall p | 0 <= p < |es| && IsActive(es[p].dev, rs)
      ensures exists q :: 0 <= q < |es| && Wakes(es[q], rs[q])
    {
      ActiveExactlyWhen(es, es[p].dev, rs);
    }
    forall p | 0 <= p < |es| && Wakes(es[p], rs[p]) ensures IsActive(es[p].dev, rs) {
      ActiveExactlyWhen(es, es[p].dev, rs);
    }
  }

  lemma OwnersInRange(devs: seq<PollDev>, es: seq<Entry>)
    requires es == Fitting(WantAll(devs)) && forall i :: 0 <= i < |devs| ==> InRange(devs[i].Idxs())
    ensures AllInRange(es)
  {
    forall p | 0 <= p < |es| ensures InRange(es[p].dev.Idxs()) {
      WantAllOnly(devs, p);
    }
  }

  lemma DevicesStayInRange(devs: seq<PollDev>, es: seq<Entry>, before: seq<Indexes>)
    requires |before| == |devs| && |es| <= MAX_DEVICES
    requires forall i :: 0 <= i < |devs| ==> IdxsTell(es, devs[i], devs[i].Idxs(), before[i])
    requires forall i :: 0 <= i < |devs| ==> InRange(before[i])
    ensures forall i :: 0 <= i < |devs| ==> InRange(devs[i].Idxs())
  {
    forall i | 0 <= i < |devs| ensures InRange(devs[i].Idxs()) {
      IdxsStayInRange(es, devs[i], devs[i].Idxs(), before[i]);
    }
  }

  predicate WholePolls(polls: seq<seq<Revents>>) {
    forall i :: 0 <= i < |polls| ==> |polls[i]| == MAX_DEVICES
  }

  /** `active` says which slots belong to a device whose test holds. */
  ghost predicate AreActive(es: seq<Entry>, active: seq<bool>, rs: seq<Revents>)
    requires AllInRange(es) && |rs| == MAX_DEVICES
    reads Owners(es)
  {
    && |active| == MAX_DEVICES
    && forall p :: 0 <= p < MAX_DEVICES ==> (active[p] <==> p < |es| && IsActive(es[p].dev, rs))
  }

  /** Serving a slot is serving its device. */
  ghost predicate Serves(es: seq<Entry>, slot: Option<nat>, dev: PollDev?) {
    slot.Some? ==> slot.value < |es| && dev == es[slot.value].dev
  }

  /** The tests of the devices in the table, slot by slot. */
  ghost function Tests(es: seq<Entry>): (ts: seq<Test>)
    reads Owners(es)
    ensures |ts| == |es| && forall p :: 0 <= p < |es| ==> ts[p] == Test(es[p].dev.getActive, es[p].dev.Idxs())
  {
    seq(|es|, p requires 0 <= p < |es| reads Owners(es) => Test(es[p].dev.getActive, es[p].dev.Idxs()))
  }

  predicate Testable(ts: seq<Test>) {
    forall p :: 0 <= p < |ts| ==> InRange(ts[p].idxs)
  }

  predicate Answered(ts: seq<Test>, active: seq<bool>, rs: seq<Revents>)
    requires Testable(ts) && |rs| == MAX_DEVICES
  {
    && |active| == MAX_DEVICES
    && forall p :: 0 <= p < MAX_DEVICES ==> (active[p] <==> p < |ts| && Answers(ts[p], rs))
  }

  /** A wait: `poll` reports `rs`, `active` answer, the scan goes on from `last` to `last'`, and serves `dev`. */
  ghost predicate Wait(es: seq<Entry>, ts: seq<Test>, rs: seq<Revents>, active: seq<bool>, last: nat, last': nat,
                       dev: PollDev?)
    requires Testable(ts)
  {
    && |rs| == MAX_DEVICES && last <= MAX_DEVICES && last' <= MAX_DEVICES && Answered(ts, active, rs)
    && last' == Scan(active, last).1 && Serves(es, Scan(active, last).0, dev)
  }

  /** After some waits: what the devices answered each time, where the scans stopped, and who was served. */
  ghost predicate Waited(es: seq<Entry>, ts: seq<Test>, polls: seq<seq<Revents>>, actives: seq<seq<bool>>,
                         lasts: seq<nat>, served: seq<PollDev?>)
    requires Testable(ts) && WholePolls(polls)
  {
    && |served| == |actives| <= |polls| && |lasts| == |actives| + 1 && lasts[0] <= MAX_DEVICES
    && forall i :: 0 <= i < |actives| ==> Wait(es, ts, polls[i], actives[i], lasts[i], lasts[i + 1], served[i])
  }

  lemma WaitsAreConsecutive(es: seq<Entry>, ts: seq<Test>, polls: seq<seq<Revents>>, actives: seq<seq<bool>>,
                            lasts: seq<nat>, served: seq<PollDev?>)
    requires Testable(ts) && WholePolls(polls) && Waited(es, ts, polls, actives, lasts, served)
    ensures Consecutive(actives, lasts)
  {
    forall i | 0 <= i < |lasts| ensures lasts[i] <= MAX_DEVICES {
      if i > 0 {
        assert Wait(es, ts, polls[i - 1], actives[i - 1], lasts[i - 1], lasts[i], served[i - 1]);
      }
    }
    forall i | 0 <= i < |actives| ensures |actives[i]| == MAX_DEVICES && lasts[i + 1] == Scan(actives[i], lasts[i]).1 {
      assert Wait(es, ts, polls[i], actives[i], lasts[i], lasts[i + 1], served[i]);
    }
  }

  lemma WaitedOnceMore(es: seq<Entry>, ts: seq<Test>, polls: seq<seq<Revents>>, actives: seq<seq<bool>>,
                       lasts: seq<nat>, served: seq<PollDev?>, active: seq<bool>, last: nat, dev: PollDev?)
    requires Testable(ts) && WholePolls(polls) && |served| < |polls| && Waited(es, ts, polls, actives, lasts, served)
    requires Wait(es, ts, polls[|served|], active, lasts[|served|], last, dev)
    ensures Waited(es, ts, polls, actives + [active], lasts + [last], served + [dev])
  {
    var actives', lasts', served' := actives + [active], lasts + [last], served + [dev];
    forall i | 0 <= i < |actives'|
      ensures Wait(es, ts, polls[i], actives'[i], lasts'[i], lasts'[i + 1], served'[i])
    {
      if i < |actives| {
        assert Wait(es, ts, polls[i], actives[i], lasts[i], lasts[i + 1], served[i]);
      }
    }
  }

  /** Every device in the table whose test holds every time is served. */
  ghost predicate NobodyStarves(es: seq<Entry>, ts: seq<Test>, polls: seq<seq<Revents>>, served: seq<PollDev?>)
    requires Testable(ts) && WholePolls(polls) && |es| == |ts|
  {
    forall p :: 0 <= p < |es| && (forall i :: 0 <= i < |polls| ==> Answers(ts[p], polls[i])) ==> es[p].dev in served
  }

  lemma WaitersAreServed(es: seq<Entry>, ts: seq<Test>, polls: seq<seq<Revents>>, actives: seq<seq<bool>>,
                         lasts: seq<nat>, served: seq<PollDev?>)
    requires Testable(ts) && WholePolls(polls) && |actives| == |polls| >= MAX_DEVICES
    requires |es| == |ts| <= MAX_DEVICES && Waited(es, ts, polls, actives, lasts, served)
    ensures NobodyStarves(es, ts, polls, served)
  {
    WaitsAreConsecutive(es, ts, polls, actives, lasts, served);
    forall p | 0 <= p < |es| && (forall i :: 0 <= i < |polls| ==> Answers(ts[p], polls[i]))
      ensures es[p].dev in served
    {
      forall i | 0 <= i < |actives| ensures actives[i][p] {
        assert Wait(es, ts, polls[i], actives[i], lasts[i], lasts[i + 1], served[i]);
      }
      BoundedWaiting(actives, lasts[0], p);
      var i :| 0 <= i <= Distance(lasts[0], p) && Served(actives, lasts[0])[i] == Some(p);
      ServedAt(actives, lasts, i);
      assert Wait(es, ts, polls[i], actives[i], lasts[i], lasts[i + 1], served[i]);
    }
  }

  /** In every report some entry wakes `d`. */
  ghost predicate AlwaysWoken(es: seq<Entry>, d: PollDev, polls: seq<seq<Revents>>)
    requires |es| <= MAX_DEVICES && WholePolls(polls)
  {
    forall i :: 0 <= i < |polls| ==> exists p :: 0 <= p < |es| && es[p].dev == d && Wakes(es[p], polls[i][p])
  }

  /** `NobodyStarves` in terms of entries: who has something to be woken for in every report is served. */
  ghost predicate NobodyWaits(es: seq<Entry>, polls: seq<seq<Revents>>, served: seq<PollDev?>)
    requires |es| <= MAX_DEVICES && WholePolls(polls)
  {
    forall p :: 0 <= p < |es| && AlwaysWoken(es, es[p].dev, polls) ==> es[p].dev in served
  }

  lemma WokenAreServed(es: seq<Entry>, polls: seq<seq<Revents>>, served: seq<PollDev?>)
    requires |es| <= MAX_DEVICES && WholePolls(polls) && AllInRange(es)
    requires Testable(Tests(es)) && NobodyStarves(es, Tests(es), polls, served)
    ensures AllLead(es, Tests(es)) ==> NobodyWaits(es, polls, served)
  {
    if AllLead(es, Tests(es)) {
      forall p | 0 <= p < |es| && AlwaysWoken(es, es[p].dev, polls) ensures es[p].dev in served {
        forall i | 0 <= i < |polls| ensures Answers(Tests(es)[p], polls[i]) {
          ActiveExactlyWhen(es, es[p].dev, polls[i]);
        }
      }
    }
  }

  /** A scan that has looked at every slot, or at all up to the one it serves, notes the errors it has seen. */
  predicate Noted(rs: seq<Revents>, last: nat, last': nat, flag: bool, flag': bool, found: bool)
    requires |rs| == MAX_DEVICES && last <= MAX_DEVICES
  {
    if found then
      0 < last' <= MAX_DEVICES && flag' == (flag || ErrorAmong(rs, last, Distance(last, last' - 1) + 1))
    else
      flag' == (flag || ErrorAmong(rs, last, 32))
  }

  lemma ScanNotes(rs: seq<Revents>, active: seq<bool>, last: nat, flag: bool, flag': bool)
    requires |rs| == |active| == MAX_DEVICES && last <= MAX_DEVICES
    requires var m := Passed(active, Start(last), 0);
             flag' == (flag || AnyError(rs, Start(last), Min(m + 1, MAX_DEVICES)))
    ensures Noted(rs, last, Scan(active, last).1, flag, flag', Scan(active, last).0.Some?)
  {
    AnyErrorIs(rs, last, Min(Passed(active, Start(last), 0) + 1, MAX_DEVICES));
  }

  lemma RoundIsOver(rs: seq<Revents>, active: seq<bool>, last: nat, n: nat, flag: bool, flag': bool)
    requires |rs| == |active| == MAX_DEVICES && last <= MAX_DEVICES && 0 < n <= MAX_DEVICES
    requires Passed(active, Start(last), 0) == n - 1 || (n == Passed(active, Start(last), 0) == MAX_DEVICES)
    requires flag' == (flag || AnyError(rs, Start(last), n))
    ensures Scan(active, last).1 == Slot(Start(last), n - 1) + 1
    ensures Scan(active, last).0 ==
            if Passed(active, Start(last), 0) == n then None else Some(Slot(Start(last), n - 1))
    ensures Noted(rs, last, Scan(active, last).1, flag, flag', Scan(active, last).0.Some?)
  {
    ScanStops(active, last, n);
    ScanNotes(rs, active, last, flag, flag');
  }

  /** A device that has an entry which wakes it is picked, and none exactly when no entry wakes its device. */
  ghost predicate Picked(es: seq<Entry>, rs: seq<Revents>, dev: PollDev?)
    requires |es| <= MAX_DEVICES == |rs|
  {
    if dev == null then forall p :: 0 <= p < |es| ==> !Wakes(es[p], rs[p])
    else exists p :: 0 <= p < |es| && es[p].dev == dev && Wakes(es[p], rs[p])
  }

  lemma ScanPicks(es: seq<Entry>, active: seq<bool>, rs: seq<Revents>, last: nat, dev: PollDev?)
    requires |es| <= MAX_DEVICES == |rs| && AllInRange(es) && AreActive(es, active, rs)
    requires last <= MAX_DEVICES && Serves(es, Scan(active, last).0, dev) && (Scan(active, last).0 == None ==> dev == null)
    ensures AllLead(es, Tests(es)) ==> Picked(es, rs, dev)
  {
    if AllLead(es, Tests(es)) {
      ScanFindsActive(active, last);
      SomeActiveExactlyWhen(es, rs);
      if dev != null {
        ActiveExactlyWhen(es, dev, rs);
      }
    }
  }

  class Table {
    const fds: array<int>
    const revents: array<Revents>
    const devStructArray: array<PollDev?>
    var activeDevCount: nat
    var devChangeFlag: bool
    var lastScanIdx: nat
    ghost var entries: seq<Entry>

    ghost predicate Valid()
      reads this, fds, devStructArray
    {
      && fds.Length == revents.Length == devStructArray.Length == MAX_DEVICES && lastScanIdx <= MAX_DEVICES
      && activeDevCount == |entries| <= MAX_DEVICES
      && (forall p :: 0 <= p < |entries| ==> fds[p] == entries[p].fd && devStructArray[p] == entries[p].dev)
      && (forall p :: |entries| <= p < MAX_DEVICES ==> devStructArray[p] == null)
    }

    constructor ()
      ensures Valid() && entries == [] && !devChangeFlag && lastScanIdx == 0
    {
      fds := new int[MAX_DEVICES];
      revents := new Revents[MAX_DEVICES](_ => NO_EVENTS);
      devStructArray := new PollDev?[MAX_DEVICES](_ => null);
      activeDevCount, devChangeFlag, lastScanIdx, entries := 0, false, 0, [];
    }

    /** Enters one descriptor, unless the table is full or the descriptor is not open. */
    method AddToFds(d: PollDev, k: Kind)
      requires Valid()
      modifies this`activeDevCount, this`entries, fds, devStructArray
      modifies d`evtIdx, d`fdsTimerIdx, d`fdsTableTimerIdx, d`fdsIdx
      ensures Valid() && entries == Fitting(old(entries) + Want(d, k))
      ensures d.Idxs() == old(d.Idxs()).Set(k, NewIdx(old(entries), Want(d, k), old(d.Idxs()).Get(k)))
    {
      FittingOne(entries, Want(d, k));
      var idx := activeDevCount;
      if idx >= MAX_DEVICES {
        return;
      }
      if d.Fd(k) != INVALID_FD {
        fds[idx] := d.Fd(k);
        devStructArray[idx] := d;
        d.SetIdx(k, idx);
        activeDevCount := activeDevCount + 1;
        entries := entries + [Entry(d, k, d.Fd(k))];
      }
    }

    /** Enters all four descriptors of a device. */
    method DevGenericSetPolled(d: PollDev)
      requires Valid() && LacksAll(entries, d)
      modifies this`activeDevCount, this`entries, fds, devStructArray
      modifies d`evtIdx, d`fdsTimerIdx, d`fdsTableTimerIdx, d`fdsIdx
      ensures Valid() && entries == Fitting(WithDevice(old(entries), d))
      ensures IdxsTell(entries, d, d.Idxs(), old(d.Idxs()))
    {
      ghost var es, before := entries, d.Idxs();
      AddToFds(d, EvtFd);
      AddToFds(d, TimerFd);
      AddToFds(d, TableTimerFd);
      assert entries == Before(es, d, DevFd);
      AddToFds(d, DevFd);
      assert d.Idxs() == NewIdxs(es, d, before);
      assert entries == Fitting(WithDevice(es, d)) by {
        FittingStepwise(es, d);
      }
      EnteredIdxs(es, d, before);
    }

    /** Empties the table. */
    method Clear()
      requires Valid()
      modifies this`activeDevCount, this`devChangeFlag, this`entries, fds, revents, devStructArray
      ensures Valid() && entries == [] && !devChangeFlag
    {
      forall p | 0 <= p < MAX_DEVICES {
        fds[p] := 0;
      }
      forall p | 0 <= p < MAX_DEVICES {
        revents[p] := NO_EVENTS;
      }
      forall p | 0 <= p < MAX_DEVICES {
        devStructArray[p] := null;
      }
      activeDevCount, devChangeFlag, entries := 0, false, [];
    }

    /** The first `n` devices are entered, the others are not yet; `before` is what their indexes were. */
    ghost predicate Entered(devs: seq<PollDev>, n: nat, before: seq<Indexes>)
      requires n <= |devs| == |before|
      reads this, (set d | d in devs)
    {
      && entries == Fitting(WantAll(devs[..n]))
      && (forall i :: 0 <= i < n ==> IdxsTell(entries, devs[i], devs[i].Idxs(), before[i]))
      && (forall i :: n <= i < |devs| ==> LacksAll(entries, devs[i]) && devs[i].Idxs() == before[i])
    }

    method EnterNext(d: PollDev, ghost devs: seq<PollDev>, ghost n: nat, ghost before: seq<Indexes>)
      requires Valid() && Distinct(devs)
      requires n < |devs| == |before| && d == devs[n] && Entered(devs, n, before)
      modifies this`activeDevCount, this`entries, fds, devStructArray
      modifies d`evtIdx, d`fdsTimerIdx, d`fdsTableTimerIdx, d`fdsIdx
      ensures Valid() && Entered(devs, n + 1, before)
    {
      assert devs[..n + 1][..n] == devs[..n];
      FittingDevice(WantAll(devs[..n]), d);
      forall i | 0 <= i < |devs| && i != n {
        EnteringDevice(entries, d, devs[i]);
      }
      DevGenericSetPolled(d);
    }

    ghost predicate Scannable()
      reads this, fds, devStructArray, Owners(entries)
    {
      Valid() && AllInRange(entries)
    }

    /** Indexes that were in range stay so, and so the devices in the table can be asked. */
    lemma ScannableAfterRebuild(devs: seq<PollDev>, before: seq<Indexes>)
      requires Valid() && entries == Fitting(WantAll(devs)) && |before| == |devs|
      requires forall i :: 0 <= i < |devs| ==> IdxsTell(entries, devs[i], devs[i].Idxs(), before[i])
      requires forall i :: 0 <= i < |devs| ==> InRange(before[i])
      ensures Scannable() && forall i :: 0 <= i < |devs| ==> InRange(devs[i].Idxs())
    {
      DevicesStayInRange(devs, entries, before);
      OwnersInRange(devs, entries);
    }

    /** Rebuilds the table from the device list, if the list has changed; `before` are the devices' indexes. */
    method InitPollFds(devs: seq<PollDev>, ghost before: seq<Indexes>)
      requires Valid() && Distinct(devs)
      requires |before| == |devs| && forall i :: 0 <= i < |devs| ==> before[i] == devs[i].Idxs()
      modifies this`activeDevCount, this`devChangeFlag, this`entries, fds, revents, devStructArray
      modifies (set d | d in devs)`evtIdx, (set d | d in devs)`fdsTimerIdx
      modifies (set d | d in devs)`fdsTableTimerIdx, (set d | d in devs)`fdsIdx
      ensures Valid() && !devChangeFlag
      ensures if old(devChangeFlag) then
                && entries == Fitting(WantAll(devs))
                && forall i :: 0 <= i < |devs| ==> IdxsTell(entries, devs[i], devs[i].Idxs(), before[i])
              else entries == old(entries) && forall i :: 0 <= i < |devs| ==> devs[i].Idxs() == before[i]
      ensures (forall i :: 0 <= i < |devs| ==> InRange(before[i])) && (old(devChangeFlag) || old(Scannable())) ==>
        Scannable() && forall i :: 0 <= i < |devs| ==> InRange(devs[i].Idxs())
    {
      if !devChangeFlag {
        return;
      }
      Clear();
      var n := 0;
      while n < |devs|
        invariant n <= |devs| && Valid() && !devChangeFlag && Entered(devs, n, before)
      {
        EnterNext(devs[n], devs, n, before);
        n := n + 1;
      }
      assert devs[..n] == devs;
      if forall i :: 0 <= i < |devs| ==> InRange(before[i]) {
        ScannableAfterRebuild(devs, before);
      }
    }

    /** Looks at the next slot: notes an error, and returns the device if it is active. */
    method ScanSlot(ghost active: seq<bool>) returns (dev: PollDev?)
      requires Scannable() && AreActive(entries, active, revents[..])
      modifies this`lastScanIdx, this`devChangeFlag
      ensures Scannable() && AreActive(entries, active, revents[..])
      ensures lastScanIdx == Start(old(lastScanIdx)) + 1
      ensures var p := Start(old(lastScanIdx));
              && devChangeFlag == (old(devChangeFlag) || HasError(revents[p]))
              && if active[p] then p < |entries| && dev == entries[p].dev else dev == null
    {
      if lastScanIdx >= MAX_DEVICES {
        lastScanIdx := 0;
      }
      if HasError(revents[lastScanIdx]) {
        devChangeFlag := true;
      }
      dev := devStructArray[lastScanIdx];
      if dev != null && !IsActive(dev, revents[..]) {
        dev := null;
      }
      lastScanIdx := lastScanIdx + 1;
    }

    /** Looks at slot number `idx` of a round, all slots before it having been passed. */
    method ScanNext(ghost active: seq<bool>, ghost start: nat, ghost idx: nat, ghost flag: bool) returns (dev: PollDev?)
      requires Scannable() && AreActive(entries, active, revents[..])
      requires start < MAX_DEVICES && idx < MAX_DEVICES && Start(lastScanIdx) == Slot(start, idx)
      requires devChangeFlag == (flag || AnyError(revents[..], start, idx))
      modifies this`lastScanIdx, this`devChangeFlag
      ensures Scannable() && AreActive(entries, active, revents[..])
      ensures lastScanIdx == Slot(start, idx) + 1 && Start(lastScanIdx) == Slot(start, idx + 1)
      ensures devChangeFlag == (flag || AnyError(revents[..], start, idx + 1))
      ensures dev == null ==> Passed(active, start, idx) == Passed(active, start, idx + 1)
      ensures dev != null ==>
        && Passed(active, start, idx) == idx
        && Slot(start, idx) < |entries| && dev == entries[Slot(start, idx)].dev
    {
      dev := ScanSlot(active);
    }

    /** Goes round the slots from where the last scan stopped, until a device is active. */
    method ScanRound(ghost active: seq<bool>) returns (dev: PollDev?)
      requires Scannable() && AreActive(entries, active, revents[..])
      modifies this`lastScanIdx, this`devChangeFlag
      ensures Scannable() && AreActive(entries, active, revents[..])
      ensures lastScanIdx == Scan(active, old(lastScanIdx)).1
      ensures var slot := Scan(active, old(lastScanIdx)).0; Serves(entries, slot, dev) && (slot == None ==> dev == null)
      ensures Noted(revents[..], old(lastScanIdx), lastScanIdx, old(devChangeFlag), devChangeFlag,
                    Scan(active, old(lastScanIdx)).0.Some?)
    {
      ghost var start, m := Start(lastScanIdx), Passed(active, Start(lastScanIdx), 0);
      var idx := 0;
      dev := null;
      while idx < MAX_DEVICES && dev == null
        invariant idx <= MAX_DEVICES && Scannable() && AreActive(entries, active, revents[..])
        invariant Start(lastScanIdx) == Slot(start, idx)
        invariant devChangeFlag == (old(devChangeFlag) || AnyError(revents[..], start, idx))
        invariant if idx == 0 then dev == null else lastScanIdx == Slot(start, idx - 1) + 1
        invariant dev == null ==> Passed(active, start, idx) == m
        invariant dev != null ==>
          m == idx - 1 && Slot(start, m) < |entries| && dev == entries[Slot(start, m)].dev
      {
        dev := ScanNext(active, start, idx, old(devChangeFlag));
        idx := idx + 1;
      }
      RoundIsOver(revents[..], active, old(lastScanIdx), idx, old(devChangeFlag), devChangeFlag);
    }

    /** A scan, in terms of the entries that wake their devices and of the errors reported. */
    method PickActive(ghost active: seq<bool>) returns (dev: PollDev?)
      requires Scannable() && AreActive(entries, active, revents[..])
      modifies this`lastScanIdx, this`devChangeFlag
      ensures Scannable() && AreActive(entries, active, revents[..]) && old(lastScanIdx) <= MAX_DEVICES
      ensures lastScanIdx == Scan(active, old(lastScanIdx)).1
      ensures var slot := Scan(active, old(lastScanIdx)).0; Serves(entries, slot, dev) && (slot == None ==> dev == null)
      ensures AllLead(entries, Tests(entries)) ==> Picked(entries, revents[..], dev)
      ensures Noted(revents[..], old(lastScanIdx), lastScanIdx, old(devChangeFlag), devChangeFlag, dev != null)
    {
      ghost var last := lastScanIdx;
      dev := ScanRound(active);
      ScanPicks(entries, active, revents[..], last, dev);
    }

    /**
     Picks an active device, if there is one; `pollStat` is what `poll` returned.  A change is noted when a
     slot that is looked at reports an error.
     */
    method GetActiveDev(pollStat: int, ghost active: seq<bool>) returns (dev: PollDev?)
      requires Scannable() && AreActive(entries, active, revents[..])
      modifies this`lastScanIdx, this`devChangeFlag
      ensures Scannable() && old(lastScanIdx) <= MAX_DEVICES
      ensures pollStat <= 0 ==>
        dev == null && lastScanIdx == old(lastScanIdx) && devChangeFlag == old(devChangeFlag)
      ensures pollStat > 0 ==>
        var (slot, last) := Scan(active, old(lastScanIdx));
        lastScanIdx == last && Serves(entries, slot, dev) && (slot == None ==> dev == null)
      ensures dev != null ==> exists p :: 0 <= p < |entries| && active[p] && dev == entries[p].dev
      ensures pollStat > 0 ==>
        (dev == null <==> forall p :: 0 <= p < |entries| ==> !IsActive(entries[p].dev, revents[..]))
      ensures pollStat > 0 && AllLead(entries, Tests(entries)) ==> Picked(entries, revents[..], dev)
      ensures pollStat > 0 ==>
        Noted(revents[..], old(lastScanIdx), lastScanIdx, old(devChangeFlag), devChangeFlag, dev != null)
    {
      if pollStat <= 0 {
        dev := null;
      } else {
        ScanFindsActive(active, lastScanIdx);
        dev := PickActive(active);
      }
    }

    /** What the tests of the devices in the first `n` slots say to `rs`. */
    ghost function Actives(rs: seq<Revents>, n: nat): (active: seq<bool>)
      requires AllInRange(entries) && |rs| == MAX_DEVICES && n <= MAX_DEVICES
      reads this`entries, Owners(entries)
      ensures |active| == n
      ensures forall p :: 0 <= p < n ==> (active[p] <==> p < |entries| && IsActive(entries[p].dev, rs))
    {
      if n == 0 then []
      else Actives(rs, n - 1) + [n - 1 < |entries| && IsActive(entries[n - 1].dev, rs)]
    }

    /** What `poll` reports, and who is active then. */
    method SetRevents(rs: seq<Revents>) returns (ghost active: seq<bool>)
      requires Scannable() && |rs| == MAX_DEVICES
      modifies revents
      ensures Scannable() && Tests(entries) == old(Tests(entries)) && revents[..] == rs
      ensures AreActive(entries, active, rs) && Testable(Tests(entries)) && Answered(Tests(entries), active, rs)
    {
      forall p | 0 <= p < MAX_DEVICES {
        revents[p] := rs[p];
      }
      active := Actives(rs, MAX_DEVICES);
    }

    /** What `GetActiveDev` does when `poll` has reported something. */
    method Choose(rs: seq<Revents>, ghost active: seq<bool>) returns (dev: PollDev?)
      requires Scannable() && revents[..] == rs && AreActive(entries, active, rs)
      modifies this`lastScanIdx, this`devChangeFlag
      ensures Scannable() && Tests(entries) == old(Tests(entries)) && old(lastScanIdx) <= MAX_DEVICES
      ensures lastScanIdx == Scan(active, old(lastScanIdx)).1
      ensures Serves(entries, Scan(active, old(lastScanIdx)).0, dev)
      ensures AllLead(entries, Tests(entries)) ==> Picked(entries, rs, dev)
    {
      dev := GetActiveDev(1, active);
    }

    /** One wait: `poll` reports `rs`, and a device is picked. */
    method PollOnce(rs: seq<Revents>) returns (dev: PollDev?, ghost active: seq<bool>)
      requires Scannable() && |rs| == MAX_DEVICES
      modifies this`lastScanIdx, this`devChangeFlag, revents
      ensures Scannable() && Tests(entries) == old(Tests(entries)) && Testable(Tests(entries))
      ensures Wait(entries, Tests(entries), rs, active, old(lastScanIdx), lastScanIdx, dev)
      ensures AllLead(entries, Tests(entries)) ==> Picked(entries, rs, dev)
    {
      active := SetRevents(rs);
      dev := Choose(rs, active);
    }

    /** A rebuild after which all indexes are sound. */
    method RebuildSound(devs: seq<PollDev>, ghost before: seq<Indexes>)
      requires Valid() && devChangeFlag && Distinct(devs)
      requires |before| == |devs| && forall i :: 0 <= i < |devs| ==> before[i] == devs[i].Idxs() && InRange(before[i])
      requires AllSound(devs, before)
      modifies this`activeDevCount, this`devChangeFlag, this`entries, fds, revents, devStructArray
      modifies (set d | d in devs)`evtIdx, (set d | d in devs)`fdsTimerIdx
      modifies (set d | d in devs)`fdsTableTimerIdx, (set d | d in devs)`fdsIdx
      ensures Scannable() && AllLead(entries, Tests(entries)) && entries == Fitting(WantAll(devs))
    {
      InitPollFds(devs, before);
      AllLeadAfterRebuild(devs, entries, before);
    }

    /**
     A rebuild and a wait behind it: with sound indexes a device is picked exactly when one of the first 32
     open descriptors of the list has something to wake its device for, and it is one of those devices.
     */
    method PollAfterRebuild(devs: seq<PollDev>, ghost before: seq<Indexes>, rs: seq<Revents>) returns (dev: PollDev?)
      requires Valid() && devChangeFlag && Distinct(devs) && |rs| == MAX_DEVICES
      requires |before| == |devs| && forall i :: 0 <= i < |devs| ==> before[i] == devs[i].Idxs() && InRange(before[i])
      requires AllSound(devs, before)
      modifies this`activeDevCount, this`devChangeFlag, this`entries, this`lastScanIdx, fds, revents, devStructArray
      modifies (set d | d in devs)`evtIdx, (set d | d in devs)`fdsTimerIdx
      modifies (set d | d in devs)`fdsTableTimerIdx, (set d | d in devs)`fdsIdx
      ensures var all := WantAll(devs);
              var es := all[..Min(|all|, 32)];
              Scannable() && entries == es && Picked(es, rs, dev)
    {
      ghost var es, active := Fitting(WantAll(devs)), [];
      RebuildSound(devs, before);
      assert entries == es;
      dev, active := PollOnce(rs);
    }

    /**
     Waits again and again, while the table stays as it is: a registered device whose own test holds every
     time is served within `MAX_DEVICES` waits.
     */
    method PollRepeatedly(polls: seq<seq<Revents>>) returns (served: seq<PollDev?>)
      requires Scannable() && WholePolls(polls)
      modifies this`lastScanIdx, this`devChangeFlag, revents
      ensures Scannable() && Tests(entries) == old(Tests(entries)) && Testable(Tests(entries))
      ensures |served| == |polls|
      ensures |polls| >= 32 ==> NobodyStarves(entries, Tests(entries), polls, served)
      ensures |polls| >= 32 && AllLead(entries, Tests(entries)) ==> NobodyWaits(entries, polls, served)
    {
      ghost var es, ts := entries, Tests(entries);
      ghost var actives: seq<seq<bool>>, lasts: seq<nat> := [], [lastScanIdx];
      served := [];
      while |served| < |polls|
        invariant Scannable() && Tests(entries) == ts && Testable(ts)
        invariant Waited(es, ts, polls, actives, lasts, served) && lasts[|served|] == lastScanIdx
      {
        var dev: PollDev?;
        ghost var active: seq<bool>;
        dev, active := PollOnce(polls[|served|]);
        WaitedOnceMore(es, ts, polls, actives, lasts, served, active, lastScanIdx, dev);
        actives, lasts, served := actives + [active], lasts + [lastScanIdx], served + [dev];
      }
      if |polls| >= MAX_DEVICES {
        WaitersAreServed(es, ts, polls, actives, lasts, served);
        WokenAreServed(es, polls, served);
      }
    }
  }

  // ---- What the index fields are good for ----

  /** Which descriptors of a device are open. */
  ghost function Shape(d: PollDev): Open
    reads d`evtFd, d`timerFd, d`tableTimerFd, d`devFd
  {
    Open(d.evtFd != INVALID_FD, d.timerFd != INVALID_FD, d.tableTimerFd != INVALID_FD, d.devFd != INVALID_FD)
  }

  ghost function Shapes(devs: seq<PollDev>): (opens: seq<Open>)
    reads (set d | d in devs)`evtFd, (set d | d in devs)`timerFd
    reads (set d | d in devs)`tableTimerFd, (set d | d in devs)`devFd
    ensures |opens| == |devs|
  {
    if devs == [] then [] else Shapes(devs[..|devs| - 1]) + [Shape(devs[|devs| - 1])]
  }

  lemma {:induction false} ShapesOfFirst(devs: seq<PollDev>, i: nat)
    requires i < |devs|
    ensures Shapes(devs)[i] == Shape(devs[i]) && Shapes(devs)[..i] == Shapes(devs[..i])
    decreases |devs|
  {
    var n := |devs| - 1;
    if i < n {
      ShapesOfFirst(devs[..n], i);
      assert devs[..n][..i] == devs[..i];
    }
  }

  lemma {:induction false} WantTotal(devs: seq<PollDev>)
    ensures |WantAll(devs)| == Total(Shapes(devs))
    decreases |devs|
  {
    if devs != [] {
      var n := |devs| - 1;
      WantTotal(devs[..n]);
      assert Shapes(devs)[..n] == Shapes(devs[..n]);
    }
  }

  lemma PlaceIs(devs: seq<PollDev>, i: nat, k: Kind)
    requires i < |devs|
    ensures Place(Shapes(devs), i, k) == |WantAll(devs[..i])| + Shape(devs[i]).Before(k)
  {
    ShapesOfFirst(devs, i);
    WantTotal(devs[..i]);
  }

  lemma PlaceInPrefix(devs: seq<PollDev>, i: nat, k: Kind)
    requires i < |devs| - 1
    ensures Place(Shapes(devs), i, k) == Place(Shapes(devs[..|devs| - 1]), i, k)
  {
    PlaceIs(devs, i, k);
    PlaceIs(devs[..|devs| - 1], i, k);
    assert devs[..|devs| - 1][..i] == devs[..i];
  }

  /** An open descriptor's entry stands at its place. */
  lemma {:induction false} EntryIsAt(devs: seq<PollDev>, i: nat, k: Kind)
    requires i < |devs| && devs[i].Fd(k) != INVALID_FD
    ensures Place(Shapes(devs), i, k) < |WantAll(devs)|
    ensures WantAll(devs)[Place(Shapes(devs), i, k)] == Entry(devs[i], k, devs[i].Fd(k))
    decreases |devs|
  {
    var n := |devs| - 1;
    if i < n {
      EntryIsAt(devs[..n], i, k);
      PlaceInPrefix(devs, i, k);
    } else {
      PlaceIs(devs, i, k);
      EntryInDevice(WantAll(devs[..n]), devs[i], k);
    }
  }

  lemma EntryInDevice(es: seq<Entry>, d: PollDev, k: Kind)
    requires d.Fd(k) != INVALID_FD
    ensures var p := |es| + Shape(d).Before(k);
            p < |WithDevice(es, d)| && WithDevice(es, d)[p] == Entry(d, k, d.Fd(k))
  {
  }

  /** And nowhere else. */
  lemma {:induction false} EntryOnlyAt(devs: seq<PollDev>, i: nat, k: Kind, p: nat)
    requires Distinct(devs) && i < |devs| && p < |WantAll(devs)| && IsFor(WantAll(devs)[p], devs[i], k)
    ensures p == Place(Shapes(devs), i, k)
    decreases |devs|
  {
    var n := |devs| - 1;
    if p < |WantAll(devs[..n])| {
      WantAllOnly(devs[..n], p);
      EntryOnlyAt(devs[..n], i, k, p);
      PlaceInPrefix(devs, i, k);
    } else {
      OnlyInDevice(WantAll(devs[..n]), devs[n], devs[i], k, p);
      PlaceIs(devs, n, k);
    }
  }

  lemma OnlyInDevice(es: seq<Entry>, d: PollDev, owner: PollDev, k: Kind, p: nat)
    requires |es| <= p < |WithDevice(es, d)| && IsFor(WithDevice(es, d)[p], owner, k)
    ensures owner == d && p == |es| + Shape(d).Before(k)
  {
  }

  /** So no two open descriptors have the same place. */
  lemma PlacesAreDistinct(devs: seq<PollDev>, i: nat, k: Kind, j: nat, l: Kind)
    requires Distinct(devs) && i < |devs| && j < |devs|
    requires devs[i].Fd(k) != INVALID_FD && devs[j].Fd(l) != INVALID_FD
    requires Place(Shapes(devs), i, k) == Place(Shapes(devs), j, l)
    ensures i == j && k == l
  {
    EntryIsAt(devs, i, k);
    EntryIsAt(devs, j, l);
  }

  /** A rebuild gives an open descriptor that fits its place as index, and leaves every other index as it was. */
  lemma IndexAfterRebuild(devs: seq<PollDev>, i: nat, k: Kind, idx: int, before: int)
    requires Distinct(devs) && i < |devs| && IdxTells(Fitting(WantAll(devs)), devs[i], k, idx, before)
    ensures idx == IdxAfter(Shapes(devs), i, k, before)
  {
    var es, place := Fitting(WantAll(devs)), Place(Shapes(devs), i, k);
    ShapesOfFirst(devs, i);
    if devs[i].Fd(k) != INVALID_FD {
      EntryIsAt(devs, i, k);
      if place < MAX_DEVICES {
        assert IsFor(es[place], devs[i], k);
      }
    }
    if !Shape(devs[i]).Has(k) || place >= MAX_DEVICES {
      forall p | 0 <= p < |es| ensures !IsFor(es[p], devs[i], k) {
        WantAllOnly(devs, p);
        if IsFor(es[p], devs[i], k) {
          EntryOnlyAt(devs, i, k, p);
        }
      }
    }
  }

  /** What `InitPollFds` promises of the indexes of a list of devices. */
  ghost predicate AllTell(devs: seq<PollDev>, now: seq<Indexes>, before: seq<Indexes>)
    requires |devs| == |now| == |before|
    reads (set d | d in devs)`evtFd, (set d | d in devs)`timerFd
    reads (set d | d in devs)`tableTimerFd, (set d | d in devs)`devFd
  {
    forall i :: 0 <= i < |devs| ==> IdxsTell(Fitting(WantAll(devs)), devs[i], now[i], before[i])
  }

  /** The rebuild on the devices is the one that `PollRuns` follows over whole runs. */
  lemma RebuildRefines(devs: seq<PollDev>, now: seq<Indexes>, before: seq<Indexes>)
    requires Distinct(devs) && |devs| == |now| == |before| && AllTell(devs, now, before)
    ensures World(Shapes(devs), now) == Rebuilt(World(Shapes(devs), before))
  {
    forall i | 0 <= i < |devs| ensures now[i] == IdxsAfter(Shapes(devs), i, before[i]) {
      forall k ensures now[i].Get(k) == IdxAfter(Shapes(devs), i, k, before[i].Get(k)) {
        IndexAfterRebuild(devs, i, k, now[i].Get(k), before[i].Get(k));
      }
      assert now[i].Get(EvtFd) == now[i].evt && now[i].Get(TimerFd) == now[i].timer;
      assert now[i].Get(TableTimerFd) == now[i].tableTimer && now[i].Get(DevFd) == now[i].dev;
    }
  }

  /** Soundness means: unset, or leading to the entry of one's own descriptor. */
  lemma SoundLeadsToOwnEntry(devs: seq<PollDev>, idxs: seq<Indexes>, i: nat, k: Kind)
    requires Distinct(devs) && i < |devs| == |idxs|
    ensures var es, idx := Fitting(WantAll(devs)), idxs[i].Get(k);
            Sound(World(Shapes(devs), idxs), i, k) <==>
            idx == NO_FDS_IDX || (0 <= idx < |es| && IsFor(es[idx], devs[i], k))
  {
    var es, idx := Fitting(WantAll(devs)), idxs[i].Get(k);
    ShapesOfFirst(devs, i);
    if devs[i].Fd(k) != INVALID_FD {
      EntryIsAt(devs, i, k);
    }
    if 0 <= idx < |es| && IsFor(es[idx], devs[i], k) {
      WantAllOnly(devs, idx);
      EntryOnlyAt(devs, i, k, idx);
    }
  }

  /** Every slot in use is the place, and after a rebuild the index, of an open descriptor. */
  lemma EverySlotIsIndexed(devs: seq<PollDev>, now: seq<Indexes>, before: seq<Indexes>, p: nat)
    requires Distinct(devs) && |devs| == |now| == |before| && AllTell(devs, now, before)
    requires p < |Fitting(WantAll(devs))|
    ensures exists i: nat, k :: i < |devs| && Shapes(devs)[i].Has(k) && Place(Shapes(devs), i, k) == p == now[i].Get(k)
  {
    WantAllOnly(devs, p);
    var e := WantAll(devs)[p];
    var i :| 0 <= i < |devs| && devs[i] == e.dev;
    ShapesOfFirst(devs, i);
    EntryOnlyAt(devs, i, e.kind, p);
    IndexAfterRebuild(devs, i, e.kind, now[i].Get(e.kind), before[i].Get(e.kind));
  }

  /** After a rebuild the indexes of a device lead where they should exactly when all of them are sound. */
  lemma LeadsExactlyWhen(devs: seq<PollDev>, now: seq<Indexes>, before: seq<Indexes>, i: nat)
    requires Distinct(devs) && i < |devs| == |now| == |before| && AllTell(devs, now, before)
    requires now[i] == devs[i].Idxs()
    ensures Leads(Fitting(WantAll(devs)), devs[i], now[i]) <==>
      forall k :: (devs[i].Fd(k) != INVALID_FD && Place(Shapes(devs), i, k) < 32) || before[i].Get(k) == NO_FDS_IDX
  {
    var es, d := Fitting(WantAll(devs)), devs[i];
    RebuildRefines(devs, now, before);
    ShapesOfFirst(devs, i);
    forall k ensures LeadsTo(es, d, k, d.Idxs().Get(k)) <==>
      (d.Fd(k) != INVALID_FD && Place(Shapes(devs), i, k) < 32) || before[i].Get(k) == NO_FDS_IDX
    {
      SoundLeadsToOwnEntry(devs, now, i, k);
      SoundExactlyWhen(PollRuns.World(Shapes(devs), before), i, k);
    }
    forall p | 0 <= p < |es| && es[p].dev == d ensures d.Idxs().Get(es[p].kind) == p {
      assert IdxTells(es, d, es[p].kind, now[i].Get(es[p].kind), before[i].Get(es[p].kind));
    }
  }

  /** Every index is going to be sound, by what is open and by what was set before. */
  ghost predicate AllSound(devs: seq<PollDev>, before: seq<Indexes>)
    requires |devs| == |before|
    reads (set d | d in devs)`evtFd, (set d | d in devs)`timerFd
    reads (set d | d in devs)`tableTimerFd, (set d | d in devs)`devFd
  {
    forall i, k :: 0 <= i < |devs| ==>
      (devs[i].Fd(k) != INVALID_FD && Place(Shapes(devs), i, k) < 32) || before[i].Get(k) == NO_FDS_IDX
  }

  lemma AllLeadAfterRebuild(devs: seq<PollDev>, es: seq<Entry>, before: seq<Indexes>)
    requires Distinct(devs) && |devs| == |before| && es == Fitting(WantAll(devs)) && AllSound(devs, before)
    requires forall i :: 0 <= i < |devs| ==> IdxsTell(es, devs[i], devs[i].Idxs(), before[i])
    ensures AllLead(es, Tests(es))
  {
    var now := NowIdxs(devs);
    forall p | 0 <= p < |es| ensures Leads(es, es[p].dev, Tests(es)[p].idxs) {
      WantAllOnly(devs, p);
      var i :| 0 <= i < |devs| && devs[i] == es[p].dev;
      LeadsExactlyWhen(devs, now, before, i);
    }
  }

  ghost function NowIdxs(devs: seq<PollDev>): (now: seq<Indexes>)
    reads devs
    ensures |now| == |devs| && forall i :: 0 <= i < |devs| ==> now[i] == devs[i].Idxs()
  {
    seq(|devs|, i requires 0 <= i < |devs| reads devs => devs[i].Idxs())
  }
}
