/** Where descriptors stand in the poll table, and what becomes of the devices' index fields over whole runs. */
module PollRuns {
  import opened RoundRobin

  const NO_FDS_IDX := -1

  /** A device's four descriptors, in the order in which they are entered. */
  datatype Kind = EvtFd | TimerFd | TableTimerFd | DevFd

  /** The four index fields of a device. */
  datatype Indexes = Indexes(evt: int, timer: int, tableTimer: int, dev: int) {
    function Get(k: Kind): int {
      match k
      case EvtFd => evt
      case TimerFd => timer
      case TableTimerFd => tableTimer
      case DevFd => dev
    }

    function Set(k: Kind, idx: int): Indexes {
      match k
      case EvtFd => this.(evt := idx)
      case TimerFd => this.(timer := idx)
      case TableTimerFd => this.(tableTimer := idx)
      case DevFd => this.(dev := idx)
    }
  }

  const NO_INDEXES := Indexes(NO_FDS_IDX, NO_FDS_IDX, NO_FDS_IDX, NO_FDS_IDX)

  /** Which descriptors of a device are open. */
  datatype Open = Open(evt: bool, timer: bool, tableTimer: bool, dev: bool) {
    predicate Has(k: Kind) {
      match k
      case EvtFd => evt
      case TimerFd => timer
      case TableTimerFd => tableTimer
      case DevFd => dev
    }

    function With(k: Kind, open: bool): Open {
      match k
      case EvtFd => this.(evt := open)
      case TimerFd => this.(timer := open)
      case TableTimerFd => this.(tableTimer := open)
      case DevFd => this.(dev := open)
    }

    /** How many open descriptors come before `k`. */
    function Before(k: Kind): nat {
      match k
      case EvtFd => 0
      case TimerFd => One(evt)
      case TableTimerFd => One(evt) + One(timer)
      case DevFd => One(evt) + One(timer) + One(tableTimer)
    }

    function Count(): nat {
      Before(DevFd) + One(dev)
    }
  }

  function One(b: bool): nat {
    if b then 1 else 0
  }

  /** How many descriptors a list of devices has open. */
  function Total(opens: seq<Open>): nat {
    if opens == [] then 0 else Total(opens[..|opens| - 1]) + opens[|opens| - 1].Count()
  }

  /** How many open descriptors stand before descriptor `k` of device `i`. */
  function Place(opens: seq<Open>, i: nat, k: Kind): nat
    requires i < |opens|
  {
    Total(opens[..i]) + opens[i].Before(k)
  }

  /** The index a rebuild leaves: the place of a descriptor that is open and fits, or what was there before. */
  function IdxAfter(opens: seq<Open>, i: nat, k: Kind, before: int): int
    requires i < |opens|
  {
    if opens[i].Has(k) && Place(opens, i, k) < MAX_DEVICES then Place(opens, i, k) else before
  }

  function IdxsAfter(opens: seq<Open>, i: nat, before: Indexes): Indexes
    requires i < |opens|
  {
    Indexes(
      IdxAfter(opens, i, EvtFd, before.evt),
      IdxAfter(opens, i, TimerFd, before.timer),
      IdxAfter(opens, i, TableTimerFd, before.tableTimer),
      IdxAfter(opens, i, DevFd, before.dev))
  }

  // ---- Runs ----

  /** The device list: what each device has open, and its index fields. */
  datatype World = World(opens: seq<Open>, idxs: seq<Indexes>)

  const EMPTY := World([], [])

  datatype Action =
    | Append(open: Open)
    | Unlink(dev: nat)
    | Change(dev: nat, kind: Kind, value: bool)
    | Rebuild

  function Rebuilt(w: World): (t: World)
    requires |w.opens| == |w.idxs|
    ensures t.opens == w.opens && |t.idxs| == |w.idxs|
  {
    World(w.opens, seq(|w.opens|, i requires 0 <= i < |w.opens| => IdxsAfter(w.opens, i, w.idxs[i])))
  }

  /** `insque` appends, `remque` takes out; a descriptor can be opened or closed while its device is linked. */
  function Step(w: World, a: Action): (t: World)
    requires |w.opens| == |w.idxs|
    ensures |t.opens| == |t.idxs|
  {
    match a
    case Append(open) => World(w.opens + [open], w.idxs + [NO_INDEXES])
    case Unlink(i) =>
      if i < |w.opens| then World(w.opens[..i] + w.opens[i + 1..], w.idxs[..i] + w.idxs[i + 1..]) else w
    case Change(i, k, open) =>
      if i < |w.opens| then w.(opens := w.opens[i := w.opens[i].With(k, open)]) else w
    case Rebuild => Rebuilt(w)
  }

  function Run(w: World, actions: seq<Action>): (t: World)
    requires |w.opens| == |w.idxs|
    ensures |t.opens| == |t.idxs|
    decreases |actions|
  {
    if actions == [] then w else Run(Step(w, actions[0]), actions[1..])
  }

  /** Right after a rebuild: an index is unset, or it is the place of its own descriptor, which is open. */
  predicate Sound(w: World, i: nat, k: Kind)
    requires i < |w.opens| == |w.idxs|
  {
    var idx := w.idxs[i].Get(k);
    idx == NO_FDS_IDX || (w.opens[i].Has(k) && idx == Place(w.opens, i, k) < MAX_DEVICES)
  }

  /** An index is sound after a rebuild exactly when its descriptor is open and fits, or it was unset before. */
  lemma SoundExactlyWhen(w: World, i: nat, k: Kind)
    requires i < |w.opens| == |w.idxs|
    ensures Sound(Rebuilt(w), i, k) <==>
      (w.opens[i].Has(k) && Place(w.opens, i, k) < MAX_DEVICES) || w.idxs[i].Get(k) == NO_FDS_IDX
  {
    assert Rebuilt(w).idxs[i].Get(k) == IdxAfter(w.opens, i, k, w.idxs[i].Get(k));
  }

  // ---- As long as descriptors stay as they are ----

  /** What is indexed is open, and does not stand behind its index. */
  ghost predicate Steady(w: World) {
    |w.opens| == |w.idxs| && forall i, k :: 0 <= i < |w.opens| ==> SteadyAt(w, i, k)
  }

  predicate SteadyAt(w: World, i: nat, k: Kind)
    requires i < |w.opens| == |w.idxs|
  {
    var idx := w.idxs[i].Get(k);
    idx == NO_FDS_IDX || (w.opens[i].Has(k) && Place(w.opens, i, k) <= idx < MAX_DEVICES)
  }

  predicate Fixed(actions: seq<Action>) {
    forall n :: 0 <= n < |actions| ==> !actions[n].Change?
  }

  lemma {:induction false} TotalOfConcat(a: seq<Open>, b: seq<Open>)
    ensures Total(a + b) == Total(a) + Total(b)
  {
    if b == [] {
      assert a + b == a;
    } else {
      assert (a + b)[..|a + b| - 1] == a + b[..|b| - 1];
      TotalOfConcat(a, b[..|b| - 1]);
    }
  }

  /** Taking a device out moves what is behind it forward by what it had open. */
  lemma PlaceWithout(opens: seq<Open>, j: nat, i: nat, k: Kind)
    requires j < |opens| && i < |opens| - 1
    ensures var rest := opens[..j] + opens[j + 1..];
            if i < j then rest[i] == opens[i] && Place(rest, i, k) == Place(opens, i, k)
            else rest[i] == opens[i + 1] && Place(rest, i, k) <= Place(opens, i + 1, k)
  {
    var rest := opens[..j] + opens[j + 1..];
    if i < j {
      assert rest[..i] == opens[..i];
    } else {
      assert rest[..i] == opens[..j] + opens[j + 1..i + 1];
      assert opens[..i + 1] == opens[..j] + ([opens[j]] + opens[j + 1..i + 1]);
      TotalOfConcat(opens[..j], opens[j + 1..i + 1]);
      TotalOfConcat(opens[..j], [opens[j]] + opens[j + 1..i + 1]);
      TotalOfConcat([opens[j]], opens[j + 1..i + 1]);
    }
  }

  lemma UnlinkKeepsSteady(w: World, j: nat)
    requires Steady(w) && j < |w.opens|
    ensures Steady(Step(w, Unlink(j)))
  {
    var t := Step(w, Unlink(j));
    forall i, k | 0 <= i < |t.opens| ensures SteadyAt(t, i, k) {
      PlaceWithout(w.opens, j, i, k);
      assert SteadyAt(w, if i < j then i else i + 1, k);
    }
  }

  lemma AppendKeepsSteady(w: World, open: Open)
    requires Steady(w)
    ensures Steady(Step(w, Append(open)))
  {
    var t := Step(w, Append(open));
    forall i, k | 0 <= i < |t.opens| ensures SteadyAt(t, i, k) {
      if i < |w.opens| {
        assert t.opens[..i] == w.opens[..i];
        assert SteadyAt(w, i, k);
      } else {
        assert t.idxs[i] == NO_INDEXES && NO_INDEXES.Get(k) == NO_FDS_IDX;
      }
    }
  }

  lemma RebuildKeepsSteady(w: World)
    requires Steady(w)
    ensures Steady(Rebuilt(w))
    ensures forall i, k :: 0 <= i < |w.opens| ==> Sound(Rebuilt(w), i, k)
  {
    var t := Rebuilt(w);
    forall i, k | 0 <= i < |w.opens| ensures SteadyAt(t, i, k) && Sound(t, i, k) {
      assert SteadyAt(w, i, k);
      assert t.idxs[i].Get(k) == IdxAfter(w.opens, i, k, w.idxs[i].Get(k));
    }
  }

  lemma {:induction false} FixedRunsStaySteady(w: World, actions: seq<Action>)
    requires Steady(w) && Fixed(actions)
    ensures Steady(Run(w, actions))
    decreases |actions|
  {
    if actions != [] {
      match actions[0] {
        case Append(open) => AppendKeepsSteady(w, open);
        case Unlink(i) =>
          if i < |w.opens| {
            UnlinkKeepsSteady(w, i);
          }
        case Change(_, _, _) => assert false;
        case Rebuild => RebuildKeepsSteady(w);
      }
      FixedRunsStaySteady(Step(w, actions[0]), actions[1..]);
    }
  }

  /**
   Over every run of appending, unlinking and rebuilding in which no descriptor is opened or closed while
   its device is linked, every index is sound after every rebuild, however many descriptors there are.
   */
  lemma FixedRunsStaySound(actions: seq<Action>, i: nat, k: Kind)
    requires Fixed(actions) && i < |Run(EMPTY, actions).opens|
    ensures Sound(Rebuilt(Run(EMPTY, actions)), i, k)
  {
    FixedRunsStaySteady(EMPTY, actions);
    RebuildKeepsSteady(Run(EMPTY, actions));
  }

  // ---- When a descriptor changes ----

  /** Opening a descriptor pushes the ones behind it on by one. */
  lemma PlaceAfterOpening(opens: seq<Open>, j: nat, l: Kind, i: nat, k: Kind)
    requires j < i < |opens| && !opens[j].Has(l)
    ensures Place(opens[j := opens[j].With(l, true)], i, k) == Place(opens, i, k) + 1
  {
    var was, now := opens[j], opens[j].With(l, true);
    var t := opens[j := now];
    assert opens[..i] == opens[..j] + ([was] + opens[j + 1..i]);
    assert t[..i] == opens[..j] + ([now] + opens[j + 1..i]);
    TotalOfConcat(opens[..j], [was] + opens[j + 1..i]);
    TotalOfConcat([was], opens[j + 1..i]);
    TotalOfConcat(opens[..j], [now] + opens[j + 1..i]);
    TotalOfConcat([now], opens[j + 1..i]);
    assert [was][..0] == [] && [now][..0] == [];
  }

  /** A descriptor in the last slot loses it when one before it is opened; its index keeps saying it has it. */
  lemma OpeningLeavesStale(w: World, j: nat, l: Kind, i: nat, k: Kind)
    requires |w.opens| == |w.idxs| && j < i < |w.opens| && !w.opens[j].Has(l)
    requires w.opens[i].Has(k) && Place(w.opens, i, k) == MAX_DEVICES - 1
    ensures Sound(Rebuilt(w), i, k)
    ensures var t := Run(w, [Rebuild, Change(j, l, true), Rebuild]);
            && |t.opens| == |w.opens| && t.idxs[i].Get(k) == MAX_DEVICES - 1
            && Place(t.opens, i, k) == MAX_DEVICES && !Sound(t, i, k)
  {
    var r := Rebuilt(w);
    SoundExactlyWhen(w, i, k);
    assert r.idxs[i].Get(k) == MAX_DEVICES - 1;
    PlaceAfterOpening(w.opens, j, l, i, k);
    var c := Step(r, Change(j, l, true));
    SoundExactlyWhen(c, i, k);
    assert Rebuilt(c).idxs[i].Get(k) == IdxAfter(c.opens, i, k, c.idxs[i].Get(k));
    RunThree(w, Rebuild, Change(j, l, true), Rebuild);
  }

  /** A descriptor that had a slot and is closed keeps its index as well. */
  lemma ClosingLeavesStale(w: World, i: nat, k: Kind)
    requires i < |w.opens| == |w.idxs| && w.opens[i].Has(k) && Place(w.opens, i, k) < MAX_DEVICES
    ensures var t := Run(w, [Rebuild, Change(i, k, false), Rebuild]);
            && |t.opens| == |w.opens| && t.idxs[i].Get(k) == Place(w.opens, i, k) && !Sound(t, i, k)
  {
    var r := Rebuilt(w);
    assert r.idxs[i].Get(k) == Place(w.opens, i, k);
    var c := Step(r, Change(i, k, false));
    assert c.opens[i] == w.opens[i].With(k, false);
    SoundExactlyWhen(c, i, k);
    assert Rebuilt(c).idxs[i].Get(k) == IdxAfter(c.opens, i, k, c.idxs[i].Get(k));
    RunThree(w, Rebuild, Change(i, k, false), Rebuild);
  }

  lemma RunFirst(w: World, a: Action, rest: seq<Action>)
    requires |w.opens| == |w.idxs|
    ensures Run(w, [a] + rest) == Run(Step(w, a), rest)
  {
    assert ([a] + rest)[1..] == rest;
  }

  lemma RunThree(w: World, a: Action, b: Action, c: Action)
    requires |w.opens| == |w.idxs|
    ensures Run(w, [a, b, c]) == Step(Step(Step(w, a), b), c)
  {
    assert [a, b, c] == [a] + ([b] + ([c] + []));
    RunFirst(w, a, [b] + ([c] + []));
    RunFirst(Step(w, a), b, [c] + []);
    RunFirst(Step(Step(w, a), b), c, []);
  }

  /** Event, timer and socket; and the same without the timer. */
  const SERVER := Open(true, true, false, true)
  const WITHOUT_TIMER := Open(true, false, false, true)

  function Servers(n: nat): seq<Open> {
    seq(n, _ => SERVER)
  }

  lemma {:induction false} TotalOfServers(n: nat)
    ensures Total(Servers(n)) == 3 * n
  {
    if n > 0 {
      assert Servers(n)[..n - 1] == Servers(n - 1);
      TotalOfServers(n - 1);
    }
  }

  function Appends(opens: seq<Open>): seq<Action> {
    seq(|opens|, i requires 0 <= i < |opens| => Append(opens[i]))
  }

  lemma {:induction false} RunOfAppends(w: World, opens: seq<Open>)
    requires |w.opens| == |w.idxs|
    ensures Run(w, Appends(opens)).opens == w.opens + opens
    decreases |opens|
  {
    if opens == [] {
      assert w.opens + [] == w.opens;
    } else {
      assert Appends(opens)[1..] == Appends(opens[1..]);
      RunOfAppends(Step(w, Append(opens[0])), opens[1..]);
      assert w.opens + [opens[0]] + opens[1..] == w.opens + opens;
    }
  }

  /**
   A run that leaves a stale index: eleven devices fill the table, the first without its timer; when that
   one gets its timer after all, the socket of the last device loses slot 31 and still points there.
   */
  lemma StaleIndexRun()
    ensures var w := Run(EMPTY, Appends([WITHOUT_TIMER] + Servers(10)));
            && w.opens == [WITHOUT_TIMER] + Servers(10) && Sound(Rebuilt(w), 10, DevFd)
            && var t := Run(w, [Rebuild, Change(0, TimerFd, true), Rebuild]);
               |t.opens| == 11 && t.idxs[10].dev == MAX_DEVICES - 1 && !Sound(t, 10, DevFd)
  {
    var opens := [WITHOUT_TIMER] + Servers(10);
    var w := Run(EMPTY, Appends(opens));
    RunOfAppends(EMPTY, opens);
    assert w.opens == opens;
    PlaceOfLastServer();
    OpeningLeavesStale(w, 0, TimerFd, 10, DevFd);
  }

  lemma PlaceOfLastServer()
    ensures Place([WITHOUT_TIMER] + Servers(10), 10, DevFd) == MAX_DEVICES - 1
  {
    var opens := [WITHOUT_TIMER] + Servers(10);
    assert opens[..10] == [WITHOUT_TIMER] + Servers(9);
    TotalOfConcat([WITHOUT_TIMER], Servers(9));
    TotalOfServers(9);
    assert [WITHOUT_TIMER][..0] == [];
    assert Total([WITHOUT_TIMER]) == 2;
  }
}
