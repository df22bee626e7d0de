/** The keepalive protocol on the device list, as a function of what happened to it. */
module NodeTable {
  import opened Common

  datatype DevType = TcpConnSrv | TcpCmdSrv | Hello | Serial | TcpCmdClient

  datatype Dev = Dev(devType: DevType, address: nat, pingCount: nat, activeCount: nat)

  const HELLO_NODE_LIMIT := 5

  /** The device list, first to last, and the counters. */
  datatype Table = Table(
    devs: seq<Dev>, nodesAdded: nat, nodesDeletedFromTimer: nat, nodesDeletedFromError: nat, changed: bool)

  /**
   A hello packet, a timer tick, or a client socket's end.  `connected` says whether making a client
   for a new node reports success, which it also does when it gets no socket to connect with.
   */
  datatype Event = HelloFrom(address: nat, connected: bool) | Tick | ClientClosed(address: nat)

  // ---- What each event does ----

  predicate IsClient(d: Dev, address: nat) {
    d.devType == TcpCmdClient && d.address == address
  }

  /** Index of the first client with this address, `|devs|` when there is none. */
  function Find(devs: seq<Dev>, address: nat): (i: nat)
    ensures i <= |devs|
    ensures i < |devs| ==> IsClient(devs[i], address)
    ensures forall j :: 0 <= j < i ==> !IsClient(devs[j], address)
  {
    if devs == [] || IsClient(devs[0], address) then 0 else 1 + Find(devs[1..], address)
  }

  function Refreshed(d: Dev): Dev {
    d.(pingCount := d.pingCount + 1, activeCount := 0)
  }

  function Aged(d: Dev): Dev {
    d.(activeCount := d.activeCount + 1)
  }

  predicate Expires(d: Dev) {
    d.devType == TcpCmdClient && Aged(d).activeCount > HELLO_NODE_LIMIT
  }

  /** One tick: clients age, those that get too old go, and everything else stays, in order. */
  function Survivors(devs: seq<Dev>): seq<Dev> {
    if devs == [] then []
    else (if devs[0].devType != TcpCmdClient then [devs[0]] else if Expires(devs[0]) then [] else [Aged(devs[0])])
         + Survivors(devs[1..])
  }

  function Expired(devs: seq<Dev>): nat {
    if devs == [] then 0 else (if Expires(devs[0]) then 1 else 0) + Expired(devs[1..])
  }

  function Apply(t: Table, myIpAddr: nat, e: Event): Table {
    match e
    case HelloFrom(address, connected) =>
      var i := Find(t.devs, address);
      if address == myIpAddr then t
      else if i < |t.devs| then t.(devs := t.devs[i := Refreshed(t.devs[i])])
      else t.(devs := t.devs + [Dev(TcpCmdClient, address, 0, 0)], nodesAdded := t.nodesAdded + 1,
              changed := t.changed || connected)
    case Tick =>
      t.(devs := Survivors(t.devs), nodesDeletedFromTimer := t.nodesDeletedFromTimer + Expired(t.devs),
         changed := t.changed || Expired(t.devs) > 0)
    case ClientClosed(address) =>
      var i := Find(t.devs, address);
      if i == |t.devs| then t
      else t.(devs := t.devs[..i] + t.devs[i + 1..], nodesDeletedFromError := t.nodesDeletedFromError + 1,
              changed := true)
  }

  /** The table after a history, newest event last. */
  function Run(t: Table, myIpAddr: nat, history: seq<Event>): Table {
    if history == [] then t
    else Apply(Run(t, myIpAddr, history[..|history| - 1]), myIpAddr, history[|history| - 1])
  }

  lemma RunOneMore(t: Table, myIpAddr: nat, history: seq<Event>, n: nat)
    requires n < |history|
    ensures Run(t, myIpAddr, history[..n + 1]) == Apply(Run(t, myIpAddr, history[..n]), myIpAddr, history[n])
  {
    assert history[..n + 1][..n] == history[..n];
  }

  // ---- What a history says about an address ----

  /** Position of the latest hello from `address`, -1 when there is none. */
  function LatestHello(history: seq<Event>, address: nat): int {
    if history == [] then -1
    else
      var last := |history| - 1;
      if history[last].HelloFrom? && history[last].address == address then last
      else LatestHello(history[..last], address)
  }

  /** Position of the latest end of the client for `address`, -1 when there is none. */
  function LatestClosed(history: seq<Event>, address: nat): int {
    if history == [] then -1
    else
      var last := |history| - 1;
      if history[last] == ClientClosed(address) then last else LatestClosed(history[..last], address)
  }

  /** Number of ticks behind position `from`. */
  function TicksAfter(history: seq<Event>, from: int): nat {
    if |history| - 1 <= from || history == [] then 0
    else TicksAfter(history[..|history| - 1], from) + (if history[|history| - 1] == Tick then 1 else 0)
  }

  /** The address has said hello since its client last ended, and not too long ago. */
  predicate Alive(history: seq<Event>, address: nat) {
    && LatestHello(history, address) > LatestClosed(history, address)
    && TicksAfter(history, LatestHello(history, address)) <= 5
  }

  // ---- Invariants over all histories ----

  /** Clients have different addresses, none of them our own, and none is too old. */
  predicate WellFormed(devs: seq<Dev>, myIpAddr: nat) {
    && (forall i, j :: 0 <= i < j < |devs| && devs[i].devType == devs[j].devType == TcpCmdClient ==>
          devs[i].address != devs[j].address)
    && (forall i :: 0 <= i < |devs| && devs[i].devType == TcpCmdClient ==>
          devs[i].address != myIpAddr && devs[i].activeCount <= HELLO_NODE_LIMIT)
  }

  function Clients(devs: seq<Dev>): nat {
    if devs == [] then 0 else (if devs[0].devType == TcpCmdClient then 1 else 0) + Clients(devs[1..])
  }

  /** The devices that are not clients, in order. */
  function Others(devs: seq<Dev>): seq<Dev> {
    if devs == [] then []
    else (if devs[0].devType == TcpCmdClient then [] else [devs[0]]) + Others(devs[1..])
  }

  lemma {:induction false} SurvivorsOfConcat(a: seq<Dev>, b: seq<Dev>)
    ensures Survivors(a + b) == Survivors(a) + Survivors(b)
    ensures Expired(a + b) == Expired(a) + Expired(b)
  {
    if a == [] {
      assert a + b == b;
    } else {
      assert (a + b)[1..] == a[1..] + b;
      SurvivorsOfConcat(a[1..], b);
    }
  }

  lemma {:induction false} CountsOfConcat(a: seq<Dev>, b: seq<Dev>)
    ensures Clients(a + b) == Clients(a) + Clients(b)
    ensures Others(a + b) == Others(a) + Others(b)
  {
    if a == [] {
      assert a + b == b;
    } else {
      assert (a + b)[1..] == a[1..] + b;
      CountsOfConcat(a[1..], b);
    }
  }

  /** Behind position `k` the tick goes on with device `k`, a client, and then with the others up to `next`. */
  lemma TickStepwise(devs: seq<Dev>, k: nat, next: nat)
    requires k < next <= |devs| && devs[k].devType == TcpCmdClient
    requires forall j :: k < j < next ==> devs[j].devType != TcpCmdClient
    ensures Survivors(devs[..next]) ==
            Survivors(devs[..k]) + (if Expires(devs[k]) then [] else [Aged(devs[k])]) + devs[k + 1..next]
    ensures Expired(devs[..next]) == Expired(devs[..k]) + (if Expires(devs[k]) then 1 else 0)
  {
    var one, others := [devs[k]], devs[k + 1..next];
    assert devs[..next] == devs[..k] + one + others;
    SurvivorsOfConcat(devs[..k] + one, others);
    SurvivorsOfConcat(devs[..k], one);
    OthersSurvive(others);
    assert one[1..] == [];
  }

  /** A tick in progress: everything before position `k` of `devs` is done, client `k` and what follows is not. */
  predicate TickedUpTo(devs: seq<Dev>, k: nat, now: seq<Dev>) {
    k <= |devs| && now == Survivors(devs[..k]) + devs[k..]
  }

  lemma TickedToEnd(devs: seq<Dev>, k: nat, now: seq<Dev>)
    requires TickedUpTo(devs, k, now) && k == |devs|
    ensures now == Survivors(devs) && devs[..k] == devs
  {
    assert devs[..k] == devs && devs[k..] == [];
  }

  lemma TickProgress(devs: seq<Dev>, k: nat, next: nat, now: seq<Dev>, now': seq<Dev>)
    requires TickedUpTo(devs, k, now)
    requires k < next <= |devs| && devs[k].devType == TcpCmdClient
    requires forall j :: k < j < next ==> devs[j].devType != TcpCmdClient
    requires var i := |Survivors(devs[..k])|;
             now' == if Expires(devs[k]) then now[..i] + now[i + 1..] else now[i := Aged(devs[k])]
    ensures TickedUpTo(devs, next, now')
    ensures |Survivors(devs[..next])| == |Survivors(devs[..k])| + next - k - (if Expires(devs[k]) then 1 else 0)
    ensures Expired(devs[..next]) == Expired(devs[..k]) + (if Expires(devs[k]) then 1 else 0)
  {
    TickStepwise(devs, k, next);
    var s, others := Survivors(devs[..k]), devs[k + 1..next];
    assert devs[k..] == [devs[k]] + (others + devs[next..]);
    ReplaceInside(s, devs[k], others, devs[next..], Aged(devs[k]));
  }

  lemma ReplaceInside<T>(s: seq<T>, x: T, others: seq<T>, tail: seq<T>, y: T)
    ensures var now := s + ([x] + (others + tail));
            && now[..|s|] + now[|s| + 1..] == s + [] + others + tail
            && now[|s| := y] == s + [y] + others + tail
  {
  }

  lemma {:induction false} OthersSurvive(devs: seq<Dev>)
    requires forall j :: 0 <= j < |devs| ==> devs[j].devType != TcpCmdClient
    ensures Survivors(devs) == devs && Expired(devs) == 0
  {
    if devs != [] {
      OthersSurvive(devs[1..]);
    }
  }

  /** Ticking loses exactly the expired clients and no other device. */
  lemma {:induction false} TickCounts(devs: seq<Dev>)
    ensures Clients(Survivors(devs)) + Expired(devs) == Clients(devs)
    ensures Others(Survivors(devs)) == Others(devs)
  {
    if devs != [] {
      TickCounts(devs[1..]);
      CountsOfConcat(Survivors(devs[..1]), Survivors(devs[1..]));
      SurvivorsOfConcat(devs[..1], devs[1..]);
      assert devs[..1] + devs[1..] == devs;
      assert devs[..1] == [devs[0]] && devs[..1][1..] == [];
    }
  }

  lemma {:induction false} TickKeepsWellFormed(devs: seq<Dev>, myIpAddr: nat)
    requires WellFormed(devs, myIpAddr)
    ensures WellFormed(Survivors(devs), myIpAddr)
    // no address appears that was not there
    ensures forall k :: 0 <= k < |Survivors(devs)| && Survivors(devs)[k].devType == TcpCmdClient ==>
      Find(devs, Survivors(devs)[k].address) < |devs|
  {
    if devs != [] {
      TickKeepsWellFormed(devs[1..], myIpAddr);
    }
  }

  /** What holds of the table between events. */
  predicate Inv(t: Table, myIpAddr: nat) {
    && WellFormed(t.devs, myIpAddr)
    && t.nodesAdded == Clients(t.devs) + t.nodesDeletedFromTimer + t.nodesDeletedFromError
  }

  lemma ReplacedOne(devs: seq<Dev>, i: nat, ds: seq<Dev>)
    requires i < |devs| && devs[i].devType == TcpCmdClient
    ensures Clients(devs[..i] + ds + devs[i + 1..]) == Clients(devs) - 1 + Clients(ds)
    ensures Others(ds) == [] ==> Others(devs[..i] + ds + devs[i + 1..]) == Others(devs)
  {
    var a, b := devs[..i], devs[i + 1..];
    assert devs == a + [devs[i]] + b;
    CountsOfConcat(a + [devs[i]], b);
    CountsOfConcat(a, [devs[i]]);
    CountsOfConcat(a + ds, b);
    CountsOfConcat(a, ds);
  }

  lemma RefreshKeepsInv(t: Table, myIpAddr: nat, i: nat)
    requires Inv(t, myIpAddr) && i < |t.devs| && t.devs[i].devType == TcpCmdClient
    ensures var t' := t.(devs := t.devs[i := Refreshed(t.devs[i])]);
            Inv(t', myIpAddr) && Others(t'.devs) == Others(t.devs)
  {
    var d := Refreshed(t.devs[i]);
    ReplacedOne(t.devs, i, [d]);
    assert [d][1..] == [] && Clients([d]) == 1 && Others([d]) == [];
    assert t.devs[i := d] == t.devs[..i] + [d] + t.devs[i + 1..];
  }

  lemma JoinKeepsInv(t: Table, myIpAddr: nat, address: nat, changed: bool)
    requires Inv(t, myIpAddr) && address != myIpAddr && Find(t.devs, address) == |t.devs|
    ensures var t' := t.(devs := t.devs + [Dev(TcpCmdClient, address, 0, 0)],
                         nodesAdded := t.nodesAdded + 1, changed := changed);
            Inv(t', myIpAddr) && Others(t'.devs) == Others(t.devs)
  {
    var d := Dev(TcpCmdClient, address, 0, 0);
    CountsOfConcat(t.devs, [d]);
    assert [d][1..] == [] && Clients([d]) == 1 && Others([d]) == [];
  }

  lemma HelloKeepsInv(t: Table, myIpAddr: nat, address: nat, connected: bool)
    requires Inv(t, myIpAddr)
    ensures var t' := Apply(t, myIpAddr, HelloFrom(address, connected));
            Inv(t', myIpAddr) && Others(t'.devs) == Others(t.devs)
  {
    var i := Find(t.devs, address);
    if address != myIpAddr {
      if i < |t.devs| {
        RefreshKeepsInv(t, myIpAddr, i);
      } else {
        JoinKeepsInv(t, myIpAddr, address, t.changed || connected);
      }
    }
  }

  lemma ClosedKeepsInv(t: Table, myIpAddr: nat, address: nat)
    requires Inv(t, myIpAddr)
    ensures var t' := Apply(t, myIpAddr, ClientClosed(address));
            Inv(t', myIpAddr) && Others(t'.devs) == Others(t.devs)
  {
    var i := Find(t.devs, address);
    if i < |t.devs| {
      ReplacedOne(t.devs, i, []);
      assert t.devs[..i] + [] + t.devs[i + 1..] == t.devs[..i] + t.devs[i + 1..];
    }
  }

  lemma ApplyKeepsInv(t: Table, myIpAddr: nat, e: Event)
    requires Inv(t, myIpAddr)
    ensures Inv(Apply(t, myIpAddr, e), myIpAddr)
    ensures Others(Apply(t, myIpAddr, e).devs) == Others(t.devs)
  {
    match e
    case HelloFrom(address, connected) => HelloKeepsInv(t, myIpAddr, address, connected);
    case Tick =>
      TickKeepsWellFormed(t.devs, myIpAddr);
      TickCounts(t.devs);
    case ClientClosed(address) => ClosedKeepsInv(t, myIpAddr, address);
  }

  /** Over every run: clients are distinct, not us, not too old, accounted for; other devices are left alone. */
  lemma {:induction false} RunKeepsInv(t: Table, myIpAddr: nat, history: seq<Event>)
    requires Inv(t, myIpAddr)
    ensures Inv(Run(t, myIpAddr, history), myIpAddr)
    ensures Others(Run(t, myIpAddr, history).devs) == Others(t.devs)
    decreases |history|
  {
    if history != [] {
      RunKeepsInv(t, myIpAddr, history[..|history| - 1]);
      ApplyKeepsInv(Run(t, myIpAddr, history[..|history| - 1]), myIpAddr, history[|history| - 1]);
    }
  }

  // ---- The table is a function of the history ----

  /** The age the table gives an address, if it lists it. */
  function AgeInTable(devs: seq<Dev>, address: nat): Option<nat> {
    var i := Find(devs, address);
    if i < |devs| then Some(devs[i].activeCount) else None
  }

  /** The ticks since the latest hello, unless the client ended since then. */
  function AgeInHistory(history: seq<Event>, address: nat): Option<nat> {
    var hello := LatestHello(history, address);
    if hello > LatestClosed(history, address) then Some(TicksAfter(history, hello)) else None
  }

  /** What one event does to the age of one address, in the table when `limited`, in the history when not. */
  function AgeAfter(age: Option<nat>, e: Event, address: nat, limited: bool): Option<nat> {
    match e
    case HelloFrom(a, _) => if a == address then Some(0) else age
    case ClientClosed(a) => if a == address then None else age
    case Tick =>
      match age
      case None => None
      case Some(n) => if limited && n + 1 > HELLO_NODE_LIMIT then None else Some(n + 1)
  }

  lemma {:induction false} LatestAreInside(history: seq<Event>, address: nat)
    ensures -1 <= LatestHello(history, address) < |history|
    ensures -1 <= LatestClosed(history, address) < |history|
    decreases |history|
  {
    if history != [] {
      LatestAreInside(history[..|history| - 1], address);
    }
  }

  lemma HistoryStep(history: seq<Event>, e: Event, address: nat)
    ensures AgeInHistory(history + [e], address) == AgeAfter(AgeInHistory(history, address), e, address, false)
  {
    LatestAreInside(history, address);
    assert (history + [e])[..|history|] == history;
  }

  lemma FindIs(devs: seq<Dev>, address: nat, i: nat)
    requires i < |devs| && IsClient(devs[i], address)
    requires forall j :: 0 <= j < i ==> !IsClient(devs[j], address)
    ensures Find(devs, address) == i
  {
  }

  lemma AgeOfMore(d: Dev, devs: seq<Dev>, address: nat)
    ensures AgeInTable([d] + devs, address) ==
            if IsClient(d, address) then Some(d.activeCount) else AgeInTable(devs, address)
  {
    assert ([d] + devs)[1..] == devs;
  }

  lemma {:induction false} TickStep(devs: seq<Dev>, myIpAddr: nat, address: nat)
    requires WellFormed(devs, myIpAddr)
    ensures AgeInTable(Survivors(devs), address) == AgeAfter(AgeInTable(devs, address), Tick, address, true)
  {
    if devs != [] {
      var d, rest := devs[0], devs[1..];
      TickStep(rest, myIpAddr, address);
      AgeOfMore(d, rest, address);
      assert devs == [d] + rest;
      assert IsClient(d, address) ==> Find(rest, address) == |rest|;
      if d.devType == TcpCmdClient {
        AgeOfMore(Aged(d), Survivors(rest), address);
        assert Expires(d) ==> Survivors(devs) == Survivors(rest);
      } else {
        AgeOfMore(d, Survivors(rest), address);
      }
    }
  }

  lemma HelloStep(t: Table, myIpAddr: nat, from: nat, connected: bool, address: nat)
    requires address != myIpAddr
    ensures AgeInTable(Apply(t, myIpAddr, HelloFrom(from, connected)).devs, address) ==
            if from == address then Some(0) else AgeInTable(t.devs, address)
  {
    var i, devs := Find(t.devs, address), Apply(t, myIpAddr, HelloFrom(from, connected)).devs;
    if i < |t.devs| {
      FindIs(devs, address, i);
    } else if from == address {
      FindIs(devs, address, |t.devs|);
    }
  }

  lemma ClosedStep(t: Table, myIpAddr: nat, closed: nat, address: nat)
    requires WellFormed(t.devs, myIpAddr)
    ensures AgeInTable(Apply(t, myIpAddr, ClientClosed(closed)).devs, address) ==
            if closed == address then None else AgeInTable(t.devs, address)
  {
    var i, k, devs := Find(t.devs, address), Find(t.devs, closed), Apply(t, myIpAddr, ClientClosed(closed)).devs;
    if closed != address && i < |t.devs| && k < |t.devs| {
      FindIs(devs, address, if i < k then i else i - 1);
    }
  }

  lemma TableStep(t: Table, myIpAddr: nat, e: Event, address: nat)
    requires Inv(t, myIpAddr) && address != myIpAddr
    ensures AgeInTable(Apply(t, myIpAddr, e).devs, address) == AgeAfter(AgeInTable(t.devs, address), e, address, true)
  {
    match e
    case Tick => TickStep(t.devs, myIpAddr, address);
    case HelloFrom(a, connected) => HelloStep(t, myIpAddr, a, connected, address);
    case ClientClosed(a) => ClosedStep(t, myIpAddr, a, address);
  }

  /**
   From a list without clients, an address other than our own is listed exactly when its latest hello is
   later than its latest end and at most five ticks have followed; its count says how many.
   */
  lemma TableIsFunctionOfHistory(t: Table, myIpAddr: nat, history: seq<Event>, address: nat)
    requires Inv(t, myIpAddr) && Clients(t.devs) == 0 && address != myIpAddr
    ensures var devs := Run(t, myIpAddr, history).devs;
            var i := Find(devs, address);
            && (i < |devs| <==> Alive(history, address))
            && (i < |devs| ==> devs[i].activeCount == TicksAfter(history, LatestHello(history, address)))
  {
    AgesAgree(t, myIpAddr, history, address);
  }

  /** The clients listed are those of the addresses that are alive, our own never being one. */
  ghost predicate ListsTheLiving(devs: seq<Dev>, myIpAddr: nat, history: seq<Event>) {
    forall address :: Find(devs, address) < |devs| <==> address != myIpAddr && Alive(history, address)
  }

  lemma RunListsTheLiving(t: Table, myIpAddr: nat, history: seq<Event>)
    requires Inv(t, myIpAddr) && Clients(t.devs) == 0
    ensures ListsTheLiving(Run(t, myIpAddr, history).devs, myIpAddr, history)
  {
    var devs := Run(t, myIpAddr, history).devs;
    forall address ensures Find(devs, address) < |devs| <==> address != myIpAddr && Alive(history, address) {
      if address == myIpAddr {
        OwnAddressIsNeverListed(t, myIpAddr, history);
      } else {
        TableIsFunctionOfHistory(t, myIpAddr, history, address);
      }
    }
  }

  lemma {:induction false} AgesAgree(t: Table, myIpAddr: nat, history: seq<Event>, address: nat)
    requires Inv(t, myIpAddr) && Clients(t.devs) == 0 && address != myIpAddr
    ensures AgeInTable(Run(t, myIpAddr, history).devs, address) ==
            match AgeInHistory(history, address)
            case None => None
            case Some(n) => if n > HELLO_NODE_LIMIT then None else Some(n)
    decreases |history|
  {
    if history == [] {
      NoClientsToFind(t.devs, address);
    } else {
      var before, e := history[..|history| - 1], history[|history| - 1];
      assert history == before + [e];
      AgesAgree(t, myIpAddr, before, address);
      RunKeepsInv(t, myIpAddr, before);
      HistoryStep(before, e, address);
      TableStep(Run(t, myIpAddr, before), myIpAddr, e, address);
    }
  }

  lemma {:induction false} NoClientsToFind(devs: seq<Dev>, address: nat)
    requires Clients(devs) == 0
    ensures Find(devs, address) == |devs|
  {
    if devs != [] {
      NoClientsToFind(devs[1..], address);
    }
  }

  /** An address that is our own is never listed. */
  lemma OwnAddressIsNeverListed(t: Table, myIpAddr: nat, history: seq<Event>)
    requires Inv(t, myIpAddr)
    ensures var devs := Run(t, myIpAddr, history).devs; Find(devs, myIpAddr) == |devs|
  {
    RunKeepsInv(t, myIpAddr, history);
  }
}
