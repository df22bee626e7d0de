/** The node table, its counters and its change flag, all told from the history alone. */
module NodeHistory {
  import opened Common
  import opened NodeTable

  // ---- What one event means, given what happened before ----

  /** Somebody else is listed exactly while alive. */
  predicate Known(before: seq<Event>, myIpAddr: nat, address: nat) {
    address != myIpAddr && Alive(before, address)
  }

  /** A hello from somebody else who is not alive. */
  predicate Joins(before: seq<Event>, myIpAddr: nat, e: Event) {
    e.HelloFrom? && e.address != myIpAddr && !Alive(before, e.address)
  }

  /** The end of a client of somebody who is alive. */
  predicate Ends(before: seq<Event>, myIpAddr: nat, e: Event) {
    e.ClientClosed? && Known(before, myIpAddr, e.address)
  }

  /** Alive before the tick, and not after it. */
  predicate TimesOut(before: seq<Event>, myIpAddr: nat, address: nat) {
    Known(before, myIpAddr, address) && !Alive(before + [Tick], address)
  }

  /** Everybody who has ever said hello. */
  function Speakers(history: seq<Event>): set<nat> {
    set n | 0 <= n < |history| && history[n].HelloFrom? :: history[n].address
  }

  function TimedOut(before: seq<Event>, myIpAddr: nat): set<nat> {
    set a | a in Speakers(before) && TimesOut(before, myIpAddr, a)
  }

  /** The events that call for a rebuild of the poll table. */
  ghost predicate Flags(before: seq<Event>, myIpAddr: nat, e: Event) {
    || (Joins(before, myIpAddr, e) && e.connected)
    || Ends(before, myIpAddr, e)
    || (e == Tick && exists a :: TimesOut(before, myIpAddr, a))
  }

  // ---- Counting over a history ----

  function JoinCount(history: seq<Event>, myIpAddr: nat): nat {
    if history == [] then 0
    else
      var before, e := history[..|history| - 1], history[|history| - 1];
      JoinCount(before, myIpAddr) + if Joins(before, myIpAddr, e) then 1 else 0
  }

  function EndCount(history: seq<Event>, myIpAddr: nat): nat {
    if history == [] then 0
    else
      var before, e := history[..|history| - 1], history[|history| - 1];
      EndCount(before, myIpAddr) + if Ends(before, myIpAddr, e) then 1 else 0
  }

  function TimeOutCount(history: seq<Event>, myIpAddr: nat): nat {
    if history == [] then 0
    else
      var before, e := history[..|history| - 1], history[|history| - 1];
      TimeOutCount(before, myIpAddr) + if e == Tick then |TimedOut(before, myIpAddr)| else 0
  }

  // ---- The clients that a tick expires ----

  function ExpiredAddresses(devs: seq<Dev>): set<nat> {
    if devs == [] then {} else (if Expires(devs[0]) then {devs[0].address} else {}) + ExpiredAddresses(devs[1..])
  }

  /** An address expires exactly when its client is listed and as old as it may be already. */
  lemma {:induction false} ExpiredIsOld(devs: seq<Dev>, myIpAddr: nat, a: nat)
    requires WellFormed(devs, myIpAddr)
    ensures a in ExpiredAddresses(devs) <==> AgeInTable(devs, a) == Some(HELLO_NODE_LIMIT)
  {
    if devs != [] {
      var d, rest := devs[0], devs[1..];
      ExpiredIsOld(rest, myIpAddr, a);
      AgeOfMore(d, rest, a);
      assert devs == [d] + rest;
      assert IsClient(d, a) ==> Find(rest, a) == |rest|;
    }
  }

  /** As addresses are different, there are as many expired addresses as expired clients. */
  lemma {:induction false} ExpiredAreAsMany(devs: seq<Dev>, myIpAddr: nat)
    requires WellFormed(devs, myIpAddr)
    ensures |ExpiredAddresses(devs)| == Expired(devs)
  {
    if devs != [] {
      var d, rest := devs[0], devs[1..];
      ExpiredAreAsMany(rest, myIpAddr);
      if Expires(d) {
        ExpiredIsOld(rest, myIpAddr, d.address);
        assert Find(rest, d.address) == |rest|;
        assert d.address !in ExpiredAddresses(rest);
        assert |{d.address} + ExpiredAddresses(rest)| == 1 + |ExpiredAddresses(rest)|;
      } else {
        assert ExpiredAddresses(devs) == ExpiredAddresses(rest);
      }
    }
  }

  lemma {:induction false} AliveHasSpoken(history: seq<Event>, a: nat)
    requires LatestHello(history, a) >= 0
    ensures a in Speakers(history)
    decreases |history|
  {
    var last := |history| - 1;
    if !(history[last].HelloFrom? && history[last].address == a) {
      AliveHasSpoken(history[..last], a);
      var n :| 0 <= n < last && history[..last][n].HelloFrom? && history[..last][n].address == a;
      assert history[n] == history[..last][n];
    }
  }

  /** The addresses whose clients a tick expires are those that time out. */
  lemma {:induction false} ExpiredAreTimedOut(t: Table, myIpAddr: nat, history: seq<Event>)
    requires Inv(t, myIpAddr) && Clients(t.devs) == 0
    ensures ExpiredAddresses(Run(t, myIpAddr, history).devs) == TimedOut(history, myIpAddr)
    ensures forall a :: TimesOut(history, myIpAddr, a) ==> a in TimedOut(history, myIpAddr)
  {
    var devs := Run(t, myIpAddr, history).devs;
    RunKeepsInv(t, myIpAddr, history);
    forall a
      ensures a in ExpiredAddresses(devs) <==> TimesOut(history, myIpAddr, a)
      ensures TimesOut(history, myIpAddr, a) ==> a in Speakers(history)
    {
      ExpiredIsOld(devs, myIpAddr, a);
      if a == myIpAddr {
        OwnAddressIsNeverListed(t, myIpAddr, history);
      } else {
        AgesAgree(t, myIpAddr, history, a);
        HistoryStep(history, Tick, a);
      }
      if TimesOut(history, myIpAddr, a) {
        LatestAreInside(history, a);
        AliveHasSpoken(history, a);
      }
    }
  }

  // ---- Counters and flag over every history ----

  /** What one event adds to the counters, told from what happened before it. */
  lemma {:induction false} EventTells(t: Table, myIpAddr: nat, before: seq<Event>, e: Event)
    requires Inv(t, myIpAddr) && Clients(t.devs) == 0
    ensures var s := Run(t, myIpAddr, before); var s' := Apply(s, myIpAddr, e);
            && s'.nodesAdded == s.nodesAdded + (if Joins(before, myIpAddr, e) then 1 else 0)
            && s'.nodesDeletedFromError == s.nodesDeletedFromError + (if Ends(before, myIpAddr, e) then 1 else 0)
            && s'.nodesDeletedFromTimer ==
               s.nodesDeletedFromTimer + (if e == Tick then |TimedOut(before, myIpAddr)| else 0)
            && (s'.changed <==> s.changed || Flags(before, myIpAddr, e))
  {
    var s := Run(t, myIpAddr, before);
    RunListsTheLiving(t, myIpAddr, before);
    match e
    case HelloFrom(a, _) =>
      assert Find(s.devs, a) < |s.devs| <==> Known(before, myIpAddr, a);
    case ClientClosed(a) =>
      assert Find(s.devs, a) < |s.devs| <==> Known(before, myIpAddr, a);
    case Tick =>
      RunKeepsInv(t, myIpAddr, before);
      ExpiredAreAsMany(s.devs, myIpAddr);
      ExpiredAreTimedOut(t, myIpAddr, before);
      assert (exists a :: TimesOut(before, myIpAddr, a)) <==> TimedOut(before, myIpAddr) != {};
  }

  /**
   From a list without clients: a node is added by every hello of somebody else who is not alive then,
   deleted from error by every end of a client of somebody who is, and deleted from timer by every tick
   that somebody does not survive.
   */
  lemma {:induction false} CountersTell(t: Table, myIpAddr: nat, history: seq<Event>)
    requires Inv(t, myIpAddr) && Clients(t.devs) == 0
    ensures var s := Run(t, myIpAddr, history);
            && s.nodesAdded == t.nodesAdded + JoinCount(history, myIpAddr)
            && s.nodesDeletedFromError == t.nodesDeletedFromError + EndCount(history, myIpAddr)
            && s.nodesDeletedFromTimer == t.nodesDeletedFromTimer + TimeOutCount(history, myIpAddr)
    decreases |history|
  {
    if history != [] {
      var before := history[..|history| - 1];
      CountersTell(t, myIpAddr, before);
      EventTells(t, myIpAddr, before, history[|history| - 1]);
    }
  }

  /** One of the events calls for a rebuild. */
  ghost predicate Flagged(history: seq<Event>, myIpAddr: nat) {
    exists n :: 0 <= n < |history| && Flags(history[..n], myIpAddr, history[n])
  }

  lemma {:induction false} FlaggedOfMore(before: seq<Event>, e: Event, myIpAddr: nat)
    ensures Flagged(before + [e], myIpAddr) <==> Flagged(before, myIpAddr) || Flags(before, myIpAddr, e)
  {
    var history := before + [e];
    assert forall n :: 0 <= n < |before| ==> history[..n] == before[..n] && history[n] == before[n];
    assert history[..|before|] == before && history[|before|] == e;
  }

  /**
   The change flag is set exactly when it was, or when somebody else who was not alive has said hello and
   been connected to, or somebody who was alive has ended or timed out.
   */
  lemma {:induction false} ChangedExactlyWhen(t: Table, myIpAddr: nat, history: seq<Event>)
    requires Inv(t, myIpAddr) && Clients(t.devs) == 0
    ensures Run(t, myIpAddr, history).changed <==> t.changed || Flagged(history, myIpAddr)
    decreases |history|
  {
    if history != [] {
      var before, e := history[..|history| - 1], history[|history| - 1];
      assert history == before + [e];
      ChangedExactlyWhen(t, myIpAddr, before);
      EventTells(t, myIpAddr, before, e);
      FlaggedOfMore(before, e, myIpAddr);
    }
  }

  // ---- The list itself: who is listed, with what, and in which order ----

  /** Position of the latest hello with which an address became alive, -1 when there is none. */
  function LatestJoin(history: seq<Event>, address: nat): int {
    if history == [] then -1
    else
      var last := |history| - 1;
      if history[last].HelloFrom? && history[last].address == address && !Alive(history[..last], address) then last
      else LatestJoin(history[..last], address)
  }

  /** Number of hellos from an address behind position `from`. */
  function HellosAfter(history: seq<Event>, address: nat, from: int): nat {
    if |history| - 1 <= from || history == [] then 0
    else
      var last := |history| - 1;
      HellosAfter(history[..last], address, from) +
      if history[last].HelloFrom? && history[last].address == address then 1 else 0
  }

  /** A client as its history has it: the hellos since it joined, and the ticks since its latest hello. */
  function NodeOf(history: seq<Event>, address: nat): Dev {
    Dev(TcpCmdClient, address,
        HellosAfter(history, address, LatestJoin(history, address)),
        TicksAfter(history, LatestHello(history, address)))
  }

  predicate AsTold(d: Dev, history: seq<Event>) {
    d.devType == TcpCmdClient ==> d == NodeOf(history, d.address)
  }

  /** Behind a client come only clients that have joined later. */
  predicate Precedes(d: Dev, other: Dev, history: seq<Event>) {
    d.devType == TcpCmdClient ==>
      other.devType == TcpCmdClient && LatestJoin(history, d.address) < LatestJoin(history, other.address)
  }

  /** Every client is as its history has it; they come behind all other devices, in the order in which they joined. */
  predicate Told(devs: seq<Dev>, history: seq<Event>) {
    && (forall i :: 0 <= i < |devs| ==> AsTold(devs[i], history))
    && (forall i, j {:trigger Precedes(devs[i], devs[j], history)} :: 0 <= i < j < |devs| ==>
          Precedes(devs[i], devs[j], history))
  }

  lemma {:induction false} LatestJoinIsInside(history: seq<Event>, address: nat)
    ensures -1 <= LatestJoin(history, address) < |history|
    decreases |history|
  {
    if history != [] {
      LatestJoinIsInside(history[..|history| - 1], address);
    }
  }

  /** What one event does to what the history says of one address. */
  lemma {:induction false} NodeStep(before: seq<Event>, e: Event, address: nat)
    ensures var history, d := before + [e], NodeOf(before, address);
            var mine := e.HelloFrom? && e.address == address;
            && NodeOf(history, address) ==
               (if mine then (if Alive(before, address) then Refreshed(d) else Dev(TcpCmdClient, address, 0, 0))
                else if e == Tick then Aged(d) else d)
            && LatestJoin(history, address) ==
               if mine && !Alive(before, address) then |before| else LatestJoin(before, address)
  {
    assert (before + [e])[..|before|] == before;
    LatestJoinIsInside(before, address);
    LatestAreInside(before, address);
  }

  lemma {:induction false} ClientsStayClients(devs: seq<Dev>)
    requires forall i :: 0 <= i < |devs| ==> devs[i].devType == TcpCmdClient
    ensures forall i :: 0 <= i < |Survivors(devs)| ==> Survivors(devs)[i].devType == TcpCmdClient
  {
    if devs != [] {
      ClientsStayClients(devs[1..]);
    }
  }

  lemma {:induction false} TickKeepsTold(devs: seq<Dev>, myIpAddr: nat, before: seq<Event>)
    requires WellFormed(devs, myIpAddr) && Told(devs, before)
    ensures Told(Survivors(devs), before + [Tick])
  {
    if devs != [] {
      var d, rest, history := devs[0], devs[1..], before + [Tick];
      TickKeepsTold(rest, myIpAddr, before);
      if d.devType == TcpCmdClient {
        TickKeepsWellFormed(rest, myIpAddr);
        forall j | 0 <= j < |rest| ensures rest[j].devType == TcpCmdClient {
          assert Precedes(d, devs[j + 1], before);
        }
        ClientsStayClients(rest);
        NodeStep(before, Tick, d.address);
        forall j | 0 <= j < |Survivors(rest)|
          ensures Precedes(Aged(d), Survivors(rest)[j], history)
        {
          var a := Survivors(rest)[j].address;
          NodeStep(before, Tick, a);
          assert devs[Find(rest, a) + 1].address == a && Precedes(d, devs[Find(rest, a) + 1], before);
        }
        ToldOfMore(Aged(d), Survivors(rest), history);
      } else {
        ToldOfMore(d, Survivors(rest), history);
      }
    }
  }

  lemma {:induction false} ToldOfMore(d: Dev, devs: seq<Dev>, history: seq<Event>)
    requires AsTold(d, history) && Told(devs, history)
    requires forall j :: 0 <= j < |devs| ==> Precedes(d, devs[j], history)
    ensures Told([d] + devs, history) && [] + devs == devs
  {
    var all := [d] + devs;
    forall i, j | 0 <= i < j < |all| ensures Precedes(all[i], all[j], history) {
      assert all[j] == devs[j - 1];
      if i > 0 {
        assert all[i] == devs[i - 1] && Precedes(devs[i - 1], devs[j - 1], history);
      }
    }
  }

  /** The order does not change as long as nobody listed joins again. */
  lemma {:induction false} OrderStays(devs: seq<Dev>, now: seq<Dev>, before: seq<Event>, e: Event)
    requires Told(devs, before) && |now| == |devs|
    requires forall i :: 0 <= i < |devs| ==> now[i].devType == devs[i].devType && now[i].address == devs[i].address
    requires forall i :: 0 <= i < |devs| && devs[i].devType == TcpCmdClient ==>
      e.HelloFrom? && e.address == devs[i].address ==> Alive(before, e.address)
    ensures forall i, j {:trigger Precedes(now[i], now[j], before + [e])} :: 0 <= i < j < |now| ==>
      Precedes(now[i], now[j], before + [e])
  {
    forall i, j | 0 <= i < j < |now| ensures Precedes(now[i], now[j], before + [e]) {
      assert Precedes(devs[i], devs[j], before);
      NodeStep(before, e, devs[i].address);
      NodeStep(before, e, devs[j].address);
    }
  }

  /** Events that touch no listed client leave the list as it is told. */
  lemma {:induction false} OthersKeepTold(devs: seq<Dev>, before: seq<Event>, e: Event)
    requires Told(devs, before) && e != Tick
    requires forall i :: 0 <= i < |devs| && devs[i].devType == TcpCmdClient ==> !(e.HelloFrom? && e.address == devs[i].address)
    ensures Told(devs, before + [e])
  {
    OrderStays(devs, devs, before, e);
    forall i | 0 <= i < |devs| ensures AsTold(devs[i], before + [e]) {
      assert AsTold(devs[i], before);
      NodeStep(before, e, devs[i].address);
    }
  }

  lemma {:induction false} JoinKeepsTold(devs: seq<Dev>, before: seq<Event>, e: Event)
    requires Told(devs, before) && e.HelloFrom? && Find(devs, e.address) == |devs| && !Alive(before, e.address)
    ensures Told(devs + [Dev(TcpCmdClient, e.address, 0, 0)], before + [e])
  {
    OthersKeepTold(devs, before, e);
    NodeStep(before, e, e.address);
    forall i | 0 <= i < |devs| && devs[i].devType == TcpCmdClient
      ensures LatestJoin(before + [e], devs[i].address) < |before|
    {
      NodeStep(before, e, devs[i].address);
      LatestJoinIsInside(before, devs[i].address);
    }
  }

  lemma {:induction false} RefreshKeepsTold(devs: seq<Dev>, myIpAddr: nat, before: seq<Event>, e: Event, i: nat)
    requires WellFormed(devs, myIpAddr) && Told(devs, before) && e.HelloFrom? && Alive(before, e.address)
    requires i == Find(devs, e.address) < |devs|
    ensures Told(devs[i := Refreshed(devs[i])], before + [e])
  {
    var now := devs[i := Refreshed(devs[i])];
    OrderStays(devs, now, before, e);
    forall j | 0 <= j < |now| ensures AsTold(now[j], before + [e]) {
      assert AsTold(devs[j], before);
      NodeStep(before, e, devs[j].address);
    }
  }

  lemma {:induction false} EndKeepsTold(devs: seq<Dev>, before: seq<Event>, e: Event, i: nat)
    requires Told(devs, before) && e.ClientClosed? && i < |devs|
    ensures Told(devs[..i] + devs[i + 1..], before + [e])
  {
    OthersKeepTold(devs, before, e);
  }

  lemma {:induction false} HelloKeepsTold(t: Table, myIpAddr: nat, before: seq<Event>, e: Event)
    requires e.HelloFrom? && WellFormed(t.devs, myIpAddr) && Told(t.devs, before)
    requires Find(t.devs, e.address) < |t.devs| <==> e.address != myIpAddr && Alive(before, e.address)
    ensures Told(Apply(t, myIpAddr, e).devs, before + [e])
  {
    var i := Find(t.devs, e.address);
    if i < |t.devs| {
      RefreshKeepsTold(t.devs, myIpAddr, before, e, i);
    } else if e.address == myIpAddr {
      OthersKeepTold(t.devs, before, e);
    } else {
      JoinKeepsTold(t.devs, before, e);
    }
  }

  lemma {:induction false} ClosedKeepsTold(t: Table, myIpAddr: nat, before: seq<Event>, e: Event)
    requires e.ClientClosed? && Told(t.devs, before)
    ensures Told(Apply(t, myIpAddr, e).devs, before + [e])
  {
    var i := Find(t.devs, e.address);
    if i < |t.devs| {
      EndKeepsTold(t.devs, before, e, i);
    } else {
      OthersKeepTold(t.devs, before, e);
    }
  }

  lemma {:induction false} EventKeepsTold(t: Table, myIpAddr: nat, before: seq<Event>, e: Event)
    requires Inv(t, myIpAddr) && Told(t.devs, before) && ListsTheLiving(t.devs, myIpAddr, before)
    ensures Told(Apply(t, myIpAddr, e).devs, before + [e])
  {
    match e
    case Tick => TickKeepsTold(t.devs, myIpAddr, before);
    case HelloFrom(a, _) =>
      assert Find(t.devs, a) < |t.devs| <==> a != myIpAddr && Alive(before, a);
      HelloKeepsTold(t, myIpAddr, before, e);
    case ClientClosed(_) => ClosedKeepsTold(t, myIpAddr, before, e);
  }

  lemma {:induction false} NoClients(devs: seq<Dev>)
    requires Clients(devs) == 0
    ensures Others(devs) == devs && forall i :: 0 <= i < |devs| ==> devs[i].devType != TcpCmdClient
  {
    if devs != [] {
      NoClients(devs[1..]);
    }
  }

  /**
   From a list without clients, the whole list told from the history: first the devices that were there, in
   order, and then a client for each address that is alive, in the order in which they joined, each with the
   number of hellos since then and of ticks since the latest one.
   */
  lemma {:induction false} ListIsFunctionOfHistory(t: Table, myIpAddr: nat, history: seq<Event>)
    requires Inv(t, myIpAddr) && Clients(t.devs) == 0
    ensures var devs := Run(t, myIpAddr, history).devs;
            Others(devs) == t.devs && Told(devs, history) && ListsTheLiving(devs, myIpAddr, history)
    decreases |history|
  {
    NoClients(t.devs);
    RunKeepsInv(t, myIpAddr, history);
    RunListsTheLiving(t, myIpAddr, history);
    if history != [] {
      var before, e := history[..|history| - 1], history[|history| - 1];
      ListIsFunctionOfHistory(t, myIpAddr, before);
      RunKeepsInv(t, myIpAddr, before);
      assert history == before + [e];
      EventKeepsTold(Run(t, myIpAddr, before), myIpAddr, before, e);
    }
  }

  /** All of it: the list, the counters and the flag of `now` are what the history makes of `t`. */
  ghost predicate FollowsHistory(t: Table, now: Table, myIpAddr: nat, history: seq<Event>) {
    && Others(now.devs) == t.devs && Told(now.devs, history) && ListsTheLiving(now.devs, myIpAddr, history)
    && now.nodesAdded == t.nodesAdded + JoinCount(history, myIpAddr)
    && now.nodesDeletedFromError == t.nodesDeletedFromError + EndCount(history, myIpAddr)
    && now.nodesDeletedFromTimer == t.nodesDeletedFromTimer + TimeOutCount(history, myIpAddr)
    && (now.changed <==> t.changed || Flagged(history, myIpAddr))
  }

  lemma {:induction false} RunFollowsHistory(t: Table, myIpAddr: nat, history: seq<Event>)
    requires Inv(t, myIpAddr) && Clients(t.devs) == 0
    ensures FollowsHistory(t, Run(t, myIpAddr, history), myIpAddr, history)
  {
    ListIsFunctionOfHistory(t, myIpAddr, history);
    CountersTell(t, myIpAddr, history);
    ChangedExactlyWhen(t, myIpAddr, history);
  }
}
