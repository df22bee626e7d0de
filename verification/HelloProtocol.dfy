/** The keepalive protocol on the linked device list, refining `NodeTable`. */
module HelloProtocol {
  import opened Common
  import opened Queue
  import opened NodeTable
  import opened NodeHistory

  type Node = Elem<Dev>

  predicate IsOfType(d: Dev, devType: Option<DevType>) {
    devType == None || devType == Some(d.devType)
  }

  /** Index of the first device of a type (`None` for any) from `from` on, the length when there is none. */
  function NextOfType(ds: seq<Dev>, from: nat, devType: Option<DevType>): (i: nat)
    requires from <= |ds|
    ensures from <= i <= |ds|
    ensures i < |ds| ==> IsOfType(ds[i], devType)
    ensures forall j :: from <= j < i ==> !IsOfType(ds[j], devType)
    ensures devType == None ==> i == from
    ensures devType.Some? ==>
      (i < |ds| ==> ds[i].devType == devType.value) && forall j :: from <= j < i ==> ds[j].devType != devType.value
    decreases |ds| - from
  {
    if from == |ds| || IsOfType(ds[from], devType) then from else NextOfType(ds, from + 1, devType)
  }

  /** While a tick is in progress, what comes next in the list is what comes next in the old list. */
  lemma {:induction false} NextInRest(ds: seq<Dev>, k: nat, now: seq<Dev>, i: nat, devType: Option<DevType>)
    requires k <= |ds| && i <= |now| && now[i..] == ds[k..]
    ensures NextOfType(now, i, devType) == i + NextOfType(ds, k, devType) - k
    decreases |ds| - k
  {
    if k < |ds| {
      assert now[i] == now[i..][0] == ds[k..][0];
      assert now[i + 1..] == now[i..][1..] == ds[k..][1..] == ds[k + 1..];
      NextInRest(ds, k + 1, now, i + 1, devType);
    }
  }

  /** What stands `gap` places behind element `i` is found again after `i` has gone. */
  lemma NextStays<T>(was: seq<T>, now: seq<T>, i: nat, gap: nat, gone: bool)
    requires gap > 0 && i < |was| && now == if gone then was[..i] + was[i + 1..] else was
    ensures var j := i + gap - (if gone then 1 else 0); i + gap < |was| ==> j < |now| && now[j] == was[i + gap]
  {
  }

  class HelloProtocol {
    const devs: Que<Dev>
    const myIpAddr: nat
    var nodesAdded: nat
    var nodesDeletedFromTimer: nat
    var nodesDeletedFromError: nat
    var devChangeFlag: bool

    ghost predicate Valid()
      reads this, devs, devs.Nodes()
    {
      devs.Valid()
    }

    ghost function Abs(): Table
      reads this, devs, devs.Nodes()
    {
      Table(DataOf(devs.elems), nodesAdded, nodesDeletedFromTimer, nodesDeletedFromError, devChangeFlag)
    }

    constructor (myIpAddr: nat)
      ensures Valid() && this.myIpAddr == myIpAddr && Abs() == Table([], 0, 0, 0, false)
    {
      this.myIpAddr := myIpAddr;
      devs := new Que(Dev(Hello, 0, 0, 0));
      nodesAdded, nodesDeletedFromTimer, nodesDeletedFromError, devChangeFlag := 0, 0, 0, false;
    }

    /** Makes a device and links it in last. */
    method CreateDevStruct(d: Dev)
      requires Valid()
      modifies devs`elems, devs.Nodes()`forw, devs.Nodes()`back
      ensures Valid() && fresh(devs.Nodes() - old(devs.Nodes()))
      ensures DataOf(devs.elems) == old(DataOf(devs.elems)) + [d]
    {
      Append(devs, d);
    }

    /** A client is linked and counted before it connects, and stays linked when that fails. */
    method TcpCmdClientInit(address: nat, connected: bool) returns (ok: bool)
      requires Valid()
      modifies this`nodesAdded, devs`elems, devs.Nodes()`forw, devs.Nodes()`back
      ensures Valid() && fresh(devs.Nodes() - old(devs.Nodes())) && ok == connected
      ensures Abs() == old(Abs()).(devs := old(Abs()).devs + [Dev(TcpCmdClient, address, 0, 0)],
                                   nodesAdded := old(nodesAdded) + 1)
    {
      nodesAdded := nodesAdded + 1;
      CreateDevStruct(Dev(TcpCmdClient, address, 0, 0));
      ok := connected;
    }

    /** The next device of a type behind `start`, which is number `i`; the first one for null. */
    method GetNextNode(start: Elem?<Dev>, devType: Option<DevType>, ghost i: int)
      returns (ptr: Elem?<Dev>, ghost j: nat)
      requires Valid()
      requires if start == null then i == -1 else 0 <= i < |devs.elems| && devs.elems[i] == start
      ensures j == NextOfType(DataOf(devs.elems), i + 1, devType)
      ensures ptr == if j < |devs.elems| then devs.elems[j] else null
    {
      ptr := devs.GetNext(start, i);
      j := i + 1;
      while ptr != null && !IsOfType(ptr.data, devType)
        invariant i < j <= |devs.elems| && ptr == if j < |devs.elems| then devs.elems[j] else null
        invariant NextOfType(DataOf(devs.elems), j, devType) == NextOfType(DataOf(devs.elems), i + 1, devType)
        decreases |devs.elems| - j
      {
        DataAt(devs.elems, j);
        ptr := devs.GetNext(ptr, j);
        j := j + 1;
      }
      if ptr != null {
        DataAt(devs.elems, j);
      }
    }

    /** Unlinks client number `i`; `evt` tells an error on its socket from a time-out. */
    method TcpCmdClientShutdown(node: Node, evt: bool, ghost i: nat)
      requires Valid() && i < |devs.elems| && devs.elems[i] == node
      modifies this, devs`elems, devs.Nodes()`forw, devs.Nodes()`back
      ensures Valid() && devs.elems == old(devs.elems)[..i] + old(devs.elems)[i + 1..]
      ensures DataOf(devs.elems) == old(DataOf(devs.elems))[..i] + old(DataOf(devs.elems))[i + 1..]
      ensures devChangeFlag && nodesAdded == old(nodesAdded)
      ensures nodesDeletedFromError == old(nodesDeletedFromError) + (if evt then 1 else 0)
      ensures nodesDeletedFromTimer == old(nodesDeletedFromTimer) + (if evt then 0 else 1)
    {
      if evt {
        nodesDeletedFromError := nodesDeletedFromError + 1;
      } else {
        nodesDeletedFromTimer := nodesDeletedFromTimer + 1;
      }
      Unlink(devs, node, i);
      devChangeFlag := true;
    }

    /** Gives node number `i` new data. */
    method SetData(node: Node, d: Dev, ghost i: nat)
      requires Valid() && i < |devs.elems| && devs.elems[i] == node
      modifies node`data
      ensures Valid() && node.data == d && DataOf(devs.elems) == old(DataOf(devs.elems))[i := d]
    {
      forall k | 0 <= k < |devs.elems| ensures DataOf(devs.elems)[k] == devs.elems[k].data {
        DataAt(devs.elems, k);
      }
      ghost var was := DataOf(devs.elems);
      node.data := d;
      forall k | 0 <= k < |devs.elems| ensures DataOf(devs.elems)[k] == was[i := d][k] {
        DataAt(devs.elems, k);
      }
    }

    /** Looks for the client of an address. */
    method FindClient(address: nat) returns (ptr: Elem?<Dev>, ghost j: nat)
      requires Valid()
      ensures j == Find(DataOf(devs.elems), address)
      ensures ptr == if j < |devs.elems| then devs.elems[j] else null
    {
      ghost var ds := DataOf(devs.elems);
      ptr, j := GetNextNode(null, Some(TcpCmdClient), -1);
      while ptr != null
        invariant j <= |ds| && ptr == if j < |ds| then devs.elems[j] else null
        invariant j < |ds| ==> ds[j].devType == TcpCmdClient
        invariant forall k :: 0 <= k < j ==> !IsClient(ds[k], address)
        decreases |ds| - j
      {
        DataAt(devs.elems, j);
        if ptr.data.address == address {
          FindIs(ds, address, j);
          break;
        }
        ptr, j := GetNextNode(ptr, Some(TcpCmdClient), j);
      }
    }

    /** One packet: a known node is kept alive, an unknown one gets a client. */
    method ReceiveHello(address: nat, connected: bool)
      requires Valid()
      modifies this`nodesAdded, this`devChangeFlag, devs`elems, devs.Nodes()
      ensures Valid() && fresh(devs.Nodes() - old(devs.Nodes()))
      ensures Abs() == Apply(old(Abs()), myIpAddr, HelloFrom(address, connected))
    {
      if address == myIpAddr {
        return;
      }
      var ptr, j := FindClient(address);
      if ptr != null {
        DataAt(devs.elems, j);
        SetData(ptr, Refreshed(ptr.data), j);
      } else {
        var ok := TcpCmdClientInit(address, connected);
        if ok {
          devChangeFlag := true;
        }
      }
    }

    /** Ages client number `i`, and shuts it down when it has become too old. */
    method AgeClient(ptr: Node, ghost i: nat)
      requires Valid() && i < |devs.elems| && devs.elems[i] == ptr && ptr.data.devType == TcpCmdClient
      modifies this, devs`elems, devs.Nodes()
      ensures Valid() && devs.Nodes() <= old(devs.Nodes())
      ensures if old(Expires(ptr.data)) then
                && devs.elems == old(devs.elems)[..i] + old(devs.elems)[i + 1..]
                && DataOf(devs.elems) == old(DataOf(devs.elems))[..i] + old(DataOf(devs.elems))[i + 1..]
                && nodesDeletedFromTimer == old(nodesDeletedFromTimer) + 1 && devChangeFlag
              else
                && devs.elems == old(devs.elems)
                && DataOf(devs.elems) == old(DataOf(devs.elems))[i := Aged(old(ptr.data))]
                && nodesDeletedFromTimer == old(nodesDeletedFromTimer) && devChangeFlag == old(devChangeFlag)
      ensures nodesAdded == old(nodesAdded) && nodesDeletedFromError == old(nodesDeletedFromError)
    {
      ghost var ds := DataOf(devs.elems);
      SetData(ptr, Aged(ptr.data), i);
      if ptr.data.activeCount > HELLO_NODE_LIMIT {
        ghost var aged := DataOf(devs.elems);
        TcpCmdClientShutdown(ptr, false, i);
        assert aged[..i] == ds[..i] && aged[i + 1..] == ds[i + 1..];
      }
    }

    /** The walk is at client `k` of the old list `ds`, and has fetched client `next` of it. */
    ghost predicate Visiting(ds: seq<Dev>, k: nat, ptr: Elem?<Dev>, next: nat, nextPtr: Elem?<Dev>)
      requires k <= |ds| && |devs.elems| == |Survivors(ds[..k])| + |ds| - k
      reads devs
    {
      && ptr == (if k < |ds| then devs.elems[|Survivors(ds[..k])|] else null)
      && (k < |ds| ==>
            && ds[k].devType == TcpCmdClient && next == NextOfType(ds, k + 1, Some(TcpCmdClient))
            && nextPtr == if next < |ds| then devs.elems[|Survivors(ds[..k])| + next - k] else null)
    }

    /** Handles client `k` of the old list `ds`, while `nextPtr`, device `next` of it, is known already. */
    method TickClient(ptr: Node, nextPtr: Elem?<Dev>, ghost ds: seq<Dev>, ghost k: nat, ghost next: nat)
      requires Valid() && TickedUpTo(ds, k, DataOf(devs.elems))
      requires k < |ds| && Visiting(ds, k, ptr, next, nextPtr)
      modifies this, devs`elems, devs.Nodes()
      ensures Valid() && devs.Nodes() <= old(devs.Nodes()) && TickedUpTo(ds, next, DataOf(devs.elems))
      ensures nextPtr == if next < |ds| then devs.elems[|Survivors(ds[..next])|] else null
      ensures nodesAdded == old(nodesAdded) && nodesDeletedFromError == old(nodesDeletedFromError)
      ensures nodesDeletedFromTimer - Expired(ds[..next]) == old(nodesDeletedFromTimer) - Expired(ds[..k])
      ensures Expired(ds[..next]) >= Expired(ds[..k])
      ensures devChangeFlag == (old(devChangeFlag) || Expired(ds[..next]) > Expired(ds[..k]))
    {
      ghost var now, i := DataOf(devs.elems), |Survivors(ds[..k])|;
      DataAt(devs.elems, i);
      assert now[i] == ds[k];
      ghost var was := devs.elems;
      assert nextPtr == if next < |ds| then was[i + next - k] else null;
      AgeClient(ptr, i);
      TickProgress(ds, k, next, now, DataOf(devs.elems));
      NextStays(was, devs.elems, i, next - k, Expires(ds[k]));
    }

    /** The client to visit after `ptr`, which is client `k` of the old list; a null `ptr` starts over. */
    method NextClient(ptr: Elem?<Dev>, ghost ds: seq<Dev>, ghost k: nat) returns (nextPtr: Elem?<Dev>, ghost next: nat)
      requires Valid() && TickedUpTo(ds, k, DataOf(devs.elems))
      requires ptr == if k < |ds| then devs.elems[|Survivors(ds[..k])|] else null
      requires k < |ds| ==> ds[k].devType == TcpCmdClient
      ensures Visiting(ds, k, ptr, next, nextPtr)
    {
      ghost var now, i, j := DataOf(devs.elems), |Survivors(ds[..k])|, 0;
      next := k;
      if ptr == null {
        nextPtr, j := GetNextNode(null, Some(TcpCmdClient), -1);
      } else {
        nextPtr, j := GetNextNode(ptr, Some(TcpCmdClient), i);
        assert now[i + 1..] == ds[k + 1..];
        NextInRest(ds, k + 1, now, i + 1, Some(TcpCmdClient));
        next := NextOfType(ds, k + 1, Some(TcpCmdClient));
      }
    }

    /** The first two clients to visit. */
    method FirstClients(ghost ds: seq<Dev>)
      returns (ptr: Elem?<Dev>, nextPtr: Elem?<Dev>, ghost k: nat, ghost next: nat)
      requires Valid() && ds == DataOf(devs.elems)
      ensures TickedUpTo(ds, k, ds) && Expired(ds[..k]) == 0
      ensures Visiting(ds, k, ptr, next, nextPtr)
    {
      ptr, k := GetNextNode(null, Some(TcpCmdClient), -1);
      OthersSurvive(ds[..k]);
      assert ds == ds[..k] + ds[k..];
      nextPtr, next := NextClient(ptr, ds, k);
    }

    /** One pass of the walk: the body, and the step to the next client. */
    method VisitClient(ptr: Node, nextPtr: Elem?<Dev>, ghost ds: seq<Dev>, ghost k: nat, ghost next: nat)
      returns (ptr': Elem?<Dev>, nextPtr': Elem?<Dev>, ghost next': nat)
      requires Valid() && TickedUpTo(ds, k, DataOf(devs.elems))
      requires k < |ds| && Visiting(ds, k, ptr, next, nextPtr)
      modifies this, devs`elems, devs.Nodes()
      ensures Valid() && devs.Nodes() <= old(devs.Nodes())
      ensures k < next && TickedUpTo(ds, next, DataOf(devs.elems)) && Visiting(ds, next, ptr', next', nextPtr')
      ensures nodesAdded == old(nodesAdded) && nodesDeletedFromError == old(nodesDeletedFromError)
      ensures nodesDeletedFromTimer - Expired(ds[..next]) == old(nodesDeletedFromTimer) - Expired(ds[..k])
      ensures Expired(ds[..next]) >= Expired(ds[..k])
      ensures devChangeFlag == (old(devChangeFlag) || Expired(ds[..next]) > Expired(ds[..k]))
    {
      TickClient(ptr, nextPtr, ds, k, next);
      ptr' := nextPtr;
      nextPtr', next' := NextClient(ptr', ds, next);
    }

    /**
     Walks the list with the next node always fetched before the current one may be unlinked, so that
     every client is aged exactly once.
     */
    method ExpireNodes(ghost ds: seq<Dev>)
      requires Valid() && ds == DataOf(devs.elems)
      modifies this, devs`elems, devs.Nodes()
      ensures Valid() && devs.Nodes() <= old(devs.Nodes())
      ensures DataOf(devs.elems) == Survivors(ds)
      ensures nodesAdded == old(nodesAdded) && nodesDeletedFromError == old(nodesDeletedFromError)
      ensures nodesDeletedFromTimer == old(nodesDeletedFromTimer) + Expired(ds)
      ensures devChangeFlag == (old(devChangeFlag) || Expired(ds) > 0)
    {
      ghost var k: nat, next: nat;
      var ptr: Elem?<Dev>, nextPtr: Elem?<Dev>;
      ptr, nextPtr, k, next := FirstClients(ds);
      while ptr != null
        invariant Valid() && devs.Nodes() <= old(devs.Nodes())
        invariant TickedUpTo(ds, k, DataOf(devs.elems)) && Visiting(ds, k, ptr, next, nextPtr)
        invariant nodesAdded == old(nodesAdded) && nodesDeletedFromError == old(nodesDeletedFromError)
        invariant nodesDeletedFromTimer == old(nodesDeletedFromTimer) + Expired(ds[..k])
        invariant devChangeFlag == (old(devChangeFlag) || Expired(ds[..k]) > 0)
        decreases |ds| - k
      {
        ghost var later: nat;
        ptr, nextPtr, later := VisitClient(ptr, nextPtr, ds, k, next);
        k, next := next, later;
      }
      TickedToEnd(ds, k, DataOf(devs.elems));
    }

    /** The tick; the hello that is sent to everybody first is not modelled. */
    method HelloProtocolTimer()
      requires Valid()
      modifies this, devs`elems, devs.Nodes()
      ensures Valid() && devs.Nodes() <= old(devs.Nodes())
      ensures Abs() == Apply(old(Abs()), myIpAddr, Tick)
    {
      ExpireNodes(DataOf(devs.elems));
    }

    /** Receives packets until there are no more. */
    method HelloProtocolInput(packets: seq<Event>)
      requires Valid() && forall p :: p in packets ==> p.HelloFrom?
      modifies this`nodesAdded, this`devChangeFlag, devs`elems, devs.Nodes()
      ensures Valid() && fresh(devs.Nodes() - old(devs.Nodes()))
      ensures Abs() == Run(old(Abs()), myIpAddr, packets)
    {
      ghost var t := Abs();
      var n := 0;
      while n < |packets|
        invariant n <= |packets| && Valid() && fresh(devs.Nodes() - old(devs.Nodes()))
        invariant Abs() == Run(t, myIpAddr, packets[..n])
      {
        RunOneMore(t, myIpAddr, packets, n);
        ReceiveHello(packets[n].address, packets[n].connected);
        n := n + 1;
      }
      assert packets[..n] == packets;
    }

    /** The transition on a client's socket shutdown. */
    method ClientSocketShutdown(node: Node, ghost i: nat)
      requires Valid() && WellFormed(DataOf(devs.elems), myIpAddr)
      requires i < |devs.elems| && devs.elems[i] == node && node.data.devType == TcpCmdClient
      modifies this, devs`elems, devs.Nodes()`forw, devs.Nodes()`back
      ensures Valid() && devs.Nodes() <= old(devs.Nodes())
      ensures Abs() == Apply(old(Abs()), myIpAddr, ClientClosed(old(node.data.address)))
    {
      DataAt(devs.elems, i);
      FindIs(DataOf(devs.elems), node.data.address, i);
      TcpCmdClientShutdown(node, true, i);
    }

    /** The socket of the client for an address has ended, if there is such a client. */
    method CloseClient(address: nat)
      requires Valid() && WellFormed(DataOf(devs.elems), myIpAddr)
      modifies this, devs`elems, devs.Nodes()`forw, devs.Nodes()`back
      ensures Valid() && devs.Nodes() <= old(devs.Nodes())
      ensures Abs() == Apply(old(Abs()), myIpAddr, ClientClosed(address))
    {
      var node, i := FindClient(address);
      if node != null {
        DataAt(devs.elems, i);
        ClientSocketShutdown(node, i);
      }
    }

    /** What happens to the table: a packet, a tick, or the end of a client's socket, if there is such a client. */
    method Handle(e: Event)
      requires Valid() && Inv(Abs(), myIpAddr)
      modifies this, devs`elems, devs.Nodes()
      ensures Valid() && fresh(devs.Nodes() - old(devs.Nodes()))
      ensures Abs() == Apply(old(Abs()), myIpAddr, e)
    {
      match e
      case HelloFrom(address, connected) => ReceiveHello(address, connected);
      case Tick => HelloProtocolTimer();
      case ClientClosed(address) => CloseClient(address);
    }

    /** A whole history on the list: afterwards the list, the counters and the flag are what the history says. */
    method HandleAll(history: seq<Event>)
      requires Valid() && Inv(Abs(), myIpAddr)
      modifies this, devs`elems, devs.Nodes()
      ensures Valid() && fresh(devs.Nodes() - old(devs.Nodes()))
      ensures Abs() == Run(old(Abs()), myIpAddr, history) && Inv(Abs(), myIpAddr)
      ensures Clients(old(Abs()).devs) == 0 ==> FollowsHistory(old(Abs()), Abs(), myIpAddr, history)
    {
      ghost var t := Abs();
      var n := 0;
      while n < |history|
        invariant n <= |history| && Valid() && fresh(devs.Nodes() - old(devs.Nodes()))
        invariant Abs() == Run(t, myIpAddr, history[..n])
      {
        RunKeepsInv(t, myIpAddr, history[..n]);
        RunOneMore(t, myIpAddr, history, n);
        Handle(history[n]);
        n := n + 1;
      }
      assert history[..n] == history;
      RunKeepsInv(t, myIpAddr, history);
      if Clients(t.devs) == 0 {
        RunFollowsHistory(t, myIpAddr, history);
      }
    }
  }
}
