/** Which devices the main loop touches, and whether they are still linked then. */
module MainLoop {
  import opened Common
  import opened RoundRobin
  import opened NodeTable

  /** A device is known by a number that is never given twice; `openFds` are the descriptors it has open. */
  datatype Device = Device(id: nat, devType: DevType, openFds: nat)

  /** The device list, the owners of the poll table's slots, the change flag, and the next fresh number. */
  datatype World = World(devs: seq<Device>, slots: seq<nat>, changed: bool, nextId: nat)

  /** How connecting to a new node goes: there is no socket for it, or `connect` fails, or it does not. */
  datatype Joining = NoSocket | Refused | Connected

  /** What the dispatched device's transition does to the device list. */
  datatype Outcome =
    | Nothing
    | Accepts(openFds: nat)
    | Hellos(joins: seq<Joining>)
    | Expires(gone: set<nat>)
    | ShutsDown

  /** One pass of the loop: whether the scan meets an error, the slot that is picked, if any, and what happens then. */
  datatype Choice = Choice(error: bool, slot: Option<nat>, outcome: Outcome)

  /** An access to a device's record, with the device list at that moment. */
  datatype Touch = Touch(id: nat, devs: seq<Device>)

  predicate Linked(devs: seq<Device>, id: nat) {
    exists i :: 0 <= i < |devs| && devs[i].id == id
  }

  predicate Safe(t: Touch) {
    Linked(t.devs, t.id)
  }

  /** Which transitions the state tables of the device types lead to. */
  predicate Allowed(d: Device, o: Outcome) {
    match o
    case Nothing => true
    case Accepts(_) => d.devType == TcpConnSrv
    case Hellos(_) => d.devType == Hello
    case Expires(_) => d.devType == Hello
    case ShutsDown => d.devType == TcpCmdSrv || d.devType == TcpCmdClient
  }

  // ---- One pass ----

  function Repeat(id: nat, n: nat): seq<nat> {
    seq(n, _ => id)
  }

  function WantedSlots(devs: seq<Device>): seq<nat> {
    if devs == [] then [] else Repeat(devs[0].id, devs[0].openFds) + WantedSlots(devs[1..])
  }

  /** The rebuild at the top of the loop. */
  function InitPollFds(w: World): World {
    if w.changed then
      var all := WantedSlots(w.devs);
      w.(slots := all[..Min(|all|, MAX_DEVICES)], changed := false)
    else w
  }

  /** Unlinks the devices in `gone`. */
  function Without(devs: seq<Device>, gone: set<nat>): seq<Device> {
    if devs == [] then []
    else (if devs[0].id in gone then [] else [devs[0]]) + Without(devs[1..], gone)
  }

  /** A client has an event and a timer descriptor, and one for its socket if there is one. */
  function ClientFds(j: Joining): nat {
    if j.NoSocket? then 2 else 3
  }

  /** Links a client; one without a socket counts as a success, a refused one does not. */
  function AddClient(w: World, j: Joining): World {
    w.(devs := w.devs + [Device(w.nextId, TcpCmdClient, ClientFds(j))],
       nextId := w.nextId + 1, changed := w.changed || !j.Refused?)
  }

  function AddClients(w: World, joins: seq<Joining>): World
    decreases |joins|
  {
    if joins == [] then w else AddClients(AddClient(w, joins[0]), joins[1..])
  }

  function ClientsAmong(devs: seq<Device>, gone: set<nat>): set<nat> {
    set i | 0 <= i < |devs| && devs[i].devType == TcpCmdClient && devs[i].id in gone :: devs[i].id
  }

  function Transition(w: World, d: Device, o: Outcome): World {
    match o
    case Nothing => w
    case Accepts(openFds) =>
      w.(devs := w.devs + [Device(w.nextId, TcpCmdSrv, openFds)], nextId := w.nextId + 1, changed := true)
    case Hellos(joins) => AddClients(w, joins)
    case Expires(gone) =>
      var clients := ClientsAmong(w.devs, gone);
      w.(devs := Without(w.devs, clients), changed := w.changed || clients != {})
    case ShutsDown => w.(devs := Without(w.devs, {d.id}), changed := true)
  }

  /** The scan looks at the owners of the slots. */
  function Scanned(w: World, slots: seq<nat>): seq<Touch> {
    if slots == [] then [] else [Touch(slots[0], w.devs)] + Scanned(w, slots[1..])
  }

  function Find(devs: seq<Device>, id: nat): (d: Option<Device>)
    ensures d.Some? <==> Linked(devs, id)
    ensures d.Some? ==> d.value in devs && d.value.id == id
  {
    if devs == [] then None else if devs[0].id == id then Some(devs[0]) else Find(devs[1..], id)
  }

  /** The loop body, and every device record it touches on the way. */
  function Pass(w: World, c: Choice): (World, seq<Touch>) {
    var w0 := InitPollFds(w);
    var scan := Scanned(w0, w0.slots);
    // an error on a slot asks for a rebuild
    var w1 := w0.(changed := w0.changed || c.error);
    if c.slot == None || c.slot.value >= |w1.slots| then (w1, scan)
    else
      var id := w1.slots[c.slot.value];
      var d := Find(w1.devs, id);
      // the record is read to fetch the event and to look up and call the routine
      var fetch := scan + [Touch(id, w1.devs)];
      if d == None || !Allowed(d.value, c.outcome) then (w1, fetch)
      else
        var w2 := Transition(w1, d.value, c.outcome);
        // after a shutdown the rest of the pass is skipped; otherwise state and timer are written
        if c.outcome == ShutsDown then (w2, fetch) else (w2, fetch + [Touch(id, w2.devs)])
  }

  /** All accesses of a run. */
  function Touches(w: World, choices: seq<Choice>): seq<Touch>
    decreases |choices|
  {
    if choices == [] then [] else Pass(w, choices[0]).1 + Touches(Pass(w, choices[0]).0, choices[1..])
  }

  // ---- The invariant at the top of the loop ----

  predicate AllLinked(devs: seq<Device>, slots: seq<nat>) {
    forall p :: 0 <= p < |slots| ==> Linked(devs, slots[p])
  }

  /** Device numbers are different, and below the next fresh one. */
  predicate Numbered(devs: seq<Device>, nextId: nat) {
    && (forall i :: 0 <= i < |devs| ==> devs[i].id < nextId)
    && (forall i, j :: 0 <= i < j < |devs| ==> devs[i].id != devs[j].id)
  }

  /** Numbers are used once, and a table that names an unlinked device is marked for a rebuild. */
  predicate Inv(w: World) {
    Numbered(w.devs, w.nextId) && (w.changed || AllLinked(w.devs, w.slots))
  }

  lemma {:induction false} WantedAreLinked(devs: seq<Device>)
    ensures AllLinked(devs, WantedSlots(devs))
  {
    if devs != [] {
      var rest := WantedSlots(devs[1..]);
      WantedAreLinked(devs[1..]);
      forall p | 0 <= p < |rest| ensures Linked(devs, rest[p]) {
        var i :| 0 <= i < |devs[1..]| && devs[1..][i].id == rest[p];
        assert devs[i + 1].id == rest[p];
      }
      assert devs[0].id == devs[0].id;
    }
  }

  /** Unlinking keeps order and everything that is not named. */
  lemma {:induction false} WithoutKeeps(devs: seq<Device>, gone: set<nat>, id: nat)
    ensures Linked(Without(devs, gone), id) <==> Linked(devs, id) && id !in gone
  {
    if devs != [] {
      WithoutKeeps(devs[1..], gone, id);
      var head, tail := if devs[0].id in gone then [] else [devs[0]], Without(devs[1..], gone);
      LinkedInConcat(head, tail, id);
      LinkedInConcat([devs[0]], devs[1..], id);
      assert [devs[0]] + devs[1..] == devs;
      assert Linked([devs[0]], id) <==> devs[0].id == id by {
        assert [devs[0]][0].id == devs[0].id;
      }
    }
  }

  lemma LinkedInConcat(a: seq<Device>, b: seq<Device>, id: nat)
    ensures Linked(a + b, id) <==> Linked(a, id) || Linked(b, id)
  {
    if Linked(a, id) {
      var i :| 0 <= i < |a| && a[i].id == id;
      assert (a + b)[i].id == id;
    }
    if Linked(b, id) {
      var i :| 0 <= i < |b| && b[i].id == id;
      assert (a + b)[|a| + i].id == id;
    }
  }

  lemma {:induction false} WithoutKeepsNumbers(devs: seq<Device>, gone: set<nat>, nextId: nat)
    requires Numbered(devs, nextId)
    ensures Numbered(Without(devs, gone), nextId)
  {
    if devs != [] {
      var tail := Without(devs[1..], gone);
      WithoutKeepsNumbers(devs[1..], gone, nextId);
      forall j | 0 <= j < |tail| ensures tail[j].id != devs[0].id {
        WithoutKeeps(devs[1..], gone, tail[j].id);
        assert Linked(tail, tail[j].id);
      }
    }
  }

  lemma {:induction false} AddingKeepsInv(w: World, joins: seq<Joining>)
    requires Inv(w)
    ensures Inv(AddClients(w, joins))
    decreases |joins|
  {
    if joins != [] {
      if AllLinked(w.devs, w.slots) {
        StaysLinked(w.devs, [Device(w.nextId, TcpCmdClient, ClientFds(joins[0]))], w.slots);
      }
      AddingKeepsInv(AddClient(w, joins[0]), joins[1..]);
    }
  }

  lemma StaysLinked(devs: seq<Device>, more: seq<Device>, slots: seq<nat>)
    requires AllLinked(devs, slots)
    ensures AllLinked(devs + more, slots)
  {
    forall p | 0 <= p < |slots| ensures Linked(devs + more, slots[p]) {
      LinkedInConcat(devs, more, slots[p]);
    }
  }

  lemma {:induction false} ScanIsSafe(w: World, slots: seq<nat>)
    requires AllLinked(w.devs, slots)
    ensures forall t :: t in Scanned(w, slots) ==> Safe(t)
  {
    if slots != [] {
      assert Linked(w.devs, slots[0]);
      forall p | 0 <= p < |slots[1..]| ensures Linked(w.devs, slots[1..][p]) {
        assert slots[1..][p] == slots[p + 1];
      }
      ScanIsSafe(w, slots[1..]);
    }
  }

  /** A transition keeps the invariant, and unlinks the dispatched device only when it reports a shutdown. */
  lemma TransitionKeepsInv(w: World, d: Device, o: Outcome)
    requires Inv(w) && AllLinked(w.devs, w.slots) && d in w.devs && Allowed(d, o)
    ensures Inv(Transition(w, d, o))
    ensures Linked(Transition(w, d, o).devs, d.id) <==> o != ShutsDown
  {
    var k :| 0 <= k < |w.devs| && w.devs[k] == d;
    assert Linked(w.devs, d.id);
    match o
    case Nothing =>
    case Accepts(n) =>
      LinkedInConcat(w.devs, [Device(w.nextId, TcpCmdSrv, n)], d.id);
    case Hellos(joins) =>
      AddingKeepsInv(w, joins);
      ClientsComeLast(w, joins);
      assert AddClients(w, joins).devs[k].id == d.id;
    case Expires(gone) =>
      var clients := ClientsAmong(w.devs, gone);
      WithoutKeeps(w.devs, clients, d.id);
      WithoutKeepsNumbers(w.devs, clients, w.nextId);
      if clients == {} {
        forall p | 0 <= p < |w.slots| ensures Linked(Without(w.devs, clients), w.slots[p]) {
          WithoutKeeps(w.devs, clients, w.slots[p]);
        }
      }
    case ShutsDown =>
      WithoutKeeps(w.devs, {d.id}, d.id);
      WithoutKeepsNumbers(w.devs, {d.id}, w.nextId);
  }

  lemma PassIsSafe(w: World, c: Choice)
    requires Inv(w)
    ensures Inv(Pass(w, c).0)
    ensures forall t :: t in Pass(w, c).1 ==> Safe(t)
  {
    var w0 := InitPollFds(w);
    var w1 := w0.(changed := w0.changed || c.error);
    WantedAreLinked(w.devs);
    ScanIsSafe(w0, w0.slots);
    if c.slot.Some? && c.slot.value < |w1.slots| {
      var id := w1.slots[c.slot.value];
      var d := Find(w1.devs, id);
      if d.Some? && Allowed(d.value, c.outcome) {
        TransitionKeepsInv(w1, d.value, c.outcome);
      }
    }
  }

  /** Over every run: the loop never touches a device that is no longer linked. */
  lemma {:induction false} NoUseAfterUnlink(w: World, choices: seq<Choice>)
    requires Inv(w)
    ensures forall t :: t in Touches(w, choices) ==> Safe(t)
    decreases |choices|
  {
    if choices != [] {
      PassIsSafe(w, choices[0]);
      NoUseAfterUnlink(Pass(w, choices[0]).0, choices[1..]);
    }
  }

  // ---- Which new clients are polled ----

  lemma {:induction false} JoiningFlags(w: World, joins: seq<Joining>)
    ensures AddClients(w, joins).changed <==> w.changed || NoSocket in joins || Connected in joins
    decreases |joins|
  {
    if joins != [] {
      JoiningFlags(AddClient(w, joins[0]), joins[1..]);
      assert joins == [joins[0]] + joins[1..];
    }
  }

  /** Client number `j` comes right behind the ones before it, whatever becomes of its connection. */
  lemma {:induction false} JoinedAt(w: World, joins: seq<Joining>, j: nat)
    requires j < |joins|
    ensures var t := AddClients(w, joins);
            && t.slots == w.slots && |t.devs| == |w.devs| + |joins|
            && t.devs[|w.devs| + j] == Device(w.nextId + j, TcpCmdClient, ClientFds(joins[j]))
    decreases |joins|
  {
    var w1 := AddClient(w, joins[0]);
    if j > 0 {
      JoinedAt(w1, joins[1..], j - 1);
    } else if joins[1..] != [] {
      JoinedAt(w1, joins[1..], 0);
      ClientsComeLast(w1, joins[1..]);
    }
  }

  lemma {:induction false} ClientsComeLast(w: World, joins: seq<Joining>)
    ensures w.devs <= AddClients(w, joins).devs
    decreases |joins|
  {
    if joins != [] {
      ClientsComeLast(AddClient(w, joins[0]), joins[1..]);
    }
  }

  lemma {:induction false} WantedOfConcat(a: seq<Device>, b: seq<Device>)
    ensures WantedSlots(a + b) == WantedSlots(a) + WantedSlots(b)
  {
    if a == [] {
      assert a + b == b;
    } else {
      assert (a + b)[1..] == a[1..] + b;
      WantedOfConcat(a[1..], b);
    }
  }

  /** The first element of `rest` is among the first `n` of all exactly when fewer than `n` come before it. */
  lemma AmongFirst<T>(before: seq<T>, rest: seq<T>, n: nat)
    requires rest != [] && rest[0] !in before && n <= |before + rest|
    ensures rest[0] in (before + rest)[..n] <==> |before| < n
  {
    if |before| < n {
      assert (before + rest)[..n][|before|] == rest[0];
    } else {
      assert (before + rest)[..n] == before[..n];
    }
  }

  /** A device is among the first `n` slots exactly when fewer than `n` come before it. */
  lemma AmongFirstSlots(devs: seq<Device>, nextId: nat, i: nat, n: nat)
    requires Numbered(devs, nextId) && i < |devs| && devs[i].openFds > 0 && n <= |WantedSlots(devs)|
    ensures |WantedSlots(devs[..i])| < |WantedSlots(devs)|
    ensures devs[i].id in WantedSlots(devs)[..n] <==> |WantedSlots(devs[..i])| < n
  {
    var before, rest, id := WantedSlots(devs[..i]), WantedSlots(devs[i..]), devs[i].id;
    WantedAreLinked(devs[..i]);
    assert devs[i..][0] == devs[i] && rest[0] == Repeat(id, devs[i].openFds)[0] == id;
    forall p | 0 <= p < |before| ensures before[p] != id {
      assert Linked(devs[..i], before[p]);
    }
    assert WantedSlots(devs) == before + rest by {
      assert devs == devs[..i] + devs[i..];
      WantedOfConcat(devs[..i], devs[i..]);
    }
    AmongFirst(before, rest, n);
  }

  /**
   After the next rebuild a new client is polled exactly when its own or another hello, or something
   before, has set the change flag, and it still finds a place in the table.
   */
  lemma ClientPolledExactlyWhen(w: World, joins: seq<Joining>, j: nat)
    requires Inv(w) && j < |joins|
    ensures var t := AddClients(w, joins);
            && |t.devs| == |w.devs| + |joins|
            && (w.nextId + j in InitPollFds(t).slots <==>
                && (w.changed || NoSocket in joins || Connected in joins)
                && |WantedSlots(t.devs[..|w.devs| + j])| < 32)
  {
    var t := AddClients(w, joins);
    JoiningFlags(w, joins);
    JoinedAt(w, joins, j);
    AddingKeepsInv(w, joins);
    if t.changed {
      AmongFirstSlots(t.devs, t.nextId, |w.devs| + j, Min(|WantedSlots(t.devs)|, MAX_DEVICES));
    } else {
      forall p | 0 <= p < |w.slots| ensures w.slots[p] != w.nextId + j {
        assert Linked(w.devs, w.slots[p]);
      }
    }
  }

  /** For instance a single client whose connection is refused: it is linked, but not polled. */
  lemma RefusedClientIsNotPolled(w: World, d: Device)
    requires Inv(w) && !w.changed && d.devType == Hello
    ensures var w1 := Transition(w, d, Hellos([Refused]));
            Linked(w1.devs, w.nextId) && InitPollFds(w1) == w1 && w.nextId !in w1.slots
  {
    var joins := [Refused];
    ClientPolledExactlyWhen(w, joins, 0);
    JoinedAt(w, joins, 0);
    JoiningFlags(w, joins);
    assert Transition(w, d, Hellos(joins)).devs[|w.devs|].id == w.nextId;
  }

  // ---- What a pass makes of the list, and of the table after the next rebuild ----

  /** The pass dispatches device `d`. */
  predicate Dispatches(w: World, c: Choice, d: Device) {
    var slots := InitPollFds(w).slots;
    d in w.devs && c.slot.Some? && c.slot.value < |slots| && slots[c.slot.value] == d.id
  }

  lemma {:induction false} FindIs(devs: seq<Device>, nextId: nat, d: Device)
    requires Numbered(devs, nextId) && d in devs
    ensures Find(devs, d.id) == Some(d)
  {
    if devs[0] != d {
      var i :| 0 < i < |devs| && devs[i] == d;
      assert devs[1..][i - 1] == d && devs[0].id != devs[i].id;
      FindIs(devs[1..], nextId, d);
    }
  }

  /** After the rebuild at its top a pass is the dispatched device's transition; an error seen asks for a rebuild. */
  lemma PassIsTransition(w: World, c: Choice, d: Device)
    requires Inv(w) && Dispatches(w, c, d) && Allowed(d, c.outcome)
    ensures var w1 := World(w.devs, InitPollFds(w).slots, c.error, w.nextId);
            Inv(w1) && AllLinked(w.devs, w1.slots) && Pass(w, c).0 == Transition(w1, d, c.outcome)
  {
    WantedAreLinked(w.devs);
    FindIs(w.devs, w.nextId, d);
    assert InitPollFds(w).devs == w.devs;
  }

  /** A new device that comes last is in a rebuilt table exactly when there is a slot left for it. */
  lemma LastIsPolled(w: World, d: Device)
    requires Numbered(w.devs + [d], w.nextId) && w.changed && d.openFds > 0
    ensures d.id in InitPollFds(w.(devs := w.devs + [d])).slots <==> |WantedSlots(w.devs)| < 32
  {
    var devs := w.devs + [d];
    assert devs[..|w.devs|] == w.devs;
    AmongFirstSlots(devs, w.nextId, |w.devs|, Min(|WantedSlots(devs)|, 32));
  }

  /**
   A connection that is accepted is linked last, and is polled after the next rebuild exactly when fewer
   than 32 descriptors come before it.
   */
  lemma AcceptedIsPolledExactlyWhen(w: World, c: Choice, d: Device, n: nat)
    requires Inv(w) && Dispatches(w, c, d) && d.devType == TcpConnSrv && c.outcome == Accepts(n) && n > 0
    ensures var t := Pass(w, c).0;
            && t.devs == w.devs + [Device(w.nextId, TcpCmdSrv, n)]
            && (w.nextId in InitPollFds(t).slots <==> |WantedSlots(w.devs)| < 32)
  {
    PassIsTransition(w, c, d);
    var t := Pass(w, c).0;
    LastIsPolled(t.(devs := w.devs), Device(w.nextId, TcpCmdSrv, n));
  }

  /** The clients of a list that have not been heard of. */
  predicate Expired(devs: seq<Device>, gone: set<nat>, id: nat) {
    exists i :: 0 <= i < |devs| && devs[i].id == id && devs[i].devType == TcpCmdClient && id in gone
  }

  lemma UnlinkedHaveNoSlot(t: World, id: nat)
    requires Inv(t) && !Linked(t.devs, id)
    ensures id !in InitPollFds(t).slots
  {
    WantedAreLinked(t.devs);
    assert AllLinked(t.devs, InitPollFds(t).slots);
  }

  /** A tick unlinks exactly the clients that have expired; none of them has a slot after the next rebuild. */
  lemma ExpiredAreGone(w: World, c: Choice, d: Device, gone: set<nat>)
    requires Inv(w) && Dispatches(w, c, d) && d.devType == Hello && c.outcome == Expires(gone)
    ensures var t := Pass(w, c).0;
            && (forall id :: Linked(t.devs, id) <==> Linked(w.devs, id) && !Expired(w.devs, gone, id))
            && (forall id :: Expired(w.devs, gone, id) ==> id !in InitPollFds(t).slots)
            && (t.changed <==> c.error || exists id :: Expired(w.devs, gone, id))
  {
    PassIsTransition(w, c, d);
    PassIsSafe(w, c);
    var t, clients := Pass(w, c).0, ClientsAmong(w.devs, gone);
    forall id ensures id in clients <==> Expired(w.devs, gone, id) {
    }
    assert clients != {} ==> exists id :: id in clients;
    forall id ensures Linked(t.devs, id) <==> Linked(w.devs, id) && !Expired(w.devs, gone, id) {
      WithoutKeeps(w.devs, clients, id);
    }
    forall id | Expired(w.devs, gone, id) ensures id !in InitPollFds(t).slots {
      UnlinkedHaveNoSlot(t, id);
    }
  }

  /** A connection that ends is unlinked, alone, and has no slot after the next rebuild. */
  lemma ShutDownIsGone(w: World, c: Choice, d: Device)
    requires Inv(w) && Dispatches(w, c, d) && (d.devType == TcpCmdSrv || d.devType == TcpCmdClient)
    requires c.outcome == ShutsDown
    ensures var t := Pass(w, c).0;
            && (forall id :: Linked(t.devs, id) <==> Linked(w.devs, id) && id != d.id)
            && d.id !in InitPollFds(t).slots
  {
    PassIsTransition(w, c, d);
    PassIsSafe(w, c);
    var t := Pass(w, c).0;
    forall id ensures Linked(t.devs, id) <==> Linked(w.devs, id) && id != d.id {
      WithoutKeeps(w.devs, {d.id}, id);
    }
    UnlinkedHaveNoSlot(t, d.id);
  }

  /** How many new clients have no socket. */
  function NoSockets(joins: seq<Joining>): (n: nat)
    ensures n <= |joins|
  {
    if joins == [] then 0 else NoSockets(joins[..|joins| - 1]) + (if joins[|joins| - 1] == NoSocket then 1 else 0)
  }

  /** A new client asks for three slots, and for two when it has no socket. */
  lemma {:induction false} WantedByJoined(w: World, joins: seq<Joining>, j: nat)
    requires j <= |joins|
    ensures var t := AddClients(w, joins);
            |t.devs| >= |w.devs| + j
            && |WantedSlots(t.devs[..|w.devs| + j])| == |WantedSlots(w.devs)| + 3 * j - NoSockets(joins[..j])
    decreases j
  {
    var t, n := AddClients(w, joins), |w.devs| + j;
    ClientsComeLast(w, joins);
    if j == 0 {
      assert t.devs[..n] == w.devs;
    } else {
      WantedByJoined(w, joins, j - 1);
      JoinedAt(w, joins, j - 1);
      var last := t.devs[n - 1];
      assert t.devs[..n] == t.devs[..n - 1] + [last];
      WantedOfConcat(t.devs[..n - 1], [last]);
      assert [last][1..] == [] && |WantedSlots([last])| == last.openFds;
      assert joins[..j][..j - 1] == joins[..j - 1];
    }
  }

  /** The same for a pass that brings new clients, in numbers. */
  lemma JoinedIsPolledExactlyWhen(w: World, c: Choice, d: Device, joins: seq<Joining>, j: nat)
    requires Inv(w) && Dispatches(w, c, d) && d.devType == Hello && c.outcome == Hellos(joins) && j < |joins|
    ensures var t := Pass(w, c).0;
            && Linked(t.devs, w.nextId + j)
            && (w.nextId + j in InitPollFds(t).slots <==>
                && (c.error || NoSocket in joins || Connected in joins)
                && |WantedSlots(w.devs)| + 3 * j - NoSockets(joins[..j]) < 32)
  {
    PassIsTransition(w, c, d);
    var w1 := World(w.devs, InitPollFds(w).slots, c.error, w.nextId);
    ClientPolledExactlyWhen(w1, joins, j);
    WantedByJoined(w1, joins, j);
    JoinedAt(w1, joins, j);
    assert Pass(w, c).0.devs[|w.devs| + j].id == w.nextId + j;
  }

  /** An error on any slot has the table rebuilt at the top of the next pass, whatever else the pass does. */
  lemma ErrorRebuilds(w: World, c: Choice)
    requires c.error
    ensures var t := Pass(w, c).0;
            var all := WantedSlots(t.devs);
            InitPollFds(t).slots == all[..Min(|all|, 32)]
  {
    var t := Pass(w, c).0;
    match c.outcome {
      case Hellos(joins) =>
        JoiningFlags(InitPollFds(w).(changed := true), joins);
      case _ =>
    }
    assert t.changed;
  }

  /** And a pass that sees none and changes nothing leaves the table as the rebuild at its top has made it. */
  lemma NothingChanges(w: World, c: Choice)
    requires !c.error && (c.slot == None || c.slot.value >= |InitPollFds(w).slots| || c.outcome == Nothing)
    ensures var t := Pass(w, c).0;
            t.devs == w.devs && InitPollFds(t).slots == t.slots == InitPollFds(w).slots
  {
  }

  // ---- Which records a run touches ----

  lemma {:induction false} ScannedAt(w: World, slots: seq<nat>)
    ensures |Scanned(w, slots)| == |slots|
    ensures forall p :: 0 <= p < |slots| ==> Scanned(w, slots)[p] == Touch(slots[p], w.devs)
  {
    if slots != [] {
      ScannedAt(w, slots[1..]);
    }
  }

  /**
   A pass touches the owner of every slot, then the device it dispatches, and that one again when its
   transition is over, unless it has shut down: none is forgotten.
   */
  lemma PassTouches(w: World, c: Choice, d: Device)
    requires Inv(w) && Dispatches(w, c, d) && Allowed(d, c.outcome)
    ensures var touches, slots := Pass(w, c).1, InitPollFds(w).slots;
            && |touches| == |slots| + (if c.outcome == ShutsDown then 1 else 2)
            && (forall p :: 0 <= p < |slots| ==> touches[p] == Touch(slots[p], w.devs))
            && touches[|slots|] == Touch(d.id, w.devs)
            && (c.outcome != ShutsDown ==> touches[|slots| + 1] == Touch(d.id, Pass(w, c).0.devs))
  {
    WantedAreLinked(w.devs);
    FindIs(w.devs, w.nextId, d);
    ScannedAt(InitPollFds(w), InitPollFds(w).slots);
  }

  function After(w: World, choices: seq<Choice>): World
    decreases |choices|
  {
    if choices == [] then w else After(Pass(w, choices[0]).0, choices[1..])
  }

  /** What a run touches is what its passes touch, one after the other. */
  lemma {:induction false} TouchesOfPass(w: World, choices: seq<Choice>, n: nat, t: Touch)
    requires n < |choices| && t in Pass(After(w, choices[..n]), choices[n]).1
    ensures t in Touches(w, choices)
    decreases |choices|
  {
    if n > 0 {
      assert choices[..n][1..] == choices[1..][..n - 1];
      TouchesOfPass(Pass(w, choices[0]).0, choices[1..], n - 1, t);
    }
  }
}
