/** One connection of the TCP command server, as a machine over the events its main loop dispatches. */
module CmdServer {
  import opened Common
  import opened CmdParse
  import opened Framing
  import opened StateTable

  datatype State = CmdWait | CmdAssemble | CmdExec | CmdExecPlus

  datatype Event =
    | SocketInput
    | SocketShutdown
    | TimerExpired
    | AssembleComplete
    | AssembleCompletePlus
    | CmdFinished

  datatype Routine = Input | ExeCmd | CleanupCmd | InProgress | ParseRemaining | Shutdown

  /** What a routine returns; `Overrun` stands for one that has stored over the device's ring pointer. */
  datatype Status = Ok | Error | DeviceShutdown | Overrun

  /** Size of `recvBuf`, of a `recv` into it, and capacity of the ring. */
  const MAX_RECV_BUF_SIZE := 132

  /** The rows of the state table, first to last. */
  function TableRow(i: nat): Row<State, Event, Routine>
    requires i < 11
  {
    match i
    case 0 => Row(Exactly(CmdWait), Exactly(TimerExpired), None, None, None, None, 0)
    case 1 => Row(Exactly(CmdWait), Exactly(SocketInput), Some(CmdAssemble), None, Some(Input), None, 5)
    case 2 => Row(Exactly(CmdAssemble), Exactly(AssembleComplete), Some(CmdExec), None, Some(ExeCmd), None, 0)
    case 3 => Row(Exactly(CmdAssemble), Exactly(AssembleCompletePlus), Some(CmdExecPlus), None, Some(ExeCmd), None, 0)
    case 4 => Row(Exactly(CmdAssemble), Exactly(SocketInput), Some(CmdAssemble), None, Some(Input), None, 5)
    case 5 => Row(Exactly(CmdAssemble), Exactly(TimerExpired), Some(CmdWait), None, Some(CleanupCmd), None, 0)
    case 6 => Row(Exactly(CmdExec), Exactly(CmdFinished), Some(CmdWait), None, Some(CleanupCmd), None, 0)
    case 7 => Row(Exactly(CmdExec), Exactly(SocketInput), Some(CmdExec), None, Some(InProgress), None, 5)
    case 8 => Row(Exactly(CmdExecPlus), Exactly(CmdFinished), Some(CmdAssemble), None, Some(ParseRemaining), None, 5)
    case 9 => Row(Exactly(CmdExecPlus), Exactly(SocketInput), Some(CmdExecPlus), None, Some(InProgress), None, 5)
    case _ => Row(Wildcard, Exactly(SocketShutdown), Some(CmdWait), None, Some(Shutdown), None, 10)
  }

  function Table(): seq<Row<State, Event, Routine>> {
    seq(11, i requires 0 <= i < 11 => TableRow(i))
  }

  /** The row that applies, by state and event; `TableLookup` proves that this is what the search finds. */
  function RowIndex(s: State, e: Event): nat {
    match (s, e)
    case (_, SocketShutdown) => 10
    case (CmdWait, TimerExpired) => 0
    case (CmdWait, SocketInput) => 1
    case (CmdAssemble, AssembleComplete) => 2
    case (CmdAssemble, AssembleCompletePlus) => 3
    case (CmdAssemble, SocketInput) => 4
    case (CmdAssemble, TimerExpired) => 5
    case (CmdExec, CmdFinished) => 6
    case (CmdExec, SocketInput) => 7
    case (CmdExecPlus, CmdFinished) => 8
    case (CmdExecPlus, SocketInput) => 9
    case _ => 10
  }

  lemma LookupInRows(table: seq<Row<State, Event, Routine>>, s: State, e: Event)
    requires |table| == 11 && forall i :: 0 <= i < 11 ==> table[i] == TableRow(i)
    ensures FirstMatch(table, s, e) == RowIndex(s, e)
  {
    FirstMatchIs(table, s, e, RowIndex(s, e));
  }

  /** The wildcard row takes every event that no other row names, not only the one in its event column. */
  lemma TableLookup(s: State, e: Event)
    ensures FirstMatch(Table(), s, e) == RowIndex(s, e) < |Table()|
    ensures Table()[RowIndex(s, e)] == TableRow(RowIndex(s, e))
  {
    LookupInRows(Table(), s, e);
  }

  /**
   The device.  `line` is the command line assembled last; `done` are all lines executed so far;
   `timer` is the number of seconds the timer is armed with, 0 when it is not.  A device is no longer
   `live` when it is shut down, or when a line with too many arguments has been stored over its ring
   pointer: it has `overrun` then, and is not followed any further.
   */
  datatype Config = Config(
    live: bool, overrun: bool, state: State, evts: seq<Event>, evtCnt: nat,
    ring: seq<Byte>, line: seq<Byte>, timer: nat, done: seq<seq<Byte>>)

  const INIT := Config(true, false, CmdWait, [], 0, [], [], 0, [])

  /** What `poll` and `recv` report; `Readable([])` is an end of file or an error in `recv`. */
  datatype Socket = Quiet | Readable(data: seq<Byte>) | HungUp
  datatype Poll = Poll(socket: Socket, timerFired: bool)

  const QUIET := Poll(Quiet, false)

  // ---- The transition routines ----

  function AddEvent(c: Config, e: Event): Config {
    c.(evts := c.evts + [e], evtCnt := c.evtCnt + 1)
  }

  function Assemble(c: Config): (Config, Status) {
    if CR !in c.ring then (c, Error)
    else
      var rest := AfterLine(c.ring);
      var taken := c.(ring := rest, line := c.ring[..FirstCR(c.ring)]);
      (AddEvent(taken, if rest == [] then AssembleComplete else AssembleCompletePlus), Ok)
  }

  /** The part of `data` for which the ring has room. */
  function Accepted(ring: seq<Byte>, data: seq<Byte>): seq<Byte>
    requires |ring| <= MAX_RECV_BUF_SIZE
  {
    data[..Min(|data|, MAX_RECV_BUF_SIZE - |ring|)]
  }

  function ReadInput(c: Config, data: seq<Byte>): (Config, Status)
    requires |c.ring| <= MAX_RECV_BUF_SIZE
  {
    if data == [] then (AddEvent(c, SocketShutdown), Ok)
    else Assemble(c.(ring := c.ring + Accepted(c.ring, data)))
  }

  function ExecuteLine(c: Config): (Config, Status) {
    if FewArgs(c.line) then (AddEvent(c.(done := c.done + [c.line]), CmdFinished), Ok)
    else (c.(live := false, overrun := true), Overrun)
  }

  function CallRoutine(c: Config, r: Routine, data: seq<Byte>): (Config, Status)
    requires |c.ring| <= MAX_RECV_BUF_SIZE
  {
    match r
    case Input => ReadInput(c, data)
    case InProgress => ReadInput(c, data)
    case ExeCmd => ExecuteLine(c)
    case CleanupCmd => (c, Ok)
    case ParseRemaining => Assemble(c)
    case Shutdown => (c.(live := false), DeviceShutdown)
  }

  // ---- One pass of the main loop ----

  /** The event to dispatch: queued events first, then the socket, then the timer. */
  function NextEvent(c: Config, p: Poll): Option<Event>
    requires c.evtCnt > 0 ==> c.evts != []
  {
    if c.evtCnt > 0 then Some(c.evts[0])
    else match p.socket
      case Readable(_) => Some(SocketInput)
      case HungUp => Some(SocketShutdown)
      case Quiet => if p.timerFired && c.timer > 0 then Some(TimerExpired) else None
  }

  /** Fetching the event dequeues it and clears the whole event counter. */
  function Fetched(c: Config): Config
    requires c.evtCnt > 0 ==> c.evts != []
  {
    if c.evtCnt > 0 then c.(evts := c.evts[1..], evtCnt := 0) else c
  }

  function Dispatch(c: Config, e: Event, data: seq<Byte>): Config
    requires |c.ring| <= MAX_RECV_BUF_SIZE
  {
    RunRow(c, TableRow(RowIndex(c.state, e)), data)
  }

  function RunRow(c: Config, row: Row<State, Event, Routine>, data: seq<Byte>): Config
    requires |c.ring| <= MAX_RECV_BUF_SIZE
  {
    var c0 := c.(timer := 0);
    var (c1, status) := match row.transRtn
                        case None => (c0, Ok)
                        case Some(r) => CallRoutine(c0, r, data);
    match status
    case DeviceShutdown => c1
    case Overrun => c1
    case Ok => c1.(timer := row.secTimerVal, state := if row.nextState.Some? then row.nextState.value else c1.state)
    case Error => c1.(timer := row.secTimerVal, state := if row.errState.Some? then row.errState.value else c1.state)
  }

  /** What was left on the timer never matters: a device that lives on has the row's own value armed. */
  lemma TimeLeftIsForgotten(c: Config, left: nat, row: Row<State, Event, Routine>, data: seq<Byte>)
    requires c.live && |c.ring| <= MAX_RECV_BUF_SIZE
    ensures RunRow(c.(timer := left), row, data) == RunRow(c, row, data)
    ensures RunRow(c, row, data).live ==> RunRow(c, row, data).timer == row.secTimerVal
  {
  }

  function Received(p: Poll): seq<Byte> {
    if p.socket.Readable? then p.socket.data else []
  }

  function Step(c: Config, p: Poll): Config
    requires Inv(c)
  {
    if !c.live then c
    else match NextEvent(c, p)
      case None => c
      case Some(e) => Dispatch(Fetched(c), e, Received(p))
  }

  // ---- The invariant ----

  /** What the ring holds once `e` is queued by `Assemble` or by a failed `recv`. */
  predicate RingFits(e: Event, ring: seq<Byte>) {
    match e
    case AssembleComplete => ring == []
    case AssembleCompletePlus => ring != []
    case SocketShutdown => CR !in ring
    case _ => false
  }

  predicate Inv(c: Config) {
    c.live ==>
      && !c.overrun && |c.ring| <= MAX_RECV_BUF_SIZE
      && c.evtCnt == |c.evts| <= 1
      && match c.state
         case CmdWait => c.evts == [] && CR !in c.ring
         case CmdAssemble => c.evts != [] && RingFits(c.evts[0], c.ring)
         case CmdExec => c.evts == [CmdFinished] && c.ring == []
         case CmdExecPlus =>
           if c.evts == [] then CR !in c.ring && c.ring != [] && c.timer == 5
           else RingFits(c.evts[0], c.ring) || (c.evts == [CmdFinished] && c.ring != [])
  }

  // ---- What dispatching does, state by state ----

  /** A routine's result, once the loop has set the state and armed the row's timer of 5 seconds. */
  function Assembling(r: (Config, Status), next: State): Config {
    r.0.(timer := 5, state := if r.1 == Ok then next else r.0.state)
  }

  function Executed(c: Config, next: State): Config {
    if FewArgs(c.line) then
      c.(done := c.done + [c.line], evts := c.evts + [CmdFinished], evtCnt := c.evtCnt + 1, state := next, timer := 0)
    else c.(live := false, overrun := true, timer := 0)
  }

  /** `Step` with the table lookups carried out. */
  function Outcome(c: Config, p: Poll): Config
    requires Inv(c) && c.live
  {
    var f := c.(evts := [], evtCnt := 0);
    if c.evts != [] then
      match (c.state, c.evts[0])
      case (CmdAssemble, AssembleComplete) => Executed(f, CmdExec)
      case (CmdAssemble, AssembleCompletePlus) => Executed(f, CmdExecPlus)
      case (CmdExec, CmdFinished) => f.(state := CmdWait, timer := 0)
      case (CmdExecPlus, CmdFinished) => Assembling(Assemble(f.(timer := 0)), CmdAssemble)
      case _ => f.(live := false, timer := 0)
    else match p.socket
      case Readable(data) =>
        Assembling(ReadInput(c.(timer := 0), data), if c.state == CmdWait then CmdAssemble else CmdExecPlus)
      case HungUp => c.(live := false, timer := 0)
      case Quiet =>
        if !p.timerFired || c.timer == 0 then c
        else if c.state == CmdWait then c.(timer := 0)
        else c.(live := false, timer := 0)
  }

  lemma RowOutcomes(c: Config, data: seq<Byte>)
    requires |c.ring| <= MAX_RECV_BUF_SIZE
    ensures RunRow(c, TableRow(0), data) == c.(timer := 0)
    ensures RunRow(c, TableRow(1), data) == Assembling(ReadInput(c.(timer := 0), data), CmdAssemble)
  {
  }

  lemma ExecRowOutcomes(c: Config, data: seq<Byte>)
    requires |c.ring| <= MAX_RECV_BUF_SIZE
    ensures RunRow(c, TableRow(2), data) == Executed(c, CmdExec)
    ensures RunRow(c, TableRow(3), data) == Executed(c, CmdExecPlus)
  {
  }

  lemma LaterRowOutcomes(c: Config, data: seq<Byte>)
    requires |c.ring| <= MAX_RECV_BUF_SIZE
    ensures RunRow(c, TableRow(6), data) == c.(state := CmdWait, timer := 0)
    ensures RunRow(c, TableRow(10), data) == c.(live := false, timer := 0)
  {
  }

  lemma ExecPlusRowOutcomes(c: Config, data: seq<Byte>)
    requires |c.ring| <= MAX_RECV_BUF_SIZE
    ensures RunRow(c, TableRow(8), data) == Assembling(Assemble(c.(timer := 0)), CmdAssemble)
    ensures RunRow(c, TableRow(9), data) == Assembling(ReadInput(c.(timer := 0), data), CmdExecPlus)
  {
  }

  lemma StepIsOutcome(c: Config, p: Poll)
    requires Inv(c) && c.live
    ensures Step(c, p) == Outcome(c, p)
  {
    if c.evts != [] {
      var f := c.(evts := [], evtCnt := 0);
      assert Fetched(c) == f;
      RowOutcomes(f, Received(p));
      ExecRowOutcomes(f, Received(p));
      LaterRowOutcomes(f, Received(p));
      ExecPlusRowOutcomes(f, Received(p));
      assert Step(c, p) == RunRow(f, TableRow(RowIndex(c.state, c.evts[0])), Received(p));
    } else {
      RowOutcomes(c, Received(p));
      LaterRowOutcomes(c, Received(p));
      ExecPlusRowOutcomes(c, Received(p));
      var e := NextEvent(c, p);
      assert e.Some? ==> Step(c, p) == RunRow(c, TableRow(RowIndex(c.state, e.value)), Received(p));
    }
  }

  // ---- Every step keeps the invariant ----

  lemma AssemblingKeepsInv(c: Config, next: State)
    requires c.live && !c.overrun && |c.ring| <= MAX_RECV_BUF_SIZE && c.evts == [] && c.evtCnt == 0
    requires next == CmdAssemble || next == c.state == CmdExecPlus
    requires c.state == CmdWait || (c.state == CmdExecPlus && c.ring != [])
    ensures Inv(Assembling(Assemble(c), next))
  {
  }

  lemma StepKeepsInv(c: Config, p: Poll)
    requires Inv(c)
    ensures Inv(Step(c, p))
  {
    if c.live {
      StepIsOutcome(c, p);
      if c.state == CmdExecPlus && c.evts == [CmdFinished] {
        AssemblingKeepsInv(c.(evts := [], evtCnt := 0, timer := 0), CmdAssemble);
      } else if c.evts == [] && p.socket.Readable? && p.socket.data != [] {
        AssemblingKeepsInv(c.(ring := c.ring + Accepted(c.ring, p.socket.data), timer := 0),
                           if c.state == CmdWait then CmdAssemble else CmdExecPlus);
      }
    }
  }
}
