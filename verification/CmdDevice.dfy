/** The device of a command-server connection and the main loop's pass over it, refining `CmdServer`. */
module CmdDevice {
  import opened Common
  import opened Framing
  import opened RingBuffer
  import opened StateTable
  import opened CmdServer
  import opened CmdServerRuns
  import opened CmdReplies
  import opened CmdParse

  /** A line with a NUL in the place of its CR is a C string. */
  lemma LineIsText(buf: array<Byte>, line: seq<Byte>)
    requires |line| < buf.Length && buf[..|line|] == line && buf[|line|] == NUL
    ensures TextAt(buf, 0, CString(line))
  {
    assert forall i :: 0 <= i < |line| ==> buf[i] == buf[..|line|][i];
  }

  /** The row that `Step` runs. */
  lemma StepRunsRow(c: Config, p: Poll, e: Event, row: Row<State, Event, Routine>)
    requires Inv(c) && c.live && NextEvent(c, p) == Some(e) && row == TableRow(RowIndex(c.state, e))
    ensures Fetched(c).evts == [] && Step(c, p) == RunRow(Fetched(c), row, Received(p))
  {
  }

  /** Only an assembled line makes that a row that executes a command. */
  lemma ExecutesAssembledLine(c: Config, p: Poll, e: Event)
    requires Inv(c) && c.live && NextEvent(c, p) == Some(e)
    requires TableRow(RowIndex(c.state, e)).transRtn == Some(ExeCmd)
    ensures c.evts != [] && c.evts[0] in {AssembleComplete, AssembleCompletePlus}
  {
    assert RowIndex(c.state, e) == 2 || RowIndex(c.state, e) == 3;
  }

  /** The log level, which all connections share. */
  class LogLevel {
    var level: int
  }

  class Device {
    var live: bool
    var overrun: bool
    var state: State
    var evts: seq<Event>
    var evtCnt: nat
    var timer: nat
    const rng: Ring
    const recvBuf: array<Byte>
    const ptrs: array<Pointer>
    var argCount: int
    const log: LogLevel
    var sent: seq<Reply>
    ghost var line: seq<Byte>
    ghost var done: seq<seq<Byte>>

    ghost predicate Valid()
      reads this, rng, ptrs
    {
      && rng.Valid() && rng.bufSize == MAX_RECV_BUF_SIZE + 1
      && recvBuf.Length == MAX_RECV_BUF_SIZE && recvBuf != rng.buf
      && ptrs.Length == MAX_ARGS + 1 && (live ==> ptrs[RNG_ID] == TheRing)
    }

    ghost function Abs(): Config
      requires Valid()
      reads this, rng, rng.buf, ptrs
    {
      Config(live, overrun, state, evts, evtCnt, rng.Contents(), line, timer, done)
    }

    /** While an assembled line waits to be executed, it stands in `recvBuf`. */
    ghost predicate LineReady()
      reads this, recvBuf
    {
      evts != [] && evts[0] in {AssembleComplete, AssembleCompletePlus} ==> TextAt(recvBuf, 0, CString(line))
    }

    constructor (log: LogLevel)
      ensures Valid() && Abs() == INIT && LineReady() && sent == [] && this.log == log
    {
      live, overrun, state, evts, evtCnt, timer := true, false, CmdWait, [], 0, 0;
      rng := new Ring(MAX_RECV_BUF_SIZE);
      recvBuf := new Byte[MAX_RECV_BUF_SIZE];
      ptrs := new Pointer[MAX_ARGS + 1](i => if i == RNG_ID then TheRing else Null);
      this.log := log;
      argCount, sent, line, done := 0, [], [], [];
    }

    method EvtAdd(e: Event)
      requires Valid()
      modifies this`evts, this`evtCnt
      ensures Abs() == AddEvent(old(Abs()), e)
    {
      evts := evts + [e];
      evtCnt := evtCnt + 1;
    }

    /** Arms or cancels the timer; what is reported as remaining is the new value, not the old one. */
    method SetDevTimer(secTimerVal: nat) returns (remainingSeconds: nat)
      modifies this`timer
      ensures timer == remainingSeconds == secTimerVal
    {
      timer := secTimerVal;
      remainingSeconds := secTimerVal;
    }

    /** Moves a line with its CR, and the byte behind that if there is one, into `recvBuf`. */
    method TakeLine(nChars: nat)
      requires Valid() && nChars > 0 && CR in rng.Contents() && FirstCR(rng.Contents()) == nChars - 1
      modifies this`line, rng`pFromBuf, recvBuf
      ensures Valid() && line == old(rng.Contents())[..nChars - 1] && TextAt(recvBuf, 0, CString(line))
      ensures rng.Contents() == AfterLine(old(rng.Contents()))
    {
      ghost var all := rng.Contents();
      var got := rng.BufGet(recvBuf, nChars + 1);
      line := all[..nChars - 1];
      assert recvBuf[..nChars - 1] == recvBuf[..got][..nChars - 1] == line;
      recvBuf[nChars - 1] := NUL;
      LineIsText(recvBuf, line);
    }

    /** Takes the line from the ring and queues the event that fits what is left there. */
    method QueueLine(nChars: nat)
      requires Valid() && evts == []
      requires nChars > 0 && CR in rng.Contents() && FirstCR(rng.Contents()) == nChars - 1
      modifies this`evts, this`evtCnt, this`line, rng`pFromBuf, recvBuf
      ensures Valid() && (Abs(), Ok) == Assemble(old(Abs())) && LineReady()
    {
      TakeLine(nChars);
      var n := rng.NBytes();
      if n > 0 {
        EvtAdd(AssembleCompletePlus);
      } else {
        EvtAdd(AssembleComplete);
      }
    }

    method AssembleCmdLine() returns (status: Status)
      requires Valid() && evts == []
      modifies this`evts, this`evtCnt, this`line, rng`pFromBuf, recvBuf
      ensures Valid() && (Abs(), status) == Assemble(old(Abs())) && LineReady()
    {
      var retStat, nChars := rng.Search(CR);
      if retStat != 0 || nChars == 0 {
        return Error;
      }
      FirstCRIn(rng.Contents(), nChars - 1);
      QueueLine(nChars);
      status := Ok;
    }

    /** Receives `data` into `recvBuf`, and puts as much of it into the ring as fits. */
    method PutReceived(data: seq<Byte>)
      requires Valid() && |data| <= MAX_RECV_BUF_SIZE
      modifies rng`pToBuf, rng.buf, recvBuf
      ensures Valid() && |old(rng.Contents())| <= MAX_RECV_BUF_SIZE
      ensures rng.Contents() == old(rng.Contents()) + Accepted(old(rng.Contents()), data)
    {
      forall i | 0 <= i < |data| {
        recvBuf[i] := data[i];
      }
      ghost var ring := rng.Contents();
      var put := rng.BufPut(recvBuf, |data|);
      assert recvBuf[..put] == Accepted(ring, data);
    }

    /** `data` is what `recv` returns; nothing stands for an end of file or an error. */
    method TcpCmdSrvInput(data: seq<Byte>) returns (status: Status)
      requires Valid() && evts == [] && |data| <= MAX_RECV_BUF_SIZE
      modifies this`evts, this`evtCnt, this`line, rng`pFromBuf, rng`pToBuf, rng.buf, recvBuf
      ensures Valid() && |old(Abs()).ring| <= MAX_RECV_BUF_SIZE
      ensures (Abs(), status) == ReadInput(old(Abs()), data)
      ensures LineReady()
    {
      if data == [] {
        EvtAdd(SocketShutdown);
        return Ok;
      }
      PutReceived(data);
      status := AssembleCmdLine();
    }

    /** A message to the peer, at the level of those that are always of interest. */
    method LogMsg(m: Reply)
      modifies this`sent
      ensures sent == old(sent) + if log.level <= 5 then [m] else []
    {
      if LOG_LVL_ALWAYS >= log.level {
        sent := sent + [m];
      }
    }

    /** Parses the line in `recvBuf`, which leaves the ring pointer alone exactly when it has few arguments. */
    method ParseLine() returns (ok: bool, cliNum: Cmd)
      requires ptrs.Length == MAX_ARGS + 1 && ptrs[RNG_ID] == TheRing && TextAt(recvBuf, 0, CString(line))
      modifies this`argCount, recvBuf, ptrs
      ensures ok == RepliesOk(line)
      ensures ptrs[RNG_ID] == TheRing <==> FewArgs(line)
      ensures ok && cliNum == CmdSetLogLvl <==> Accepts(CString(line), SET_LOG_LVL)
      ensures Accepts(CString(line), SET_LOG_LVL) ==>
        ptrs[1].InRecvBuf? && TextAt(recvBuf, ptrs[1].pos, Args(CString(line))[1])
    {
      ok, cliNum, argCount := ParseCmd(recvBuf, ptrs, CString(line));
      if ok {
        ghost var i :| 0 <= i < COMMANDS && Accepts(CString(line), i);
        NumberOfRow(i);
      }
      NumberOfRow(SET_LOG_LVL);
    }

    /** Runs the command of the line at hand, of which only the log level is kept. */
    method RunCmd() returns (ok: bool)
      requires ptrs.Length == MAX_ARGS + 1 && ptrs[RNG_ID] == TheRing && TextAt(recvBuf, 0, CString(line))
      modifies this`argCount, log, recvBuf, ptrs
      ensures ok == RepliesOk(line) && log.level == LineLevel(line, old(log.level))
      ensures ptrs[RNG_ID] == TheRing <==> FewArgs(line)
    {
      var cliNum: Cmd;
      ok, cliNum := ParseLine();
      if ok && cliNum == CmdSetLogLvl {
        log.level := ScanNumber(recvBuf, ptrs[1].pos, Args(CString(line))[1]);
      }
    }

    /** Queues the end of a command, and answers it. */
    method FinishCmd(ok: bool)
      requires Valid() && ok == RepliesOk(line)
      modifies this`evts, this`evtCnt, this`sent, this`done
      ensures Valid() && Abs() == AddEvent(old(Abs()).(done := old(done) + [line]), CmdFinished)
      ensures sent == old(sent) + if Heard(log.level) then [ReplyTo(line)] else []
    {
      EvtAdd(CmdFinished);
      LogMsg(if ok then Good else Failed);
      done := done + [line];
    }

    /** Executes the line at hand, and answers it, unless it has overrun the ring pointer. */
    method CliExeCmd() returns (status: Status)
      requires Valid() && live && TextAt(recvBuf, 0, CString(line))
      modifies this`live, this`overrun, this`evts, this`evtCnt, this`argCount, this`sent, this`done, log, recvBuf, ptrs
      ensures Valid() && (Abs(), status) == ExecuteLine(old(Abs()))
      ensures log.level == LineLevel(line, old(log.level))
      ensures sent == old(sent) + if FewArgs(line) && Heard(log.level) then [ReplyTo(line)] else []
    {
      var ok := RunCmd();
      if ptrs[RNG_ID] != TheRing {
        live, overrun := false, true;
        return Overrun;
      }
      FinishCmd(ok);
      status := Ok;
    }

    method TcpCmdSrvShutdown() returns (status: Status)
      requires Valid()
      modifies this`live
      ensures Valid() && Abs() == old(Abs()).(live := false) && status == DeviceShutdown
    {
      live := false;
      status := DeviceShutdown;
    }

    /** Fetches the event that made the device active. */
    method GetEvtType(p: Poll) returns (e: Option<Event>)
      requires Valid() && (evtCnt > 0 ==> evts != [])
      modifies this`evts, this`evtCnt
      ensures e == NextEvent(old(Abs()), p) && Abs() == Fetched(old(Abs()))
    {
      if evtCnt > 0 {
        e := Some(evts[0]);
        evts := evts[1..];
        evtCnt := 0;
      } else {
        match p.socket
        case Readable(_) => e := Some(SocketInput);
        case HungUp => e := Some(SocketShutdown);
        case Quiet => e := if p.timerFired && timer > 0 then Some(TimerExpired) else None;
      }
    }

    /** Calls the routine of a table row. */
    method CallTransRtn(r: Routine, data: seq<Byte>) returns (status: Status)
      requires Valid() && live && evts == [] && |data| <= MAX_RECV_BUF_SIZE
      requires r == ExeCmd ==> TextAt(recvBuf, 0, CString(line))
      modifies this`live, this`overrun, this`evts, this`evtCnt, this`argCount, this`sent, this`line, this`done
      modifies log, rng`pFromBuf, rng`pToBuf, rng.buf, recvBuf, ptrs
      ensures Valid() && |old(Abs()).ring| <= MAX_RECV_BUF_SIZE
      ensures (Abs(), status) == CallRoutine(old(Abs()), r, data) && LineReady()
      ensures log.level == if r == ExeCmd then LineLevel(old(line), old(log.level)) else old(log.level)
      ensures sent == old(sent) + if r == ExeCmd && FewArgs(old(line)) && Heard(log.level) then [ReplyTo(old(line))]
                                  else []
    {
      match r
      case Input => status := TcpCmdSrvInput(data);
      case InProgress => status := TcpCmdSrvInput(data);
      case ExeCmd => status := CliExeCmd();
      case CleanupCmd => status := Ok;
      case ParseRemaining => status := AssembleCmdLine();
      case Shutdown => status := TcpCmdSrvShutdown();
    }

    /**
     Changes the state, or, when the routine has failed, tells the peer so; and sets the timer: to the
     row's own value when nothing is reported as remaining.
     */
    method EndTransition(row: Row<State, Event, Routine>, status: Status, remainingSeconds: nat)
      modifies this`state, this`timer, this`sent
      ensures remainingSeconds == 0 ==> timer == row.secTimerVal
      ensures remainingSeconds > 0 ==> timer == if row.nextState.Some? then row.secTimerVal else remainingSeconds
      ensures var next := if status == Ok then row.nextState else row.errState;
              state == if next.Some? then next.value else old(state)
      ensures sent == old(sent) + if status != Ok && Heard(log.level) then [Fail] else []
    {
      if status == Ok {
        if row.nextState.Some? {
          state := row.nextState.value;
        }
      } else {
        LogMsg(Fail);
        if row.errState.Some? {
          state := row.errState.value;
        }
      }
      var newTimerValue := if row.nextState.Some? || remainingSeconds == 0 then row.secTimerVal else remainingSeconds;
      var remaining := SetDevTimer(newTimerValue);
    }

    /**
     Runs the routine of `row`, and ends the transition unless that was a shutdown; as nothing is ever
     reported as remaining, that always arms the row's own value.
     */
    method RunTransition(row: Row<State, Event, Routine>, data: seq<Byte>)
      requires Valid() && live && evts == [] && |data| <= MAX_RECV_BUF_SIZE
      requires row.transRtn == Some(ExeCmd) ==> TextAt(recvBuf, 0, CString(line))
      modifies this, log, rng`pFromBuf, rng`pToBuf, rng.buf, recvBuf, ptrs
      ensures Valid() && |old(Abs()).ring| <= MAX_RECV_BUF_SIZE && LineReady()
      ensures Abs() == RunRow(old(Abs()), row, data) && (live ==> timer == row.secTimerVal)
      ensures log.level == RowLevel(old(Abs()), row, old(log.level))
      ensures sent == old(sent) + if Heard(log.level) then RowSays(old(Abs()), row, data) else []
    {
      ghost var was := Abs();
      var remainingSeconds := SetDevTimer(0);
      var status := Ok;
      if row.transRtn.Some? {
        status := CallTransRtn(row.transRtn.value, data);
        StatusIgnoresTimer(was, row.transRtn.value, data);
      }
      if status != DeviceShutdown && status != Overrun {
        assert remainingSeconds == 0;
        EndTransition(row, status, remainingSeconds);
      }
      TimeLeftIsForgotten(was, 0, row, data);
    }

    /** One pass of the main loop, for the device that `poll` found active. */
    method MainLoopPass(p: Poll)
      requires Valid() && Inv(Abs()) && LineReady()
      // recv is asked for no more than recvBuf holds
      requires live && |Received(p)| <= MAX_RECV_BUF_SIZE
      modifies this, log, rng`pFromBuf, rng`pToBuf, rng.buf, recvBuf, ptrs
      ensures Valid() && Abs() == Step(old(Abs()), p) && LineReady()
      ensures log.level == LevelAfter(old(Abs()), old(log.level))
      ensures sent == old(sent) + if Heard(log.level) then Said(old(Abs()), p) else []
    {
      ghost var c := Abs();
      var e := GetEvtType(p);
      if e == None {
        return;
      }
      LevelAfterIs(c, p, log.level);
      var found, idx := GetTransRtn(Table(), state, e.value);
      TableLookup(state, e.value);
      if found {
        StepRunsRow(c, p, e.value, Table()[idx]);
        if Table()[idx].transRtn == Some(ExeCmd) {
          ExecutesAssembledLine(c, p, e.value);
        }
        RunTransition(Table()[idx], Received(p));
      }
    }

    /** What is still to come: the run, and what is sent, on top of what has been. */
    ghost predicate GoesOn(passes: seq<Pass>, last: Config, total: seq<Reply>)
      requires Valid() && Inv(Abs())
      reads this, log, rng, rng.buf, ptrs
    {
      Run(Abs(), Polls(passes)) == last && sent + Sent(Abs(), log.level, passes) == total
    }

    /** One pass, before which other connections may have set the log level. */
    method OnePass(pass: Pass, ghost passes: seq<Pass>, ghost last: Config, ghost total: seq<Reply>)
      requires Valid() && Inv(Abs()) && LineReady() && live && |Received(pass.poll)| <= MAX_RECV_BUF_SIZE
      requires passes != [] && passes[0] == pass && GoesOn(passes, last, total)
      modifies this, log, rng`pFromBuf, rng`pToBuf, rng.buf, recvBuf, ptrs
      ensures Valid() && Inv(Abs()) && LineReady() && GoesOn(passes[1..], last, total)
    {
      ghost var c, level, said := Abs(), LevelBefore(pass, log.level), sent;
      FirstPass(c, log.level, passes);
      if pass.level.Some? {
        log.level := pass.level.value;
      }
      MainLoopPass(pass.poll);
      ghost var now, rest := if Heard(log.level) then Said(c, pass.poll) else [], Sent(Abs(), log.level, passes[1..]);
      assert sent == said + now;
      Associative(said, now, rest);
    }

    /**
     The main loop, while the device lives, and other connections set the log level between its passes: it
     makes the runs of the machine, and sends the peer what is to be heard of their transcripts.
     */
    method MainLoop(passes: seq<Pass>)
      requires Valid() && Inv(Abs()) && LineReady()
      requires forall n :: 0 <= n < |passes| ==> |Received(passes[n].poll)| <= MAX_RECV_BUF_SIZE
      modifies this, log, rng`pFromBuf, rng`pToBuf, rng.buf, recvBuf, ptrs
      ensures Valid() && Abs() == Run(old(Abs()), Polls(passes))
      ensures sent == old(sent) + Sent(old(Abs()), old(log.level), passes)
    {
      ghost var last, total := Run(Abs(), Polls(passes)), sent + Sent(Abs(), log.level, passes);
      var n := 0;
      assert passes[0..] == passes;
      while n < |passes| && live
        invariant n <= |passes| && Valid() && Inv(Abs()) && LineReady() && GoesOn(passes[n..], last, total)
      {
        assert passes[n..][1..] == passes[n + 1..];
        OnePass(passes[n], passes[n..], last, total);
        n := n + 1;
      }
      if !live {
        DeadStays(Abs(), Polls(passes[n..]));
        DeadSendsNothing(Abs(), log.level, passes[n..]);
      }
      assert sent + [] == sent;
    }
  }
}
