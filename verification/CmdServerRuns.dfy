/** What whole runs of a command-server connection do. */
module CmdServerRuns {
  import opened Common
  import opened CmdParse
  import opened Framing
  import opened CmdServer

  function Run(c: Config, polls: seq<Poll>): Config
    requires Inv(c)
    decreases |polls|
  {
    if polls == [] then c
    else
      StepKeepsInv(c, polls[0]);
      Run(Step(c, polls[0]), polls[1..])
  }

  lemma {:induction false} RunKeepsInv(c: Config, polls: seq<Poll>)
    requires Inv(c)
    ensures Inv(Run(c, polls))
    decreases |polls|
  {
    if polls != [] {
      StepKeepsInv(c, polls[0]);
      RunKeepsInv(Step(c, polls[0]), polls[1..]);
    }
  }

  lemma {:induction false} RunConcat(c: Config, p: seq<Poll>, q: seq<Poll>)
    requires Inv(c)
    ensures Inv(Run(c, p)) && Run(c, p + q) == Run(Run(c, p), q)
    decreases |p|
  {
    RunKeepsInv(c, p);
    if p == [] {
      assert p + q == q;
    } else {
      StepKeepsInv(c, p[0]);
      assert (p + q)[1..] == p[1..] + q;
      RunConcat(Step(c, p[0]), p[1..], q);
    }
  }

  lemma {:induction false} DeadStays(c: Config, polls: seq<Poll>)
    requires !c.live
    ensures Inv(c) && Run(c, polls) == c
    decreases |polls|
  {
    if polls != [] {
      DeadStays(c, polls[1..]);
    }
  }

  /** No event wake-up is ever lost, no list is ever popped empty, and no complete line is ever stranded. */
  lemma NothingIsStranded(polls: seq<Poll>)
    ensures Inv(INIT)
    ensures var c := Run(INIT, polls);
            c.live ==>
              && !c.overrun && |c.evts| <= 1
              && (c.evtCnt > 0 <==> c.evts != [])
              && (c.evts == [] ==> CR !in c.ring)
  {
    RunKeepsInv(INIT, polls);
  }

  /** Which events meet which states, and when the wildcard row takes an event it was not written for. */
  lemma ReachableDispatch(c: Config, p: Poll)
    requires Inv(c) && c.live && NextEvent(c, p).Some?
    ensures var e := NextEvent(c, p).value;
            && (e == SocketInput ==> c.evts == [] && (c.state == CmdWait || c.state == CmdExecPlus))
            && (e == TimerExpired ==> c.evts == [] && (c.state == CmdWait || c.state == CmdExecPlus))
            && (RowIndex(c.state, e) == 10 && e != SocketShutdown <==>
                c.state == CmdExecPlus && (e == TimerExpired || e == AssembleComplete || e == AssembleCompletePlus))
  {
  }

  /**
   The connection ends when its peer closes it, and, in `CmdExecPlus`, with the next line or the timer; it is
   lost when the line to be executed has more arguments than there are pointers.
   */
  lemma EndsExactlyWhen(c: Config, p: Poll)
    requires Inv(c) && c.live
    ensures Step(c, p).overrun <==>
      c.state == CmdAssemble && c.evts != [SocketShutdown] && !FewArgs(c.line)
    ensures !Step(c, p).live && !Step(c, p).overrun <==>
      || c.evts == [SocketShutdown]
      || (c.evts == [] && p.socket.HungUp?)
      || (c.state == CmdExecPlus && (c.evts == [AssembleComplete] || c.evts == [AssembleCompletePlus]))
      || (c.state == CmdExecPlus && c.evts == [] && p == Poll(Quiet, true))
  {
    StepIsOutcome(c, p);
  }

  /** A connection that waits for input. */
  predicate Idle(c: Config) {
    Inv(c) && c.live && c.evts == []
  }

  // ---- The timer ----

  /** What the timer is armed with: 5 seconds exactly while a line is assembled or a rest is waiting for its line end. */
  predicate TimerFits(c: Config) {
    c.live ==>
      match c.state
      case CmdWait => c.timer == 0 || (c.timer == 5 && c.ring != [])
      case CmdAssemble => c.timer == 5
      case CmdExec => c.timer == 0
      case CmdExecPlus => c.timer == if c.evts != [] && c.evts[0] == CmdFinished then 0 else 5
  }

  lemma InputKeepsTimer(c: Config, data: seq<Byte>)
    requires Idle(c)
    ensures TimerFits(Assembling(ReadInput(c.(timer := 0), data), if c.state == CmdWait then CmdAssemble else CmdExecPlus))
  {
    assert data != [] ==> c.ring + Accepted(c.ring, data) != [];
  }

  lemma QueuedKeepsTimer(c: Config, p: Poll)
    requires Inv(c) && c.live && c.evts != []
    ensures TimerFits(Outcome(c, p))
  {
  }

  lemma StepKeepsTimer(c: Config, p: Poll)
    requires Inv(c) && TimerFits(c)
    ensures TimerFits(Step(c, p))
  {
    if c.live {
      StepIsOutcome(c, p);
      if c.evts != [] {
        QueuedKeepsTimer(c, p);
      } else if p.socket.Readable? {
        InputKeepsTimer(c, p.socket.data);
      }
    }
  }

  lemma {:induction false} RunKeepsTimer(c: Config, polls: seq<Poll>)
    requires Inv(c) && TimerFits(c)
    ensures TimerFits(Run(c, polls))
    decreases |polls|
  {
    if polls != [] {
      StepKeepsInv(c, polls[0]);
      StepKeepsTimer(c, polls[0]);
      RunKeepsTimer(Step(c, polls[0]), polls[1..]);
    }
  }

  /**
   In every reachable configuration the timer fits the state.  While a connection waits, input that completes
   no line arms it with 5 seconds, when it fires it is disarmed, and nothing else changes then.
   */
  lemma TimerExactlyWhen(polls: seq<Poll>, data: seq<Byte>, timerFired: bool)
    ensures Inv(INIT) && TimerFits(Run(INIT, polls))
    ensures var c := Run(INIT, polls);
            Inv(c) && (c.live && c.state == CmdWait ==>
              && Step(c, Poll(Quiet, true)) == c.(timer := 0) && Step(c, QUIET) == c
              && (data != [] && CR !in Accepted(c.ring, data) ==>
                    Step(c, Poll(Readable(data), timerFired)) == c.(ring := c.ring + Accepted(c.ring, data), timer := 5)))
  {
    var c := Run(INIT, polls);
    RunKeepsInv(INIT, polls);
    RunKeepsTimer(INIT, polls);
    if c.live {
      StepIsOutcome(c, Poll(Quiet, true));
      StepIsOutcome(c, QUIET);
      StepIsOutcome(c, Poll(Readable(data), timerFired));
    }
  }

  // ---- Run to completion ----

  lemma RunTwo(c: Config, polls: seq<Poll>)
    requires Inv(c) && |polls| >= 2
    ensures Inv(Step(c, polls[0])) && Inv(Step(Step(c, polls[0]), polls[1]))
    ensures Run(c, polls) == Run(Step(Step(c, polls[0]), polls[1]), polls[2..])
  {
    StepKeepsInv(c, polls[0]);
    StepKeepsInv(Step(c, polls[0]), polls[1]);
    assert polls[1..][1..] == polls[2..];
  }

  /** How many lines are executed, one after the other, before one has too many arguments. */
  function Executable(lines: seq<seq<Byte>>): (n: nat)
    ensures n <= |lines|
  {
    if lines == [] || !FewArgs(lines[0]) then 0 else 1 + Executable(lines[1..])
  }

  /** All lines are executable exactly when all have few arguments. */
  lemma {:induction false} AllExecutableExactlyWhen(lines: seq<seq<Byte>>)
    ensures Executable(lines) == |lines| <==> forall line :: line in lines ==> FewArgs(line)
    ensures Executable(lines) == |lines| ==> lines[..Executable(lines)] == lines
  {
    if lines != [] {
      AllExecutableExactlyWhen(lines[1..]);
      assert forall line :: line in lines <==> line == lines[0] || line in lines[1..];
    }
  }

  /** `t` has executed `lines`, and waits; or it is lost at the first of them that has too many arguments. */
  predicate Executes(t: Config, done: seq<seq<Byte>>, lines: seq<seq<Byte>>, rest: seq<Byte>) {
    && t.done == done + lines[..Executable(lines)]
    && if Executable(lines) == |lines| then Idle(t) && t.ring == rest else t.overrun && !t.live
  }

  lemma ExecutableOfMore(line: seq<Byte>, lines: seq<seq<Byte>>)
    requires FewArgs(line)
    ensures Executable([line] + lines) == 1 + Executable(lines)
    ensures ([line] + lines)[..1 + Executable(lines)] == [line] + lines[..Executable(lines)]
  {
    assert ([line] + lines)[1..] == lines;
  }

  lemma ExecutesOfMore(t: Config, done: seq<seq<Byte>>, line: seq<Byte>, lines: seq<seq<Byte>>, rest: seq<Byte>)
    requires if FewArgs(line) then Executes(t, done + [line], lines, rest) else t.overrun && !t.live && t.done == done
    ensures Executes(t, done, [line] + lines, rest)
  {
    if FewArgs(line) {
      ExecutableOfMore(line, lines);
      Associative(done, [line], lines[..Executable(lines)]);
    } else {
      assert done + ([line] + lines)[..0] == done;
    }
  }

  lemma ExecutesNone(t: Config, rest: seq<Byte>)
    requires Idle(t) && t.ring == rest
    ensures Executes(t, t.done, [], rest)
  {
    assert t.done + [] == t.done;
  }

  /** Executing the line at hand, and then either stopping or assembling the next one, takes two passes. */
  lemma OneLine(c: Config, p: Poll, q: Poll)
    requires Inv(c) && c.live && c.state == CmdAssemble && c.evts != [SocketShutdown]
    ensures Inv(Step(c, p))
    ensures var t := Step(Step(c, p), q);
            if !FewArgs(c.line) then t.overrun && !t.live && t.done == c.done
            else
              && t.live && t.done == c.done + [c.line]
              && if CR in c.ring then
                   t.state == CmdAssemble && t.evts != [SocketShutdown]
                   && t.ring == AfterLine(c.ring) && t.line == c.ring[..FirstCR(c.ring)]
                 else
                   t.evts == [] && t.ring == c.ring
                   && t.state == if c.ring == [] then CmdWait else CmdExecPlus
  {
    StepKeepsInv(c, p);
    StepIsOutcome(c, p);
    if FewArgs(c.line) {
      StepIsOutcome(Step(c, p), q);
    }
  }

  /**
   Once a line is complete, the loop executes it and every further complete line in the ring, in order,
   two passes a line, whatever `poll` reports about the socket and the timer meanwhile, until one of them
   has too many arguments.
   */
  lemma {:induction false} QueuedLinesRun(c: Config, polls: seq<Poll>)
    requires Inv(c) && c.live && c.state == CmdAssemble && c.evts != [SocketShutdown]
    requires |polls| == 2 + 2 * |Frame(c.ring).lines|
    ensures var t, f := Run(c, polls), Frame(c.ring);
            && Executes(t, c.done, [c.line] + f.lines, f.rest)
            && (t.live ==> t.state == if f.rest == [] then CmdWait else CmdExecPlus)
    decreases |polls|
  {
    var f, t := Frame(c.ring), Step(c, polls[0]);
    RunTwo(c, polls);
    OneLine(c, polls[0], polls[1]);
    t := Step(t, polls[1]);
    if !FewArgs(c.line) {
      DeadStays(t, polls[2..]);
    } else if CR in c.ring {
      QueuedLinesRun(t, polls[2..]);
      assert [t.line] + Frame(t.ring).lines == f.lines;
    } else {
      ExecutesNone(t, f.rest);
    }
    ExecutesOfMore(Run(c, polls), c.done, c.line, f.lines, f.rest);
  }

  /**
   From a waiting connection, a chunk of input makes the loop execute exactly the lines that framing
   finds in the ring followed by the part of the chunk that fits, in `2 * lines` further passes during
   which neither socket nor timer is looked at, up to the first line with too many arguments.
   */
  lemma RunToCompletion(c: Config, data: seq<Byte>, timerFired: bool, polls: seq<Poll>)
    requires Idle(c) && c.state == CmdWait && data != []
    requires |polls| == 2 * |Frame(c.ring + Accepted(c.ring, data)).lines|
    ensures var t, f := Run(c, [Poll(Readable(data), timerFired)] + polls), Frame(c.ring + Accepted(c.ring, data));
            && Executes(t, c.done, f.lines, f.rest)
            && (t.live ==> t.state == if f.lines == [] || f.rest == [] then CmdWait else CmdExecPlus)
  {
    var p := Poll(Readable(data), timerFired);
    var all := c.ring + Accepted(c.ring, data);
    StepKeepsInv(c, p);
    StepIsOutcome(c, p);
    var t := Step(c, p);
    assert ([p] + polls)[1..] == polls;
    if CR in all {
      QueuedLinesRun(t, polls);
      assert [t.line] + Frame(t.ring).lines == Frame(all).lines;
    } else {
      assert Frame(all).lines == [] && c.done + [] == c.done;
    }
  }

  // ---- When a chunk is not executed ----

  /**
   The lines that a chunk completes are executed exactly when there are none, or the connection is in
   `CmdWait` and none of them has too many arguments.  In `CmdExecPlus` they close it instead.
   */
  lemma ChunkExecutedExactlyWhen(c: Config, data: seq<Byte>, timerFired: bool, polls: seq<Poll>)
    requires Idle(c) && data != []
    requires |polls| == 2 * |Frame(c.ring + Accepted(c.ring, data)).lines|
    ensures var t, f := Run(c, [Poll(Readable(data), timerFired)] + polls), Frame(c.ring + Accepted(c.ring, data));
            && (t.done == c.done + f.lines <==>
                || CR !in Accepted(c.ring, data)
                || (c.state == CmdWait && forall line :: line in f.lines ==> FewArgs(line)))
            && (c.state == CmdExecPlus && CR in Accepted(c.ring, data) ==> !t.live && t.done == c.done)
  {
    var f := Frame(c.ring + Accepted(c.ring, data));
    if c.state == CmdWait {
      RunToCompletion(c, data, timerFired, polls);
      var n := Executable(f.lines);
      AllExecutableExactlyWhen(f.lines);
      assert |c.done + f.lines[..n]| < |c.done + f.lines| <==> n < |f.lines|;
    } else {
      var p := Poll(Readable(data), timerFired);
      StepKeepsInv(c, p);
      StepIsOutcome(c, p);
      var t := Step(c, p);
      assert ([p] + polls)[1..] == polls;
      if CR in c.ring + Accepted(c.ring, data) {
        StepKeepsInv(t, polls[0]);
        StepIsOutcome(t, polls[0]);
        DeadStays(Step(t, polls[0]), polls[1..]);
      } else {
        assert f.lines == [] && polls == [];
      }
    }
  }

  /** Nothing that may still arrive makes this connection execute a line. */
  predicate Stuck(c: Config) {
    && Inv(c)
    && (c.live ==>
         || c.evts == [SocketShutdown]
         || (c.state == CmdWait && (|c.ring| == MAX_RECV_BUF_SIZE || !FewArgs(c.ring)))
         || (c.state == CmdAssemble && !FewArgs(c.line))
         || (c.state == CmdExecPlus && c.evts != [CmdFinished]))
  }

  /** What the ring holds, if it is no complete line, starts the next one; arguments in it do not go away. */
  lemma LineKeepsArgs(ring: seq<Byte>, more: seq<Byte>)
    requires CR !in ring && !FewArgs(ring)
    ensures !FewArgs(ring + more)
    ensures CR in ring + more ==> !FewArgs((ring + more)[..FirstCR(ring + more)])
  {
    var all, i := ring + more, FirstCR(ring + more);
    if FewArgs(all) {
      FewArgsOfPrefix(ring, more);
    }
    if CR in all && FewArgs(all[..i]) {
      assert forall j :: 0 <= j < |ring| ==> all[j] == ring[j];
      assert all[..i] == ring + all[..i][|ring|..];
      FewArgsOfPrefix(ring, all[..i][|ring|..]);
    }
  }

  lemma InputStaysStuck(c: Config, p: Poll)
    requires Inv(c) && c.live && c.state == CmdWait && !FewArgs(c.ring) && p.socket.Readable?
    ensures Stuck(Step(c, p)) && Step(c, p).done == c.done
  {
    StepKeepsInv(c, p);
    StepIsOutcome(c, p);
    LineKeepsArgs(c.ring, Accepted(c.ring, p.socket.data));
  }

  lemma StepStaysStuck(c: Config, p: Poll)
    requires Stuck(c)
    ensures Stuck(Step(c, p)) && Step(c, p).done == c.done
  {
    StepKeepsInv(c, p);
    if c.live {
      StepIsOutcome(c, p);
      if c.state == CmdWait && p.socket.Readable? {
        if FewArgs(c.ring) {
          assert Accepted(c.ring, p.socket.data) == [] && c.ring + [] == c.ring;
        } else {
          InputStaysStuck(c, p);
        }
      }
    }
  }

  lemma {:induction false} RunStaysStuck(c: Config, polls: seq<Poll>)
    requires Stuck(c)
    ensures Run(c, polls).done == c.done
    decreases |polls|
  {
    if polls != [] {
      StepStaysStuck(c, polls[0]);
      RunStaysStuck(Step(c, polls[0]), polls[1..]);
    }
  }

  lemma FrameOfOneLine(s: seq<Byte>)
    requires CR !in s
    ensures Frame(s + [CR]) == Framed([s], [])
  {
    assert (s + [CR])[..|s|] == s;
    FirstCRIn(s + [CR], |s|);
    assert AfterLine(s + [CR]) == [];
  }

  /** A line end makes a waiting connection with room execute what it holds. */
  lemma LineEndExecutes(c: Config)
    requires Idle(c) && c.state == CmdWait && |c.ring| < MAX_RECV_BUF_SIZE && FewArgs(c.ring)
    ensures Run(c, [Poll(Readable([CR]), false)] + [QUIET, QUIET]).done == c.done + [c.ring]
  {
    assert Accepted(c.ring, [CR]) == [CR];
    FrameOfOneLine(c.ring);
    RunToCompletion(c, [CR], false, [QUIET, QUIET]);
    assert Executable([c.ring]) == 1 && [c.ring][..1] == [c.ring];
  }

  /**
   An idle connection can still be made to execute a line exactly when it is in `CmdWait`, its ring has
   room and does not hold too many arguments already: neither a full ring without a line end, nor a line
   that will overrun, nor `CmdExecPlus` is ever left for another line.
   */
  lemma CanStillExecuteExactlyWhen(c: Config)
    requires Idle(c)
    ensures (exists polls :: Run(c, polls).done != c.done) <==>
            c.state == CmdWait && |c.ring| < 132 && FewArgs(c.ring)
  {
    if c.state == CmdWait && |c.ring| < MAX_RECV_BUF_SIZE && FewArgs(c.ring) {
      LineEndExecutes(c);
    } else {
      forall polls ensures Run(c, polls).done == c.done {
        RunStaysStuck(c, polls);
      }
    }
  }

  // ---- Inputs that reach those ends ----

  /** As many bytes without a line end as the ring holds. */
  lemma FullRingIsStuck(s: seq<Byte>)
    requires |s| == 132 && CR !in s
    ensures Inv(INIT) && Stuck(Run(INIT, [Poll(Readable(s), false)]))
  {
    var p := Poll(Readable(s), false);
    StepIsOutcome(INIT, p);
    StepKeepsInv(INIT, p);
    assert INIT.ring + Accepted(INIT.ring, s) == s;
    assert [p][1..] == [];
  }

  /** A line with too many arguments is where a run ends; the line behind it in the same chunk is not executed. */
  lemma OverrunEndsTheRun(c: Config, x: seq<Byte>, y: seq<Byte>, data: seq<Byte>, polls: seq<Poll>)
    requires c == INIT && !FewArgs(x) && data != [] && |data| <= MAX_RECV_BUF_SIZE && |polls| == 4
    requires Frame(data).lines == [x, y]
    ensures Inv(c)
    ensures var t := Run(c, [Poll(Readable(data), false)] + polls); t.overrun && !t.live && t.done == []
  {
    assert c.ring + Accepted(c.ring, data) == data;
    RunToCompletion(c, data, false, polls);
    assert Executable([x, y]) == 0;
  }

  /** For instance words of one letter, more than there are pointers. */
  lemma TooManyWordsAreLost(n: nat, y: seq<Byte>, end: seq<Byte>, data: seq<Byte>, polls: seq<Poll>)
    requires n > 10 && CR !in y && |end| == 2 && end[0] == CR
    requires data == Words(n) + end + y + end && |data| <= MAX_RECV_BUF_SIZE && |polls| == 4
    ensures Inv(INIT) && Frame(data).lines == [Words(n), y]
    ensures var t := Run(INIT, [Poll(Readable(data), false)] + polls); t.overrun && !t.live && t.done == []
  {
    FewWords(n);
    StreamOfTwoLines(Words(n), end, y);
    OverrunEndsTheRun(INIT, Words(n), y, data, polls);
  }

  // ---- Sessions ----

  /**
   A chunk of input; what `poll` reports in the passes that execute the lines it completes; and, in the
   passes after those, whether the timer has fired.
   */
  datatype Burst = Burst(chunk: seq<Byte>, timerFired: bool, busy: seq<Poll>, idle: seq<bool>)

  function IdlePolls(idle: seq<bool>): seq<Poll> {
    if idle == [] then [] else [Poll(Quiet, idle[0])] + IdlePolls(idle[1..])
  }

  function BusyPolls(b: Burst): seq<Poll> {
    [Poll(Readable(b.chunk), b.timerFired)] + b.busy
  }

  function Session(bursts: seq<Burst>): seq<Poll> {
    if bursts == [] then []
    else BusyPolls(bursts[0]) + (IdlePolls(bursts[0].idle) + Session(bursts[1..]))
  }

  function Chunks(bursts: seq<Burst>): seq<seq<Byte>> {
    if bursts == [] then [] else [bursts[0].chunk] + Chunks(bursts[1..])
  }

  /** The chunk fits in the ring, parts no CR from its follower, and completes no line with too many arguments. */
  predicate Bearable(rest: seq<Byte>, b: Burst) {
    var f := Frame(rest + b.chunk);
    && b.chunk != [] && |rest| + |b.chunk| <= MAX_RECV_BUF_SIZE
    && FollowersPresent(rest + b.chunk) && (forall line :: line in f.lines ==> FewArgs(line))
    && |b.busy| == 2 * |f.lines|
  }

  predicate AllBearable(rest: seq<Byte>, bursts: seq<Burst>)
    decreases |bursts|
  {
    bursts != [] ==> Bearable(rest, bursts[0]) && AllBearable(Frame(rest + bursts[0].chunk).rest, bursts[1..])
  }

  /** No chunk both completes a line and starts another, unless it is the last, and no timer fires after it. */
  predicate Paced(rest: seq<Byte>, bursts: seq<Burst>)
    decreases |bursts|
  {
    bursts != [] ==>
      var f := Frame(rest + bursts[0].chunk);
      && (f.lines == [] || f.rest == [] || (|bursts| == 1 && true !in bursts[0].idle))
      && Paced(f.rest, bursts[1..])
  }

  /** Behind a chunk that both completes a line and starts another no line is completed. */
  predicate Unbroken(rest: seq<Byte>, chunks: seq<seq<Byte>>)
    decreases |chunks|
  {
    chunks != [] ==>
      var f := Frame(rest + chunks[0]);
      (f.lines == [] || f.rest == [] || CR !in Concat(chunks[1..])) && Unbroken(f.rest, chunks[1..])
  }

  lemma {:induction false} PartsNoFollower(rest: seq<Byte>, bursts: seq<Burst>)
    requires AllBearable(rest, bursts)
    ensures NoPartedFollower(rest, Chunks(bursts))
    decreases |bursts|
  {
    if bursts != [] {
      assert Chunks(bursts)[1..] == Chunks(bursts[1..]);
      PartsNoFollower(Frame(rest + bursts[0].chunk).rest, bursts[1..]);
    }
  }

  /** Waiting does not change what the ring holds; nor does the timer, unless it fires in `CmdExecPlus`. */
  lemma {:induction false} IdlePasses(c: Config, idle: seq<bool>)
    requires Idle(c) && (c.state == CmdWait || true !in idle)
    ensures var t := Run(c, IdlePolls(idle));
            Idle(t) && t.state == c.state && t.ring == c.ring && t.done == c.done
    decreases |idle|
  {
    if idle != [] {
      var p := Poll(Quiet, idle[0]);
      StepKeepsInv(c, p);
      StepIsOutcome(c, p);
      assert IdlePolls(idle)[1..] == IdlePolls(idle[1..]);
      IdlePasses(Step(c, p), idle[1..]);
    }
  }

  /** A burst that is bearable has its lines executed. */
  lemma BurstExecutes(c: Config, b: Burst)
    requires Idle(c) && c.state == CmdWait && Bearable(c.ring, b)
    ensures var t, f := Run(c, BusyPolls(b)), Frame(c.ring + b.chunk);
            && Idle(t) && t.done == c.done + f.lines && t.ring == f.rest
            && t.state == if f.lines == [] || f.rest == [] then CmdWait else CmdExecPlus
  {
    var f := Frame(c.ring + b.chunk);
    assert Accepted(c.ring, b.chunk) == b.chunk;
    RunToCompletion(c, b.chunk, b.timerFired, b.busy);
    AllExecutableExactlyWhen(f.lines);
  }

  lemma SessionOfMore(c: Config, bursts: seq<Burst>)
    requires Inv(c) && bursts != []
    ensures Inv(Run(c, BusyPolls(bursts[0])))
    ensures Inv(Run(Run(c, BusyPolls(bursts[0])), IdlePolls(bursts[0].idle)))
    ensures Run(c, Session(bursts)) ==
            Run(Run(Run(c, BusyPolls(bursts[0])), IdlePolls(bursts[0].idle)), Session(bursts[1..]))
  {
    var b, later := bursts[0], Session(bursts[1..]);
    RunConcat(c, BusyPolls(b), IdlePolls(b.idle) + later);
    RunConcat(Run(c, BusyPolls(b)), IdlePolls(b.idle), later);
  }

  lemma {:induction false} PacedSessionFrames(c: Config, bursts: seq<Burst>)
    requires Idle(c) && (c.state == CmdWait || bursts == []) && AllBearable(c.ring, bursts) && Paced(c.ring, bursts)
    ensures var t := Run(c, Session(bursts));
            Idle(t) && Framed(t.done, t.ring) == FrameChunks(Framed(c.done, c.ring), Chunks(bursts))
    decreases |bursts|
  {
    if bursts != [] {
      var b := bursts[0];
      SessionOfMore(c, bursts);
      BurstExecutes(c, b);
      IdlePasses(Run(c, BusyPolls(b)), b.idle);
      assert Chunks(bursts)[1..] == Chunks(bursts[1..]);
      PacedSessionFrames(Run(Run(c, BusyPolls(b)), IdlePolls(b.idle)), bursts[1..]);
    }
  }

  /**
   A peer that paces itself has exactly the lines of its byte stream executed, however it is chunked,
   and whatever the timer does between the chunks.
   */
  lemma PacedSessionExecutesStream(c: Config, bursts: seq<Burst>)
    requires Idle(c) && c.state == CmdWait && AllBearable(c.ring, bursts) && Paced(c.ring, bursts)
    ensures var t, f := Run(c, Session(bursts)), Frame(c.ring + Concat(Chunks(bursts)));
            Idle(t) && t.done == c.done + f.lines && t.ring == f.rest
  {
    PacedSessionFrames(c, bursts);
    PartsNoFollower(c.ring, bursts);
    ChunkingDoesNotMatter(Framed(c.done, c.ring), Chunks(bursts));
  }

  lemma {:induction false} UnbrokenWithoutCR(rest: seq<Byte>, chunks: seq<seq<Byte>>)
    requires CR !in rest && CR !in Concat(chunks)
    ensures Unbroken(rest, chunks)
    decreases |chunks|
  {
    if chunks != [] {
      UnbrokenWithoutCR(rest + chunks[0], chunks[1..]);
    }
  }

  lemma SameEnd<T>(a: seq<T>, b: seq<T>, c: seq<T>)
    ensures a + b == a + c <==> b == c
  {
    if a + b == a + c {
      assert b == (a + b)[|a|..] && c == (a + c)[|a|..];
    }
  }

  /** The lines of a stream are those of its first chunk and those of the rest of it. */
  lemma StreamOfMore(rest: seq<Byte>, chunk: seq<Byte>, later: seq<Byte>)
    requires FollowersPresent(rest + chunk)
    ensures var f := Frame(rest + chunk);
            && CR !in f.rest
            && Frame(rest + (chunk + later)).lines == f.lines + Frame(f.rest + later).lines
  {
    Associative(rest, chunk, later);
    ResumedFraming(rest + chunk, later);
    RestHasNoCR(rest + chunk);
  }

  /** Behind a chunk that both completed a line and started another nothing is executed any more. */
  lemma BrokenSession(c: Config, idle: seq<bool>, bursts: seq<Burst>)
    requires Idle(c) && c.state == CmdExecPlus
    ensures Inv(Run(c, IdlePolls(idle))) && Run(Run(c, IdlePolls(idle)), Session(bursts)).done == c.done
  {
    RunConcat(c, IdlePolls(idle), Session(bursts));
    RunStaysStuck(c, IdlePolls(idle) + Session(bursts));
  }

  lemma UnbrokenExactlyWhen(rest: seq<Byte>, chunk: seq<Byte>, chunks: seq<seq<Byte>>)
    requires FollowersPresent(rest + chunk) && Frame(rest + chunk).lines != [] && Frame(rest + chunk).rest != []
    ensures Unbroken(rest, [chunk] + chunks) <==> CR !in Concat(chunks)
  {
    assert ([chunk] + chunks)[1..] == chunks;
    RestHasNoCR(rest + chunk);
    if CR !in Concat(chunks) {
      UnbrokenWithoutCR(Frame(rest + chunk).rest, chunks);
    }
  }

  /**
   For bearable chunks, with any passes in between: the lines of the whole stream are executed exactly
   when no line is completed behind a chunk that both completed a line and started another.
   */
  lemma {:induction false} StreamExecutedExactlyWhen(c: Config, bursts: seq<Burst>)
    requires Idle(c) && c.state == CmdWait && AllBearable(c.ring, bursts)
    ensures Run(c, Session(bursts)).done == c.done + Frame(c.ring + Concat(Chunks(bursts))).lines <==>
            Unbroken(c.ring, Chunks(bursts))
    decreases |bursts|
  {
    if bursts == [] {
      assert c.ring + [] == c.ring && c.done + [] == c.done;
    } else {
      var b, chunks := bursts[0], Chunks(bursts[1..]);
      var f := Frame(c.ring + b.chunk);
      var g := Frame(f.rest + Concat(chunks));
      assert Chunks(bursts)[1..] == chunks;
      SessionOfMore(c, bursts);
      BurstExecutes(c, b);
      StreamOfMore(c.ring, b.chunk, Concat(chunks));
      Associative(c.done, f.lines, g.lines);
      var t := Run(c, BusyPolls(b));
      if t.state == CmdWait {
        IdlePasses(t, b.idle);
        StreamExecutedExactlyWhen(Run(t, IdlePolls(b.idle)), bursts[1..]);
      } else {
        BrokenSession(t, b.idle, bursts[1..]);
        UnbrokenExactlyWhen(c.ring, b.chunk, chunks);
        SameEnd(c.done + f.lines, [], g.lines);
        assert c.done + f.lines + [] == c.done + f.lines;
      }
    }
  }

  lemma FrameOfLineAndMore(x: seq<Byte>, end: seq<Byte>, y: seq<Byte>)
    requires CR !in x && CR !in y && |end| == 2 && end[0] == CR
    ensures Frame(x + end + y) == Framed([x], y) && FollowersPresent(x + end + y)
  {
    var s := x + end + y;
    assert s[..|x|] == x;
    FirstCRIn(s, |x|);
    assert AfterLine(s) == y;
  }

  lemma StreamOfTwoLines(x: seq<Byte>, end: seq<Byte>, y: seq<Byte>)
    requires CR !in x && CR !in y && |end| == 2 && end[0] == CR
    ensures Frame(y + end) == Framed([y], [])
    ensures Frame(x + end + y + end).lines == [x, y]
  {
    FrameOfLineAndMore(x, end, y);
    FrameOfLineAndMore(y, end, []);
    assert y + end + [] == y + end;
    ResumedFraming(x + end + y, end);
  }

  /** A chunk that is one line and nothing else. */
  lemma OneLineChunk(c: Config, data: seq<Byte>, x: seq<Byte>)
    requires Idle(c) && c.state == CmdWait && c.ring == [] && FewArgs(x)
    requires data != [] && |data| <= MAX_RECV_BUF_SIZE && Frame(data) == Framed([x], [])
    ensures var t := Run(c, [Poll(Readable(data), false)] + [QUIET, QUIET]);
            Idle(t) && t.state == CmdWait && t.ring == [] && t.done == c.done + [x]
  {
    assert c.ring + Accepted(c.ring, data) == data;
    RunToCompletion(c, data, false, [QUIET, QUIET]);
    assert Executable([x]) == 1;
  }

  /** A chunk that is one line and a part of the next one. */
  lemma LineAndMoreChunk(c: Config, data: seq<Byte>, x: seq<Byte>, y: seq<Byte>)
    requires c == INIT && data != [] && |data| <= MAX_RECV_BUF_SIZE && Frame(data) == Framed([x], y) && y != []
    ensures Idle(c)
    ensures var t := Run(c, [Poll(Readable(data), false)] + [QUIET, QUIET]);
            if FewArgs(x) then Idle(t) && t.state == CmdExecPlus && t.ring == y && t.done == [x]
            else t.overrun && !t.live && t.done == []
  {
    assert c.ring + Accepted(c.ring, data) == data;
    RunToCompletion(c, data, false, [QUIET, QUIET]);
    assert Executable([x]) == if FewArgs(x) then 1 else 0;
  }

  /** In `CmdExecPlus` a line end closes the connection. */
  lemma LineEndCloses(c: Config, end: seq<Byte>)
    requires Idle(c) && c.state == CmdExecPlus && CR !in c.ring && |end| == 2 && end[0] == CR
    requires |c.ring + end| <= MAX_RECV_BUF_SIZE
    ensures var t := Run(c, [Poll(Readable(end), false)] + [QUIET, QUIET]); !t.live && t.done == c.done
  {
    assert Accepted(c.ring, end) == end;
    FrameOfLineAndMore(c.ring, end, []);
    assert c.ring + end + [] == c.ring + end;
    ChunkExecutedExactlyWhen(c, end, false, [QUIET, QUIET]);
  }

  /**
   Two commands in one stream, cut inside the second: the stream frames to both, but the second is never
   executed, because the input that completes it closes the connection, if the first has not overrun it.
   */
  lemma SplitCommandIsLost(c: Config, x: seq<Byte>, end: seq<Byte>, y: seq<Byte>, first: seq<Poll>, second: seq<Poll>)
    requires c == INIT
    requires CR !in x && CR !in y && y != [] && |end| == 2 && end[0] == CR
    requires |x + end + y| <= MAX_RECV_BUF_SIZE && |y + end| <= MAX_RECV_BUF_SIZE
    requires first == [Poll(Readable(x + end + y), false)] + [QUIET, QUIET]
    requires second == [Poll(Readable(end), false)] + [QUIET, QUIET]
    ensures Inv(c) && Frame(x + end + y + end).lines == [x, y]
    ensures !Run(c, first + second).live && Run(c, first + second).done == if FewArgs(x) then [x] else []
  {
    FrameOfLineAndMore(x, end, y);
    StreamOfTwoLines(x, end, y);
    LineAndMoreChunk(c, x + end + y, x, y);
    RunConcat(c, first, second);
    if FewArgs(x) {
      LineEndCloses(Run(c, first), end);
    } else {
      DeadStays(Run(c, first), second);
    }
  }

  /**
   Two commands, cut between the CR and the LF of the first: both are executed, but the second with the LF
   in front of it, which costs it its name (`NameBehindLF`).
   */
  lemma PartedLineFeed(c: Config, x: seq<Byte>, y: seq<Byte>, first: seq<Poll>, second: seq<Poll>)
    requires c == INIT && CR !in x && CR !in y && FewArgs(x) && FewArgs(y)
    requires |x| < MAX_RECV_BUF_SIZE && |y| + 3 <= MAX_RECV_BUF_SIZE
    requires first == [Poll(Readable(x + [CR]), false)] + [QUIET, QUIET]
    requires second == [Poll(Readable([LF] + y + [CR, LF]), false)] + [QUIET, QUIET]
    ensures Inv(c) && Frame(x + [CR, LF] + y + [CR, LF]).lines == [x, y]
    ensures Idle(Run(c, first + second)) && Run(c, first + second).done == [x, [LF] + y]
  {
    var z := [LF] + y;
    StreamOfTwoLines(x, [CR, LF], y);
    FrameOfOneLine(x);
    FewArgsBehindLF(y);
    StreamOfTwoLines([], [CR, LF], z);
    TwoOneLineChunks(c, x + [CR], x, z + [CR, LF], z, first, second);
  }

  lemma TwoOneLineChunks(c: Config, a: seq<Byte>, x: seq<Byte>, b: seq<Byte>, y: seq<Byte>,
                         first: seq<Poll>, second: seq<Poll>)
    requires c == INIT && FewArgs(x) && FewArgs(y)
    requires a != [] && |a| <= MAX_RECV_BUF_SIZE && Frame(a) == Framed([x], [])
    requires b != [] && |b| <= MAX_RECV_BUF_SIZE && Frame(b) == Framed([y], [])
    requires first == [Poll(Readable(a), false)] + [QUIET, QUIET]
    requires second == [Poll(Readable(b), false)] + [QUIET, QUIET]
    ensures Idle(c) && Idle(Run(c, first + second)) && Run(c, first + second).done == [x, y]
  {
    OneLineChunk(c, a, x);
    OneLineChunk(Run(c, first), b, y);
    RunConcat(c, first, second);
  }

  lemma FewArgsBehindLF(y: seq<Byte>)
    requires FewArgs(y)
    ensures FewArgs([LF] + y)
  {
    assert ([LF] + y)[1..] == y;
    assert CString([LF] + y) == [LF] + CString(y);
    ArgsBehindLF(CString(y));
  }
}
