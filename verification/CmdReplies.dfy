/** What a command-server connection is told by the main loop: which messages are logged, and which are sent. */
module CmdReplies {
  import opened Common
  import opened Framing
  import opened StateTable
  import opened CmdParse
  import opened CmdServer
  import opened CmdServerRuns

  /** The messages that end in OK, FAILED and FAIL; only the first two answer a command. */
  datatype Reply = Good | Failed | Fail

  function ReplyTo(line: seq<Byte>): Reply {
    if RepliesOk(line) then Good else Failed
  }

  function Replies(lines: seq<seq<Byte>>): (rs: seq<Reply>)
    ensures |rs| == |lines|
  {
    if lines == [] then [] else [ReplyTo(lines[0])] + Replies(lines[1..])
  }

  lemma {:induction false} RepliesOfConcat(a: seq<seq<Byte>>, b: seq<seq<Byte>>)
    ensures Replies(a + b) == Replies(a) + Replies(b)
  {
    if a == [] {
      assert a + b == b;
    } else {
      assert (a + b)[1..] == a[1..] + b;
      RepliesOfConcat(a[1..], b);
    }
  }

  // ---- What one pass says ----

  /** The messages of a transition: the answer of a routine that executes a line, and FAIL on the error branch. */
  function RowSays(c: Config, row: Row<State, Event, Routine>, data: seq<Byte>): seq<Reply>
    requires |c.ring| <= MAX_RECV_BUF_SIZE
  {
    match row.transRtn
    case None => []
    case Some(r) =>
      if r == ExeCmd then (if FewArgs(c.line) then [ReplyTo(c.line)] else [])
      else if CallRoutine(c, r, data).1 == Error then [Fail] else []
  }

  function Said(c: Config, p: Poll): seq<Reply>
    requires Inv(c)
  {
    if !c.live then []
    else match NextEvent(c, p)
      case None => []
      case Some(e) => RowSays(Fetched(c), TableRow(RowIndex(c.state, e)), Received(p))
  }

  /** No line end is in what the ring holds and what it accepts of `data`. */
  predicate NoLine(c: Config, data: seq<Byte>)
    requires |c.ring| <= MAX_RECV_BUF_SIZE
  {
    data != [] && CR !in c.ring + Accepted(c.ring, data)
  }

  /** A pass takes the error branch. */
  predicate Fails(c: Config, p: Poll)
    requires Inv(c)
  {
    c.live
    && (|| (c.evts == [] && p.socket.Readable? && NoLine(c, p.socket.data))
        || (c.state == CmdExecPlus && c.evts == [CmdFinished] && CR !in c.ring))
  }

  /** A pass executes the line at hand. */
  predicate Executing(c: Config) {
    c.live && c.state == CmdAssemble && c.evts != [] && c.evts[0] != SocketShutdown && FewArgs(c.line)
  }

  lemma InputRowsSay(c: Config, i: nat, data: seq<Byte>)
    requires |c.ring| <= MAX_RECV_BUF_SIZE && (i == 1 || i == 4 || i == 7 || i == 9)
    ensures RowSays(c, TableRow(i), data) == if NoLine(c, data) then [Fail] else []
  {
  }

  lemma OtherRowsSay(c: Config, i: nat, data: seq<Byte>)
    requires |c.ring| <= MAX_RECV_BUF_SIZE && i < 11 && i != 1 && i != 4 && i != 7 && i != 9
    ensures RowSays(c, TableRow(i), data) ==
            if i == 2 || i == 3 then (if FewArgs(c.line) then [ReplyTo(c.line)] else [])
            else if i == 8 && CR !in c.ring then [Fail] else []
  {
  }

  lemma SaidIs(c: Config, p: Poll)
    requires Inv(c)
    ensures Said(c, p) == if Executing(c) then [ReplyTo(c.line)] else if Fails(c, p) then [Fail] else []
    ensures !(Executing(c) && Fails(c, p))
  {
    if c.live && NextEvent(c, p).Some? {
      var i, f := RowIndex(c.state, NextEvent(c, p).value), Fetched(c);
      if i == 1 || i == 4 || i == 7 || i == 9 {
        InputRowsSay(f, i, Received(p));
      } else {
        OtherRowsSay(f, i, Received(p));
      }
    }
  }

  /** FAIL is sent exactly when input or what is left in the ring holds no line end. */
  lemma FailExactlyWhen(c: Config, p: Poll)
    requires Inv(c)
    ensures Fail in Said(c, p) <==> Fails(c, p)
  {
    SaidIs(c, p);
  }

  /** A command is answered exactly when it is executed. */
  lemma AnsweredExactlyWhen(c: Config, p: Poll)
    requires Inv(c)
    ensures Step(c, p).done == c.done + (if Executing(c) then [c.line] else [])
  {
    if c.live {
      StepIsOutcome(c, p);
    }
    assert c.done + [] == c.done;
  }

  // ---- What whole runs say ----

  function Transcript(c: Config, polls: seq<Poll>): seq<Reply>
    requires Inv(c)
    decreases |polls|
  {
    if polls == [] then []
    else
      StepKeepsInv(c, polls[0]);
      Said(c, polls[0]) + Transcript(Step(c, polls[0]), polls[1..])
  }

  /** The answers to commands in a transcript. */
  function Answers(rs: seq<Reply>): seq<Reply> {
    if rs == [] then [] else (if rs[0] == Fail then [] else [rs[0]]) + Answers(rs[1..])
  }

  lemma {:induction false} AnswersOfConcat(a: seq<Reply>, b: seq<Reply>)
    ensures Answers(a + b) == Answers(a) + Answers(b)
  {
    if a == [] {
      assert a + b == b;
    } else {
      assert (a + b)[1..] == a[1..] + b;
      AnswersOfConcat(a[1..], b);
    }
  }

  /** The lines that a pass executes. */
  function LinesOf(c: Config): seq<seq<Byte>> {
    if Executing(c) then [c.line] else []
  }

  lemma PassAnswersLine(c: Config, p: Poll)
    requires Inv(c)
    ensures Answers(Said(c, p)) == Replies(LinesOf(c)) && Step(c, p).done == c.done + LinesOf(c)
  {
    SaidIs(c, p);
    AnsweredExactlyWhen(c, p);
  }

  lemma DoneOfMore(done: seq<seq<Byte>>, now: seq<seq<Byte>>, last: seq<seq<Byte>>)
    requires done + now <= last
    ensures done <= last && last[|done|..] == now + last[|done + now|..]
  {
  }

  /** Over every run, but for FAIL messages the transcript is the replies to the lines executed, in order. */
  lemma {:induction false} TranscriptAnswersLines(c: Config, polls: seq<Poll>)
    requires Inv(c)
    ensures c.done <= Run(c, polls).done
    ensures Answers(Transcript(c, polls)) == Replies(Run(c, polls).done[|c.done|..])
    decreases |polls|
  {
    if polls == [] {
      assert c.done[|c.done|..] == [];
    } else {
      var p, t, last := polls[0], Step(c, polls[0]), Run(c, polls).done;
      StepKeepsInv(c, p);
      PassAnswersLine(c, p);
      TranscriptAnswersLines(t, polls[1..]);
      AnswersOfConcat(Said(c, p), Transcript(t, polls[1..]));
      DoneOfMore(c.done, LinesOf(c), last);
      RepliesOfConcat(LinesOf(c), last[|t.done|..]);
    }
  }

  lemma {:induction false} TranscriptConcat(c: Config, p: seq<Poll>, q: seq<Poll>)
    requires Inv(c)
    ensures Inv(Run(c, p)) && Transcript(c, p + q) == Transcript(c, p) + Transcript(Run(c, p), q)
    decreases |p|
  {
    RunKeepsInv(c, p);
    if p == [] {
      assert p + q == q;
    } else {
      StepKeepsInv(c, p[0]);
      assert (p + q)[1..] == p[1..] + q;
      TranscriptConcat(Step(c, p[0]), p[1..], q);
    }
  }

  lemma TranscriptOfTwo(c: Config, polls: seq<Poll>)
    requires Inv(c) && |polls| >= 2
    ensures Inv(Step(c, polls[0])) && Inv(Step(Step(c, polls[0]), polls[1]))
    ensures Transcript(c, polls) ==
            Said(c, polls[0]) + Said(Step(c, polls[0]), polls[1]) +
            Transcript(Step(Step(c, polls[0]), polls[1]), polls[2..])
  {
    StepKeepsInv(c, polls[0]);
    StepKeepsInv(Step(c, polls[0]), polls[1]);
    assert polls[1..][1..] == polls[2..];
  }

  lemma {:induction false} DeadIsSilent(c: Config, polls: seq<Poll>)
    requires !c.live
    ensures Inv(c) && Transcript(c, polls) == []
    decreases |polls|
  {
    if polls != [] {
      DeadIsSilent(c, polls[1..]);
    }
  }

  /** What is said about `lines`, when `rest` is left behind them. */
  function SaidOf(lines: seq<seq<Byte>>, rest: seq<Byte>): seq<Reply> {
    Replies(lines[..Executable(lines)]) + (if Executable(lines) == |lines| && rest != [] then [Fail] else [])
  }

  lemma SaidOfMore(line: seq<Byte>, lines: seq<seq<Byte>>, rest: seq<Byte>)
    ensures SaidOf([line] + lines, rest) == if FewArgs(line) then [ReplyTo(line)] + SaidOf(lines, rest) else []
  {
    if FewArgs(line) {
      ExecutableOfMore(line, lines);
      RepliesOfConcat([line], lines[..Executable(lines)]);
    }
  }

  /** What the two passes of a line say: its answer, and FAIL when bytes are left that are no line. */
  function LineSays(c: Config): seq<Reply> {
    if !FewArgs(c.line) then [] else [ReplyTo(c.line)] + (if CR !in c.ring && c.ring != [] then [Fail] else [])
  }

  lemma LineTranscript(c: Config, polls: seq<Poll>)
    requires Inv(c) && c.live && c.state == CmdAssemble && c.evts != [SocketShutdown] && |polls| >= 2
    ensures Inv(Step(c, polls[0])) && Inv(Step(Step(c, polls[0]), polls[1]))
    ensures Transcript(c, polls) == LineSays(c) + Transcript(Step(Step(c, polls[0]), polls[1]), polls[2..])
  {
    var p, q := polls[0], polls[1];
    TranscriptOfTwo(c, polls);
    StepIsOutcome(c, p);
    SaidIs(c, p);
    SaidIs(Step(c, p), q);
    assert Said(c, p) + Said(Step(c, p), q) == LineSays(c);
  }

  lemma {:induction false} QueuedLinesTranscript(c: Config, polls: seq<Poll>)
    requires Inv(c) && c.live && c.state == CmdAssemble && c.evts != [SocketShutdown]
    requires |polls| == 2 + 2 * |Frame(c.ring).lines|
    ensures Transcript(c, polls) == SaidOf([c.line] + Frame(c.ring).lines, Frame(c.ring).rest)
    decreases |polls|
  {
    var f := Frame(c.ring);
    LineTranscript(c, polls);
    OneLine(c, polls[0], polls[1]);
    SaidOfMore(c.line, f.lines, f.rest);
    var t := Step(Step(c, polls[0]), polls[1]);
    if !FewArgs(c.line) {
      DeadIsSilent(t, polls[2..]);
    } else if CR in c.ring {
      QueuedLinesTranscript(t, polls[2..]);
      assert [t.line] + Frame(t.ring).lines == f.lines;
    } else {
      assert f == Framed([], c.ring) && polls[2..] == [];
      assert SaidOf([], c.ring) == if c.ring != [] then [Fail] else [];
    }
  }

  lemma TranscriptOfMore(c: Config, p: Poll, polls: seq<Poll>)
    requires Inv(c)
    ensures Inv(Step(c, p)) && Transcript(c, [p] + polls) == Said(c, p) + Transcript(Step(c, p), polls)
  {
    StepKeepsInv(c, p);
    assert ([p] + polls)[1..] == polls;
  }

  /** Input that completes a line says nothing, and leaves that line at hand and the others in the ring. */
  lemma InputWithLine(c: Config, p: Poll, all: seq<Byte>)
    requires Idle(c) && c.state == CmdWait && p.socket.Readable? && p.socket.data != []
    requires all == c.ring + Accepted(c.ring, p.socket.data) && CR in all
    ensures var t := Step(c, p);
            && Inv(t) && t.live && t.state == CmdAssemble && t.evts != [SocketShutdown] && Said(c, p) == []
            && Frame(all) == Framed([t.line] + Frame(t.ring).lines, Frame(t.ring).rest)
  {
    StepKeepsInv(c, p);
    StepIsOutcome(c, p);
    SaidIs(c, p);
  }

  /** Input that completes none is answered FAIL. */
  lemma InputWithoutLine(c: Config, p: Poll, all: seq<Byte>)
    requires Idle(c) && c.state == CmdWait && p.socket.Readable? && p.socket.data != []
    requires all == c.ring + Accepted(c.ring, p.socket.data) && CR !in all
    ensures all != [] && Frame(all) == Framed([], all) && Said(c, p) == [Fail] == SaidOf([], all)
  {
    SaidIs(c, p);
  }

  /**
   What a waiting connection says to a chunk, until it waits again: the answers to the lines that are
   executed, and FAIL exactly when bytes are left over behind them.
   */
  lemma ChunkTranscript(c: Config, data: seq<Byte>, timerFired: bool, polls: seq<Poll>)
    requires Idle(c) && c.state == CmdWait && data != []
    requires |polls| == 2 * |Frame(c.ring + Accepted(c.ring, data)).lines|
    ensures var f := Frame(c.ring + Accepted(c.ring, data));
            Transcript(c, [Poll(Readable(data), timerFired)] + polls) == SaidOf(f.lines, f.rest)
  {
    var p := Poll(Readable(data), timerFired);
    var all := c.ring + Accepted(c.ring, data);
    TranscriptOfMore(c, p, polls);
    if CR in all {
      InputWithLine(c, p, all);
      QueuedLinesTranscript(Step(c, p), polls);
    } else {
      InputWithoutLine(c, p, all);
    }
  }

  // ---- Sessions ----

  /** Bytes without a line end get a FAIL, before any command has been sent. */
  lemma StartOfLineFails(s: seq<Byte>)
    requires s != [] && CR !in s
    ensures Inv(INIT) && Transcript(INIT, [Poll(Readable(s), false)]) == [Fail]
  {
    var p := Poll(Readable(s), false);
    SaidIs(INIT, p);
    assert CR !in INIT.ring + Accepted(INIT.ring, s);
    assert [p][1..] == [];
  }

  lemma ChunkThatFits(c: Config, data: seq<Byte>, polls: seq<Poll>)
    requires Idle(c) && c.state == CmdWait && c.ring == [] && data != [] && |data| <= MAX_RECV_BUF_SIZE
    requires |polls| == 2 * |Frame(data).lines|
    ensures Transcript(c, [Poll(Readable(data), false)] + polls) == SaidOf(Frame(data).lines, Frame(data).rest)
  {
    assert c.ring + Accepted(c.ring, data) == data;
    ChunkTranscript(c, data, false, polls);
  }

  lemma SaidOfOne(x: seq<Byte>, y: seq<Byte>)
    requires FewArgs(x)
    ensures SaidOf([x], y) == [ReplyTo(x)] + if y != [] then [Fail] else []
  {
    SaidOfMore(x, [], y);
    assert [x] + [] == [x];
  }

  /** A command and a part of the next one in a chunk: one command is executed, and gets its answer and a FAIL. */
  lemma LineAndMoreFails(c: Config, data: seq<Byte>, x: seq<Byte>, y: seq<Byte>)
    requires c == INIT && FewArgs(x) && data != [] && |data| <= MAX_RECV_BUF_SIZE
    requires Frame(data) == Framed([x], y) && y != []
    ensures Inv(c)
    ensures var polls := [Poll(Readable(data), false)] + [QUIET, QUIET];
            Run(c, polls).done == [x] && Transcript(c, polls) == [ReplyTo(x), Fail]
  {
    LineAndMoreChunk(c, data, x, y);
    ChunkThatFits(c, data, [QUIET, QUIET]);
    SaidOfOne(x, y);
  }

  /** A chunk that is one command is answered once. */
  lemma OneLineTranscript(c: Config, data: seq<Byte>, x: seq<Byte>)
    requires Idle(c) && c.state == CmdWait && c.ring == [] && FewArgs(x)
    requires data != [] && |data| <= MAX_RECV_BUF_SIZE && Frame(data) == Framed([x], [])
    ensures Transcript(c, [Poll(Readable(data), false)] + [QUIET, QUIET]) == [ReplyTo(x)]
  {
    ChunkThatFits(c, data, [QUIET, QUIET]);
    SaidOfOne(x, []);
  }

  /**
   What a connection is told when two commands are cut between the CR and the LF of the first: FAILED to
   the second if it has no arguments, although it would be OK on its own.
   */
  lemma PartedLineFeedFailsCommand(c: Config, x: seq<Byte>, y: seq<Byte>, first: seq<Poll>, second: seq<Poll>)
    requires c == INIT && CR !in x && CR !in y && FewArgs(x) && |Args(CString(y))| == 1
    requires y != [] && y[0] != NUL && y[0] != LF && !IsDelimiter(y[0])
    requires |x| < MAX_RECV_BUF_SIZE && |y| + 3 <= MAX_RECV_BUF_SIZE
    requires first == [Poll(Readable(x + [CR]), false)] + [QUIET, QUIET]
    requires second == [Poll(Readable([LF] + y + [CR, LF]), false)] + [QUIET, QUIET]
    ensures Inv(c) && Replies(Frame(x + [CR, LF] + y + [CR, LF]).lines) == [ReplyTo(x), ReplyTo(y)]
    ensures Transcript(c, first + second) == [ReplyTo(x), Failed]
  {
    var z := [LF] + y;
    PartedLineFeed(c, x, y, first, second);
    RepliesToTwo(x, y);
    FrameOfOneLine(x);
    FewArgsBehindLF(y);
    StreamOfTwoLines([], [CR, LF], z);
    TwoLinesTranscript(c, x + [CR], x, z + [CR, LF], z, first, second);
    NameFailsBehindLF(y);
  }

  lemma RepliesToTwo(x: seq<Byte>, y: seq<Byte>)
    ensures Replies([x, y]) == [ReplyTo(x), ReplyTo(y)]
  {
    assert [x, y][1..] == [y] && [y][1..] == [];
  }

  lemma NameFailsBehindLF(y: seq<Byte>)
    requires y != [] && y[0] != NUL && y[0] != LF && !IsDelimiter(y[0]) && |Args(CString(y))| == 1
    ensures ReplyTo([LF] + y) == Failed
  {
    NameBehindLF(y);
  }

  /** Two chunks that are one command each are answered one by one. */
  lemma TwoLinesTranscript(c: Config, a: seq<Byte>, x: seq<Byte>, b: seq<Byte>, y: seq<Byte>,
                           first: seq<Poll>, second: seq<Poll>)
    requires c == INIT && FewArgs(x) && FewArgs(y)
    requires a != [] && |a| <= MAX_RECV_BUF_SIZE && Frame(a) == Framed([x], [])
    requires b != [] && |b| <= MAX_RECV_BUF_SIZE && Frame(b) == Framed([y], [])
    requires first == [Poll(Readable(a), false)] + [QUIET, QUIET]
    requires second == [Poll(Readable(b), false)] + [QUIET, QUIET]
    ensures Idle(c) && Transcript(c, first + second) == [ReplyTo(x), ReplyTo(y)]
  {
    OneLineChunk(c, a, x);
    OneLineTranscript(c, a, x);
    OneLineTranscript(Run(c, first), b, y);
    TranscriptConcat(c, first, second);
  }

  // ---- The log level ----

  /** The level of all these messages; a message is sent when its level is not below the log level. */
  const LOG_LVL_ALWAYS := 5

  predicate Heard(level: int) {
    LOG_LVL_ALWAYS >= level
  }

  /** The log level after a pass: an accepted command can have set it. */
  function LevelAfter(c: Config, level: int): int {
    if Executing(c) then LineLevel(c.line, level) else level
  }

  /** The log level after a row, which is what `LevelAfter` says of the row that is run. */
  function RowLevel(c: Config, row: Row<State, Event, Routine>, level: int): int {
    if row.transRtn == Some(ExeCmd) then LineLevel(c.line, level) else level
  }

  lemma LevelAfterIs(c: Config, p: Poll, level: int)
    requires Inv(c) && c.live && NextEvent(c, p).Some?
    ensures LevelAfter(c, level) == RowLevel(Fetched(c), TableRow(RowIndex(c.state, NextEvent(c, p).value)), level)
  {
    var i := RowIndex(c.state, NextEvent(c, p).value);
    assert TableRow(i).transRtn == Some(ExeCmd) <==> i == 2 || i == 3;
  }

  lemma StatusIgnoresTimer(c: Config, r: Routine, data: seq<Byte>)
    requires |c.ring| <= MAX_RECV_BUF_SIZE
    ensures CallRoutine(c.(timer := 0), r, data).1 == CallRoutine(c, r, data).1
  {
  }

  /** A pass, and the level other connections have set the shared log level to before it, if they have. */
  datatype Pass = Pass(poll: Poll, level: Option<int>)

  function LevelBefore(pass: Pass, level: int): int {
    if pass.level.Some? then pass.level.value else level
  }

  function Polls(passes: seq<Pass>): (polls: seq<Poll>)
    ensures |polls| == |passes|
    ensures forall i :: 0 <= i < |passes| ==> polls[i] == passes[i].poll
  {
    if passes == [] then [] else [passes[0].poll] + Polls(passes[1..])
  }

  /** The messages of a run that are sent; what a pass says goes out at the level the pass leaves behind. */
  function Sent(c: Config, level: int, passes: seq<Pass>): seq<Reply>
    requires Inv(c)
    decreases |passes|
  {
    if passes == [] then []
    else
      var p, after := passes[0].poll, LevelAfter(c, LevelBefore(passes[0], level));
      StepKeepsInv(c, p);
      (if Heard(after) then Said(c, p) else []) + Sent(Step(c, p), after, passes[1..])
  }

  lemma FirstPass(c: Config, level: int, passes: seq<Pass>)
    requires Inv(c) && passes != []
    ensures var p, after := passes[0].poll, LevelAfter(c, LevelBefore(passes[0], level));
            && Inv(Step(c, p)) && Run(c, Polls(passes)) == Run(Step(c, p), Polls(passes[1..]))
            && Sent(c, level, passes) ==
               (if Heard(after) then Said(c, p) else []) + Sent(Step(c, p), after, passes[1..])
  {
    StepKeepsInv(c, passes[0].poll);
    assert Polls(passes)[1..] == Polls(passes[1..]);
  }

  lemma {:induction false} DeadSendsNothing(c: Config, level: int, passes: seq<Pass>)
    requires !c.live
    ensures Inv(c) && Sent(c, level, passes) == []
    decreases |passes|
  {
    if passes != [] {
      DeadSendsNothing(c, LevelBefore(passes[0], level), passes[1..]);
    }
  }

  /** At every pass that says something its messages are sent. */
  predicate AllHeard(c: Config, level: int, passes: seq<Pass>)
    requires Inv(c)
    decreases |passes|
  {
    if passes == [] then true
    else
      var p, after := passes[0].poll, LevelAfter(c, LevelBefore(passes[0], level));
      StepKeepsInv(c, p);
      (Said(c, p) == [] || after <= 5) && AllHeard(Step(c, p), after, passes[1..])
  }

  /** At no pass that says something are its messages sent. */
  predicate NoneHeard(c: Config, level: int, passes: seq<Pass>)
    requires Inv(c)
    decreases |passes|
  {
    if passes == [] then true
    else
      var p, after := passes[0].poll, LevelAfter(c, LevelBefore(passes[0], level));
      StepKeepsInv(c, p);
      (Said(c, p) == [] || after > 5) && NoneHeard(Step(c, p), after, passes[1..])
  }

  lemma SplitEqual<T>(a: seq<T>, b: seq<T>, a': seq<T>, b': seq<T>)
    requires |a| <= |a'| && |b| <= |b'|
    ensures a + b == a' + b' <==> a == a' && b == b'
  {
    if a + b == a' + b' {
      assert a == (a + b)[..|a|] && b == (a + b)[|a|..];
      assert a' == (a' + b')[..|a'|] && b' == (a' + b')[|a'|..];
    }
  }

  /** A run sends all it says, or nothing, exactly when every pass does. */
  lemma {:induction false} SentExactlyWhen(c: Config, level: int, passes: seq<Pass>)
    requires Inv(c)
    ensures |Sent(c, level, passes)| <= |Transcript(c, Polls(passes))|
    ensures Sent(c, level, passes) == Transcript(c, Polls(passes)) <==> AllHeard(c, level, passes)
    ensures Sent(c, level, passes) == [] <==> NoneHeard(c, level, passes)
    decreases |passes|
  {
    if passes != [] {
      var p, after := passes[0].poll, LevelAfter(c, LevelBefore(passes[0], level));
      StepKeepsInv(c, p);
      SentExactlyWhen(Step(c, p), after, passes[1..]);
      assert Polls(passes)[1..] == Polls(passes[1..]);
      SplitEqual(if Heard(after) then Said(c, p) else [], Sent(Step(c, p), after, passes[1..]),
                 Said(c, p), Transcript(Step(c, p), Polls(passes[1..])));
    }
  }

  /** Who is not heard stays so until the level is set again, by anybody. */
  predicate NobodySetsLevel(c: Config, passes: seq<Pass>)
    requires Inv(c)
    decreases |passes|
  {
    if passes == [] then true
    else
      StepKeepsInv(c, passes[0].poll);
      && passes[0].level == None
      && (Executing(c) ==> !AcceptsArgs(Args(CString(c.line)), SET_LOG_LVL))
      && NobodySetsLevel(Step(c, passes[0].poll), passes[1..])
  }

  /** As long as nobody sets the level, a level of at most 5 has everything sent, and a higher one nothing. */
  lemma {:induction false} SteadyLevelDecides(c: Config, level: int, passes: seq<Pass>)
    requires Inv(c) && NobodySetsLevel(c, passes)
    ensures Sent(c, level, passes) == if level <= 5 then Transcript(c, Polls(passes)) else []
    decreases |passes|
  {
    if passes != [] {
      StepKeepsInv(c, passes[0].poll);
      assert Polls(passes)[1..] == Polls(passes[1..]);
      SteadyLevelDecides(Step(c, passes[0].poll), level, passes[1..]);
    }
  }

  lemma StaysSilent(c: Config, level: int, passes: seq<Pass>)
    requires Inv(c) && level > 5 && NobodySetsLevel(c, passes)
    ensures Sent(c, level, passes) == []
  {
    SteadyLevelDecides(c, level, passes);
  }

  lemma SentOfMore(c: Config, level: int, pass: Pass, later: seq<Pass>)
    requires Inv(c) && Said(c, pass.poll) == []
    ensures Inv(Step(c, pass.poll))
    ensures Sent(c, level, [pass] + later) ==
            Sent(Step(c, pass.poll), LevelAfter(c, LevelBefore(pass, level)), later)
  {
    StepKeepsInv(c, pass.poll);
    assert ([pass] + later)[1..] == later;
  }

  /**
   An accepted command that sets the log level above 5: it is executed and answered OK, but neither that
   answer is sent nor anything that is said until the level is set again.
   */
  lemma SettingLevelSilences(c: Config, level: int, p: Poll, later: seq<Pass>)
    requires Inv(c) && Executing(c) && AcceptsArgs(Args(CString(c.line)), SET_LOG_LVL)
    requires LineLevel(c.line, level) > 5
    requires Inv(Step(c, p)) && NobodySetsLevel(Step(c, p), later)
    ensures Said(c, p) == [Good] && Sent(c, level, [Pass(p, None)] + later) == []
  {
    SaidIs(c, p);
    assert Accepts(CString(c.line), SET_LOG_LVL);
    assert ([Pass(p, None)] + later)[1..] == later;
    StaysSilent(Step(c, p), LineLevel(c.line, level), later);
  }

  lemma FrameIsOneLine(data: seq<Byte>, x: seq<Byte>)
    requires Frame(data) == Framed([x], [])
    ensures CR in data && data[..FirstCR(data)] == x && AfterLine(data) == []
  {
    var f := Frame(AfterLine(data));
    assert Frame(data).lines[0] == data[..FirstCR(data)] && Frame(data).lines[1..] == f.lines;
    assert CR in AfterLine(data) ==> f.lines != [];
  }

  /** A chunk that is one line gets it assembled. */
  lemma LineAssembled(c: Config, data: seq<Byte>, x: seq<Byte>)
    requires Idle(c) && c.state == CmdWait && c.ring == []
    requires data != [] && |data| <= MAX_RECV_BUF_SIZE && Frame(data) == Framed([x], [])
    ensures var t, p := Step(c, Poll(Readable(data), false)), Poll(Readable(data), false);
            && Inv(t) && t.live && t.state == CmdAssemble && t.evts == [AssembleComplete] && t.line == x
            && Said(c, p) == [] && !Executing(c)
  {
    var p := Poll(Readable(data), false);
    assert c.ring + Accepted(c.ring, data) == data;
    FrameIsOneLine(data, x);
    StepKeepsInv(c, p);
    StepIsOutcome(c, p);
    SaidIs(c, p);
  }

  /** The level that a line is executed at: what was set last, by others or before. */
  function LevelAt(level: int, first: Pass, second: Pass): int {
    if second.level.Some? then second.level.value else if first.level.Some? then first.level.value else level
  }

  lemma SentOfLine(t: Config, level: int, second: Pass, third: Pass)
    requires Inv(t) && t.live && t.state == CmdAssemble && t.evts == [AssembleComplete] && t.ring == [] && FewArgs(t.line)
    ensures Sent(t, level, [second, third]) ==
            if LineLevel(t.line, LevelBefore(second, level)) <= 5 then [ReplyTo(t.line)] else []
  {
    var p, q := second.poll, third.poll;
    var u := Step(t, p);
    StepKeepsInv(t, p);
    StepIsOutcome(t, p);
    StepKeepsInv(u, q);
    SaidIs(t, p);
    SaidIs(u, q);
    assert [second, third][1..] == [third] && [third][1..] == [];
    assert Said(u, q) == [] && Sent(u, LevelAfter(t, LevelBefore(second, level)), [third]) == [];
  }

  /**
   A chunk that is one line, over its three passes: its answer is sent exactly when the level that the line
   leaves behind is at most 5.
   */
  lemma OneLineSent(c: Config, level: int, data: seq<Byte>, x: seq<Byte>, passes: seq<Pass>)
    requires Idle(c) && c.state == CmdWait && c.ring == [] && FewArgs(x)
    requires data != [] && |data| <= MAX_RECV_BUF_SIZE && Frame(data) == Framed([x], [])
    requires |passes| == 3 && passes[0].poll == Poll(Readable(data), false)
    ensures var at := LevelAt(level, passes[0], passes[1]);
            && Sent(c, level, passes) == (if LineLevel(x, at) <= 5 then [ReplyTo(x)] else [])
            && (!AcceptsArgs(Args(CString(x)), SET_LOG_LVL) ==>
                  Sent(c, level, passes) == if at <= 5 then [ReplyTo(x)] else [])
  {
    LineAssembled(c, data, x);
    var t := Step(c, passes[0].poll);
    SentOfMore(c, level, passes[0], [passes[1], passes[2]]);
    assert passes == [passes[0]] + [passes[1], passes[2]];
    SentOfLine(t, LevelBefore(passes[0], level), passes[1], passes[2]);
  }

  /** For instance `setloglvl` with a digit from 6 on, sent to a waiting connection in a chunk of its own. */
  lemma SetLogLvlSilences(c: Config, level: int, d: Byte, line: seq<Byte>, later: seq<Pass>)
    requires Idle(c) && c.state == CmdWait && c.ring == [] && '6' <= d <= '9'
    requires line == CmdRow(SET_LOG_LVL).cmdStr + [SPACE] + [d]
    ensures Frame(line + [CR]) == Framed([line], [])
    ensures var p := Poll(Readable(line + [CR]), false);
            && Inv(Step(c, p)) && Executing(Step(c, p)) && Said(Step(c, p), QUIET) == [Good]
            && (Inv(Step(Step(c, p), QUIET)) && NobodySetsLevel(Step(Step(c, p), QUIET), later) ==>
                  Sent(c, level, [Pass(p, None)] + ([Pass(QUIET, None)] + later)) == [])
  {
    var data := line + [CR];
    var p := Poll(Readable(data), false);
    LevelOfDigit(d, level);
    FrameOfOneLine(line);
    LineAssembled(c, data, line);
    SaidIs(Step(c, p), QUIET);
    if Inv(Step(Step(c, p), QUIET)) && NobodySetsLevel(Step(Step(c, p), QUIET), later) {
      SettingLevelSilences(Step(c, p), level, QUIET, later);
      SentOfMore(c, level, Pass(p, None), [Pass(QUIET, None)] + later);
    }
  }
}
