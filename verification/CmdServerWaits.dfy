/** A command-server connection among other devices: how long its queued lines wait for the dispatcher. */
module CmdServerWaits {
  import opened Common
  import opened RoundRobin
  import opened Turns
  import opened CmdParse
  import opened Framing
  import opened CmdServer
  import opened CmdServerRuns

  /** A turn of the connection. */
  function StepAny(c: Config, p: Poll): Config {
    if Inv(c) then Step(c, p) else c
  }

  /** An event is queued, and so the event descriptor is readable. */
  predicate Queued(c: Config) {
    Inv(c) && c.live && c.evts != []
  }

  /** With an event queued a connection does the same whatever `poll` reports. */
  lemma QueuedIsSettled()
    ensures Settled(StepAny, Queued, QUIET)
  {
    forall c, p | Queued(c) ensures StepAny(c, p) == StepAny(c, QUIET) {
      StepIsOutcome(c, p);
      StepIsOutcome(c, QUIET);
    }
  }

  function Quiets(k: nat): seq<Poll> {
    seq(k, _ => QUIET)
  }

  lemma {:induction false} IterateIsRun(c: Config, k: nat)
    requires Inv(c)
    ensures Iterate(StepAny, QUIET, c, k) == Run(c, Quiets(k))
    decreases k
  {
    if k > 0 {
      StepKeepsInv(c, QUIET);
      assert Quiets(k)[1..] == Quiets(k - 1);
      IterateIsRun(Step(c, QUIET), k - 1);
    }
  }

  /** No line in `s` has too many arguments. */
  predicate FewIn(s: seq<Byte>)
    decreases |s|
  {
    CR in s ==> FewArgs(s[..FirstCR(s)]) && FewIn(AfterLine(s))
  }

  lemma {:induction false} FewInIsExecutable(s: seq<Byte>)
    ensures FewIn(s) <==> Executable(Frame(s).lines) == |Frame(s).lines|
    decreases |s|
  {
    if CR in s {
      var line, lines := s[..FirstCR(s)], Frame(AfterLine(s)).lines;
      FewInIsExecutable(AfterLine(s));
      assert Frame(s).lines == [line] + lines;
      if FewArgs(line) {
        ExecutableOfMore(line, lines);
      }
    }
  }

  /** A line at hand makes events for two turns, and for more if the next one is assembled then. */
  lemma BusyForLine(c: Config, k: nat)
    requires Inv(c) && c.live && c.state == CmdAssemble && c.evts != [SocketShutdown] && FewArgs(c.line)
    requires k >= 2 && Busy(StepAny, Queued, QUIET, StepAny(StepAny(c, QUIET), QUIET), k - 2)
    ensures Busy(StepAny, Queued, QUIET, c, k)
  {
    var d := StepAny(c, QUIET);
    StepKeepsInv(c, QUIET);
    StepIsOutcome(c, QUIET);
    assert Queued(c) && Queued(d);
    assert Busy(StepAny, Queued, QUIET, d, k - 1);
  }

  /** What two turns make of the line at hand, when another one is in the ring. */
  lemma NextLine(c: Config)
    requires Inv(c) && c.live && c.state == CmdAssemble && c.evts != [SocketShutdown]
    requires FewArgs(c.line) && FewIn(c.ring) && CR in c.ring
    ensures var t := StepAny(StepAny(c, QUIET), QUIET);
            && Inv(t) && t.live && t.state == CmdAssemble && t.evts != [SocketShutdown]
            && FewArgs(t.line) && FewIn(t.ring) && |t.ring| < |c.ring|
            && |Frame(c.ring).lines| == 1 + |Frame(t.ring).lines|
  {
    OneLine(c, QUIET, QUIET);
    StepKeepsInv(Step(c, QUIET), QUIET);
  }

  /** As long as lines are queued, there is an event for every turn. */
  lemma {:induction false} BusyWithLines(c: Config, n: nat, k: nat)
    requires Inv(c) && c.live && c.state == CmdAssemble && c.evts != [SocketShutdown]
    requires FewArgs(c.line) && FewIn(c.ring) && n == |Frame(c.ring).lines| && k == 2 + 2 * n
    ensures Busy(StepAny, Queued, QUIET, c, k)
    decreases n, 1
  {
    BusyBehindLine(c, StepAny(StepAny(c, QUIET), QUIET), n, k - 2);
    BusyForLine(c, k);
  }

  lemma {:induction false} BusyBehindLine(c: Config, t: Config, n: nat, k: nat)
    requires Inv(c) && c.live && c.state == CmdAssemble && c.evts != [SocketShutdown]
    requires FewArgs(c.line) && FewIn(c.ring) && n == |Frame(c.ring).lines| && k == 2 * n
    requires t == StepAny(StepAny(c, QUIET), QUIET)
    ensures Busy(StepAny, Queued, QUIET, t, k)
    decreases n, 0
  {
    if n > 0 {
      NextLine(c);
      BusyWithLines(t, n - 1, k);
    }
  }

  /** `t` has executed the line at hand in `c` and those in its ring, and waits. */
  predicate AllExecuted(c: Config, t: Config) {
    Idle(t) && t.done == c.done + ([c.line] + Frame(c.ring).lines) && t.ring == Frame(c.ring).rest
  }

  lemma LinesRun(c: Config, n: nat, k: nat)
    requires Inv(c) && c.live && c.state == CmdAssemble && c.evts != [SocketShutdown]
    requires FewArgs(c.line) && FewIn(c.ring) && n == |Frame(c.ring).lines| && k == 2 + 2 * n
    ensures AllExecuted(c, Iterate(StepAny, QUIET, c, k))
  {
    var lines := Frame(c.ring).lines;
    QueuedLinesRun(c, Quiets(k));
    FewInIsExecutable(c.ring);
    ExecutableOfMore(c.line, lines);
    assert ([c.line] + lines)[..1 + n] == [c.line] + lines;
    IterateIsRun(c, k);
  }

  /**
   A connection with a line at hand and `n` more in the ring has executed them after at most
   `(2 + 2 * n) * MAX_DEVICES` waits, whatever the other devices do, as long as the table stays as it is,
   its event descriptor has slot `p`, and no line has too many arguments.
   */
  lemma LinesAreExecutedInTime(c: Config, n: nat, k: nat, last: nat, mine: set<nat>, p: nat, waits: seq<Wait<Poll>>)
    returns (m: nat)
    requires Inv(c) && c.live && c.state == CmdAssemble && c.evts != [SocketShutdown]
    requires FewArgs(c.line) && FewIn(c.ring) && n == |Frame(c.ring).lines| && k == 2 + 2 * n
    requires last <= MAX_DEVICES && Whole(waits) && p < MAX_DEVICES && p in mine
    requires Signalled(StepAny, Queued, c, last, mine, p, waits, 0) && |waits| >= k * MAX_DEVICES
    ensures m <= k * MAX_DEVICES && AllExecuted(c, After(StepAny, c, last, mine, waits, 0, m))
  {
    BusyWithLines(c, n, k);
    QueuedIsSettled();
    m := GetsTurns(StepAny, Queued, QUIET, c, last, mine, p, waits, 0, k);
    LinesRun(c, n, k);
  }
}
